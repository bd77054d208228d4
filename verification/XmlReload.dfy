/** Documents that were loaded from any text: their values can always be written again, and
    so can the documents when their names and keys can. */
module XmlReload {
  import opened Wrappers
  import opened XmlBuilder
  import opened XmlRoundTrip
  import opened XmlText

  ghost predicate GoodKeys(ps: seq<Prop>) {
    forall i :: 0 <= i < |ps| ==> GoodKey(ps[i].key)
  }

  ghost predicate GoodValues(ps: seq<Prop>) {
    forall i :: 0 <= i < |ps| ==> GoodValue(ps[i].value)
  }

  // ------------------------------------------------------------ the values of a tag

  lemma {:induction false} EscapedValue(u: string, i: nat, n: nat)
    requires n <= |u| && ValueEnd(u, i, n).Some?
    ensures Escaped(u[i..ValueEnd(u, i, n).value])
    decreases n - i
  {
    var e := ValueEnd(u, i, n).value;
    var v := u[i..e];
    if u[i] == '\\' {
      EscapedValue(u, i + 2, n);
      assert v[2..] == u[i + 2..e];
    } else if u[i] != '"' {
      EscapedValue(u, i + 1, n);
      assert v[1..] == u[i + 1..e];
    }
  }

  lemma AttributeValue(u: string, i: nat, n: nat)
    requires n <= |u| && NextAttribute(u, i, n).Some? && forall k :: 0 <= k < n ==> ValueChar(u[k])
    ensures GoodValue(NextAttribute(u, i, n).value.prop.value)
  {
    hide Scan, ValueEnd, Escaped;
    var v := Scan(u, Scan(u, Scan(u, Scan(u, i, n, NonSpace), n, SpaceOrEq), n, Eq), n, Quote) + 1;
    EscapedValue(u, v, n);
  }

  lemma {:induction false} AttributeValues(u: string, i: nat, n: nat)
    requires n <= |u| && forall k :: 0 <= k < n ==> ValueChar(u[k])
    ensures GoodValues(Attributes(u, i, n))
    decreases n - i
  {
    hide NextAttribute, GoodValue;
    if NextAttribute(u, i, n).Some? {
      AttributeValue(u, i, n);
      AttributeValues(u, NextAttribute(u, i, n).value.next, n);
    }
  }

  /** Every value that the tag reader gives can be written again. */
  lemma TagValues(t: string)
    requires |t| >= 2
    ensures GoodValues(ReadTag(t).props)
  {
    hide Scan, Attributes, GoodValues;
    var n := TagLimit(t);
    var u := Normal(t, n);
    AttributeValues(u, Scan(u, Scan(u, 1, n, NonSpace), n, Space), n);
  }

  // ------------------------------------------------------------- whole documents

  /** A tag that a writable item can have. */
  ghost predicate GoodTag(g: Tag) {
    GoodName(g.name) && GoodProps(g.props)
  }

  /** A tag whose name and keys can be written. */
  ghost predicate Legible(g: Tag) {
    GoodName(g.name) && GoodKeys(g.props)
  }

  ghost predicate AllGood(gs: seq<Tag>) {
    forall g :: g in gs ==> GoodTag(g)
  }

  lemma AllGoodConcat(a: seq<Tag>, b: seq<Tag>)
    ensures AllGood(a + b) <==> AllGood(a) && AllGood(b)
  {
    hide GoodTag;
    assert forall g :: g in a + b <==> g in a || g in b;
  }

  lemma {:induction false} WritableTags(t: Tree)
    ensures Writable(t) <==> AllGood(Flat(t))
    decreases t
  {
    hide AllGood, GoodName, GoodProps;
    AllWritableTags(t.kids);
    AllGoodConcat([Tag(t.name, t.props)], FlatAll(t.kids));
    OneGood(Tag(t.name, t.props));
  }

  lemma OneGood(g: Tag)
    ensures AllGood([g]) <==> GoodTag(g)
  {
    hide GoodTag;
    assert g in [g];
  }

  lemma {:induction false} AllWritableTags(ts: seq<Tree>)
    ensures AllWritable(ts) <==> AllGood(FlatAll(ts))
    decreases ts
  {
    hide AllGood;
    if ts != [] {
      WritableTags(ts[0]);
      AllWritableTags(ts[1..]);
      AllGoodConcat(Flat(ts[0]), FlatAll(ts[1..]));
    } else {
      NoneGood();
    }
  }

  lemma NoneGood()
    ensures AllGood([])
  {
  }

  lemma {:induction false} KeptValues(tags: seq<string>, st: State)
    requires Live(st) && forall i :: 0 <= i < |tags| ==> IsToken(tags[i])
    ensures forall g :: g in Kept(tags, st) ==> GoodValues(g.props)
    decreases |tags|
  {
    hide ReadTag, Step, GoodValues;
    if tags != [] && st.State? {
      TagValues(tags[0]);
      KeptValues(tags[1..], Step(st, tags[0]));
    }
  }

  lemma GoodIfLegible(g: Tag)
    requires GoodValues(g.props)
    ensures GoodTag(g) <==> Legible(g)
  {
  }

  /** A loaded document can be written exactly when the names and keys of its tags can. */
  lemma LoadedWritable(rootName: string, rootProps: seq<Prop>, s: string)
    requires Parse(rootName, rootProps, s).Some?
    ensures AllWritable(Parse(rootName, rootProps, s).value.kids) <==>
      forall g :: g in Kept(Tokens(s, 0), Start(rootName, rootProps)) ==> Legible(g)
  {
    hide Tokens, Kept, Parse, FlatAll, GoodTag, Legible, GoodValues;
    var doc, gs := Parse(rootName, rootProps, s).value, Kept(Tokens(s, 0), Start(rootName, rootProps));
    LoadKeepsOrder(rootName, rootProps, s);
    AllWritableTags(doc.kids);
    assert Flat(doc)[1..] == FlatAll(doc.kids) && ([Tag(rootName, rootProps)] + gs)[1..] == gs;
    KeptValues(Tokens(s, 0), Start(rootName, rootProps));
    forall g | g in gs
      ensures GoodTag(g) <==> Legible(g)
    {
      GoodIfLegible(g);
    }
  }

  /** Any text that loads, with names and keys that can be written: printing the document and
      loading it again gives its items, without those the printer drops. */
  lemma Reload(rootName: string, rootProps: seq<Prop>, s: string)
    requires Parse(rootName, rootProps, s).Some?
    requires forall g :: g in Kept(Tokens(s, 0), Start(rootName, rootProps)) ==> Legible(g)
    ensures var kids := Parse(rootName, rootProps, s).value.kids;
      Parse(rootName, rootProps, PrintDoc(kids)) == Some(Node(rootName, rootProps, PruneAll(kids)))
  {
    hide Tokens, Kept, Parse, PrintDoc, AllWritable, Legible;
    LoadedWritable(rootName, rootProps, s);
    RoundTrip(rootName, rootProps, Parse(rootName, rootProps, s).value.kids);
  }
}
