/** Reading back what the printer wrote: the tokenizer, the tag reader and the tree
    builder together invert the printer, up to the items that the printer drops. */
module XmlRoundTrip {
  import opened Occurrences
  import opened Wrappers
  import opened XmlText

  // ------------------------------------------------------ what can be written

  predicate NameChar(c: char) {
    c != ' ' && c != '\t' && c != '\r' && c != '\n' && c != '"' && c != '\\' && c != '>'
  }

  predicate KeyChar(c: char) {
    NameChar(c) && c != '='
  }

  predicate ValueChar(c: char) {
    c != '\t' && c != '\r' && c != '\n'
  }

  ghost predicate GoodName(n: string) {
    n != "" && n[0] != '/' && n[|n| - 1] != '/' && forall k :: 0 <= k < |n| ==> NameChar(n[k])
  }

  ghost predicate GoodKey(x: string) {
    forall k :: 0 <= k < |x| ==> KeyChar(x[k])
  }

  /** Every quote is escaped and the last escape is complete. */
  predicate Escaped(v: string) {
    v == "" ||
    (if v[0] == '\\' then |v| >= 2 && Escaped(v[2..]) else v[0] != '"' && Escaped(v[1..]))
  }

  ghost predicate GoodValue(v: string) {
    Escaped(v) && forall k :: 0 <= k < |v| ==> ValueChar(v[k])
  }

  ghost predicate GoodProps(ps: seq<Prop>) {
    forall i :: 0 <= i < |ps| ==> GoodKey(ps[i].key) && GoodValue(ps[i].value)
  }

  ghost predicate Writable(t: Tree)
    decreases t
  {
    GoodName(t.name) && GoodProps(t.props) && AllWritable(t.kids)
  }

  ghost predicate AllWritable(ts: seq<Tree>)
    decreases ts
  {
    ts != [] ==> Writable(ts[0]) && AllWritable(ts[1..])
  }

  /** Drops every item that has no properties and no child left. */
  function Prune(t: Tree): seq<Tree>
    decreases t
  {
    var kids := PruneAll(t.kids);
    if kids == [] && t.props == [] then [] else [Node(t.name, t.props, kids)]
  }

  function PruneAll(ts: seq<Tree>): seq<Tree>
    decreases ts
  {
    if ts == [] then [] else Prune(ts[0]) + PruneAll(ts[1..])
  }

  lemma {:induction false} ScanIs(u: string, i: nat, n: nat, stop: Stop, j: nat)
    requires i <= j <= n <= |u|
    requires forall k :: i <= k < j ==> !Stops(u[k], stop)
    requires j < n ==> Stops(u[j], stop)
    ensures Scan(u, i, n, stop) == j
    decreases j - i
  {
    if i < j {
      ScanIs(u, i + 1, n, stop, j);
    }
  }

  // ----------------------------------------------------------- reading one tag

  lemma {:induction false} ValueEndAt(u: string, i: nat, n: nat, v: string)
    requires n <= |u| && At(u, i, v) && Escaped(v)
    requires i + |v| < n && u[i + |v|] == '"'
    ensures ValueEnd(u, i, n) == Some(i + |v|)
    decreases |v|
  {
    if v != "" {
      AtIndex(u, i, v);
      var d := if v[0] == '\\' then 2 else 1;
      assert v == v[..d] + v[d..];
      AtConcat(u, i, v[..d], v[d..]);
      ValueEndAt(u, i + d, n, v[d..]);
    }
  }

  /** The pieces of a printed property, in the order in which the reader meets them. */
  lemma PropAt(u: string, i: nat, p: Prop)
    requires At(u, i, PropText(p))
    ensures |PropText(p)| == 4 + |p.key| + |p.value| && i + |PropText(p)| <= |u|
    ensures At(u, i + 1, p.key) && At(u, i + 3 + |p.key|, p.value)
    ensures u[i] == ' ' && u[i + 1 + |p.key|] == '=' && u[i + 2 + |p.key|] == '"'
    ensures u[i + 3 + |p.key| + |p.value|] == '"'
  {
    var sp, eq, qu := " ", "=\"", "\"";
    AtConcat3(u, i, sp + p.key + eq, p.value, qu);
    AtConcat3(u, i, sp, p.key, eq);
    AtIndex(u, i, sp);
    AtIndex(u, i + 1 + |p.key|, eq);
    AtIndex(u, i + 3 + |p.key| + |p.value|, qu);
  }

  /** Printed properties are the first one followed by the others. */
  lemma PropsAt(u: string, i: nat, ps: seq<Prop>)
    requires ps != [] && At(u, i, PropsText(ps))
    ensures At(u, i, PropText(ps[0])) && At(u, i + |PropText(ps[0])|, PropsText(ps[1..]))
    ensures |PropsText(ps)| == |PropText(ps[0])| + |PropsText(ps[1..])|
  {
    AtConcat(u, i, PropText(ps[0]), PropsText(ps[1..]));
  }

  lemma AttributeAt(u: string, i: nat, n: nat, p: Prop)
    requires n <= |u| && At(u, i, PropText(p)) && i + |PropText(p)| <= n
    requires GoodKey(p.key) && GoodValue(p.value)
    ensures NextAttribute(u, i, n) == Some(Attribute(p, i + |PropText(p)|))
  {
    hide At, PropText, Scan, ValueEnd, Escaped;
    PropAt(u, i, p);
    var k0, k1, v := i + 1, i + 1 + |p.key|, i + 3 + |p.key|;
    AtIndex(u, k0, p.key);
    ScanIs(u, i, n, NonSpace, k0);
    ScanIs(u, k0, n, SpaceOrEq, k1);
    ScanIs(u, k1, n, Eq, k1);
    ScanIs(u, k1, n, Quote, k1 + 1);
    ValueEndAt(u, v, n, p.value);
  }

  lemma {:induction false} AttributesAt(u: string, i: nat, n: nat, ps: seq<Prop>)
    requires n <= |u| && At(u, i, PropsText(ps)) && i + |PropsText(ps)| == n && GoodProps(ps)
    ensures Attributes(u, i, n) == ps
    decreases |ps|
  {
    hide At, PropText, NextAttribute, Attributes, GoodProps, GoodKey, GoodValue;
    if ps != [] {
      PropsAt(u, i, ps);
      GoodTail(ps);
      AttributeAt(u, i, n, ps[0]);
      AttributesAt(u, i + |PropText(ps[0])|, n, ps[1..]);
      FirstAttribute(u, i, n);
    } else {
      NoAttribute(u, i);
    }
  }

  lemma GoodTail(ps: seq<Prop>)
    requires GoodProps(ps) && ps != []
    ensures GoodKey(ps[0].key) && GoodValue(ps[0].value) && GoodProps(ps[1..])
  {
  }

  lemma FirstAttribute(u: string, i: nat, n: nat)
    requires i <= n <= |u| && NextAttribute(u, i, n).Some?
    ensures var a := NextAttribute(u, i, n).value; Attributes(u, i, n) == [a.prop] + Attributes(u, a.next, n)
  {
    hide NextAttribute;
  }

  lemma NoAttribute(u: string, n: nat)
    requires n <= |u|
    ensures Attributes(u, n, n) == []
  {
  }

  ghost predicate NoBreaks(x: string) {
    forall k :: 0 <= k < |x| ==> ValueChar(x[k])
  }

  lemma PropTextShape(p: Prop)
    requires GoodKey(p.key) && GoodValue(p.value)
    ensures NoBreaks(PropText(p)) && PropText(p)[0] == ' ' && PropText(p)[|PropText(p)| - 1] == '"'
  {
    assert forall k :: 0 <= k < |p.key| ==> KeyChar(p.key[k]) && ValueChar(p.key[k]);
  }

  lemma {:induction false} PropsTextShape(ps: seq<Prop>)
    requires GoodProps(ps)
    ensures NoBreaks(PropsText(ps))
    ensures ps != [] ==> PropsText(ps) != "" && PropsText(ps)[0] == ' ' && PropsText(ps)[|PropsText(ps)| - 1] == '"'
    decreases |ps|
  {
    if ps != [] {
      PropTextShape(ps[0]);
      PropsTextShape(ps[1..]);
    }
  }

  /** A printed tag, piece by piece. */
  lemma TagAt(s: string, i: nat, name: string, ps: seq<Prop>, end: bool)
    requires At(s, i, TagText(name, ps, end))
    ensures |TagText(name, ps, end)| == 2 + |name| + |PropsText(ps)| + (if end then 1 else 0)
    ensures i + |TagText(name, ps, end)| <= |s|
    ensures s[i] == '<' && At(s, i + 1, name) && At(s, i + 1 + |name|, PropsText(ps))
    ensures s[i + |TagText(name, ps, end)| - 1] == '>'
    ensures end ==> s[i + 1 + |name| + |PropsText(ps)|] == '/'
  {
    hide At, PropsText;
    var lt, q, z := "<", PropsText(ps), if end then "/>" else ">";
    AtConcat3(s, i, lt + name, q, z);
    AtConcat(s, i, lt, name);
    AtIndex(s, i, lt);
    AtIndex(s, i + 1 + |name| + |q|, z);
  }

  /** Reading a tag whose pieces are known; `m` is where its attributes end. */
  lemma ReadPieces(t: string, name: string, ps: seq<Prop>, m: nat)
    requires |t| >= 2 && TagLimit(t) == m == 1 + |name| + |PropsText(ps)| && NoBreaks(t[..m])
    requires GoodName(name) && GoodProps(ps)
    requires At(t, 1, name) && At(t, 1 + |name|, PropsText(ps))
    requires ps != [] ==> t[1 + |name|] == ' '
    ensures ReadTag(t) == Tag(name, ps)
  {
    assert Normal(t, m) == t by {
      forall k | 0 <= k < m
        ensures ValueChar(t[k])
      {
        assert ValueChar(t[..m][k]);
      }
    }
    AtIndex(t, 1, name);
    ScanIs(t, 1, m, NonSpace, 1);
    ScanIs(t, 1, m, Space, 1 + |name|);
    AttributesAt(t, 1 + |name|, m, ps);
  }

  lemma TagHead(name: string, ps: seq<Prop>, end: bool)
    ensures var t, m := TagText(name, ps, end), 1 + |name| + |PropsText(ps)|;
      m <= |t| && t[..m] == "<" + name + PropsText(ps)
  {
    hide PropsText;
  }

  lemma HeadNoBreaks(name: string, q: string)
    requires GoodName(name) && NoBreaks(q)
    ensures NoBreaks("<" + name + q)
  {
    assert forall k :: 0 <= k < |name| ==> NameChar(name[k]) && ValueChar(name[k]);
  }

  lemma TagShape(name: string, ps: seq<Prop>, end: bool)
    requires GoodName(name) && GoodProps(ps)
    ensures var t, m := TagText(name, ps, end), 1 + |name| + |PropsText(ps)|;
      && IsToken(t) && TagLimit(t) == m && NoBreaks(t[..m])
      && At(t, 1, name) && At(t, 1 + |name|, PropsText(ps))
      && (ps != [] ==> t[1 + |name|] == ' ')
      && (t[|t| - 2] == '/' <==> end)
  {
    hide At, TagText, NoBreaks, GoodProps;
    var t, q := TagText(name, ps, end), PropsText(ps);
    var m := 1 + |name| + |q|;
    PropsTextShape(ps);
    AtStart(t);
    TagAt(t, 0, name, ps, end);
    AtIndex(t, 1, name);
    AtIndex(t, 1 + |name|, q);
    TagHead(name, ps, end);
    HeadNoBreaks(name, q);
    assert t[m - 1] == if q == "" then name[|name| - 1] else q[|q| - 1];
  }

  /** The tag reader inverts the tag printer. */
  lemma TagRoundTrip(name: string, ps: seq<Prop>, end: bool)
    requires GoodName(name) && GoodProps(ps)
    ensures ReadTag(TagText(name, ps, end)) == Tag(name, ps)
  {
    TagShape(name, ps, end);
    ReadPieces(TagText(name, ps, end), name, ps, 1 + |name| + |PropsText(ps)|);
  }

  lemma ClosingTag(name: string)
    requires GoodName(name)
    ensures ReadTag(CloseText(name)) == Tag("/" + name, []) && IsToken(CloseText(name))
  {
    var t := CloseText(name);
    var m := 2 + |name|;
    assert TagLimit(t) == m;
    var u := Normal(t, m);
    assert u == t;
    ScanIs(u, 1, m, NonSpace, 1);
    ScanIs(u, 1, m, Space, m);
    assert u[1..m] == "/" + name;
  }

  // ------------------------------------------------------------ finding one tag

  lemma {:induction false} PlainRun(s: string, i: nat, j: nat, quoted: bool)
    requires i <= j <= |s|
    requires forall k :: i <= k < j ==> s[k] != '"' && s[k] != '\\' && (quoted || s[k] != '>')
    ensures TagEnd(s, i, quoted) == TagEnd(s, j, quoted)
    decreases j - i
  {
    if i < j {
      PlainRun(s, i + 1, j, quoted);
    }
  }

  lemma {:induction false} EndRun(s: string, i: nat, e: nat)
    requires i < e <= |s| && s[e - 1] == '>'
    requires forall k :: i <= k < e - 1 ==> s[k] == '/'
    ensures TagEnd(s, i, false) == Some(e)
    decreases e - i
  {
    if i < e - 1 {
      EndRun(s, i + 1, e);
    }
  }

  lemma {:induction false} ValueRun(s: string, i: nat, v: string)
    requires At(s, i, v) && Escaped(v)
    ensures TagEnd(s, i, true) == TagEnd(s, i + |v|, true)
    decreases |v|
  {
    if v != "" {
      var d := if v[0] == '\\' then 2 else 1;
      assert v == v[..d] + v[d..];
      AtConcat(s, i, v[..d], v[d..]);
      ValueRun(s, i + d, v[d..]);
    }
  }

  lemma PropPieces(s: string, i: nat, key: string, v: nat, value: string)
    requires v == i + 3 + |key| && v + |value| < |s|
    requires At(s, i + 1, key) && At(s, v, value) && GoodKey(key) && GoodValue(value)
    requires s[i] == ' ' && s[v - 2] == '=' && s[v - 1] == '"' && s[v + |value|] == '"'
    ensures TagEnd(s, i, false) == TagEnd(s, v + |value| + 1, false)
  {
    AtIndex(s, i + 1, key);
    PlainRun(s, i, v - 1, false);
    ValueRun(s, v, value);
  }

  lemma PropRun(s: string, i: nat, p: Prop)
    requires At(s, i, PropText(p)) && GoodKey(p.key) && GoodValue(p.value)
    ensures TagEnd(s, i, false) == TagEnd(s, i + |PropText(p)|, false)
  {
    PropAt(s, i, p);
    PropPieces(s, i, p.key, i + 3 + |p.key|, p.value);
  }

  lemma {:induction false} PropsRun(s: string, i: nat, ps: seq<Prop>)
    requires At(s, i, PropsText(ps)) && GoodProps(ps)
    ensures TagEnd(s, i, false) == TagEnd(s, i + |PropsText(ps)|, false)
    decreases |ps|
  {
    hide At, PropText, TagEnd, GoodProps, GoodKey, GoodValue;
    if ps != [] {
      PropsAt(s, i, ps);
      GoodTail(ps);
      PropRun(s, i, ps[0]);
      PropsRun(s, i + |PropText(ps[0])|, ps[1..]);
    }
  }

  lemma PiecesFound(s: string, i: nat, name: string, ps: seq<Prop>, e: nat)
    requires GoodName(name) && GoodProps(ps) && i < e <= |s|
    requires s[i] == '<' && At(s, i + 1, name) && At(s, i + 1 + |name|, PropsText(ps))
    requires i + 2 + |name| + |PropsText(ps)| <= e && s[e - 1] == '>'
    requires forall k :: i + 1 + |name| + |PropsText(ps)| <= k < e - 1 ==> s[k] == '/'
    ensures TagEnd(s, i, false) == Some(e)
  {
    hide At, PropsText, TagEnd, GoodProps;
    var m := i + 1 + |name|;
    AtIndex(s, i + 1, name);
    PlainRun(s, i, m, false);
    PropsRun(s, m, ps);
    EndRun(s, m + |PropsText(ps)|, e);
  }

  lemma TagFound(s: string, i: nat, name: string, ps: seq<Prop>, end: bool)
    requires GoodName(name) && GoodProps(ps) && At(s, i, TagText(name, ps, end))
    ensures TagEnd(s, i, false) == Some(i + |TagText(name, ps, end)|)
  {
    TagAt(s, i, name, ps, end);
    PiecesFound(s, i, name, ps, i + |TagText(name, ps, end)|);
  }

  lemma ClosingFound(s: string, i: nat, name: string)
    requires GoodName(name) && At(s, i, CloseText(name))
    ensures TagEnd(s, i, false) == Some(i + |CloseText(name)|)
  {
    AtIndex(s, i, CloseText(name));
    PlainRun(s, i, i + 2 + |name|, false);
  }

  lemma {:induction false} OpenFromPad(s: string, i: nat, j: nat)
    requires i <= j <= |s|
    requires forall k :: i <= k < j ==> s[k] != '<'
    ensures OpenFrom(s, i) == OpenFrom(s, j)
    decreases j - i
  {
    if i < j {
      OpenFromPad(s, i + 1, j);
    }
  }

  /** No tag starts in that range. */
  ghost predicate NoTag(s: string, i: nat, j: nat) {
    i <= j <= |s| && forall k :: i <= k < j ==> s[k] != '<'
  }

  lemma NextTokenAt(s: string, pos: nat, i: nat, text: string)
    requires NoTag(s, pos, i) && At(s, i, text) && IsToken(text)
    requires TagEnd(s, i, false) == Some(i + |text|)
    ensures NextToken(s, pos) == Some(Token(text, i + |text|))
  {
    assert s[i] == s[i..i + |text|][0];
    OpenFromPad(s, pos, i);
  }

  lemma TokensSkip(s: string, pos: nat, next: nat)
    requires NoTag(s, pos, next)
    ensures Tokens(s, pos) == Tokens(s, next)
  {
    OpenFromPad(s, pos, next);
  }

  /** One tag is read and what surrounds it is skipped. */
  lemma TokensTag(s: string, pos: nat, i: nat, text: string, next: nat)
    requires NoTag(s, pos, i) && At(s, i, text) && IsToken(text) && NoTag(s, i + |text|, next)
    requires TagEnd(s, i, false) == Some(i + |text|)
    ensures Tokens(s, pos) == [text] + Tokens(s, next)
  {
    hide At, TagEnd, NextToken, NoTag;
    NextTokenAt(s, pos, i, text);
    TokensSkip(s, i + |text|, next);
  }

  lemma TokensOpening(s: string, pos: nat, i: nat, name: string, ps: seq<Prop>, end: bool, next: nat)
    requires NoTag(s, pos, i) && At(s, i, TagText(name, ps, end)) && NoTag(s, i + |TagText(name, ps, end)|, next)
    requires GoodName(name) && GoodProps(ps)
    ensures Tokens(s, pos) == [TagText(name, ps, end)] + Tokens(s, next)
  {
    TagFound(s, i, name, ps, end);
    TagShape(name, ps, end);
    TokensTag(s, pos, i, TagText(name, ps, end), next);
  }

  lemma TokensClosing(s: string, pos: nat, i: nat, name: string, next: nat)
    requires NoTag(s, pos, i) && At(s, i, CloseText(name)) && NoTag(s, i + |CloseText(name)|, next)
    requires GoodName(name)
    ensures Tokens(s, pos) == [CloseText(name)] + Tokens(s, next)
  {
    ClosingFound(s, i, name);
    ClosingTag(name);
    TokensTag(s, pos, i, CloseText(name), next);
  }

  // -------------------------------------------------- the tags of one document

  /** The tags that the printer writes for an item. */
  function Tags(tab: string, t: Tree, top: bool): seq<string>
    decreases t
  {
    if IsElement(tab, t, top) then
      [TagText(t.name, t.props, false)] + AllTags(tab + "\t", t.kids, false) + [CloseText(t.name)]
    else if t.props != [] then [TagText(t.name, t.props, true)]
    else []
  }

  function AllTags(tab: string, ts: seq<Tree>, top: bool): seq<string>
    decreases ts
  {
    if ts == [] then [] else Tags(tab, ts[0], top) + AllTags(tab, ts[1..], top)
  }

  ghost predicate Tabs(tab: string) {
    forall k :: 0 <= k < |tab| ==> tab[k] == '\t'
  }

  lemma LineAt(s: string, pos: nat, tab: string, x: string, crlf: string)
    requires At(s, pos, tab + x + crlf) && Tabs(tab) && crlf == "\r\n"
    ensures NoTag(s, pos, pos + |tab|) && At(s, pos + |tab|, x)
    ensures NoTag(s, pos + |tab| + |x|, pos + |tab| + |x| + 2)
  {
    AtConcat3(s, pos, tab, x, crlf);
    AtIndex(s, pos, tab);
    AtIndex(s, pos + |tab| + |x|, crlf);
  }

  predicate IsElement(tab: string, t: Tree, top: bool) {
    var inner := PrintItems(tab + "\t", t.kids, false);
    inner != "" || (t.props != [] && top)
  }

  /** An item that is printed over several lines: opening tag, children, closing tag. */
  lemma ElementAt(s: string, pos: nat, tab: string, t: Tree, top: bool)
    returns (i: nat, inner: nat, outer: nat, j: nat, next: nat)
    requires At(s, pos, PrintItem(tab, t, top)) && Tabs(tab) && IsElement(tab, t, top)
    ensures NoTag(s, pos, i) && At(s, i, TagText(t.name, t.props, false))
    ensures NoTag(s, i + |TagText(t.name, t.props, false)|, inner)
    ensures At(s, inner, PrintItems(tab + "\t", t.kids, false))
    ensures outer == inner + |PrintItems(tab + "\t", t.kids, false)| && NoTag(s, outer, j)
    ensures At(s, j, CloseText(t.name)) && NoTag(s, j + |CloseText(t.name)|, next)
    ensures next == pos + |PrintItem(tab, t, top)|
  {
    hide TagText, CloseText;
    var tag, close, crlf := TagText(t.name, t.props, false), CloseText(t.name), "\r\n";
    var body := PrintItems(tab + "\t", t.kids, false);
    AtConcat3(s, pos, tab + tag + crlf, body, tab + close + crlf);
    i := pos + |tab|;
    inner := i + |tag| + 2;
    outer := inner + |body|;
    j := outer + |tab|;
    next := j + |close| + 2;
    LineAt(s, pos, tab, tag, crlf);
    LineAt(s, outer, tab, close, crlf);
  }

  lemma LeafAt(s: string, pos: nat, tab: string, t: Tree, tag: string)
    requires t.props != [] && PrintItems(tab + "\t", t.kids, false) == "" && tag == TagText(t.name, t.props, true)
    requires At(s, pos, PrintItem(tab, t, false)) && Tabs(tab)
    ensures NoTag(s, pos, pos + |tab|) && At(s, pos + |tab|, tag)
    ensures |PrintItem(tab, t, false)| == |tab| + |tag| + 2
    ensures NoTag(s, pos + |tab| + |tag|, pos + |tab| + |tag| + 2)
  {
    LineAt(s, pos, tab, tag, "\r\n");
  }

  lemma {:induction false} TokensItem(s: string, pos: nat, tab: string, t: Tree, top: bool)
    requires At(s, pos, PrintItem(tab, t, top)) && Tabs(tab) && Writable(t)
    ensures Tokens(s, pos) == Tags(tab, t, top) + Tokens(s, pos + |PrintItem(tab, t, top)|)
    decreases t
  {
    hide Tokens, TagText, CloseText;
    if IsElement(tab, t, top) {
      var i, inner, outer, j, next := ElementAt(s, pos, tab, t, top);
      TokensOpening(s, pos, i, t.name, t.props, false, inner);
      TokensItems(s, inner, tab + "\t", t.kids, false);
      TokensClosing(s, outer, j, t.name, next);
    } else if t.props != [] {
      var tag := TagText(t.name, t.props, true);
      LeafAt(s, pos, tab, t, tag);
      TokensOpening(s, pos, pos + |tab|, t.name, t.props, true, pos + |tab| + |tag| + 2);
    }
  }

  /** The tokenizer finds exactly the tags that the printer wrote. */
  lemma {:induction false} TokensItems(s: string, pos: nat, tab: string, ts: seq<Tree>, top: bool)
    requires At(s, pos, PrintItems(tab, ts, top)) && Tabs(tab) && AllWritable(ts)
    ensures Tokens(s, pos) == AllTags(tab, ts, top) + Tokens(s, pos + |PrintItems(tab, ts, top)|)
    decreases ts
  {
    hide Tokens, PrintItem, Tags;
    if ts != [] {
      AtConcat(s, pos, PrintItem(tab, ts[0], top), PrintItems(tab, ts[1..], top));
      TokensItem(s, pos, tab, ts[0], top);
      TokensItems(s, pos + |PrintItem(tab, ts[0], top)|, tab, ts[1..], top);
    }
  }

  // ---------------------------------------------------- building from those tags

  lemma {:induction false} NothingPrinted(tab: string, ts: seq<Tree>)
    ensures PrintItems(tab, ts, false) == "" <==> PruneAll(ts) == []
    decreases ts
  {
    if ts != [] {
      NothingPrinted(tab + "\t", ts[0].kids);
      NothingPrinted(tab, ts[1..]);
    }
  }

  lemma AddKidsTwice(open: seq<Frame>, a: seq<Tree>, b: seq<Tree>)
    requires open != []
    ensures AddKids(AddKids(open, a), b) == AddKids(open, a + b)
  {
    var kids := open[|open| - 1].kids;
    assert kids + a + b == kids + (a + b);
  }

  lemma AddNoKids(open: seq<Frame>)
    requires open != []
    ensures AddKids(open, []) == open
  {
    var f := open[|open| - 1];
    assert f.(kids := f.kids + []) == f;
  }

  lemma AddToEmpty(open: seq<Frame>, f: Frame, ts: seq<Tree>)
    requires f.kids == []
    ensures AddKids(open + [f], ts) == open + [f.(kids := ts)]
  {
    assert (open + [f])[..|open|] == open && f.kids + ts == ts;
  }

  lemma StepOpening(open: seq<Frame>, closing: string, name: string, ps: seq<Prop>, end: bool)
    requires Consistent(open, closing) && GoodName(name) && GoodProps(ps)
    ensures IsToken(TagText(name, ps, end))
    ensures Step(State(open, closing), TagText(name, ps, end)) ==
      if end then State(AddKids(open, [Node(name, ps, [])]), closing)
      else State(open + [Frame(name, ps, [])], "/" + name)
  {
    TagShape(name, ps, end);
    TagRoundTrip(name, ps, end);
  }

  lemma StepClosing(open: seq<Frame>, f: Frame)
    requires open != [] && GoodName(f.name)
    ensures IsToken(CloseText(f.name))
    ensures var r := AddKids(open, [CloseFrame(f)]);
      Step(State(open + [f], "/" + f.name), CloseText(f.name)) == State(r, "/" + LastName(r))
  {
    ClosingTag(f.name);
    PopPushed(open, f);
  }

  ghost predicate AreTokens(tags: seq<string>) {
    forall k :: 0 <= k < |tags| ==> IsToken(tags[k])
  }

  lemma {:induction false} BuildConcat(a: seq<string>, b: seq<string>, st: State)
    requires Live(st) && AreTokens(a) && AreTokens(b)
    ensures AreTokens(a + b) && Build(a + b, st) == Build(b, Build(a, st))
    decreases |a|
  {
    if a == [] {
      assert a + b == b;
    } else {
      assert (a + b)[1..] == a[1..] + b;
      BuildConcat(a[1..], b, Step(st, a[0]));
    }
  }

  lemma BuildOne(tag: string, st: State)
    requires Live(st) && IsToken(tag)
    ensures Build([tag], st) == Step(st, tag)
  {
  }

  lemma BuildThree(a: string, b: seq<string>, c: string, st: State)
    requires Live(st) && IsToken(a) && AreTokens(b) && IsToken(c)
    ensures AreTokens([a] + b + [c]) && Build([a] + b + [c], st) == Step(Build(b, Step(st, a)), c)
  {
    BuildConcat([a] + b, [c], st);
    BuildConcat([a], b, st);
    BuildOne(a, st);
    BuildOne(c, Build(b, Step(st, a)));
  }

  lemma {:induction false} TagsAreTokens(tab: string, t: Tree, top: bool)
    requires Writable(t)
    ensures AreTokens(Tags(tab, t, top))
    decreases t
  {
    hide TagText, CloseText, IsToken;
    AllTagsAreTokens(tab + "\t", t.kids, false);
    TagShape(t.name, t.props, false);
    TagShape(t.name, t.props, true);
    ClosingTag(t.name);
  }

  lemma {:induction false} AllTagsAreTokens(tab: string, ts: seq<Tree>, top: bool)
    requires AllWritable(ts)
    ensures AreTokens(AllTags(tab, ts, top))
    decreases ts
  {
    if ts != [] {
      TagsAreTokens(tab, ts[0], top);
      AllTagsAreTokens(tab, ts[1..], top);
    }
  }

  lemma {:induction false} BuildElement(tab: string, t: Tree, top: bool, open: seq<Frame>, closing: string)
    returns (closing': string)
    requires IsElement(tab, t, top) && Writable(t) && Consistent(open, closing) && AreTokens(Tags(tab, t, top))
    ensures Consistent(AddKids(open, [Node(t.name, t.props, PruneAll(t.kids))]), closing')
    ensures Build(Tags(tab, t, top), State(open, closing)) ==
      State(AddKids(open, [Node(t.name, t.props, PruneAll(t.kids))]), closing')
    decreases t, 0
  {
    hide Build, Step, TagText, CloseText, IsToken;
    var f := Frame(t.name, t.props, []);
    StepOpening(open, closing, t.name, t.props, false);
    AllTagsAreTokens(tab + "\t", t.kids, false);
    var closing1 := BuildItems(tab + "\t", t.kids, false, open + [f], "/" + t.name);
    var g := f.(kids := PruneAll(t.kids));
    AddToEmpty(open, f, PruneAll(t.kids));
    StepClosing(open, g);
    BuildThree(TagText(t.name, t.props, false), AllTags(tab + "\t", t.kids, false), CloseText(t.name),
               State(open, closing));
    closing' := "/" + LastName(AddKids(open, [CloseFrame(g)]));
  }

  lemma {:induction false} BuildItem(tab: string, t: Tree, top: bool, open: seq<Frame>, closing: string)
    returns (closing': string)
    requires Writable(t) && Consistent(open, closing) && AreTokens(Tags(tab, t, top))
    ensures Consistent(AddKids(open, Prune(t)), closing')
    ensures Build(Tags(tab, t, top), State(open, closing)) == State(AddKids(open, Prune(t)), closing')
    decreases t, 1
  {
    NothingPrinted(tab + "\t", t.kids);
    if IsElement(tab, t, top) {
      closing' := BuildElement(tab, t, top, open, closing);
    } else if t.props == [] {
      AddNoKids(open);
      closing' := closing;
    } else {
      StepOpening(open, closing, t.name, t.props, true);
      BuildOne(TagText(t.name, t.props, true), State(open, closing));
      closing' := closing;
    }
  }

  /** The builder turns those tags into the items that the printer does not drop. */
  lemma {:induction false} BuildItems(tab: string, ts: seq<Tree>, top: bool, open: seq<Frame>, closing: string)
    returns (closing': string)
    requires AllWritable(ts) && Consistent(open, closing) && AreTokens(AllTags(tab, ts, top))
    ensures Consistent(AddKids(open, PruneAll(ts)), closing')
    ensures Build(AllTags(tab, ts, top), State(open, closing)) == State(AddKids(open, PruneAll(ts)), closing')
    decreases ts, 2
  {
    if ts == [] {
      AddNoKids(open);
      closing' := closing;
    } else {
      TagsAreTokens(tab, ts[0], top);
      AllTagsAreTokens(tab, ts[1..], top);
      var closing1 := BuildItem(tab, ts[0], top, open, closing);
      closing' := BuildItems(tab, ts[1..], top, AddKids(open, Prune(ts[0])), closing1);
      BuildConcat(Tags(tab, ts[0], top), AllTags(tab, ts[1..], top), State(open, closing));
      AddKidsTwice(open, Prune(ts[0]), PruneAll(ts[1..]));
    }
  }

  // ------------------------------------------------------------- main theorems

  lemma TokensAtEnd(s: string)
    ensures Tokens(s, |s|) == []
  {
  }

  /** Loading a printed document gives back its items, without those the printer drops. */
  lemma RoundTrip(rootName: string, rootProps: seq<Prop>, ts: seq<Tree>)
    requires AllWritable(ts)
    ensures Parse(rootName, rootProps, PrintDoc(ts)) == Some(Node(rootName, rootProps, PruneAll(ts)))
  {
    hide Tokens, Build, PrintItems, AllTags;
    var s, x, st := PrintDoc(ts), PrintItems("", ts, true), Start(rootName, rootProps);
    assert s[1..] == x;
    TokensSkip(s, 0, 1);
    TokensItems(s, 1, "", ts, true);
    TokensAtEnd(s);
    assert AllTags("", ts, true) + [] == AllTags("", ts, true);
    var closing := BuildItems("", ts, true, st.open, st.closing);
    AddToEmpty([], Frame(rootName, rootProps, []), PruneAll(ts));
  }

  lemma {:induction false} PrunedPrint(tab: string, t: Tree, top: bool)
    ensures PrintItems(tab, Prune(t), top) == PrintItem(tab, t, top)
    decreases t
  {
    PrunedPrintAll(tab + "\t", t.kids, false);
    NothingPrinted(tab + "\t", t.kids);
    NothingPrinted(tab + "\t", PruneAll(t.kids));
  }

  lemma {:induction false} PrintConcat(tab: string, a: seq<Tree>, b: seq<Tree>, top: bool)
    ensures PrintItems(tab, a + b, top) == PrintItems(tab, a, top) + PrintItems(tab, b, top)
    decreases a
  {
    if a == [] {
      assert a + b == b;
    } else {
      assert (a + b)[1..] == a[1..] + b;
      PrintConcat(tab, a[1..], b, top);
    }
  }

  /** What the printer drops does not show: printing the reloaded document gives the same text. */
  lemma {:induction false} PrunedPrintAll(tab: string, ts: seq<Tree>, top: bool)
    ensures PrintItems(tab, PruneAll(ts), top) == PrintItems(tab, ts, top)
    decreases ts
  {
    if ts != [] {
      PrunedPrint(tab, ts[0], top);
      PrunedPrintAll(tab, ts[1..], top);
      PrintConcat(tab, Prune(ts[0]), PruneAll(ts[1..]), top);
    }
  }

  lemma Reprint(ts: seq<Tree>)
    ensures PrintDoc(PruneAll(ts)) == PrintDoc(ts)
  {
    PrunedPrintAll("", ts, true);
  }
}
