/** Merging the items of several templates into one item. */
module TemplateMerge {
  import opened Repeats
  import opened XmlItems
  import opened XmlProps
  import opened XmlShapes
  import opened XmlText

  /** Sets every property of `item` on `first`. */
  method CopyProperties(first: XmlItem, item: XmlItem, ghost m: Arena) returns (ghost m': Arena)
    requires Linked(m) && first in m && item in m && first != item
    modifies first`props
    ensures m' == m[first := m[first].(props := SetAll(m[first].props, m[item].props))]
    ensures Linked(m')
  {
    hide Linked, SetAll;
    ChildrenOf(m, first);
    ChildrenOf(m, item);
    SetProperties(first, item);
    m' := m[first := m[first].(props := first.props)];
    PropertiesChanged(m, m', first);
  }

  method SetProperties(first: XmlItem, item: XmlItem)
    requires first != item
    modifies first`props
    ensures first.props == SetAll(old(first.props), item.props)
  {
    hide SetAll;
    ghost var qs := item.props;
    var i := 0;
    assert qs[0..] == qs;
    while i < |item.props|
      invariant 0 <= i <= |qs| && item.props == qs
      invariant SetAll(first.props, qs[i..]) == SetAll(old(first.props), qs)
    {
      SetAllStep(first.props, qs, i);
      first.SetValue(item.props[i].key, item.props[i].value);
      i := i + 1;
    }
    SetAllDone(first.props, qs[i..]);
  }

  /** Moves all children of `item` behind those of `first`. */
  method MoveChildren(first: XmlItem, item: XmlItem, ghost m: Arena) returns (ghost m': Arena)
    requires Linked(m) && first in m && item in m && first != item && first !in m[item].kids
    modifies m.Keys
    ensures m' == m[first := m[first].(kids := m[first].kids + m[item].kids)][item := m[item].(kids := [])]
    ensures Linked(m')
  {
    hide Linked, RemoveAt, InsertAt, IndexOf;
    ghost var kids := m[item].kids;
    ghost var i := 0;
    m' := m;
    ChildrenOf(m, item);
    var sub := item.firstChild;
    assert m[first].kids + kids[..0] == m[first].kids && kids[0..] == kids;
    assert m == m[first := m[first].(kids := m[first].kids + kids[..0])][item := m[item].(kids := kids[0..])];
    while sub != null
      invariant Linked(m') && 0 <= i <= |kids| && sub == if i < |kids| then kids[i] else null
      invariant m' == m[first := m[first].(kids := m[first].kids + kids[..i])][item := m[item].(kids := kids[i..])]
      decreases |kids| - i
    {
      FirstOf(m', item, kids, i);
      ParentOf(m', item, sub);
      MovedOne(m, first, item, kids, i);
      var next := sub.next;
      m' := sub.RemoveItem(m');
      m' := sub.InsertItem(first, null, m');
      sub := next;
      i := i + 1;
    }
    assert kids[..i] == kids && kids[i..] == [];
  }

  /** The arena after the first `k` of the items below `from` have been merged under `to`. */
  ghost function Merged(m: Arena, from: XmlItem, to: XmlItem, k: nat): Arena
    requires from in m && to in m && 1 <= k <= |m[from].kids| && forall x :: x in m[from].kids ==> x in m
  {
    var items := m[from].kids;
    map x | x in m ::
      if x == from then m[x].(kids := items[1..])
      else if x == to then m[x].(kids := [items[0]])
      else if x == items[0] then
        Cell(m[x].name, MergeProps(PropsOf(m, items[..k])), ChildrenOfAll(m, items[..k]))
      else if x in items[1..k] then m[x].(kids := [])
      else m[x]
  }

  ghost function PropsOf(m: Arena, items: seq<XmlItem>): seq<seq<Prop>>
    requires forall x :: x in items ==> x in m
  {
    seq(|items|, i requires 0 <= i < |items| => assert items[i] in items; m[items[i]].props)
  }

  ghost function ChildrenOfAll(m: Arena, items: seq<XmlItem>): seq<XmlItem>
    requires forall x :: x in items ==> x in m
  {
    if items == [] then []
    else ChildrenOfAll(m, items[..|items| - 1]) + m[items[|items| - 1]].kids
  }

  /** The loop of GenerateXml: one item is left, under `to`. Fails when there is no item. */
  method MergeItems(from: XmlItem, to: XmlItem, ghost m: Arena) returns (ok: bool, ghost m': Arena)
    requires Linked(m) && from in m && to in m && from != to
    requires from.parent == null && to.parent == null && m[to].kids == []
    modifies m.Keys
    ensures ok <==> m[from].kids != []
    ensures forall x :: x in m[from].kids ==> x in m
    ensures m' == if ok then Merged(m, from, to, |m[from].kids|) else m
    ensures Linked(m')
  {
    hide Linked, Merged, IndexOf, RemoveAt, InsertAt, Apart, NoRepeats, MergeProps, PropsOf, ChildrenOfAll, AllLinks;
    m' := m;
    ghost var items := m[from].kids;
    ChildrenOf(m, from);
    var first := from.firstChild;
    if first == null {
      return false, m;
    }
    assert items[0..] == items;
    FirstOf(m, from, items, 0);
    TopsApart(m, from, to);
    var item := first.next;
    FirstMoved(m, from, to);
    m' := first.RemoveItem(m');
    m' := first.InsertItem(to, null, m');
    ghost var k := 1;
    while item != null
      invariant Linked(m') && 1 <= k <= |items| && m' == Merged(m, from, to, k)
      invariant item == if k < |items| then items[k] else null
      decreases |items| - k
    {
      MergedCells(m, from, to, k);
      m' := MergeItem(first, item, from, to, m, k, m');
      k := k + 1;
      MergedCells(m, from, to, k);
      NextLeft(m', from, items, k - 1);
      item := item.next;
    }
    ok := true;
  }

  /** One round of that loop. */
  method MergeItem(first: XmlItem, item: XmlItem, ghost from: XmlItem, ghost to: XmlItem, ghost m: Arena, ghost k: nat,
                   ghost mk: Arena)
    returns (ghost m': Arena)
    requires Apart(m, from, to) && 1 <= k < |m[from].kids| && first == m[from].kids[0] && item == m[from].kids[k]
    requires Linked(mk) && mk == Merged(m, from, to, k)
    modifies mk.Keys
    ensures m' == Merged(m, from, to, k + 1) && m'.Keys == mk.Keys && Linked(m')
  {
    hide Linked, Merged, IndexOf, RemoveAt, InsertAt, SetAll;
    MergedCells(m, from, to, k);
    MergedCells(m, from, to, k + 1);
    KthOf(mk, from, m[from].kids, k);
    m' := CopyProperties(first, item, mk);
    m' := MoveChildren(first, item, m');
    MergedStep(m, from, to, k);
  }

  // --------------------------------------------------------------------- proofs

  lemma SetAllStep(ps: seq<Prop>, qs: seq<Prop>, i: nat)
    requires i < |qs|
    ensures SetAll(ps, qs[i..]) == SetAll(SetProp(ps, qs[i].key, qs[i].value), qs[i + 1..])
  {
    assert qs[i..][1..] == qs[i + 1..];
  }

  lemma SetAllDone(ps: seq<Prop>, qs: seq<Prop>)
    requires qs == []
    ensures SetAll(ps, qs) == ps
  {
  }

  twostate lemma PropertiesChanged(m: Arena, new m': Arena, new x: XmlItem)
    requires old(Linked(m)) && x in m && m' == m[x := m[x].(props := x.props)]
    requires forall y :: y in m && y != x ==> unchanged(y)
    requires x.name == old(x.name) && x.parent == old(x.parent) && x.firstChild == old(x.firstChild)
    requires x.prev == old(x.prev) && x.next == old(x.next)
    ensures Linked(m')
  {
    forall p | p in m'
      ensures ItemLinked(m', p)
    {
      assert old(ItemLinked(m, p));
      forall i | 0 <= i < |m[p].kids|
        ensures ChildLinks(p, m[p].kids, i)
      {
        assert old(ChildLinks(p, m[p].kids, i));
      }
    }
  }

  lemma MovedOne(m: Arena, first: XmlItem, item: XmlItem, kids: seq<XmlItem>, i: nat)
    requires first in m && item in m && first != item && kids == m[item].kids && i < |kids|
    ensures var m1 := m[first := m[first].(kids := m[first].kids + kids[..i])][item := m[item].(kids := kids[i..])];
      var m2 := m1[item := m1[item].(kids := kids[i + 1..])];
      Inserted(m2, first, |m2[first].kids|, kids[i]) ==
      m[first := m[first].(kids := m[first].kids + kids[..i + 1])][item := m[item].(kids := kids[i + 1..])]
  {
    var done := m[first].kids + kids[..i];
    assert InsertAt(done, |done|, kids[i]) == m[first].kids + kids[..i + 1];
  }

  /** The two roots are no children, and the items are none of them. */
  lemma TopsApart(m: Arena, from: XmlItem, to: XmlItem)
    requires Linked(m) && from in m && to in m && from.parent == null && to.parent == null
    ensures forall p :: p in m ==> from !in m[p].kids && to !in m[p].kids
    requires from != to && m[to].kids == [] && m[from].kids != []
    ensures Apart(m, from, to)
  {
    assert ItemLinked(m, from);
    forall p | p in m
      ensures from !in m[p].kids && to !in m[p].kids
      ensures forall x :: p != from && x in m[from].kids ==> x !in m[p].kids
    {
      assert ItemLinked(m, p);
    }
  }

  ghost predicate Apart(m: Arena, from: XmlItem, to: XmlItem) {
    && from in m && to in m && from != to && m[from].kids != [] && m[to].kids == []
    && NoRepeats(m[from].kids)
    && (forall x :: x in m[from].kids ==> x in m && x != from && x != to)
    && (forall p, x :: p in m && p != from && x in m[from].kids ==> x !in m[p].kids)
  }

  lemma FirstMoved(m: Arena, from: XmlItem, to: XmlItem)
    requires Apart(m, from, to)
    ensures var m1 := m[from := m[from].(kids := m[from].kids[1..])];
      Inserted(m1, to, 0, m[from].kids[0]) == Merged(m, from, to, 1)
  {
    var items := m[from].kids;
    var x := items[0];
    assert items[..1] == [x] && [x][..0] == [] && items[1..1] == [];
    assert PropsOf(m, [x]) == [m[x].props];
    assert ChildrenOfAll(m, [x]) == m[x].kids;
    assert InsertAt([], 0, x) == [x];
  }

  lemma MergedCells(m: Arena, from: XmlItem, to: XmlItem, k: nat)
    requires Apart(m, from, to) && 1 <= k <= |m[from].kids|
    ensures var mk, items := Merged(m, from, to, k), m[from].kids;
      && mk.Keys == m.Keys && mk[from] == m[from].(kids := items[1..]) && mk[to] == m[to].(kids := [items[0]])
      && mk[items[0]] == Cell(m[items[0]].name, MergeProps(PropsOf(m, items[..k])), ChildrenOfAll(m, items[..k]))
      && (k < |items| ==> mk[items[k]] == m[items[k]] && items[0] != items[k] && items[0] !in m[items[k]].kids)
  {
    var items := m[from].kids;
    if k < |items| {
      assert items[k] in items && items[k] !in items[1..k];
    }
    assert items[0] in items;
  }

  lemma MergedStep(m: Arena, from: XmlItem, to: XmlItem, k: nat)
    requires Apart(m, from, to) && 1 <= k < |m[from].kids|
    ensures var items := m[from].kids;
      var first, item, mk := items[0], items[k], Merged(m, from, to, k);
      var a := mk[first := mk[first].(props := SetAll(mk[first].props, mk[item].props))];
      a[first := a[first].(kids := a[first].kids + a[item].kids)][item := a[item].(kids := [])]
      == Merged(m, from, to, k + 1)
  {
    hide SetAll, Merged, MergeProps, PropsOf, ChildrenOfAll;
    MergedCells(m, from, to, k);
    MergedCells(m, from, to, k + 1);
    MergedGrows(m, from, to, k);
    var items := m[from].kids;
    var first, item, mk, mk' := items[0], items[k], Merged(m, from, to, k), Merged(m, from, to, k + 1);
    forall x | x in m && x != first && x != item
      ensures mk'[x] == mk[x]
    {
      MergedElsewhere(m, from, to, k, x);
    }
    assert mk'[item] == m[item].(kids := []) by {
      MergedPast(m, from, to, k);
    }
  }

  /** The properties and children of one more item. */
  lemma MergedGrows(m: Arena, from: XmlItem, to: XmlItem, k: nat)
    requires Apart(m, from, to) && 1 <= k < |m[from].kids|
    ensures var items := m[from].kids;
      && items[k] in m
      && MergeProps(PropsOf(m, items[..k + 1])) == SetAll(MergeProps(PropsOf(m, items[..k])), m[items[k]].props)
      && ChildrenOfAll(m, items[..k + 1]) == ChildrenOfAll(m, items[..k]) + m[items[k]].kids
  {
    hide SetAll;
    var items := m[from].kids;
    assert items[k] in items;
    assert items[..k + 1][..k] == items[..k];
    assert PropsOf(m, items[..k + 1]) == PropsOf(m, items[..k]) + [m[items[k]].props];
    assert PropsOf(m, items[..k + 1])[..k] == PropsOf(m, items[..k]);
  }

  lemma MergedElsewhere(m: Arena, from: XmlItem, to: XmlItem, k: nat, x: XmlItem)
    requires Apart(m, from, to) && 1 <= k < |m[from].kids|
    requires x in m && x != m[from].kids[0] && x != m[from].kids[k]
    ensures Merged(m, from, to, k + 1)[x] == Merged(m, from, to, k)[x]
  {
    hide MergeProps, PropsOf, ChildrenOfAll;
    var items := m[from].kids;
    assert items[1..k + 1] == items[1..k] + [items[k]];
  }

  lemma MergedPast(m: Arena, from: XmlItem, to: XmlItem, k: nat)
    requires Apart(m, from, to) && 1 <= k < |m[from].kids|
    ensures var item := m[from].kids[k]; item in m && Merged(m, from, to, k + 1)[item] == m[item].(kids := [])
  {
    hide MergeProps, PropsOf, ChildrenOfAll;
    var items := m[from].kids;
    assert items[k] in items && items[1..k + 1][k - 1] == items[k];
  }

  lemma KthOf(m': Arena, from: XmlItem, items: seq<XmlItem>, k: nat)
    requires Linked(m') && from in m' && 1 <= k < |items| && m'[from].kids == items[1..]
    ensures items[k] in m'
  {
    ChildrenOf(m', from);
    assert items[1..][k - 1] in m'[from].kids;
  }

  lemma NextLeft(m': Arena, from: XmlItem, items: seq<XmlItem>, k: nat)
    requires Linked(m') && from in m' && 1 <= k < |items| && m'[from].kids == items[1..]
    ensures items[k].next == if k + 1 < |items| then items[k + 1] else null
  {
    ChildrenOf(m', from);
    assert ChildLinks(from, m'[from].kids, k - 1);
  }

  // ------------------------------------------------------------ the merged tree

  function PropsOfTrees(ts: seq<Tree>): seq<seq<Prop>> {
    seq(|ts|, i requires 0 <= i < |ts| => ts[i].props)
  }

  function KidsOfTrees(ts: seq<Tree>): seq<Tree> {
    if ts == [] then [] else KidsOfTrees(ts[..|ts| - 1]) + ts[|ts| - 1].kids
  }

  /** The tree that merging those trees leaves. */
  function MergeTrees(ts: seq<Tree>): Tree
    requires ts != []
  {
    Node(ts[0].name, MergeProps(PropsOfTrees(ts)), KidsOfTrees(ts))
  }

  lemma {:induction false} EachRepresents(m: Arena, ps: seq<XmlItem>, ts: seq<Tree>, i: nat)
    requires RepresentAll(m, ps, ts) && i < |ps|
    ensures |ps| == |ts| && Represents(m, ps[i], ts[i])
    decreases i
  {
    if i > 0 {
      EachRepresents(m, ps[1..], ts[1..], i - 1);
    }
  }

  lemma {:induction false} RepresentPrefix(m: Arena, ps: seq<XmlItem>, ts: seq<Tree>, n: nat)
    requires RepresentAll(m, ps, ts) && n <= |ps|
    ensures |ps| == |ts| && RepresentAll(m, ps[..n], ts[..n])
    decreases n
  {
    if n > 0 {
      RepresentPrefix(m, ps[1..], ts[1..], n - 1);
      assert ps[..n][1..] == ps[1..][..n - 1] && ts[..n][1..] == ts[1..][..n - 1];
    }
  }

  lemma {:induction false} KidsRepresented(m: Arena, ps: seq<XmlItem>, ts: seq<Tree>)
    requires RepresentAll(m, ps, ts) && forall x :: x in ps ==> x in m
    ensures RepresentAll(m, ChildrenOfAll(m, ps), KidsOfTrees(ts))
    decreases |ps|
  {
    if ps != [] {
      var n := |ps| - 1;
      RepresentPrefix(m, ps, ts, n);
      KidsRepresented(m, ps[..n], ts[..n]);
      EachRepresents(m, ps, ts, n);
      RepresentConcat(m, ChildrenOfAll(m, ps[..n]), m[ps[n]].kids, KidsOfTrees(ts[..n]), ts[n].kids);
    }
  }

  lemma {:induction false} ChildrenWithin(m: Arena, ps: seq<XmlItem>, done: set<XmlItem>)
    requires forall x :: x in ps ==> x in m && forall c :: c in m[x].kids ==> c in done
    ensures forall c :: c in ChildrenOfAll(m, ps) ==> c in done
    decreases |ps|
  {
    if ps != [] {
      ChildrenWithin(m, ps[..|ps| - 1], done);
    }
  }

  /** The items that the merge leaves as they are, apart from their links. */
  ghost function Below(m: Arena, from: XmlItem, to: XmlItem): set<XmlItem>
    requires from in m
  {
    set x | x in m && x != from && x != to && x !in m[from].kids
  }

  lemma BelowClosed(m: Arena, from: XmlItem, to: XmlItem)
    requires Linked(m) && Apart(m, from, to) && from.parent == null && to.parent == null
    ensures Closed(m, Below(m, from, to))
    ensures forall x :: x in m[from].kids ==> forall c :: c in m[x].kids ==> c in Below(m, from, to)
  {
    hide Linked;
    forall x, c | x in m && x != from && c in m[x].kids
      ensures c in Below(m, from, to)
    {
      ItemsApart(m, from, to, x, c);
    }
  }

  lemma BelowSame(m: Arena, from: XmlItem, to: XmlItem)
    requires Apart(m, from, to)
    ensures forall x :: x in Below(m, from, to) ==>
      x in Merged(m, from, to, |m[from].kids|) && Merged(m, from, to, |m[from].kids|)[x] == m[x]
  {
  }

  lemma SameProps(m: Arena, ps: seq<XmlItem>, ts: seq<Tree>)
    requires RepresentAll(m, ps, ts) && forall x :: x in ps ==> x in m
    ensures PropsOf(m, ps) == PropsOfTrees(ts)
  {
    hide RepresentAll;
    forall i | 0 <= i < |ps|
      ensures i < |ts| && m[ps[i]].props == ts[i].props
    {
      EachRepresents(m, ps, ts, i);
    }
    RepresentPrefix(m, ps, ts, 0);
  }

  /** When the items below `from` stand for `ts`, the item that is left stands for their
      merge: no child is lost, repeated or changed, and `from` is unused. */
  lemma MergedTree(m: Arena, from: XmlItem, to: XmlItem, ts: seq<Tree>)
    requires Linked(m) && Apart(m, from, to) && from.parent == null && to.parent == null
    requires RepresentAll(m, m[from].kids, ts)
    ensures ts != [] && Represents(Merged(m, from, to, |m[from].kids|), m[from].kids[0], MergeTrees(ts))
  {
    hide Linked, RepresentAll, Merged, PropsOf, PropsOfTrees, ChildrenOfAll, KidsOfTrees, Closed, Below;
    var items := m[from].kids;
    MergedCells(m, from, to, |items|);
    assert items[..|items|] == items;
    KidsRepresented(m, items, ts);
    BelowClosed(m, from, to);
    BelowSame(m, from, to);
    ChildrenWithin(m, items, Below(m, from, to));
    SameTrees(m, Merged(m, from, to, |items|), Below(m, from, to), ChildrenOfAll(m, items), KidsOfTrees(ts));
    SameProps(m, items, ts);
    EachRepresents(m, items, ts, 0);
  }

  lemma ItemsApart(m: Arena, from: XmlItem, to: XmlItem, x: XmlItem, c: XmlItem)
    requires Linked(m) && Apart(m, from, to) && from.parent == null && to.parent == null
    requires x in m && x != from && c in m[x].kids
    ensures c in m && c != from && c != to && c !in m[from].kids
  {
    ParentOf(m, x, c);
  }
}
