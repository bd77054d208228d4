/** The multiple-selection tree control. */
module TreeCtrls {
  import opened Repeats
  import opened TreeForest

  function IndexOf(hs: seq<Handle>, h: Handle): (i: nat)
    ensures i <= |hs| && (h in hs <==> i < |hs|) && (i < |hs| ==> hs[i] == h)
  {
    if hs == [] || hs[0] == h then 0 else 1 + IndexOf(hs[1..], h)
  }

  /** Whether an item is selected when the first `k` of the visible items have been passed. */
  ghost predicate PassedBy(vs: seq<Handle>, lo: nat, hi: nat, k: nat, x: Handle, before: set<Handle>) {
    if IndexOf(vs, x) < k then InRange(lo, hi, IndexOf(vs, x)) else x in before
  }

  /** Between `lo` and `hi`, or anywhere from `lo` on when `hi` comes before it. */
  ghost predicate InRange(lo: nat, hi: nat, k: nat) {
    lo <= k && (k <= hi || hi < lo)
  }

  lemma PassedNone(vs: seq<Handle>, lo: nat, hi: nat, before: set<Handle>)
    ensures forall x :: PassedBy(vs, lo, hi, 0, x, before) <==> x in before
  {
  }

  lemma PassedOne(vs: seq<Handle>, lo: nat, hi: nat, k: nat, k': nat, before: set<Handle>)
    requires k < |vs| && IndexOf(vs, vs[k]) == k && k' == k + 1
    ensures forall x :: PassedBy(vs, lo, hi, k', x, before) <==> PassedNow(vs, lo, hi, k, x, before)
  {
    hide IndexOf;
    forall x
      ensures PassedBy(vs, lo, hi, k', x, before) <==> PassedNow(vs, lo, hi, k, x, before)
    {
      assert IndexOf(vs, x) == k <==> x == vs[k];
    }
  }

  ghost predicate PassedNow(vs: seq<Handle>, lo: nat, hi: nat, k: nat, x: Handle, before: set<Handle>)
    requires k < |vs|
  {
    if x == vs[k] then InRange(lo, hi, k) else PassedBy(vs, lo, hi, k, x, before)
  }

  /** The item displayed after a visible one. */
  function GetNextVisibleItem(f: Forest, h: Handle): Handle {
    var i := IndexOf(Visible(f), h);
    if i + 1 < |Visible(f)| then Visible(f)[i + 1] else NULL
  }

  /** The visible items among `chosen`, in display order. */
  function Chosen(hs: seq<Handle>, chosen: set<Handle>): seq<Handle> {
    if hs == [] then []
    else (if hs[0] in chosen then [hs[0]] else []) + Chosen(hs[1..], chosen)
  }

  class TreeCtrlEx {
    var forest: Forest
    // The items with the selected and the drop-highlighted state, and the caret item.
    var selected: set<Handle>
    var highlighted: set<Handle>
    var caret: Handle
    var selectItems: seq<Handle>

    ghost predicate Valid()
      reads this
    {
      (forall x :: x in selected ==> IsItem(forest, x)) && InForest(forest, caret)
    }

    constructor (f: Forest)
      ensures Valid() && forest == f && selected == {}
    {
      forest, selected, highlighted, caret, selectItems := f, {}, {}, NULL, [];
    }

    /** The next item of all items: a child, or a sibling, or a sibling of an item above. */
    method GetNextItem(item: Handle) returns (next: Handle)
      requires InForest(forest, item)
      ensures next == Next(forest, NULL, item)
      ensures forall k :: 0 <= k < |Order(forest)| && Order(forest)[k] == item ==>
        next == At(Order(forest), k + 1)
    {
      hide InForest, Kids, Order;
      forall k | 0 <= k < |Order(forest)|
        ensures InForest(forest, Order(forest)[k])
        ensures Next(forest, NULL, Order(forest)[k]) == At(Order(forest), k + 1)
      {
        NextInOrder(forest, k);
      }
      next := GetChildItem(forest, item);
      if next != NULL {
        return;
      }
      next := GetNextSiblingItem(forest, item);
      if next != NULL {
        return;
      }
      var up := item;
      while next == NULL && up != NULL
        invariant InForest(forest, up) && next == GetNextSiblingItem(forest, up)
        invariant Climb(forest, NULL, item) == Climb(forest, NULL, up)
        decreases next == NULL, |up|
      {
        ParentInForest(forest, NULL, up);
        up := GetParentItem(up);
        next := GetNextSiblingItem(forest, up);
      }
    }

    /** The first item with that data, in preorder from an item (or from the first one) on. */
    method ItemFromData(data: int, start: Handle) returns (r: Handle)
      requires InForest(forest, start)
      ensures forall x :: x in Order(forest) ==> IsItem(forest, x)
      ensures var hs, from := Order(forest), if start == NULL then 0 else IndexOf(Order(forest), start);
        && (r == NULL ==> forall k :: from <= k < |hs| ==> DataOf(forest, hs[k]) != data)
        && (r != NULL ==> r in hs && from <= IndexOf(hs, r) && DataOf(forest, r) == data)
        && (r != NULL ==> forall k :: from <= k < IndexOf(hs, r) ==> DataOf(forest, hs[k]) != data)
    {
      hide InForest, Kids, Order, ItemAt, Climb;
      ghost var hs := Order(forest);
      ghost var k := if start == NULL then 0 else IndexOf(hs, start);
      OrderComplete(forest);
      var item := if start != NULL then start else GetRootItem(forest);
      assert item == At(hs, k) by {
        if start == NULL {
          FirstInOrder(forest);
        }
      }
      ghost var from := k;
      while item != NULL
        invariant from <= k <= |hs| && item == At(hs, k)
        invariant forall j :: from <= j < k ==> DataOf(forest, hs[j]) != data
        decreases |hs| - k
      {
        assert IsItem(forest, hs[k]);
        if DataOf(forest, item) == data {
          IndexOfAt(hs, k);
          return item;
        }
        item := GetNextItem(item);
        k := k + 1;
      }
      AtItem(hs, k);
      return NULL;
    }

    /** Before a node is collapsed the items below it are deselected. */
    method OnItemExpanding(collapse: bool, node: Handle)
      requires Valid() && IsItem(forest, node)
      modifies `selected
      ensures Valid()
      ensures selected == if collapse then old(selected) - (set x | x in old(selected) && Below(node, 0, x)) else old(selected)
    {
      hide InForest, Kids, Preorder, Climb, Next, Below;
      if collapse {
        ghost var hs := Preorder(Kids(forest, node), node, 0);
        PreorderMembers(forest, node, 0);
        FirstBelow(forest, node);
        var item := GetChildItem(forest, node);
        ghost var k := 0;
        while item != NULL
          invariant 0 <= k <= |hs| && item == At(hs, k)
          invariant selected == old(selected) - (set x | x in hs[..k])
          decreases |hs| - k
        {
          assert hs[k] in hs;
          NextOfBelow(forest, node, k);
          assert hs[..k + 1] == hs[..k] + [item];
          if item in selected {
            selected := selected - {item};
          }
          item := NextBelow(node, item);
          k := k + 1;
        }
        if k < |hs| {
          NextOfBelow(forest, node, k);
        }
        assert hs[..|hs|] == hs;
      }
    }

    /** The step of that loop: to a child, or a sibling, or a sibling of an item above,
        but not beyond `node`. */
    method NextBelow(node: Handle, item: Handle) returns (next: Handle)
      requires IsItem(forest, node) && IsItem(forest, item) && Below(node, 0, item)
      ensures next == Next(forest, node, item)
    {
      hide InForest, Kids, GetNextSiblingItem, Below;
      NotBelowItself(node);
      next := GetChildItem(forest, item);
      if next == NULL {
        next := GetNextSiblingItem(forest, item);
        if next == NULL {
          var up := item;
          while next == NULL
            invariant InForest(forest, up) && next == GetNextSiblingItem(forest, up) && up != NULL && Below(node, 0, up)
            invariant Climb(forest, node, item) == Climb(forest, node, up)
            decreases next == NULL, |up|
          {
            ParentInForest(forest, node, up);
            ParentBelow(node, up);
            up := GetParentItem(up);
            if up == NULL {
              break;
            }
            if up == node {
              break;
            }
            next := GetNextSiblingItem(forest, up);
          }
        }
      }
    }

    /** Moves the caret: its old item is deselected, its new one selected and revealed. */
    method SelectItem(item: Handle)
      requires Valid() && InForest(forest, item)
      modifies `selected, `caret, `forest
      ensures Valid() && forest == Revealed(old(forest), item) && caret == item
      ensures selected == WithCaret(old(selected), old(caret), item)
    {
      hide InForest, Revealed;
      forall x: Handle
        ensures InForest(Revealed(forest, item), x) <==> InForest(forest, x)
      {
        RevealedItems(forest, item, x);
      }
      selected := WithCaret(selected, caret, item);
      caret := item;
      forest := Revealed(forest, item);
    }

    /** No selected item is hidden. */
    ghost predicate OnlyVisible()
      reads this
    {
      forall x :: x in selected ==> x in Visible(forest)
    }

    /** Reveals the second end and selects the displayed items from the end that comes first
        on: up to the other end if it is displayed later, else all. The other displayed items
        are deselected. Fails when neither end is visible. */
    method SelectItems(from: Handle, to: Handle) returns (ok: bool)
      requires Valid() && InForest(forest, from) && InForest(forest, to)
      modifies `selected, `caret, `forest
      ensures Valid()
      ensures ok <==> from in Visible(old(forest)) || to in Visible(old(forest))
      ensures forest == if ok then Revealed(old(forest), to) else old(forest)
      ensures caret == if ok then to else old(caret)
      ensures !ok ==> selected == old(selected)
      ensures ok ==> forall x :: x in selected <==>
        if x in Visible(forest) then Ranged(Visible(old(forest)), Visible(forest), from, to, x)
        else x in WithCaret(old(selected), old(caret), to)
      ensures old(OnlyVisible()) ==> OnlyVisible()
    {
      hide Visible, WithCaret, Revealed, InForest, PassedBy;
      ghost var vs := Visible(forest);
      ghost var i, j := IndexOf(vs, from), IndexOf(vs, to);
      VisibleItems(forest);
      var item := GetRootItem(forest);
      ghost var k := 0;
      while item != NULL && item != from && item != to
        invariant selected == old(selected) && caret == old(caret) && forest == old(forest)
        invariant 0 <= k <= |vs| && item == At(vs, k) && k <= i && k <= j
        decreases |vs| - k
      {
        NextShown(forest, k);
        item := GetNextVisibleItem(forest, item);
        k := k + 1;
      }
      if item == NULL {
        return false;
      }
      IndexOfAt(vs, k);
      var reverse := item == to;
      assert reverse <==> j <= i;
      CaretVisible(forest, selected, caret, to);
      SelectItem(to);
      ghost var chosen := selected;
      SelectBetween(if reverse then to else from, if reverse then from else to);
      PassedAll(Visible(forest), vs, from, to, chosen);
      ok := true;
    }

    /** The second loop of SelectItems: selection goes on at `first` and off after `last`. */
    method SelectBetween(first: Handle, last: Handle)
      requires Valid()
      modifies `selected
      ensures Valid()
      ensures var vs := Visible(forest); forall x :: x in selected <==>
        PassedBy(vs, IndexOf(vs, first), IndexOf(vs, last), |vs|, x, old(selected))
    {
      hide Visible, InForest, IsItem, IndexOf, PassedBy;
      ghost var vs := Visible(forest);
      ghost var lo, hi := IndexOf(vs, first), IndexOf(vs, last);
      VisibleItems(forest);
      var item := GetRootItem(forest);
      var select := false;
      ghost var k := 0;
      PassedNone(vs, lo, hi, selected);
      while item != NULL
        invariant 0 <= k <= |vs| && item == At(vs, k) && (forall x :: x in selected ==> IsItem(forest, x))
        invariant select <==> lo < k && (k <= hi || hi < lo)
        invariant forall x :: x in selected <==> PassedBy(vs, lo, hi, k, x, old(selected))
        decreases |vs| - k
      {
        assert item in vs;
        IndexOfAt(vs, k);
        NextShown(forest, k);
        PassedOne(vs, lo, hi, k, k + 1, old(selected));
        if item == first {
          select := true;
        }
        if select {
          if item !in selected {
            selected := selected + {item};
          }
        } else {
          if item in selected {
            selected := selected - {item};
          }
        }
        if item == last {
          select := false;
        }
        item := GetNextVisibleItem(forest, item);
        k := k + 1;
      }
    }

    /** Deselects all visible items and drops their highlight. */
    method ClearSelection()
      requires Valid()
      modifies `selected, `highlighted, `selectItems
      ensures Valid() && selectItems == []
      ensures selected == old(selected) - (set x | x in Visible(forest))
      ensures highlighted == old(highlighted) - (set x | x in Visible(forest))
    {
      hide InForest, VisibleFrom;
      ghost var vs := Visible(forest);
      VisibleItems(forest);
      var item := GetRootItem(forest);
      ghost var k := 0;
      while item != NULL
        invariant 0 <= k <= |vs| && item == At(vs, k)
        invariant selected == old(selected) - (set x | x in vs[..k])
        invariant highlighted == old(highlighted) - (set x | x in vs[..k])
        decreases |vs| - k
      {
        assert vs[..k + 1] == vs[..k] + [vs[k]];
        NextShown(forest, k);
        if item in selected {
          selected := selected - {item};
        }
        if item in highlighted {
          highlighted := highlighted - {item};
        }
        item := GetNextVisibleItem(forest, item);
        k := k + 1;
      }
      assert vs[..k] == vs;
      selectItems := [];
    }

    method GetSelectedCount() returns (n: nat)
      ensures n == |Chosen(Visible(forest), selected)|
    {
      hide VisibleFrom;
      ghost var vs := Visible(forest);
      VisibleItems(forest);
      n := 0;
      var item := GetRootItem(forest);
      ghost var k := 0;
      assert vs[0..] == vs;
      while item != NULL
        invariant 0 <= k <= |vs| && item == At(vs, k)
        invariant n + |Chosen(vs[k..], selected)| == |Chosen(vs, selected)|
        decreases |vs| - k
      {
        ChosenStep(vs, selected, k);
        NextShown(forest, k);
        if item in selected {
          n := n + 1;
        }
        item := GetNextVisibleItem(forest, item);
        k := k + 1;
      }
      assert vs[k..] == [];
    }

    /** The first visible selected item, and its place. */
    method GetFirstSelectedItem() returns (item: Handle, ghost k: nat)
      ensures k <= |Visible(forest)| && item == At(Visible(forest), k)
      ensures item != NULL ==> item in selected
      ensures Chosen(Visible(forest), selected) == Chosen(Visible(forest)[k..], selected)
    {
      hide Visible, Chosen, IndexOf;
      ghost var vs := Visible(forest);
      VisibleItems(forest);
      item := GetRootItem(forest);
      k := 0;
      assert vs[0..] == vs;
      while item != NULL
        invariant 0 <= k <= |vs| && item == At(vs, k)
        invariant Chosen(vs[k..], selected) == Chosen(vs, selected)
        decreases |vs| - k
      {
        if item in selected {
          return;
        }
        ChosenStep(vs, selected, k);
        NextShown(forest, k);
        item := GetNextVisibleItem(forest, item);
        k := k + 1;
      }
    }

    /** The end of SelectMultiple: lists the visible selected items. */
    method ListSelected()
      modifies `selectItems
      ensures selectItems == Chosen(Visible(forest), selected)
    {
      hide Visible, Chosen, IndexOf;
      ghost var vs := Visible(forest);
      selectItems := [];
      var count := GetSelectedCount();
      if count == 0 {
        return;
      }
      var item;
      ghost var k;
      item, k := GetFirstSelectedItem();
      VisibleItems(forest);
      if k == |vs| {
        ChosenNone(vs[k..], selected);
      }
      ChosenStep(vs, selected, k);
      selectItems := selectItems + [item];
      NextShown(forest, k);
      item := GetNextVisibleItem(forest, item);
      k := k + 1;
      while item != NULL
        invariant 0 <= k <= |vs| && item == At(vs, k)
        invariant selectItems + Chosen(vs[k..], selected) == Chosen(vs, selected)
        decreases |vs| - k
      {
        ChosenStep(vs, selected, k);
        NextShown(forest, k);
        if item in selected {
          selectItems := selectItems + [item];
        }
        item := GetNextVisibleItem(forest, item);
        k := k + 1;
      }
      ChosenNone(vs[k..], selected);
    }
  }

  function DataOf(f: Forest, h: Handle): int
    requires IsItem(f, h)
  {
    ItemAt(f, h).data
  }

  lemma {:induction false} IndexOfAt(hs: seq<Handle>, k: nat)
    requires NoRepeats(hs) && k < |hs|
    ensures IndexOf(hs, hs[k]) == k
  {
    assert hs[k] in hs;
  }

  lemma FirstInOrder(f: Forest)
    ensures GetRootItem(f) == At(Order(f), 0)
  {
  }

  lemma ParentInForest(f: Forest, top: Handle, h: Handle)
    requires InForest(f, h)
    ensures InForest(f, GetParentItem(h))
    ensures h != NULL && h != top && GetNextSiblingItem(f, h) == NULL ==> Climb(f, top, h) == Climb(f, top, GetParentItem(h))
    ensures h == NULL ==> GetNextSiblingItem(f, h) == NULL
  {
    hide GetNextSiblingItem;
    if h != NULL {
      UpInForest(f, h);
      assert |h| == 1 ==> h[..0] == NULL;
    } else {
      NoSibling(f);
    }
  }

  lemma NoSibling(f: Forest)
    ensures InForest(f, NULL) && GetNextSiblingItem(f, NULL) == NULL
  {
  }

  lemma ParentBelow(top: Handle, h: Handle)
    requires top != NULL && Below(top, 0, h)
    ensures GetParentItem(h) != NULL && (GetParentItem(h) == top || Below(top, 0, GetParentItem(h)))
  {
    assert h[..|h| - 1][..|top|] == h[..|top|];
    if |h| == |top| + 1 {
      assert h[..|h| - 1] == top;
    }
  }

  lemma NotBelowItself(node: Handle)
    ensures !Below(node, 0, node)
  {
  }

  lemma NextOfBelow(f: Forest, node: Handle, k: nat)
    requires IsItem(f, node) && k < |Preorder(Kids(f, node), node, 0)|
    ensures var hs := Preorder(Kids(f, node), node, 0);
      IsItem(f, hs[k]) && Next(f, node, hs[k]) == At(hs, k + 1)
  {
    hide InForest, Kids, Preorder, Climb, Next;
    PreorderChain(f, node, node, 0);
    FirstBelow(f, node);
    var hs := Preorder(Kids(f, node), node, 0);
    assert Leads(f, node, hs[k], After(hs, k, NULL));
  }

  /** The first item below a node. */
  lemma FirstBelow(f: Forest, node: Handle)
    requires IsItem(f, node)
    ensures GetChildItem(f, node) == At(Preorder(Kids(f, node), node, 0), 0)
    ensures Climb(f, node, node) == NULL
  {
    PreorderChain(f, node, node, 0);
  }

  // ------------------------------------------------------------------- selection

  /** The three are displayed, and `x` is between the two or is one of them. */
  ghost predicate Between(hs: seq<Handle>, from: Handle, to: Handle, x: Handle) {
    var i, j, k := IndexOf(hs, from), IndexOf(hs, to), IndexOf(hs, x);
    from in hs && to in hs && x in hs && (i <= k <= j || j <= k <= i)
  }

  /** `x` is displayed from the end that was found first on, up to the other one if that comes
      later; `vs` and `ws` are the items displayed before and after the second end is revealed. */
  ghost predicate Ranged(vs: seq<Handle>, ws: seq<Handle>, from: Handle, to: Handle, x: Handle) {
    if IndexOf(vs, to) <= IndexOf(vs, from) then InRange(IndexOf(ws, to), IndexOf(ws, from), IndexOf(ws, x))
    else InRange(IndexOf(ws, from), IndexOf(ws, to), IndexOf(ws, x))
  }

  lemma PassedAll(ws: seq<Handle>, vs: seq<Handle>, from: Handle, to: Handle, chosen: set<Handle>)
    ensures var reverse := IndexOf(vs, to) <= IndexOf(vs, from);
      var first, last := if reverse then to else from, if reverse then from else to;
      forall x :: PassedBy(ws, IndexOf(ws, first), IndexOf(ws, last), |ws|, x, chosen) <==>
        if x in ws then Ranged(vs, ws, from, to, x) else x in chosen
  {
    hide IndexOf;
  }

  /** Whether the range of SelectItems is what lies between its ends: the first end is
      visible, and the second one was visible or is not revealed before the first. */
  ghost predicate ProperEnds(f: Forest, from: Handle, to: Handle)
    requires InForest(f, to)
  {
    var vs, ws := Visible(f), Visible(Revealed(f, to));
    from in vs && (to in vs || IndexOf(ws, from) <= IndexOf(ws, to))
  }

  /** What SelectItems selects is what is displayed between its ends exactly when the ends
      are proper. */
  lemma RangedIsBetween(f: Forest, from: Handle, to: Handle)
    requires InForest(f, from) && InForest(f, to) && to != NULL && (from in Visible(f) || to in Visible(f))
    ensures var vs, ws := Visible(f), Visible(Revealed(f, to));
      (forall x :: x in ws ==> (Ranged(vs, ws, from, to, x) <==> Between(ws, from, to, x))) <==> ProperEnds(f, from, to)
  {
    hide Visible, Revealed, IndexOf, Shown, InForest;
    var vs, ws := Visible(f), Visible(Revealed(f, to));
    VisibleComplete(f);
    RevealedVisible(f, to);
    VisibleItems(f);
    if to in vs {
      RevealedSame(f, to);
      if from !in vs {
        assert Ranged(vs, ws, from, to, to) && !Between(ws, from, to, to);
      }
    } else if IndexOf(ws, to) < IndexOf(ws, from) {
      assert to in ws && !Ranged(vs, ws, from, to, to) && Between(ws, from, to, to);
    }
  }

  /** Otherwise, also for a null second end, everything from the end that was visible on is
      selected, down to the last displayed item. */
  lemma RangedToTheEnd(f: Forest, from: Handle, to: Handle, x: Handle)
    requires InForest(f, from) && InForest(f, to) && (from in Visible(f) || to in Visible(f))
    requires !ProperEnds(f, from, to) || to == NULL
    ensures var vs, ws := Visible(f), Visible(Revealed(f, to));
      x in ws ==> (Ranged(vs, ws, from, to, x) <==>
        IndexOf(ws, if from in vs then from else to) <= IndexOf(ws, x))
  {
    hide Visible, Revealed, IndexOf, Shown, InForest;
    VisibleComplete(f);
    RevealedVisible(f, to);
    VisibleItems(f);
    NullHidden(Revealed(f, to));
    if to in Visible(f) {
      RevealedSame(f, to);
    }
  }

  lemma NullHidden(f: Forest)
    ensures NULL !in Visible(f)
  {
    VisibleItems(f);
  }

  /** Three items, the first one collapsed over an item below it. */
  const SMALL: Forest := [Item(0, false, [Item(1, false, [])]), Item(2, false, []), Item(3, false, [])]

  lemma ClosedVisible(kids: Forest, h: Handle, i: nat, c: Handle, rest: seq<Handle>)
    requires i < |kids| && !kids[i].expanded && c == h + [i] && VisibleFrom(kids, h, i + 1) == rest
    ensures VisibleFrom(kids, h, i) == [c] + rest
  {
  }

  lemma OpenVisible(kids: Forest, h: Handle, i: nat, c: Handle, below: seq<Handle>, rest: seq<Handle>)
    requires i < |kids| && kids[i].expanded && c == h + [i]
    requires VisibleFrom(kids[i].kids, c, 0) == below && VisibleFrom(kids, h, i + 1) == rest
    ensures VisibleFrom(kids, h, i) == [c] + below + rest
  {
  }

  lemma SmallVisible()
    ensures Visible(SMALL) == [[0], [1], [2]]
    ensures InForest(SMALL, [0, 0]) && Visible(Revealed(SMALL, [0, 0])) == [[0], [0, 0], [1], [2]]
  {
    assert [0, 0][1..] == [0];
    var shown := [Item(0, true, [Item(1, false, [])]), Item(2, false, []), Item(3, false, [])];
    assert Revealed(SMALL, [0, 0]) == shown;
    hide VisibleFrom, Revealed;
    EndVisible(SMALL, NULL);
    ClosedVisible(SMALL, NULL, 2, [2], []);
    ClosedVisible(SMALL, NULL, 1, [1], [[2]]);
    ClosedVisible(SMALL, NULL, 0, [0], [[1], [2]]);
    EndVisible(shown, NULL);
    ClosedVisible(shown, NULL, 2, [2], []);
    ClosedVisible(shown, NULL, 1, [1], [[2]]);
    EndVisible(shown[0].kids, [0]);
    ClosedVisible(shown[0].kids, [0], 0, [0, 0], []);
    OpenVisible(shown, NULL, 0, [0], [[0, 0]], [[1], [2]]);
  }

  lemma EndVisible(kids: Forest, h: Handle)
    ensures VisibleFrom(kids, h, |kids|) == []
  {
  }

  /** A hidden first end: from the item below the first one to the second one, the third one
      is selected. */
  lemma HiddenFirstEnd()
    ensures var vs := Visible(SMALL);
      InForest(SMALL, [0, 0]) && InForest(SMALL, [1]) && !ProperEnds(SMALL, [0, 0], [1]) &&
      Revealed(SMALL, [1]) == SMALL && [2] in vs && Ranged(vs, vs, [0, 0], [1], [2])
  {
    hide Visible;
    SmallVisible();
    assert [0, 0] !in Visible(SMALL);
    SmallIndex(Visible(SMALL));
  }

  /** A hidden second end before the first one: from the second item back to the one below the
      first, the latter is not selected, but the third one is. */
  lemma HiddenSecondEnd()
    ensures InForest(SMALL, [1]) && InForest(SMALL, [0, 0]) && !ProperEnds(SMALL, [1], [0, 0])
    ensures var vs, ws := Visible(SMALL), Visible(Revealed(SMALL, [0, 0]));
      !Ranged(vs, ws, [1], [0, 0], [0, 0]) && Ranged(vs, ws, [1], [0, 0], [2])
  {
    hide Visible, Revealed;
    SmallVisible();
    var ws := Visible(Revealed(SMALL, [0, 0]));
    assert [0, 0] !in Visible(SMALL);
    SmallIndex(Visible(SMALL));
    IndexOfFour(ws);
  }

  lemma SmallIndex(hs: seq<Handle>)
    requires hs == [[0], [1], [2]]
    ensures IndexOf(hs, [1]) == 1 && IndexOf(hs, [2]) == 2 && IndexOf(hs, [0, 0]) == 3
  {
    IndexOfAt(hs, 1);
    IndexOfAt(hs, 2);
    assert [0, 0] !in hs;
  }

  lemma IndexOfFour(hs: seq<Handle>)
    requires hs == [[0], [0, 0], [1], [2]]
    ensures IndexOf(hs, [0, 0]) == 1 && IndexOf(hs, [1]) == 2 && IndexOf(hs, [2]) == 3
  {
    IndexOfAt(hs, 1);
    IndexOfAt(hs, 2);
    IndexOfAt(hs, 3);
  }

  /** Between two visible ends nothing is revealed, and the items between them are meant. */
  lemma VisibleEnds(f: Forest, from: Handle, to: Handle, x: Handle)
    requires InForest(f, from) && from in Visible(f) && InForest(f, to) && to in Visible(f) && x in Visible(f)
    ensures Revealed(f, to) == f && (Ranged(Visible(f), Visible(f), from, to, x) <==> Between(Visible(f), from, to, x))
  {
    hide Visible, Revealed, IndexOf, Shown, InForest;
    VisibleComplete(f);
    RevealedSame(f, to);
  }

  lemma CaretVisible(f: Forest, selected: set<Handle>, caret: Handle, to: Handle)
    requires InForest(f, to)
    ensures (forall x :: x in selected ==> x in Visible(f)) ==>
      forall x :: x in WithCaret(selected, caret, to) ==> x in Visible(Revealed(f, to))
  {
    hide Visible, Revealed, InForest;
    RevealedVisible(f, to);
  }

  function WithCaret(selected: set<Handle>, caret: Handle, item: Handle): set<Handle> {
    if item == caret then selected else selected - {caret} + if item == NULL then {} else {item}
  }

  /** A new caret item is selected, unless it is null, and the old one no more. */
  lemma CaretMoves(selected: set<Handle>, caret: Handle, item: Handle, x: Handle)
    ensures x in WithCaret(selected, caret, item) <==>
      (x == item && item != caret && |item| > 0) || (x in selected && (x != caret || item == caret))
  {
  }

  /** The visible handles: the root item first, all different, none null. */
  lemma VisibleItems(f: Forest)
    ensures GetRootItem(f) == At(Visible(f), 0)
    ensures NoRepeats(Visible(f))
    ensures forall x :: x in Visible(f) ==> IsItem(f, x)
    ensures forall k :: 0 <= k < |Visible(f)| ==> Visible(f)[k] != NULL
  {
    VisibleComplete(f);
    assert forall k :: 0 <= k < |Visible(f)| ==> Visible(f)[k] in Visible(f);
  }

  lemma NextShown(f: Forest, k: nat)
    requires k < |Visible(f)|
    ensures GetNextVisibleItem(f, Visible(f)[k]) == At(Visible(f), k + 1)
  {
    VisibleComplete(f);
    IndexOfAt(Visible(f), k);
  }

  lemma ChosenNone(hs: seq<Handle>, chosen: set<Handle>)
    requires hs == []
    ensures Chosen(hs, chosen) == []
  {
  }

  lemma ChosenStep(hs: seq<Handle>, chosen: set<Handle>, k: nat)
    requires k < |hs|
    ensures Chosen(hs[k..], chosen) == (if hs[k] in chosen then [hs[k]] else []) + Chosen(hs[k + 1..], chosen)
  {
    assert hs[k..][1..] == hs[k + 1..];
  }

  /** The list has the selected visible items and no others, each once, in display order. */
  lemma {:induction false} ChosenMembers(hs: seq<Handle>, chosen: set<Handle>)
    requires NoRepeats(hs)
    ensures forall x :: x in Chosen(hs, chosen) <==> x in hs && x in chosen
    ensures var r := Chosen(hs, chosen); forall i, j :: 0 <= i < j < |r| ==> IndexOf(hs, r[i]) < IndexOf(hs, r[j])
    decreases |hs|
  {
    hide IndexOf, Chosen;
    ChosenOnly(hs, chosen);
    var r := Chosen(hs, chosen);
    forall i, j | 0 <= i < j < |r|
      ensures IndexOf(hs, r[i]) < IndexOf(hs, r[j])
    {
      ChosenOrder(hs, chosen, i, j);
    }
  }

  lemma {:induction false} ChosenOnly(hs: seq<Handle>, chosen: set<Handle>)
    ensures forall x :: x in Chosen(hs, chosen) <==> x in hs && x in chosen
    decreases |hs|
  {
    if hs != [] {
      ChosenOnly(hs[1..], chosen);
    }
  }

  lemma ChosenAt(hs: seq<Handle>, chosen: set<Handle>, i: nat)
    requires i < |Chosen(hs, chosen)|
    ensures hs != []
    ensures var q, d := Chosen(hs[1..], chosen), if hs[0] in chosen then 1 else 0;
      |Chosen(hs, chosen)| == d + |q| && Chosen(hs, chosen)[i] == if i < d then hs[0] else q[i - d]
  {
  }

  lemma {:induction false} ChosenOrder(hs: seq<Handle>, chosen: set<Handle>, i: nat, j: nat)
    requires NoRepeats(hs) && i < j < |Chosen(hs, chosen)|
    ensures IndexOf(hs, Chosen(hs, chosen)[i]) < IndexOf(hs, Chosen(hs, chosen)[j])
    decreases |hs|
  {
    hide IndexOf, Chosen;
    ChosenAt(hs, chosen, i);
    ChosenAt(hs, chosen, j);
    var rest := hs[1..];
    var q := Chosen(rest, chosen);
    var d := if hs[0] in chosen then 1 else 0;
    ChosenOnly(rest, chosen);
    IndexOfFirst(hs);
    assert q[j - d] in q;
    IndexOfRest(hs, q[j - d]);
    if i >= d {
      assert q[i - d] in q;
      IndexOfRest(hs, q[i - d]);
      ChosenOrder(rest, chosen, i - d, j - d);
    }
  }

  lemma IndexOfFirst(hs: seq<Handle>)
    requires hs != []
    ensures IndexOf(hs, hs[0]) == 0
  {
  }

  lemma IndexOfRest(hs: seq<Handle>, x: Handle)
    requires hs != [] && NoRepeats(hs) && x in hs[1..]
    ensures IndexOf(hs, x) == 1 + IndexOf(hs[1..], x)
  {
    var k := IndexOf(hs[1..], x);
    assert hs[1..][k] == hs[k + 1];
  }

  // -------------------------------------------------------------------- collapsing

  /** The forest with one item collapsed. */
  function Collapsed(f: Forest, h: Handle): Forest
    requires IsItem(f, h)
    decreases |h|
  {
    var item := f[h[0]];
    if |h| == 1 then f[h[0] := item.(expanded := false)]
    else f[h[0] := item.(kids := Collapsed(item.kids, h[1..]))]
  }

  lemma {:induction false} CollapsedItems(f: Forest, h: Handle, x: Handle)
    requires IsItem(f, h)
    ensures |Collapsed(f, h)| == |f| && (InForest(Collapsed(f, h), x) <==> InForest(f, x))
    ensures IsItem(f, x) ==> ItemAt(Collapsed(f, h), x).expanded == (x != h && ItemAt(f, x).expanded)
    decreases |h|
  {
    if x != NULL && x[0] < |f| && |h| > 1 && x[0] == h[0] {
      CollapsedItems(f[h[0]].kids, h[1..], x[1..]);
      if |x| > 1 {
        assert x == [x[0]] + x[1..] && h == [h[0]] + h[1..];
      }
    } else if |h| == 1 && x != NULL && x[0] == h[0] && |x| == 1 {
      assert x == h;
    }
  }

  /** Collapsing a node hides exactly the items below it. */
  lemma CollapsedShown(f: Forest, h: Handle, x: Handle)
    requires IsItem(f, h) && x != NULL
    ensures Shown(Collapsed(f, h), NULL, x) <==> Shown(f, NULL, x) && !Below(h, 0, x)
  {
    hide ItemAt, InForest, Collapsed;
    CollapsedItems(f, h, x);
    forall n | 0 < n < |x|
      ensures IsItem(f, x[..n]) <==> IsItem(Collapsed(f, h), x[..n])
      ensures IsItem(f, x[..n]) ==> ItemAt(Collapsed(f, h), x[..n]).expanded == (x[..n] != h && ItemAt(f, x[..n]).expanded)
    {
      CollapsedItems(f, h, x[..n]);
    }
    if Below(h, 0, x) {
      assert x[..|h|] == h;
    }
  }

  /** When only visible items are selected, deselecting what is below a node keeps it so
      after the node is collapsed. */
  lemma CollapseKeepsVisible(f: Forest, node: Handle, selected: set<Handle>)
    requires IsItem(f, node) && forall x :: x in selected ==> x in Visible(f)
    ensures forall x :: x in selected && !Below(node, 0, x) ==> x in Visible(Collapsed(f, node))
  {
    hide Shown, Collapsed, Visible, Below;
    VisibleComplete(f);
    VisibleComplete(Collapsed(f, node));
    forall x | x in selected && !Below(node, 0, x)
      ensures x in Visible(Collapsed(f, node))
    {
      CollapsedShown(f, node, x);
    }
  }
}
