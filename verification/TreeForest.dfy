/** An ordered forest as a tree control shows it. A handle is the path of child numbers
    that leads to an item; the empty path is the null handle. */
module TreeForest {
  import opened Repeats

  datatype Item = Item(data: int, expanded: bool, kids: seq<Item>)

  type Forest = seq<Item>

  type Handle = seq<nat>

  const NULL: Handle := []

  /** The null handle, or the handle of an item. */
  predicate InForest(f: Forest, h: Handle)
    decreases |h|
  {
    h == NULL || (h[0] < |f| && InForest(f[h[0]].kids, h[1..]))
  }

  predicate IsItem(f: Forest, h: Handle) {
    h != NULL && InForest(f, h)
  }

  /** The items below a handle; below the null handle are the top items. */
  function Kids(f: Forest, h: Handle): Forest
    requires InForest(f, h)
    decreases |h|
  {
    if h == NULL then f else Kids(f[h[0]].kids, h[1..])
  }

  function ItemAt(f: Forest, h: Handle): Item
    requires IsItem(f, h)
    decreases |h|
  {
    if |h| == 1 then f[h[0]] else ItemAt(f[h[0]].kids, h[1..])
  }

  // ------------------------------------------------------ the control's primitives

  function GetRootItem(f: Forest): Handle {
    if f == [] then NULL else [0]
  }

  function GetChildItem(f: Forest, h: Handle): Handle
    requires InForest(f, h)
  {
    if h == NULL || Kids(f, h) == [] then NULL else h + [0]
  }

  function GetParentItem(h: Handle): Handle {
    if |h| <= 1 then NULL else h[..|h| - 1]
  }

  function GetNextSiblingItem(f: Forest, h: Handle): Handle
    requires InForest(f, h)
  {
    if h == NULL then NULL
    else
      var up, i := h[..|h| - 1], h[|h| - 1];
      UpInForest(f, h);
      if i + 1 < |Kids(f, up)| then up + [i + 1] else NULL
  }

  lemma {:induction false} UpInForest(f: Forest, h: Handle)
    requires IsItem(f, h)
    ensures InForest(f, h[..|h| - 1]) && h[|h| - 1] < |Kids(f, h[..|h| - 1])|
    ensures Kids(f, h) == Kids(f, h[..|h| - 1])[h[|h| - 1]].kids
    ensures ItemAt(f, h) == Kids(f, h[..|h| - 1])[h[|h| - 1]]
    decreases |h|
  {
    if |h| > 1 {
      UpInForest(f[h[0]].kids, h[1..]);
      assert h[..|h| - 1][1..] == h[1..][..|h| - 2];
    } else {
      assert h[..0] == NULL && h[1..] == NULL;
    }
  }

  lemma {:induction false} DownInForest(f: Forest, h: Handle, i: nat)
    requires InForest(f, h) && i < |Kids(f, h)|
    ensures IsItem(f, h + [i]) && Kids(f, h + [i]) == Kids(f, h)[i].kids
    ensures ItemAt(f, h + [i]) == Kids(f, h)[i]
    decreases |h|
  {
    if h != NULL {
      DownInForest(f[h[0]].kids, h[1..], i);
      assert (h + [i])[1..] == h[1..] + [i];
    }
  }

  // -------------------------------------------------------------- preorder traversal

  /** The handles of all items from the `i`-th of `kids` on, which are below `h`. */
  function Preorder(kids: Forest, h: Handle, i: nat): seq<Handle>
    requires i <= |kids|
    decreases kids, |kids| - i
  {
    if i == |kids| then []
    else [h + [i]] + Preorder(kids[i].kids, h + [i], 0) + Preorder(kids, h, i + 1)
  }

  function Order(f: Forest): seq<Handle> {
    Preorder(f, NULL, 0)
  }

  /** The next sibling of `h`, or else of the nearest item above it that has one; stops
      at `top`. */
  function Climb(f: Forest, top: Handle, h: Handle): Handle
    requires InForest(f, h)
    decreases |h|
  {
    if h == top || h == NULL then NULL
    else if GetNextSiblingItem(f, h) != NULL then GetNextSiblingItem(f, h)
    else
      UpInForest(f, h);
      Climb(f, top, h[..|h| - 1])
  }

  function Next(f: Forest, top: Handle, h: Handle): Handle
    requires InForest(f, h)
  {
    if GetChildItem(f, h) != NULL then GetChildItem(f, h) else Climb(f, top, h)
  }

  ghost predicate Prefix(p: Handle, h: Handle) {
    |p| <= |h| && h[..|p|] == p
  }

  /** The traversal goes from `h` to `next`. */
  ghost predicate Leads(f: Forest, top: Handle, h: Handle, next: Handle) {
    IsItem(f, h) && Next(f, top, h) == next
  }

  /** Going from each handle of the list to the next one leads to the next of the list. */
  ghost predicate Chain(f: Forest, top: Handle, hs: seq<Handle>, end: Handle) {
    forall k :: 0 <= k < |hs| ==> Leads(f, top, hs[k], After(hs, k, end))
  }

  ghost function After(hs: seq<Handle>, k: nat, end: Handle): Handle
    requires k < |hs|
  {
    if k + 1 < |hs| then hs[k + 1] else end
  }

  lemma AfterConcat(a: seq<Handle>, b: seq<Handle>, k: nat, end: Handle)
    requires k < |a| + |b|
    ensures After(a + b, k, end) ==
      if k < |a| then After(a, k, if b == [] then end else b[0]) else After(b, k - |a|, end)
  {
  }

  lemma ChainConcat(f: Forest, top: Handle, a: seq<Handle>, b: seq<Handle>, end: Handle)
    requires Chain(f, top, b, end) && Chain(f, top, a, if b == [] then end else b[0])
    ensures Chain(f, top, a + b, end)
  {
    hide Leads, After;
    var hs, mid := a + b, if b == [] then end else b[0];
    forall k | 0 <= k < |hs|
      ensures Leads(f, top, hs[k], After(hs, k, end))
    {
      AfterConcat(a, b, k, end);
      if k < |a| {
        assert hs[k] == a[k] && Leads(f, top, a[k], After(a, k, mid));
      } else {
        var j := k - |a|;
        assert hs[k] == b[j] && Leads(f, top, b[j], After(b, j, end));
      }
    }
  }

  lemma ChainOne(f: Forest, top: Handle, h: Handle, end: Handle)
    requires IsItem(f, h) && Next(f, top, h) == end
    ensures Chain(f, top, [h], end)
  {
  }

  lemma {:induction false} PreorderChain(f: Forest, top: Handle, h: Handle, i: nat)
    requires InForest(f, h) && i <= |Kids(f, h)| && Prefix(top, h)
    ensures Chain(f, top, Preorder(Kids(f, h), h, i), Climb(f, top, h))
    ensures i < |Kids(f, h)| ==> Preorder(Kids(f, h), h, i) != [] && Preorder(Kids(f, h), h, i)[0] == h + [i]
    decreases Kids(f, h), |Kids(f, h)| - i
  {
    hide InForest, Chain, Kids, Next;
    var kids := Kids(f, h);
    if i < |kids| {
      var x := h + [i];
      DownInForest(f, h, i);
      PreorderChain(f, top, x, 0);
      PreorderChain(f, top, h, i + 1);
      ClimbFrom(f, top, h, i);
      NextFrom(f, top, x);
      var a, b := Preorder(kids[i].kids, x, 0), Preorder(kids, h, i + 1);
      ChainOne(f, top, x, if a == [] then Climb(f, top, x) else a[0]);
      ChainConcat(f, top, [x], a, Climb(f, top, x));
      ChainConcat(f, top, [x] + a, b, Climb(f, top, h));
    } else {
      EmptyChain(f, top, Climb(f, top, h));
    }
  }

  lemma EmptyChain(f: Forest, top: Handle, end: Handle)
    ensures Chain(f, top, [], end)
  {
  }

  lemma ClimbFrom(f: Forest, top: Handle, h: Handle, i: nat)
    requires InForest(f, h) && i < |Kids(f, h)| && Prefix(top, h) && IsItem(f, h + [i])
    ensures Climb(f, top, h + [i]) == if i + 1 < |Kids(f, h)| then h + [i + 1] else Climb(f, top, h)
  {
    hide InForest, Kids;
    var x := h + [i];
    assert x[..|x| - 1] == h && x[|x| - 1] == i;
    assert x != top;
  }

  lemma NextFrom(f: Forest, top: Handle, h: Handle)
    requires IsItem(f, h)
    ensures Next(f, top, h) == if Kids(f, h) != [] then h + [0] else Climb(f, top, h)
  {
  }

  /** The `k`-th handle, or null after the last. */
  function At(hs: seq<Handle>, k: nat): Handle {
    if k < |hs| then hs[k] else NULL
  }

  lemma AtItem(hs: seq<Handle>, k: nat)
    requires NULL !in hs
    ensures k < |hs| ==> At(hs, k) != NULL
  {
    if k < |hs| {
      assert hs[k] in hs;
    }
  }

  /** From every item GetNextItem leads to the next one in preorder, from the last to null. */
  lemma NextInOrder(f: Forest, k: nat)
    requires k < |Order(f)|
    ensures IsItem(f, Order(f)[k])
    ensures Next(f, NULL, Order(f)[k]) == At(Order(f), k + 1)
  {
    hide InForest, Next, Climb;
    ClimbNull(f);
    PreorderChain(f, NULL, NULL, 0);
    assert Leads(f, NULL, Order(f)[k], After(Order(f), k, NULL));
  }

  lemma ClimbNull(f: Forest)
    ensures InForest(f, NULL) && Kids(f, NULL) == f && Climb(f, NULL, NULL) == NULL
  {
  }

  // ------------------------------------------------------- what the traversal visits

  ghost predicate Below(h: Handle, i: nat, x: Handle) {
    |h| < |x| && x[..|h|] == h && x[|h|] >= i
  }

  lemma {:induction false} PreorderMembers(f: Forest, h: Handle, i: nat)
    requires InForest(f, h) && i <= |Kids(f, h)|
    ensures forall x :: x in Preorder(Kids(f, h), h, i) <==> Below(h, i, x) && InForest(f, x)
    ensures NoRepeats(Preorder(Kids(f, h), h, i))
    decreases Kids(f, h), |Kids(f, h)| - i
  {
    hide InForest, Kids;
    var kids := Kids(f, h);
    if i < |kids| {
      var c := h + [i];
      DownInForest(f, h, i);
      PreorderMembers(f, c, 0);
      PreorderMembers(f, h, i + 1);
      var a, b := Preorder(kids[i].kids, c, 0), Preorder(kids, h, i + 1);
      forall x
        ensures Below(h, i, x) <==> x == c || Below(c, 0, x) || Below(h, i + 1, x)
        ensures Below(c, 0, x) ==> x != c && !Below(h, i + 1, x)
        ensures !Below(h, i + 1, c)
      {
        BelowSplit(h, i, x);
      }
      NoRepeatsConcat([c], a);
      NoRepeatsConcat([c] + a, b);
    } else {
      forall x
        ensures !(Below(h, i, x) && InForest(f, x))
      {
        if Below(h, i, x) && InForest(f, x) {
          StepDown(f, h, x);
        }
      }
    }
  }

  lemma BelowSplit(h: Handle, i: nat, x: Handle)
    ensures var c := h + [i];
      && (Below(h, i, x) <==> x == c || Below(c, 0, x) || Below(h, i + 1, x))
      && (Below(c, 0, x) ==> x != c && !Below(h, i + 1, x)) && !Below(h, i + 1, c)
  {
    var c := h + [i];
    if |x| > |h| {
      assert x[..|c|] == x[..|h|] + [x[|h|]];
      if |x| == |c| {
        assert x == x[..|c|];
      }
    }
  }

  lemma NoRepeatsConcat(a: seq<Handle>, b: seq<Handle>)
    requires NoRepeats(a) && NoRepeats(b) && forall x :: x in a ==> x !in b
    ensures NoRepeats(a + b)
  {
    forall i, j | 0 <= i < j < |a + b|
      ensures (a + b)[i] != (a + b)[j]
    {
      if i < |a| <= j {
        assert a[i] in a && b[j - |a|] in b;
      }
    }
  }

  /** A handle that continues `h` goes on to one of the items below it. */
  lemma {:induction false} StepDown(f: Forest, h: Handle, x: Handle)
    requires InForest(f, h) && InForest(f, x) && |h| < |x| && x[..|h|] == h
    ensures x[|h|] < |Kids(f, h)|
    decreases |h|
  {
    if h != NULL {
      assert x[1..][..|h| - 1] == h[1..] && x[0] == h[0];
      StepDown(f[h[0]].kids, h[1..], x[1..]);
    }
  }

  /** The traversal visits every item of the forest, and each once. */
  lemma OrderComplete(f: Forest)
    ensures forall x :: x in Order(f) <==> IsItem(f, x)
    ensures NoRepeats(Order(f))
  {
    PreorderMembers(f, NULL, 0);
    assert forall x: Handle :: Below(NULL, 0, x) <==> x != NULL;
  }

  // --------------------------------------------------------------- visible items

  /** The handles of the visible items from the `i`-th of `kids` on, in display order. */
  function VisibleFrom(kids: Forest, h: Handle, i: nat): seq<Handle>
    requires i <= |kids|
    decreases kids, |kids| - i
  {
    if i == |kids| then []
    else
      [h + [i]] + (if kids[i].expanded then VisibleFrom(kids[i].kids, h + [i], 0) else []) +
      VisibleFrom(kids, h, i + 1)
  }

  function Visible(f: Forest): seq<Handle> {
    VisibleFrom(f, NULL, 0)
  }

  /** All items above an item are expanded. */
  ghost predicate Shown(f: Forest, h: Handle, x: Handle) {
    InForest(f, x) && forall n :: |h| < n < |x| ==> IsItem(f, x[..n]) && ItemAt(f, x[..n]).expanded
  }

  lemma {:induction false} VisibleMembers(f: Forest, h: Handle, i: nat)
    requires InForest(f, h) && i <= |Kids(f, h)|
    ensures forall x :: x in VisibleFrom(Kids(f, h), h, i) <==> Below(h, i, x) && Shown(f, h, x)
    ensures NoRepeats(VisibleFrom(Kids(f, h), h, i))
    decreases Kids(f, h), |Kids(f, h)| - i
  {
    hide InForest, Kids, Shown, ItemAt;
    var kids := Kids(f, h);
    if i < |kids| {
      var c := h + [i];
      DownInForest(f, h, i);
      VisibleMembers(f, c, 0);
      VisibleMembers(f, h, i + 1);
      var a := if kids[i].expanded then VisibleFrom(kids[i].kids, c, 0) else [];
      var b := VisibleFrom(kids, h, i + 1);
      forall x
        ensures Below(h, i, x) <==> x == c || Below(c, 0, x) || Below(h, i + 1, x)
        ensures Below(c, 0, x) ==> x != c && !Below(h, i + 1, x)
        ensures !Below(h, i + 1, c) && Shown(f, h, c)
        ensures Below(c, 0, x) ==> (Shown(f, h, x) <==> kids[i].expanded && Shown(f, c, x))
      {
        BelowSplit(h, i, x);
        ShownStep(f, h, i, x);
      }
      NoRepeatsConcat([c], a);
      NoRepeatsConcat([c] + a, b);
    } else {
      forall x
        ensures !(Below(h, i, x) && Shown(f, h, x))
      {
        if Below(h, i, x) && Shown(f, h, x) {
          assert InForest(f, x) by {
            ShownIsItem(f, h, x);
          }
          StepDown(f, h, x);
        }
      }
    }
  }

  lemma ShownIsItem(f: Forest, h: Handle, x: Handle)
    requires Shown(f, h, x)
    ensures InForest(f, x)
  {
  }

  lemma ShownStep(f: Forest, h: Handle, i: nat, x: Handle)
    requires InForest(f, h) && i < |Kids(f, h)| && IsItem(f, h + [i])
    requires ItemAt(f, h + [i]) == Kids(f, h)[i]
    ensures Shown(f, h, h + [i])
    ensures Below(h + [i], 0, x) ==> (Shown(f, h, x) <==> Kids(f, h)[i].expanded && Shown(f, h + [i], x))
  {
    var c := h + [i];
    if Below(c, 0, x) {
      assert x[..|c|] == c;
    }
  }

  /** The visible items are those below expanded items only, each once. */
  lemma VisibleComplete(f: Forest)
    ensures forall x :: x in Visible(f) <==> x != NULL && Shown(f, NULL, x)
    ensures NoRepeats(Visible(f))
  {
    hide Shown;
    VisibleMembers(f, NULL, 0);
    assert forall x: Handle :: Below(NULL, 0, x) <==> x != NULL;
  }

  // ------------------------------------------------------------------- the order

  /** `x` is displayed before `y` when all is expanded: it is above `y`, or where their paths
      part it takes the smaller child number. */
  ghost predicate Before(x: Handle, y: Handle) {
    exists n: nat :: PartAt(x, y, n)
  }

  ghost predicate PartAt(x: Handle, y: Handle, n: nat) {
    n <= |x| && n < |y| && x[..n] == y[..n] && (n == |x| || x[n] < y[n])
  }

  ghost predicate Sorted(hs: seq<Handle>) {
    forall i, j :: 0 <= i < j < |hs| ==> Before(hs[i], hs[j])
  }

  lemma SortedConcat(a: seq<Handle>, b: seq<Handle>)
    requires Sorted(a) && Sorted(b) && forall x, y :: x in a && y in b ==> Before(x, y)
    ensures Sorted(a + b)
  {
    hide Before;
    forall i, j | 0 <= i < j < |a + b|
      ensures Before((a + b)[i], (a + b)[j])
    {
      if i < |a| <= j {
        assert a[i] in a && b[j - |a|] in b;
      }
    }
  }

  /** An item, the items below it, and those at and below its later siblings. */
  lemma SiblingsSorted(h: Handle, i: nat, below: seq<Handle>, later: seq<Handle>)
    requires Sorted(below) && (forall x :: x in below ==> Below(h + [i], 0, x))
    requires Sorted(later) && (forall x :: x in later ==> Below(h, i + 1, x))
    ensures Sorted([h + [i]] + below + later)
  {
    hide Before, Below;
    var c := h + [i];
    forall y | y in below
      ensures Before(c, y)
    {
      BeforeBelow(c, y);
    }
    SortedConcat([c], below);
    forall x, y | x in [c] + below && y in later
      ensures Before(x, y)
    {
      BeforeLater(h, i, x, y);
    }
    SortedConcat([c] + below, later);
  }

  lemma BeforeBelow(c: Handle, y: Handle)
    requires Below(c, 0, y)
    ensures Before(c, y)
  {
    assert c[..|c|] == c;
    assert PartAt(c, y, |c|);
  }

  lemma BeforeLater(h: Handle, i: nat, x: Handle, y: Handle)
    requires (x == h + [i] || Below(h + [i], 0, x)) && Below(h, i + 1, y)
    ensures Before(x, y)
  {
    var c := h + [i];
    assert x[..|c|] == c;
    assert x[..|h|] == x[..|c|][..|h|] == h && x[|h|] == x[..|c|][|h|] == i;
    assert PartAt(x, y, |h|);
  }

  lemma {:induction false} PreorderSorted(f: Forest, h: Handle, i: nat)
    requires InForest(f, h) && i <= |Kids(f, h)|
    ensures Sorted(Preorder(Kids(f, h), h, i))
    decreases Kids(f, h), |Kids(f, h)| - i
  {
    hide InForest, Kids, Below;
    var kids := Kids(f, h);
    if i < |kids| {
      DownInForest(f, h, i);
      PreorderSorted(f, h + [i], 0);
      PreorderSorted(f, h, i + 1);
      PreorderMembers(f, h + [i], 0);
      PreorderMembers(f, h, i + 1);
      SiblingsSorted(h, i, Preorder(kids[i].kids, h + [i], 0), Preorder(kids, h, i + 1));
    }
  }

  /** The traversal visits each item before those below it and before its later siblings. */
  lemma OrderSorted(f: Forest)
    ensures Sorted(Order(f))
  {
    PreorderSorted(f, NULL, 0);
  }

  lemma {:induction false} VisibleFromSorted(f: Forest, h: Handle, i: nat)
    requires InForest(f, h) && i <= |Kids(f, h)|
    ensures Sorted(VisibleFrom(Kids(f, h), h, i))
    decreases Kids(f, h), |Kids(f, h)| - i
  {
    hide InForest, Kids, Below, Shown;
    var kids := Kids(f, h);
    if i < |kids| {
      DownInForest(f, h, i);
      VisibleFromSorted(f, h + [i], 0);
      VisibleFromSorted(f, h, i + 1);
      VisibleMembers(f, h + [i], 0);
      VisibleMembers(f, h, i + 1);
      SiblingsSorted(h, i, if kids[i].expanded then VisibleFrom(kids[i].kids, h + [i], 0) else [],
        VisibleFrom(kids, h, i + 1));
    }
  }

  /** The visible items are displayed in that order too. */
  lemma VisibleSorted(f: Forest)
    ensures Sorted(Visible(f))
  {
    VisibleFromSorted(f, NULL, 0);
  }

  // ------------------------------------------------------------- revealing an item

  /** The forest with all items above one expanded. */
  function Revealed(f: Forest, h: Handle): Forest
    requires InForest(f, h)
    decreases |h|
  {
    if |h| <= 1 then f
    else
      var item := f[h[0]];
      f[h[0] := item.(expanded := true, kids := Revealed(item.kids, h[1..]))]
  }

  ghost predicate Above(x: Handle, h: Handle) {
    0 < |x| < |h| && h[..|x|] == x
  }

  lemma {:induction false} RevealedItems(f: Forest, h: Handle, x: Handle)
    requires InForest(f, h)
    ensures |Revealed(f, h)| == |f| && (InForest(Revealed(f, h), x) <==> InForest(f, x))
    ensures IsItem(f, x) ==> ItemAt(Revealed(f, h), x).expanded == (Above(x, h) || ItemAt(f, x).expanded)
    decreases |h|
  {
    if |h| > 1 && x != NULL && x[0] < |f| && x[0] == h[0] {
      RevealedItems(f[h[0]].kids, h[1..], x[1..]);
      if |x| > 1 {
        AboveStep(x, h);
      } else {
        assert h[..1] == x;
      }
    } else {
      AboveFirst(x, h);
    }
  }

  lemma AboveFirst(x: Handle, h: Handle)
    ensures Above(x, h) ==> |h| > 1 && x[0] == h[0]
  {
    if Above(x, h) {
      assert h[..|x|][0] == h[0];
    }
  }

  lemma AboveStep(x: Handle, h: Handle)
    requires |x| > 1 && |h| > 1 && x[0] == h[0]
    ensures Above(x, h) <==> Above(x[1..], h[1..])
  {
    if |x| < |h| {
      assert h[..|x|] == [h[0]] + h[1..][..|x| - 1] && x == [x[0]] + x[1..];
      assert h[..|x|][1..] == h[1..][..|x| - 1];
    }
  }

  lemma RevealedShown(f: Forest, h: Handle, x: Handle)
    requires InForest(f, h) && x != NULL && (Shown(f, NULL, x) || x == h)
    ensures Shown(Revealed(f, h), NULL, x)
  {
    hide ItemAt, InForest, Revealed;
    var r := Revealed(f, h);
    RevealedItems(f, h, x);
    forall n | 0 < n < |x|
      ensures IsItem(r, x[..n]) && ItemAt(r, x[..n]).expanded
    {
      RevealedItems(f, h, x[..n]);
      if x == h {
        PrefixInForest(f, h, n);
        assert Above(h[..n], h);
      }
    }
  }

  lemma {:induction false} PrefixInForest(f: Forest, h: Handle, n: nat)
    requires InForest(f, h) && n <= |h|
    ensures InForest(f, h[..n])
    decreases |h|
  {
    if n > 0 {
      PrefixInForest(f[h[0]].kids, h[1..], n - 1);
      assert h[..n][1..] == h[1..][..n - 1];
    }
  }

  /** Revealing an item hides nothing and shows the item. */
  lemma RevealedVisible(f: Forest, h: Handle)
    requires InForest(f, h)
    ensures forall x :: x in Visible(f) ==> x in Visible(Revealed(f, h))
    ensures h != NULL ==> h in Visible(Revealed(f, h))
  {
    hide Shown, Visible, Revealed;
    VisibleComplete(f);
    VisibleComplete(Revealed(f, h));
    forall x | x in Visible(f) || (x == h && h != NULL)
      ensures x in Visible(Revealed(f, h))
    {
      RevealedShown(f, h, x);
    }
  }

  /** Revealing a visible item changes nothing. */
  lemma {:induction false} RevealedSame(f: Forest, h: Handle)
    requires Shown(f, NULL, h)
    ensures Revealed(f, h) == f
    decreases |h|
  {
    if |h| > 1 {
      var kids := f[h[0]].kids;
      assert h[..1] == [h[0]] && ItemAt(f, h[..1]).expanded;
      assert Shown(kids, NULL, h[1..]) by {
        forall n | 0 < n < |h| - 1
          ensures IsItem(kids, h[1..][..n]) && ItemAt(kids, h[1..][..n]).expanded
        {
          assert h[..n + 1][1..] == h[1..][..n];
          assert IsItem(f, h[..n + 1]) && ItemAt(f, h[..n + 1]).expanded;
        }
      }
      RevealedSame(kids, h[1..]);
    }
  }
}
