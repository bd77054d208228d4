/** The tree that an arena of linked items stands for. */
module XmlShapes {
  import opened Repeats
  import opened XmlItems
  import opened XmlText

  /** The item `p` and all that hangs below it form the tree `t`. */
  ghost predicate Represents(m: Arena, p: XmlItem, t: Tree)
    decreases t
  {
    p in m && m[p].name == t.name && m[p].props == t.props && RepresentAll(m, m[p].kids, t.kids)
  }

  ghost predicate RepresentAll(m: Arena, ps: seq<XmlItem>, ts: seq<Tree>)
    decreases ts
  {
    |ps| == |ts| && (ts != [] ==> Represents(m, ps[0], ts[0]) && RepresentAll(m, ps[1..], ts[1..]))
  }

  /** No item is below itself: every child has a greater rank than its parent. */
  ghost predicate Ranked(m: Arena, rank: map<XmlItem, nat>, height: nat) {
    && (forall p :: p in m ==> p in rank && rank[p] < height)
    && (forall p, c :: p in m && c in m[p].kids ==> c in m && rank[p] < rank[c])
  }

  lemma {:induction false} UniqueTree(m: Arena, p: XmlItem, t: Tree, t': Tree)
    requires Represents(m, p, t) && Represents(m, p, t')
    ensures t == t'
    decreases t
  {
    UniqueTrees(m, m[p].kids, t.kids, t'.kids);
  }

  lemma {:induction false} UniqueTrees(m: Arena, ps: seq<XmlItem>, ts: seq<Tree>, ts': seq<Tree>)
    requires RepresentAll(m, ps, ts) && RepresentAll(m, ps, ts')
    ensures ts == ts'
    decreases ts
  {
    if ts != [] {
      UniqueTree(m, ps[0], ts[0], ts'[0]);
      UniqueTrees(m, ps[1..], ts[1..], ts'[1..]);
    }
  }

  /** Every item of a ranked arena stands for a tree. */
  ghost function TreeOf(m: Arena, rank: map<XmlItem, nat>, height: nat, p: XmlItem): (t: Tree)
    requires Ranked(m, rank, height) && p in m
    ensures Represents(m, p, t)
    decreases height - rank[p], |m[p].kids| + 1
  {
    Node(m[p].name, m[p].props, KidsOf(m, rank, height, p, 0))
  }

  ghost function KidsOf(m: Arena, rank: map<XmlItem, nat>, height: nat, p: XmlItem, i: nat): (ts: seq<Tree>)
    requires Ranked(m, rank, height) && p in m && i <= |m[p].kids|
    ensures RepresentAll(m, m[p].kids[i..], ts)
    decreases height - rank[p], |m[p].kids| - i
  {
    if i == |m[p].kids| then []
    else
      var ps := m[p].kids[i..];
      assert ps[0] == m[p].kids[i] && ps[1..] == m[p].kids[i + 1..];
      [TreeOf(m, rank, height, m[p].kids[i])] + KidsOf(m, rank, height, p, i + 1)
  }

  /** A set of items that contains the children of its members. */
  ghost predicate Closed(m: Arena, done: set<XmlItem>) {
    forall x :: x in done ==> x in m && forall c :: c in m[x].kids ==> c in done
  }

  /** Trees within a closed set do not depend on the items outside it. */
  lemma {:induction false} SameTree(m: Arena, m': Arena, done: set<XmlItem>, p: XmlItem, t: Tree)
    requires Closed(m, done) && p in done && Represents(m, p, t)
    requires forall x :: x in done ==> x in m' && m'[x] == m[x]
    ensures Represents(m', p, t)
    decreases t
  {
    SameTrees(m, m', done, m[p].kids, t.kids);
  }

  lemma {:induction false} SameTrees(m: Arena, m': Arena, done: set<XmlItem>, ps: seq<XmlItem>, ts: seq<Tree>)
    requires Closed(m, done) && RepresentAll(m, ps, ts) && forall x :: x in ps ==> x in done
    requires forall x :: x in done ==> x in m' && m'[x] == m[x]
    ensures RepresentAll(m', ps, ts)
    decreases ts
  {
    if ts != [] {
      SameTree(m, m', done, ps[0], ts[0]);
      SameTrees(m, m', done, ps[1..], ts[1..]);
    }
  }

  lemma {:induction false} RepresentConcat(m: Arena, ps: seq<XmlItem>, qs: seq<XmlItem>, ts: seq<Tree>, us: seq<Tree>)
    requires RepresentAll(m, ps, ts) && RepresentAll(m, qs, us)
    ensures RepresentAll(m, ps + qs, ts + us)
    decreases ts
  {
    if ts == [] {
      assert ps + qs == qs && ts + us == us;
    } else {
      RepresentConcat(m, ps[1..], qs, ts[1..], us);
      assert (ps + qs)[1..] == ps[1..] + qs && (ts + us)[1..] == ts[1..] + us;
    }
  }

  // ---------------------------------------------------------- the builder's cursor

  /** An open item: its finished children stand for the frame's, and `inside` follows. */
  ghost predicate OpenItem(m: Arena, done: set<XmlItem>, p: XmlItem, f: Frame, inside: seq<XmlItem>) {
    && p in m && p !in done && m[p].name == f.name && m[p].props == f.props
    && |f.kids| <= |m[p].kids| && m[p].kids[|f.kids|..] == inside
    && RepresentAll(m, m[p].kids[..|f.kids|], f.kids)
    && (forall x :: x in m[p].kids[..|f.kids|] ==> x in done)
  }

  ghost function Inside(open: seq<XmlItem>, k: nat): seq<XmlItem>
    requires k < |open|
  {
    if k + 1 < |open| then [open[k + 1]] else []
  }

  /** The items on the path from the root to the innermost open item, with their frames;
      `done` holds the items that are finished. */
  ghost predicate Cursor(m: Arena, done: set<XmlItem>, open: seq<XmlItem>, frames: seq<Frame>) {
    && |open| == |frames| > 0 && Closed(m, done) && NoRepeats(open)
    && (forall k {:trigger open[k]} :: 0 <= k < |open| ==> OpenItem(m, done, open[k], frames[k], Inside(open, k)))
  }

  lemma OpenItemKept(m: Arena, m': Arena, done: set<XmlItem>, done': set<XmlItem>, p: XmlItem, f: Frame,
                     inside: seq<XmlItem>)
    requires OpenItem(m, done, p, f, inside) && Closed(m, done) && done <= done' && p !in done'
    requires p in m' && m'[p] == m[p]
    requires forall x :: x in done ==> x in m' && m'[x] == m[x]
    ensures OpenItem(m', done', p, f, inside)
  {
    SameTrees(m, m', done, m[p].kids[..|f.kids|], f.kids);
  }

  /** The innermost open item is as full as its frame. */
  lemma LastOpen(m: Arena, done: set<XmlItem>, open: seq<XmlItem>, frames: seq<Frame>)
    requires Cursor(m, done, open, frames)
    ensures var p, f := open[|open| - 1], frames[|open| - 1];
      p in m && |m[p].kids| == |f.kids| && RepresentAll(m, m[p].kids, f.kids) && forall x :: x in m[p].kids ==> x in done
  {
    var p, f := open[|open| - 1], frames[|open| - 1];
    assert OpenItem(m, done, p, f, Inside(open, |open| - 1));
    assert |m[p].kids[|f.kids|..]| == 0;
    assert m[p].kids[..|f.kids|] == m[p].kids;
  }

  ghost function WithChild(m: Arena, p: XmlItem, x: XmlItem, f: Frame): Arena
    requires p in m
  {
    m[x := Cell(f.name, f.props, [])][p := m[p].(kids := m[p].kids + [x])]
  }

  lemma PushCursor(m: Arena, done: set<XmlItem>, open: seq<XmlItem>, frames: seq<Frame>, x: XmlItem, f: Frame)
    requires Cursor(m, done, open, frames) && x !in m && f.kids == []
    requires open[|open| - 1] in m
    ensures Cursor(WithChild(m, open[|open| - 1], x, f), done, open + [x], frames + [f])
  {
    var p, m' := open[|open| - 1], WithChild(m, open[|open| - 1], x, f);
    var open', frames' := open + [x], frames + [f];
    assert forall k :: 0 <= k < |open| ==> open[k] in m;
    assert p !in done by {
      assert OpenItem(m, done, p, frames[|open| - 1], Inside(open, |open| - 1));
    }
    forall k | 0 <= k < |open'|
      ensures OpenItem(m', done, open'[k], frames'[k], Inside(open', k))
    {
      if k < |open| - 1 {
        assert OpenItem(m, done, open[k], frames[k], Inside(open, k)) && open[k] != p;
        OpenItemKept(m, m', done, done, open[k], frames[k], Inside(open, k));
      } else if k == |open| - 1 {
        LastOpen(m, done, open, frames);
        var n := |frames[k].kids|;
        assert m'[p].kids[..n] == m[p].kids && m'[p].kids[n..] == [x];
        SameTrees(m, m', done, m[p].kids, frames[k].kids);
      }
    }
  }

  /** An open item takes up the finished item inside it. */
  lemma TakesUp(m: Arena, done: set<XmlItem>, p: XmlItem, f: Frame, x: XmlItem, t: Tree)
    requires OpenItem(m, done, p, f, [x]) && Represents(m, x, t) && p != x
    ensures OpenItem(m, done + {x}, p, f.(kids := f.kids + [t]), [])
  {
    var kids := m[p].kids[..|f.kids|];
    assert m[p].kids == kids + [x];
    assert RepresentAll(m, [x], [t]);
    RepresentConcat(m, kids, [x], f.kids, [t]);
    assert m[p].kids[..|f.kids| + 1] == m[p].kids;
  }

  lemma PopCursor(m: Arena, done: set<XmlItem>, open: seq<XmlItem>, frames: seq<Frame>)
    requires Cursor(m, done, open, frames) && |open| >= 2
    ensures Cursor(m, done + {open[|open| - 1]}, open[..|open| - 1], Pop(frames))
  {
    hide RepresentAll, Represents;
    var n := |open| - 1;
    var x, open', done', frames' := open[n], open[..n], done + {open[n]}, Pop(frames);
    LastOpen(m, done, open, frames);
    LastFinished(m, done, open, frames);
    forall k | 0 <= k < n
      ensures OpenItem(m, done', open'[k], frames'[k], Inside(open', k))
    {
      assert OpenItem(m, done, open[k], frames[k], Inside(open, k));
      assert open[k] != x;
      if k < n - 1 {
        OpenItemKept(m, m, done, done', open[k], frames[k], Inside(open, k));
      } else {
        TakesUp(m, done, open[k], frames[k], x, CloseFrame(frames[n]));
      }
    }
  }

  lemma LastFinished(m: Arena, done: set<XmlItem>, open: seq<XmlItem>, frames: seq<Frame>)
    requires Cursor(m, done, open, frames)
    ensures Represents(m, open[|open| - 1], CloseFrame(frames[|open| - 1]))
  {
    var n := |open| - 1;
    LastOpen(m, done, open, frames);
    assert OpenItem(m, done, open[n], frames[n], Inside(open, n));
  }

  lemma {:induction false} CloseCursor(m: Arena, done: set<XmlItem>, open: seq<XmlItem>, frames: seq<Frame>)
    requires Cursor(m, done, open, frames)
    ensures Represents(m, open[0], Collapse(frames))
    decreases |open|
  {
    if |open| == 1 {
      LastOpen(m, done, open, frames);
      assert OpenItem(m, done, open[0], frames[0], Inside(open, 0));
    } else {
      PopCursor(m, done, open, frames);
      CloseCursor(m, done + {open[|open| - 1]}, open[..|open| - 1], Pop(frames));
    }
  }
}
