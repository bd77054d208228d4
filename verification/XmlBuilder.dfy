/** What the tree builder does with any list of tags, balanced or not. */
module XmlBuilder {
  import opened Wrappers
  import opened XmlText

  // ------------------------------------------------------------- null parents

  /** The `k`-th tag would close the root: no element is open and its name is the label. */
  ghost predicate Stray(tags: seq<string>, st: State, k: nat)
    requires Live(st) && k < |tags| && forall i :: 0 <= i < |tags| ==> IsToken(tags[i])
  {
    var before := Build(tags[..k], st);
    before.State? && |before.open| == 1 && IsToken(tags[k]) && ReadTag(tags[k]).name == before.closing
  }

  lemma {:induction false} CrashKept(tags: seq<string>)
    requires forall i :: 0 <= i < |tags| ==> IsToken(tags[i])
    ensures Build(tags, Crash) == Crash
    decreases |tags|
  {
    if tags != [] {
      CrashKept(tags[1..]);
    }
  }

  /** The loader follows a null parent exactly when some tag is stray. */
  lemma {:induction false} CrashIffStray(tags: seq<string>, st: State)
    requires Live(st) && st.State? && forall i :: 0 <= i < |tags| ==> IsToken(tags[i])
    ensures Build(tags, st) == Crash <==> exists k :: 0 <= k < |tags| && Stray(tags, st, k)
    decreases |tags|
  {
    hide ReadTag;
    if tags != [] {
      var st1, rest := Step(st, tags[0]), tags[1..];
      StrayFirst(tags, st);
      if st1 == Crash {
        CrashKept(rest);
      } else {
        CrashIffStray(rest, st1);
        forall k | 0 <= k < |rest|
          ensures Stray(rest, st1, k) == Stray(tags, st, k + 1)
        {
          StrayLater(tags, st, k);
        }
        if k :| 0 <= k < |tags| && Stray(tags, st, k) {
          assert k > 0 && Stray(rest, st1, k - 1);
        }
      }
    }
  }

  lemma StrayFirst(tags: seq<string>, st: State)
    requires Live(st) && st.State? && tags != [] && forall i :: 0 <= i < |tags| ==> IsToken(tags[i])
    ensures Stray(tags, st, 0) <==> Step(st, tags[0]) == Crash
  {
    hide ReadTag;
    assert tags[..0] == [];
  }

  lemma StrayLater(tags: seq<string>, st: State, k: nat)
    requires Live(st) && k + 1 < |tags| && forall i :: 0 <= i < |tags| ==> IsToken(tags[i])
    ensures Stray(tags[1..], Step(st, tags[0]), k) == Stray(tags, st, k + 1)
  {
    hide ReadTag, Step;
    assert tags[..k + 1][1..] == tags[1..][..k];
  }

  /** With nothing open, the label is the one of the root or not set yet. */
  ghost predicate Labelled(st: State) {
    st.State? && Consistent(st.open, st.closing) && st.open[0].name == ""
  }

  lemma StepLabelled(st: State, tag: string)
    requires Labelled(st) && IsToken(tag) && Step(st, tag) != Crash
    ensures Labelled(Step(st, tag))
  {
    hide ReadTag;
  }

  /** Tags with other names than "" and "/" are never stray. */
  lemma {:induction false} NamedTagsLoad(tags: seq<string>, st: State)
    requires Labelled(st)
    requires forall i :: 0 <= i < |tags| ==> IsToken(tags[i]) && ReadTag(tags[i]).name != "" && ReadTag(tags[i]).name != "/"
    ensures Labelled(Build(tags, st))
    decreases |tags|
  {
    hide ReadTag;
    if tags != [] {
      StepLabelled(st, tags[0]);
      NamedTagsLoad(tags[1..], Step(st, tags[0]));
    }
  }

  /** A text whose tags all have other names than "" and "/" loads, balanced or not. */
  lemma NamedTextLoads(rootProps: seq<Prop>, s: string)
    requires forall tag :: tag in Tokens(s, 0) ==> ReadTag(tag).name != "" && ReadTag(tag).name != "/"
    ensures Parse("", rootProps, s).Some?
  {
    hide ReadTag, Tokens, Step;
    NamedTagsLoad(Tokens(s, 0), Start("", rootProps));
  }

  // ------------------------------------------------------- the condition on names

  /** The tag does not end in "/>". */
  predicate Opening(tag: string)
    requires IsToken(tag)
  {
    tag[|tag| - 2] != '/'
  }

  ghost predicate SomeOpening(tags: seq<string>)
    requires forall i :: 0 <= i < |tags| ==> IsToken(tags[i])
  {
    exists i :: 0 <= i < |tags| && Opening(tags[i])
  }

  ghost predicate NothingOpen(st: State) {
    st.State? && |st.open| == 1
  }

  /** The label of an unnamed root: unset until a tag has opened an element, "/" from then on. */
  function TopLabel(had: bool): string {
    if had then "/" else ""
  }

  ghost predicate TopLabelled(st: State, had: bool) {
    st.State? ==>
      && st.open != [] && st.open[0].name == ""
      && (if |st.open| == 1 then st.closing == TopLabel(had) else had)
  }

  lemma StepTopLabelled(st: State, tag: string, had: bool)
    requires Live(st) && IsToken(tag) && TopLabelled(st, had)
    ensures TopLabelled(Step(st, tag), had || Opening(tag))
  {
    hide ReadTag;
  }

  lemma {:induction false} BuildTopLabelled(tags: seq<string>, st: State, had: bool)
    requires forall i :: 0 <= i < |tags| ==> IsToken(tags[i])
    requires Live(st) && TopLabelled(st, had)
    ensures TopLabelled(Build(tags, st), had || SomeOpening(tags))
    decreases |tags|
  {
    hide ReadTag, Step, Opening, TopLabelled;
    if tags != [] {
      StepTopLabelled(st, tags[0], had);
      BuildTopLabelled(tags[1..], Step(st, tags[0]), had || Opening(tags[0]));
      assert SomeOpening(tags) <==> Opening(tags[0]) || SomeOpening(tags[1..]) by {
        if i :| 0 <= i < |tags[1..]| && Opening(tags[1..][i]) {
          assert Opening(tags[i + 1]);
        }
        if i :| 0 <= i < |tags| && Opening(tags[i]) {
          assert i == 0 || Opening(tags[1..][i - 1]);
        }
      }
    }
  }

  /** The `k`-th tag is misnamed: nothing is open, and its name is "/" when an earlier tag
      has opened an element, "" when none has. */
  ghost predicate Misnamed(tags: seq<string>, rootProps: seq<Prop>, k: nat)
    requires k < |tags| && forall i :: 0 <= i < |tags| ==> IsToken(tags[i])
  {
    NothingOpen(Build(tags[..k], Start("", rootProps))) && IsToken(tags[k]) &&
    ReadTag(tags[k]).name == TopLabel(SomeOpening(tags[..k]))
  }

  lemma StrayIsMisnamed(tags: seq<string>, rootProps: seq<Prop>, k: nat)
    requires k < |tags| && forall i :: 0 <= i < |tags| ==> IsToken(tags[i])
    ensures Stray(tags, Start("", rootProps), k) <==> Misnamed(tags, rootProps, k)
  {
    hide ReadTag, Build, SomeOpening;
    BuildTopLabelled(tags[..k], Start("", rootProps), false);
  }

  /** Under an unnamed root the loader follows a null parent exactly when some tag is
      misnamed. */
  lemma CrashIffMisnamed(tags: seq<string>, rootProps: seq<Prop>)
    requires forall i :: 0 <= i < |tags| ==> IsToken(tags[i])
    ensures Build(tags, Start("", rootProps)) == Crash <==>
      exists k :: 0 <= k < |tags| && Misnamed(tags, rootProps, k)
  {
    hide Stray, Misnamed, Build;
    CrashIffStray(tags, Start("", rootProps));
    forall k | 0 <= k < |tags|
      ensures Stray(tags, Start("", rootProps), k) == Misnamed(tags, rootProps, k)
    {
      StrayIsMisnamed(tags, rootProps, k);
    }
    assert forall k :: 0 <= k < |tags| ==> (Misnamed(tags, rootProps, k) <==> Stray(tags, Start("", rootProps), k));
  }

  /** A text does not load exactly when some tag of it is misnamed. */
  lemma LoadFailsIffMisnamed(rootProps: seq<Prop>, s: string)
    ensures Parse("", rootProps, s).None? <==>
      var tags := Tokens(s, 0); exists k :: 0 <= k < |tags| && Misnamed(tags, rootProps, k)
  {
    hide Tokens, Misnamed, Build;
    CrashIffMisnamed(Tokens(s, 0), rootProps);
  }

  /** An unnamed tag at the top is one that does not load. */
  lemma UnnamedTagCrashes(rootProps: seq<Prop>)
    ensures Parse("", rootProps, "<>").None?
  {
    var s, st := "<>", Start("", rootProps);
    assert OpenFrom(s, 0) == 0;
    assert TagEnd(s, 0, false) == TagEnd(s, 1, false) == Some(2);
    assert s[0..2] == s;
    assert Tokens(s, 2) == [];
    assert Tokens(s, 0) == [s];
    assert ReadTag(s).name == "";
    assert Step(st, s) == Crash;
    assert Build([s], st) == Build([s][1..], Crash);
  }

  // ------------------------------------------------------------ document order

  function Flat(t: Tree): seq<Tag>
    decreases t
  {
    [Tag(t.name, t.props)] + FlatAll(t.kids)
  }

  function FlatAll(ts: seq<Tree>): seq<Tag>
    decreases ts
  {
    if ts == [] then [] else Flat(ts[0]) + FlatAll(ts[1..])
  }

  /** The tags that open an element or are one, in order; the others close one. */
  function Kept(tags: seq<string>, st: State): seq<Tag>
    requires Live(st) && forall i :: 0 <= i < |tags| ==> IsToken(tags[i])
    decreases |tags|
  {
    if tags == [] || st.Crash? then []
    else
      assert IsToken(tags[0]);
      var tag := ReadTag(tags[0]);
      (if tag.name == st.closing then [] else [tag]) + Kept(tags[1..], Step(st, tags[0]))
  }

  function FlatOpen(open: seq<Frame>): seq<Tag> {
    if open == [] then []
    else FlatOpen(open[..|open| - 1]) + Flat(CloseFrame(open[|open| - 1]))
  }

  lemma {:induction false} FlatConcat(a: seq<Tree>, b: seq<Tree>)
    ensures FlatAll(a + b) == FlatAll(a) + FlatAll(b)
    decreases a
  {
    if a == [] {
      assert a + b == b;
    } else {
      assert (a + b)[1..] == a[1..] + b;
      FlatConcat(a[1..], b);
    }
  }

  lemma FlatGrown(f: Frame, t: Tree)
    ensures Flat(CloseFrame(f.(kids := f.kids + [t]))) == Flat(CloseFrame(f)) + Flat(t)
  {
    FlatConcat(f.kids, [t]);
    FlatOne(t);
    assert [Tag(f.name, f.props)] + (FlatAll(f.kids) + Flat(t)) == [Tag(f.name, f.props)] + FlatAll(f.kids) + Flat(t);
  }

  lemma FlatOne(t: Tree)
    ensures FlatAll([t]) == Flat(t)
  {
    hide Flat;
    assert [t][1..] == [];
  }

  lemma FlatAdded(open: seq<Frame>, t: Tree)
    requires open != []
    ensures FlatOpen(AddKids(open, [t])) == FlatOpen(open) + Flat(t)
  {
    hide Flat, CloseFrame;
    var n := |open| - 1;
    var f, open' := open[n], AddKids(open, [t]);
    FlatGrown(f, t);
    assert open'[..n] == open[..n];
    var before := FlatOpen(open[..n]);
    assert before + (Flat(CloseFrame(f)) + Flat(t)) == before + Flat(CloseFrame(f)) + Flat(t);
  }

  lemma FlatPop(open: seq<Frame>)
    requires |open| >= 2
    ensures FlatOpen(Pop(open)) == FlatOpen(open)
  {
    FlatAdded(open[..|open| - 1], CloseFrame(open[|open| - 1]));
  }

  lemma {:induction false} FlatCollapse(open: seq<Frame>)
    requires open != []
    ensures Flat(Collapse(open)) == FlatOpen(open)
    decreases |open|
  {
    hide Pop, Flat;
    if |open| > 1 {
      FlatPop(open);
      FlatCollapse(Pop(open));
    } else {
      assert open[..0] == [];
    }
  }

  lemma FlatStep(st: State, tag: string)
    requires st.State? && Live(st) && IsToken(tag) && Step(st, tag) != Crash
    ensures FlatOpen(Step(st, tag).open) ==
      FlatOpen(st.open) + if ReadTag(tag).name == st.closing then [] else [ReadTag(tag)]
  {
    hide ReadTag, Pop, AddKids, FlatOpen;
    var t := ReadTag(tag);
    if t.name == st.closing {
      FlatPop(st.open);
    } else if tag[|tag| - 2] == '/' {
      FlatAdded(st.open, Node(t.name, t.props, []));
    } else {
      FlatPushed(st.open, Frame(t.name, t.props, []));
    }
  }

  lemma FlatPushed(open: seq<Frame>, f: Frame)
    ensures FlatOpen(open + [f]) == FlatOpen(open) + Flat(CloseFrame(f))
  {
    assert (open + [f])[..|open|] == open;
  }

  /** The loaded items, read in document order, are the tags that do not close an element:
      none is lost, repeated or moved, however the tags are nested. */
  lemma {:induction false} DocumentOrder(tags: seq<string>, st: State)
    requires st.State? && Live(st) && forall i :: 0 <= i < |tags| ==> IsToken(tags[i])
    requires Build(tags, st) != Crash
    ensures Flat(Collapse(Build(tags, st).open)) == FlatOpen(st.open) + Kept(tags, st)
    decreases |tags|
  {
    hide ReadTag, Step, FlatOpen, Flat, Collapse;
    if tags == [] {
      FlatCollapse(st.open);
    } else {
      if Step(st, tags[0]) == Crash {
        CrashKept(tags[1..]);
      }
      FlatStep(st, tags[0]);
      DocumentOrder(tags[1..], Step(st, tags[0]));
    }
  }

  lemma LoadKeepsOrder(rootName: string, rootProps: seq<Prop>, s: string)
    requires Parse(rootName, rootProps, s).Some?
    ensures Flat(Parse(rootName, rootProps, s).value) ==
      [Tag(rootName, rootProps)] + Kept(Tokens(s, 0), Start(rootName, rootProps))
  {
    hide Tokens, Build, Kept;
    var st := Start(rootName, rootProps);
    DocumentOrder(Tokens(s, 0), st);
    FlatPushed([], st.open[0]);
    assert [] + st.open == st.open;
  }
}
