/** Filling vertical lines with the characters of a text, one after another. */
module TextLines {

  /** What a character means for a line: nothing, its end, or something of a height. */
  datatype Unit = Skip | Break | Glyph(height: nat)

  function HeightOf(u: Unit): nat {
    if u.Glyph? then u.height else 0
  }

  /** The height of the characters from `a` on, before `b`. */
  function Height(us: seq<Unit>, a: nat, b: nat): nat
    requires b <= |us|
    decreases b
  {
    if b <= a then 0 else Height(us, a, b - 1) + HeightOf(us[b - 1])
  }

  /** Where the lines start so far, how many are complete, the height of the last line, and
      the last height that was measured. */
  datatype Layout = Layout(lines: seq<nat>, total: nat, lineHeight: nat, last: nat)

  function Placed(l: Layout, i: nat, u: Unit, max: int): Layout {
    match u
    case Skip => l
    case Break => l.(lines := l.lines + [i + 1], total := l.total + 1, lineHeight := 0)
    case Glyph(h) =>
      if h + l.lineHeight > max then Layout(l.lines + [i], l.total + 1, h, h)
      else l.(lineHeight := l.lineHeight + h, last := h)
  }

  /** The layout of the first `m` characters. */
  function Laid(us: seq<Unit>, m: nat, max: int): Layout
    requires m <= |us|
  {
    if m == 0 then Layout([0], 0, 0, 0) else Placed(Laid(us, m - 1, max), m - 1, us[m - 1], max)
  }

  /** Where the lines of a text start, and where the text ends. */
  function Lines(us: seq<Unit>, max: int): seq<nat> {
    Laid(us, |us|, max).lines + [|us|]
  }

  /** How many lines there are to draw. */
  function Total(us: seq<Unit>, max: int): nat {
    Laid(us, |us|, max).total + if Laid(us, |us|, max).last > 0 then 1 else 0
  }

  // ------------------------------------------------------------------ lines in general

  /** Starts of lines in the first `m` characters. */
  ghost predicate Starts(st: seq<nat>, m: nat) {
    |st| > 0 && st[0] == 0 && st[|st| - 1] <= m && forall j, k :: 0 <= j <= k < |st| ==> st[j] <= st[k]
  }

  function End(st: seq<nat>, j: nat, m: nat): nat
    requires j < |st|
  {
    if j + 1 < |st| then st[j + 1] else m
  }

  lemma EndIn(st: seq<nat>, j: nat, m: nat)
    requires Starts(st, m) && j < |st|
    ensures st[j] <= End(st, j, m) <= m
  {
  }

  function LineHeight(us: seq<Unit>, st: seq<nat>, j: nat, m: nat): nat
    requires m <= |us| && Starts(st, m) && j < |st|
  {
    EndIn(st, j, m);
    Height(us, st[j], End(st, j, m))
  }

  /** No line is too high. */
  ghost predicate Fits(us: seq<Unit>, st: seq<nat>, m: nat, max: int)
    requires m <= |us| && Starts(st, m)
  {
    forall j :: 0 <= j < |st| ==> LineHeight(us, st, j, m) <= max
  }

  /** A new line starts behind every break. */
  ghost predicate Broken(us: seq<Unit>, st: seq<nat>, m: nat)
    requires m <= |us|
  {
    forall i :: 0 <= i < m && us[i].Break? ==> i + 1 in st
  }

  /** The last height in a text, 0 if there is none. */
  function LastHeight(us: seq<Unit>, m: nat): nat
    requires m <= |us|
  {
    if m == 0 then 0 else if us[m - 1].Glyph? then us[m - 1].height else LastHeight(us, m - 1)
  }

  lemma StartsMore(st: seq<nat>, m: nat, e: nat)
    requires Starts(st, m) && m <= e <= m + 1
    ensures Starts(st, m + 1) && Starts(st + [e], m + 1)
  {
  }

  lemma BrokenMore(us: seq<Unit>, st: seq<nat>, m: nat, e: nat)
    requires m < |us| && Broken(us, st, m)
    ensures us[m].Break? ==> (e == m + 1 ==> Broken(us, st + [e], m + 1))
    ensures !us[m].Break? ==> Broken(us, st, m + 1) && Broken(us, st + [e], m + 1)
  {
    assert e in st + [e] && forall x :: x in st ==> x in st + [e];
  }

  /** A layout of the first `m` characters: its lines start in them, a new one behind every
      break, and the heights are those of the last line and of the last measured character. */
  ghost predicate LayoutOf(us: seq<Unit>, l: Layout, m: nat)
    requires m <= |us|
  {
    && |l.lines| == l.total + 1 && Starts(l.lines, m) && Broken(us, l.lines, m)
    && l.lineHeight == Height(us, l.lines[l.total], m) && l.last == LastHeight(us, m)
  }

  lemma PlacedInLine(us: seq<Unit>, l: Layout, m: nat, m': nat)
    requires m < |us| && m' == m + 1 && LayoutOf(us, l, m) && !us[m].Break?
    ensures LayoutOf(us, Layout(l.lines, l.total, l.lineHeight + HeightOf(us[m]),
      if us[m].Glyph? then us[m].height else l.last), m')
  {
    hide Height, Broken, Starts;
    SomeStart(l.lines, m);
    StartsMore(l.lines, m, m');
    BrokenMore(us, l.lines, m, m');
    LastOfHeight(us, l.lines[l.total], m');
  }

  lemma PlacedInNext(us: seq<Unit>, l: Layout, m: nat, m': nat, e: nat)
    requires m < |us| && m' == m + 1 && LayoutOf(us, l, m) && !us[m].Skip? && e == if us[m].Break? then m' else m
    ensures LayoutOf(us, Layout(l.lines + [e], l.total + 1, HeightOf(us[m]),
      if us[m].Glyph? then us[m].height else l.last), m')
  {
    hide Height, Broken, Starts;
    StartsMore(l.lines, m, e);
    BrokenMore(us, l.lines, m, e);
    NothingAt(us, e);
    if e == m {
      LastOfHeight(us, m, m');
    }
  }

  lemma {:induction false} LaidLayout(us: seq<Unit>, m: nat, max: int)
    requires m <= |us|
    ensures LayoutOf(us, Laid(us, m, max), m)
    decreases m
  {
    if m > 0 {
      hide LayoutOf, Laid;
      LaidLayout(us, m - 1, max);
      LaidStep(us, m, max);
      var l, u := Laid(us, m - 1, max), us[m - 1];
      if !u.Break? {
        PlacedInLine(us, l, m - 1, m);
      }
      if !u.Skip? {
        PlacedInNext(us, l, m - 1, m, if u.Break? then m else m - 1);
      }
    }
  }

  lemma LaidLines(us: seq<Unit>, m: nat, max: int)
    requires m <= |us|
    ensures var l := Laid(us, m, max);
      && Starts(l.lines, m) && |l.lines| == l.total + 1 && Broken(us, l.lines, m)
      && l.lineHeight == Height(us, l.lines[l.total], m) && l.last == LastHeight(us, m)
  {
    hide Laid, Starts, Broken, Height, LastHeight;
    LaidLayout(us, m, max);
  }

  /** The lines cut the text up; a new line starts behind every break. Their number is that
      of the lines to draw exactly when the last height is positive, else one more. */
  lemma LinesPartition(us: seq<Unit>, max: int)
    ensures var lines := Lines(us, max);
      && |lines| >= 2 && lines[0] == 0 && lines[|lines| - 1] == |us|
      && (forall j, k :: 0 <= j <= k < |lines| ==> lines[j] <= lines[k] <= |us|)
      && Broken(us, lines[..|lines| - 1], |us|)
      && |lines| - 1 == Total(us, max) + if LastHeight(us, |us|) > 0 then 0 else 1
  {
    hide Laid, Height, LastHeight;
    LaidLines(us, |us|, max);
    var l := Laid(us, |us|, max);
    assert Lines(us, max)[..|l.lines|] == l.lines;
  }

  // --------------------------------------------------------------------- line heights

  lemma {:induction false} MoreHeight(us: seq<Unit>, a: nat, b: nat, i: nat)
    requires a <= i < b <= |us|
    ensures HeightOf(us[i]) <= Height(us, a, b)
    decreases b
  {
    if i < b - 1 {
      MoreHeight(us, a, b - 1, i);
    }
  }

  lemma {:induction false} LineOf(st: seq<nat>, m: nat, i: nat) returns (j: nat)
    requires Starts(st, m) && i < m
    ensures j < |st| && st[j] <= i < End(st, j, m)
    decreases |st|
  {
    if st[|st| - 1] <= i {
      j := |st| - 1;
    } else {
      j := LineOf(st[..|st| - 1], st[|st| - 1], i);
    }
  }

  /** Where every character fits, every line fits. */
  lemma {:induction false} LaidFits(us: seq<Unit>, m: nat, max: int)
    requires m <= |us| && max >= 0 && forall i :: 0 <= i < m ==> HeightOf(us[i]) <= max
    ensures Starts(Laid(us, m, max).lines, m) && Fits(us, Laid(us, m, max).lines, m, max)
    decreases m
  {
    hide Laid;
    LaidLines(us, m, max);
    var st := Laid(us, m, max).lines;
    if m == 0 {
      LaidNothing(us, max);
    } else {
      LaidFits(us, m - 1, max);
      LaidLines(us, m - 1, max);
      forall j | 0 <= j < |st|
        ensures LineHeight(us, st, j, m) <= max
      {
        LineFits(us, m, max, j);
      }
    }
  }

  lemma LaidNothing(us: seq<Unit>, max: int)
    ensures Laid(us, 0, max) == Layout([0], 0, 0, 0)
  {
  }

  lemma LaidStep(us: seq<Unit>, m: nat, max: int)
    requires 0 < m <= |us|
    ensures Laid(us, m, max) == Placed(Laid(us, m - 1, max), m - 1, us[m - 1], max)
  {
  }

  lemma LineFits(us: seq<Unit>, m: nat, max: int, j: nat)
    requires 0 < m <= |us| && max >= 0 && HeightOf(us[m - 1]) <= max
    requires Starts(Laid(us, m - 1, max).lines, m - 1) && Fits(us, Laid(us, m - 1, max).lines, m - 1, max)
    requires Starts(Laid(us, m, max).lines, m) && j < |Laid(us, m, max).lines|
    ensures LineHeight(us, Laid(us, m, max).lines, j, m) <= max
  {
    hide Laid, Height;
    LaidStep(us, m, max);
    LaidLines(us, m - 1, max);
    var l, k := Laid(us, m - 1, max), Laid(us, m, max);
    if j < |l.lines| {
      assert k.lines[j] == l.lines[j];
      assert LineHeight(us, l.lines, j, m - 1) <= max;
      LastOfHeight(us, l.lines[l.total], m);
    } else {
      LastOfHeight(us, m - 1, m);
      NothingAt(us, m - 1);
      NothingAt(us, m);
    }
  }

  /** No line is higher than allowed exactly when no single character is. */
  lemma NoLineTooHigh(us: seq<Unit>, max: int)
    ensures Starts(Laid(us, |us|, max).lines, |us|)
    ensures Fits(us, Laid(us, |us|, max).lines, |us|, max) <==>
      max >= 0 && forall i :: 0 <= i < |us| ==> HeightOf(us[i]) <= max
  {
    hide Laid, Height;
    LaidLines(us, |us|, max);
    var st := Laid(us, |us|, max).lines;
    if max >= 0 && forall i :: 0 <= i < |us| ==> HeightOf(us[i]) <= max {
      LaidFits(us, |us|, max);
    }
    if Fits(us, st, |us|, max) {
      assert LineHeight(us, st, 0, |us|) <= max;
      forall i | 0 <= i < |us|
        ensures HeightOf(us[i]) <= max
      {
        var j := LineOf(st, |us|, i);
        EndIn(st, j, |us|);
        MoreHeight(us, st[j], End(st, j, |us|), i);
        assert LineHeight(us, st, j, |us|) <= max;
      }
    }
  }

  // ------------------------------------------------------------------------ optimality

  /** How many of the lines start at `m` or before. */
  function StartsBefore(st: seq<nat>, m: nat): (p: nat)
    requires |st| > 0 && st[0] == 0
    ensures 0 < p <= |st| && st[p - 1] <= m && (p < |st| ==> st[p] > m)
    decreases |st|
  {
    if st[|st| - 1] <= m then |st| else StartsBefore(st[..|st| - 1], m)
  }

  lemma {:induction false} HeightGrows(us: seq<Unit>, a: nat, b: nat, c: nat)
    requires b <= c <= |us|
    ensures Height(us, a, b) <= Height(us, a, c)
    decreases c
  {
    if b < c {
      HeightGrows(us, a, b, c - 1);
    }
  }

  /** The lines that start before the last character fit, and the last of them has room for
      that character. */
  lemma StartsFit(us: seq<Unit>, st: seq<nat>, m: nat, max: int)
    requires 0 < m <= |us| && Starts(st, m) && Fits(us, st, m, max) && Broken(us, st, m)
    ensures var p := StartsBefore(st, m - 1);
      && Starts(st[..p], m - 1) && Fits(us, st[..p], m - 1, max) && Broken(us, st[..p], m - 1)
      && Height(us, st[p - 1], m - 1) + HeightOf(us[m - 1]) <= max
      && (us[m - 1].Break? ==> p < |st|) && (p == |st| || st[|st| - 1] == m)
  {
    hide Height, StartsBefore;
    var p, m' := StartsBefore(st, m - 1), m - 1;
    var st' := st[..p];
    forall j | 0 <= j < p
      ensures LineHeight(us, st', j, m') <= max
    {
      assert LineHeight(us, st, j, m) <= max;
      EndIn(st', j, m');
      HeightGrows(us, st[j], End(st', j, m'), End(st, j, m));
    }
    assert LineHeight(us, st, p - 1, m) <= max;
    assert End(st, p - 1, m) == m;
    LastOfHeight(us, st[p - 1], m);
    BrokenBefore(us, st, m, p);
  }

  lemma BrokenBefore(us: seq<Unit>, st: seq<nat>, m: nat, p: nat)
    requires 0 < m <= |us| && Starts(st, m) && Broken(us, st, m) && 0 < p <= |st|
    requires st[p - 1] <= m - 1 && (p < |st| ==> st[p] > m - 1)
    ensures Broken(us, st[..p], m - 1) && (us[m - 1].Break? ==> p < |st|)
  {
    forall i | 0 <= i < m - 1 && us[i].Break?
      ensures i + 1 in st[..p]
    {
      var j :| 0 <= j < |st| && st[j] == i + 1;
      assert st[..p][j] == i + 1;
    }
    if us[m - 1].Break? {
      var j :| 0 <= j < |st| && st[j] == m;
    }
  }

  lemma LastOfHeight(us: seq<Unit>, a: nat, b: nat)
    requires a < b <= |us|
    ensures Height(us, a, b) == Height(us, a, b - 1) + HeightOf(us[b - 1])
  {
  }

  /** Against any lines that fit, the layout is ahead: fewer lines, or as many and no more in
      the last one. */
  lemma {:induction false} Ahead(us: seq<Unit>, st: seq<nat>, m: nat, max: int)
    requires m <= |us| && Starts(st, m) && Fits(us, st, m, max) && Broken(us, st, m)
    ensures var l := Laid(us, m, max);
      l.total < |st| - 1 || (l.total == |st| - 1 && l.lineHeight <= Height(us, st[|st| - 1], m))
    decreases m
  {
    hide Laid, Height, Starts, Fits, Broken, StartsBefore;
    if m == 0 {
      LaidNothing(us, max);
      assert |st| > 0 by {
        SomeStart(st, m);
      }
    } else {
      SomeStart(st, m);
      StartsFit(us, st, m, max);
      var p := StartsBefore(st, m - 1);
      Ahead(us, st[..p], m - 1, max);
      LaidStep(us, m, max);
      LastOfHeight(us, st[p - 1], m);
      NothingAt(us, m);
    }
  }

  lemma SomeStart(st: seq<nat>, m: nat)
    requires Starts(st, m)
    ensures |st| > 0 && st[0] == 0 && st[|st| - 1] <= m
  {
  }

  lemma NothingAt(us: seq<Unit>, m: nat)
    requires m <= |us|
    ensures Height(us, m, m) == 0
  {
  }

  /** No way of cutting the text into lines that fit, with a new line behind every break,
      needs fewer lines than the layout has. */
  lemma FewestLines(us: seq<Unit>, st: seq<nat>, max: int)
    requires Starts(st, |us|) && Fits(us, st, |us|, max) && Broken(us, st, |us|)
    ensures |Lines(us, max)| - 1 <= |st| && Total(us, max) <= |st|
  {
    hide Laid, Fits, Broken, LastHeight;
    Ahead(us, st, |us|, max);
    LaidLines(us, |us|, max);
  }

  /** What is drawn of a text of positive heights that fit: all lines of such a cut, and no
      cut has fewer. */
  lemma Optimal(us: seq<Unit>, max: int)
    requires exists i :: 0 <= i < |us| && us[i].Glyph?
    requires forall i :: 0 <= i < |us| ==> us[i].Glyph? ==> 0 < us[i].height <= max
    ensures var st := Laid(us, |us|, max).lines;
      && Starts(st, |us|) && Fits(us, st, |us|, max) && Broken(us, st, |us|) && Total(us, max) == |st|
      && forall st' :: Starts(st', |us|) && Fits(us, st', |us|, max) && Broken(us, st', |us|) ==> |st| <= |st'|
  {
    hide Laid, Height, Starts, Fits, Broken, LastHeight;
    LaidLines(us, |us|, max);
    LaidFits(us, |us|, max);
    LastPositive(us, |us|);
    forall st' | Starts(st', |us|) && Fits(us, st', |us|, max) && Broken(us, st', |us|)
      ensures |Laid(us, |us|, max).lines| <= |st'|
    {
      FewestLines(us, st', max);
    }
  }

  lemma {:induction false} LastPositive(us: seq<Unit>, m: nat)
    requires m <= |us| && exists i :: 0 <= i < m && us[i].Glyph?
    requires forall i :: 0 <= i < m ==> us[i].Glyph? ==> 0 < us[i].height
    ensures LastHeight(us, m) > 0
    decreases m
  {
    if !us[m - 1].Glyph? {
      var i :| 0 <= i < m && us[i].Glyph?;
      LastPositive(us, m - 1);
    }
  }

  /** A text that is not drawn at all: a character, then something of no height. */
  lemma NotDrawn(h: nat, max: int)
    requires 0 < h <= max
    ensures Total([Glyph(h), Glyph(0)], max) == 0 && LineHeight([Glyph(h), Glyph(0)], [0], 0, 2) == h
  {
    var us := [Glyph(h), Glyph(0)];
    LaidStep(us, 2, max);
    LaidStep(us, 1, max);
  }
}
