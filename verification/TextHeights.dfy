/** The lines of a vertical text, told from its characters: why each line starts, what is in
    it, and what does not count. */
module TextHeights {
  import opened RichItems
  import opened RichTexts
  import opened TextLines
  import opened VerticalTexts

  // ---------------------------------------------------------------- why a line starts

  /** Line `j` starts behind a break, or with a character that was too much for the line before. */
  ghost predicate Starter(us: seq<Unit>, st: seq<nat>, j: nat, max: int)
    requires 0 < j < |st|
  {
    var s := st[j];
    || (0 < s <= |us| && us[s - 1].Break?)
    || (s < |us| && us[s].Glyph? && Height(us, st[j - 1], s) + us[s].height > max)
  }

  ghost predicate Starters(us: seq<Unit>, st: seq<nat>, max: int) {
    forall j :: 0 < j < |st| ==> Starter(us, st, j, max)
  }

  lemma StartersMore(us: seq<Unit>, st: seq<nat>, s: nat, max: int)
    requires Starters(us, st, max) && (st != [] ==> Starter(us, st + [s], |st|, max))
    ensures Starters(us, st + [s], max)
  {
    hide Height;
    forall j | 0 < j < |st|
      ensures Starter(us, st + [s], j, max)
    {
      assert Starter(us, st, j, max);
    }
  }

  lemma {:induction false} LaidStarters(us: seq<Unit>, m: nat, max: int)
    requires m <= |us|
    ensures Starters(us, Laid(us, m, max).lines, max)
    decreases m
  {
    if m > 0 {
      hide Height, Laid;
      LaidStarters(us, m - 1, max);
      LaidStep(us, m, max);
      LaidLines(us, m - 1, max);
      var l := Laid(us, m - 1, max);
      if |Laid(us, m, max).lines| > |l.lines| {
        StartersMore(us, l.lines, if us[m - 1].Break? then m else m - 1, max);
      }
    } else {
      LaidNothing(us, max);
    }
  }

  /** Up to the character at `i` the line holds no more than allowed. */
  ghost predicate RoomAt(us: seq<Unit>, s: nat, i: nat, max: int)
    requires i < |us|
  {
    us[i].Glyph? ==> Height(us, s, i + 1) <= max
  }

  ghost predicate Roomy(us: seq<Unit>, st: seq<nat>, m: nat, max: int)
    requires m <= |us| && Starts(st, m)
  {
    forall j, i :: 0 <= j < |st| && st[j] < i < End(st, j, m) ==> RoomAt(us, st[j], i, max)
  }

  lemma RoomyAt(us: seq<Unit>, st: seq<nat>, m: nat, max: int, j: nat, i: nat)
    requires m <= |us| && Starts(st, m) && Roomy(us, st, m, max) && j < |st| && st[j] < i < End(st, j, m)
    ensures i < |us| && RoomAt(us, st[j], i, max)
  {
    EndIn(st, j, m);
  }

  lemma LaidRoomyAt(us: seq<Unit>, m: nat, max: int, j: nat, i: nat)
    requires 0 < m <= |us| && Starts(Laid(us, m - 1, max).lines, m - 1) && Starts(Laid(us, m, max).lines, m)
    requires Roomy(us, Laid(us, m - 1, max).lines, m - 1, max)
    requires j < |Laid(us, m, max).lines| && Laid(us, m, max).lines[j] < i < End(Laid(us, m, max).lines, j, m)
    ensures i < |us| && RoomAt(us, Laid(us, m, max).lines[j], i, max)
  {
    hide Laid, Height, Starts, Roomy, RoomAt;
    LaidStep(us, m, max);
    LaidLines(us, m - 1, max);
    EndIn(Laid(us, m, max).lines, j, m);
    var l := Laid(us, m - 1, max);
    SomeStart(l.lines, m - 1);
    if j < |l.lines| {
      EndIn(l.lines, j, m - 1);
    }
    if i < m - 1 {
      RoomyAt(us, l.lines, m - 1, max, j, i);
    } else {
      RoomIs(us, l.lines[l.total], i, max);
      LastOfHeight(us, l.lines[l.total], m);
    }
  }

  lemma RoomIs(us: seq<Unit>, s: nat, i: nat, max: int)
    requires i < |us|
    ensures RoomAt(us, s, i, max) <==> (us[i].Glyph? ==> Height(us, s, i + 1) <= max)
  {
  }

  lemma {:induction false} LaidRoomy(us: seq<Unit>, m: nat, max: int)
    requires m <= |us|
    ensures Starts(Laid(us, m, max).lines, m) && Roomy(us, Laid(us, m, max).lines, m, max)
    decreases m
  {
    hide Laid, Height, Starts, RoomAt;
    LaidLines(us, m, max);
    if m > 0 {
      LaidRoomy(us, m - 1, max);
      var st := Laid(us, m, max).lines;
      forall j, i | 0 <= j < |st| && st[j] < i < End(st, j, m)
        ensures i < |us| && RoomAt(us, st[j], i, max)
      {
        LaidRoomyAt(us, m, max, j, i);
      }
    } else {
      LaidNothing(us, max);
    }
  }

  // ------------------------------------------------------------------ told by characters

  /** What is drawn: coordinates of the items, and all other characters but '\n' and '\r'. */
  predicate Drawn(c: char, items: Items) {
    if 0xE000 <= c as int <= 0xE3FF then c in items && items[c].kind == Kind.Coord else c != '\n' && c != '\r'
  }

  function NameSum(name: string, font: Font): nat {
    if name == "" then 0 else font(name[0]) + NameSum(name[1..], font)
  }

  function CharHeight(c: char, items: Items, font: Font): nat {
    if !Drawn(c, items) then 0
    else if 0xE000 <= c as int <= 0xE3FF then NameSum(items[c].name, font)
    else font(c)
  }

  /** The heights of the characters from `a` on, before `b`. */
  function TextHeight(text: string, a: nat, b: nat, items: Items, font: Font): nat
    requires b <= |text|
    decreases b
  {
    if b <= a then 0 else TextHeight(text, a, b - 1, items, font) + CharHeight(text[b - 1], items, font)
  }

  lemma {:induction false} NameSumSnoc(name: string, c: char, font: Font)
    ensures NameSum(name + [c], font) == NameSum(name, font) + font(c)
  {
    if name == "" {
      assert (name + [c])[1..] == "";
    } else {
      assert (name + [c])[1..] == name[1..] + [c];
      NameSumSnoc(name[1..], c, font);
    }
  }

  /** A name is as high as its characters together. */
  lemma {:induction false} NameHeightIs(name: string, n: nat, font: Font)
    requires n <= |name|
    ensures NameHeight(name, n, font) == NameSum(name[..n], font)
  {
    if n > 0 {
      NameHeightIs(name, n - 1, font);
      NameSumSnoc(name[..n - 1], name[n - 1], font);
      assert name[..n] == name[..n - 1] + [name[n - 1]];
    }
  }

  lemma UnitIs(c: char, items: Items, font: Font)
    ensures UnitOf(c, items, font) ==
      if Drawn(c, items) then Glyph(CharHeight(c, items, font)) else if c == '\r' then Break else Skip
  {
    if c in items {
      var name := items[c].name;
      NameHeightIs(name, |name|, font);
      assert name[..|name|] == name;
    }
  }

  lemma {:induction false} HeightIs(text: string, a: nat, b: nat, items: Items, font: Font)
    requires b <= |text|
    ensures Height(Units(text, items, font), a, b) == TextHeight(text, a, b, items, font)
    decreases b
  {
    hide UnitOf, CharHeight, Drawn;
    if a < b {
      HeightIs(text, a, b - 1, items, font);
      UnitIs(text[b - 1], items, font);
      NotDrawnHeight(text[b - 1], items, font);
    }
  }

  lemma NotDrawnHeight(c: char, items: Items, font: Font)
    ensures !Drawn(c, items) ==> CharHeight(c, items, font) == 0
  {
  }

  /** Line `j` starts behind a carriage return, or where the heights of the line before and
      of the next character are together more than allowed. */
  ghost predicate LineStart(text: string, lines: seq<nat>, j: nat, items: Items, font: Font, max: int)
    requires 0 < j < |lines|
  {
    var s := lines[j];
    || (0 < s <= |text| && text[s - 1] == '\r')
    || (s < |text| && Drawn(text[s], items)
        && TextHeight(text, lines[j - 1], s, items, font) + CharHeight(text[s], items, font) > max)
  }

  lemma LineStartIs(text: string, lines: seq<nat>, j: nat, items: Items, font: Font, max: int)
    requires 0 < j < |lines| - 1 && Starter(Units(text, items, font), lines[..|lines| - 1], j, max)
    ensures LineStart(text, lines, j, items, font, max)
  {
    hide Height, TextHeight, UnitOf, CharHeight;
    var s := lines[j];
    if 0 < s <= |text| {
      UnitIs(text[s - 1], items, font);
    }
    if s < |text| {
      UnitIs(text[s], items, font);
      HeightIs(text, lines[j - 1], s, items, font);
    }
  }

  lemma RoomInText(text: string, s: nat, i: nat, items: Items, font: Font, max: int)
    requires i < |text| && Drawn(text[i], items) && RoomAt(Units(text, items, font), s, i, max)
    ensures TextHeight(text, s, i + 1, items, font) <= max
  {
    hide Height, TextHeight, UnitOf, CharHeight;
    UnitIs(text[i], items, font);
    HeightIs(text, s, i + 1, items, font);
  }

  lemma LinesAre(us: seq<Unit>, max: int)
    ensures var lines, n := TextLines.Lines(us, max), |TextLines.Lines(us, max)| - 1;
      && n >= 1 && lines[..n] == Laid(us, |us|, max).lines && Starts(lines[..n], |us|) && Broken(us, lines[..n], |us|)
      && Starters(us, lines[..n], max) && Roomy(us, lines[..n], |us|, max)
      && forall j :: 0 <= j < n ==> End(lines[..n], j, |us|) == lines[j + 1]
  {
    hide Laid, Starts, Broken, Starters, Roomy;
    LaidLines(us, |us|, max);
    LaidStarters(us, |us|, max);
    LaidRoomy(us, |us|, max);
    var st := Laid(us, |us|, max).lines;
    assert TextLines.Lines(us, max)[..|st|] == st;
  }

  /** The lines of a text: a new one behind every carriage return, else only where the next
      character does not fit, and then always. */
  lemma LinesOfText(text: string, items: Items, font: Font, max: int)
    ensures var lines := TextLines.Lines(Units(text, items, font), max);
      && |lines| >= 2 && lines[0] == 0 && lines[|lines| - 1] == |text|
      && (forall j, k :: 0 <= j <= k < |lines| ==> lines[j] <= lines[k] <= |text|)
      && (forall i :: 0 <= i < |text| && text[i] == '\r' ==> i + 1 in lines[..|lines| - 1])
      && (forall j :: 0 < j < |lines| - 1 ==> LineStart(text, lines, j, items, font, max))
      && (forall j, i :: 0 <= j < |lines| - 1 && lines[j] < i < lines[j + 1] && Drawn(text[i], items) ==>
            TextHeight(text, lines[j], i + 1, items, font) <= max)
  {
    hide Laid, Starter, LineStart, Height, TextHeight, UnitOf, RoomAt, TextLines.Lines, CharHeight;
    var us := Units(text, items, font);
    LinesPartition(us, max);
    LinesAre(us, max);
    var lines, n := TextLines.Lines(us, max), |TextLines.Lines(us, max)| - 1;
    forall i | 0 <= i < |text| && text[i] == '\r'
      ensures i + 1 in lines[..n]
    {
      UnitIs(text[i], items, font);
    }
    forall j | 0 < j < n
      ensures LineStart(text, lines, j, items, font, max)
    {
      LineStartIs(text, lines, j, items, font, max);
    }
    forall j, i | 0 <= j < n && lines[j] < i < lines[j + 1] && Drawn(text[i], items)
      ensures TextHeight(text, lines[j], i + 1, items, font) <= max
    {
      RoomyAt(us, lines[..n], |us|, max, j, i);
      RoomInText(text, lines[j], i, items, font, max);
    }
  }

  // ------------------------------------------------------------------- how many lines

  /** The height of the last drawn character, 0 if there is none. */
  function LastDrawn(text: string, m: nat, items: Items, font: Font): nat
    requires m <= |text|
  {
    if m == 0 then 0
    else if Drawn(text[m - 1], items) then CharHeight(text[m - 1], items, font)
    else LastDrawn(text, m - 1, items, font)
  }

  lemma {:induction false} LastIs(text: string, m: nat, items: Items, font: Font)
    requires m <= |text|
    ensures LastHeight(Units(text, items, font), m) == LastDrawn(text, m, items, font)
    decreases m
  {
    hide UnitOf, CharHeight, Drawn;
    if m > 0 {
      LastIs(text, m - 1, items, font);
      UnitIs(text[m - 1], items, font);
    }
  }

  /** The lines to draw are those that were begun after the first one, and the last one when
      the last drawn character has a height. */
  lemma TotalOfText(text: string, items: Items, font: Font, max: int)
    ensures var us := Units(text, items, font);
      Total(us, max) == |TextLines.Lines(us, max)| - 2 + if LastDrawn(text, |text|, items, font) > 0 then 1 else 0
  {
    hide Laid, Total, TextLines.Lines, LastHeight, LastDrawn, UnitOf;
    LinesPartition(Units(text, items, font), max);
    LastIs(text, |text|, items, font);
  }

  /** The characters that count: those that are drawn, and carriage returns. */
  function Counting(text: string, m: nat, items: Items): string
    requires m <= |text|
  {
    if m == 0 then ""
    else Counting(text, m - 1, items) + if Drawn(text[m - 1], items) || text[m - 1] == '\r' then [text[m - 1]] else ""
  }

  lemma {:induction false} LaidSame(us: seq<Unit>, vs: seq<Unit>, m: nat, max: int)
    requires m <= |us| && m <= |vs| && us[..m] == vs[..m]
    ensures Laid(us, m, max) == Laid(vs, m, max)
    decreases m
  {
    if m > 0 {
      assert us[..m - 1] == us[..m][..m - 1] && vs[..m - 1] == vs[..m][..m - 1];
      assert us[..m][m - 1] == us[m - 1] && vs[..m][m - 1] == vs[m - 1];
      LaidSame(us, vs, m - 1, max);
    }
  }

  lemma {:induction false} LaidCounting(text: string, m: nat, items: Items, font: Font, max: int)
    requires m <= |text|
    ensures var t := Counting(text, m, items);
      var l, r := Laid(Units(text, items, font), m, max), Laid(Units(t, items, font), |t|, max);
      |l.lines| == |r.lines| && l.total == r.total && l.lineHeight == r.lineHeight && l.last == r.last
    decreases m
  {
    hide Laid, Drawn, UnitOf, CharHeight;
    if m > 0 {
      LaidCounting(text, m - 1, items, font, max);
      LaidStep(Units(text, items, font), m, max);
      var t, t1, c := Counting(text, m, items), Counting(text, m - 1, items), text[m - 1];
      UnitIs(c, items, font);
      if Drawn(c, items) || c == '\r' {
        assert t == t1 + [c];
        var us := Units(t, items, font);
        assert us[..|t1|] == Units(t1, items, font)[..|t1|];
        LaidSame(us, Units(t1, items, font), |t1|, max);
        LaidStep(us, |t|, max);
      } else {
        assert t == t1;
      }
    } else {
      LaidNothing(Units(text, items, font), max);
      LaidNothing(Units("", items, font), max);
    }
  }

  /** Line feeds and the items that are not coordinates add no line. */
  lemma NothingAdded(text: string, items: Items, font: Font, max: int)
    ensures var us, vs := Units(text, items, font), Units(Counting(text, |text|, items), items, font);
      |TextLines.Lines(us, max)| == |TextLines.Lines(vs, max)| && Total(us, max) == Total(vs, max)
  {
    hide Laid, Counting, UnitOf;
    LaidCounting(text, |text|, items, font, max);
  }
}
