/** The vertical text control: its lines, its scroll bar, and which lines it draws. */
module VerticalTexts {
  import opened Arithmetic
  import opened Decimal
  import opened RichItems
  import opened RichTexts
  import opened Scrolling
  import opened TextLines

  type Font = char -> nat

  /** The height of the first `n` characters of a name. */
  function NameHeight(name: string, n: nat, font: Font): nat
    requires n <= |name|
  {
    if n == 0 then 0 else NameHeight(name, n - 1, font) + font(name[n - 1])
  }

  /** What a character is to a line. Of the items only coordinates have a height. */
  function UnitOf(c: char, items: Items, font: Font): Unit {
    if IsItemCode(c) then
      if c in items && items[c].kind == Kind.Coord then Glyph(NameHeight(items[c].name, |items[c].name|, font)) else Skip
    else if c == '\n' then Skip
    else if c == '\r' then Break
    else Glyph(font(c))
  }

  function Units(text: string, items: Items, font: Font): (us: seq<Unit>)
    ensures |us| == |text| && forall i :: 0 <= i < |text| ==> us[i] == UnitOf(text[i], items, font)
  {
    seq(|text|, i requires 0 <= i < |text| => UnitOf(text[i], items, font))
  }

  class VerticalText {
    var text: string
    var items: Items
    var font: Font
    ghost var maxHeight: int
    var vecLines: seq<nat>
    var totalLines: nat
    var linesPP: int
    var firstLine: int
    var press: Press
    var scrollDelay: Dword
    const leftToRight: bool

    ghost function Us(): seq<Unit>
      reads this
    {
      Units(text, items, font)
    }

    /** The lines are those of the text, and the shown page lies within them. */
    ghost predicate Valid()
      reads this
    {
      vecLines == TextLines.Lines(Us(), maxHeight) && totalLines == Total(Us(), maxHeight) && Safe(S())
    }

    ghost function S(): Scroll
      reads this
    {
      Scroll(firstLine, totalLines, linesPP, press, scrollDelay, leftToRight)
    }

    constructor (leftToRight: bool, font: Font, now: Dword)
      ensures Valid() && S() == Scroll(0, 0, 0, Normal, now, leftToRight) && text == ""
    {
      text, items, this.font, maxHeight := "", map[], font, 0;
      vecLines, totalLines, linesPP, firstLine := [0, 0], 0, 0, 0;
      press, scrollDelay := Normal, now;
      this.leftToRight := leftToRight;
      new;
      LaidNothing(Us(), 0);
    }

    /** Shows a text that was read, with its items. */
    method SetText(text: string, items: Items, maxHeight: int, linesPP: int)
      modifies this
      ensures Valid() && S() == After(old(S()), Event.Lines(totalLines, linesPP))
      ensures this.maxHeight == maxHeight && this.text == text && this.items == items && font == old(font)
    {
      this.text, this.items := text, items;
      CalcTextLines(maxHeight, linesPP);
    }

    method SetFont(font: Font, maxHeight: int, linesPP: int)
      modifies this
      ensures Valid() && S() == After(old(S()), Event.Lines(totalLines, linesPP))
      ensures this.maxHeight == maxHeight && text == old(text) && items == old(items) && this.font == font
    {
      this.font := font;
      CalcTextLines(maxHeight, linesPP);
    }

    /** Fills the lines anew and goes to the first one. */
    method CalcTextLines(maxHeight: int, linesPP: int)
      modifies this
      ensures Valid() && S() == After(old(S()), Event.Lines(totalLines, linesPP))
      ensures this.maxHeight == maxHeight && text == old(text) && items == old(items) && font == old(font)
    {
      hide Laid, UnitOf, Units, IsItemCode, NameHeight;
      ghost var us := Us();
      this.maxHeight, this.linesPP := maxHeight, linesPP;
      vecLines, totalLines, firstLine := [0], 0, 0;
      var lineHeight: nat, height: nat, i := 0, 0, 0;
      LaidNothing(us, maxHeight);
      while i < |text|
        invariant 0 <= i <= |text| == |us|
        invariant Layout(vecLines, totalLines, lineHeight, height) == Laid(us, i, maxHeight)
        invariant text == old(text) && items == old(items) && font == old(font) && this.maxHeight == maxHeight
        invariant S() == After(old(S()), Event.Lines(totalLines, linesPP))
      {
        LaidStep(us, i + 1, maxHeight);
        var u;
        u, height := Measure(i, height);
        if u.Glyph? {
          if height + lineHeight > maxHeight {
            lineHeight := height;
            totalLines := totalLines + 1;
            vecLines := vecLines + [i];
          } else {
            lineHeight := lineHeight + height;
          }
        } else if u.Break? {
          lineHeight := 0;
          totalLines := totalLines + 1;
          vecLines := vecLines + [i + 1];
        }
        i := i + 1;
      }
      vecLines := vecLines + [|text|];
      if height > 0 {
        totalLines := totalLines + 1;
      }
    }

    /** What the character at `i` is; the height that was measured last stays when it has none. */
    method Measure(i: nat, last: nat) returns (u: Unit, height: nat)
      requires i < |text|
      ensures u == Us()[i] && height == if u.Glyph? then u.height else last
    {
      hide IsItemCode, NameHeight;
      height := last;
      if IsItemCode(text[i]) {
        if text[i] in items && items[text[i]].kind == Kind.Coord {
          height := MeasureName(items[text[i]].name);
          return Glyph(height), height;
        }
        return Skip, last;
      } else if text[i] == '\n' {
        return Skip, last;
      } else if text[i] == '\r' {
        return Break, last;
      }
      height := font(text[i]);
      u := Glyph(height);
    }

    method MeasureName(name: string) returns (height: nat)
      ensures height == NameHeight(name, |name|, font)
    {
      height := 0;
      for j := 0 to |name|
        invariant height == NameHeight(name, j, font)
      {
        height := height + font(name[j]);
      }
    }

    method OnDlgItemMessage(e: Event)
      requires Valid() && !e.Tick? && !e.Lines?
      modifies this`firstLine, this`press, this`scrollDelay
      ensures S() == After(old(S()), e) && Valid()
    {
      hide Quotient, TextLines.Lines, Total, Units;
      StepSafe(S(), e);
      match e {
        case KeyUp =>
          if firstLine > 0 {
            firstLine := firstLine - 1;
          }
        case KeyDown =>
          if firstLine < totalLines - linesPP {
            firstLine := firstLine + 1;
          }
        case KeyPrior =>
          firstLine := firstLine - linesPP;
          if firstLine < 0 {
            firstLine := 0;
          }
        case KeyNext =>
          if totalLines - firstLine >= 2 * linesPP {
            firstLine := firstLine + linesPP;
          } else if totalLines - firstLine >= linesPP {
            firstLine := totalLines - linesPP;
          }
        case Wheel(delta) =>
          if delta > 0 && firstLine > 0 {
            firstLine := firstLine - 1;
          } else if delta < 0 && firstLine + linesPP < totalLines {
            firstLine := firstLine + 1;
          }
        case Drag(offset, width) =>
          if press == PressBar && totalLines > linesPP {
            var n := totalLines - linesPP;
            if width > 0 {
              firstLine := Quotient(offset * (n + 1), width);
              firstLine := Clamp(firstLine, 0, n);
            }
          }
        case Button(left) =>
          press := if left then PressLeft else PressRight;
          scrollDelay := 0;
        case Bar =>
          if totalLines > linesPP {
            press := PressBar;
          }
        case Release =>
          press := Normal;
      }
    }

    method Tick(now: Dword)
      requires Valid()
      modifies this`firstLine, this`scrollDelay
      ensures S() == After(old(S()), Event.Tick(now)) && Valid()
    {
      hide TextLines.Lines, Total, Units;
      StepSafe(S(), Event.Tick(now));
      if (now - scrollDelay) % WORD >= DELAY {
        if (press == PressLeft && leftToRight) || (press == PressRight && !leftToRight) {
          if firstLine > 0 {
            firstLine := firstLine - 1;
          }
          scrollDelay := if scrollDelay == 0 then (now + FIRST_DELAY) % WORD else now;
        } else if (press == PressRight && leftToRight) || (press == PressLeft && !leftToRight) {
          if firstLine + linesPP < totalLines {
            firstLine := firstLine + 1;
          }
          scrollDelay := if scrollDelay == 0 then (now + FIRST_DELAY) % WORD else now;
        }
      }
    }

    /** Draws the lines of the page; `heights` tells how far down each of them reaches. */
    method Render() returns (heights: seq<nat>)
      requires Valid()
      ensures |heights| == if firstLine < DrawnEnd(S()) then DrawnEnd(S()) - firstLine else 0
      ensures forall k :: 0 <= k < |heights| ==> LineDrawn(Us(), vecLines, firstLine + k, heights[k])
    {
      hide TextLines.Lines, Total, Units, Height;
      LinesPartition(Us(), maxHeight);
      var end := firstLine + linesPP;
      if end > totalLines {
        end := totalLines;
      }
      DrawnLines(S(), firstLine);
      heights := [];
      var n := firstLine;
      while n < end
        invariant firstLine <= n && (n <= end || n == firstLine)
        invariant |heights| == n - firstLine
        invariant forall k :: 0 <= k < |heights| ==> LineDrawn(Us(), vecLines, firstLine + k, heights[k])
      {
        DrawnLines(S(), n);
        var y := RenderLine(vecLines[n], vecLines[n + 1]);
        heights := heights + [y];
        n := n + 1;
      }
    }

    method RenderLine(start: nat, stop: nat) returns (y: nat)
      requires start <= stop <= |text|
      ensures y == Height(Us(), start, stop)
    {
      hide Units, UnitOf;
      y := 0;
      var i := start;
      NothingAt(Us(), start);
      while i < stop
        invariant start <= i <= stop
        invariant y == Height(Us(), start, i)
      {
        var u, h := Measure(i, 0);
        y := y + h;
        LastOfHeight(Us(), start, i + 1);
        i := i + 1;
      }
    }
  }

  ghost predicate LineDrawn(us: seq<Unit>, lines: seq<nat>, n: int, height: nat) {
    0 <= n < |lines| - 1 && lines[n] <= lines[n + 1] <= |us| && height == Height(us, lines[n], lines[n + 1])
  }

  /** What is drawn of a line is no higher than allowed, unless a single character is. */
  lemma DrawnFits(us: seq<Unit>, max: int, n: int, height: nat)
    requires LineDrawn(us, TextLines.Lines(us, max), n, height)
    requires max >= 0 && forall i :: 0 <= i < |us| ==> HeightOf(us[i]) <= max
    ensures height <= max
  {
    hide Laid, Height;
    NoLineTooHigh(us, max);
    var st := Laid(us, |us|, max).lines;
    assert LineHeight(us, st, n, |us|) <= max;
  }
}
