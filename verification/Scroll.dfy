/** Scrolling through the lines of a text: the first line that is drawn. */
module Scrolling {
  import opened Arithmetic
  import opened Decimal

  const DELAY: int := 50
  const FIRST_DELAY: int := 500
  datatype Press = Normal | PressLeft | PressRight | PressBar

  datatype Scroll = Scroll(first: int, total: int, perPage: int, press: Press, delay: Dword, leftToRight: bool)

  datatype Event =
    | KeyUp | KeyDown | KeyPrior | KeyNext
    | Wheel(delta: int)
    | Drag(offset: int, width: int)
    | Button(left: bool)
    | Bar
    | Release
    | Tick(now: Dword)
    | Lines(total: nat, perPage: int)

  function Back(s: Scroll): Scroll {
    if s.first > 0 then s.(first := s.first - 1) else s
  }

  function Forward(s: Scroll): Scroll {
    if s.first + s.perPage < s.total then s.(first := s.first + 1) else s
  }

  /** Does the time since the last step allow another one? The difference wraps around. */
  predicate Due(s: Scroll, now: Dword) {
    (now - s.delay) % WORD >= DELAY
  }

  function Delayed(s: Scroll, now: Dword): Scroll {
    s.(delay := if s.delay == 0 then (now + FIRST_DELAY) % WORD else now)
  }

  function After(s: Scroll, e: Event): Scroll {
    match e
    case KeyUp => Back(s)
    case KeyDown => Forward(s)
    case KeyPrior => s.(first := if s.first - s.perPage < 0 then 0 else s.first - s.perPage)
    case KeyNext =>
      if s.total - s.first >= 2 * s.perPage then s.(first := s.first + s.perPage)
      else if s.total - s.first >= s.perPage then s.(first := s.total - s.perPage)
      else s
    case Wheel(delta) => if delta > 0 then Back(s) else if delta < 0 then Forward(s) else s
    case Drag(offset, width) =>
      if s.press == PressBar && s.total > s.perPage && width > 0 then
        s.(first := Clamp(Quotient(offset * (s.total - s.perPage + 1), width), 0, s.total - s.perPage))
      else s
    case Button(left) => s.(press := if left then PressLeft else PressRight, delay := 0)
    case Bar => if s.total > s.perPage then s.(press := PressBar) else s
    case Release => s.(press := Normal)
    case Tick(now) =>
      if !Due(s, now) then s
      else if s.press == (if s.leftToRight then PressLeft else PressRight) then Delayed(Back(s), now)
      else if s.press == (if s.leftToRight then PressRight else PressLeft) then Delayed(Forward(s), now)
      else s
    case Lines(total, perPage) => s.(first := 0, total := total, perPage := perPage)
  }

  function Run(s: Scroll, es: seq<Event>): Scroll
    decreases |es|
  {
    if es == [] then s else Run(After(s, es[0]), es[1..])
  }

  // --------------------------------------------------------------------------- safety

  /** The page that is shown lies within the lines, or starts at the first of them. */
  ghost predicate Safe(s: Scroll) {
    s.total >= 0 && (s.perPage >= 0 ==> s.first >= 0 && (s.first == 0 || s.first + s.perPage <= s.total))
  }

  lemma StepSafe(s: Scroll, e: Event)
    requires Safe(s)
    ensures Safe(After(s, e))
  {
    hide Quotient;
  }

  /** Whatever happens, in any order. */
  lemma {:induction false} RunSafe(s: Scroll, es: seq<Event>)
    requires Safe(s)
    ensures Safe(Run(s, es))
    decreases |es|
  {
    hide Safe, After;
    if es != [] {
      StepSafe(s, es[0]);
      RunSafe(After(s, es[0]), es[1..]);
    }
  }

  /** The lines from `first` on that are drawn. */
  function DrawnEnd(s: Scroll): int {
    if s.first + s.perPage > s.total then s.total else s.first + s.perPage
  }

  /** The lines that are drawn exist, and a page is full whenever there are enough lines. */
  lemma DrawnLines(s: Scroll, n: int)
    requires Safe(s)
    ensures s.first <= n < DrawnEnd(s) ==> 0 <= n < s.total
    ensures s.perPage >= 0 ==> DrawnEnd(s) - s.first == if s.perPage < s.total then s.perPage else s.total - s.first
  {
  }

  /** With pages of a negative size the first line can leave the text. */
  lemma NegativePage(s: Scroll)
    requires s == Scroll(0, 0, -1, Normal, 0, true)
    ensures Safe(s) && After(s, KeyNext).first < 0
  {
  }

  /** Events between two layouts: the number of lines and the page size stay. */
  ghost predicate NoLayout(es: seq<Event>) {
    forall i :: 0 <= i < |es| ==> !es[i].Lines?
  }

  lemma {:induction false} SizesStay(s: Scroll, es: seq<Event>)
    requires NoLayout(es)
    ensures Run(s, es).total == s.total && Run(s, es).perPage == s.perPage
    decreases |es|
  {
    if es != [] {
      SizesStay(After(s, es[0]), es[1..]);
    }
  }

  /** After a layout, whatever its state was before, the first line never leaves the text,
      whatever happens, exactly when the page size is not negative. */
  lemma FirstLineStays(s: Scroll, total: nat, perPage: int)
    ensures (forall es :: NoLayout(es) ==> Run(After(s, Event.Lines(total, perPage)), es).first >= 0) <==> perPage >= 0
  {
    hide After;
    var laid := After(s, Event.Lines(total, perPage));
    LaidOut(s, total, perPage);
    if perPage >= 0 {
      forall es | NoLayout(es)
        ensures Run(laid, es).first >= 0
      {
        RunSafe(laid, es);
        SizesStay(laid, es);
      }
    } else {
      var es := [KeyNext];
      NextOfNegative(laid);
      assert NoLayout(es) && es[1..] == [] && Run(laid, es) == After(laid, KeyNext);
    }
  }

  lemma LaidOut(s: Scroll, total: nat, perPage: int)
    ensures After(s, Event.Lines(total, perPage)) == s.(first := 0, total := total, perPage := perPage)
  {
  }

  lemma NextOfNegative(s: Scroll)
    requires s.first == 0 && s.total >= 0 && s.perPage < 0
    ensures After(s, KeyNext).first == s.perPage
  {
  }

  // -------------------------------------------------------------------------- movement

  function LastPage(s: Scroll): int {
    if s.total > s.perPage then s.total - s.perPage else 0
  }

  /** Pages move by their size, as far as there are lines. */
  lemma Paged(s: Scroll)
    requires Safe(s) && s.perPage >= 0
    ensures After(s, KeyNext).first == Clamp(s.first + s.perPage, 0, LastPage(s))
    ensures After(s, KeyPrior).first == Clamp(s.first - s.perPage, 0, LastPage(s))
  {
  }

  function Presses(e: Event, n: nat): (es: seq<Event>)
    ensures |es| == n
  {
    if n == 0 then [] else [e] + Presses(e, n - 1)
  }

  /** Paging forward often enough shows the last page. */
  lemma {:induction false} NextReachesEnd(s: Scroll, n: nat)
    requires Safe(s) && s.perPage > 0
    ensures Run(s, Presses(KeyNext, n)) == s.(first := Clamp(s.first + n * s.perPage, 0, LastPage(s)))
    decreases n
  {
    hide After;
    if n > 0 {
      Paged(s);
      StepSafe(s, KeyNext);
      OnlyFirst(s);
      var s' := After(s, KeyNext);
      assert Presses(KeyNext, n)[1..] == Presses(KeyNext, n - 1);
      NextReachesEnd(s', n - 1);
      assert n * s.perPage == s.perPage + (n - 1) * s.perPage;
    }
  }

  lemma OnlyFirst(s: Scroll)
    ensures After(s, KeyNext) == s.(first := After(s, KeyNext).first)
  {
  }

  /** Going down and up again shows the same lines, unless the end stopped the way down. */
  lemma UpUndoesDown(s: Scroll)
    requires Safe(s) && s.perPage >= 0
    ensures After(After(s, KeyDown), KeyUp) == s <==> s.first < LastPage(s) || s.first == 0
  {
  }

  lemma DragIs(s: Scroll, offset: int, width: int)
    requires s.press == PressBar && s.total > s.perPage && width > 0
    ensures var n := s.total - s.perPage; After(s, Drag(offset, width)).first == Clamp(Quotient(offset * (n + 1), width), 0, n)
  {
    hide Quotient, Clamp;
  }

  lemma ClampMonotone(x: int, y: int, lo: int, hi: int)
    requires x <= y && lo <= hi
    ensures Clamp(x, lo, hi) <= Clamp(y, lo, hi)
  {
  }

  /** The drag is monotone and reaches both ends of the text. */
  lemma Dragged(s: Scroll, a: int, b: int, width: int)
    requires s.press == PressBar && s.total > s.perPage && width > 0 && a <= b
    ensures After(s, Drag(a, width)).first <= After(s, Drag(b, width)).first
    ensures After(s, Drag(0, width)).first == 0 && After(s, Drag(width, width)).first == s.total - s.perPage
  {
    hide Quotient, Clamp, After;
    var n := s.total - s.perPage;
    DragIs(s, a, width);
    DragIs(s, b, width);
    DragIs(s, 0, width);
    DragIs(s, width, width);
    MulMonotone(a, b, n + 1);
    TruncatedMonotone(a * (n + 1), b * (n + 1), width);
    ClampMonotone(Quotient(a * (n + 1), width), Quotient(b * (n + 1), width), 0, n);
    TruncatedWhole(n + 1, width);
    Commuted(width, n + 1);
  }

  lemma Commuted(a: int, b: int)
    ensures a * b == b * a && 0 * b == 0
  {
  }

  /** The width of the bar is shared out evenly among the possible first lines. */
  lemma DragShare(s: Scroll, offset: int, width: int)
    requires s.press == PressBar && s.total > s.perPage && 0 <= offset < width
    ensures var first := After(s, Drag(offset, width)).first;
      && 0 <= first <= s.total - s.perPage
      && first * width <= offset * (s.total - s.perPage + 1) < (first + 1) * width
  {
    hide Quotient, Clamp, After;
    var n := s.total - s.perPage + 1;
    DragIs(s, offset, width);
    ScaleBelow(offset, width, n);
    QuotientIs(offset * n, width);
    QuotientBounds(offset * n, width);
  }

  /** Keys and the wheel move by one line: up and a positive turn towards the start, down and a
      negative turn towards the end. */
  lemma OneLine(s: Scroll, delta: int)
    requires Safe(s) && s.perPage >= 0
    ensures After(s, KeyUp) == s.(first := Clamp(s.first - 1, 0, LastPage(s)))
    ensures After(s, KeyDown) == s.(first := Clamp(s.first + 1, 0, LastPage(s)))
    ensures delta > 0 ==> After(s, Wheel(delta)) == After(s, KeyUp)
    ensures delta < 0 ==> After(s, Wheel(delta)) == After(s, KeyDown)
    ensures delta == 0 ==> After(s, Wheel(delta)) == s
  {
  }

  /** A pressed button moves by one line at the next tick from time 50 on: to the start of the
      text when it is the button where the text starts, else to its end. */
  lemma ButtonSteps(s: Scroll, left: bool, now: Dword)
    requires Safe(s) && s.perPage >= 0
    ensures var first := After(After(s, Button(left)), Tick(now)).first;
      && (now < 50 ==> first == s.first)
      && (now >= 50 && left == s.leftToRight ==> first == Clamp(s.first - 1, 0, LastPage(s)))
      && (now >= 50 && left != s.leftToRight ==> first == Clamp(s.first + 1, 0, LastPage(s)))
  {
  }

  /** The bar can be held when there are more lines than a page has; only a held bar is dragged,
      and after a release neither drags nor ticks move the text. */
  lemma HeldOnly(s: Scroll, offset: int, width: int, now: Dword)
    ensures After(s, Bar) == if s.total > s.perPage then s.(press := PressBar) else s
    ensures s.press != PressBar || s.total <= s.perPage || width <= 0 ==> After(s, Drag(offset, width)) == s
    ensures var r := After(s, Release);
      After(r, Drag(offset, width)) == r && After(r, Tick(now)) == r && r == s.(press := r.press)
  {
  }

  /** After its first step a pressed button should wait for 500. The next step is refused only
      from 500 to 549 later: before, the wait looks enormously overdue, because the difference
      of the times wraps around. */
  lemma FirstDelay(s: Scroll, now: Dword, soon: Dword)
    requires s.delay == 0 && now >= 50 && (s.press == PressLeft || s.press == PressRight)
    ensures Due(After(s, Tick(now)), (now + soon) % 4294967296) <==> soon < 500 || soon >= 550
  {
    hide Quotient;
    WrappedDifference(now, soon);
    assert After(s, Tick(now)).delay == (now + FIRST_DELAY) % WORD;
  }

  lemma WrappedDifference(now: Dword, soon: Dword)
    ensures ((now + soon) % WORD - (now + FIRST_DELAY) % WORD) % WORD ==
      if soon < FIRST_DELAY then soon - FIRST_DELAY + WORD else soon - FIRST_DELAY
  {
  }

  /** After that, steps are at least 50 apart. */
  lemma StepsApart(s: Scroll, now: Dword, next: Dword)
    requires s.delay != 0 && (now - s.delay) % 4294967296 >= 50 && now <= next
    requires s.press == PressLeft || s.press == PressRight
    ensures next - now < 50 ==> After(After(s, Tick(now)), Tick(next)) == After(s, Tick(now))
    ensures next - now >= 50 ==> Due(After(s, Tick(now)), next)
  {
  }
}
