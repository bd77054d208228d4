/** The written form of inline items, with its characters and numbers written out: what each
    kind of item is written as, what a reader finds in any text, and what it says. */
module RichFormat {
  import opened Decimal
  import opened RichItems
  import opened RichRoundTrip
  import opened RichTexts
  import opened Wrappers

  // ---------------------------------------------------------------------- item codes

  /** The characters from U+E000 to U+E3FF are item codes, and after the last comes the first. */
  lemma ItemCodes(c: char, i: nat)
    ensures IsItemCode(c) <==> 57344 <= c as int <= 58367
    ensures CODES == 1024 && (i < 1024 ==> CodeChar(i) as int == 57344 + i)
    ensures 57344 <= c as int < 58367 ==> NextChar(c) as int == c as int + 1
    ensures c as int == 58367 ==> NextChar(c) as int == 57344
  {
  }

  // ------------------------------------------------------------------- the written form

  function Number(c: Dword): string {
    Format(if c < 2147483648 then c else c - 4294967296)
  }

  function Bracket(x: string): string {
    "<" + x + ">"
  }

  /** What an item is written as. */
  function ItemText(v: Value): string {
    match v.kind
    case Emotion => Bracket("0") + Bracket(v.info)
    case IvtrItem => Bracket("1") + Bracket(v.info)
    case Coord =>
      Bracket("2") + Bracket(Number(v.color)) + Bracket(if v.underLine then "1" else "0") +
      Bracket(Number(if v.sameColor then v.color else v.underLineColor)) + Bracket(v.name) + Bracket(v.info)
    case Image =>
      Bracket("3") + Bracket(Number(v.color)) + Bracket(Format(v.imageIndex)) + Bracket(Format(v.imageFrame)) +
      Bracket(v.imageScale) + Bracket(v.info)
    case ScriptItem => Bracket("4") + Bracket(v.info)
    case Box =>
      Bracket("5") + Bracket(Number(v.color)) + Bracket(Format(v.boxWidth)) + Bracket(v.boxScale) + Bracket(v.info)
    case Task => Bracket("6") + Bracket(v.name) + Bracket(v.info)
  }

  lemma OneMore(p: string, xs: seq<string>)
    ensures p + TagsText(xs) == if xs == [] then p else p + Bracket(xs[0]) + TagsText(xs[1..])
  {
  }

  lemma FewTags(p: string, a: string, b: string)
    ensures p + TagsText([a]) == p + Bracket(a) && p + TagsText([a, b]) == p + Bracket(a) + Bracket(b)
  {
    hide TagsText;
    OneMore(p, [a]);
    OneMore(p + Bracket(a), []);
    OneMore(p, [a, b]);
    OneMore(p + Bracket(a), [b]);
    OneMore(p + Bracket(a) + Bracket(b), []);
    assert [a][1..] == [] && [a, b][1..] == [b] && [b][1..] == [];
  }

  lemma FourTags(p: string, a: string, b: string, c: string, d: string)
    ensures p + TagsText([a, b, c, d]) == p + Bracket(a) + Bracket(b) + Bracket(c) + Bracket(d)
  {
    hide TagsText, Bracket;
    OneMore(p, [a, b, c, d]);
    OneMore(p + Bracket(a), [b, c, d]);
    FewTags(p + Bracket(a) + Bracket(b), c, d);
    assert [a, b, c, d][1..] == [b, c, d] && [b, c, d][1..] == [c, d];
  }

  lemma FiveTags(p: string, a: string, b: string, c: string, d: string, e: string)
    ensures p + TagsText([a, b, c, d, e]) == p + Bracket(a) + Bracket(b) + Bracket(c) + Bracket(d) + Bracket(e)
  {
    hide TagsText, Bracket;
    OneMore(p, [a, b, c, d, e]);
    FourTags(p + Bracket(a), b, c, d, e);
    assert [a, b, c, d, e][1..] == [b, c, d, e];
  }

  lemma OneDigit(d: nat)
    requires d < 10
    ensures Format(d) == [(48 + d) as char]
  {
  }

  /** Every item is written in the form of its kind. */
  lemma WrittenForm(v: Value)
    ensures Serialized(v) == ItemText(v)
  {
    hide TagsText, Format, Bracket;
    SerializedTags(v);
    OneDigit(Code(v.kind));
    OneDigit(0);
    OneDigit(1);
    var p, fs := Bracket(Format(Code(v.kind))), Fields(v);
    assert Serialized(v) == p + TagsText(fs) by {
      BracketIs(Format(Code(v.kind)));
    }
    match v.kind {
      case Coord => FiveTags(p, fs[0], fs[1], fs[2], fs[3], fs[4]);
      case Image => FiveTags(p, fs[0], fs[1], fs[2], fs[3], fs[4]);
      case Box => FourTags(p, fs[0], fs[1], fs[2], fs[3]);
      case Task => FewTags(p, fs[0], fs[1]);
      case _ => FewTags(p, fs[0], "");
    }
  }

  lemma BracketIs(x: string)
    ensures Bracket(x) == "<" + x + ">"
  {
  }

  // ----------------------------------------------------------------------- what is read

  /** The first such character from `pos` on. */
  ghost predicate FirstAt(s: string, pos: nat, c: char, i: nat) {
    pos <= i < |s| && s[i] == c && forall k :: pos <= k < i ==> s[k] != c
  }

  ghost predicate Missing(s: string, pos: nat, c: char) {
    forall k :: pos <= k < |s| ==> s[k] != c
  }

  lemma {:induction false} FindExactly(s: string, pos: nat, c: char)
    requires pos <= |s|
    ensures forall i: nat :: FirstAt(s, pos, c, i) ==> Find(s, pos, c) == i
    ensures Find(s, pos, c) < |s| ==> FirstAt(s, pos, c, Find(s, pos, c))
    ensures Find(s, pos, c) == |s| <==> Missing(s, pos, c)
    decreases |s| - pos
  {
    if pos < |s| && s[pos] != c {
      FindExactly(s, pos + 1, c);
    }
  }

  /** The text between the next '<' and the next '>'. */
  ghost predicate NextBracket(s: string, pos: nat, t: Span) {
    t.first > 0 && FirstAt(s, pos, '<', t.first - 1) && FirstAt(s, t.first, '>', t.second)
  }

  /** Each text is the next one in brackets. */
  ghost predicate Brackets(s: string, pos: nat, ts: seq<Span>)
    decreases |ts|
  {
    ts != [] ==> NextBracket(s, pos, ts[0]) && Brackets(s, ts[0].second + 1, ts[1..])
  }

  function BehindTags(pos: nat, ts: seq<Span>): nat {
    if ts == [] then pos else ts[|ts| - 1].second + 1
  }

  lemma FindClose(s: string, open: nat)
    requires open < |s| && s[open] == '<'
    ensures Find(s, open, '>') == Find(s, open + 1, '>')
  {
  }

  /** The bracketed text that the reader finds next, if there is one. */
  function Next(s: string, pos: nat): (r: Option<Span>)
    requires pos <= |s|
    ensures r.Some? ==> pos < r.value.first <= r.value.second < |s|
  {
    var open := Find(s, pos, '<');
    if open == |s| then None
    else
      FindClose(s, open);
      var close := Find(s, open, '>');
      if close == |s| then None else Some(Span(open + 1, close))
  }

  lemma NextIs(s: string, pos: nat, t: Span)
    requires pos <= |s|
    ensures NextBracket(s, pos, t) <==> Next(s, pos) == Some(t)
  {
    hide Find;
    FindExactly(s, pos, '<');
    var open := Find(s, pos, '<');
    if open < |s| {
      FindClose(s, open);
      FindExactly(s, open + 1, '>');
    }
  }

  lemma ParseNext(s: string, pos: nat, n: nat)
    requires pos <= |s| && n > 0
    ensures ParseItems(s, pos, n) ==
      match Next(s, pos)
      case None => None
      case Some(t) => Prepended([t], ParseItems(s, t.second + 1, n - 1))
  {
    hide Find;
  }

  lemma BracketsNext(s: string, pos: nat, ts: seq<Span>)
    requires pos <= |s| && ts != []
    ensures Brackets(s, pos, ts) <==> Next(s, pos) == Some(ts[0]) && Brackets(s, ts[0].second + 1, ts[1..])
  {
    hide NextBracket, Next;
    NextIs(s, pos, ts[0]);
  }

  lemma OneMoreSpan(t: Span, r: Option<Parsed>, pos: nat, ts: seq<Span>)
    requires ts != [] && ts[0] == t && r == Some(Parsed(ts[1..], BehindTags(t.second + 1, ts[1..])))
    ensures Prepended([t], r) == Some(Parsed(ts, BehindTags(pos, ts)))
  {
    assert [t] + ts[1..] == ts;
  }

  lemma {:induction false} BracketsParsed(s: string, pos: nat, n: nat, ts: seq<Span>)
    requires pos <= |s| && |ts| == n && Brackets(s, pos, ts)
    ensures ParseItems(s, pos, n) == Some(Parsed(ts, BehindTags(pos, ts)))
    decreases n
  {
    if n > 0 {
      hide NextBracket, Next, ParseItems, Brackets, Prepended, BehindTags;
      ParseNext(s, pos, n);
      BracketsNext(s, pos, ts);
      var t := ts[0];
      BracketsParsed(s, t.second + 1, n - 1, ts[1..]);
      OneMoreSpan(t, ParseItems(s, t.second + 1, n - 1), pos, ts);
    }
  }

  lemma LessOneSpan(t: Span, r: Option<Parsed>)
    requires Prepended([t], r).Some?
    ensures r.Some? && Prepended([t], r).value.spans == [t] + r.value.spans
    ensures Prepended([t], r).value.spans[0] == t && Prepended([t], r).value.spans[1..] == r.value.spans
  {
  }

  lemma {:induction false} ParsedBrackets(s: string, pos: nat, n: nat)
    requires pos <= |s| && ParseItems(s, pos, n).Some?
    ensures Brackets(s, pos, ParseItems(s, pos, n).value.spans)
    decreases n
  {
    if n > 0 {
      hide NextBracket, Next, ParseItems, Brackets, Prepended;
      ParseNext(s, pos, n);
      var t := Next(s, pos).value;
      LessOneSpan(t, ParseItems(s, t.second + 1, n - 1));
      ParsedBrackets(s, t.second + 1, n - 1);
      BracketsNext(s, pos, ParseItems(s, pos, n).value.spans);
    }
  }

  /** The reader finds exactly the next `n` texts in brackets and goes on behind them. */
  lemma TagsExactly(s: string, pos: nat, n: nat, ts: seq<Span>)
    requires pos <= |s| && |ts| == n
    ensures Brackets(s, pos, ts) <==> ParseItems(s, pos, n).Some? && ParseItems(s, pos, n).value.spans == ts
    ensures Brackets(s, pos, ts) ==> ParseItems(s, pos, n).value.next == BehindTags(pos, ts)
  {
    hide ParseItems, Brackets;
    if Brackets(s, pos, ts) {
      BracketsParsed(s, pos, n, ts);
    }
    if ParseItems(s, pos, n).Some? {
      ParsedBrackets(s, pos, n);
    }
  }

  lemma BracketsIn(s: string, pos: nat, ts: seq<Span>)
    requires pos <= |s| && Brackets(s, pos, ts)
    ensures SpansIn(s, ts)
  {
    TagsExactly(s, pos, |ts|, ts);
  }

  // ------------------------------------------------------------------- what is said

  /** How many texts in brackets an item has behind its type. */
  function TagsOf(code: nat): nat
    requires code < 7
  {
    [1, 1, 5, 5, 1, 4, 2][code]
  }

  /** A color is what its number leaves on division by 2^32. */
  function Color(n: int): Dword {
    n % 4294967296
  }

  /** What the texts of an item say; a box is at most 3000 wide. */
  function Said(s: string, code: nat, ts: seq<Span>): Value
    requires code < 7 && |ts| == TagsOf(code) && SpansIn(s, ts)
  {
    var last := Text(s, ts[|ts| - 1]);
    if code == 0 then Value(Emotion, 4294967295, "W", last, 0, 0, 0, "1.000000", false, true, 0, 0, "1.000000")
    else if code == 1 then Value(IvtrItem, 4294967295, "", last, 0, 0, 0, "1.000000", false, true, 0, 0, "1.000000")
    else if code == 2 then
      Value(Coord, Color(Atoi(s, ts[0].first)), Text(s, ts[3]), last, 0, 0, 0, "1.000000",
        Atoi(s, ts[1].first) != 0, true, Color(Atoi(s, ts[2].first)), 0, "1.000000")
    else if code == 3 then
      Value(Image, Color(Atoi(s, ts[0].first)), "", last, 0, Atoi(s, ts[1].first), Atoi(s, ts[2].first),
        Text(s, ts[3]), false, true, 0, 0, "1.000000")
    else if code == 4 then Value(ScriptItem, 4294967295, "", last, 0, 0, 0, "1.000000", false, true, 0, 0, "1.000000")
    else if code == 5 then
      var width := Atoi(s, ts[1].first);
      Value(Box, Color(Atoi(s, ts[0].first)), "", last, 0, 0, 0, "1.000000", false, true, 0,
        if width < 0 then 0 else if width > 3000 then 3000 else width, Text(s, ts[2]))
    else Value(Task, 4294967295, Text(s, ts[0]), last, 0, 0, 0, "1.000000", false, true, 0, 0, "1.000000")
  }

  /** The type of an item: the number behind the next '<', which is below 262. */
  ghost predicate TypeAt(s: string, pos: nat, code: int, next: nat) {
    && 0 <= code < 262 && next > pos
    && (exists a: nat :: pos <= a && a + 1 < next && FirstAt(s, pos, '<', a) && FirstAt(s, a + 1, '>', next - 1)
          && code == Atoi(s, a + 1))
  }

  lemma TypeExactly(s: string, pos: nat, code: nat, next: nat)
    requires pos <= |s|
    ensures TypeAt(s, pos, code, next) <==> UnserializeType(s, pos) == Some(Typed(code, next))
  {
    hide Find, Atoi;
    FindExactly(s, pos, '<');
    var a := Find(s, pos, '<');
    if a < |s| {
      FindExactly(s, a + 1, '>');
    }
  }

  lemma SaidIs(s: string, kind: Kind, ts: seq<Span>)
    requires |ts| == ContentTagNum(kind) && SpansIn(s, ts)
    ensures |ts| == TagsOf(Code(kind)) && Content(s, kind, ts) == Said(s, Code(kind), ts)
  {
    hide Atoi, Text;
  }

  /** An item of one of the seven types with all its texts says what they say, and reading
      goes on behind them. */
  lemma ItemRead(s: string, pos: nat, code: nat, next: nat, ts: seq<Span>)
    requires pos <= |s| && TypeAt(s, pos, code, next) && code < 7
    requires next <= |s| && |ts| == TagsOf(code) && Brackets(s, next, ts)
    ensures SpansIn(s, ts) && Decode(s, pos).item == Some(Said(s, code, ts))
    ensures Decode(s, pos).next == BehindTags(next, ts)
  {
    hide ParseItems, UnserializeType, Content, Said, Brackets, TypeAt;
    TypeExactly(s, pos, code, next);
    TagsExactly(s, next, |ts|, ts);
    BracketsIn(s, next, ts);
    SaidIs(s, KindOf(code), ts);
  }

  /** The texts of an item of one of the seven types are there. */
  ghost predicate HasTexts(s: string, code: nat, next: nat) {
    code < 7 && exists ts :: |ts| == TagsOf(code) && Brackets(s, next, ts)
  }

  /** Without a type nothing is passed; behind a type from 7 to 261, and behind one whose
      texts are not all there, reading goes on right behind the type. */
  lemma ItemNotRead(s: string, pos: nat)
    requires pos <= |s|
    ensures (forall code: nat, next: nat :: !TypeAt(s, pos, code, next)) ==> Decode(s, pos) == Decoded(None, pos)
    ensures forall code: nat, next: nat ::
      TypeAt(s, pos, code, next) && !HasTexts(s, code, next) ==> Decode(s, pos) == Decoded(None, next)
  {
    hide ParseItems, UnserializeType, Content, Brackets, TypeAt;
    if UnserializeType(s, pos).Some? {
      var t := UnserializeType(s, pos).value;
      TypeExactly(s, pos, t.code, t.next);
      if t.code < 7 && ParseItems(s, t.next, TagsOf(t.code)).Some? {
        TagsExactly(s, t.next, TagsOf(t.code), ParseItems(s, t.next, TagsOf(t.code)).value.spans);
      }
    }
    forall code: nat, next: nat | TypeAt(s, pos, code, next)
      ensures UnserializeType(s, pos) == Some(Typed(code, next))
    {
      TypeExactly(s, pos, code, next);
    }
  }

  // ------------------------------------------------------------ adjusting and measuring

  /** The reader sets the message index of every item, the underline when it is told one, and
      the name and color of inventory items; everything else stays. */
  lemma AdjustedIs(v: Value, o: Options)
    ensures var w, ivtr := Adjusted(v, o), v.kind == IvtrItem;
      && w.kind == v.kind && w.msgIndex == o.msgIndex
      && w.name == (if ivtr then o.ivtrName else v.name) && w.color == (if ivtr then o.ivtrColor else v.color)
      && Line(w.underLine, w.sameColor, w.underLineColor) ==
           (if o.line.Some? then o.line.value else Line(v.underLine, v.sameColor, v.underLineColor))
      && w.info == v.info && w.imageIndex == v.imageIndex && w.imageFrame == v.imageFrame
      && w.imageScale == v.imageScale && w.boxWidth == v.boxWidth && w.boxScale == v.boxScale
  {
  }

  /** A line feed has no length, every other character one; a coordinate and a task have the
      length of their names, the other items one. */
  lemma LengthIs(e: Elem)
    ensures e.Ch? ==> ElemLength(e) == if e.c as int == 10 then 0 else 1
    ensures e.It? ==> ElemLength(e) == if Code(e.v.kind) in {2, 6} then |e.v.name| else 1
  {
  }

  lemma {:induction false} EncodedConcat(a: string, b: string, items: Items)
    ensures Encoded(a + b, items) == Encoded(a, items) + Encoded(b, items)
    decreases |b|
  {
    hide Encoded, EncodedChar;
    EncodedNone(items);
    if b == "" {
      assert a + b == a;
    } else {
      var n := |b| - 1;
      EncodedConcat(a, b[..n], items);
      EncodedSnoc(b[..n], b[n], items);
      EncodedSnoc(a + b[..n], b[n], items);
      assert a + b == a + b[..n] + [b[n]] && b == b[..n] + [b[n]];
    }
  }

  /** Marshalling a text writes every character, and behind a code that the set knows the
      item's text. */
  lemma MarshalledParts(a: string, c: char, b: string, items: Items)
    ensures Encoded("", items) == ""
    ensures Encoded(a + [c] + b, items) == Encoded(a, items) + [c] +
      (if 57344 <= c as int <= 58367 && c in items then ItemText(items[c]) else "") + Encoded(b, items)
  {
    hide Encoded, ItemText, Serialized;
    EncodedNone(items);
    EncodedConcat(a + [c], b, items);
    EncodedSnoc(a, c, items);
    if c in items {
      WrittenForm(items[c]);
    }
  }
}
