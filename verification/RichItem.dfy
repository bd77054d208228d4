/** The inline items of rich texts, and how one item is written as text and read back. */
module RichItems {
  import opened Arithmetic
  import opened Decimal
  import opened Occurrences
  import opened Wrappers

  datatype Kind = Emotion | IvtrItem | Coord | Image | ScriptItem | Box | Task

  const CUSTOM: int := 7
  const TYPES: int := 7 + 255
  const MAX_BOX_WIDTH: int := 3000

  function Code(kind: Kind): nat {
    match kind
    case Emotion => 0
    case IvtrItem => 1
    case Coord => 2
    case Image => 3
    case ScriptItem => 4
    case Box => 5
    case Task => 6
  }

  function KindOf(code: nat): (kind: Kind)
    requires code < 7
    ensures Code(kind) == code
  {
    if code == 0 then Emotion else if code == 1 then IvtrItem else if code == 2 then Coord
    else if code == 3 then Image else if code == 4 then ScriptItem else if code == 5 then Box else Task
  }

  /** The scales are kept as the texts that stand for them. */
  datatype Value = Value(
    kind: Kind, color: Dword, name: string, info: string, msgIndex: int,
    imageIndex: int, imageFrame: int, imageScale: string,
    underLine: bool, sameColor: bool, underLineColor: Dword,
    boxWidth: int, boxScale: string)

  function Blank(kind: Kind): Value {
    Value(kind, 0xffff_ffff, "", "", 0, 0, 0, "1.000000", false, true, 0, 0, "1.000000")
  }

  // ------------------------------------------------------------------------ writing

  function TagsText(xs: seq<string>): string {
    if xs == [] then "" else "<" + xs[0] + ">" + TagsText(xs[1..])
  }

  /** What is written between the angle brackets, after the type. */
  function Fields(v: Value): seq<string> {
    match v.kind
    case Coord =>
      [Format(Signed(v.color)), Format(if v.underLine then 1 else 0),
       Format(Signed(if v.sameColor then v.color else v.underLineColor)), v.name, v.info]
    case Image =>
      [Format(Signed(v.color)), Format(v.imageIndex), Format(v.imageFrame), v.imageScale, v.info]
    case Box => [Format(Signed(v.color)), Format(v.boxWidth), v.boxScale, v.info]
    case Task => [v.name, v.info]
    case _ => [v.info]
  }

  function Serialized(v: Value): string {
    TagsText([Format(Code(v.kind))] + Fields(v))
  }

  // ------------------------------------------------------------------------ reading

  /** The first occurrence of a character from a position on, or the end of the text. */
  function Find(s: string, pos: nat, c: char): (i: nat)
    requires pos <= |s|
    ensures pos <= i <= |s| && (i < |s| ==> s[i] == c)
    decreases |s| - pos
  {
    if pos == |s| || s[pos] == c then pos else Find(s, pos + 1, c)
  }

  /** The text from `first` on, before `second`. */
  datatype Span = Span(first: nat, second: nat)

  function Text(s: string, t: Span): string
    requires t.first <= t.second <= |s|
  {
    s[t.first..t.second]
  }

  ghost predicate SpansIn(s: string, ts: seq<Span>) {
    forall i :: 0 <= i < |ts| ==> ts[i].first <= ts[i].second <= |s|
  }

  datatype Parsed = Parsed(spans: seq<Span>, next: nat)

  /** The next `n` texts in angle brackets; what lies before them is skipped. */
  function ParseItems(s: string, pos: nat, n: nat): (r: Option<Parsed>)
    requires pos <= |s|
    ensures r.Some? ==> |r.value.spans| == n && SpansIn(s, r.value.spans) && pos <= r.value.next <= |s|
    decreases n
  {
    if n == 0 then Some(Parsed([], pos))
    else
      var open := Find(s, pos, '<');
      if open == |s| then None
      else
        var close := Find(s, open, '>');
        if close == |s| then None
        else
          match ParseItems(s, close + 1, n - 1)
          case None => None
          case Some(rest) => Some(Parsed([Span(open + 1, close)] + rest.spans, rest.next))
  }

  datatype Typed = Typed(code: nat, next: nat)

  function UnserializeType(s: string, pos: nat): (r: Option<Typed>)
    requires pos <= |s|
    ensures r.Some? ==> r.value.code < TYPES && pos < r.value.next <= |s|
  {
    var open := Find(s, pos, '<');
    if open == |s| then None
    else
      var code := Atoi(s, open + 1);
      if code < 0 || code >= TYPES then None
      else
        var close := Find(s, open + 1, '>');
        if close == |s| then None else Some(Typed(code, close + 1))
  }

  function ContentTagNum(kind: Kind): nat {
    match kind
    case Coord => 5
    case Image => 5
    case Box => 4
    case Task => 2
    case _ => 1
  }

  /** What the tags of an item say. */
  function Content(s: string, kind: Kind, ts: seq<Span>): Value
    requires |ts| == ContentTagNum(kind) && SpansIn(s, ts)
  {
    match kind
    case Coord =>
      Blank(Coord).(color := ToDword(Atoi(s, ts[0].first)), underLine := Atoi(s, ts[1].first) != 0,
        underLineColor := ToDword(Atoi(s, ts[2].first)), name := Text(s, ts[3]), info := Text(s, ts[4]))
    case Image =>
      Blank(Image).(color := ToDword(Atoi(s, ts[0].first)), imageIndex := Atoi(s, ts[1].first),
        imageFrame := Atoi(s, ts[2].first), imageScale := Text(s, ts[3]), info := Text(s, ts[4]))
    case Box =>
      Blank(Box).(color := ToDword(Atoi(s, ts[0].first)), boxWidth := Clamp(Atoi(s, ts[1].first), 0, MAX_BOX_WIDTH),
        boxScale := Text(s, ts[2]), info := Text(s, ts[3]))
    case Task => Blank(Task).(name := Text(s, ts[0]), info := Text(s, ts[1]))
    case Emotion => Blank(Emotion).(info := Text(s, ts[0]), name := "W")
    case _ => Blank(kind).(info := Text(s, ts[0]))
  }

  datatype Decoded = Decoded(item: Option<Value>, next: nat)

  /** The item at a position and where reading goes on. A bad type moves nothing; a type
      that is read is passed even when the rest of the item is bad. */
  function Decode(s: string, pos: nat): (r: Decoded)
    requires pos <= |s|
    ensures pos <= r.next <= |s|
  {
    match UnserializeType(s, pos)
    case None => Decoded(None, pos)
    case Some(t) =>
      if t.code >= CUSTOM then Decoded(None, t.next)
      else
        match ParseItems(s, t.next, ContentTagNum(KindOf(t.code)))
        case None => Decoded(None, t.next)
        case Some(p) => Decoded(Some(Content(s, KindOf(t.code), p.spans)), p.next)
  }

  // ---------------------------------------------------------------------- the class

  class EditBoxItem {
    const kind: Kind
    var color: Dword
    var name: string
    var info: string
    var msgIndex: int
    var imageIndex: int
    var imageFrame: int
    var imageScale: string
    var underLine: bool
    var sameColor: bool
    var underLineColor: Dword
    var boxWidth: int
    var boxScale: string

    ghost function V(): Value
      reads this
    {
      Value(kind, color, name, info, msgIndex, imageIndex, imageFrame, imageScale,
            underLine, sameColor, underLineColor, boxWidth, boxScale)
    }

    constructor (kind: Kind)
      ensures V() == Blank(kind)
    {
      this.kind := kind;
      color, name, info, msgIndex := 0xffff_ffff, "", "", 0;
      imageIndex, imageFrame, imageScale := 0, 0, "1.000000";
      underLine, sameColor, underLineColor := false, true, 0;
      boxWidth, boxScale := 0, "1.000000";
    }

    method SetUnderLine(on: bool, same: bool, c: Dword)
      modifies this
      ensures V() == old(V()).(underLine := on, sameColor := same, underLineColor := c)
    {
      underLine, sameColor, underLineColor := on, same, c;
    }

    method Serialize() returns (r: string)
      ensures r == Serialized(V())
    {
      hide Format, TagsText;
      var type_ := Format(Code(kind));
      match kind {
        case Coord =>
          var line := Format(Signed(if sameColor then color else underLineColor));
          r := TagsText([type_] + [Format(Signed(color)), Format(if underLine then 1 else 0), line, name, info]);
        case Image =>
          r := TagsText([type_] + [Format(Signed(color)), Format(imageIndex), Format(imageFrame), imageScale, info]);
        case Box =>
          r := TagsText([type_] + [Format(Signed(color)), Format(boxWidth), boxScale, info]);
        case Task =>
          r := TagsText([type_] + [name, info]);
        case _ =>
          r := TagsText([type_] + [info]);
      }
    }

    /** Reads the tags after the type into a new item. */
    method UnserializeContent(s: string, pos: nat) returns (ok: bool, next: nat)
      requires pos <= |s| && V() == Blank(kind)
      modifies this
      ensures match ParseItems(s, pos, ContentTagNum(kind))
        case None => !ok && next == pos
        case Some(p) => ok && next == p.next && V() == Content(s, kind, p.spans)
    {
      hide Atoi, Find, ParseItems, Text, ToDword, Clamp;
      var spans;
      ok, spans, next := ParseTags(s, pos, ContentTagNum(kind));
      if !ok {
        return;
      }
      match kind {
        case Coord =>
          color := ToDword(Atoi(s, spans[0].first));
          underLine := Atoi(s, spans[1].first) != 0;
          underLineColor := ToDword(Atoi(s, spans[2].first));
          name := Text(s, spans[3]);
          info := Text(s, spans[4]);
        case Image =>
          color := ToDword(Atoi(s, spans[0].first));
          imageIndex := Atoi(s, spans[1].first);
          imageFrame := Atoi(s, spans[2].first);
          imageScale := Text(s, spans[3]);
          info := Text(s, spans[4]);
        case Box =>
          color := ToDword(Atoi(s, spans[0].first));
          boxWidth := Clamp(Atoi(s, spans[1].first), 0, MAX_BOX_WIDTH);
          boxScale := Text(s, spans[2]);
          info := Text(s, spans[3]);
        case Task =>
          name := Text(s, spans[0]);
          info := Text(s, spans[1]);
        case Emotion =>
          info := Text(s, spans[0]);
          name := "W";
        case _ =>
          info := Text(s, spans[0]);
      }
    }

    static method Unserialize(s: string, pos: nat) returns (item: EditBoxItem?, next: nat)
      requires pos <= |s|
      ensures next == Decode(s, pos).next
      ensures match Decode(s, pos).item
        case None => item == null
        case Some(v) => item != null && fresh(item) && item.V() == v
    {
      hide Atoi, Find, ParseItems, UnserializeType, Content;
      var t := UnserializeType(s, pos);
      if t == None {
        return null, pos;
      }
      next := t.value.next;
      if t.value.code >= CUSTOM {
        return null, next;
      }
      item := new EditBoxItem(KindOf(t.value.code));
      var ok;
      ok, next := item.UnserializeContent(s, next);
      if !ok {
        item := null;
      }
    }
  }

  /** The loop that finds `n` texts in angle brackets. */
  method ParseTags(s: string, pos: nat, n: nat) returns (ok: bool, spans: seq<Span>, next: nat)
    requires pos <= |s|
    ensures ok <==> ParseItems(s, pos, n).Some?
    ensures ok ==> spans == ParseItems(s, pos, n).value.spans && next == ParseItems(s, pos, n).value.next
    ensures !ok ==> next == pos
  {
    hide Find;
    spans := [];
    next := pos;
    PrependedNone(ParseItems(s, pos, n));
    var i := 0;
    while i < n
      invariant 0 <= i <= n && next <= |s|
      invariant ParseItems(s, pos, n) == Prepended(spans, ParseItems(s, next, n - i))
    {
      PrependedTwice(spans, s, next, n - i);
      var open := Find(s, next, '<');
      if open == |s| {
        return false, [], pos;
      }
      var close := Find(s, open, '>');
      if close == |s| {
        return false, [], pos;
      }
      spans := spans + [Span(open + 1, close)];
      next := close + 1;
      i := i + 1;
    }
    ok := true;
  }

  ghost function Prepended(spans: seq<Span>, r: Option<Parsed>): Option<Parsed> {
    match r
    case None => None
    case Some(rest) => Some(Parsed(spans + rest.spans, rest.next))
  }

  lemma PrependedNone(r: Option<Parsed>)
    ensures Prepended([], r) == r
  {
    if r.Some? {
      assert [] + r.value.spans == r.value.spans;
    }
  }

  lemma PrependedTwice(spans: seq<Span>, s: string, next: nat, n: nat)
    requires next <= |s| && n > 0
    ensures var open := Find(s, next, '<');
      var close := if open == |s| then |s| else Find(s, open, '>');
      Prepended(spans, ParseItems(s, next, n)) ==
        if close == |s| then None else Prepended(spans + [Span(open + 1, close)], ParseItems(s, close + 1, n - 1))
  {
    hide Find;
    var open := Find(s, next, '<');
    if open < |s| {
      var close := Find(s, open, '>');
      if close < |s| {
        var rest := ParseItems(s, close + 1, n - 1);
        if rest.Some? {
          assert spans + ([Span(open + 1, close)] + rest.value.spans) == spans + [Span(open + 1, close)] + rest.value.spans;
        }
      }
    }
  }

  // --------------------------------------------------------------- reading what was written

  ghost predicate NoClose(x: string) {
    forall k :: 0 <= k < |x| ==> x[k] != '>'
  }

  lemma {:induction false} FindIs(s: string, pos: nat, c: char, i: nat)
    requires pos <= i <= |s| && (i < |s| ==> s[i] == c) && forall k :: pos <= k < i ==> s[k] != c
    ensures Find(s, pos, c) == i
    decreases i - pos
  {
    if pos < i {
      FindIs(s, pos + 1, c, i);
    }
  }

  /** Where the contents of printed tags are. */
  function SpansOf(pos: nat, xs: seq<string>): (ts: seq<Span>)
    ensures |ts| == |xs|
    decreases |xs|
  {
    if xs == [] then [] else [Span(pos + 1, pos + 1 + |xs[0]|)] + SpansOf(pos + 2 + |xs[0]|, xs[1..])
  }

  ghost predicate SpanHas(s: string, t: Span, x: string) {
    At(s, t.first, x) && t.second == t.first + |x| && t.second < |s| && s[t.second] == '>'
  }

  lemma TagAt(s: string, pos: nat, x: string, rest: string)
    requires At(s, pos, "<" + x + ">" + rest)
    ensures pos + 2 + |x| <= |s| && s[pos] == '<' && SpanHas(s, Span(pos + 1, pos + 1 + |x|), x) && At(s, pos + 2 + |x|, rest)
  {
    var lt, gt := "<", ">";
    AtConcat(s, pos, lt + x + gt, rest);
    AtConcat3(s, pos, lt, x, gt);
    AtIndex(s, pos, lt);
    AtIndex(s, pos + 1 + |x|, gt);
  }

  lemma TagFound(s: string, pos: nat, x: string, rest: string)
    requires At(s, pos, "<" + x + ">" + rest) && NoClose(x)
    ensures pos + 2 + |x| <= |s| && At(s, pos + 2 + |x|, rest)
    ensures Find(s, pos, '<') == pos && Find(s, pos, '>') == pos + 1 + |x|
    ensures SpanHas(s, Span(pos + 1, pos + 1 + |x|), x)
  {
    hide At;
    TagAt(s, pos, x, rest);
    AtIndex(s, pos + 1, x);
    FindIs(s, pos, '<', pos);
    FindIs(s, pos, '>', pos + 1 + |x|);
  }

  lemma {:induction false} TagsParsed(s: string, pos: nat, xs: seq<string>)
    requires At(s, pos, TagsText(xs)) && forall i :: 0 <= i < |xs| ==> NoClose(xs[i])
    ensures ParseItems(s, pos, |xs|) == Some(Parsed(SpansOf(pos, xs), pos + |TagsText(xs)|))
    ensures forall i :: 0 <= i < |xs| ==> SpanHas(s, SpansOf(pos, xs)[i], xs[i])
    decreases |xs|
  {
    hide At, Find, NoClose, SpanHas;
    if xs != [] {
      TagFound(s, pos, xs[0], TagsText(xs[1..]));
      TagsParsed(s, pos + 2 + |xs[0]|, xs[1..]);
    } else {
      AtIndex(s, pos, TagsText(xs));
    }
  }

  lemma SpanText(s: string, t: Span, x: string)
    requires SpanHas(s, t, x)
    ensures t.first <= t.second <= |s| && Text(s, t) == x
  {
  }

  lemma SpanNumber(s: string, t: Span, n: int)
    requires SpanHas(s, t, Format(n))
    ensures t.first <= |s| && Atoi(s, t.first) == n
  {
    hide Format, Atoi;
    ScanFormat(s, t.first, n);
  }

  lemma FormatNoClose(n: int)
    ensures NoClose(Format(n))
  {
    hide FormatNat;
  }

  /** Items that can be written: no closing bracket in their texts. */
  ghost predicate GoodItem(v: Value) {
    NoClose(v.name) && NoClose(v.info) && NoClose(v.imageScale) && NoClose(v.boxScale) &&
    0 <= v.boxWidth <= MAX_BOX_WIDTH
  }

  /** The item that is read back from the text of `v`: the written fields as they were, the
      others as in a new item. */
  function ReadBack(v: Value): Value {
    match v.kind
    case Coord =>
      Blank(Coord).(color := v.color, underLine := v.underLine,
        underLineColor := if v.sameColor then v.color else v.underLineColor, name := v.name, info := v.info)
    case Image =>
      Blank(Image).(color := v.color, imageIndex := v.imageIndex, imageFrame := v.imageFrame,
        imageScale := v.imageScale, info := v.info)
    case Box => Blank(Box).(color := v.color, boxWidth := v.boxWidth, boxScale := v.boxScale, info := v.info)
    case Task => Blank(Task).(name := v.name, info := v.info)
    case Emotion => Blank(Emotion).(info := v.info, name := "W")
    case _ => Blank(v.kind).(info := v.info)
  }

  lemma FieldsNoClose(v: Value)
    requires GoodItem(v)
    ensures |Fields(v)| == ContentTagNum(v.kind) && forall i :: 0 <= i < |Fields(v)| ==> NoClose(Fields(v)[i])
  {
    hide Format, NoClose;
    FormatNoClose(Signed(v.color));
    FormatNoClose(if v.underLine then 1 else 0);
    FormatNoClose(Signed(if v.sameColor then v.color else v.underLineColor));
    FormatNoClose(v.imageIndex);
    FormatNoClose(v.imageFrame);
    FormatNoClose(v.boxWidth);
  }

  lemma ContentReadBack(s: string, v: Value, ts: seq<Span>)
    requires GoodItem(v) && |ts| == |Fields(v)| == ContentTagNum(v.kind) && SpansIn(s, ts)
    requires forall i :: 0 <= i < |ts| ==> SpanHas(s, ts[i], Fields(v)[i])
    ensures Content(s, v.kind, ts) == ReadBack(v)
  {
    hide Format, SpanHas, Atoi, Signed, ToDword;
    forall i | 0 <= i < |ts|
      ensures Text(s, ts[i]) == Fields(v)[i]
    {
      SpanText(s, ts[i], Fields(v)[i]);
    }
    SignedRoundTrip(v.color);
    SignedRoundTrip(v.underLineColor);
    match v.kind {
      case Coord =>
        SpanNumber(s, ts[0], Signed(v.color));
        SpanNumber(s, ts[1], if v.underLine then 1 else 0);
        SpanNumber(s, ts[2], Signed(if v.sameColor then v.color else v.underLineColor));
      case Image =>
        SpanNumber(s, ts[0], Signed(v.color));
        SpanNumber(s, ts[1], v.imageIndex);
        SpanNumber(s, ts[2], v.imageFrame);
      case Box =>
        SpanNumber(s, ts[0], Signed(v.color));
        SpanNumber(s, ts[1], v.boxWidth);
      case _ =>
    }
  }

  lemma TypeRead(s: string, pos: nat, code: nat, rest: string)
    requires At(s, pos, "<" + Format(code) + ">" + rest) && code < TYPES
    ensures pos + 2 + |Format(code)| <= |s| && At(s, pos + 2 + |Format(code)|, rest)
    ensures UnserializeType(s, pos) == Some(Typed(code, pos + 2 + |Format(code)|))
  {
    hide Format, Atoi;
    var x := Format(code);
    TagAt(s, pos, x, rest);
    FormatNoClose(code);
    AtIndex(s, pos + 1, x);
    FindIs(s, pos, '<', pos);
    FindIs(s, pos + 1, '>', pos + 1 + |x|);
    SpanNumber(s, Span(pos + 1, pos + 1 + |x|), code);
  }

  lemma SerializedTags(v: Value)
    ensures Serialized(v) == "<" + Format(Code(v.kind)) + ">" + TagsText(Fields(v))
  {
    hide Format;
    var x := Format(Code(v.kind));
    assert ([x] + Fields(v))[1..] == Fields(v);
  }

  /** Reading an item back consumes exactly its text, whatever follows, and gives its
      written fields. */
  lemma ItemRoundTrip(s: string, pos: nat, v: Value)
    requires At(s, pos, Serialized(v)) && GoodItem(v)
    ensures pos + |Serialized(v)| <= |s| && Decode(s, pos) == Decoded(Some(ReadBack(v)), pos + |Serialized(v)|)
  {
    hide Format, TagsText, Fields, Content, ParseItems, UnserializeType, SpanHas, ReadBack, Serialized;
    var code := Code(v.kind);
    SerializedTags(v);
    TypeRead(s, pos, code, TagsText(Fields(v)));
    var next := pos + 2 + |Format(code)|;
    FieldsNoClose(v);
    TagsParsed(s, next, Fields(v));
    ContentReadBack(s, v, SpansOf(next, Fields(v)));
    assert KindOf(code) == v.kind;
  }
}
