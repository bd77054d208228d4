/** Marshalling and unmarshalling undo each other, and the length of a marshalled text can
    be told without decoding it. */
module RichRoundTrip {
  import opened Decimal
  import opened Occurrences
  import opened RichItems
  import opened RichTexts
  import opened Wrappers

  function BackElem(e: Elem): Elem {
    match e
    case Ch(_) => e
    case It(v) => It(ReadBack(v))
  }

  /** The elements with every item as it is read back. */
  function Back(es: seq<Elem>): (r: seq<Elem>)
    ensures |r| == |es|
    ensures forall i :: 0 <= i < |es| ==> r[i] == BackElem(es[i])
  {
    if es == [] then [] else [BackElem(es[0])] + Back(es[1..])
  }

  ghost predicate GoodItems(items: Items) {
    forall c :: c in items ==> GoodItem(items[c])
  }

  lemma EncodedItem(text: string, items: Items)
    requires text != "" && IsItemCode(text[0]) && text[0] in items
    ensures Encoded(text, items) == [text[0]] + Serialized(items[text[0]]) + Encoded(text[1..], items)
  {
    hide Serialized;
  }

  lemma ShownFirst(text: string, items: Items)
    requires text != "" && CodesIn(text, items.Keys)
    ensures CodesIn(text[1..], items.Keys)
    ensures IsItemCode(text[0]) ==> text[0] in items && Shown(text, items) == [It(items[text[0]])] + Shown(text[1..], items)
    ensures !IsItemCode(text[0]) ==> Shown(text, items) == [Ch(text[0])] + Shown(text[1..], items)
  {
  }

  lemma BackFirst(e: Elem, es: seq<Elem>)
    ensures Back([e] + es) == [BackElem(e)] + Back(es)
  {
    hide BackElem;
    assert ([e] + es)[1..] == es;
  }

  lemma EncodedPlain(text: string, items: Items)
    requires text != "" && !IsItemCode(text[0])
    ensures Encoded(text, items) == [text[0]] + Encoded(text[1..], items)
  {
  }

  lemma ItemEncoded(s: string, pos: nat, text: string, items: Items)
    requires text != "" && At(s, pos, Encoded(text, items)) && GoodItems(items)
    requires IsItemCode(text[0]) && text[0] in items
    ensures var v := items[text[0]]; var next := pos + 1 + |Serialized(v)|;
      && pos < |s| && s[pos] == text[0] && next <= |s| && At(s, next, Encoded(text[1..], items))
      && |Encoded(text, items)| == 1 + |Serialized(v)| + |Encoded(text[1..], items)|
      && Decode(s, pos + 1) == Decoded(Some(ReadBack(v)), next)
  {
    hide At, Decode, Encoded, Serialized, ReadBack, GoodItem;
    var c := text[0];
    EncodedItem(text, items);
    AtConcat3(s, pos, [c], Serialized(items[c]), Encoded(text[1..], items));
    AtIndex(s, pos, [c]);
    ItemRoundTrip(s, pos + 1, items[c]);
  }

  lemma CharEncoded(s: string, pos: nat, text: string, items: Items)
    requires text != "" && At(s, pos, Encoded(text, items)) && !IsItemCode(text[0])
    ensures pos < |s| && s[pos] == text[0] && At(s, pos + 1, Encoded(text[1..], items))
    ensures |Encoded(text, items)| == 1 + |Encoded(text[1..], items)|
  {
    hide At, Encoded;
    EncodedPlain(text, items);
    AtConcat(s, pos, [text[0]], Encoded(text[1..], items));
    AtIndex(s, pos, [text[0]]);
  }

  lemma NothingEncoded(s: string, items: Items)
    ensures |Encoded("", items)| == 0 && Elems(s, |s|) == Back(Shown("", items))
  {
  }

  /** Decoding a marshalled text: every item code is known and every item can be written. */
  lemma {:induction false} ElemsEncoded(s: string, pos: nat, text: string, items: Items)
    requires At(s, pos, Encoded(text, items)) && pos + |Encoded(text, items)| == |s|
    requires CodesIn(text, items.Keys) && GoodItems(items)
    ensures Elems(s, pos) == Back(Shown(text, items))
    decreases |text|
  {
    hide Decode, Elems, Serialized, ReadBack, At, CodesIn, IsItemCode, GoodItems, Encoded, Shown, Back;
    if text == "" {
      NothingEncoded(s, items);
    } else {
      var c, rest := text[0], text[1..];
      ShownFirst(text, items);
      if IsItemCode(c) {
        ItemEncoded(s, pos, text, items);
        ElemsItem(s, pos);
        BackFirst(It(items[c]), Shown(rest, items));
        ElemsEncoded(s, pos + 1 + |Serialized(items[c])|, rest, items);
      } else {
        CharEncoded(s, pos, text, items);
        ElemsChar(s, pos);
        BackFirst(Ch(c), Shown(rest, items));
        ElemsEncoded(s, pos + 1, rest, items);
      }
    }
  }

  lemma ElemsEnd(s: string)
    ensures Elems(s, |s|) == []
  {
  }

  // -------------------------------------------------------------- the whole round trip

  const ALL_KINDS: set<Kind> := {Emotion, IvtrItem, Coord, Image, ScriptItem, Box, Task}

  function AdjustedElem(e: Elem, o: Options): Elem {
    match e
    case Ch(_) => e
    case It(v) => It(Adjusted(v, o))
  }

  lemma AnyKind(k: Kind)
    ensures k in ALL_KINDS
  {
    match k {
      case Emotion =>
      case IvtrItem =>
      case Coord =>
      case Image =>
      case ScriptItem =>
      case Box =>
      case Task =>
    }
  }

  /** The elements without the items that come after the first `room` ones. */
  function FirstItems(es: seq<Elem>, room: nat): seq<Elem> {
    if es == [] then []
    else if es[0].Ch? then [es[0]] + FirstItems(es[1..], room)
    else if room > 0 then [es[0]] + FirstItems(es[1..], room - 1)
    else FirstItems(es[1..], room)
  }

  /** When all kinds of items are wanted, the first ones are kept, as long as there is room. */
  lemma {:induction false} KeptFirst(es: seq<Elem>, o: Options, room: nat)
    requires o.mask == ALL_KINDS
    ensures |Kept(es, o, room)| == |FirstItems(es, room)|
    ensures forall i :: 0 <= i < |FirstItems(es, room)| ==> Kept(es, o, room)[i] == AdjustedElem(FirstItems(es, room)[i], o)
    decreases |es|
  {
    hide Adjusted;
    if es != [] {
      if es[0].Ch? {
        KeptFirst(es[1..], o, room);
      } else {
        AnyKind(es[0].v.kind);
        KeptFirst(es[1..], o, if room > 0 then room - 1 else room);
      }
    }
  }

  lemma {:induction false} AllFirst(es: seq<Elem>, room: nat)
    requires Count(es) <= room
    ensures FirstItems(es, room) == es
    decreases |es|
  {
    if es != [] {
      AllFirst(es[1..], if es[0].Ch? then room else room - 1);
    }
  }

  /** With room for all items, everything is kept. */
  lemma AllKept(es: seq<Elem>, o: Options, room: nat)
    requires o.mask == ALL_KINDS && Count(es) <= room
    ensures |Kept(es, o, room)| == |es|
    ensures forall i :: 0 <= i < |es| ==> Kept(es, o, room)[i] == AdjustedElem(es[i], o)
  {
    hide Kept, FirstItems, AdjustedElem;
    KeptFirst(es, o, room);
    AllFirst(es, room);
  }

  lemma {:induction false} CountBack(es: seq<Elem>)
    ensures Count(Back(es)) == Count(es)
    decreases |es|
  {
    hide ReadBack;
    if es != [] {
      CountBack(es[1..]);
      assert Back(es)[1..] == Back(es[1..]);
    }
  }

  /** A text whose codes are all known shows one element per character. */
  lemma {:induction false} ShownAt(text: string, items: Items)
    requires CodesIn(text, items.Keys)
    ensures |Shown(text, items)| == |text|
    ensures forall i :: 0 <= i < |text| ==>
      Shown(text, items)[i] == if IsItemCode(text[i]) then It(items[text[i]]) else Ch(text[i])
    decreases |text|
  {
    if text != "" {
      ShownAt(text[1..], items);
    }
  }

  /** An item that was read back and adjusted says in writing what it said before, except
      that its underline is the one that the reader was told. */
  ghost predicate SameWriting(v: Value, w: Value, o: Options) {
    w.kind == v.kind &&
    Fields(w) == if v.kind == Coord && o.line.Some?
      then Fields(v.(underLine := o.line.value.on, sameColor := o.line.value.same, underLineColor := o.line.value.color))
      else Fields(v)
  }

  lemma WritingKept(v: Value, o: Options)
    requires o.line.Some? || v.kind != Coord
    ensures SameWriting(v, Adjusted(ReadBack(v), o), o)
  {
    hide Format, Signed;
  }

  lemma FormatsDiffer(m: int, n: int)
    requires m != n
    ensures Format(m) != Format(n)
  {
    hide Format, ScanInt;
    AtStart(Format(m));
    AtStart(Format(n));
    ScanFormat(Format(m), 0, m);
    ScanFormat(Format(n), 0, n);
  }

  /** When the reader is told nothing about underlines, an underline color is read into a
      field that new items do not use: it is lost exactly when it is not the item's color. */
  lemma UnderLineColorLost(v: Value, o: Options)
    requires v.kind == Coord && o.line.None?
    ensures SameWriting(v, Adjusted(ReadBack(v), o), o) <==> v.sameColor || v.underLineColor == v.color
  {
    hide Format;
    var xs, ys := Fields(Adjusted(ReadBack(v), o)), Fields(v);
    if !v.sameColor && v.underLineColor != v.color {
      FormatsDiffer(Signed(v.color), Signed(v.underLineColor));
      assert xs[2] == Format(Signed(v.color)) && ys[2] == Format(Signed(v.underLineColor));
    }
  }

  /** Marshalling a text and reading it into any set with room gives the same text up to the
      codes of its items, and items that are written in the same way. */
  lemma MarshalRoundTrip(text: string, items: Items, text': string, items': Items, o: Options, room: nat)
    requires CodesIn(text, items.Keys) && GoodItems(items)
    requires o.mask == ALL_KINDS && o.line.Some? && Count(Shown(text, items)) <= room
    requires CodesIn(text', items'.Keys) && Shown(text', items') == Kept(Elems(Encoded(text, items), 0), o, room)
    ensures |text'| == |text|
    ensures forall i :: 0 <= i < |text| ==>
      if IsItemCode(text[i]) then IsItemCode(text'[i]) && SameWriting(items[text[i]], items'[text'[i]], o)
      else text'[i] == text[i]
  {
    hide Elems, Encoded, Kept, Shown, ReadBack, Adjusted, SameWriting, CodesIn;
    var s, es := Encoded(text, items), Shown(text, items);
    AtStart(s);
    ElemsEncoded(s, 0, text, items);
    CountBack(es);
    AllKept(Back(es), o, room);
    ShownAt(text, items);
    ShownAt(text', items');
    KnownCodes(text, items.Keys);
    KnownCodes(text', items'.Keys);
    forall i | 0 <= i < |text|
      ensures if IsItemCode(text[i]) then IsItemCode(text'[i]) && SameWriting(items[text[i]], items'[text'[i]], o)
              else text'[i] == text[i]
    {
      assert Shown(text', items')[i] == AdjustedElem(BackElem(es[i]), o);
      if IsItemCode(text[i]) {
        WritingKept(items[text[i]], o);
      }
    }
  }

  lemma KnownCodes(text: string, codes: set<char>)
    requires CodesIn(text, codes)
    ensures forall i :: 0 <= i < |text| && IsItemCode(text[i]) ==> text[i] in codes
  {
  }

  // -------------------------------------------------------------------- text lengths

  function RenderedLength(v: Value): nat {
    if v.kind == Coord || v.kind == Task then |v.name| else 1
  }

  function ElemLength(e: Elem): nat {
    match e
    case Ch(c) => if c == '\n' then 0 else 1
    case It(v) => RenderedLength(v)
  }

  function Length(es: seq<Elem>): nat {
    if es == [] then 0 else ElemLength(es[0]) + Length(es[1..])
  }

  /** Which of the tags of an item its rendered text is, if it has one. */
  function NameTag(code: nat): Option<nat> {
    if code == Code(Coord) then Some(3) else if code == Code(Task) then Some(0) else None
  }

  function TagNum(code: nat): nat {
    if code < CUSTOM then ContentTagNum(KindOf(code)) else 1
  }

  datatype Skipped = Skipped(words: nat, next: nat)

  /** The rendered length of the item whose code is at a position, and where it ends. */
  function ItemLength(s: string, pos: nat): (r: Skipped)
    requires pos < |s|
    ensures pos < r.next <= |s|
  {
    match UnserializeType(s, pos)
    case None => Skipped(1, pos + 1)
    case Some(t) =>
      match ParseItems(s, t.next, TagNum(t.code))
      case None => Skipped(1, t.next)
      case Some(p) =>
        Skipped(if NameTag(t.code).Some? then p.spans[NameTag(t.code).value].second - p.spans[NameTag(t.code).value].first
                else 1, p.next)
  }

  function ScannedLength(s: string, pos: nat): nat
    requires pos <= |s|
    decreases |s| - pos
  {
    if pos == |s| then 0
    else if IsItemCode(s[pos]) then ItemLength(s, pos).words + ScannedLength(s, ItemLength(s, pos).next)
    else (if s[pos] != '\n' then 1 else 0) + ScannedLength(s, pos + 1)
  }

  method GetItemRenderedLength(s: string, pos: nat) returns (words: nat, next: nat)
    requires pos < |s|
    ensures Skipped(words, next) == ItemLength(s, pos)
  {
    hide ParseItems, UnserializeType;
    var t := UnserializeType(s, pos);
    if t == None {
      return 1, pos + 1;
    }
    next := t.value.next;
    var code := t.value.code;
    var tags, nameTag := 1, -1;
    if code == 2 {
      tags, nameTag := 5, 3;
    } else if code == 0 {
      tags := 1;
    } else if code == 3 {
      tags := 5;
    } else if code == 5 {
      tags := 4;
    } else if code == 6 {
      tags, nameTag := 2, 0;
    }
    assert tags == TagNum(code);
    words := 1;
    var ok, spans;
    ok, spans, next := ParseTags(s, next, tags);
    if ok && nameTag != -1 {
      words := spans[nameTag].second - spans[nameTag].first;
    }
  }

  method GetUnserializedLength(s: string) returns (words: nat)
    ensures words == ScannedLength(s, 0)
  {
    hide ItemLength, ScannedLength;
    words := 0;
    var pos := 0;
    ScannedNone(s);
    while pos < |s|
      invariant pos <= |s| && words + ScannedLength(s, pos) == ScannedLength(s, 0)
      decreases |s| - pos
    {
      ScannedStep(s, pos);
      if IsItemCode(s[pos]) {
        var n;
        n, pos := GetItemRenderedLength(s, pos);
        words := words + n;
      } else {
        if s[pos] != '\n' {
          words := words + 1;
        }
        pos := pos + 1;
      }
    }
  }

  lemma ScannedNone(s: string)
    ensures ScannedLength(s, |s|) == 0
  {
  }

  lemma ScannedStep(s: string, pos: nat)
    requires pos < |s|
    ensures ScannedLength(s, pos) ==
      if IsItemCode(s[pos]) then ItemLength(s, pos).words + ScannedLength(s, ItemLength(s, pos).next)
      else (if s[pos] != '\n' then 1 else 0) + ScannedLength(s, pos + 1)
  {
    hide ItemLength;
  }

  /** How many item codes of the text are not followed by an item that can be read. */
  function Unreadable(s: string, pos: nat): nat
    requires pos <= |s|
    decreases |s| - pos
  {
    if pos == |s| then 0
    else if IsItemCode(s[pos]) then
      (if Decode(s, pos + 1).item.Some? then 0 else 1) + Unreadable(s, Decode(s, pos + 1).next)
    else Unreadable(s, pos + 1)
  }

  /** The item whose code is at a position has a type beyond the known ones. */
  predicate Unknown(s: string, pos: nat)
    requires pos < |s|
  {
    UnserializeType(s, pos + 1).Some? && UnserializeType(s, pos + 1).value.code >= CUSTOM
  }

  /** One item of a known type: the scanner goes where the decoder goes, and counts one for an
      item that cannot be read. */
  lemma ItemScanned(s: string, pos: nat)
    requires pos < |s| && IsItemCode(s[pos]) && !Unknown(s, pos)
    ensures var d := Decode(s, pos + 1);
      && ItemLength(s, pos).next == d.next
      && ItemLength(s, pos).words == if d.item.Some? then RenderedLength(d.item.value) else 1
  {
    hide ParseItems, Atoi, Find;
    FindPast(s, pos);
  }

  /** One item of an unknown type: the decoder gives nothing and goes on behind the type, the
      scanner counts one and passes the next tag, if there is one. */
  lemma UnknownScanned(s: string, pos: nat)
    requires pos < |s| && IsItemCode(s[pos]) && Unknown(s, pos)
    ensures Decode(s, pos + 1).item == None && Decode(s, pos + 1).next <= ItemLength(s, pos).next
    ensures ItemLength(s, pos).words == 1
    ensures ItemLength(s, pos).next == match ParseItems(s, Decode(s, pos + 1).next, 1)
      case None => Decode(s, pos + 1).next
      case Some(p) => p.next
  {
    hide ParseItems, Atoi, Find;
    FindPast(s, pos);
  }

  lemma FindPast(s: string, pos: nat)
    requires pos < |s| && IsItemCode(s[pos])
    ensures Find(s, pos, '<') == Find(s, pos + 1, '<')
  {
  }

  /** The length of what the decoder gives from a position on, with one for every item that
      cannot be read. */
  function DecodedLength(s: string, pos: nat): nat
    requires pos <= |s|
  {
    Length(Elems(s, pos)) + Unreadable(s, pos)
  }

  /** What the decoder makes of the tags that the scanner passes behind unknown types. */
  function Passed(s: string, pos: nat): int
    requires pos <= |s|
    decreases |s| - pos
  {
    if pos == |s| then 0
    else if IsItemCode(s[pos]) then
      var next := ItemLength(s, pos).next;
      (if Unknown(s, pos) then DecodedLength(s, Decode(s, pos + 1).next) - DecodedLength(s, next) else 0) + Passed(s, next)
    else Passed(s, pos + 1)
  }

  /** For every text the scanner tells the length of what the decoder gives, plus one for every
      item that cannot be read, less what lies in the tags behind unknown types. */
  lemma {:induction false} ScannerAgrees(s: string, pos: nat)
    requires pos <= |s|
    ensures ScannedLength(s, pos) == Length(Elems(s, pos)) + Unreadable(s, pos) - Passed(s, pos)
    decreases |s| - pos
  {
    hide Decode, ItemLength, Unknown, DecodedLength, ScannedLength;
    if pos < |s| {
      ScannedStep(s, pos);
      DecodedStep(s, pos);
      DecodedIs(s, pos);
      if IsItemCode(s[pos]) {
        var next := ItemLength(s, pos).next;
        if Unknown(s, pos) {
          UnknownScanned(s, pos);
        } else {
          ItemScanned(s, pos);
        }
        ScannerAgrees(s, next);
        DecodedIs(s, next);
      } else {
        ScannerAgrees(s, pos + 1);
        DecodedIs(s, pos + 1);
      }
    } else {
      ElemsEnd(s);
      ScannedNone(s);
    }
  }

  lemma DecodedIs(s: string, pos: nat)
    requires pos <= |s|
    ensures DecodedLength(s, pos) == Length(Elems(s, pos)) + Unreadable(s, pos)
  {
  }

  lemma DecodedStep(s: string, pos: nat)
    requires pos < |s|
    ensures DecodedLength(s, pos) ==
      if IsItemCode(s[pos]) then
        var d := Decode(s, pos + 1);
        (if d.item.Some? then RenderedLength(d.item.value) else 1) + DecodedLength(s, d.next)
      else (if s[pos] != '\n' then 1 else 0) + DecodedLength(s, pos + 1)
  {
    hide Decode, Elems;
    if IsItemCode(s[pos]) {
      ElemsItem(s, pos);
      var d := Decode(s, pos + 1);
      if d.item.Some? {
        assert ([It(d.item.value)] + Elems(s, d.next))[1..] == Elems(s, d.next);
      }
    } else {
      ElemsChar(s, pos);
      assert ([Ch(s[pos])] + Elems(s, pos + 1))[1..] == Elems(s, pos + 1);
    }
  }

  /** The characters of a stretch of text, without line feeds. */
  function Plain(s: string, a: nat, b: nat): nat
    requires a <= b <= |s|
    decreases b - a
  {
    if a == b then 0 else (if s[a] != '\n' then 1 else 0) + Plain(s, a + 1, b)
  }

  /** A passed tag without item codes is decoded to its characters. */
  lemma {:induction false} PassedPlain(s: string, a: nat, b: nat)
    requires a <= b <= |s| && forall i :: a <= i < b ==> !IsItemCode(s[i])
    ensures DecodedLength(s, a) - DecodedLength(s, b) == Plain(s, a, b)
    decreases b - a
  {
    hide DecodedLength, IsItemCode;
    if a < b {
      DecodedStep(s, a);
      PassedPlain(s, a + 1, b);
    }
  }

  /** No item of the text has a type beyond the known ones. */
  predicate NoCustom(s: string, pos: nat)
    requires pos <= |s|
    decreases |s| - pos
  {
    pos == |s| ||
    (if IsItemCode(s[pos]) then
       !Unknown(s, pos) && NoCustom(s, Decode(s, pos + 1).next)
     else NoCustom(s, pos + 1))
  }

  lemma {:induction false} NothingPassed(s: string, pos: nat)
    requires pos <= |s| && NoCustom(s, pos)
    ensures Passed(s, pos) == 0
    decreases |s| - pos
  {
    hide Decode, ItemLength, Unknown, DecodedLength;
    if pos < |s| {
      if IsItemCode(s[pos]) {
        ItemScanned(s, pos);
        NothingPassed(s, ItemLength(s, pos).next);
      } else {
        NothingPassed(s, pos + 1);
      }
    }
  }

  lemma {:induction false} EncodedReadable(s: string, pos: nat, text: string, items: Items)
    requires At(s, pos, Encoded(text, items)) && pos + |Encoded(text, items)| == |s|
    requires CodesIn(text, items.Keys) && GoodItems(items)
    ensures NoCustom(s, pos) && Unreadable(s, pos) == 0
    decreases |text|
  {
    hide Decode, Serialized, ReadBack, At, UnserializeType, CodesIn, IsItemCode, GoodItems;
    if text != "" {
      hide Encoded;
      var c, rest := text[0], text[1..];
      ShownFirst(text, items);
      if IsItemCode(c) {
        ItemEncoded(s, pos, text, items);
        TypeOfRead(s, pos + 1);
        EncodedReadable(s, pos + 1 + |Serialized(items[c])|, rest, items);
      } else {
        CharEncoded(s, pos, text, items);
        EncodedReadable(s, pos + 1, rest, items);
      }
    }
  }

  lemma TypeOfRead(s: string, pos: nat)
    requires pos <= |s| && Decode(s, pos).item.Some?
    ensures UnserializeType(s, pos).Some? && UnserializeType(s, pos).value.code < CUSTOM
  {
    hide ParseItems, UnserializeType, Content;
  }

  lemma {:induction false} LengthBack(es: seq<Elem>)
    ensures Length(Back(es)) == Length(es)
    decreases |es|
  {
    if es != [] {
      LengthBack(es[1..]);
      assert Back(es)[1..] == Back(es[1..]);
    }
  }

  /** The scanner tells the length of the text that was marshalled. */
  lemma MarshalledLength(text: string, items: Items)
    requires CodesIn(text, items.Keys) && GoodItems(items)
    ensures ScannedLength(Encoded(text, items), 0) == Length(Shown(text, items))
  {
    hide Encoded, Elems, Shown, ScannedLength, Unreadable, NoCustom, Length, Passed;
    var s := Encoded(text, items);
    AtStart(s);
    EncodedReadable(s, 0, text, items);
    NothingPassed(s, 0);
    ScannerAgrees(s, 0);
    ElemsEncoded(s, 0, text, items);
    LengthBack(Shown(text, items));
  }
}
