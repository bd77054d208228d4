/** Filters that rewrite one kind of item in a marshalled text. */
module RichFilter {
  import opened Decimal
  import opened Occurrences
  import opened RichItems
  import opened RichRoundTrip
  import opened RichTexts
  import opened Wrappers

  const MAX_EMOTION_GROUPS: int := 32

  // ------------------------------------------------------------------- emotion texts

  function MarshalEmotionInfo(emotionSet: int, index: int): string {
    Format(emotionSet) + ":" + Format(index)
  }

  datatype Emotions = Emotions(emotionSet: int, index: int)

  /** The two numbers as they are scanned, 0 for one that is missing. */
  function ScanEmotions(s: string): Emotions {
    match ScanInt(s, 0)
    case NoNumber => Emotions(0, 0)
    case Number(set_, next) =>
      if next == |s| || s[next] != ':' then Emotions(set_, 0)
      else
        match ScanInt(s, next + 1)
        case NoNumber => Emotions(set_, 0)
        case Number(index, _) => Emotions(set_, index)
  }

  function Floor(n: int): nat {
    if n < 0 then 0 else n
  }

  function Group(n: int): nat {
    if Floor(n) >= MAX_EMOTION_GROUPS then 0 else Floor(n)
  }

  function UnmarshalEmotionInfo(s: string): (e: Emotions)
    ensures 0 <= e.emotionSet < MAX_EMOTION_GROUPS && e.index >= 0
  {
    Emotions(Group(ScanEmotions(s).emotionSet), Floor(ScanEmotions(s).index))
  }

  /** Set and index come back as they were; a set that is not one of the 32 and a negative
      index come back as 0. */
  lemma EmotionRoundTrip(emotionSet: int, index: int)
    ensures UnmarshalEmotionInfo(MarshalEmotionInfo(emotionSet, index)) ==
      Emotions(if 0 <= emotionSet < 32 then emotionSet else 0, if index >= 0 then index else 0)
  {
    hide Format, ScanInt;
    var s, x, colon, y := MarshalEmotionInfo(emotionSet, index), Format(emotionSet), ":", Format(index);
    assert s == x + colon + y;
    AtStart(s);
    AtConcat3(s, 0, x, colon, y);
    AtIndex(s, |x|, colon);
    ScanFormat(s, 0, emotionSet);
    ScanFormat(s, |x| + 1, index);
  }

  /** Without a number at the start both are 0; without a colon right behind the first number,
      or without a number behind the colon, the index is 0. */
  lemma EmotionPartly(s: string)
    ensures ScanInt(s, 0).NoNumber? ==> UnmarshalEmotionInfo(s) == Emotions(0, 0)
    ensures ScanInt(s, 0).Number? ==>
      var n := ScanInt(s, 0);
      && UnmarshalEmotionInfo(s).emotionSet == (if 0 <= n.value < 32 then n.value else 0)
      && (n.next == |s| || s[n.next] != ':' ==> UnmarshalEmotionInfo(s).index == 0)
      && (n.next < |s| && s[n.next] == ':' && ScanInt(s, n.next + 1).NoNumber? ==> UnmarshalEmotionInfo(s).index == 0)
      && (n.next < |s| && s[n.next] == ':' && ScanInt(s, n.next + 1).Number? ==>
            var k := ScanInt(s, n.next + 1).value; UnmarshalEmotionInfo(s).index == if k >= 0 then k else 0)
  {
    hide ScanInt;
  }

  /** An emotion "set:k" is filtered to "n:k". */
  lemma EmotionFiltered(v: Value, emotionSet: int, k: nat, n: int)
    requires v.kind == Emotion && v.info == Format(emotionSet) + ":" + Format(k)
    ensures Filtered(v, EmotionSet(n)) == v.(info := Format(n) + ":" + Format(k))
    ensures Serialized(Filtered(v, EmotionSet(n))) == "<0><" + Format(n) + ":" + Format(k) + ">"
  {
    hide UnmarshalEmotionInfo, FormatNat;
    EmotionRoundTrip(emotionSet, k);
    var w := Filtered(v, EmotionSet(n));
    SerializedTags(w);
    assert TagsText([w.info]) == "<" + w.info + ">" + "";
    assert FormatNat(0) == "0" by {
      FormatNatIs(0);
    }
  }

  // ------------------------------------------------------------------------- filters

  datatype Filter = CoordColor(color: Dword) | EmotionSet(emotionSet: int)

  function Filtered(v: Value, f: Filter): Value {
    match f
    case CoordColor(color) => if v.kind == Coord then v.(color := color) else v
    case EmotionSet(n) =>
      if v.kind == Emotion then v.(info := MarshalEmotionInfo(n, UnmarshalEmotionInfo(v.info).index)) else v
  }

  /** What the filters tell the reader. */
  const DEFAULTS: Options := Options(0, ALL_KINDS, Some(Line(false, true, 0xff00_0000)), "", 0xffff_ffff)

  function FilteredElem(e: Elem, f: Filter): Elem {
    match e
    case Ch(_) => e
    case It(v) => It(Filtered(v, f))
  }

  function FilteredElems(es: seq<Elem>, f: Filter): (r: seq<Elem>)
    ensures |r| == |es| && forall i :: 0 <= i < |es| ==> r[i] == FilteredElem(es[i], f)
  {
    if es == [] then [] else [FilteredElem(es[0], f)] + FilteredElems(es[1..], f)
  }

  /** The marshalled text of the elements, the items coded in order from the `k`-th code. */
  function Written(es: seq<Elem>, k: nat): string
    requires k + Count(es) <= CODES
  {
    if es == [] then ""
    else match es[0]
      case Ch(c) => [c] + Written(es[1..], k)
      case It(v) => [CodeChar(k)] + Serialized(v) + Written(es[1..], k + 1)
  }

  lemma {:induction false} CountKept(es: seq<Elem>, o: Options, room: nat)
    ensures Count(Kept(es, o, room)) <= room
    decreases |es|
  {
    hide Adjusted;
    if es != [] {
      var rest := es[1..];
      if es[0].Ch? {
        CountKept(rest, o, room);
        assert Kept(es, o, room)[1..] == Kept(rest, o, room);
      } else if es[0].v.kind in o.mask && room > 0 {
        CountKept(rest, o, room - 1);
        assert Kept(es, o, room)[1..] == Kept(rest, o, room - 1);
      } else {
        CountKept(rest, o, room);
      }
    }
  }

  lemma {:induction false} CountFiltered(es: seq<Elem>, f: Filter)
    ensures Count(FilteredElems(es, f)) == Count(es)
    decreases |es|
  {
    hide Filtered;
    if es != [] {
      CountFiltered(es[1..], f);
      assert FilteredElems(es, f)[1..] == FilteredElems(es[1..], f);
    }
  }

  /** What is read of a text before it is filtered. */
  function ReadElems(s: string): (es: seq<Elem>)
    ensures Count(es) <= CODES
  {
    CountKept(Elems(s, 0), DEFAULTS, CODES);
    Kept(Elems(s, 0), DEFAULTS, CODES)
  }

  /** The filtered text; a text without items stays as it is. */
  function FilterText(s: string, f: Filter): string {
    if Count(ReadElems(s)) == 0 then s
    else
      CountFiltered(ReadElems(s), f);
      Written(FilteredElems(ReadElems(s), f), 0)
  }

  // ------------------------------------------------------------------------- methods

  method FilterItem(item: EditBoxItem, f: Filter)
    modifies item
    ensures item.V() == Filtered(old(item.V()), f)
  {
    hide UnmarshalEmotionInfo, MarshalEmotionInfo;
    match f {
      case CoordColor(color) =>
        if item.kind == Coord {
          item.color := color;
        }
      case EmotionSet(n) =>
        if item.kind == Emotion {
          var e := UnmarshalEmotionInfo(item.info);
          item.info := MarshalEmotionInfo(n, e.index);
        }
    }
  }

  /** The items that are left are as they were, the others are filtered. */
  ghost predicate PartFiltered(items: map<char, EditBoxItem>, view: Items, left: set<char>, f: Filter)
    requires items.Keys == view.Keys
    reads items.Values
  {
    && (forall c :: c in view && c in left ==> items[c].V() == view[c])
    && (forall c :: c in view && c !in left ==> items[c].V() == Filtered(view[c], f))
  }

  ghost predicate Distinct(items: map<char, EditBoxItem>) {
    forall c, c' :: c in items && c' in items && items[c] == items[c'] ==> c == c'
  }

  /** The loop over the items of a set; their order does not matter. */
  method FilterItems(items: map<char, EditBoxItem>, ghost view: Items, f: Filter)
    requires items.Keys == view.Keys && Distinct(items) && PartFiltered(items, view, items.Keys, f)
    modifies items.Values
    ensures PartFiltered(items, view, {}, f)
  {
    hide Filtered, EditBoxItem.V;
    var left := items.Keys;
    while left != {}
      invariant left <= items.Keys && PartFiltered(items, view, left, f)
    {
      var c :| c in left;
      FilterItem(items[c], f);
      left := left - {c};
    }
  }

  method FilterSet(s: string, f: Filter) returns (r: string)
    ensures r == FilterText(s, f)
  {
    hide Elems, Kept, Shown, Canon, Count, Encoded, Written, FilteredElems, CodesIn, CodesDiffer, Filtered, FilterText, EditBoxItem.V;
    hide NewItems, Extends, InOrder;
    var itemsSet := new EditBoxItemsSet();
    var text := UnmarshalEditBoxText(s, itemsSet, DEFAULTS);
    ghost var view := itemsSet.View();
    assert Shown(text, view) == ReadElems(s);
    AllNew(itemsSet.items);
    if |itemsSet.items| == 0 {
      NothingFiltered(s, f);
      return s;
    }
    FilterItems(itemsSet.items, view, f);
    r := MarshalEditBoxText(text, itemsSet);
    WrittenFiltered(s, text, view, itemsSet.nextChar, itemsSet.View(), f);
  }

  lemma AllNew(items: map<char, EditBoxItem>)
    ensures NewItems(items, map[]) == items.Values
  {
  }

  lemma NothingFiltered(s: string, f: Filter)
    requires Count(ReadElems(s)) == 0
    ensures FilterText(s, f) == s
  {
  }

  method FilterEmotionSet(s: string, emotionSet: int) returns (r: string)
    ensures r == FilterText(s, EmotionSet(emotionSet))
  {
    r := FilterSet(s, EmotionSet(emotionSet));
  }

  method FilterCoordColor(s: string, color: Dword) returns (r: string)
    ensures r == FilterText(s, CoordColor(color))
  {
    r := FilterSet(s, CoordColor(color));
  }

  lemma {:induction false} EncodedWritten(text: string, view: Items, view': Items, f: Filter, k: nat)
    requires CodesIn(text, view.Keys) && view'.Keys == view.Keys
    requires forall c :: c in view ==> view'[c] == Filtered(view[c], f)
    requires k + Count(Shown(text, view)) <= CODES && text == Canon(Shown(text, view), k)
    ensures k + Count(FilteredElems(Shown(text, view), f)) <= CODES
    ensures Encoded(text, view') == Written(FilteredElems(Shown(text, view), f), k)
    decreases |text|
  {
    hide Filtered, Serialized;
    var es := Shown(text, view);
    CountFiltered(es, f);
    if text != "" {
      var rest := text[1..];
      assert es[1..] == Shown(rest, view);
      var k' := if IsItemCode(text[0]) then k + 1 else k;
      assert rest == Canon(es[1..], k');
      EncodedWritten(rest, view, view', f, k');
      assert FilteredElems(es, f)[1..] == FilteredElems(es[1..], f);
      if IsItemCode(text[0]) {
        EncodedItem(text, view');
      }
    }
  }

  lemma WrittenFiltered(s: string, text: string, view: Items, next: char, view': Items, f: Filter)
    requires InOrder(text, view, next) && Shown(text, view) == Kept(Elems(s, 0), DEFAULTS, CODES)
    requires |view| > 0 && view'.Keys == view.Keys
    requires forall c :: c in view ==> view'[c] == Filtered(view[c], f)
    ensures Encoded(text, view') == FilterText(s, f)
  {
    hide Elems, Kept, Shown, Canon, Encoded, Written, FilteredElems, CodesIn, Filtered;
    InOrderCodes(text, view, next);
    EncodedWritten(text, view, view', f, 0);
  }

  // ------------------------------------------------------- what is read can be written

  lemma {:induction false} FindFirst(s: string, pos: nat, c: char)
    requires pos <= |s|
    ensures forall k :: pos <= k < Find(s, pos, c) ==> s[k] != c
    decreases |s| - pos
  {
    if pos < |s| && s[pos] != c {
      FindFirst(s, pos + 1, c);
    }
  }

  ghost predicate SpanClean(s: string, t: Span)
    requires t.first <= t.second <= |s|
  {
    NoClose(Text(s, t))
  }

  lemma {:induction false} TagsClean(s: string, pos: nat, n: nat)
    requires pos <= |s| && ParseItems(s, pos, n).Some?
    ensures var ts := ParseItems(s, pos, n).value.spans; forall i :: 0 <= i < n ==> SpanClean(s, ts[i])
    decreases n
  {
    hide Find;
    if n > 0 {
      var open := Find(s, pos, '<');
      var close := Find(s, open, '>');
      FindFirst(s, open, '>');
      TagsClean(s, close + 1, n - 1);
    }
  }

  lemma ContentGood(s: string, kind: Kind, ts: seq<Span>)
    requires |ts| == ContentTagNum(kind) && SpansIn(s, ts) && forall i :: 0 <= i < |ts| ==> SpanClean(s, ts[i])
    ensures GoodItem(Content(s, kind, ts)) && Content(s, kind, ts).kind == kind
  {
    hide Atoi, Text, ToDword;
    assert NoClose("") && NoClose("W") && NoClose("1.000000");
  }

  lemma DecodeGood(s: string, pos: nat)
    requires pos <= |s| && Decode(s, pos).item.Some?
    ensures GoodItem(Decode(s, pos).item.value)
  {
    hide ParseItems, UnserializeType, Content, GoodItem;
    var t := UnserializeType(s, pos).value;
    var kind := KindOf(t.code);
    TagsClean(s, t.next, ContentTagNum(kind));
    ContentGood(s, kind, ParseItems(s, t.next, ContentTagNum(kind)).value.spans);
  }

  /** What the filters read: plain characters, and items that can be written and that the
      reader would not adjust again. */
  ghost predicate Clean(e: Elem) {
    match e
    case Ch(c) => !IsItemCode(c)
    case It(v) => GoodItem(v) && Adjusted(v, DEFAULTS) == v
  }

  ghost predicate AllClean(es: seq<Elem>) {
    forall i :: 0 <= i < |es| ==> Clean(es[i])
  }

  lemma AdjustedClean(v: Value)
    requires GoodItem(v)
    ensures Clean(It(Adjusted(v, DEFAULTS)))
  {
    assert NoClose("");
  }

  lemma {:induction false} KeptClean(s: string, pos: nat, room: nat)
    requires pos <= |s|
    ensures AllClean(Kept(Elems(s, pos), DEFAULTS, room))
    decreases |s| - pos
  {
    hide Decode, Elems, Adjusted, GoodItem, Kept, Clean;
    if pos == |s| {
      KeptNone(s, DEFAULTS, room);
    } else if IsItemCode(s[pos]) {
      ElemsItem(s, pos);
      var d := Decode(s, pos + 1);
      KeptClean(s, d.next, room);
      if d.item.Some? {
        var v := d.item.value;
        DecodeGood(s, pos + 1);
        AdjustedClean(v);
        KeptItem(v, Elems(s, d.next), DEFAULTS, room);
        if room > 0 {
          KeptClean(s, d.next, room - 1);
        }
      }
    } else {
      ElemsChar(s, pos);
      KeptChar(s[pos], Elems(s, pos + 1), DEFAULTS, room);
      assert Clean(Ch(s[pos])) by {
        CharClean(s[pos]);
      }
      KeptClean(s, pos + 1, room);
    }
  }

  lemma CharClean(c: char)
    requires !IsItemCode(c)
    ensures Clean(Ch(c))
  {
  }

  // ------------------------------------------------------------ reading a filtered text

  ghost predicate Writable(e: Elem) {
    match e
    case Ch(c) => !IsItemCode(c)
    case It(v) => GoodItem(v)
  }

  lemma FilteredWritable(e: Elem, f: Filter)
    requires Clean(e)
    ensures Writable(FilteredElem(e, f))
  {
    hide Format, Adjusted;
    if e.It? && f.EmotionSet? && e.v.kind == Emotion {
      var index := UnmarshalEmotionInfo(e.v.info).index;
      FormatNoClose(f.emotionSet);
      FormatNoClose(index);
    }
  }

  /** What is written is read back, whatever the codes are. */
  lemma {:induction false} ElemsWritten(s: string, pos: nat, es: seq<Elem>, k: nat)
    requires k + Count(es) <= CODES && At(s, pos, Written(es, k)) && pos + |Written(es, k)| == |s|
    requires forall i :: 0 <= i < |es| ==> Writable(es[i])
    ensures Elems(s, pos) == Back(es)
    decreases |es|
  {
    hide Decode, Elems, Serialized, ReadBack, At, GoodItem;
    if es == [] {
      ElemsEnd(s);
    } else {
      assert Writable(es[0]);
      match es[0] {
        case Ch(c) =>
          AtConcat(s, pos, [c], Written(es[1..], k));
          AtIndex(s, pos, [c]);
          ElemsChar(s, pos);
          ElemsWritten(s, pos + 1, es[1..], k);
        case It(v) =>
          var c, rest := CodeChar(k), Written(es[1..], k + 1);
          AtConcat3(s, pos, [c], Serialized(v), rest);
          AtIndex(s, pos, [c]);
          ItemRoundTrip(s, pos + 1, v);
          ElemsItem(s, pos);
          ElemsWritten(s, pos + 1 + |Serialized(v)|, es[1..], k + 1);
      }
    }
  }

  /** A filtered text, read again. */
  lemma FilteredRead(s: string, f: Filter)
    requires Count(ReadElems(s)) > 0
    ensures Elems(FilterText(s, f), 0) == Back(FilteredElems(ReadElems(s), f))
  {
    hide Elems, Kept, Written, Writable, Clean, FilteredElem, BackElem;
    var es := ReadElems(s);
    var t, fs := FilterText(s, f), FilteredElems(es, f);
    CountFiltered(es, f);
    KeptClean(s, 0, CODES);
    forall i | 0 <= i < |fs|
      ensures Writable(fs[i])
    {
      FilteredWritable(es[i], f);
    }
    AtStart(t);
    ElemsWritten(t, 0, fs, 0);
  }

  lemma FilteredReadAgain(s: string, f: Filter)
    requires Count(ReadElems(s)) > 0
    ensures var es, rs := ReadElems(s), ReadElems(FilterText(s, f));
      && Count(rs) == Count(es) && |rs| == |es|
      && forall i :: 0 <= i < |es| ==> rs[i] == AdjustedElem(BackElem(FilteredElem(es[i], f)), DEFAULTS)
  {
    hide Elems, Kept, FilterText, AdjustedElem, FilteredElem, BackElem;
    FilteredRead(s, f);
    var es, t := ReadElems(s), FilterText(s, f);
    var bs := Back(FilteredElems(es, f));
    CountFiltered(es, f);
    CountBack(FilteredElems(es, f));
    AllKept(bs, DEFAULTS, CODES);
    SameCount(ReadElems(t), bs);
  }

  lemma {:induction false} SameCount(es: seq<Elem>, bs: seq<Elem>)
    requires |es| == |bs| && forall i :: 0 <= i < |es| ==> es[i] == AdjustedElem(bs[i], DEFAULTS)
    ensures Count(es) == Count(bs)
    decreases |es|
  {
    hide Adjusted;
    if es != [] {
      SameCount(es[1..], bs[1..]);
    }
  }

  // -------------------------------------------------------------------------- the laws

  /** The filtered item, written and read, and filtered again: only the last filter shows. */
  lemma ItemFilteredTwice(v: Value, f: Filter, g: Filter)
    requires Clean(It(v)) && f.CoordColor? == g.CoordColor?
    ensures Serialized(Filtered(Adjusted(ReadBack(Filtered(v, f)), DEFAULTS), g)) == Serialized(Filtered(v, g))
  {
    hide Format, TagsText, Signed, UnmarshalEmotionInfo, MarshalEmotionInfo, GoodItem;
    if v.kind == Emotion && f.EmotionSet? {
      EmotionRoundTrip(f.emotionSet, UnmarshalEmotionInfo(v.info).index);
    }
  }

  lemma {:induction false} WrittenSame(es: seq<Elem>, rs: seq<Elem>, k: nat)
    requires |es| == |rs| && Count(es) == Count(rs) && k + Count(es) <= CODES
    requires forall i :: 0 <= i < |es| ==> SameText(es[i], rs[i])
    ensures Written(es, k) == Written(rs, k)
    decreases |es|
  {
    hide Serialized;
    if es != [] {
      assert SameText(es[0], rs[0]);
      WrittenSame(es[1..], rs[1..], if es[0].It? then k + 1 else k);
    }
  }

  ghost predicate SameText(e: Elem, r: Elem) {
    match e
    case Ch(_) => r == e
    case It(v) => r.It? && Serialized(r.v) == Serialized(v)
  }

  lemma ElemFilteredTwice(e: Elem, f: Filter, g: Filter)
    requires Clean(e) && f.CoordColor? == g.CoordColor?
    ensures SameText(FilteredElem(AdjustedElem(BackElem(FilteredElem(e, f)), DEFAULTS), g), FilteredElem(e, g))
  {
    hide Serialized, Filtered, ReadBack, Adjusted, GoodItem;
    if e.It? {
      ItemFilteredTwice(e.v, f, g);
    }
  }

  /** For every text: filtering twice by the same kind of filter is filtering by the last. */
  lemma LastFilterWins(s: string, f: Filter, g: Filter)
    requires f.CoordColor? == g.CoordColor?
    ensures FilterText(FilterText(s, f), g) == FilterText(s, g)
  {
    hide Kept, Elems, Written, Clean, FilteredElem, AdjustedElem, BackElem, SameText;
    var es := ReadElems(s);
    if Count(es) > 0 {
      FilteredReadAgain(s, f);
      var rs := ReadElems(FilterText(s, f));
      KeptClean(s, 0, CODES);
      var xs, ys := FilteredElems(rs, g), FilteredElems(es, g);
      CountFiltered(rs, g);
      CountFiltered(es, g);
      forall i | 0 <= i < |es|
        ensures SameText(xs[i], ys[i])
      {
        ElemFilteredTwice(es[i], f, g);
      }
      WrittenSame(xs, ys, 0);
    } else {
      NothingFiltered(s, f);
    }
  }

  lemma ItemFiltersCommute(v: Value, f: Filter, g: Filter)
    requires Clean(It(v)) && f.CoordColor? && g.EmotionSet?
    ensures Serialized(Filtered(Adjusted(ReadBack(Filtered(v, f)), DEFAULTS), g)) ==
            Serialized(Filtered(Adjusted(ReadBack(Filtered(v, g)), DEFAULTS), f))
  {
    hide Format, TagsText, Signed, UnmarshalEmotionInfo, MarshalEmotionInfo, GoodItem;
  }

  lemma ElemFiltersCommute(e: Elem, f: Filter, g: Filter)
    requires Clean(e) && f.CoordColor? && g.EmotionSet?
    ensures SameText(FilteredElem(AdjustedElem(BackElem(FilteredElem(e, f)), DEFAULTS), g),
                     FilteredElem(AdjustedElem(BackElem(FilteredElem(e, g)), DEFAULTS), f))
  {
    hide Serialized, Filtered, ReadBack, Adjusted, GoodItem;
    if e.It? {
      ItemFiltersCommute(e.v, f, g);
    }
  }

  /** Filters of different kinds do not disturb each other. */
  lemma FiltersCommute(s: string, f: Filter, g: Filter)
    requires f.CoordColor? && g.EmotionSet?
    ensures FilterText(FilterText(s, f), g) == FilterText(FilterText(s, g), f)
  {
    hide Kept, Elems, Written, Clean, FilteredElem, AdjustedElem, BackElem, SameText;
    var es := ReadElems(s);
    if Count(es) > 0 {
      FilteredReadAgain(s, f);
      FilteredReadAgain(s, g);
      var rs, ts := ReadElems(FilterText(s, f)), ReadElems(FilterText(s, g));
      KeptClean(s, 0, CODES);
      var xs, ys := FilteredElems(rs, g), FilteredElems(ts, f);
      CountFiltered(rs, g);
      CountFiltered(ts, f);
      forall i | 0 <= i < |es|
        ensures SameText(xs[i], ys[i])
      {
        ElemFiltersCommute(es[i], f, g);
      }
      WrittenSame(xs, ys, 0);
    } else {
      NothingFiltered(s, f);
      NothingFiltered(s, g);
    }
  }

  // ------------------------------------------------------------- what a filter changes

  /** An item before and after a filter. Its name stays, a filter changes the color or the
      emotion set that it is for, an emotion keeps its index, and both filters switch the underlines of coordinates off. */
  ghost predicate Touched(v: Value, w: Value, f: Filter) {
    && w.kind == v.kind
    && (v.kind != Coord && !(v.kind == Emotion && f.EmotionSet?) ==> Fields(w) == Fields(v))
    && (v.kind == Coord ==>
          w == Blank(Coord).(color := if f.CoordColor? then f.color else v.color, name := v.name, info := v.info,
            underLineColor := if f.CoordColor? then f.color else v.color))
    && (v.kind == Emotion && f.EmotionSet? ==>
          w.info == Format(f.emotionSet) + ":" + Format(UnmarshalEmotionInfo(v.info).index))
  }

  lemma ItemTouched(v: Value, f: Filter)
    ensures Touched(v, ReadBack(Filtered(Adjusted(v, DEFAULTS), f)), f)
  {
    hide Format, Signed, UnmarshalEmotionInfo;
  }

  ghost predicate TouchedElem(e: Elem, r: Elem, f: Filter) {
    match e
    case Ch(_) => r == e
    case It(v) => r.It? && Touched(v, r.v, f)
  }

  lemma ElemTouched(e: Elem, f: Filter)
    ensures TouchedElem(e, BackElem(FilteredElem(AdjustedElem(e, DEFAULTS), f)), f)
  {
    hide Touched, ReadBack, Filtered, Adjusted;
    if e.It? {
      ItemTouched(e.v, f);
    }
  }

  /** What a filtered text stands for, element by element: the items of the text that get
      codes are touched, the ones after these are dropped. A text without items stays. */
  lemma FilterTouches(s: string, f: Filter)
    ensures var es, rs := FirstItems(Elems(s, 0), CODES), Elems(FilterText(s, f), 0);
      if Count(es) == 0 then FilterText(s, f) == s
      else |rs| == |es| && forall i :: 0 <= i < |es| ==> TouchedElem(es[i], rs[i], f)
  {
    hide Kept, Elems, FilterText, TouchedElem, FilteredElem, AdjustedElem, BackElem, FirstItems;
    var es := FirstItems(Elems(s, 0), CODES);
    KeptFirst(Elems(s, 0), DEFAULTS, CODES);
    SameCount(ReadElems(s), es);
    if Count(es) == 0 {
      NothingFiltered(s, f);
    } else {
      FilteredRead(s, f);
      forall i | 0 <= i < |es|
        ensures TouchedElem(es[i], BackElem(FilteredElem(AdjustedElem(es[i], DEFAULTS), f)), f)
      {
        ElemTouched(es[i], f);
      }
    }
  }

  /** The emotion filter writes a coordinate as it was exactly when no underline, and no
      underline color of its own, is lost. */
  lemma EmotionFilterKeepsCoord(v: Value, n: int)
    requires v.kind == Coord
    ensures Fields(Filtered(Adjusted(ReadBack(v), DEFAULTS), EmotionSet(n))) == Fields(v) <==>
      !v.underLine && (v.sameColor || v.underLineColor == v.color)
  {
    hide Format;
    FormatsDiffer(0, 1);
    if !v.sameColor && v.underLineColor != v.color {
      FormatsDiffer(Signed(v.color), Signed(v.underLineColor));
    }
    var xs, ys := Fields(Filtered(Adjusted(ReadBack(v), DEFAULTS), EmotionSet(n))), Fields(v);
    assert xs[1] == Format(0) && ys[1] == Format(if v.underLine then 1 else 0);
    assert xs[2] == Format(Signed(v.color)) && ys[2] == Format(Signed(if v.sameColor then v.color else v.underLineColor));
  }
}
