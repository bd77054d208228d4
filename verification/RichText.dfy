/** Rich texts: characters with inline items among them. In a text that is shown an item is
    one character, a code that the item set knows; in a marshalled text the item follows
    its code. */
module RichTexts {
  import opened Decimal
  import opened RichItems
  import opened Wrappers

  // ---------------------------------------------------------------- item characters

  const CODES: nat := 0x400

  predicate IsItemCode(c: char) {
    '\U{E000}' <= c <= '\U{E3FF}'
  }

  function CodeChar(i: nat): (c: char)
    requires i < CODES
    ensures IsItemCode(c)
  {
    (0xE000 + i) as char
  }

  function NextChar(c: char): (r: char)
    requires IsItemCode(c)
    ensures IsItemCode(r)
  {
    if c >= '\U{E3FF}' then '\U{E000}' else (c as int + 1) as char
  }

  // ---------------------------------------------------------------- shown and decoded

  /** A rich text without regard to how its items are coded. */
  datatype Elem = Ch(c: char) | It(v: Value)

  type Items = map<char, Value>

  /** What a text shows with a set of items; unknown codes show nothing. */
  function Shown(text: string, items: Items): seq<Elem> {
    if text == "" then []
    else
      var c := text[0];
      (if !IsItemCode(c) then [Ch(c)] else if c in items then [It(items[c])] else []) + Shown(text[1..], items)
  }

  /** What a marshalled text stands for, from a position on; items that cannot be read are
      left out. */
  function Elems(s: string, pos: nat): seq<Elem>
    requires pos <= |s|
    decreases |s| - pos
  {
    if pos == |s| then []
    else if IsItemCode(s[pos]) then
      var d := Decode(s, pos + 1);
      (if d.item.Some? then [It(d.item.value)] else []) + Elems(s, d.next)
    else [Ch(s[pos])] + Elems(s, pos + 1)
  }

  /** The marshalled form of a text. */
  function Encoded(text: string, items: Items): string {
    if text == "" then ""
    else
      var c := text[0];
      [c] + (if IsItemCode(c) && c in items then Serialized(items[c]) else "") + Encoded(text[1..], items)
  }

  /** How unmarshalling treats the items that it reads. */
  datatype Options = Options(msgIndex: int, mask: set<Kind>, line: Option<Line>, ivtrName: string, ivtrColor: Dword)

  datatype Line = Line(on: bool, same: bool, color: Dword)

  function Adjusted(v: Value, o: Options): Value {
    var v1 := v.(msgIndex := o.msgIndex);
    var v2 := match o.line
      case None => v1
      case Some(l) => v1.(underLine := l.on, sameColor := l.same, underLineColor := l.color);
    if v.kind == IvtrItem then v2.(name := o.ivtrName, color := o.ivtrColor) else v2
  }

  /** The elements that are kept: items of the wanted kinds, adjusted, as long as there is
      room for them. */
  function Kept(es: seq<Elem>, o: Options, room: nat): seq<Elem> {
    if es == [] then []
    else if es[0].Ch? then [es[0]] + Kept(es[1..], o, room)
    else if es[0].v.kind in o.mask && room > 0 then [It(Adjusted(es[0].v, o))] + Kept(es[1..], o, room - 1)
    else Kept(es[1..], o, room)
  }

  // ---------------------------------------------------------------------- the item set

  class EditBoxItemsSet {
    var items: map<char, EditBoxItem>
    var nextChar: char

    ghost predicate Valid()
      reads this
    {
      && IsItemCode(nextChar) && (forall c :: c in items ==> IsItemCode(c))
      && (forall c, c' :: c in items && c' in items && items[c] == items[c'] ==> c == c')
    }

    ghost function View(): Items
      reads this, items.Values
    {
      map c | c in items :: items[c].V()
    }

    constructor ()
      ensures Valid() && items == map[] && nextChar == CodeChar(0)
    {
      items, nextChar := map[], '\U{E000}';
    }

    /** Adds an item under a code that is not in use, the next one if possible; fails when
        all codes are in use. */
    method AppendItem(item: EditBoxItem) returns (code: Option<char>)
      requires Valid() && item !in items.Values
      modifies this
      ensures Valid() && |items| <= CODES
      ensures code.None? <==> |old(items)| >= CODES
      ensures code.None? ==> items == old(items) && nextChar == old(nextChar)
      ensures code.Some? ==> IsItemCode(code.value) && code.value !in old(items) && items == old(items)[code.value := item]
      ensures code.Some? ==> FirstFree(old(items).Keys, old(nextChar), code.value) && nextChar == NextChar(code.value)
      ensures |old(items)| < CODES && old(nextChar) !in old(items) ==> code == Some(old(nextChar))
    {
      if |items| >= CODES {
        FewCodes(items.Keys);
        return None;
      }
      var cur := nextChar;
      ghost var k := 0;
      while true
        invariant items == old(items) && Valid() && k < CODES && nextChar == Ahead(cur, k)
        invariant forall j :: 0 <= j < k ==> Ahead(cur, j) in items
        decreases CODES - k
      {
        if nextChar in items {
          AheadStep(cur, k);
          nextChar := NextChar(nextChar);
          k := k + 1;
        } else {
          items := items[nextChar := item];
          FewCodes(items.Keys);
          code := Some(nextChar);
          nextChar := NextChar(nextChar);
          return;
        }
        if nextChar == cur {
          break;
        }
        AheadDistinct(cur, k);
      }
      AheadDistinct(cur, k);
      AllUsed(items.Keys, cur);
      code := None;
    }
  }

  /** All codes from `start` on before `code`, going round, are in use. */
  ghost predicate FirstFree(used: set<char>, start: char, code: char)
    requires IsItemCode(start)
  {
    && code !in used
    && exists k: nat :: k < CODES && Ahead(start, k) == code && forall j :: 0 <= j < k ==> Ahead(start, j) in used
  }

  /** The code that is reached from `c` in `k` steps. */
  function Ahead(c: char, k: nat): (r: char)
    requires IsItemCode(c) && k <= CODES
    ensures IsItemCode(r)
  {
    var i := c as int - 0xE000 + k;
    CodeChar(if i < CODES then i else i - CODES)
  }

  lemma AheadStep(c: char, k: nat)
    requires IsItemCode(c) && k < CODES
    ensures NextChar(Ahead(c, k)) == Ahead(c, k + 1)
  {
  }

  lemma AheadDistinct(c: char, k: nat)
    requires IsItemCode(c) && k <= CODES
    ensures Ahead(c, k) == c <==> k == 0 || k == CODES
  {
  }

  lemma {:induction false} CodeCount(codes: set<char>, n: nat)
    requires n <= CODES && forall c :: c in codes <==> 0xE000 <= c as int < 0xE000 + n
    ensures |codes| == n
    decreases n
  {
    if n > 0 {
      var c := CodeChar(n - 1);
      CodeCount(codes - {c}, n - 1);
    } else {
      assert codes == {};
    }
  }

  lemma SubsetCount(a: set<char>, b: set<char>)
    requires a <= b
    ensures |a| <= |b|
  {
    assert b == a + (b - a);
  }

  lemma FewCodes(used: set<char>)
    requires forall c :: c in used ==> IsItemCode(c)
    ensures |used| <= CODES
  {
    var all := set c: char | IsItemCode(c);
    CodeCount(all, CODES);
    SubsetCount(used, all);
  }

  lemma AllUsed(used: set<char>, c: char)
    requires IsItemCode(c) && forall j :: 0 <= j < CODES ==> Ahead(c, j) in used
    ensures |used| >= CODES
  {
    var all := set x: char | IsItemCode(x);
    CodeCount(all, CODES);
    forall x | x in all
      ensures x in used
    {
      var d := x as int - c as int;
      assert Ahead(c, if d >= 0 then d else d + CODES) == x;
    }
    SubsetCount(all, used);
  }

  // ----------------------------------------------------------------------- marshalling

  /** Every item code is followed by the item's text, when the set has the item. */
  method MarshalEditBoxText(text: string, itemsSet: EditBoxItemsSet) returns (str: string)
    requires itemsSet.Valid()
    ensures str == Encoded(text, itemsSet.View())
  {
    hide Encoded, Serialized;
    ghost var view := itemsSet.View();
    str := "";
    var i, start := 0, 0;
    EncodedNone(view);
    assert text[..0] == "";
    while i < |text|
      invariant 0 <= start <= i <= |text|
      invariant str + text[start..i] == Encoded(text[..i], view)
    {
      EncodedStep(text, i, view);
      if IsItemCode(text[i]) {
        assert text[start..i + 1] == text[start..i] + [text[i]];
        str := str + text[start..i + 1];
        start := i + 1;
        if text[i] in itemsSet.items {
          var itemText := itemsSet.items[text[i]].Serialize();
          str := str + itemText;
        }
      } else {
        assert text[start..i + 1] == text[start..i] + [text[i]];
      }
      i := i + 1;
    }
    assert text[..i] == text;
    if i > start {
      str := str + text[start..i];
    }
  }

  lemma EncodedNone(items: Items)
    ensures Encoded("", items) == ""
  {
  }

  function EncodedChar(c: char, items: Items): string {
    [c] + if IsItemCode(c) && c in items then Serialized(items[c]) else ""
  }

  lemma {:induction false} EncodedSnoc(text: string, c: char, items: Items)
    ensures Encoded(text + [c], items) == Encoded(text, items) + EncodedChar(c, items)
    decreases |text|
  {
    hide Serialized;
    if text == "" {
      assert (text + [c])[1..] == "";
    } else {
      assert (text + [c])[1..] == text[1..] + [c];
      EncodedSnoc(text[1..], c, items);
      var x := [text[0]] + if IsItemCode(text[0]) && text[0] in items then Serialized(items[text[0]]) else "";
      assert x + (Encoded(text[1..], items) + EncodedChar(c, items)) == x + Encoded(text[1..], items) + EncodedChar(c, items);
    }
  }

  lemma EncodedStep(text: string, i: nat, items: Items)
    requires i < |text|
    ensures Encoded(text[..i + 1], items) == Encoded(text[..i], items) + EncodedChar(text[i], items)
  {
    assert text[..i + 1] == text[..i] + [text[i]];
    EncodedSnoc(text[..i], text[i], items);
  }

  // --------------------------------------------------------------------- unmarshalling

  ghost predicate CodesIn(text: string, items: set<char>) {
    forall i :: 0 <= i < |text| && IsItemCode(text[i]) ==> text[i] in items
  }

  ghost predicate CodesDiffer(text: string) {
    forall i, j :: 0 <= i < j < |text| && IsItemCode(text[i]) ==> text[i] != text[j]
  }

  /** The text whose items have the codes from the `k`-th on, in order. */
  function Canon(es: seq<Elem>, k: nat): string
    requires k + Count(es) <= CODES
  {
    if es == [] then ""
    else match es[0]
      case Ch(c) => [c] + Canon(es[1..], k)
      case It(_) => [CodeChar(k)] + Canon(es[1..], k + 1)
  }

  function Count(es: seq<Elem>): nat {
    if es == [] then 0 else (if es[0].It? then 1 else 0) + Count(es[1..])
  }

  /** Puts a read item of a wanted kind into the set and adjusts it there; fails for other
      kinds and when the set is full. */
  method KeepItem(item: EditBoxItem, itemsSet: EditBoxItemsSet, o: Options) returns (code: Option<char>)
    requires itemsSet.Valid() && item !in itemsSet.items.Values
    modifies itemsSet, item
    ensures itemsSet.Valid() && |old(itemsSet.items)| <= CODES && IsItemCode(itemsSet.nextChar)
    ensures code.Some? <==> item.kind in o.mask && |old(itemsSet.items)| < CODES
    ensures code.None? ==> itemsSet.items == old(itemsSet.items) && itemsSet.nextChar == old(itemsSet.nextChar)
    ensures code.Some? ==> IsItemCode(code.value) && code.value !in old(itemsSet.items)
    ensures code.Some? ==> itemsSet.items == old(itemsSet.items)[code.value := item]
    ensures itemsSet.View() ==
      if code.Some? then old(itemsSet.View())[code.value := Adjusted(old(item.V()), o)] else old(itemsSet.View())
    ensures |old(itemsSet.items)| < CODES && item.kind in o.mask && old(itemsSet.nextChar) !in old(itemsSet.items) ==>
      code == Some(old(itemsSet.nextChar)) && itemsSet.nextChar == NextChar(old(itemsSet.nextChar))
  {
    hide Adjusted, NextChar, EditBoxItem.V;
    FewCodes(itemsSet.items.Keys);
    ghost var view := itemsSet.View();
    if item.kind in o.mask {
      code := itemsSet.AppendItem(item);
      if code.Some? {
        AdjustItem(item, o);
      }
    } else {
      code := None;
    }
    assert itemsSet.View() == if code.Some? then view[code.value := item.V()] else view;
  }

  method AdjustItem(item: EditBoxItem, o: Options)
    modifies item
    ensures item.V() == Adjusted(old(item.V()), o)
  {
    item.msgIndex := o.msgIndex;
    if o.line.Some? {
      item.SetUnderLine(o.line.value.on, o.line.value.same, o.line.value.color);
    }
    if item.kind == IvtrItem {
      item.name := o.ivtrName;
      item.color := o.ivtrColor;
    }
  }

  ghost predicate Extends(items: map<char, EditBoxItem>, before: map<char, EditBoxItem>) {
    forall c :: c in before ==> c in items && items[c] == before[c]
  }

  ghost function NewItems(items: map<char, EditBoxItem>, before: map<char, EditBoxItem>): set<EditBoxItem> {
    items.Values - before.Values
  }

  lemma ExtendsSame(items: map<char, EditBoxItem>)
    ensures Extends(items, items) && NewItems(items, items) == {}
  {
  }

  lemma ExtendsMore(items: map<char, EditBoxItem>, some: map<char, EditBoxItem>, before: map<char, EditBoxItem>)
    requires Extends(items, some) && Extends(some, before)
    ensures Extends(items, before)
    ensures NewItems(items, before) <= NewItems(items, some) + NewItems(some, before)
  {
  }

  /** Reads the item whose code is at a position and puts it into the set, if it can be read
      and is wanted; `out` is the text that was read before. */
  method ReadInto(s: string, pos: nat, itemsSet: EditBoxItemsSet, o: Options, ghost out: string,
                  ghost before: set<char>, ghost room: nat, ghost first: bool)
    returns (code: Option<char>, next: nat)
    requires itemsSet.Valid() && pos < |s| && IsItemCode(s[pos])
    requires Reading(s, pos, out, before, itemsSet.View(), o, room, first, itemsSet.nextChar)
    modifies itemsSet
    ensures itemsSet.Valid() && pos < next <= |s| && Extends(itemsSet.items, old(itemsSet.items))
    ensures fresh(NewItems(itemsSet.items, old(itemsSet.items)))
    ensures Reading(s, next, Appended(out, code), before, itemsSet.View(), o, room, first, itemsSet.nextChar)
  {
    hide Decode, Elems, Reading, HoldingItem, InOrder, Adjusted, Kept, Shown, Count, CodesIn, CodesDiffer, NextChar;
    hide EditBoxItemsSet.View, EditBoxItemsSet.Valid, EditBoxItem.V;
    ghost var view, following := itemsSet.View(), itemsSet.nextChar;
    ItemsFit(itemsSet);
    ReadItem(s, pos, out, before, view, o, room, first, following);
    var item;
    item, next := EditBoxItem.Unserialize(s, pos + 1);
    code := None;
    if item == null {
      return;
    }
    ghost var v := item.V();
    SameKind(item);
    code := KeepItem(item, itemsSet, o);
    if code.Some? {
      ReadKept(s, next, out, before, view, o, room, first, following, v, code.value, itemsSet.nextChar);
    }
  }

  /** A text with the part of `s` that is still to be added. */
  ghost function Pending(str: string, s: string, start: nat, pos: nat): string
    requires start <= pos <= |s|
  {
    str + s[start..pos]
  }

  lemma PendingNone(str: string, s: string, pos: nat)
    requires pos <= |s|
    ensures Pending(str, s, pos, pos) == str
  {
  }

  lemma PendingIs(str: string, s: string, start: nat, pos: nat)
    requires start <= pos <= |s|
    ensures Pending(str, s, start, pos) == if pos > start then str + s[start..pos] else str
  {
  }

  lemma PendingMore(str: string, s: string, start: nat, pos: nat, pos': nat)
    requires start <= pos < |s| && pos' == pos + 1
    ensures Pending(str, s, start, pos') == Pending(str, s, start, pos) + [s[pos]]
  {
    assert s[start..pos'] == s[start..pos] + [s[pos]];
  }

  function Appended(out: string, code: Option<char>): string {
    if code.Some? then out + [code.value] else out
  }

  /** Reads the items of a marshalled text into the set; the result has their codes. */
  method UnmarshalEditBoxText(s: string, itemsSet: EditBoxItemsSet, o: Options) returns (str: string)
    requires itemsSet.Valid()
    modifies itemsSet
    ensures itemsSet.Valid() && |old(itemsSet.items)| <= CODES
    ensures Shown(str, itemsSet.View()) == Kept(Elems(s, 0), o, CODES - |old(itemsSet.items)|)
    ensures Extends(itemsSet.items, old(itemsSet.items))
    ensures CodesIn(str, itemsSet.items.Keys - old(itemsSet.items).Keys) && CodesDiffer(str)
    ensures |itemsSet.items| == |old(itemsSet.items)| + Count(Shown(str, itemsSet.View()))
    ensures fresh(NewItems(itemsSet.items, old(itemsSet.items)))
    ensures old(itemsSet.items) == map[] && old(itemsSet.nextChar) == CodeChar(0) ==>
      InOrder(str, itemsSet.View(), itemsSet.nextChar)
  {
    hide Decode, Elems, Reading, HoldingItem, InOrder, Adjusted, Kept, Shown, Count, CodesIn, CodesDiffer, IsItemCode, NextChar, Pending, Extends, NewItems;
    hide EditBoxItemsSet.View, EditBoxItemsSet.Valid, EditBoxItem.V;
    ItemsFit(itemsSet);
    ghost var room, before := CODES - |itemsSet.items|, itemsSet.items;
    ExtendsSame(before);
    str := "";
    var pos, start := 0, 0;
    ghost var out := "";
    PendingNone(str, s, 0);
    ReadNothing(s, itemsSet.View(), o, room, itemsSet.nextChar);
    ghost var first := itemsSet.View() == map[] && itemsSet.nextChar == CodeChar(0);
    while pos < |s|
      invariant 0 <= start <= pos <= |s| && itemsSet.Valid() && Extends(itemsSet.items, before)
      invariant fresh(NewItems(itemsSet.items, before))
      invariant out == Pending(str, s, start, pos)
      invariant Reading(s, pos, out, before.Keys, itemsSet.View(), o, room, first, itemsSet.nextChar)
      decreases |s| - pos
    {
      if IsItemCode(s[pos]) {
        PendingIs(str, s, start, pos);
        if pos > start {
          str := str + s[start..pos];
        }
        var code;
        ghost var items := itemsSet.items;
        code, pos := ReadInto(s, pos, itemsSet, o, out, before.Keys, room, first);
        ExtendsMore(itemsSet.items, items, before);
        start := pos;
        out := Appended(out, code);
        if code.Some? {
          str := str + [code.value];
        }
        PendingNone(str, s, pos);
      } else {
        ReadChar(s, pos, out, before.Keys, itemsSet.View(), o, room, first, itemsSet.nextChar);
        PendingMore(str, s, start, pos, pos + 1);
        out := out + [s[pos]];
        pos := pos + 1;
      }
    }
    PendingIs(str, s, start, pos);
    if pos > start {
      str := str + s[start..pos];
    }
    ItemsFit(itemsSet);
    ReadAll(s, out, before.Keys, itemsSet.View(), o, room, first, itemsSet.nextChar);
    ItemsFit(itemsSet);
  }

  /** The items of the text have the first codes, in order, and the next code is next. */
  ghost predicate InOrder(out: string, view: Items, next: char) {
    && |view| <= CODES && (forall c :: c in view <==> 0xE000 <= c as int < 0xE000 + |view|)
    && next == CodeChar(if |view| < CODES then |view| else 0)
    && Count(Shown(out, view)) == |view| && out == Canon(Shown(out, view), 0)
  }

  lemma NothingInOrder(view: Items, next: char)
    ensures view == map[] && next == CodeChar(0) ==> InOrder("", view, next)
  {
  }

  lemma {:induction false} CanonSnoc(es: seq<Elem>, e: Elem, k: nat)
    requires k + Count(es) + 1 <= CODES || (e.Ch? && k + Count(es) <= CODES)
    ensures k + Count(es + [e]) <= CODES
    ensures Canon(es + [e], k) == Canon(es, k) + match e case Ch(c) => [c] case It(_) => [CodeChar(k + Count(es))]
    decreases |es|
  {
    hide CodeChar;
    CountSnoc(es, e);
    if es == [] {
      assert (es + [e])[1..] == [];
    } else {
      assert (es + [e])[1..] == es[1..] + [e];
      CanonSnoc(es[1..], e, if es[0].It? then k + 1 else k);
    }
  }

  lemma InOrderCodes(out: string, view: Items, next: char)
    requires InOrder(out, view, next)
    ensures CodesIn(out, view.Keys)
  {
    hide Shown;
    CanonCodes(Shown(out, view), 0, view.Keys);
    ShownChars(out, view);
  }

  lemma {:induction false} ShownChars(out: string, view: Items)
    ensures forall e :: e in Shown(out, view) && e.Ch? ==> !IsItemCode(e.c)
    decreases |out|
  {
    if out != "" {
      ShownChars(out[1..], view);
    }
  }

  lemma {:induction false} CanonCodes(es: seq<Elem>, k: nat, codes: set<char>)
    requires k + Count(es) <= CODES && forall i :: k <= i < k + Count(es) ==> CodeChar(i) in codes
    ensures (forall e :: e in es && e.Ch? ==> !IsItemCode(e.c)) ==> CodesIn(Canon(es, k), codes)
    decreases |es|
  {
    if es != [] {
      CanonCodes(es[1..], if es[0].It? then k + 1 else k, codes);
      assert es[0] in es;
    }
  }

  lemma CharInOrder(out: string, view: Items, next: char, c: char)
    requires InOrder(out, view, next) && !IsItemCode(c)
    ensures InOrder(out + [c], view, next)
  {
    hide Shown, Canon, Count, CodesIn;
    InOrderCodes(out, view, next);
    CharShown(out, view, c);
    CanonSnoc(Shown(out, view), Ch(c), 0);
  }

  /** The codes in use and the next one, when one more is taken. */
  lemma CodesInOrder(view: Items, next: char, v: Value)
    requires |view| < CODES && next == CodeChar(|view|)
    requires forall c :: c in view <==> 0xE000 <= c as int < 0xE000 + |view|
    ensures var view' := view[next := v];
      && next !in view && |view'| == |view| + 1 && (forall c :: c in view' <==> 0xE000 <= c as int < 0xE000 + |view'|)
      && NextChar(next) == CodeChar(if |view'| < CODES then |view'| else 0)
  {
    assert view[next := v].Keys == view.Keys + {next};
  }

  lemma ItemInOrder(out: string, view: Items, next: char, v: Value)
    requires InOrder(out, view, next) && |view| < CODES
    ensures next !in view && InOrder(out + [next], view[next := v], NextChar(next))
  {
    hide Shown, Canon, Count, CodesIn, NextChar;
    InOrderCodes(out, view, next);
    CodesInOrder(view, next, v);
    ItemShown(out, view, next, v);
    CanonSnoc(Shown(out, view), It(v), 0);
  }

  lemma SameKind(item: EditBoxItem)
    ensures item.V().kind == item.kind
  {
  }

  lemma ItemsFit(itemsSet: EditBoxItemsSet)
    requires itemsSet.Valid()
    ensures |itemsSet.items| <= CODES && itemsSet.View().Keys == itemsSet.items.Keys
    ensures |itemsSet.View()| == |itemsSet.items| && IsItemCode(itemsSet.nextChar)
    ensures itemsSet.items == map[] ==> itemsSet.View() == map[]
  {
    FewCodes(itemsSet.items.Keys);
    assert itemsSet.View().Keys == itemsSet.items.Keys;
  }

  /** How far the reader is: `out` shows what it kept, the rest of the text is to come. */
  ghost predicate Reading(s: string, pos: nat, out: string, before: set<char>, view: Items, o: Options, room: nat,
                          first: bool, next: char)
    requires pos <= |s|
  {
    && |view| <= CODES && |view| == |before| + Count(Shown(out, view))
    && CodesIn(out, view.Keys - before) && CodesDiffer(out) && before <= view.Keys
    && Kept(Elems(s, 0), o, room) == Shown(out, view) + Kept(Elems(s, pos), o, CODES - |view|)
    && IsItemCode(next) && (first ==> InOrder(out, view, next))
  }

  lemma ReadNothing(s: string, view: Items, o: Options, room: nat, next: char)
    requires |view| <= CODES && room == CODES - |view| && IsItemCode(next)
    ensures Reading(s, 0, "", view.Keys, view, o, room, view == map[] && next == CodeChar(0), next)
  {
    hide Elems, Kept, InOrder;
    NothingShown(view, Kept(Elems(s, 0), o, room));
    NothingInOrder(view, next);
  }

  lemma ReadChar(s: string, pos: nat, out: string, before: set<char>, view: Items, o: Options, room: nat,
                 first: bool, next: char)
    requires pos < |s| && !IsItemCode(s[pos]) && Reading(s, pos, out, before, view, o, room, first, next)
    ensures Reading(s, pos + 1, out + [s[pos]], before, view, o, room, first, next)
  {
    hide Elems, Kept, Shown, Count, CodesIn, CodesDiffer, InOrder;
    ElemsChar(s, pos);
    CharCoded(out, before, view.Keys, s[pos]);
    CharShown(out, view, s[pos]);
    KeptChar(s[pos], Elems(s, pos + 1), o, CODES - |view|);
    ShownMore(out, view, Ch(s[pos]), Kept(Elems(s, pos + 1), o, CODES - |view|));
    if first {
      CharInOrder(out, view, next, s[pos]);
    }
  }

  /** An item that cannot be read or is not kept is passed over. */
  lemma ReadItem(s: string, pos: nat, out: string, before: set<char>, view: Items, o: Options, room: nat,
                 first: bool, next: char)
    requires pos < |s| && IsItemCode(s[pos]) && Reading(s, pos, out, before, view, o, room, first, next)
    ensures var d := Decode(s, pos + 1);
      && (d.item.Some? && d.item.value.kind in o.mask && |view| < CODES ==>
            HoldingItem(s, d.next, out, before, view, o, room, first, next, d.item.value))
      && (!(d.item.Some? && d.item.value.kind in o.mask && |view| < CODES) ==>
            Reading(s, d.next, out, before, view, o, room, first, next))
  {
    hide Elems, Kept, Shown, Count, CodesIn, CodesDiffer, Decode, InOrder;
    ElemsItem(s, pos);
    var d := Decode(s, pos + 1);
    if d.item.Some? {
      KeptItem(d.item.value, Elems(s, d.next), o, CODES - |view|);
    }
  }

  /** The reader with one item in hand. */
  ghost predicate HoldingItem(s: string, pos: nat, out: string, before: set<char>, view: Items, o: Options, room: nat,
                              first: bool, next: char, v: Value)
    requires pos <= |s|
  {
    && |view| < CODES && |view| == |before| + Count(Shown(out, view))
    && CodesIn(out, view.Keys - before) && CodesDiffer(out) && before <= view.Keys
    && Kept(Elems(s, 0), o, room) ==
         Shown(out, view) + ([It(Adjusted(v, o))] + Kept(Elems(s, pos), o, CODES - |view| - 1))
    && IsItemCode(next) && (first ==> InOrder(out, view, next))
  }

  lemma ReadKept(s: string, pos: nat, out: string, before: set<char>, view: Items, o: Options, room: nat,
                 first: bool, next: char, v: Value, code: char, next': char)
    requires pos <= |s| && HoldingItem(s, pos, out, before, view, o, room, first, next, v) && IsItemCode(next)
    requires IsItemCode(code) && code !in view
    requires IsItemCode(next') && (next !in view ==> code == next && next' == NextChar(next))
    ensures Reading(s, pos, out + [code], before, view[code := Adjusted(v, o)], o, room, first, next')
  {
    hide Elems, Kept, Shown, Count, CodesIn, CodesDiffer, Adjusted, InOrder;
    var view' := view[code := Adjusted(v, o)];
    assert view'.Keys == view.Keys + {code} && |view'| == |view| + 1;
    ItemCoded(out, before, view.Keys, code);
    ItemShown(out, view, code, Adjusted(v, o));
    ShownMore(out, view, It(Adjusted(v, o)), Kept(Elems(s, pos), o, CODES - |view'|));
    if first {
      ItemInOrder(out, view, next, Adjusted(v, o));
    }
  }

  lemma ReadAll(s: string, out: string, before: set<char>, view: Items, o: Options, room: nat, first: bool, next: char)
    requires Reading(s, |s|, out, before, view, o, room, first, next)
    ensures Shown(out, view) == Kept(Elems(s, 0), o, room) && (first ==> InOrder(out, view, next))
    ensures CodesIn(out, view.Keys - before) && CodesDiffer(out) && |view| == |before| + Count(Shown(out, view))
  {
    hide Elems, Kept, Shown, Count, CodesIn, CodesDiffer;
    KeptNone(s, o, CODES - |view|);
    assert Shown(out, view) + [] == Shown(out, view);
  }

  lemma NothingShown(items: Items, es: seq<Elem>)
    ensures Shown("", items) == [] && Count([]) == 0 && Shown("", items) + es == es
  {
  }

  /** A new code keeps the codes of a text apart. */
  lemma ItemCoded(out: string, before: set<char>, codes: set<char>, code: char)
    requires CodesIn(out, codes - before) && CodesDiffer(out) && code !in codes && code !in before
    ensures CodesIn(out, codes) && CodesIn(out + [code], codes + {code} - before) && CodesDiffer(out + [code])
  {
  }

  lemma CharCoded(out: string, before: set<char>, codes: set<char>, c: char)
    requires CodesIn(out, codes - before) && CodesDiffer(out) && !IsItemCode(c)
    ensures CodesIn(out, codes) && CodesIn(out + [c], codes - before) && CodesDiffer(out + [c])
  {
  }

  lemma ElemsItem(s: string, pos: nat)
    requires pos < |s| && IsItemCode(s[pos])
    ensures var d := Decode(s, pos + 1);
      Elems(s, pos) == if d.item.Some? then [It(d.item.value)] + Elems(s, d.next) else Elems(s, d.next)
  {
    hide Decode;
  }

  lemma ElemsChar(s: string, pos: nat)
    requires pos < |s| && !IsItemCode(s[pos])
    ensures Elems(s, pos) == [Ch(s[pos])] + Elems(s, pos + 1)
  {
    hide Decode;
  }

  lemma KeptItem(v: Value, rest: seq<Elem>, o: Options, room: nat)
    ensures Kept([It(v)] + rest, o, room) ==
      if v.kind in o.mask && room > 0 then [It(Adjusted(v, o))] + Kept(rest, o, room - 1) else Kept(rest, o, room)
  {
    hide Adjusted;
    assert ([It(v)] + rest)[1..] == rest;
  }

  lemma KeptChar(c: char, rest: seq<Elem>, o: Options, room: nat)
    ensures Kept([Ch(c)] + rest, o, room) == [Ch(c)] + Kept(rest, o, room)
  {
    assert ([Ch(c)] + rest)[1..] == rest;
  }

  lemma KeptNone(s: string, o: Options, room: nat)
    ensures Kept(Elems(s, |s|), o, room) == []
  {
  }

  lemma {:induction false} CountSnoc(es: seq<Elem>, e: Elem)
    ensures Count(es + [e]) == Count(es) + if e.It? then 1 else 0
    decreases |es|
  {
    if es != [] {
      assert (es + [e])[1..] == es[1..] + [e];
      CountSnoc(es[1..], e);
    } else {
      assert (es + [e])[1..] == [];
    }
  }

  lemma {:induction false} ShownSnoc(out: string, items: Items, items': Items, c: char, e: Elem)
    requires Shown([c], items') == [e] && forall k :: 0 <= k < |out| && IsItemCode(out[k]) ==>
      out[k] in items && out[k] in items' && items'[out[k]] == items[out[k]]
    ensures Shown(out + [c], items') == Shown(out, items) + [e]
    decreases |out|
  {
    if out == "" {
      assert out + [c] == [c];
    } else {
      assert (out + [c])[1..] == out[1..] + [c];
      ShownSnoc(out[1..], items, items', c, e);
    }
  }

  lemma CharShown(out: string, items: Items, c: char)
    requires CodesIn(out, items.Keys) && !IsItemCode(c)
    ensures Shown(out + [c], items) == Shown(out, items) + [Ch(c)]
    ensures Count(Shown(out + [c], items)) == Count(Shown(out, items))
  {
    assert [c][1..] == "";
    ShownSnoc(out, items, items, c, Ch(c));
    CountSnoc(Shown(out, items), Ch(c));
  }

  lemma ItemShown(out: string, items: Items, code: char, v: Value)
    requires CodesIn(out, items.Keys) && IsItemCode(code) && code !in items
    ensures Shown(out + [code], items[code := v]) == Shown(out, items) + [It(v)]
    ensures Count(Shown(out + [code], items[code := v])) == Count(Shown(out, items)) + 1
  {
    assert [code][1..] == "";
    ShownSnoc(out, items, items[code := v], code, It(v));
    CountSnoc(Shown(out, items), It(v));
  }

  lemma ShownMore(out: string, items: Items, e: Elem, rest: seq<Elem>)
    ensures Shown(out, items) + ([e] + rest) == Shown(out, items) + [e] + rest
  {
  }
}
