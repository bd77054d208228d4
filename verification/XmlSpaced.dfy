/** Tags as a person may write them: what the tag reader passes over around the parts of
    a tag, with every character written out. The printer's spacing is one case of it. */
module XmlSpaced {
  import opened Occurrences
  import opened Wrappers
  import opened XmlRoundTrip
  import opened XmlText

  predicate BlankChar(c: char) {
    c == ' ' || c == '\t' || c == '\r' || c == '\n'
  }

  predicate Blanks(x: string) {
    forall k :: 0 <= k < |x| ==> BlankChar(x[k])
  }

  predicate Free(x: string, c: char) {
    forall k :: 0 <= k < |x| ==> x[k] != c
  }

  predicate Word(x: string) {
    forall k :: 0 <= k < |x| ==> !BlankChar(x[k])
  }

  // ------------------------------------------------------------ one attribute

  /** The places of an attribute below `n`: its key from `k0` to `k1`, the '=' at `e`, the
      quotes at `o` and `q`. Everything between these parts is passed over. */
  ghost predicate Places(u: string, i: nat, n: nat, k0: nat, k1: nat, e: nat, o: nat, q: nat) {
    && i <= k0 <= k1 <= e < o < q < n <= |u|
    && (forall k :: i <= k < k0 ==> u[k] == ' ')
    && (forall k :: k0 <= k < k1 ==> u[k] != ' ' && u[k] != '=')
    && (u[k1] == ' ' || u[k1] == '=') && (k0 == k1 ==> k1 == e)
    && (forall k :: k1 <= k < e ==> u[k] != '=') && u[e] == '='
    && (forall k :: e <= k < o ==> u[k] != '"') && u[o] == '"'
    && Escaped(u[o + 1..q]) && u[q] == '"'
  }

  lemma PlacesRead(u: string, i: nat, n: nat, k0: nat, k1: nat, e: nat, o: nat, q: nat)
    requires Places(u, i, n, k0, k1, e, o, q)
    ensures NextAttribute(u, i, n) == Some(Attribute(Prop(u[k0..k1], u[o + 1..q]), q + 1))
  {
    hide Escaped;
    ScanIs(u, i, n, NonSpace, k0);
    ScanIs(u, k0, n, SpaceOrEq, k1);
    ScanIs(u, k1, n, Eq, e);
    ScanIs(u, e, n, Quote, o);
    ValueEndAt(u, o + 1, n, u[o + 1..q]);
  }

  lemma {:induction false} ScanStops(u: string, i: nat, n: nat, stop: Stop)
    requires i <= n <= |u|
    ensures var j := Scan(u, i, n, stop);
      (forall k :: i <= k < j ==> !Stops(u[k], stop)) && (j < n ==> Stops(u[j], stop))
    decreases n - i
  {
    if i < n && !Stops(u[i], stop) {
      ScanStops(u, i + 1, n, stop);
    }
  }

  lemma {:induction false} ValueEndEscaped(u: string, i: nat, n: nat)
    requires i <= n <= |u| && ValueEnd(u, i, n).Some?
    ensures Escaped(u[i..ValueEnd(u, i, n).value])
    decreases n - i
  {
    var q := ValueEnd(u, i, n).value;
    var d := if u[i] == '\\' then 2 else 1;
    if i < q {
      ValueEndEscaped(u, i + d, n);
      assert u[i..q][d..] == u[i + d..q];
    }
  }

  lemma ReadPlaces(u: string, i: nat, n: nat)
    requires i <= n <= |u| && NextAttribute(u, i, n).Some?
    ensures var k0 := Scan(u, i, n, NonSpace); var k1 := Scan(u, k0, n, SpaceOrEq);
      var e := Scan(u, k1, n, Eq); var o := Scan(u, e, n, Quote); var a := NextAttribute(u, i, n).value;
      Places(u, i, n, k0, k1, e, o, a.next - 1) && a == Attribute(Prop(u[k0..k1], u[o + 1..a.next - 1]), a.next)
  {
    hide Escaped, Scan, ValueEnd;
    var k0 := Scan(u, i, n, NonSpace);
    var k1 := Scan(u, k0, n, SpaceOrEq);
    var e := Scan(u, k1, n, Eq);
    ScanStops(u, i, n, NonSpace);
    ScanStops(u, k0, n, SpaceOrEq);
    ScanStops(u, k1, n, Eq);
    ScanStops(u, e, n, Quote);
    ValueEndEscaped(u, Scan(u, e, n, Quote) + 1, n);
  }

  /** An attribute is read exactly when its parts are there, and it is those parts. */
  lemma AttributeExactly(u: string, i: nat, n: nat, a: Attribute)
    requires i <= n <= |u|
    ensures NextAttribute(u, i, n) == Some(a) <==>
      exists k0: nat, k1: nat, e: nat, o: nat, q: nat :: Places(u, i, n, k0, k1, e, o, q)
        && a == Attribute(Prop(u[k0..k1], u[o + 1..q]), q + 1)
  {
    hide NextAttribute, Places, Scan;
    if NextAttribute(u, i, n) == Some(a) {
      ReadPlaces(u, i, n);
    }
    forall k0: nat, k1: nat, e: nat, o: nat, q: nat | Places(u, i, n, k0, k1, e, o, q)
      ensures k1 <= |u| && k0 <= k1 && o < q <= |u|
        && NextAttribute(u, i, n) == Some(Attribute(Prop(u[k0..k1], u[o + 1..q]), q + 1))
    {
      PlacesBounds(u, i, n, k0, k1, e, o, q);
      PlacesRead(u, i, n, k0, k1, e, o, q);
    }
  }

  lemma PlacesBounds(u: string, i: nat, n: nat, k0: nat, k1: nat, e: nat, o: nat, q: nat)
    requires Places(u, i, n, k0, k1, e, o, q)
    ensures k0 <= k1 <= o < q < |u|
  {
  }

  // -------------------------------------------------------- tags with any gaps

  /** What stands before a key, between the key and its '=', and before the quote. */
  datatype Gap = Gap(before: string, middle: string, after: string)

  predicate GoodGap(key: string, g: Gap) {
    && Blanks(g.before)
    && Free(g.middle, '=') && (g.middle != "" ==> BlankChar(g.middle[0])) && (key == "" ==> Blanks(g.middle))
    && Free(g.after, '"')
  }

  predicate SpacedOk(ps: seq<Prop>, gs: seq<Gap>) {
    |gs| == |ps| && forall i :: 0 <= i < |ps| ==> SpacedProp(ps[i], gs[i])
  }

  predicate SpacedProp(p: Prop, g: Gap) {
    GoodGap(p.key, g) && Word(p.key) && Free(p.key, '=') && Escaped(p.value)
  }

  /** In values too, tabs and line breaks are read as spaces. */
  function Clean(v: string): (r: string)
    ensures |r| == |v| && forall k :: 0 <= k < |v| ==> r[k] == if BlankChar(v[k]) then ' ' else v[k]
  {
    seq(|v|, k requires 0 <= k < |v| => if BlankChar(v[k]) then ' ' else v[k])
  }

  function CleanProps(ps: seq<Prop>): (r: seq<Prop>)
    ensures |r| == |ps| && forall i :: 0 <= i < |ps| ==> r[i] == Prop(ps[i].key, Clean(ps[i].value))
  {
    if ps == [] then [] else [Prop(ps[0].key, Clean(ps[0].value))] + CleanProps(ps[1..])
  }

  lemma {:induction false} CleanEscaped(v: string)
    requires Escaped(v)
    ensures Escaped(Clean(v))
    decreases |v|
  {
    if v != "" {
      var d := if v[0] == '\\' then 2 else 1;
      CleanEscaped(v[d..]);
      assert Clean(v)[d..] == Clean(v[d..]);
    }
  }

  function SpacedText(p: Prop, g: Gap): string {
    g.before + p.key + g.middle + "=" + g.after + "\"" + p.value + "\""
  }

  function SpacedProps(ps: seq<Prop>, gs: seq<Gap>): string
    requires |gs| == |ps|
  {
    if ps == [] then "" else SpacedText(ps[0], gs[0]) + SpacedProps(ps[1..], gs[1..])
  }

  lemma PartsAt(t: string, i: nat, p: Prop, g: Gap)
    requires At(t, i, SpacedText(p, g))
    ensures var k0 := i + |g.before|; var k1 := k0 + |p.key|; var e := k1 + |g.middle|;
      var o := e + 1 + |g.after|; var q := o + 1 + |p.value|;
      && i + |SpacedText(p, g)| == q + 1 <= |t|
      && At(t, i, g.before) && At(t, k0, p.key) && At(t, k1, g.middle) && t[e] == '='
      && At(t, e + 1, g.after) && t[o] == '"' && At(t, o + 1, p.value) && t[q] == '"'
  {
    hide At;
    var eq, qu := "=", "\"";
    var k1 := i + |g.before| + |p.key|;
    var e := k1 + |g.middle|;
    var o := e + 1 + |g.after|;
    AtConcat3(t, i, g.before + p.key + g.middle + eq + g.after + qu, p.value, qu);
    AtConcat3(t, i, g.before + p.key + g.middle + eq, g.after, qu);
    AtConcat3(t, i, g.before + p.key, g.middle, eq);
    AtConcat(t, i, g.before, p.key);
    AtIndex(t, e, eq);
    AtIndex(t, o, qu);
    AtIndex(t, o + 1 + |p.value|, qu);
  }

  lemma GapBefore(t: string, n: nat, i: nat, k0: nat, k1: nat, e: nat, p: Prop, g: Gap)
    requires SpacedProp(p, g) && i <= k0 <= k1 <= e < n <= |t| && t[e] == '='
    requires At(t, i, g.before) && k0 == i + |g.before| && At(t, k0, p.key) && k1 == k0 + |p.key|
    requires At(t, k1, g.middle) && e == k1 + |g.middle|
    ensures var u := Normal(t, n); var k := if p.key == "" then e else k0;
      && (forall j :: i <= j < k ==> u[j] == ' ') && u[k..k + |p.key|] == p.key
      && (forall j :: k <= j < k + |p.key| ==> u[j] != ' ' && u[j] != '=')
      && (u[k + |p.key|] == ' ' || u[k + |p.key|] == '=') && u[e] == '='
      && (forall j :: k1 <= j < e ==> u[j] != '=')
  {
    hide At, Escaped;
    var u := Normal(t, n);
    AtIndex(t, i, g.before);
    AtIndex(t, k0, p.key);
    AtIndex(t, k1, g.middle);
    assert u[k0..k1] == p.key;
  }

  lemma GapBehind(t: string, n: nat, e: nat, o: nat, q: nat, p: Prop, g: Gap)
    requires SpacedProp(p, g) && e < o < q < n <= |t| && t[e] == '=' && t[o] == '"' && t[q] == '"'
    requires At(t, e + 1, g.after) && o == e + 1 + |g.after| && At(t, o + 1, p.value) && q == o + 1 + |p.value|
    ensures var u := Normal(t, n);
      && (forall j :: e <= j < o ==> u[j] != '"') && u[o] == '"' && u[q] == '"'
      && u[o + 1..q] == Clean(p.value) && Escaped(u[o + 1..q])
  {
    hide At, Escaped;
    var u := Normal(t, n);
    AtIndex(t, e + 1, g.after);
    AtIndex(t, o + 1, p.value);
    assert u[o + 1..q] == Clean(p.value);
    CleanEscaped(p.value);
  }

  /** The parts of a spaced property are the places of an attribute; with an empty key the
      blanks before and behind it are one run. */
  lemma GapPlaces(t: string, n: nat, i: nat, k0: nat, k1: nat, e: nat, o: nat, q: nat, p: Prop, g: Gap)
    requires SpacedProp(p, g) && i <= k0 <= k1 <= e < o < q < n <= |t|
    requires At(t, i, g.before) && k0 == i + |g.before| && At(t, k0, p.key) && k1 == k0 + |p.key|
    requires At(t, k1, g.middle) && e == k1 + |g.middle| && t[e] == '=' && t[o] == '"'
    requires At(t, e + 1, g.after) && o == e + 1 + |g.after|
    requires At(t, o + 1, p.value) && q == o + 1 + |p.value| && t[q] == '"'
    ensures var u := Normal(t, n); var k := if p.key == "" then e else k0;
      Places(u, i, n, k, k + |p.key|, e, o, q) && u[k..k + |p.key|] == p.key && u[o + 1..q] == Clean(p.value)
  {
    hide At, Escaped, SpacedProp;
    GapBefore(t, n, i, k0, k1, e, p, g);
    GapBehind(t, n, e, o, q, p, g);
  }

  lemma SpacedPlaces(t: string, n: nat, i: nat, p: Prop, g: Gap)
    requires SpacedProp(p, g) && At(t, i, SpacedText(p, g)) && i + |SpacedText(p, g)| <= n <= |t|
    ensures NextAttribute(Normal(t, n), i, n) ==
      Some(Attribute(Prop(p.key, Clean(p.value)), i + |SpacedText(p, g)|))
  {
    hide At, SpacedText, NextAttribute, Places, SpacedProp;
    PartsAt(t, i, p, g);
    var k1 := i + |g.before| + |p.key|;
    var e := k1 + |g.middle|;
    var o := e + 1 + |g.after|;
    var q := o + 1 + |p.value|;
    GapPlaces(t, n, i, i + |g.before|, k1, e, o, q, p, g);
    var k := if p.key == "" then e else i + |g.before|;
    PlacesRead(Normal(t, n), i, n, k, k + |p.key|, e, o, q);
  }

  lemma {:induction false} SpacedAttributes(t: string, n: nat, i: nat, ps: seq<Prop>, gs: seq<Gap>)
    requires SpacedOk(ps, gs) && At(t, i, SpacedProps(ps, gs)) && i + |SpacedProps(ps, gs)| <= n <= |t|
    requires forall k :: i + |SpacedProps(ps, gs)| <= k < n ==> t[k] != '='
    ensures Attributes(Normal(t, n), i, n) == CleanProps(ps)
    decreases |ps|
  {
    hide At, NextAttribute, SpacedProp;
    var u := Normal(t, n);
    if ps == [] {
      NoneLeft(u, i, n);
    } else {
      AtConcat(t, i, SpacedText(ps[0], gs[0]), SpacedProps(ps[1..], gs[1..]));
      SpacedPlaces(t, n, i, ps[0], gs[0]);
      SpacedAttributes(t, n, i + |SpacedText(ps[0], gs[0])|, ps[1..], gs[1..]);
    }
  }

  lemma NoneLeft(u: string, i: nat, n: nat)
    requires i <= n <= |u| && forall k :: i <= k < n ==> u[k] != '='
    ensures Attributes(u, i, n) == []
  {
    ScanIs(u, Scan(u, Scan(u, i, n, NonSpace), n, SpaceOrEq), n, Eq, n);
  }

  /** What may follow the last property. */
  predicate GoodRest(ps: seq<Prop>, rest: string) {
    Free(rest, '=') && (rest != "" ==> rest[|rest| - 1] != '/' && (ps == [] ==> BlankChar(rest[0])))
  }

  predicate GoodWord(name: string) {
    name != "" && Word(name) && name[|name| - 1] != '/'
  }

  function TagHead(first: char, lead: string, name: string, ps: seq<Prop>, gs: seq<Gap>, rest: string): string
    requires |gs| == |ps|
  {
    [first] + lead + name + SpacedProps(ps, gs) + rest
  }

  lemma HeadAt(t: string, first: char, lead: string, name: string, ps: seq<Prop>, gs: seq<Gap>, rest: string)
    requires |gs| == |ps| && At(t, 0, TagHead(first, lead, name, ps, gs, rest))
    ensures var j := 1 + |lead|; var i := j + |name|; var r := i + |SpacedProps(ps, gs)|;
      && r + |rest| == |TagHead(first, lead, name, ps, gs, rest)| <= |t|
      && At(t, 1, lead) && At(t, j, name) && At(t, i, SpacedProps(ps, gs)) && At(t, r, rest)
  {
    hide At, SpacedProps;
    AtConcat3(t, 0, [first] + lead + name, SpacedProps(ps, gs), rest);
    AtConcat3(t, 0, [first], lead, name);
    AtIndex(t, 0, TagHead(first, lead, name, ps, gs, rest));
  }

  /** Spaced properties begin with their first gap and end with a quote. */
  lemma {:induction false} SpacedEnds(ps: seq<Prop>, gs: seq<Gap>)
    requires |gs| == |ps| && ps != []
    ensures var x := SpacedProps(ps, gs);
      x != "" && x[|x| - 1] == '"' && (gs[0].before != "" ==> x[0] == gs[0].before[0])
    decreases |ps|
  {
    if |ps| > 1 {
      SpacedEnds(ps[1..], gs[1..]);
    }
  }

  lemma FirstGapBlank(ps: seq<Prop>, gs: seq<Gap>)
    requires SpacedOk(ps, gs) && (ps != [] ==> gs[0].before != "")
    ensures ps != [] ==> BlankChar(gs[0].before[0])
  {
    assert ps != [] ==> SpacedProp(ps[0], gs[0]);
  }

  lemma HeadLast(first: char, lead: string, name: string, ps: seq<Prop>, gs: seq<Gap>, rest: string)
    requires |gs| == |ps| && GoodWord(name) && GoodRest(ps, rest)
    ensures var h := TagHead(first, lead, name, ps, gs, rest); h[|h| - 1] != '/'
  {
    hide Free, Word, BlankChar, SpacedProps;
    NoSpaced(ps, gs);
    if ps != [] {
      SpacedEnds(ps, gs);
    }
    var h, x := TagHead(first, lead, name, ps, gs, rest), SpacedProps(ps, gs);
    assert h[|h| - 1] == if rest != "" then rest[|rest| - 1] else if x != "" then x[|x| - 1] else name[|name| - 1];
  }

  /** What stands behind the name: a blank, or nothing. */
  lemma BehindName(t: string, i: nat, ps: seq<Prop>, gs: seq<Gap>, rest: string)
    requires |gs| == |ps| && SpacedOk(ps, gs) && GoodRest(ps, rest) && (ps != [] ==> gs[0].before != "")
    requires At(t, i, SpacedProps(ps, gs)) && At(t, i + |SpacedProps(ps, gs)|, rest)
    ensures i + |SpacedProps(ps, gs)| + |rest| <= |t|
    ensures |SpacedProps(ps, gs)| + |rest| > 0 ==> BlankChar(t[i])
  {
    hide At, Free, SpacedProps, BlankChar, SpacedOk;
    AtIndex(t, i, SpacedProps(ps, gs));
    AtIndex(t, i + |SpacedProps(ps, gs)|, rest);
    FirstGapBlank(ps, gs);
    NoSpaced(ps, gs);
    if ps != [] {
      SpacedEnds(ps, gs);
    }
  }

  lemma NoSpaced(ps: seq<Prop>, gs: seq<Gap>)
    requires |gs| == |ps|
    ensures ps == [] ==> SpacedProps(ps, gs) == ""
  {
  }

  /** A tag with any first and last character. */
  function SpacedTag(first: char, lead: string, name: string, ps: seq<Prop>, gs: seq<Gap>, rest: string,
      end: bool, last: char): string
    requires |gs| == |ps|
  {
    TagHead(first, lead, name, ps, gs, rest) + (if end then "/" else "") + [last]
  }

  lemma TagParts(first: char, lead: string, name: string, ps: seq<Prop>, gs: seq<Gap>, rest: string,
      end: bool, last: char)
    requires |gs| == |ps|
    ensures var h := TagHead(first, lead, name, ps, gs, rest);
      var t := SpacedTag(first, lead, name, ps, gs, rest, end, last);
      At(t, 0, h) && |t| == |h| + (if end then 2 else 1) && |h| > 0 && t[0] == first && t[|t| - 1] == last
      && t[|t| - 2] == if end then '/' else h[|h| - 1]
  {
    hide SpacedProps;
  }

  lemma NameRead(t: string, n: nat, lead: string, name: string)
    requires 1 + |lead| + |name| <= n <= |t| && At(t, 1, lead) && At(t, 1 + |lead|, name)
    requires Blanks(lead) && Word(name) && name != ""
    requires 1 + |lead| + |name| < n ==> BlankChar(t[1 + |lead| + |name|])
    ensures var u := Normal(t, n); var j := Scan(u, 1, n, NonSpace);
      Scan(u, j, n, Space) == 1 + |lead| + |name| && j <= 1 + |lead| + |name|
      && u[j..1 + |lead| + |name|] == name
  {
    hide At, Scan;
    var u := Normal(t, n);
    var j := 1 + |lead|;
    AtIndex(t, 1, lead);
    AtIndex(t, j, name);
    ScanIs(u, 1, n, NonSpace, j);
    ScanIs(u, j, n, Space, j + |name|);
    assert u[j..j + |name|] == name;
  }

  /** Whatever blanks, line breaks and stray text the gaps hold, the tag has that name and
      those properties. */
  lemma SpacedTagRead(first: char, lead: string, name: string, ps: seq<Prop>, gs: seq<Gap>, rest: string,
      end: bool, last: char)
    requires Blanks(lead) && GoodWord(name) && SpacedOk(ps, gs) && GoodRest(ps, rest)
    requires ps != [] ==> gs[0].before != ""
    ensures |SpacedTag(first, lead, name, ps, gs, rest, end, last)| >= 2
    ensures ReadTag(SpacedTag(first, lead, name, ps, gs, rest, end, last)) == Tag(name, CleanProps(ps))
  {
    hide At, SpacedTag, TagHead, SpacedProps, Scan, Attributes, Free, Word;
    var t := SpacedTag(first, lead, name, ps, gs, rest, end, last);
    var n := |TagHead(first, lead, name, ps, gs, rest)|;
    TagParts(first, lead, name, ps, gs, rest, end, last);
    HeadLast(first, lead, name, ps, gs, rest);
    HeadAt(t, first, lead, name, ps, gs, rest);
    AtIndex(t, 0, TagHead(first, lead, name, ps, gs, rest));
    var i := 1 + |lead| + |name|;
    BehindName(t, i, ps, gs, rest);
    NameRead(t, n, lead, name);
    RestFree(t, i + |SpacedProps(ps, gs)|, rest);
    SpacedAttributes(t, n, i, ps, gs);
  }

  predicate BlankGap(g: Gap) {
    g.before != "" && Blanks(g.before) && Blanks(g.middle) && Blanks(g.after)
  }

  /** Blanks, tabs and line breaks may stand in any number around the parts of a tag. */
  lemma BlanksIgnored(lead: string, name: string, ps: seq<Prop>, gs: seq<Gap>, rest: string, end: bool)
    requires Blanks(lead) && GoodName(name) && GoodProps(ps) && Blanks(rest)
    requires |gs| == |ps| && forall i :: 0 <= i < |gs| ==> BlankGap(gs[i])
    ensures |SpacedTag('<', lead, name, ps, gs, rest, end, '>')| >= 2
    ensures ReadTag(SpacedTag('<', lead, name, ps, gs, rest, end, '>')) == Tag(name, ps)
  {
    hide ReadTag, SpacedTag;
    BlankGapsGood(ps, gs);
    assert forall k :: 0 <= k < |name| ==> NameChar(name[k]) && !BlankChar(name[k]);
    assert ps != [] ==> BlankGap(gs[0]);
    SpacedTagRead('<', lead, name, ps, gs, rest, end, '>');
    CleanSame(ps);
  }

  lemma CleanSame(ps: seq<Prop>)
    requires GoodProps(ps)
    ensures CleanProps(ps) == ps
  {
    forall i | 0 <= i < |ps|
      ensures Clean(ps[i].value) == ps[i].value
    {
      assert GoodValue(ps[i].value);
      assert forall k :: 0 <= k < |ps[i].value| ==> ValueChar(ps[i].value[k]);
    }
  }

  lemma BlankGapsGood(ps: seq<Prop>, gs: seq<Gap>)
    requires GoodProps(ps) && |gs| == |ps| && forall i :: 0 <= i < |gs| ==> BlankGap(gs[i])
    ensures SpacedOk(ps, gs)
  {
    forall i | 0 <= i < |ps|
      ensures SpacedProp(ps[i], gs[i])
    {
      assert BlankGap(gs[i]);
      BlankGapGood(ps[i], gs[i]);
    }
  }

  lemma BlankGapGood(p: Prop, g: Gap)
    requires GoodKey(p.key) && GoodValue(p.value) && BlankGap(g)
    ensures SpacedProp(p, g)
  {
    hide Escaped;
    assert forall k :: 0 <= k < |p.key| ==> KeyChar(p.key[k]);
    assert forall k :: 0 <= k < |p.value| ==> ValueChar(p.value[k]);
  }

  lemma RestFree(t: string, r: nat, rest: string)
    requires At(t, r, rest) && Free(rest, '=')
    ensures r + |rest| <= |t| && forall k :: r <= k < r + |rest| ==> t[k] != '='
  {
    AtIndex(t, r, rest);
  }

  // ------------------------------------------------------------ the whole text

  /** The characters that are cut off around a tag's text: all up to the space. */
  predicate Padding(x: string) {
    forall k :: 0 <= k < |x| ==> x[k] as int <= 32
  }

  predicate Bare(t: string) {
    t != "" && t[0] as int > 32 && t[|t| - 1] as int > 32
  }

  lemma {:induction false} TrimLeftPadded(a: string, t: string)
    requires Padding(a) && (t != "" ==> t[0] as int > 32)
    ensures TrimLeft(a + t) == t
  {
    if a != "" {
      assert (a + t)[1..] == a[1..] + t;
      TrimLeftPadded(a[1..], t);
    } else {
      assert a + t == t;
    }
  }

  lemma {:induction false} TrimRightPadded(t: string, b: string)
    requires Padding(b) && (t != "" ==> t[|t| - 1] as int > 32)
    ensures TrimRight(t + b) == t
  {
    if b != "" {
      assert (t + b)[..|t + b| - 1] == t + b[..|b| - 1];
      TrimRightPadded(t, b[..|b| - 1]);
    } else {
      assert t + b == t;
    }
  }

  lemma TrimPadded(a: string, t: string, b: string)
    requires Padding(a) && Bare(t) && Padding(b)
    ensures Trim(a + t + b) == t
  {
    hide TrimLeft, TrimRight;
    assert a + t + b == a + (t + b);
    TrimLeftPadded(a, t + b);
    TrimRightPadded(t, b);
  }

  /** A text is rejected exactly when, without its padding, it neither begins with '<' nor
      ends with '>'; otherwise it is read as the tag between the paddings. */
  lemma PaddedTag(a: string, t: string, b: string)
    requires Padding(a) && Bare(t) && |t| >= 2 && Padding(b)
    ensures Readable(a + t + b)
    ensures ParseTag(a + t + b) == if t[0] != '<' && t[|t| - 1] != '>' then None else Some(ReadTag(t))
  {
    hide ReadTag, Trim;
    TrimPadded(a, t, b);
  }

  /** A padded, spaced tag is read as what it says. */
  lemma SpacedTextRead(a: string, lead: string, name: string, ps: seq<Prop>, gs: seq<Gap>, rest: string,
      end: bool, b: string)
    requires Padding(a) && Padding(b)
    requires Blanks(lead) && GoodWord(name) && SpacedOk(ps, gs) && GoodRest(ps, rest)
    requires ps != [] ==> gs[0].before != ""
    ensures var text := a + SpacedTag('<', lead, name, ps, gs, rest, end, '>') + b;
      Readable(text) && ParseTag(text) == Some(Tag(name, CleanProps(ps)))
  {
    hide SpacedTag, ReadTag, TagHead, ParseTag, Readable;
    TagParts('<', lead, name, ps, gs, rest, end, '>');
    SpacedTagRead('<', lead, name, ps, gs, rest, end, '>');
    PaddedTag(a, SpacedTag('<', lead, name, ps, gs, rest, end, '>'), b);
  }

  // ------------------------------------------------------------ what is printed

  /** One blank before each key and nothing else. */
  function PrintedGaps(n: nat): (gs: seq<Gap>)
    ensures |gs| == n
  {
    if n == 0 then [] else [Gap(" ", "", "")] + PrintedGaps(n - 1)
  }

  lemma {:induction false} PrintedProps(ps: seq<Prop>)
    ensures PropsText(ps) == SpacedProps(ps, PrintedGaps(|ps|))
    decreases |ps|
  {
    if ps != [] {
      PrintedProps(ps[1..]);
      assert PropText(ps[0]) == SpacedText(ps[0], Gap(" ", "", ""));
    }
  }

  /** A printed tag has its properties in order with one space before each and no other gap. */
  lemma PrintedTag(name: string, ps: seq<Prop>, end: bool)
    ensures TagText(name, ps, end) == SpacedTag('<', "", name, ps, PrintedGaps(|ps|), "", end, '>')
  {
    hide PropsText, SpacedProps;
    PrintedProps(ps);
  }
}
