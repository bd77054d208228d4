/** Splitting a text at a delimiter. */
module Splitting {

  /** `d` occurs in `s` at position `i`. */
  predicate OccursAt(s: string, d: string, i: nat) {
    i + |d| <= |s| && s[i..i + |d|] == d
  }

  ghost predicate Contains(s: string, d: string) {
    exists i: nat :: OccursAt(s, d, i)
  }

  /** The first occurrence from `i` on; |s| + 1 when there is none. */
  function FirstFrom(s: string, d: string, i: nat): (j: nat)
    requires i <= |s| + 1
    ensures i <= j <= |s| + 1
    ensures j <= |s| ==> OccursAt(s, d, j)
    decreases |s| + 1 - i
  {
    if i == |s| + 1 || OccursAt(s, d, i) then i else FirstFrom(s, d, i + 1)
  }

  lemma {:induction false} FirstIsFirst(s: string, d: string, i: nat)
    requires i <= |s| + 1
    ensures forall k: nat :: i <= k < FirstFrom(s, d, i) ==> !OccursAt(s, d, k)
    decreases |s| + 1 - i
  {
    if i <= |s| && !OccursAt(s, d, i) {
      FirstIsFirst(s, d, i + 1);
    }
  }

  /** The texts between the occurrences of `d`, which are looked for from left to right. */
  function Pieces(s: string, d: string): seq<string>
    requires d != ""
    decreases |s|
  {
    var i := FirstFrom(s, d, 0);
    if i > |s| then [s] else [s[..i]] + Pieces(s[i + |d|..], d)
  }

  function Join(ps: seq<string>, d: string): string {
    if ps == [] then "" else if |ps| == 1 then ps[0] else ps[0] + d + Join(ps[1..], d)
  }

  function NonEmpty(ps: seq<string>): seq<string> {
    if ps == [] then [] else (if ps[0] == "" then [] else [ps[0]]) + NonEmpty(ps[1..])
  }

  /** The text with a terminator behind it. */
  function Terminated(text: string, i: nat): char
    requires i <= |text|
  {
    if i < |text| then text[i] else '\0'
  }

  class Splitter {
    const text: string
    const reserveEmpty: bool
    var pieces: seq<string>

    constructor (text: string, reserveEmpty: bool)
      ensures this.text == text && this.reserveEmpty == reserveEmpty
    {
      this.text := text;
      this.reserveEmpty := reserveEmpty;
      pieces := [];
    }

    /** Cuts a copy of the text in place: a terminator is written over the start of every
        delimiter, and the pieces are what lies before the terminators. */
    method Split(d: string) returns (r: seq<string>)
      requires d != "" && '\0' !in text && '\0' !in d
      modifies `pieces
      ensures r == pieces
      ensures r == if reserveEmpty then Pieces(text, d) else NonEmpty(Pieces(text, d))
    {
      hide Pieces, FirstFrom, OccursAt, CutTo, Wanted;
      var buffer := new char[|text| + 1];
      forall i | 0 <= i <= |text| {
        buffer[i] := Terminated(text, i);
      }
      pieces := [];
      var start := 0;
      ghost var done: seq<string> := [];
      CutNothing(text, d, reserveEmpty);
      while true
        invariant 0 <= start <= |text| && fresh(buffer) && buffer.Length == |text| + 1
        invariant forall i :: start <= i <= |text| ==> buffer[i] == Terminated(text, i)
        invariant pieces == Wanted(done, reserveEmpty) && CutTo(text, d, start, done)
        decreases |text| - start
      {
        var at := StrStr(buffer, start, d, text[start..]);
        CutStep(text, d, start, FirstFrom(text[start..], d, 0), done);
        if at != -1 {
          buffer[at] := '\0';
        }
        var length := StrLen(buffer, start, if at == -1 then |text| - start else at - start);
        var piece := PieceAt(buffer, start, length, text);
        if at == -1 {
          assert text[start..|text|] == text[start..];
        }
        WantedSnoc(done, piece, reserveEmpty);
        if reserveEmpty || length > 0 {
          pieces := pieces + [piece];
        }
        done := done + [piece];
        if at == -1 {
          break;
        }
        start := at + |d|;
      }
      WantedAll(done, reserveEmpty);
      r := pieces;
    }
  }

  /** The first occurrence of `d` in the text that starts at `start` and ends before the
      terminator, or -1. */
  method StrStr(buffer: array<char>, start: nat, d: string, ghost s: string) returns (at: int)
    requires d != "" && '\0' !in s && '\0' !in d && start + |s| < buffer.Length
    requires forall i :: 0 <= i < |s| ==> buffer[start + i] == s[i]
    requires buffer[start + |s|] == '\0'
    ensures if FirstFrom(s, d, 0) <= |s| then at == start + FirstFrom(s, d, 0) else at == -1
    ensures at != -1 ==> at + |d| <= start + |s|
  {
    hide OccursAt;
    var i := start;
    while buffer[i] != '\0'
      invariant start <= i <= start + |s| && FirstFrom(s, d, i - start) == FirstFrom(s, d, 0)
      decreases start + |s| - i
    {
      var found := StartsWith(buffer, start, i - start, d, s);
      if found {
        return i;
      }
      i := i + 1;
    }
    assert i < start + |s| ==> s[i - start] in s;
    NotAtEnd(s, d);
    at := -1;
  }

  /** Compares the text from position `p` on with `d`. */
  method StartsWith(buffer: array<char>, start: nat, p: nat, d: string, ghost s: string) returns (found: bool)
    requires '\0' !in d && p < |s| && start + |s| < buffer.Length
    requires forall i :: 0 <= i < |s| ==> buffer[start + i] == s[i]
    requires buffer[start + |s|] == '\0'
    ensures found <==> OccursAt(s, d, p)
    ensures found ==> p + |d| <= |s|
  {
    var j := 0;
    while j < |d| && buffer[start + p + j] == d[j]
      invariant 0 <= j <= |d| && p + j <= |s|
      invariant forall k :: 0 <= k < j ==> s[p + k] == d[k]
    {
      assert d[j] in d;
      j := j + 1;
    }
    found := j == |d|;
    if p + |d| <= |s| {
      assert found ==> s[p..p + |d|] == d;
      assert !found ==> s[p..p + |d|][j] == s[p + j];
    }
  }

  lemma NotAtEnd(s: string, d: string)
    requires d != ""
    ensures FirstFrom(s, d, |s|) == |s| + 1
  {
  }

  method PieceAt(buffer: array<char>, start: nat, length: nat, ghost text: string) returns (piece: string)
    requires start + length <= |text| < buffer.Length
    requires forall i :: start <= i < start + length ==> buffer[i] == Terminated(text, i)
    ensures piece == text[start..start + length]
  {
    piece := buffer[start..start + length];
  }

  method StrLen(buffer: array<char>, start: nat, ghost n: nat) returns (length: nat)
    requires start + n < buffer.Length && buffer[start + n] == '\0'
    requires forall i :: start <= i < start + n ==> buffer[i] != '\0'
    ensures length == n
  {
    length := 0;
    while buffer[start + length] != '\0'
      invariant length <= n
      decreases n - length
    {
      length := length + 1;
    }
  }

  /** Whether `d` occurs at a position depends only on what is there. */
  lemma OccursBefore(s: string, t: string, d: string, k: nat)
    requires |t| <= |s| && s[..|t|] == t && k + |d| <= |t|
    ensures OccursAt(t, d, k) <==> OccursAt(s, d, k)
  {
    assert t[k..k + |d|] == s[k..k + |d|];
  }

  /** The text before `start` has been cut into `done`. */
  ghost predicate CutTo(text: string, d: string, start: nat, done: seq<string>)
    requires d != "" && start <= |text|
  {
    done + Pieces(text[start..], d) == Pieces(text, d)
  }

  ghost function Wanted(ps: seq<string>, reserveEmpty: bool): seq<string> {
    if reserveEmpty then ps else NonEmpty(ps)
  }

  lemma CutNothing(text: string, d: string, reserveEmpty: bool)
    requires d != ""
    ensures CutTo(text, d, 0, []) && Wanted([], reserveEmpty) == []
  {
    assert text[0..] == text;
  }

  lemma PiecesFrom(text: string, d: string, start: nat, n: nat, next: nat)
    requires d != "" && start <= |text| && n == FirstFrom(text[start..], d, 0) && next == start + n + |d|
    ensures if start + n > |text| then Pieces(text[start..], d) == [text[start..]]
      else next <= |text| && Pieces(text[start..], d) == [text[start..start + n]] + Pieces(text[next..], d)
  {
    hide Pieces, FirstFrom, OccursAt;
    PiecesStep(text[start..], d);
    if start + n <= |text| {
      Slice(text, start, n);
      SliceRest(text, start, n + |d|, next);
    }
  }

  lemma CutStep(text: string, d: string, start: nat, n: nat, done: seq<string>)
    requires d != "" && start <= |text| && CutTo(text, d, start, done) && n == FirstFrom(text[start..], d, 0)
    ensures if start + n > |text| then done + [text[start..]] == Pieces(text, d)
      else start + n + |d| <= |text| && CutTo(text, d, start + n + |d|, done + [text[start..start + n]])
  {
    hide Pieces, FirstFrom, OccursAt;
    PiecesFrom(text, d, start, n, start + n + |d|);
    if start + n <= |text| {
      MovedOver(done, text[start..start + n], Pieces(text[start + n + |d|..], d));
    }
  }

  lemma Slice(s: string, start: nat, n: nat)
    requires start + n <= |s|
    ensures s[start..][..n] == s[start..start + n]
  {
  }

  lemma SliceRest(s: string, start: nat, n: nat, end: nat)
    requires start + n == end <= |s|
    ensures s[start..][n..] == s[end..]
  {
  }

  lemma MovedOver(done: seq<string>, p: string, rest: seq<string>)
    ensures done + ([p] + rest) == done + [p] + rest
  {
  }

  lemma WantedSnoc(ps: seq<string>, p: string, reserveEmpty: bool)
    ensures Wanted(ps + [p], reserveEmpty) == Wanted(ps, reserveEmpty) + if reserveEmpty || |p| > 0 then [p] else []
  {
    hide NonEmpty;
    NonEmptySnoc(ps, p);
  }

  lemma WantedAll(ps: seq<string>, reserveEmpty: bool)
    ensures Wanted(ps, reserveEmpty) == if reserveEmpty then ps else NonEmpty(ps)
  {
  }

  lemma PiecesStep(s: string, d: string)
    requires d != ""
    ensures var i := FirstFrom(s, d, 0);
      if i > |s| then Pieces(s, d) == [s]
      else i + |d| <= |s| && Pieces(s, d) == [s[..i]] + Pieces(s[i + |d|..], d)
  {
    hide FirstFrom;
  }

  lemma {:induction false} NonEmptySnoc(ps: seq<string>, p: string)
    ensures NonEmpty(ps + [p]) == NonEmpty(ps) + if p == "" then [] else [p]
    decreases |ps|
  {
    if ps != [] {
      assert (ps + [p])[1..] == ps[1..] + [p];
      NonEmptySnoc(ps[1..], p);
    }
  }

  // ------------------------------------------------------------------ properties

  /** Joining the pieces gives back the text. */
  lemma {:induction false} JoinPieces(s: string, d: string)
    requires d != ""
    ensures Pieces(s, d) != [] && Join(Pieces(s, d), d) == s
    decreases |s|
  {
    var i := FirstFrom(s, d, 0);
    if i <= |s| {
      var rest := s[i + |d|..];
      JoinPieces(rest, d);
      assert ([s[..i]] + Pieces(rest, d))[1..] == Pieces(rest, d);
      assert s == s[..i] + s[i..i + |d|] + rest;
    }
  }

  /** The delimiter occurs in a piece with a delimiter behind it only at the end. */
  ghost predicate EndsAtFirst(p: string, d: string) {
    forall k: nat :: k < |p| ==> !OccursAt(p + d, d, k)
  }

  /** The lists that splitting a text gives. */
  ghost predicate Separated(ps: seq<string>, d: string) {
    ps != [] && (forall i :: 0 <= i < |ps| - 1 ==> EndsAtFirst(ps[i], d)) && !Contains(ps[|ps| - 1], d)
  }

  lemma {:induction false} PiecesSeparated(s: string, d: string)
    requires d != ""
    ensures Separated(Pieces(s, d), d)
    decreases |s|
  {
    var i := FirstFrom(s, d, 0);
    FirstIsFirst(s, d, 0);
    if i <= |s| {
      var rest := s[i + |d|..];
      PiecesSeparated(rest, d);
      forall k: nat | k < i
        ensures !OccursAt(s[..i] + d, d, k)
      {
        assert s[..i] + d == s[..i + |d|];
        OccursBefore(s, s[..i] + d, d, k);
      }
      var ps := Pieces(s, d);
      assert ps[1..] == Pieces(rest, d);
      forall j | 0 <= j < |ps| - 1
        ensures EndsAtFirst(ps[j], d)
      {
        assert j > 0 ==> ps[j] == ps[1..][j - 1];
      }
    }
  }

  /** No piece contains the delimiter. */
  lemma NoDelimiter(s: string, d: string)
    requires d != ""
    ensures forall p :: p in Pieces(s, d) ==> !Contains(p, d)
  {
    PiecesSeparated(s, d);
    var ps := Pieces(s, d);
    forall j | 0 <= j < |ps|
      ensures !Contains(ps[j], d)
    {
      if j < |ps| - 1 {
        assert EndsAtFirst(ps[j], d);
        forall k: nat
          ensures !OccursAt(ps[j], d, k)
        {
          if k + |d| <= |ps[j]| {
            OccursBefore(ps[j] + d, ps[j], d, k);
          }
        }
      }
    }
  }

  lemma {:induction false} FirstFromIs(s: string, d: string, i: nat, j: nat)
    requires i <= j <= |s| + 1 && (j <= |s| ==> OccursAt(s, d, j))
    requires forall k: nat :: i <= k < j ==> !OccursAt(s, d, k)
    ensures FirstFrom(s, d, i) == j
    decreases j - i
  {
    if i < j {
      FirstFromIs(s, d, i + 1, j);
    }
  }

  lemma Parts(p: string, d: string, rest: string)
    ensures var s := p + d + rest;
      s[..|p|] == p && s[|p|..|p| + |d|] == d && s[|p| + |d|..] == rest && s[..|p + d|] == p + d
  {
  }

  lemma Occurs(s: string, d: string, i: nat)
    requires i + |d| <= |s| && s[i..i + |d|] == d
    ensures OccursAt(s, d, i)
  {
  }

  /** A piece that the delimiter does not end early is found before the first delimiter. */
  lemma FirstPiece(p: string, d: string, rest: string)
    requires d != "" && EndsAtFirst(p, d)
    ensures var s := p + d + rest;
      FirstFrom(s, d, 0) == |p| && s[..|p|] == p && s[|p| + |d|..] == rest
  {
    hide FirstFrom, OccursAt;
    var s, t, n := p + d + rest, p + d, |p|;
    Parts(p, d, rest);
    forall k: nat | k < n
      ensures !OccursAt(s, d, k)
    {
      assert !OccursAt(t, d, k);
      OccursBefore(s, t, d, k);
    }
    Occurs(s, d, n);
    FirstFromIs(s, d, 0, n);
  }

  lemma {:induction false} SplitSeparated(ps: seq<string>, d: string)
    requires d != "" && Separated(ps, d)
    ensures Pieces(Join(ps, d), d) == ps
    decreases |ps|
  {
    var s := Join(ps, d);
    if |ps| == 1 {
      FirstFromIs(s, d, 0, |s| + 1);
    } else {
      hide FirstFrom, OccursAt, EndsAtFirst;
      var rest := Join(ps[1..], d);
      FirstPiece(ps[0], d, rest);
      PiecesStep(s, d);
      assert Separated(ps[1..], d) by {
        assert ps[1..][|ps| - 2] == ps[|ps| - 1];
      }
      SplitSeparated(ps[1..], d);
    }
  }

  /** Splitting undoes joining for exactly the lists in which no delimiter can be seen too early. */
  lemma SplitOfJoin(ps: seq<string>, d: string)
    requires d != ""
    ensures Pieces(Join(ps, d), d) == ps <==> Separated(ps, d)
  {
    if Separated(ps, d) {
      SplitSeparated(ps, d);
    } else if Pieces(Join(ps, d), d) == ps {
      PiecesSeparated(Join(ps, d), d);
    }
  }

  /** Only empty pieces are left out when empty pieces are not reserved; the order stays. */
  lemma {:induction false} NonEmptyKeeps(a: seq<string>, p: string, b: seq<string>)
    ensures NonEmpty([]) == []
    ensures NonEmpty(a + [p] + b) == NonEmpty(a) + (if |p| == 0 then [] else [p]) + NonEmpty(b)
    decreases |a|
  {
    var all := a + [p] + b;
    if a == [] {
      assert all[0] == p && all[1..] == b;
    } else {
      assert all[1..] == a[1..] + [p] + b;
      NonEmptyKeeps(a[1..], p, b);
    }
  }
}
