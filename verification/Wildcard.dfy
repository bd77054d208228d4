/** The language of wildcard patterns: '*' stands for any text, '?' for any character. */
module WildcardLanguage {

  ghost predicate Matches(p: string, s: string)
    decreases |p|
  {
    if p == "" then s == ""
    else if p[0] == '*' then exists k :: 0 <= k <= |s| && Matches(p[1..], s[k..])
    else s != "" && (p[0] == '?' || p[0] == s[0]) && Matches(p[1..], s[1..])
  }

  /** Some prefix of `s` matches. */
  ghost predicate MatchesPrefix(p: string, s: string) {
    exists k :: 0 <= k <= |s| && Matches(p, s[..k])
  }

  ghost predicate StarFree(g: string) {
    '*' !in g
  }

  /** `s` begins with a text that the star-free pattern `g` stands for. */
  predicate Fits(g: string, s: string) {
    |g| <= |s| && forall i :: 0 <= i < |g| ==> g[i] == '?' || g[i] == s[i]
  }

  // ------------------------------------------------- concatenation of patterns

  lemma MatchesStar(p: string, s: string, i: nat)
    requires p != "" && p[0] == '*' && i <= |s| && Matches(p[1..], s[i..])
    ensures Matches(p, s)
  {
  }

  lemma StarMatches(p: string, s: string) returns (i: nat)
    requires p != "" && p[0] == '*' && Matches(p, s)
    ensures i <= |s| && Matches(p[1..], s[i..])
  {
    i :| 0 <= i <= |s| && Matches(p[1..], s[i..]);
  }

  lemma MatchesOne(p: string, s: string)
    requires p != "" && p[0] != '*'
    ensures Matches(p, s) <==> s != "" && (p[0] == '?' || p[0] == s[0]) && Matches(p[1..], s[1..])
  {
  }

  lemma MatchesNone(s: string)
    ensures Matches("", s) <==> s == ""
  {
  }

  /** A prefix without its first characters, and what follows the prefix. */
  lemma Slices(s: string, i: nat, k: nat)
    requires i <= k <= |s|
    ensures s[..k][i..] == s[i..][..k - i] && s[i..][k - i..] == s[k..]
  {
  }

  lemma {:induction false} Join(p: string, q: string, s: string, k: nat)
    requires k <= |s| && Matches(p, s[..k]) && Matches(q, s[k..])
    ensures Matches(p + q, s)
    decreases |p|
  {
    hide Matches;
    if p == "" {
      MatchesNone(s[..k]);
      assert p + q == q && s[k..] == s;
    } else {
      assert (p + q)[1..] == p[1..] + q;
      if p[0] == '*' {
        var i := StarMatches(p, s[..k]);
        Slices(s, i, k);
        Join(p[1..], q, s[i..], k - i);
        MatchesStar(p + q, s, i);
      } else {
        MatchesOne(p, s[..k]);
        Slices(s, 1, k);
        Join(p[1..], q, s[1..], k - 1);
        MatchesOne(p + q, s);
      }
    }
  }

  lemma {:induction false} Split(p: string, q: string, s: string) returns (k: nat)
    requires Matches(p + q, s)
    ensures k <= |s| && Matches(p, s[..k]) && Matches(q, s[k..])
    decreases |p|
  {
    hide Matches;
    if p == "" {
      MatchesNone(s[..0]);
      assert p + q == q && s[0..] == s;
      k := 0;
    } else {
      assert (p + q)[1..] == p[1..] + q;
      if p[0] == '*' {
        var i := StarMatches(p + q, s);
        var j := Split(p[1..], q, s[i..]);
        k := i + j;
        Slices(s, i, k);
        MatchesStar(p, s[..k], i);
      } else {
        MatchesOne(p + q, s);
        var j := Split(p[1..], q, s[1..]);
        k := j + 1;
        Slices(s, 1, k);
        MatchesOne(p, s[..k]);
      }
    }
  }

  lemma {:induction false} StarFreeMatches(g: string, s: string)
    requires StarFree(g)
    ensures Matches(g, s) <==> |s| == |g| && Fits(g, s)
    decreases |g|
  {
    if g != "" {
      assert g[0] in g;
      if s != "" {
        StarFreeMatches(g[1..], s[1..]);
        if |s| == |g| && Fits(g[1..], s[1..]) && (g[0] == '?' || g[0] == s[0]) {
          forall i | 0 <= i < |g|
            ensures g[i] == '?' || g[i] == s[i]
          {
            assert i == 0 || (g[1..][i - 1] == g[i] && s[1..][i - 1] == s[i]);
          }
        }
      }
    }
  }

  // ------------------------------------------------- one segment of the pattern

  /** A star-free segment at the front is matched where it stands. */
  lemma PlainSegment(g: string, r: string, s: string)
    requires StarFree(g)
    ensures MatchesPrefix(g + r, s) <==> Fits(g, s) && MatchesPrefix(r, s[|g|..])
  {
    if MatchesPrefix(g + r, s) {
      var k :| 0 <= k <= |s| && Matches(g + r, s[..k]);
      var j := Split(g, r, s[..k]);
      StarFreeMatches(g, s[..k][..j]);
      assert Fits(g, s) by {
        assert s[..k][..j] == s[..j];
      }
      assert s[..k][j..] == s[|g|..][..k - j];
    }
    if Fits(g, s) && MatchesPrefix(r, s[|g|..]) {
      var k :| 0 <= k <= |s| - |g| && Matches(r, s[|g|..][..k]);
      var t := s[..|g| + k];
      assert t[..|g|] == s[..|g|] && t[|g|..] == s[|g|..][..k];
      StarFreeMatches(g, t[..|g|]);
      Join(g, r, t, |g|);
    }
  }

  /** What a pattern after '*' matches somewhere, '*' and the pattern match at the front. */
  lemma StarSegment(p: string, s: string)
    ensures MatchesPrefix("*" + p, s) <==> exists i :: 0 <= i <= |s| && MatchesPrefix(p, s[i..])
  {
    var w := "*" + p;
    assert w[1..] == p;
    if MatchesPrefix(w, s) {
      var k :| 0 <= k <= |s| && Matches(w, s[..k]);
      var i :| 0 <= i <= k && Matches(w[1..], s[..k][i..]);
      assert s[..k][i..] == s[i..][..k - i];
      assert MatchesPrefix(p, s[i..]);
    }
    if i :| 0 <= i <= |s| && MatchesPrefix(p, s[i..]) {
      var j :| 0 <= j <= |s| - i && Matches(p, s[i..][..j]);
      assert s[..i + j][i..] == s[i..][..j];
      assert Matches(w, s[..i + j]);
    }
  }

  /** Nothing is lost by starting to look earlier: the exchange argument. */
  lemma Earlier(r: string, s: string, i: nat, j: nat)
    requires i <= j <= |s| && (r == "" || r[0] == '*') && MatchesPrefix(r, s[j..])
    ensures MatchesPrefix(r, s[i..])
  {
    if r == "" {
      assert s[i..][..0] == "";
    } else {
      assert r == "*" + r[1..];
      StarSegment(r[1..], s[j..]);
      var k :| 0 <= k <= |s| - j && MatchesPrefix(r[1..], s[j..][k..]);
      assert s[j..][k..] == s[i..][j - i + k..];
      StarSegment(r[1..], s[i..]);
    }
  }

  /** After '*', a segment may be matched at the leftmost place where it fits. */
  lemma LeftmostSegment(g: string, r: string, s: string, i: nat)
    requires StarFree(g) && (r == "" || r[0] == '*')
    requires i <= |s| && Fits(g, s[i..]) && forall j :: 0 <= j < i ==> !Fits(g, s[j..])
    ensures MatchesPrefix("*" + (g + r), s) <==> MatchesPrefix(r, s[i + |g|..])
  {
    StarSegment(g + r, s);
    PlainSegment(g, r, s[i..]);
    assert s[i..][|g|..] == s[i + |g|..];
    if MatchesPrefix("*" + (g + r), s) {
      var j :| 0 <= j <= |s| && MatchesPrefix(g + r, s[j..]);
      PlainSegment(g, r, s[j..]);
      assert s[j..][|g|..] == s[j + |g|..];
      Earlier(r, s, i + |g|, j + |g|);
    }
  }

  lemma NowhereSegment(g: string, r: string, s: string)
    requires StarFree(g) && g != "" && forall j :: 0 <= j < |s| ==> !Fits(g, s[j..])
    ensures !MatchesPrefix("*" + (g + r), s)
  {
    StarSegment(g + r, s);
    forall j | 0 <= j <= |s|
      ensures !MatchesPrefix(g + r, s[j..])
    {
      PlainSegment(g, r, s[j..]);
    }
  }

  // ------------------------------------------------------------ space sentinels

  lemma BlankAround(p: string, x: string)
    ensures Matches(" " + p + " ", x) <==>
      |x| >= 2 && x[0] == ' ' && x[|x| - 1] == ' ' && Matches(p, x[1..|x| - 1])
  {
    var w := " " + p + " ";
    assert w == " " + (p + " ");
    assert w[1..] == p + " ";
    if Matches(w, x) {
      var k := Split(p, " ", x[1..]);
      StarFreeMatches(" ", x[1..][k..]);
      assert x[1..][k..][0] == x[k + 1];
      assert x[1..][..k] == x[1..|x| - 1];
    }
    if |x| >= 2 && x[0] == ' ' && x[|x| - 1] == ' ' && Matches(p, x[1..|x| - 1]) {
      var y, k := x[1..], |x| - 2;
      assert y[..k] == x[1..|x| - 1] && y[k..] == " ";
      StarFreeMatches(" ", y[k..]);
      Join(p, " ", y, k);
    }
  }

  /** The end of `s` or a space in it. */
  predicate WordEnd(s: string, k: nat) {
    k == |s| || (k < |s| && s[k] == ' ')
  }

  /** The prefixes that the padded pattern finds in the padded text. */
  lemma PaddedPrefix(p: string, s: string)
    ensures MatchesPrefix(" " + p + " ", " " + s + " ") <==>
      exists k :: 0 <= k <= |s| && WordEnd(s, k) && Matches(p, s[..k])
  {
    hide Matches;
    var w, t := " " + p + " ", " " + s + " ";
    if MatchesPrefix(w, t) {
      var n :| 0 <= n <= |t| && Matches(w, t[..n]);
      BlankAround(p, t[..n]);
      PaddedSlice(s, n - 2);
      assert WordEnd(s, n - 2);
    }
    if k :| 0 <= k <= |s| && WordEnd(s, k) && Matches(p, s[..k]) {
      PaddedSlice(s, k);
      BlankAround(p, t[..k + 2]);
    }
  }

  lemma PaddedSlice(s: string, k: nat)
    requires k <= |s|
    ensures var x := (" " + s + " ")[..k + 2];
      x[0] == ' ' && x[1..k + 1] == s[..k] && (x[k + 1] == ' ' <==> WordEnd(s, k))
  {
  }
}

/** The matcher: segments between stars are looked for from left to right, each at the
    first place where it fits. */
module WildcardMatcher {
  import opened Letters
  import opened WildcardLanguage

  /** What is left of the pattern, with the star before it. */
  ghost function Rest(w: string, segmentStart: nat, afterStar: bool): string {
    if segmentStart > |w| then ""
    else if afterStar then "*" + w[segmentStart..]
    else w[segmentStart..]
  }

  function StarFrom(w: string, i: nat): (e: nat)
    requires i <= |w|
    ensures i <= e <= |w| && StarFree(w[i..e]) && (e < |w| ==> w[e] == '*')
    decreases |w| - i
  {
    if i == |w| || w[i] == '*' then i
    else
      var e := StarFrom(w, i + 1);
      assert w[i..e] == [w[i]] + w[i + 1..e];
      e
  }

  class StringWithWildcard {
    var original: string
    var wildcard: string
    var pos: nat

    constructor ()
    {
      original, wildcard, pos := "", "", 0;
    }

    /** Whether some prefix of `s` that ends at a space or at the end of `s` is in the
        language of `p`. */
    method IsMatch(s: string, p: string) returns (match_: bool)
      modifies this
      ensures match_ <==> exists k :: 0 <= k <= |s| && WordEnd(s, k) && Matches(p, s[..k])
    {
      hide MatchesPrefix, Matches, StarFrom;
      original := " " + s + " ";
      wildcard := " " + p + " ";
      pos := 0;
      PaddedPrefix(p, s);
      match_ := true;
      var segmentStart := 0;
      var afterStar := false;
      ghost var w, t := wildcard, original;
      assert w[0..] == w && t[0..] == t;
      while segmentStart < |wildcard|
        invariant wildcard == w && original == t && pos <= |t| && segmentStart <= |w| + 1
        invariant segmentStart == |w| + 1 ==> !afterStar
        invariant MatchesPrefix(w, t) <==> MatchesPrefix(Rest(w, segmentStart, afterStar), t[pos..])
        decreases |w| + 1 - segmentStart
      {
        var star := Find(wildcard, segmentStart);
        var segmentEnd := if star == -1 then |wildcard| else star;
        NextSegment(w, segmentStart, afterStar);
        var found := IsMatchSegment(segmentStart, segmentEnd, afterStar);
        if !found {
          match_ := false;
          break;
        }
        afterStar := star != -1;
        segmentStart := segmentEnd + 1;
      }
      if match_ {
        AtEnd(w, segmentStart, afterStar, t[pos..]);
      }
    }

    /** Matches one segment and moves past it; decides it for the whole rest of the pattern. */
    method IsMatchSegment(segmentStart: nat, segmentEnd: nat, lastEndWithAsterisk: bool) returns (found: bool)
      requires segmentStart <= segmentEnd <= |wildcard| && pos <= |original|
      requires segmentEnd == StarFrom(wildcard, segmentStart)
      modifies `pos
      ensures pos <= |original|
      ensures found ==>
        (MatchesPrefix(Rest(wildcard, segmentStart, lastEndWithAsterisk), original[old(pos)..]) <==>
         MatchesPrefix(wildcard[segmentEnd..], original[pos..]))
      ensures !found ==> !MatchesPrefix(Rest(wildcard, segmentStart, lastEndWithAsterisk), original[old(pos)..])
    {
      hide MatchesPrefix, Matches, StarFrom, Fits, FitsNowhere;
      ghost var g, r, s := wildcard[segmentStart..segmentEnd], wildcard[segmentEnd..], original[pos..];
      assert wildcard[segmentStart..] == g + r;
      if segmentStart >= segmentEnd {
        EmptySegment(r, s, lastEndWithAsterisk);
        return true;
      }
      if lastEndWithAsterisk {
        ghost var start, k := pos, 0;
        FitsNotYet(g, s);
        while pos < |original|
          invariant start <= pos <= |original| && k == pos - start && FitsNowhere(g, s, k)
        {
          var fits := MatchPureSegment(segmentStart, segmentEnd);
          Suffix(original, start, pos, k);
          if fits {
            FirstFit(g, r, s, k);
            Suffix(original, start, pos + |g|, k + |g|);
            pos := pos + (segmentEnd - segmentStart);
            return true;
          }
          FitsLater(g, s, k, k + 1);
          pos, k := pos + 1, k + 1;
        }
        EndOf(g, s);
        NowhereSegment(g, r, s);
      } else {
        PlainSegment(g, r, s);
        var fits := MatchPureSegment(segmentStart, segmentEnd);
        if fits {
          Suffix(original, pos, pos + |g|, |g|);
          pos := pos + (segmentEnd - segmentStart);
          return true;
        }
      }
      return false;
    }

    /** Whether a segment without stars fits at the current position. */
    method MatchPureSegment(segmentStart: nat, segmentEnd: nat) returns (fits: bool)
      requires segmentStart <= segmentEnd <= |wildcard| && pos <= |original|
      ensures fits <==> Fits(wildcard[segmentStart..segmentEnd], original[pos..])
      ensures fits ==> segmentEnd - segmentStart <= |original| - pos
    {
      ghost var g, s := wildcard[segmentStart..segmentEnd], original[pos..];
      if |original| - pos < segmentEnd - segmentStart {
        return false;
      }
      var i, n := segmentStart, pos;
      while i < segmentEnd
        invariant segmentStart <= i <= segmentEnd && n == pos + (i - segmentStart)
        invariant forall j :: 0 <= j < i - segmentStart ==> g[j] == '?' || g[j] == s[j]
      {
        assert g[i - segmentStart] == wildcard[i] && s[i - segmentStart] == original[n];
        if wildcard[i] != '?' && wildcard[i] != original[n] {
          return false;
        }
        i := i + 1;
        n := n + 1;
      }
      return true;
    }
  }

  /** The first star from `start` on, or -1. */
  method Find(w: string, start: nat) returns (i: int)
    requires start < |w|
    ensures i == if StarFrom(w, start) < |w| then StarFrom(w, start) else -1
  {
    i := start;
    while i < |w|
      invariant start <= i <= |w| && StarFrom(w, i) == StarFrom(w, start)
    {
      if w[i] == '*' {
        return;
      }
      i := i + 1;
    }
    i := -1;
  }

  /** The segment fits at none of the first `k` places. */
  ghost predicate FitsNowhere(g: string, s: string, k: nat)
    requires k <= |s|
  {
    forall j :: 0 <= j < k ==> !Fits(g, s[j..])
  }

  lemma FitsNotYet(g: string, s: string)
    ensures FitsNowhere(g, s, 0)
  {
  }

  lemma FitsLater(g: string, s: string, k: nat, k': nat)
    requires k < |s| && k' == k + 1 && FitsNowhere(g, s, k) && !Fits(g, s[k..])
    ensures FitsNowhere(g, s, k')
  {
    hide Fits;
  }

  lemma FirstFit(g: string, r: string, s: string, k: nat)
    requires StarFree(g) && (r == "" || r[0] == '*')
    requires k <= |s| && FitsNowhere(g, s, k) && Fits(g, s[k..])
    ensures k + |g| <= |s| && (MatchesPrefix("*" + (g + r), s) <==> MatchesPrefix(r, s[k + |g|..]))
  {
    LeftmostSegment(g, r, s, k);
  }

  lemma EndOf(g: string, s: string)
    ensures FitsNowhere(g, s, |s|) <==> forall j :: 0 <= j < |s| ==> !Fits(g, s[j..])
  {
  }

  lemma Suffix(s: string, start: nat, pos: nat, k: nat)
    requires start <= pos <= |s| && k == pos - start
    ensures s[start..][k..] == s[pos..]
  {
  }

  lemma NextSegment(w: string, segmentStart: nat, afterStar: bool)
    requires segmentStart < |w|
    ensures var e := StarFrom(w, segmentStart);
      Rest(w, e + 1, e < |w|) == w[e..]
  {
    var e := StarFrom(w, segmentStart);
    if e < |w| {
      assert w[e..] == ['*'] + w[e + 1..];
    }
  }

  lemma EmptySegment(r: string, s: string, afterStar: bool)
    requires r == "" || r[0] == '*'
    ensures MatchesPrefix(if afterStar then "*" + r else r, s) <==> MatchesPrefix(r, s)
  {
    if afterStar {
      StarSegment(r, s);
      assert s[0..] == s;
      if i :| 0 <= i <= |s| && MatchesPrefix(r, s[i..]) {
        Earlier(r, s, 0, i);
      }
    }
  }

  lemma AtEnd(w: string, segmentStart: nat, afterStar: bool, s: string)
    requires |w| <= segmentStart
    ensures MatchesPrefix(Rest(w, segmentStart, afterStar), s)
  {
    assert s[..0] == "" && s[0..] == s && ""[0..] == "";
    assert Matches("", s[..0]);
    if afterStar && segmentStart == |w| {
      assert w[segmentStart..] == "";
      assert ("*" + "")[1..] == "";
      assert Matches("*", s[..0]);
    }
  }

  // ---------------------------------------------------------------- consequences

  ghost predicate Accepts(s: string, p: string) {
    exists k :: 0 <= k <= |s| && WordEnd(s, k) && Matches(p, s[..k])
  }

  /** A text that matches as a whole is never rejected. */
  lemma NeverRejects(s: string, p: string)
    requires Matches(p, s)
    ensures Accepts(s, p)
  {
    assert s[..|s|] == s && WordEnd(s, |s|);
  }

  function Unknowns(k: nat): (q: string)
    ensures |q| == k
  {
    if k == 0 then "" else "?" + Unknowns(k - 1)
  }

  lemma {:induction false} UnknownsMatch(k: nat, s: string)
    ensures Matches(Unknowns(k), s) <==> |s| == k
    decreases k
  {
    if k > 0 && s != "" {
      assert Unknowns(k)[1..] == Unknowns(k - 1);
      UnknownsMatch(k - 1, s[1..]);
    }
  }

  /** The matcher decides the language for a text exactly when the text has no space. */
  lemma ExactIffNoSpace(s: string)
    ensures (forall p :: Accepts(s, p) <==> Matches(p, s)) <==> ' ' !in s
  {
    assert s[..|s|] == s;
    if ' ' in s {
      var k :| 0 <= k < |s| && s[k] == ' ';
      var p := Unknowns(k);
      UnknownsMatch(k, s[..k]);
      UnknownsMatch(k, s);
      assert WordEnd(s, k) && Accepts(s, p) && !Matches(p, s);
    } else {
      forall p
        ensures Accepts(s, p) <==> Matches(p, s)
      {
        if Matches(p, s) {
          NeverRejects(s, p);
        }
      }
    }
  }

  // ------------------------------------------------------------------ letter case

  function Upper(c: char): char {
    if 'a' <= c <= 'z' then c - 'a' + 'A' else c
  }

  function MakeUpper(s: string): (r: string)
    ensures |r| == |s| && forall i :: 0 <= i < |s| ==> r[i] == Upper(s[i])
  {
    if s == "" then "" else [Upper(s[0])] + MakeUpper(s[1..])
  }

  /** Two texts are the same in upper case exactly when they differ in letter case only. */
  lemma SameUpper(s: string, t: string)
    ensures MakeUpper(s) == MakeUpper(t) <==> SameText(s, t)
  {
    if MakeUpper(s) == MakeUpper(t) {
      assert |s| == |MakeUpper(s)| == |t|;
      forall i | 0 <= i < |s|
        ensures SameLetter(s[i], t[i])
      {
        assert Upper(s[i]) == MakeUpper(s)[i] == MakeUpper(t)[i] == Upper(t[i]);
      }
    }
  }

  /** The language with letters in either case. */
  ghost predicate MatchesAnyCase(p: string, s: string)
    decreases |p|
  {
    if p == "" then s == ""
    else if p[0] == '*' then exists k :: 0 <= k <= |s| && MatchesAnyCase(p[1..], s[k..])
    else s != "" && (p[0] == '?' || SameLetter(p[0], s[0])) && MatchesAnyCase(p[1..], s[1..])
  }

  lemma UpperSlices(s: string, k: nat)
    requires k <= |s|
    ensures MakeUpper(s)[..k] == MakeUpper(s[..k]) && MakeUpper(s)[k..] == MakeUpper(s[k..])
  {
    hide MakeUpper, Upper;
  }

  lemma UpperChar(c: char, d: char)
    ensures Upper(c) == Upper(d) <==> SameLetter(c, d)
    ensures (Upper(c) == '*' <==> c == '*') && (Upper(c) == '?' <==> c == '?') && (Upper(c) == ' ' <==> c == ' ')
  {
  }

  lemma {:induction false} UpperMatches(p: string, s: string)
    ensures Matches(MakeUpper(p), MakeUpper(s)) <==> MatchesAnyCase(p, s)
    decreases |p|
  {
    hide Upper, MakeUpper, SameLetter;
    if p != "" {
      var P, S := MakeUpper(p), MakeUpper(s);
      UpperSlices(p, 1);
      UpperChar(p[0], p[0]);
      if p[0] == '*' {
        forall k | 0 <= k <= |s|
          ensures Matches(P[1..], S[k..]) <==> MatchesAnyCase(p[1..], s[k..])
        {
          UpperSlices(s, k);
          UpperMatches(p[1..], s[k..]);
        }
      } else if s != "" {
        UpperSlices(s, 1);
        UpperChar(p[0], s[0]);
        UpperMatches(p[1..], s[1..]);
      }
    }
  }

  ghost predicate AcceptsAnyCase(s: string, p: string) {
    exists k :: 0 <= k <= |s| && WordEnd(s, k) && MatchesAnyCase(p, s[..k])
  }

  lemma UpperAccepts(s: string, p: string)
    ensures Accepts(MakeUpper(s), MakeUpper(p)) <==> AcceptsAnyCase(s, p)
  {
    hide Matches, MatchesAnyCase, MakeUpper, Upper;
    var S, P := MakeUpper(s), MakeUpper(p);
    forall k | 0 <= k <= |s|
      ensures Matches(P, S[..k]) <==> MatchesAnyCase(p, s[..k])
      ensures WordEnd(S, k) <==> WordEnd(s, k)
    {
      UpperSlices(s, k);
      UpperMatches(p, s[..k]);
      if k < |s| {
        UpperChar(s[k], s[k]);
      }
    }
  }

  /** Without case the answer is one for all texts and patterns that differ in case only. */
  lemma SameAnswer(s: string, p: string, s': string, p': string)
    requires SameText(s, s') && SameText(p, p')
    ensures AcceptsAnyCase(s, p) <==> AcceptsAnyCase(s', p')
  {
    hide AcceptsAnyCase, Accepts, MakeUpper;
    SameUpper(s, s');
    SameUpper(p, p');
    UpperAccepts(s, p);
    UpperAccepts(s', p');
  }

  /** The function other code calls; without `matchCase` a letter stands for both its cases. */
  method IsMatch(s: string, p: string, matchCase: bool) returns (r: bool)
    ensures r <==> if matchCase then Accepts(s, p) else AcceptsAnyCase(s, p)
  {
    var s', p' := s, p;
    if !matchCase {
      s', p' := MakeUpper(s), MakeUpper(p);
      UpperAccepts(s, p);
    }
    var matcher := new StringWithWildcard();
    r := matcher.IsMatch(s', p');
  }
}
