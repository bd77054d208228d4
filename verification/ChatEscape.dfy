/** Escaping chat texts: '^' and '&' get a '^' before them. */
module ChatEscape {

  function EscapeChar(c: char): string {
    if c == '^' then "^^" else if c == '&' then "^&" else [c]
  }

  function Escape(s: string): string {
    if s == "" then "" else EscapeChar(s[0]) + Escape(s[1..])
  }

  /** Drops the '^' of every pair; a lone '^' at the end stands for itself. */
  function Unescape(t: string): string {
    if t == "" then ""
    else if t[0] == '^' && |t| > 1 then [t[1]] + Unescape(t[2..])
    else [t[0]] + Unescape(t[1..])
  }

  /** Writes the escape of `chat` and a terminator. */
  method ConvertChatString(chat: string, conv: array<char>)
    requires |Escape(chat)| < conv.Length
    modifies conv
    ensures conv[..|Escape(chat)|] == Escape(chat) && conv[|Escape(chat)|] == '\0'
    ensures forall k :: |Escape(chat)| < k < conv.Length ==> conv[k] == old(conv[k])
  {
    hide Escape;
    EscapeNone();
    var n := 0;
    conv[0] := '\0';
    assert chat[..|chat|] == chat && chat[..0] == "";
    for i := 0 to |chat|
      invariant n == |Escape(chat[..i])| && n <= |Escape(chat)| && conv[..n] == Escape(chat[..i])
      invariant forall k :: |Escape(chat)| < k < conv.Length ==> conv[k] == old(conv[k])
    {
      EscapeStep(chat, i);
      EscapeGrows(chat, i + 1);
      n := Put(conv, n, chat[i]);
    }
    conv[n] := '\0';
  }

  /** Writes the escape of a character. */
  method Put(conv: array<char>, n: nat, c: char) returns (n': nat)
    requires n + |EscapeChar(c)| <= conv.Length
    modifies conv
    ensures n' == n + |EscapeChar(c)|
    ensures conv[..n'] == old(conv[..n]) + EscapeChar(c)
    ensures forall k :: n' <= k < conv.Length ==> conv[k] == old(conv[k])
  {
    if c == '^' {
      conv[n] := '^';
      conv[n + 1] := '^';
      n' := n + 2;
    } else if c == '&' {
      conv[n] := '^';
      conv[n + 1] := '&';
      n' := n + 2;
    } else {
      conv[n] := c;
      n' := n + 1;
    }
  }

  /** The bounded form: writes the escape of as much of `chat` as fits, and a terminator. */
  method ConvertChatStringBounded(chat: string, chatLen: int, conv: array<char>, convLen: int) returns (ghost k: nat)
    requires 1 <= convLen <= conv.Length
    modifies conv
    ensures k <= |chat| && (k <= chatLen || k == 0)
    ensures |Escape(chat[..k])| < convLen
    ensures conv[..|Escape(chat[..k])|] == Escape(chat[..k]) && conv[|Escape(chat[..k])|] == '\0'
    ensures forall j :: convLen <= j < conv.Length ==> conv[j] == old(conv[j])
    ensures k < |chat| && k < chatLen ==> |Escape(chat[..k])| >= convLen - 2
    ensures forall j :: 0 <= j < k ==> |Escape(chat[..j])| < convLen - 2
  {
    hide Escape;
    EscapeNone();
    var limit := if chatLen < |chat| then chatLen else |chat|;
    conv[0] := '\0';
    var i, n := 0, 0;
    assert chat[..0] == "";
    while i < limit && n < convLen - 2
      invariant 0 <= i <= |chat| && (i <= limit || i == 0)
      invariant n == |Escape(chat[..i])| < convLen && conv[..n] == Escape(chat[..i])
      invariant forall j :: convLen <= j < conv.Length ==> conv[j] == old(conv[j])
      invariant forall j :: 0 <= j < i ==> |Escape(chat[..j])| < convLen - 2
    {
      EscapeStep(chat, i);
      n := Put(conv, n, chat[i]);
      i := i + 1;
    }
    conv[n] := '\0';
    k := i;
  }

  lemma EscapeNone()
    ensures Escape("") == ""
  {
  }

  lemma {:induction false} EscapeConcat(a: string, b: string)
    ensures Escape(a + b) == Escape(a) + Escape(b)
    decreases |a|
  {
    if a == "" {
      assert a + b == b;
    } else {
      assert (a + b)[1..] == a[1..] + b;
      EscapeConcat(a[1..], b);
    }
  }

  lemma EscapeStep(s: string, i: nat)
    requires i < |s|
    ensures Escape(s[..i + 1]) == Escape(s[..i]) + EscapeChar(s[i])
  {
    assert s[..i + 1] == s[..i] + [s[i]];
    EscapeConcat(s[..i], [s[i]]);
    assert Escape([s[i]]) == EscapeChar(s[i]);
  }

  lemma EscapeGrows(s: string, i: nat)
    requires i <= |s|
    ensures |Escape(s[..i])| <= |Escape(s)|
  {
    assert s == s[..i] + s[i..];
    EscapeConcat(s[..i], s[i..]);
  }

  // ------------------------------------------------------------------ properties

  /** Unescaping the escaped text gives back the text. */
  lemma {:induction false} EscapeRoundTrip(s: string)
    ensures Unescape(Escape(s)) == s
    decreases |s|
  {
    if s != "" {
      EscapeRoundTrip(s[1..]);
      var t, rest := Escape(s), Escape(s[1..]);
      if s[0] == '^' || s[0] == '&' {
        assert t[2..] == rest;
      } else {
        assert t[1..] == rest;
      }
    }
  }

  /** The texts that are escapes of something: those in which every '^' starts a pair. */
  predicate Paired(t: string) {
    t == "" ||
    (if t[0] == '^' then |t| > 1 && (t[1] == '^' || t[1] == '&') && Paired(t[2..])
     else t[0] != '&' && Paired(t[1..]))
  }

  /** Escaping loses nothing and never cuts a pair: its results are exactly the paired texts. */
  lemma {:induction false} EscapePaired(t: string)
    ensures Paired(t) <==> Escape(Unescape(t)) == t
    decreases |t|
  {
    if t != "" {
      if t[0] == '^' && |t| > 1 {
        EscapePaired(t[2..]);
        assert Unescape(t)[1..] == Unescape(t[2..]);
        assert t == [t[0]] + [t[1]] + t[2..];
        if Escape(Unescape(t)) == t {
          assert Escape(Unescape(t)) == EscapeChar(t[1]) + Escape(Unescape(t[2..]));
          assert (EscapeChar(t[1]) + Escape(Unescape(t[2..])))[0] == t[0] == '^';
          assert |EscapeChar(t[1])| == 2;
          assert t[2..] == Escape(Unescape(t[2..]));
        }
      } else {
        EscapePaired(t[1..]);
        assert Unescape(t)[1..] == Unescape(t[1..]);
        assert Escape(Unescape(t)) == EscapeChar(t[0]) + Escape(Unescape(t[1..]));
        assert t == [t[0]] + t[1..];
        assert (EscapeChar('&') + Escape(Unescape(t[1..])))[0] == '^';
        if Escape(Unescape(t)) == t {
          assert t[0] == '^' ==> |EscapeChar('^')| == 2;
          assert t[1..] == Escape(Unescape(t[1..]));
        }
      }
    }
  }

  /** What the bounded form leaves in the buffer is made of whole pairs and unescapes to the
      part of the text that fitted. */
  lemma BoundedPrefix(s: string, k: nat)
    requires k <= |s|
    ensures Paired(Escape(s[..k])) && Unescape(Escape(s[..k])) == s[..k]
  {
    EscapeRoundTrip(s[..k]);
    EscapePaired(Escape(s[..k]));
  }
}
