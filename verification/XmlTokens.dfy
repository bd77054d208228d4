/** Where the tokens of a text lie, told from the characters alone. */
module XmlTokens {
  import opened Wrappers
  import opened XmlText

  /** A backslash takes the character behind it, when a scan begins at `i`. */
  ghost predicate Taken(s: string, i: nat, k: nat)
    requires k <= |s|
    decreases k
  {
    k > i && s[k - 1] == '\\' && !Taken(s, i, k - 1)
  }

  ghost predicate QuoteAt(s: string, i: nat, k: nat)
    requires k < |s|
  {
    s[k] == '"' && !Taken(s, i, k)
  }

  /** The quotes from `i` up to `k` that no backslash takes. */
  ghost function Quotes(s: string, i: nat, k: nat): nat
    requires i <= k <= |s|
    decreases k
  {
    if k == i then 0 else Quotes(s, i, k - 1) + if QuoteAt(s, i, k - 1) then 1 else 0
  }

  /** A '>' that no backslash takes, with each quote before it closed. */
  ghost predicate Ends(s: string, i: nat, k: nat) {
    i <= k < |s| && s[k] == '>' && !Taken(s, i, k) && Quotes(s, i, k) % 2 == 0
  }

  ghost predicate FirstEnd(s: string, i: nat, e: nat) {
    i < e && Ends(s, i, e - 1) && forall k: nat :: i <= k < e - 1 ==> !Ends(s, i, k)
  }

  lemma {:induction false} TagEndFrom(s: string, i: nat, j: nat, quoted: bool)
    requires i <= j && (j <= |s| ==> !Taken(s, i, j) && quoted == (Quotes(s, i, j) % 2 == 1))
    ensures var r := TagEnd(s, j, quoted);
      if r.Some? then Ends(s, i, r.value - 1) && forall k: nat :: j <= k < r.value - 1 ==> !Ends(s, i, k)
      else forall k: nat :: j <= k ==> !Ends(s, i, k)
    decreases |s| - j
  {
    if j < |s| {
      var d, q := if s[j] == '\\' then 2 else 1, if s[j] == '"' then !quoted else quoted;
      if s[j] != '>' || quoted {
        assert Quotes(s, i, j + 1) == Quotes(s, i, j) + if s[j] == '"' then 1 else 0;
        TagEndFrom(s, i, j + d, q);
      }
    }
  }

  /** A tag ends behind the first '>' that is outside quotes and not escaped. */
  lemma TagEndExactly(s: string, i: nat, e: nat)
    requires i <= |s|
    ensures TagEnd(s, i, false) == Some(e) <==> FirstEnd(s, i, e)
  {
    hide TagEnd, Ends;
    TagEndFrom(s, i, i, false);
  }

  lemma {:induction false} OpenFromFirst(s: string, pos: nat, i: nat)
    requires pos <= i <= |s| && forall k :: pos <= k < i ==> s[k] != '<'
    requires i < |s| ==> s[i] == '<'
    ensures OpenFrom(s, pos) == i
    decreases i - pos
  {
    if pos < i {
      OpenFromFirst(s, pos + 1, i);
    }
  }

  /** The next token is the text from the next '<' to the end of that tag; there is none
      when there is no further '<' or that tag has no end. */
  lemma NextTokenExactly(s: string, pos: nat, i: nat)
    requires pos <= i <= |s| && forall k :: pos <= k < i ==> s[k] != '<'
    requires i < |s| ==> s[i] == '<'
    ensures forall e: nat :: i < e <= |s| && FirstEnd(s, i, e) ==> NextToken(s, pos) == Some(Token(s[i..e], e))
    ensures (forall e: nat :: !FirstEnd(s, i, e)) ==> NextToken(s, pos) == None
  {
    hide TagEnd, FirstEnd;
    OpenFromFirst(s, pos, i);
    forall e: nat
      ensures TagEnd(s, i, false) == Some(e) <==> FirstEnd(s, i, e)
    {
      TagEndExactly(s, i, e);
    }
  }
}
