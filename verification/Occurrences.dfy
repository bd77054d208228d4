/** Texts that occur at a position of a longer text. */
module Occurrences {

  ghost predicate At(s: string, pos: nat, x: string) {
    pos + |x| <= |s| && s[pos..pos + |x|] == x
  }

  lemma AtStart(s: string)
    ensures At(s, 0, s)
  {
  }

  lemma AtConcat(s: string, pos: nat, a: string, b: string)
    ensures At(s, pos, a + b) <==> At(s, pos, a) && At(s, pos + |a|, b)
  {
    if pos + |a| + |b| <= |s| {
      var x := s[pos..pos + |a| + |b|];
      assert x[..|a|] == s[pos..pos + |a|] && x[|a|..] == s[pos + |a|..pos + |a| + |b|];
      assert x == x[..|a|] + x[|a|..];
    }
  }

  lemma AtIndex(s: string, pos: nat, x: string)
    requires At(s, pos, x)
    ensures pos + |x| <= |s| && forall k :: pos <= k < pos + |x| ==> s[k] == x[k - pos]
  {
    forall k | pos <= k < pos + |x|
      ensures s[k] == x[k - pos]
    {
      assert s[k] == s[pos..pos + |x|][k - pos];
    }
  }

  lemma AtConcat3(s: string, pos: nat, a: string, b: string, c: string)
    requires At(s, pos, a + b + c)
    ensures At(s, pos, a) && At(s, pos + |a|, b) && At(s, pos + |a| + |b|, c)
  {
    AtConcat(s, pos, a + b, c);
    AtConcat(s, pos, a, b);
  }
}
