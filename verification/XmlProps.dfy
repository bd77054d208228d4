/** Property lists with keys that are compared without regard to case, and what
    setting the properties of many lists, one after the other, leaves. */
module XmlProps {
  import opened Letters
  import opened Repeats
  import opened Wrappers
  import opened XmlText

  function Lower(c: char): char {
    if 'A' <= c <= 'Z' then c - 'A' + 'a' else c
  }

  function LowerCase(s: string): string {
    if s == "" then "" else [Lower(s[0])] + LowerCase(s[1..])
  }

  predicate SameKey(a: string, b: string) {
    LowerCase(a) == LowerCase(b)
  }

  lemma LowerFirst(a: string, b: string)
    requires a != "" && b != ""
    ensures SameKey(a, b) <==> SameLetter(a[0], b[0]) && SameKey(a[1..], b[1..])
  {
    assert LowerCase(a)[0] == Lower(a[0]) && LowerCase(a)[1..] == LowerCase(a[1..]);
    assert LowerCase(b)[0] == Lower(b[0]) && LowerCase(b)[1..] == LowerCase(b[1..]);
  }

  /** Keys are the same exactly when they differ in letter case only. */
  lemma {:induction false} SameKeyIs(a: string, b: string)
    ensures SameKey(a, b) <==> SameText(a, b)
    decreases |a|
  {
    if a != "" && b != "" {
      hide SameKey, SameLetter;
      LowerFirst(a, b);
      SameKeyIs(a[1..], b[1..]);
      if SameLetter(a[0], b[0]) && SameText(a[1..], b[1..]) {
        SameTextCons(a, b);
      }
    }
  }

  lemma SameTextCons(a: string, b: string)
    requires a != "" && b != "" && SameLetter(a[0], b[0]) && SameText(a[1..], b[1..])
    ensures SameText(a, b)
  {
    forall i | 1 <= i < |a|
      ensures SameLetter(a[i], b[i])
    {
      assert SameLetter(a[1..][i - 1], b[1..][i - 1]);
    }
  }

  /** The value of the first property with that key. */
  function Value(ps: seq<Prop>, key: string): Option<string> {
    if ps == [] then None
    else if SameKey(ps[0].key, key) then Some(ps[0].value)
    else Value(ps[1..], key)
  }

  /** The value of the last property with that key. */
  function LastValue(ps: seq<Prop>, key: string): Option<string> {
    if ps == [] then None
    else
      var later := LastValue(ps[1..], key);
      if later.Some? then later
      else if SameKey(ps[0].key, key) then Some(ps[0].value)
      else None
  }

  function SetProp(ps: seq<Prop>, key: string, value: string): seq<Prop> {
    if ps == [] then [Prop(key, value)]
    else if SameKey(ps[0].key, key) then [Prop(ps[0].key, value)] + ps[1..]
    else [ps[0]] + SetProp(ps[1..], key, value)
  }

  function SetAll(ps: seq<Prop>, qs: seq<Prop>): seq<Prop>
    decreases |qs|
  {
    if qs == [] then ps else SetAll(SetProp(ps, qs[0].key, qs[0].value), qs[1..])
  }

  /** The properties of the first list, overwritten by those of the others in turn. */
  function MergeProps(lists: seq<seq<Prop>>): seq<Prop> {
    if lists == [] then []
    else if |lists| == 1 then lists[0]
    else SetAll(MergeProps(lists[..|lists| - 1]), lists[|lists| - 1])
  }

  // ------------------------------------------------------------------- values

  lemma {:induction false} SetThenGet(ps: seq<Prop>, key: string, value: string, k: string)
    ensures Value(SetProp(ps, key, value), k) == if SameKey(key, k) then Some(value) else Value(ps, k)
    decreases |ps|
  {
    if ps != [] && !SameKey(ps[0].key, key) {
      SetThenGet(ps[1..], key, value, k);
      assert SetProp(ps, key, value)[1..] == SetProp(ps[1..], key, value);
    }
  }

  /** Setting overwrites the first property with the key, keeping how its key is written, or
      adds a last property when there is none. */
  lemma {:induction false} SetPropIs(ps: seq<Prop>, key: string, value: string)
    ensures forall i :: 0 <= i < |ps| && FirstDefining(ps, key, i) ==>
      SetProp(ps, key, value) == ps[i := Prop(ps[i].key, value)]
    ensures !Defines(ps, key) ==> SetProp(ps, key, value) == ps + [Prop(key, value)]
    decreases |ps|
  {
    hide SameKey;
    if ps != [] {
      var rest := ps[1..];
      if !SameKey(ps[0].key, key) {
        SetPropIs(rest, key, value);
        forall i | 0 <= i < |ps| && FirstDefining(ps, key, i)
          ensures SetProp(ps, key, value) == ps[i := Prop(ps[i].key, value)]
        {
          FirstInRest(ps, key, i);
          assert ps == [ps[0]] + rest;
        }
        DefinedInRest(ps, key);
      } else {
        forall i | 0 <= i < |ps| && FirstDefining(ps, key, i)
          ensures i == 0
        {
          FirstInRest(ps, key, i);
        }
        assert Defines(ps, key);
      }
    }
  }

  ghost predicate FirstDefining(ps: seq<Prop>, key: string, i: nat)
    requires i < |ps|
  {
    SameKey(ps[i].key, key) && forall j :: 0 <= j < i ==> !SameKey(ps[j].key, key)
  }

  lemma FirstInRest(ps: seq<Prop>, key: string, i: nat)
    requires i < |ps| && FirstDefining(ps, key, i)
    ensures i > 0 ==> !SameKey(ps[0].key, key) && FirstDefining(ps[1..], key, i - 1)
  {
    hide SameKey;
  }

  lemma DefinedInRest(ps: seq<Prop>, key: string)
    requires ps != []
    ensures Defines(ps[1..], key) ==> Defines(ps, key)
  {
    hide SameKey;
    if i :| 0 <= i < |ps[1..]| && SameKey(ps[1..][i].key, key) {
      assert SameKey(ps[i + 1].key, key);
    }
  }

  lemma {:induction false} SetAllThenGet(ps: seq<Prop>, qs: seq<Prop>, k: string)
    ensures Value(SetAll(ps, qs), k) == if LastValue(qs, k).Some? then LastValue(qs, k) else Value(ps, k)
    decreases |qs|
  {
    if qs != [] {
      SetThenGet(ps, qs[0].key, qs[0].value, k);
      SetAllThenGet(SetProp(ps, qs[0].key, qs[0].value), qs[1..], k);
    }
  }

  ghost predicate Defines(ps: seq<Prop>, k: string) {
    exists i :: 0 <= i < |ps| && SameKey(ps[i].key, k)
  }

  /** No two properties of the list have the same key. */
  ghost predicate Plain(ps: seq<Prop>) {
    forall i, j :: 0 <= i < j < |ps| ==> !SameKey(ps[i].key, ps[j].key)
  }

  lemma {:induction false} ValueDefined(ps: seq<Prop>, k: string)
    ensures Value(ps, k).Some? <==> Defines(ps, k)
    ensures LastValue(ps, k).Some? <==> Defines(ps, k)
    ensures Plain(ps) ==> LastValue(ps, k) == Value(ps, k)
    decreases |ps|
  {
    if ps != [] {
      var qs := ps[1..];
      ValueDefined(qs, k);
      assert Defines(ps, k) <==> SameKey(ps[0].key, k) || Defines(qs, k) by {
        if i :| 0 <= i < |qs| && SameKey(qs[i].key, k) {
          assert SameKey(ps[i + 1].key, k);
        }
        if i :| 0 <= i < |ps| && SameKey(ps[i].key, k) {
          assert i == 0 || SameKey(qs[i - 1].key, k);
        }
      }
      if SameKey(ps[0].key, k) && Defines(qs, k) {
        DefinedTwice(ps, k);
      }
    }
  }

  lemma DefinedTwice(ps: seq<Prop>, k: string)
    requires ps != [] && SameKey(ps[0].key, k) && Defines(ps[1..], k)
    ensures !Plain(ps)
  {
    var i :| 0 <= i < |ps[1..]| && SameKey(ps[1..][i].key, k);
    assert SameKey(ps[0].key, ps[i + 1].key);
  }

  /** After the merge every key has the value of the last list that defines it: there the last
      property with the key counts, in the list that the merge began with the first one. */
  lemma {:induction false} MergedValue(lists: seq<seq<Prop>>, k: string, n: nat)
    requires n < |lists| && Defines(lists[n], k)
    requires forall i :: n < i < |lists| ==> !Defines(lists[i], k)
    ensures Value(MergeProps(lists), k) == if n == 0 then Value(lists[0], k) else LastValue(lists[n], k)
    decreases |lists|
  {
    var last := |lists| - 1;
    if |lists| > 1 {
      SetAllThenGet(MergeProps(lists[..last]), lists[last], k);
      ValueDefined(lists[last], k);
      if n < last {
        MergedValue(lists[..last], k, n);
      }
    }
  }

  /** When that list has no two properties with one key, it is the value that it gives. */
  lemma MergedPlainValue(lists: seq<seq<Prop>>, k: string, n: nat)
    requires n < |lists| && Defines(lists[n], k) && Plain(lists[n])
    requires forall i :: n < i < |lists| ==> !Defines(lists[i], k)
    ensures Value(MergeProps(lists), k) == Value(lists[n], k)
  {
    MergedValue(lists, k, n);
    ValueDefined(lists[n], k);
  }

  lemma {:induction false} MergedUndefined(lists: seq<seq<Prop>>, k: string)
    requires forall i :: 0 <= i < |lists| ==> !Defines(lists[i], k)
    ensures Value(MergeProps(lists), k) == None
    decreases |lists|
  {
    var last := |lists| - 1;
    if |lists| > 1 {
      SetAllThenGet(MergeProps(lists[..last]), lists[last], k);
      MergedUndefined(lists[..last], k);
    }
    if |lists| > 0 {
      ValueDefined(lists[last], k);
    }
  }

  // --------------------------------------------------------------------- keys

  function Keys(ps: seq<Prop>): seq<string> {
    if ps == [] then [] else [LowerCase(ps[0].key)] + Keys(ps[1..])
  }

  function AllKeys(lists: seq<seq<Prop>>): seq<string> {
    if lists == [] then [] else AllKeys(lists[..|lists| - 1]) + Keys(lists[|lists| - 1])
  }

  function FirstIndex(s: seq<string>, x: string): (i: nat)
    requires x in s
    ensures i < |s| && s[i] == x && x !in s[..i]
  {
    if s[0] == x then 0
    else
      var i := FirstIndex(s[1..], x);
      assert s[..i + 1] == [s[0]] + s[1..][..i];
      i + 1
  }

  /** `r` has the elements of `all`, each once, ordered by where they occur first. */
  ghost predicate FirstOccurrences(r: seq<string>, all: seq<string>) {
    && (forall x :: x in r <==> x in all)
    && (forall i, j :: 0 <= i < j < |r| ==> r[i] in all && r[j] in all && FirstIndex(all, r[i]) < FirstIndex(all, r[j]))
  }

  lemma {:induction false} FirstIndexKept(s: seq<string>, t: seq<string>, x: string)
    requires x in s
    ensures x in s + t && FirstIndex(s + t, x) == FirstIndex(s, x)
    decreases |s|
  {
    if s[0] != x {
      assert (s + t)[1..] == s[1..] + t;
      FirstIndexKept(s[1..], t, x);
    }
  }

  lemma {:induction false} FirstIndexNew(s: seq<string>, x: string)
    requires x !in s
    ensures FirstIndex(s + [x], x) == |s|
    decreases |s|
  {
    if s != [] {
      assert (s + [x])[1..] == s[1..] + [x];
      FirstIndexNew(s[1..], x);
    }
  }

  lemma AddOccurrence(r: seq<string>, all: seq<string>, x: string)
    requires FirstOccurrences(r, all)
    ensures FirstOccurrences(if x in r then r else r + [x], all + [x])
  {
    hide FirstIndex;
    var r' := if x in r then r else r + [x];
    forall i, j | 0 <= i < j < |r'|
      ensures r'[i] in all + [x] && r'[j] in all + [x] && FirstIndex(all + [x], r'[i]) < FirstIndex(all + [x], r'[j])
    {
      FirstIndexKept(all, [x], r'[i]);
      if j < |r| {
        FirstIndexKept(all, [x], r'[j]);
      } else {
        FirstIndexNew(all, x);
      }
    }
  }

  lemma {:induction false} KeysSet(ps: seq<Prop>, key: string, value: string)
    ensures Keys(SetProp(ps, key, value)) ==
      if LowerCase(key) in Keys(ps) then Keys(ps) else Keys(ps) + [LowerCase(key)]
    decreases |ps|
  {
    if ps == [] {
      assert [Prop(key, value)][1..] == [];
    } else {
      var rest := SetProp(ps[1..], key, value);
      if SameKey(ps[0].key, key) {
        assert ([Prop(ps[0].key, value)] + ps[1..])[1..] == ps[1..];
      } else {
        KeysSet(ps[1..], key, value);
        assert ([ps[0]] + rest)[1..] == rest;
      }
    }
  }

  lemma {:induction false} KeysSetAll(ps: seq<Prop>, qs: seq<Prop>, all: seq<string>)
    requires FirstOccurrences(Keys(ps), all)
    ensures FirstOccurrences(Keys(SetAll(ps, qs)), all + Keys(qs))
    decreases |qs|
  {
    hide FirstOccurrences, SetProp;
    if qs == [] {
      assert all + Keys(qs) == all;
    } else {
      var key := LowerCase(qs[0].key);
      KeysSet(ps, qs[0].key, qs[0].value);
      AddOccurrence(Keys(ps), all, key);
      KeysSetAll(SetProp(ps, qs[0].key, qs[0].value), qs[1..], all + [key]);
      assert all + [key] + Keys(qs[1..]) == all + Keys(qs);
    }
  }

  lemma {:induction false} PlainKeys(ps: seq<Prop>)
    ensures |Keys(ps)| == |ps| && forall i :: 0 <= i < |ps| ==> Keys(ps)[i] == LowerCase(ps[i].key)
    decreases |ps|
  {
    if ps != [] {
      PlainKeys(ps[1..]);
    }
  }

  lemma {:induction false} FirstIndexOfPlain(s: seq<string>, i: nat)
    requires NoRepeats(s) && i < |s|
    ensures FirstIndex(s, s[i]) == i
    decreases |s|
  {
    if i > 0 {
      assert s[0] != s[i] && s[1..][i - 1] == s[i];
      FirstIndexOfPlain(s[1..], i - 1);
    }
  }

  lemma PlainOccurrences(ks: seq<string>)
    requires NoRepeats(ks)
    ensures FirstOccurrences(ks, ks)
  {
    hide FirstIndex;
    forall i, j | 0 <= i < j < |ks|
      ensures ks[i] in ks && ks[j] in ks && FirstIndex(ks, ks[i]) < FirstIndex(ks, ks[j])
    {
      FirstIndexOfPlain(ks, i);
      FirstIndexOfPlain(ks, j);
    }
  }

  /** After the merge the keys of all lists are there, each once, in the order in which
      they first occur. */
  lemma {:induction false} MergedKeys(lists: seq<seq<Prop>>)
    requires lists != [] && Plain(lists[0])
    ensures FirstOccurrences(Keys(MergeProps(lists)), AllKeys(lists))
    decreases |lists|
  {
    hide FirstOccurrences, Keys, SetAll;
    var last := |lists| - 1;
    if last == 0 {
      PlainKeys(lists[0]);
      PlainOccurrences(Keys(lists[0]));
      assert AllKeys(lists) == Keys(lists[0]) by {
        assert lists[..0] == [];
      }
    } else {
      assert lists[..last][0] == lists[0];
      MergedKeys(lists[..last]);
      KeysSetAll(MergeProps(lists[..last]), lists[last], AllKeys(lists[..last]));
    }
  }
}
