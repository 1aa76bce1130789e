/**
 * Go's ordering of strings and `sortedKeys` (main.go:194-202): the keys of
 * a map collected in whatever order the map yields them, then put in
 * ascending order by `sort.Strings`.
 *
 * Go compares strings byte by byte on their UTF-8 encoding; for strings of
 * Unicode scalar values that is the lexicographic order of code points.
 */
module StringOrder {

  /** a sorts strictly before b: a proper prefix of b, or smaller at the first difference. */
  predicate Less(a: string, b: string) {
    if a == [] then b != []
    else if b == [] then false
    else if a[0] != b[0] then a[0] < b[0]
    else Less(a[1..], b[1..])
  }

  /** a does not sort after b. */
  predicate LessEq(a: string, b: string) {
    !Less(b, a)
  }

  lemma {:induction false} LessIrreflexive(a: string)
    ensures !Less(a, a)
  {
    if a != [] {
      LessIrreflexive(a[1..]);
    }
  }

  lemma {:induction false} LessTransitive(a: string, b: string, c: string)
    requires Less(a, b) && Less(b, c)
    ensures Less(a, c)
  {
    if a != [] && a[0] == b[0] && b[0] == c[0] {
      LessTransitive(a[1..], b[1..], c[1..]);
    }
  }

  /** Any two different strings are ordered one way, and only one way. */
  lemma {:induction false} LessTotal(a: string, b: string)
    ensures a == b || Less(a, b) || Less(b, a)
    ensures !(Less(a, b) && Less(b, a))
  {
    if a != [] && b != [] && a[0] == b[0] {
      LessTotal(a[1..], b[1..]);
      assert a == [a[0]] + a[1..] && b == [b[0]] + b[1..];
    }
  }

  lemma LessEqTransitive(a: string, b: string, c: string)
    requires LessEq(a, b) && LessEq(b, c)
    ensures LessEq(a, c)
  {
    if Less(c, a) {
      LessTotal(a, b);
      if a != b {
        LessTransitive(c, a, b);
      }
    }
  }

  predicate StrictlyAscending(s: seq<string>) {
    forall i, j :: 0 <= i < j < |s| ==> Less(s[i], s[j])
  }

  predicate Distinct(s: seq<string>) {
    forall i, j :: 0 <= i < j < |s| ==> s[i] != s[j]
  }

  /** In ascending order, one string after another, so each appears once. */
  lemma StrictlyAscendingIsDistinct(s: seq<string>)
    requires StrictlyAscending(s)
    ensures Distinct(s)
  {
    forall i, j | 0 <= i < j < |s|
      ensures s[i] != s[j]
    {
      LessIrreflexive(s[i]);
    }
  }

  /** Sort `a` into ascending order in place (the algorithm of `sort.Strings` is not fixed; this is insertion sort). */
  method SortStrings(a: array<string>)
    modifies a
    ensures forall i, j :: 0 <= i < j < a.Length ==> LessEq(a[i], a[j])
    ensures multiset(a[..]) == old(multiset(a[..]))
  {
    var i := 0;
    while i < a.Length
      invariant 0 <= i <= a.Length
      invariant forall x, y :: 0 <= x < y < i ==> LessEq(a[x], a[y])
      invariant multiset(a[..]) == old(multiset(a[..]))
    {
      InsertString(a, i);
      i := i + 1;
    }
  }

  /** Move a[i] left past every string that sorts after it. */
  method InsertString(a: array<string>, i: int)
    requires 0 <= i < a.Length
    requires forall x, y :: 0 <= x < y < i ==> LessEq(a[x], a[y])
    modifies a
    ensures forall x, y :: 0 <= x < y <= i ==> LessEq(a[x], a[y])
    ensures a[i + 1..] == old(a[i + 1..])
    ensures multiset(a[..]) == old(multiset(a[..]))
  {
    var j := i;
    while j > 0 && Less(a[j], a[j - 1])
      invariant 0 <= j <= i
      invariant forall x, y :: 0 <= x < y <= i && x != j && y != j ==> LessEq(a[x], a[y])
      invariant forall y :: j < y <= i ==> Less(a[j], a[y])
      invariant forall k :: i < k < a.Length ==> a[k] == old(a[k])
      invariant multiset(a[..]) == old(multiset(a[..]))
    {
      a[j - 1], a[j] := a[j], a[j - 1];
      j := j - 1;
    }
    forall x, y | 0 <= x < y <= i
      ensures LessEq(a[x], a[y])
    {
      if y == j {
        if x < j - 1 {
          LessEqTransitive(a[x], a[j - 1], a[j]);
        }
      } else if x == j {
        LessTotal(a[x], a[y]);
      }
    }
  }

  lemma {:induction false} DistinctCount(t: seq<string>, x: string)
    requires Distinct(t)
    ensures multiset(t)[x] <= 1
  {
    if t != [] {
      var prefix := t[..|t| - 1];
      assert t == prefix + [t[|t| - 1]];
      DistinctCount(prefix, x);
      if x == t[|t| - 1] {
        assert x !in prefix;
      }
    }
  }

  lemma RepeatCount(s: seq<string>, i: int, j: int)
    requires 0 <= i < j < |s| && s[i] == s[j]
    ensures multiset(s)[s[i]] >= 2
  {
    assert s == s[..j] + [s[j]] + s[j + 1..];
    assert s[i] in s[..j];
  }

  /** A rearrangement of distinct strings is distinct. */
  lemma DistinctPermutation(s: seq<string>, t: seq<string>)
    requires multiset(s) == multiset(t) && Distinct(t)
    ensures Distinct(s)
  {
    forall i, j | 0 <= i < j < |s|
      ensures s[i] != s[j]
    {
      if s[i] == s[j] {
        RepeatCount(s, i, j);
        DistinctCount(t, s[i]);
      }
    }
  }

  /** `sortedKeys`: the keys of m, each once, in ascending order. */
  method SortedKeys<V>(m: map<string, V>) returns (keys: seq<string>)
    ensures StrictlyAscending(keys)
    ensures forall k :: k in keys <==> k in m
    ensures |keys| == |m|
  {
    var a := new string[|m|];
    var rest := m.Keys;
    var n := 0;
    while rest != {}
      invariant rest <= m.Keys
      invariant n + |rest| == |m|
      invariant forall x :: 0 <= x < n ==> a[x] in m && a[x] !in rest
      invariant forall k :: k in m ==> k in rest || k in a[..n]
      invariant Distinct(a[..n])
    {
      var k :| k in rest;
      ghost var before := a[..n];
      a[n] := k;
      assert a[..n + 1] == before + [k];
      n := n + 1;
      rest := rest - {k};
    }
    ghost var collected := a[..];
    assert collected == a[..n];
    SortStrings(a);
    keys := a[..];
    assert multiset(keys) == multiset(collected);
    DistinctPermutation(keys, collected);
    forall i, j | 0 <= i < j < |keys|
      ensures Less(keys[i], keys[j])
    {
      LessTotal(keys[i], keys[j]);
    }
    forall k
      ensures k in keys <==> k in m
    {
      assert k in keys <==> k in multiset(keys);
      assert k in collected <==> k in multiset(collected);
    }
  }
}
