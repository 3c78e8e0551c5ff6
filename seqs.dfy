// Sequence helpers shared by the replacement rules: duplicate-freedom, the
// first-occurrence removal that a deque's remove(Object) performs, and prefixes.

module Seqs {

  /** No element occurs twice in `s`: the head is not repeated in the tail,
      and neither is anything else. */
  ghost predicate NoDup<T>(s: seq<T>)
    decreases |s|
  {
    s == [] || (s[0] !in s[1..] && NoDup(s[1..]))
  }

  /** Any two positions of `s` hold different elements. */
  ghost predicate Distinct<T>(s: seq<T>) {
    forall i, j :: 0 <= i < j < |s| ==> s[i] != s[j]
  }

  /** The recursive and the pairwise reading of duplicate-freedom agree. */
  lemma {:induction false} NoDupDistinct<T>(s: seq<T>)
    ensures NoDup(s) <==> Distinct(s)
    decreases |s|
  {
    if s != [] {
      NoDupDistinct(s[1..]);
      if Distinct(s) {
        assert Distinct(s[1..]) by {
          forall i, j | 0 <= i < j < |s| - 1 ensures s[1..][i] != s[1..][j] {
            assert s[i + 1] != s[j + 1];
          }
        }
        forall k | 0 <= k < |s| - 1 ensures s[1..][k] != s[0] {
          assert s[0] != s[k + 1];
        }
      }
      if NoDup(s) {
        forall i, j | 0 <= i < j < |s| ensures s[i] != s[j] {
          if i == 0 {
            assert s[j] == s[1..][j - 1];
          } else {
            assert s[i] == s[1..][i - 1] && s[j] == s[1..][j - 1];
          }
        }
      }
    }
  }

  function Min(a: int, b: int): int {
    if a <= b then a else b
  }

  /** The first `k` elements of `s`, or all of `s` when it is shorter. */
  function Take<T>(s: seq<T>, k: nat): (r: seq<T>)
    ensures |r| == Min(k, |s|)
  {
    if k <= |s| then s[..k] else s
  }

  /** Position of the first occurrence of `x` in `s`. */
  function IndexOf<T(==)>(s: seq<T>, x: T): (i: nat)
    requires x in s
    ensures i < |s| && s[i] == x
    ensures x !in s[..i]
  {
    if s[0] == x then 0
    else
      var j := IndexOf(s[1..], x);
      assert s[..j + 1] == [s[0]] + s[1..][..j];
      1 + j
  }

  /** `s` without the first occurrence of `x` (unchanged when `x` is absent). */
  function Remove<T(==)>(s: seq<T>, x: T): (r: seq<T>)
    ensures |r| == if x in s then |s| - 1 else |s|
  {
    if s == [] then []
    else if s[0] == x then s[1..]
    else [s[0]] + Remove(s[1..], x)
  }

  /** Removing the first `x` cuts `s` around the first occurrence of `x`. */
  lemma {:induction false} RemoveSlice<T>(s: seq<T>, x: T)
    requires x in s
    ensures Remove(s, x) == s[..IndexOf(s, x)] + s[IndexOf(s, x) + 1..]
    decreases |s|
  {
    if s[0] != x {
      RemoveSlice(s[1..], x);
      assert IndexOf(s, x) == 1 + IndexOf(s[1..], x);
    }
  }

  /** Removing one element from a duplicate-free sequence removes exactly that element. */
  lemma {:induction false} RemoveMembers<T>(s: seq<T>, x: T)
    requires NoDup(s)
    ensures NoDup(Remove(s, x))
    ensures forall y :: y in Remove(s, x) <==> y in s && y != x
    ensures |Remove(s, x)| == if x in s then |s| - 1 else |s|
    decreases |s|
  {
    if s != [] && s[0] != x {
      RemoveMembers(s[1..], x);
      var r := Remove(s, x);
      assert r == [s[0]] + Remove(s[1..], x);
      assert r[1..] == Remove(s[1..], x);
    }
  }

  /** An element left after removing `x` from a duplicate-free sequence was
      there before and is not `x`. */
  lemma RemoveKeeps<T>(s: seq<T>, x: T, y: T)
    requires NoDup(s) && y in Remove(s, x)
    ensures y in s && y != x
  {
    RemoveMembers(s, x);
  }

  /** Elements of a prefix and of a suffix of a duplicate-free sequence never coincide. */
  lemma {:induction false} NoDupSplit<T>(s: seq<T>, k: nat)
    requires NoDup(s) && k <= |s|
    ensures NoDup(s[..k]) && NoDup(s[k..])
    ensures forall y :: y in s[..k] ==> y !in s[k..]
    decreases k
  {
    if k > 0 {
      NoDupSplit(s[1..], k - 1);
      assert s[..k] == [s[0]] + s[1..][..k - 1];
      assert s[..k][1..] == s[1..][..k - 1];
      assert s[k..] == s[1..][k - 1..];
    }
  }

  /** The first occurrence is the one with no earlier occurrence. */
  lemma IndexOfUnique<T>(s: seq<T>, x: T, i: nat)
    requires i < |s| && s[i] == x && x !in s[..i]
    ensures IndexOf(s, x) == i
  {
  }

  lemma TakeTake<T>(s: seq<T>, k: nat, m: nat)
    requires m <= k
    ensures Take(Take(s, k), m) == Take(s, m)
  {
  }

  /** Removing an absent element changes nothing. */
  lemma {:induction false} RemoveAbsent<T>(s: seq<T>, x: T)
    requires x !in s
    ensures Remove(s, x) == s
    decreases |s|
  {
    if s != [] {
      RemoveAbsent(s[1..], x);
    }
  }

  /** Element `a` of `s` with the first `x` removed is element `a` or `a + 1` of `s`. */
  lemma RemoveAt<T>(s: seq<T>, x: T, a: nat)
    requires x in s && a < |s| - 1
    ensures Remove(s, x)[a] == s[if a < IndexOf(s, x) then a else a + 1]
  {
    RemoveSlice(s, x);
  }

  lemma TakeCons<T>(x: T, s: seq<T>, k: nat)
    requires 1 <= k
    ensures Take([x] + s, k) == [x] + Take(s, k - 1)
  {
  }

  /** A value missing from a prefix is first found past it. */
  lemma IndexPastPrefix<T>(s: seq<T>, k: nat, x: T)
    requires x in s && k <= |s| && x !in s[..k]
    ensures IndexOf(s, x) >= k
  {
  }
}
