// What the deque strategies keep, stated independently of how each request
// rearranges the deque: LRU holds the most recently used distinct pages in
// order of their last use, FIFO holds the most recently loaded pages, and MRU
// evicts the page requested just before the miss.

module Orders {
  import opened Seqs
  import opened Rules
  import opened Simulation
  import opened Properties

  /** Index of the last request for `q` in `ps`. */
  function LastUse<T(==)>(ps: seq<T>, q: T): (i: nat)
    requires q in ps
    ensures i < |ps| && ps[i] == q
    decreases |ps|
  {
    var n := |ps| - 1;
    if ps[n] == q then n
    else
      assert ps == ps[..n] + [ps[n]];
      LastUse(ps[..n], q)
  }

  /** No request for `q` follows its last use. */
  lemma {:induction false} LastUseIsLast<T>(ps: seq<T>, q: T)
    requires q in ps
    ensures q !in ps[LastUse(ps, q) + 1..]
    decreases |ps|
  {
    var n := |ps| - 1;
    if ps[n] != q {
      assert ps == ps[..n] + [ps[n]];
      LastUseIsLast(ps[..n], q);
      var i := LastUse(ps, q);
      assert ps[i + 1..] == ps[..n][i + 1..] + [ps[n]];
    }
  }

  /** The distinct pages of `ps`, the most recently requested first. */
  function Recency<T(==)>(ps: seq<T>): (r: seq<T>)
    ensures NoDup(r)
    ensures forall q :: q in r ==> q in ps
    ensures forall q :: q in ps ==> q in r
    decreases |ps|
  {
    if ps == [] then []
    else
      var r' := Recency(ps[..|ps| - 1]);
      PushMembers(ps, r');
      [ps[|ps| - 1]] + Remove(r', ps[|ps| - 1])
  }

  /** Moving the last request of `ps` to the head of a duplicate-free list of
      the earlier requests' pages gives a duplicate-free list of the pages of `ps`. */
  lemma PushMembers<T>(ps: seq<T>, r': seq<T>)
    requires ps != [] && NoDup(r')
    requires forall q :: q in r' ==> q in ps[..|ps| - 1]
    requires forall q :: q in ps[..|ps| - 1] ==> q in r'
    ensures var r := [ps[|ps| - 1]] + Remove(r', ps[|ps| - 1]);
      && NoDup(r) && (forall q :: q in r ==> q in ps) && (forall q :: q in ps ==> q in r)
  {
    var pre := ps[..|ps| - 1];
    var p := ps[|ps| - 1];
    var rest := Remove(r', p);
    RemoveMembers(r', p);
    assert ps == pre + [p];
    var r := [p] + rest;
    assert r[1..] == rest;
    assert forall q :: q in r ==> q == p || q in rest;
    assert NoDup(r);
    assert forall q :: q in r ==> q in ps;
    assert forall q :: q in ps ==> q in r;
  }

  /** A page other than the last request was last requested within the prefix. */
  lemma LastUseBefore<T>(ps: seq<T>, x: T)
    requires x in ps && x != ps[|ps| - 1]
    ensures x in ps[..|ps| - 1] && LastUse(ps, x) == LastUse(ps[..|ps| - 1], x)
  {
    assert ps == ps[..|ps| - 1] + [ps[|ps| - 1]];
  }

  /** Pages of `r` appear in decreasing order of their last request in `ps`. */
  ghost predicate ByLastUse<T>(ps: seq<T>, r: seq<T>)
    requires forall q :: q in r ==> q in ps
  {
    forall i, j :: 0 <= i < j < |r| ==> LastUse(ps, r[i]) > LastUse(ps, r[j])
  }

  /** Removing one page from a list ordered by last use keeps the others' order. */
  lemma RemoveKeepsOrder<T>(ps: seq<T>, r: seq<T>, x: T, a: nat, b: nat)
    requires (forall q :: q in r ==> q in ps) && ByLastUse(ps, r)
    requires a < b < |Remove(r, x)|
    ensures Remove(r, x)[a] in r && Remove(r, x)[b] in r
    ensures LastUse(ps, Remove(r, x)[a]) > LastUse(ps, Remove(r, x)[b])
  {
    if x in r {
      RemoveAt(r, x, a);
      RemoveAt(r, x, b);
    } else {
      RemoveAbsent(r, x);
    }
  }

  /** Putting the last request of `ps` at the head of a list ordered by last
      use within the earlier requests gives a list ordered by last use in `ps`. */
  lemma PushOrder<T>(ps: seq<T>, r': seq<T>, i: nat, j: nat)
    requires ps != [] && NoDup(r') && (forall q :: q in r' ==> q in ps[..|ps| - 1])
    requires ByLastUse(ps[..|ps| - 1], r')
    requires i < j <= |Remove(r', ps[|ps| - 1])|
    ensures var r := [ps[|ps| - 1]] + Remove(r', ps[|ps| - 1]);
      r[i] in ps && r[j] in ps && LastUse(ps, r[i]) > LastUse(ps, r[j])
  {
    var pre := ps[..|ps| - 1];
    var p := ps[|ps| - 1];
    var rest := Remove(r', p);
    var r := [p] + rest;
    assert ps == pre + [p];
    var y := rest[j - 1];
    assert r[j] == y && y in rest;
    RemoveKeeps(r', p, y);
    LastUseBefore(ps, y);
    assert LastUse(ps, y) < |ps| - 1;
    if i == 0 {
      assert LastUse(ps, r[i]) == |ps| - 1;
    } else {
      var x := rest[i - 1];
      assert r[i] == x && x in rest;
      RemoveKeeps(r', p, x);
      LastUseBefore(ps, x);
      RemoveKeepsOrder(pre, r', p, i - 1, j - 1);
    }
  }

  /** `Recency` is ordered by last use: an earlier position means a later last request. */
  lemma {:induction false} RecencyOrder<T>(ps: seq<T>)
    ensures ByLastUse(ps, Recency(ps))
    decreases |ps|
  {
    if ps != [] {
      var pre := ps[..|ps| - 1];
      RecencyOrder(pre);
      var r' := Recency(pre);
      assert Recency(ps) == [ps[|ps| - 1]] + Remove(r', ps[|ps| - 1]);
      forall i, j | 0 <= i < j < |Recency(ps)|
        ensures LastUse(ps, Recency(ps)[i]) > LastUse(ps, Recency(ps)[j])
      {
        PushOrder(ps, r', i, j);
      }
    }
  }

  /** An LRU hit on the first `cap` pages of a recency list. */
  lemma LruHitOnRecency<T>(rec: seq<T>, cap: nat, p: T)
    requires 1 <= cap && p in Take(rec, cap)
    ensures LruBuffer(Take(rec, cap), cap, p) == Take([p] + Remove(rec, p), cap)
  {
    var buf := Take(rec, cap);
    var m := |buf|;
    assert buf == rec[..m];
    var i := IndexOf(buf, p);
    assert rec[..i] == buf[..i];
    IndexOfUnique(rec, p, i);
    RemoveSlice(buf, p);
    RemoveSlice(rec, p);
    assert Remove(buf, p) == rec[..i] + rec[i + 1..m];
    assert Take(Remove(rec, p), cap - 1) == rec[..i] + rec[i + 1..m];
    TakeCons(p, Remove(rec, p), cap);
  }

  /** An LRU miss on the first `cap` pages of a recency list. */
  lemma LruMissOnRecency<T>(rec: seq<T>, cap: nat, p: T)
    requires 1 <= cap && p !in Take(rec, cap)
    ensures LruBuffer(Take(rec, cap), cap, p) == Take([p] + Remove(rec, p), cap)
  {
    var buf := Take(rec, cap);
    TakeCons(p, Remove(rec, p), cap);
    if p in rec {
      var i := IndexOf(rec, p);
      assert rec[..|buf|] == buf;
      IndexPastPrefix(rec, |buf|, p);
      RemoveSlice(rec, p);
      assert Remove(rec, p)[..cap - 1] == rec[..cap - 1];
      assert buf == rec[..cap];
    } else {
      RemoveAbsent(rec, p);
      if |buf| == cap {
        assert buf == rec[..cap];
      }
    }
  }

  /** LRU, from an empty buffer, holds exactly the `cap` most recently used
      distinct pages of the requests so far, the most recently used at the head. */
  lemma {:induction false} LruHoldsMostRecent<T>(cap: nat, s: State<T>, ps: seq<T>, k: nat)
    requires Inv(s, cap) && k <= |ps| && s.buffer == []
    ensures Run(LRU, cap, s, ps, k).buffer == Take(Recency(ps[..k]), cap)
    decreases k
  {
    if k > 0 {
      LruHoldsMostRecent(cap, s, ps, k - 1);
      assert ps[..k][..k - 1] == ps[..k - 1];
      var rec := Recency(ps[..k - 1]);
      var p := ps[k - 1];
      if p in Take(rec, cap) {
        LruHitOnRecency(rec, cap, p);
      } else {
        LruMissOnRecency(rec, cap, p);
      }
    }
  }

  /** The pages loaded by the misses among the first `k` requests, the most
      recent load first. */
  function Loads<T(==)>(strategy: Strategy, cap: nat, s: State<T>, ps: seq<T>, k: nat): (l: seq<T>)
    requires Inv(s, cap) && k <= |ps|
    ensures |l| == Run(strategy, cap, s, ps, k).io - s.io
    decreases k
  {
    if k == 0 then []
    else
      var p := ps[k - 1];
      (if p in Run(strategy, cap, s, ps, k - 1).buffer then [] else [p]) + Loads(strategy, cap, s, ps, k - 1)
  }

  /** A FIFO miss on the first `cap` loads puts the new load first. */
  lemma FifoOnLoads<T>(l: seq<T>, cap: nat, p: T)
    requires 1 <= cap && p !in Take(l, cap)
    ensures FifoBuffer(Take(l, cap), cap, p) == Take([p] + l, cap)
  {
    var buf := Take(l, cap);
    TakeCons(p, l, cap);
    TakeTake(l, cap, cap - 1);
    if |buf| == cap {
      assert buf[..|buf| - 1] == Take(buf, cap - 1);
    }
  }

  /** FIFO, from an empty buffer, holds exactly the `cap` most recently loaded
      pages, the newest at the head: a hit never changes the eviction order. */
  lemma {:induction false} FifoHoldsNewestLoads<T>(cap: nat, s: State<T>, ps: seq<T>, k: nat)
    requires Inv(s, cap) && k <= |ps| && s.buffer == []
    ensures Run(FIFO, cap, s, ps, k).buffer == Take(Loads(FIFO, cap, s, ps, k), cap)
    decreases k
  {
    if k > 0 {
      FifoHoldsNewestLoads(cap, s, ps, k - 1);
      var prev := Run(FIFO, cap, s, ps, k - 1);
      var p := ps[k - 1];
      var l := Loads(FIFO, cap, s, ps, k - 1);
      assert Run(FIFO, cap, s, ps, k).buffer == FifoBuffer(prev.buffer, cap, p);
      if p in prev.buffer {
        assert Loads(FIFO, cap, s, ps, k) == l;
      } else {
        assert Loads(FIFO, cap, s, ps, k) == [p] + l;
        FifoOnLoads(l, cap, p);
      }
    }
  }

  /** Under MRU the requested page ends at the head, so a miss on a full
      buffer evicts the page requested just before it. */
  lemma MruEvictsPrevious<T>(cap: nat, s: State<T>, ps: seq<T>, k: nat)
    requires Inv(s, cap) && NoDup(s.buffer) && 1 <= k < |ps|
    requires var prev := Run(MRU, cap, s, ps, k); ps[k] !in prev.buffer && |prev.buffer| == cap
    ensures var prev := Run(MRU, cap, s, ps, k);
      var r := Run(MRU, cap, s, ps, k + 1);
      && prev.buffer[0] == ps[k - 1]
      && r.buffer == [ps[k]] + prev.buffer[1..]
      && ps[k - 1] !in r.buffer
  {
    var prev := Run(MRU, cap, s, ps, k);
    RunNoDup(MRU, cap, s, ps, k);
    assert prev.buffer[0] !in prev.buffer[1..];
  }
}
