// The replacement rules on values. FIFO, LRU and MRU act on a deque whose head
// is index 0; CLOCK and GCLOCK act on the same sequence addressed by a clock
// hand and on the reference values of the pages.

module Rules {
  import opened Seqs

  /** FIFO: a hit changes nothing; a miss loads `p` at the head, dropping the tail when full. */
  function FifoBuffer<T(==)>(buf: seq<T>, cap: nat, p: T): (r: seq<T>)
    requires 1 <= cap && |buf| <= cap
    ensures |r| == if p in buf then |buf| else Min(|buf| + 1, cap)
  {
    if p in buf then buf
    else if |buf| < cap then [p] + buf
    else [p] + buf[..|buf| - 1]
  }

  /** LRU: `p` ends at the head; on a full miss the tail (least recently used) is dropped. */
  function LruBuffer<T(==)>(buf: seq<T>, cap: nat, p: T): (r: seq<T>)
    requires 1 <= cap && |buf| <= cap
    ensures |r| == if p in buf then |buf| else Min(|buf| + 1, cap)
  {
    if p in buf then [p] + Remove(buf, p)
    else if |buf| < cap then [p] + buf
    else [p] + buf[..|buf| - 1]
  }

  /** MRU: `p` ends at the head; on a full miss the head (most recently used) is dropped. */
  function MruBuffer<T(==)>(buf: seq<T>, cap: nat, p: T): (r: seq<T>)
    requires 1 <= cap && |buf| <= cap
    ensures |r| == if p in buf then |buf| else Min(|buf| + 1, cap)
  {
    if p in buf then [p] + Remove(buf, p)
    else if |buf| < cap then [p] + buf
    else [p] + buf[1..]
  }

  /** What every deque rule guarantees of its result `r`: `p` is resident,
      nothing is duplicated, the length grows by one on a miss up to `cap`, and
      no page other than `p` is added. */
  ghost predicate Admits<T>(buf: seq<T>, cap: nat, p: T, r: seq<T>) {
    && p in r && NoDup(r) && |r| <= cap
    && |r| == (if p in buf then |buf| else Min(|buf| + 1, cap))
    && (forall q :: q in r ==> q == p || q in buf)
  }

  /** Replacing a resident page by a page not yet resident admits that page. */
  lemma ReplaceAdmits<T>(buf: seq<T>, cap: nat, p: T, v: nat)
    requires |buf| == cap && NoDup(buf) && v < |buf| && p !in buf
    ensures Admits(buf, cap, p, buf[v := p])
  {
    var r := buf[v := p];
    assert r[v] == p;
    forall q | q in r ensures q == p || q in buf {
      var i :| 0 <= i < |r| && r[i] == q;
      if i != v { assert buf[i] == q; }
    }
    NoDupDistinct(buf);
    forall i, j | 0 <= i < j < |r| ensures r[i] != r[j] {
      if i != v && j != v { assert buf[i] != buf[j]; }
    }
    NoDupDistinct(r);
  }

  lemma FifoAdmits<T>(buf: seq<T>, cap: nat, p: T)
    requires 1 <= cap && |buf| <= cap && NoDup(buf)
    ensures Admits(buf, cap, p, FifoBuffer(buf, cap, p))
  {
    if p !in buf {
      var r := FifoBuffer(buf, cap, p);
      var rest := r[1..];
      assert r == [p] + rest;
      if |buf| == cap {
        NoDupSplit(buf, |buf| - 1);
      }
      assert forall q :: q in rest ==> q in buf;
      assert NoDup(r);
    }
  }

  lemma LruAdmits<T>(buf: seq<T>, cap: nat, p: T)
    requires 1 <= cap && |buf| <= cap && NoDup(buf)
    ensures Admits(buf, cap, p, LruBuffer(buf, cap, p))
  {
    var r := LruBuffer(buf, cap, p);
    var rest := r[1..];
    assert r == [p] + rest;
    if p in buf {
      RemoveMembers(buf, p);
    } else {
      NoDupSplit(buf, |rest|);
      assert rest == buf[..|rest|];
      assert forall q :: q in rest ==> q in buf;
    }
    assert NoDup(r);
  }

  lemma MruAdmits<T>(buf: seq<T>, cap: nat, p: T)
    requires 1 <= cap && |buf| <= cap && NoDup(buf)
    ensures Admits(buf, cap, p, MruBuffer(buf, cap, p))
  {
    var r := MruBuffer(buf, cap, p);
    if p in buf {
      RemoveMembers(buf, p);
      assert Admits(buf, cap, p, r);
    } else if |buf| < cap {
      assert r == [p] + buf;
      assert Admits(buf, cap, p, r);
    } else {
      var tail := buf[1..];
      assert r == [p] + tail && r[1..] == tail;
      assert forall q :: q in tail ==> q in buf;
      assert Admits(buf, cap, p, r);
    }
  }

  /** The clock hand moves one slot backwards, wrapping from 0 to `cap - 1`. */
  function Tick(cursor: nat, cap: nat): (r: nat)
    requires cursor < cap
    ensures r < cap
    ensures (r + 1) % cap == cursor
  {
    var c := cursor - 1;
    if c < 0 then cap - 1 else c
  }

  /** Position of the hand after `k` ticks from `cursor`. */
  function TickN(cursor: nat, k: nat, cap: nat): (r: nat)
    requires cursor < cap
    ensures r < cap
    decreases k
  {
    if k == 0 then cursor else TickN(Tick(cursor, cap), k - 1, cap)
  }

  /** Reference value of a requested page after the request: GCLOCK adds one;
      CLOCK (`clamped`) raises only a 0, so a page's bit never exceeds 1. */
  function Bump(clamped: bool, v: nat): (r: nat)
    ensures r >= 1
    ensures !clamped ==> r == v + 1
    ensures clamped && v <= 1 ==> r == 1
    ensures clamped && v > 1 ==> r == v
  {
    if !clamped || v == 0 then v + 1 else v
  }

  /** The reference value of `q`: every page starts at 0, so a page the map
      does not mention has value 0. */
  function Ref<T>(refs: map<T, nat>, q: T): nat {
    if q in refs then refs[q] else 0
  }

  /** Sum of the reference values of the pages in `buf`. */
  function RefSum<T>(buf: seq<T>, refs: map<T, nat>): nat {
    if buf == [] then 0 else Ref(refs, buf[0]) + RefSum(buf[1..], refs)
  }

  /** Changing the value of one resident page changes the sum by the same amount. */
  lemma {:induction false} RefSumUpdate<T>(buf: seq<T>, refs: map<T, nat>, x: T, v: nat)
    requires NoDup(buf)
    ensures RefSum(buf, refs[x := v]) == if x in buf then RefSum(buf, refs) - Ref(refs, x) + v else RefSum(buf, refs)
  {
    if buf != [] {
      RefSumUpdate(buf[1..], refs, x, v);
      assert buf[0] == x ==> x !in buf[1..];
    }
  }

  /** When every value is at most 1 (CLOCK's bits), the sum is at most the number of pages. */
  lemma {:induction false} RefSumOfBits<T>(buf: seq<T>, refs: map<T, nat>)
    requires forall q :: q in buf ==> Ref(refs, q) <= 1
    ensures RefSum(buf, refs) <= |buf|
  {
    if buf != [] {
      RefSumOfBits(buf[1..], refs);
    }
  }

  /** Lowering the value of a page never raises the sum, and lowers it when
      the page is resident and the value drops. */
  lemma {:induction false} RefSumLower<T>(buf: seq<T>, refs: map<T, nat>, x: T, v: nat)
    requires v <= Ref(refs, x)
    ensures RefSum(buf, refs[x := v]) <= RefSum(buf, refs)
    ensures x in buf && v < Ref(refs, x) ==> RefSum(buf, refs[x := v]) < RefSum(buf, refs)
  {
    if buf != [] {
      RefSumLower(buf[1..], refs, x, v);
    }
  }

  /** Where a clock sweep ends: the victim's index and how many frames the
      hand examined, the victim's included. */
  datatype Swept = Swept(victim: nat, examined: nat)

  /** The clock sweep of a full buffer: starting at `cursor`, a page with value 0
      is the victim; otherwise its value is decremented, the hand ticks and the
      next frame is examined. */
  function Sweep<T(==)>(buf: seq<T>, refs: map<T, nat>, cursor: nat): (r: Swept)
    requires cursor < |buf|
    ensures r.victim < |buf| && r.examined >= 1
    decreases RefSum(buf, refs)
  {
    var q := buf[cursor];
    if Ref(refs, q) == 0 then Swept(cursor, 1)
    else
      RefSumLower(buf, refs, q, Ref(refs, q) - 1);
      var r := Sweep(buf, refs[q := Ref(refs, q) - 1], Tick(cursor, |buf|));
      r.(examined := r.examined + 1)
  }

  /** The reference values once the sweep from `cursor` has found its victim:
      every page the hand passed over has been decremented. */
  function SweepRefs<T(==)>(buf: seq<T>, refs: map<T, nat>, cursor: nat): (r: map<T, nat>)
    requires cursor < |buf|
    ensures RefSum(buf, r) <= RefSum(buf, refs)
    decreases RefSum(buf, refs)
  {
    var q := buf[cursor];
    if Ref(refs, q) == 0 then refs
    else
      RefSumLower(buf, refs, q, Ref(refs, q) - 1);
      SweepRefs(buf, refs[q := Ref(refs, q) - 1], Tick(cursor, |buf|))
  }

  /** A hand that passes a page with a positive value decrements it and
      continues from the next frame towards the same victim, one examination
      fewer away, leaving the same values behind. */
  lemma SweepPasses<T>(buf: seq<T>, refs: map<T, nat>, cursor: nat)
    requires cursor < |buf| && Ref(refs, buf[cursor]) > 0
    ensures Sweep(buf, refs, cursor).examined >= 2
    ensures RefSum(buf, refs[buf[cursor] := Ref(refs, buf[cursor]) - 1]) < RefSum(buf, refs)
    ensures var next := Sweep(buf, refs[buf[cursor] := Ref(refs, buf[cursor]) - 1], Tick(cursor, |buf|));
      && next.victim == Sweep(buf, refs, cursor).victim
      && next.examined == Sweep(buf, refs, cursor).examined - 1
    ensures SweepRefs(buf, refs[buf[cursor] := Ref(refs, buf[cursor]) - 1], Tick(cursor, |buf|))
      == SweepRefs(buf, refs, cursor)
  {
    var q := buf[cursor];
    RefSumLower(buf, refs, q, Ref(refs, q) - 1);
  }

  /** What a sweep leaves behind: the victim's page has value 0, the sweep
      touches no page outside the buffer and no buffered value grows. */
  lemma {:induction false} SweepFinds<T>(buf: seq<T>, refs: map<T, nat>, cursor: nat)
    requires cursor < |buf|
    ensures var r := Sweep(buf, refs, cursor);
      var m := SweepRefs(buf, refs, cursor);
      && Ref(m, buf[r.victim]) == 0
      && (forall q :: q !in buf ==> (q in m <==> q in refs) && Ref(m, q) == Ref(refs, q))
      && (forall q :: q in buf ==> Ref(m, q) <= Ref(refs, q))
    decreases RefSum(buf, refs)
  {
    var q := buf[cursor];
    if Ref(refs, q) > 0 {
      SweepPasses(buf, refs, cursor);
      RefSumLower(buf, refs, q, Ref(refs, q) - 1);
      SweepFinds(buf, refs[q := Ref(refs, q) - 1], Tick(cursor, |buf|));
    }
  }

  /** How far a sweep goes in a duplicate-free buffer: the victim is the last
      frame examined, each frame passed over costs the total exactly 1, so the
      hand examines at most one frame more than the buffer's total value. */
  lemma {:induction false} SweepCounts<T>(buf: seq<T>, refs: map<T, nat>, cursor: nat)
    requires NoDup(buf) && cursor < |buf|
    ensures var r := Sweep(buf, refs, cursor);
      && r.victim == TickN(cursor, r.examined - 1, |buf|)
      && RefSum(buf, SweepRefs(buf, refs, cursor)) == RefSum(buf, refs) - (r.examined - 1)
      && r.examined <= RefSum(buf, refs) + 1
    decreases RefSum(buf, refs)
  {
    var q := buf[cursor];
    if Ref(refs, q) > 0 {
      SweepPasses(buf, refs, cursor);
      RefSumUpdate(buf, refs, q, Ref(refs, q) - 1);
      SweepCounts(buf, refs[q := Ref(refs, q) - 1], Tick(cursor, |buf|));
    }
  }

  /** CLOCK's sweep is short and keeps the bits: with every value at most 1 the
      hand examines at most `|buf| + 1` frames and no value exceeds 1 afterwards. */
  lemma ClockSweepBounded<T>(buf: seq<T>, refs: map<T, nat>, cursor: nat)
    requires NoDup(buf) && cursor < |buf|
    requires forall q :: q in buf ==> Ref(refs, q) <= 1
    ensures Sweep(buf, refs, cursor).examined <= |buf| + 1
    ensures forall q :: q in buf ==> Ref(SweepRefs(buf, refs, cursor), q) <= 1
  {
    RefSumOfBits(buf, refs);
    SweepFinds(buf, refs, cursor);
    SweepCounts(buf, refs, cursor);
  }

  /** CLOCK's sweep clears every bit it examines, the victim's included. */
  lemma {:induction false} ClockSweepClears<T>(buf: seq<T>, refs: map<T, nat>, cursor: nat)
    requires cursor < |buf|
    requires forall q :: q in buf ==> Ref(refs, q) <= 1
    ensures forall k :: 0 <= k < Sweep(buf, refs, cursor).examined ==>
      Ref(SweepRefs(buf, refs, cursor), buf[TickN(cursor, k, |buf|)]) == 0
    decreases RefSum(buf, refs)
  {
    SweepFinds(buf, refs, cursor);
    var q := buf[cursor];
    if Ref(refs, q) != 0 {
      var refs' := refs[q := 0];
      var c' := Tick(cursor, |buf|);
      SweepPasses(buf, refs, cursor);
      RefSumLower(buf, refs, q, 0);
      SweepFinds(buf, refs', c');
      ClockSweepClears(buf, refs', c');
      forall k | 0 < k < Sweep(buf, refs, cursor).examined
        ensures Ref(SweepRefs(buf, refs, cursor), buf[TickN(cursor, k, |buf|)]) == 0
      {
        assert TickN(cursor, k, |buf|) == TickN(c', k - 1, |buf|);
      }
    }
  }

  /** CLOCK's second chance: every frame the hand passes over before the
      victim had its bit set. */
  lemma {:induction false} ClockSweepSecondChance<T>(buf: seq<T>, refs: map<T, nat>, cursor: nat)
    requires cursor < |buf|
    requires forall q :: q in buf ==> Ref(refs, q) <= 1
    ensures forall k :: 0 <= k < Sweep(buf, refs, cursor).examined - 1 ==>
      Ref(refs, buf[TickN(cursor, k, |buf|)]) == 1
    decreases RefSum(buf, refs)
  {
    var q := buf[cursor];
    if Ref(refs, q) != 0 {
      var refs' := refs[q := 0];
      var c' := Tick(cursor, |buf|);
      SweepPasses(buf, refs, cursor);
      RefSumLower(buf, refs, q, 0);
      ClockSweepSecondChance(buf, refs', c');
      forall k | 0 < k < Sweep(buf, refs, cursor).examined - 1
        ensures Ref(refs, buf[TickN(cursor, k, |buf|)]) == 1
      {
        assert TickN(cursor, k, |buf|) == TickN(c', k - 1, |buf|);
        assert buf[TickN(c', k - 1, |buf|)] != q;
      }
    }
  }
}
