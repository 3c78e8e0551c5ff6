// What a replay guarantees for every strategy: the log has one entry per
// request recording the state after it, the logged miss counts never decrease,
// the buffer length follows the miss count, and CLOCK keeps its bits in {0,1}.

module Properties {
  import opened Seqs
  import opened Rules
  import opened Simulation

  /** Entry `i` of the log records request `i + 1`: its page, and the state
      reached by replaying the first `i + 1` requests. */
  lemma {:induction false} TraceRecords<T>(strategy: Strategy, cap: nat, s: State<T>, ps: seq<T>, k: nat, i: nat)
    requires Inv(s, cap) && i < k <= |ps|
    ensures Trace(strategy, cap, s, ps, k)[i] == Record(i + 1, ps[i], Run(strategy, cap, s, ps, i + 1))
    decreases k
  {
    var t := Trace(strategy, cap, s, ps, k - 1);
    var e := Record(k, ps[k - 1], Run(strategy, cap, s, ps, k));
    assert Trace(strategy, cap, s, ps, k) == t + [e];
    if i < k - 1 {
      TraceRecords(strategy, cap, s, ps, k - 1, i);
      assert (t + [e])[i] == t[i];
    }
  }

  /** A replay counts at least as many misses as the policy had, and at most
      one more per request. */
  lemma {:induction false} RunIoBounds<T>(strategy: Strategy, cap: nat, s: State<T>, ps: seq<T>, k: nat)
    requires Inv(s, cap) && k <= |ps|
    ensures s.io <= Run(strategy, cap, s, ps, k).io <= s.io + k
    decreases k
  {
    if k > 0 {
      RunIoBounds(strategy, cap, s, ps, k - 1);
    }
  }

  /** Replaying more requests never lowers the miss count. */
  lemma {:induction false} RunIoGrows<T>(strategy: Strategy, cap: nat, s: State<T>, ps: seq<T>, j: nat, k: nat)
    requires Inv(s, cap) && j <= k <= |ps|
    ensures Run(strategy, cap, s, ps, j).io <= Run(strategy, cap, s, ps, k).io
    decreases k
  {
    if j < k {
      RunIoGrows(strategy, cap, s, ps, j, k - 1);
    }
  }

  /** The miss count logged at step `i + 1` is at least the policy's count
      before the replay and at most that count plus the `i + 1` requests made. */
  lemma TraceIoBounds<T>(strategy: Strategy, cap: nat, s: State<T>, ps: seq<T>, k: nat, i: nat)
    requires Inv(s, cap) && i < k <= |ps|
    ensures s.io <= Trace(strategy, cap, s, ps, k)[i].io <= s.io + i + 1
  {
    TraceRecords(strategy, cap, s, ps, k, i);
    RunIoBounds(strategy, cap, s, ps, i + 1);
  }

  /** No logged miss count exceeds the count the replay ends with. */
  lemma TraceIoFinal<T>(strategy: Strategy, cap: nat, s: State<T>, ps: seq<T>, k: nat, i: nat)
    requires Inv(s, cap) && i < k <= |ps|
    ensures Trace(strategy, cap, s, ps, k)[i].io <= Run(strategy, cap, s, ps, k).io
  {
    TraceRecords(strategy, cap, s, ps, k, i);
    RunIoGrows(strategy, cap, s, ps, i + 1, k);
  }

  /** The logged miss counts never decrease. */
  lemma TraceIoMonotone<T>(strategy: Strategy, cap: nat, s: State<T>, ps: seq<T>, k: nat, i: nat, j: nat)
    requires Inv(s, cap) && i <= j < k <= |ps|
    ensures Trace(strategy, cap, s, ps, k)[i].io <= Trace(strategy, cap, s, ps, k)[j].io
  {
    TraceRecords(strategy, cap, s, ps, k, i);
    TraceRecords(strategy, cap, s, ps, k, j);
    RunIoGrows(strategy, cap, s, ps, i + 1, j + 1);
  }

  /** Each logged miss count exceeds the previous one by exactly 1 on a miss
      and by 0 on a hit. */
  lemma TraceIoSteps<T>(strategy: Strategy, cap: nat, s: State<T>, ps: seq<T>, k: nat, i: nat)
    requires Inv(s, cap) && 0 < i < k <= |ps|
    ensures var t := Trace(strategy, cap, s, ps, k);
      t[i].io == t[i - 1].io + Miss(Run(strategy, cap, s, ps, i).buffer, ps[i])
  {
    TraceRecords(strategy, cap, s, ps, k, i);
    TraceRecords(strategy, cap, s, ps, k, i - 1);
  }

  /** From an empty buffer with no misses, the buffer always holds
      min(misses, capacity) pages: every miss loads a page, evicting only when full. */
  lemma {:induction false} LengthTracksIo<T>(strategy: Strategy, cap: nat, s: State<T>, ps: seq<T>, k: nat)
    requires Inv(s, cap) && k <= |ps| && |s.buffer| == Min(s.io, cap)
    ensures var r := Run(strategy, cap, s, ps, k); |r.buffer| == Min(r.io, cap)
    decreases k
  {
    if k > 0 {
      LengthTracksIo(strategy, cap, s, ps, k - 1);
      StepLength(strategy, cap, Run(strategy, cap, s, ps, k - 1), ps[k - 1]);
    }
  }

  /** A replay never buffers a page twice. */
  lemma {:induction false} RunNoDup<T>(strategy: Strategy, cap: nat, s: State<T>, ps: seq<T>, k: nat)
    requires Inv(s, cap) && k <= |ps| && NoDup(s.buffer)
    ensures NoDup(Run(strategy, cap, s, ps, k).buffer)
    decreases k
  {
    if k > 0 {
      RunNoDup(strategy, cap, s, ps, k - 1);
      StepAdmits(strategy, cap, Run(strategy, cap, s, ps, k - 1), ps[k - 1]);
    }
  }

  /** Every reference value is a bit. */
  ghost predicate Bits<T>(refs: map<T, nat>) {
    forall q :: q in refs ==> Ref(refs, q) <= 1
  }

  /** Under CLOCK every reference value stays in {0,1} through a replay. */
  lemma {:induction false} ClockRunBits<T>(cap: nat, s: State<T>, ps: seq<T>, k: nat)
    requires Inv(s, cap) && k <= |ps| && Bits(s.refs)
    ensures Bits(Run(CLOCK, cap, s, ps, k).refs)
    decreases k
  {
    if k > 0 {
      ClockRunBits(cap, s, ps, k - 1);
      var prev := Run(CLOCK, cap, s, ps, k - 1);
      var r := Run(CLOCK, cap, s, ps, k);
      ClockStepSpec(true, cap, prev, ps[k - 1]);
      forall q | q in r.refs ensures Ref(r.refs, q) <= 1 {
        assert Ref(prev.refs, q) <= 1;
      }
    }
  }

  /** Under CLOCK, after the reset to 0, every reference value the log shows
      (of the requested page and of each buffered page) is 0 or 1. */
  lemma ClockTraceBits<T>(cap: nat, s: State<T>, ps: seq<T>, k: nat)
    requires Inv(s, cap) && k <= |ps| && Bits(s.refs)
    ensures var t := Trace(CLOCK, cap, s, ps, k);
      forall i :: 0 <= i < k ==>
        t[i].reference <= 1 && forall j :: 0 <= j < |t[i].snapshot| ==> t[i].snapshot[j].1 <= 1
  {
    var t := Trace(CLOCK, cap, s, ps, k);
    forall i | 0 <= i < k
      ensures t[i].reference <= 1 && forall j :: 0 <= j < |t[i].snapshot| ==> t[i].snapshot[j].1 <= 1
    {
      TraceRecords(CLOCK, cap, s, ps, k, i);
      ClockRunBits(cap, s, ps, i + 1);
      var r := Run(CLOCK, cap, s, ps, i + 1);
      assert t[i] == Record(i + 1, ps[i], r);
      forall q ensures Ref(r.refs, q) <= 1 {
        if q in r.refs { assert Ref(r.refs, q) <= 1; }
      }
    }
  }
}
