// Small replays from a freshly constructed policy, worked out request by
// request: how the five strategies differ on the same requests.

module Examples {
  import opened Seqs
  import opened Rules
  import opened Simulation
  import opened Properties
  import opened Structure
  import opened PolicyEngine

  /** A policy as a driver uses it: constructed, then executed once. The
      replay starts from the empty buffer with every reference value 0, its
      log has one entry per request, the miss count is at most the number of
      requests, and the buffer holds min(io, bufferSize) pages. */
  method FreshPolicy(strategy: Strategy, sequence: seq<Page>, bufferSize: nat) returns (policy: Policy)
    requires bufferSize >= 1
    modifies set q | q in sequence
    ensures policy.Model() == Run(strategy, bufferSize, Initial(bufferSize, sequence), sequence, |sequence|)
    ensures policy.steps == Trace(strategy, bufferSize, Initial(bufferSize, sequence), sequence, |sequence|)
    ensures |policy.steps| == |sequence|
    ensures policy.io <= |sequence| && |policy.buffer| == Min(policy.io, bufferSize)
  {
    policy := new Policy(strategy, sequence, bufferSize);
    policy.Execute();
    var s0 := Initial(bufferSize, sequence);
    RunIoBounds(strategy, bufferSize, s0, sequence, |sequence|);
    LengthTracksIo(strategy, bufferSize, s0, sequence, |sequence|);
  }

  /** FIFO on A B C A D with three frames: the hit on A does not protect it,
      so D evicts A, the oldest load. */
  lemma FifoExample()
    ensures var r := Run(FIFO, 3, Initial(3, "ABCAD"), "ABCAD", 5);
      r.buffer == "DCB" && r.io == 4
  {
    var s0 := Initial(3, "ABCAD");
    assert Run(FIFO, 3, s0, "ABCAD", 2).buffer == "BA";
    assert Run(FIFO, 3, s0, "ABCAD", 3).buffer == "CBA";
    var s4 := Run(FIFO, 3, s0, "ABCAD", 4);
    assert s4.buffer == "CBA" && s4.io == 3;
  }

  /** LRU on the same requests: the hit moves A to the head, so D evicts B,
      the least recently used page. */
  lemma LruExample()
    ensures var r := Run(LRU, 3, Initial(3, "ABCAD"), "ABCAD", 5);
      r.buffer == "DAC" && r.io == 4
  {
    var s0 := Initial(3, "ABCAD");
    assert Run(LRU, 3, s0, "ABCAD", 2).buffer == "BA";
    assert Run(LRU, 3, s0, "ABCAD", 3).buffer == "CBA";
    var s4 := Run(LRU, 3, s0, "ABCAD", 4);
    assert s4.buffer == "ACB" && s4.io == 3;
  }

  /** MRU on the same requests: D evicts A, the page used last before it. */
  lemma MruExample()
    ensures var r := Run(MRU, 3, Initial(3, "ABCAD"), "ABCAD", 5);
      r.buffer == "DCB" && r.io == 4
  {
    var s0 := Initial(3, "ABCAD");
    assert Run(MRU, 3, s0, "ABCAD", 2).buffer == "BA";
    assert Run(MRU, 3, s0, "ABCAD", 3).buffer == "CBA";
    var s4 := Run(MRU, 3, s0, "ABCAD", 4);
    assert s4.buffer == "ACB" && s4.io == 3;
  }

  /** After A B A with two frames both pages are resident and the hand is
      untouched; GCLOCK has counted A twice, CLOCK has kept A's bit at 1. */
  lemma ClockFirstThree(clamped: bool)
    ensures var s3 := Run(if clamped then CLOCK else GCLOCK, 2, Initial(2, "ABAC"), "ABAC", 3);
      && s3.buffer == "BA" && s3.io == 2 && s3.cursor == 1
      && Ref(s3.refs, 'A') == (if clamped then 1 else 2) && Ref(s3.refs, 'B') == 1
      && Ref(s3.refs, 'C') == 0
  {
    var strategy := if clamped then CLOCK else GCLOCK;
    var s2 := Run(strategy, 2, Initial(2, "ABAC"), "ABAC", 2);
    assert s2.buffer == "BA" && s2.io == 2 && s2.cursor == 1;
    assert Ref(s2.refs, 'A') == 1 && Ref(s2.refs, 'B') == 1 && Ref(s2.refs, 'C') == 0;
  }

  /** GCLOCK's sweep for C: the hand passes A (2 to 1), B (1 to 0), A (1 to 0)
      and stops at B. */
  lemma GclockSweepForC(m: map<char, nat>)
    requires Ref(m, 'A') == 2 && Ref(m, 'B') == 1
    ensures Sweep("BA", m, 1).victim == 0
    ensures var w := SweepRefs("BA", m, 1);
      Ref(w, 'A') == 0 && Ref(w, 'B') == 0 && Ref(w, 'C') == Ref(m, 'C')
  {
    var m1 := m['A' := 1];
    var m2 := m1['B' := 0];
    var m3 := m2['A' := 0];
    assert Sweep("BA", m3, 0).victim == 0 && SweepRefs("BA", m3, 0) == m3;
    assert Sweep("BA", m2, 1).victim == 0 && SweepRefs("BA", m2, 1) == m3;
    assert Sweep("BA", m1, 0).victim == 0 && SweepRefs("BA", m1, 0) == m3;
  }

  /** CLOCK's sweep for C: the hand clears A's bit, then B's, and stops at A. */
  lemma ClockSweepForC(m: map<char, nat>)
    requires Ref(m, 'A') == 1 && Ref(m, 'B') == 1
    ensures Sweep("BA", m, 1).victim == 1
    ensures var w := SweepRefs("BA", m, 1);
      Ref(w, 'A') == 0 && Ref(w, 'B') == 0 && Ref(w, 'C') == Ref(m, 'C')
  {
    var m1 := m['A' := 0];
    var m2 := m1['B' := 0];
    assert Sweep("BA", m2, 1).victim == 1 && SweepRefs("BA", m2, 1) == m2;
    assert Sweep("BA", m1, 0).victim == 1 && SweepRefs("BA", m1, 0) == m2;
  }

  /** GCLOCK on A B A C with two frames: A's second request raises its value
      to 2, so the sweep for C passes A twice and evicts B. */
  lemma GclockExample()
    ensures var r := Run(GCLOCK, 2, Initial(2, "ABAC"), "ABAC", 4);
      && r.buffer == "CA" && r.io == 3 && r.cursor == 1
      && Ref(r.refs, 'A') == 0 && Ref(r.refs, 'B') == 0 && Ref(r.refs, 'C') == 1
  {
    ClockFirstThree(false);
    var s3 := Run(GCLOCK, 2, Initial(2, "ABAC"), "ABAC", 3);
    GclockSweepForC(s3.refs['C' := 1]);
  }

  /** CLOCK on the same requests: A's bit stays 1, so the sweep clears both
      bits and evicts A. */
  lemma ClockExample()
    ensures var r := Run(CLOCK, 2, Initial(2, "ABAC"), "ABAC", 4);
      && r.buffer == "BC" && r.io == 3 && r.cursor == 0
      && Ref(r.refs, 'A') == 0 && Ref(r.refs, 'B') == 0 && Ref(r.refs, 'C') == 1
  {
    ClockFirstThree(true);
    var s3 := Run(CLOCK, 2, Initial(2, "ABAC"), "ABAC", 3);
    ClockSweepForC(s3.refs['C' := 1]);
  }
}
