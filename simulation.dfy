// The simulator on values: one request step per strategy, the replay of a
// request sequence, and the per-step log that the engine records.

module Simulation {
  import opened Seqs
  import opened Rules

  /** The five replacement strategies. */
  datatype Strategy = FIFO | LRU | MRU | CLOCK | GCLOCK

  /** What a policy holds while it runs: the buffer (head at index 0), the
      reference values of the pages (`Ref`: 0 for a page not mentioned), the
      miss counter and the clock hand. */
  datatype State<T> = State(buffer: seq<T>, refs: map<T, nat>, io: nat, cursor: nat)

  /** The buffer never overflows and the hand points into the buffer's
      frames. That the buffer never holds a page twice is proved separately
      (`StepAdmits`). */
  ghost predicate Inv<T>(s: State<T>, cap: nat) {
    1 <= cap && |s.buffer| <= cap && s.cursor < cap
  }

  /** 1 when requesting `p` is a miss, 0 when it is a hit. */
  function Miss<T(==)>(buf: seq<T>, p: T): (r: nat)
    ensures r <= 1
    ensures r == 1 <==> p !in buf
  {
    if p in buf then 0 else 1
  }

  /** `v` is the slot in which a full clock miss put `p`: the page evicted from
      there has reference value 0 and the hand is one tick past it. */
  ghost predicate VictimAt<T>(s: State<T>, r: State<T>, p: T, v: nat) {
    && v < |s.buffer| && r.buffer == s.buffer[v := p]
    && Ref(r.refs, s.buffer[v]) == 0
    && r.cursor == Tick(v, |s.buffer|)
  }

  /** GCLOCK's request (CLOCK's when `clamped`): bump `p`'s reference value;
      on a miss load `p`, sweeping for a victim when the buffer is full. */
  function ClockStep<T(==)>(clamped: bool, cap: nat, s: State<T>, p: T): (r: State<T>)
    requires Inv(s, cap)
    ensures Inv(r, cap)
    ensures r.io == s.io + Miss(s.buffer, p)
    ensures |r.buffer| == if p in s.buffer then |s.buffer| else Min(|s.buffer| + 1, cap)
  {
    var refs := s.refs[p := Bump(clamped, Ref(s.refs, p))];
    if p in s.buffer then s.(refs := refs)
    else if |s.buffer| < cap then s.(buffer := [p] + s.buffer, refs := refs, io := s.io + 1)
    else
      var v := Sweep(s.buffer, refs, s.cursor).victim;
      State(s.buffer[v := p], SweepRefs(s.buffer, refs, s.cursor), s.io + 1, Tick(v, cap))
  }

  /** A clock request bumps `p`'s value, lowers only resident values and leaves
      other pages alone. A hit or a load into a spare frame leaves the hand
      where it is; a full miss replaces a page whose value the sweep brought to
      0 and leaves the hand one tick past it. */
  lemma ClockStepSpec<T>(clamped: bool, cap: nat, s: State<T>, p: T)
    requires Inv(s, cap)
    ensures var r := ClockStep(clamped, cap, s, p);
      && Ref(r.refs, p) == Bump(clamped, Ref(s.refs, p))
      && (forall q :: q != p && q !in s.buffer ==> (q in r.refs <==> q in s.refs) && Ref(r.refs, q) == Ref(s.refs, q))
      && (forall q :: q != p && q in s.buffer ==> Ref(r.refs, q) <= Ref(s.refs, q))
      && (p in s.buffer ==> r.buffer == s.buffer && r.cursor == s.cursor)
      && (p !in s.buffer && |s.buffer| < cap ==> r.buffer == [p] + s.buffer && r.cursor == s.cursor)
      && (p !in s.buffer && |s.buffer| == cap ==>
            VictimAt(s, r, p, Sweep(s.buffer, s.refs[p := Bump(clamped, Ref(s.refs, p))], s.cursor).victim))
  {
    if p !in s.buffer && |s.buffer| == cap {
      SweepFinds(s.buffer, s.refs[p := Bump(clamped, Ref(s.refs, p))], s.cursor);
    }
  }

  /** One request under `strategy`: a miss is counted exactly when `p` is not
      resident, and it adds one page unless the buffer is full. */
  function Step<T(==)>(strategy: Strategy, cap: nat, s: State<T>, p: T): (r: State<T>)
    requires Inv(s, cap)
    ensures Inv(r, cap)
    ensures r.io == s.io + Miss(s.buffer, p)
  {
    match strategy
    case FIFO => s.(buffer := FifoBuffer(s.buffer, cap, p), io := s.io + Miss(s.buffer, p))
    case LRU => s.(buffer := LruBuffer(s.buffer, cap, p), io := s.io + Miss(s.buffer, p))
    case MRU => s.(buffer := MruBuffer(s.buffer, cap, p), io := s.io + Miss(s.buffer, p))
    case CLOCK | GCLOCK => ClockStep(strategy == CLOCK, cap, s, p)
  }

  /** A hit keeps the buffer's length; a miss adds a page unless the buffer is full. */
  lemma StepLength<T>(strategy: Strategy, cap: nat, s: State<T>, p: T)
    requires Inv(s, cap)
    ensures |Step(strategy, cap, s, p).buffer| == if p in s.buffer then |s.buffer| else Min(|s.buffer| + 1, cap)
  {
  }

  /** Every strategy keeps the buffer duplicate-free and admits `p` and no other
      new page; the deque strategies never touch the reference values or the hand. */
  lemma StepAdmits<T>(strategy: Strategy, cap: nat, s: State<T>, p: T)
    requires Inv(s, cap) && NoDup(s.buffer)
    ensures var r := Step(strategy, cap, s, p);
      && Admits(s.buffer, cap, p, r.buffer)
      && (strategy in {FIFO, LRU, MRU} ==> r.refs == s.refs && r.cursor == s.cursor)
  {
    match strategy
    case FIFO => FifoAdmits(s.buffer, cap, p);
    case LRU => LruAdmits(s.buffer, cap, p);
    case MRU => MruAdmits(s.buffer, cap, p);
    case CLOCK | GCLOCK => ClockAdmits(strategy == CLOCK, cap, s, p);
  }

  /** A clock request keeps the buffer duplicate-free and admits `p` and no
      other new page. */
  lemma ClockAdmits<T>(clamped: bool, cap: nat, s: State<T>, p: T)
    requires Inv(s, cap) && NoDup(s.buffer)
    ensures Admits(s.buffer, cap, p, ClockStep(clamped, cap, s, p).buffer)
  {
    ClockStepSpec(clamped, cap, s, p);
    if p !in s.buffer && |s.buffer| == cap {
      var refs := s.refs[p := Bump(clamped, Ref(s.refs, p))];
      ReplaceAdmits(s.buffer, cap, p, Sweep(s.buffer, refs, s.cursor).victim);
    } else if p !in s.buffer {
      FifoAdmits(s.buffer, cap, p);
    }
  }

  /** The state after replaying the first `k` requests of `ps` from `s`, one
      request after another. */
  function Run<T(==)>(strategy: Strategy, cap: nat, s: State<T>, ps: seq<T>, k: nat): (r: State<T>)
    requires Inv(s, cap) && k <= |ps|
    ensures Inv(r, cap)
    decreases k
  {
    if k == 0 then s
    else Step(strategy, cap, Run(strategy, cap, s, ps, k - 1), ps[k - 1])
  }

  /** One logged step: its 1-based number, the requested page with its
      reference value, the buffer's (page, reference) pairs in order, and the
      cumulative miss count after the request. */
  datatype Entry<T> = Entry(number: nat, page: T, reference: nat, snapshot: seq<(T, nat)>, io: nat)

  /** The buffer as the log shows it: each page with its reference value. */
  function Snapshot<T>(buf: seq<T>, refs: map<T, nat>): (r: seq<(T, nat)>)
    ensures |r| == |buf|
  {
    seq(|buf|, i requires 0 <= i < |buf| => (buf[i], Ref(refs, buf[i])))
  }

  /** Pair `i` of a snapshot is the `i`-th buffered page with its value. */
  lemma SnapshotAt<T>(buf: seq<T>, refs: map<T, nat>, i: nat)
    requires i < |buf|
    ensures Snapshot(buf, refs)[i] == (buf[i], Ref(refs, buf[i]))
  {
  }

  /** The entry logged after request `n` for page `p`, in state `s`. */
  function Record<T>(n: nat, p: T, s: State<T>): (e: Entry<T>)
    ensures e.reference == Ref(s.refs, p) && |e.snapshot| == |s.buffer|
  {
    Entry(n, p, Ref(s.refs, p), Snapshot(s.buffer, s.refs), s.io)
  }

  /** The log of replaying the first `k` requests of `ps` from `s`: one entry
      appended after each request. */
  function Trace<T(==)>(strategy: Strategy, cap: nat, s: State<T>, ps: seq<T>, k: nat): (t: seq<Entry<T>>)
    requires Inv(s, cap) && k <= |ps|
    ensures |t| == k
    decreases k
  {
    if k == 0 then []
    else Trace(strategy, cap, s, ps, k - 1) + [Record(k, ps[k - 1], Run(strategy, cap, s, ps, k))]
  }

  /** Replaying one more request steps the state reached so far and appends
      that request's record to the log. */
  lemma RunNext<T>(strategy: Strategy, cap: nat, s: State<T>, ps: seq<T>, k: nat)
    requires Inv(s, cap) && k < |ps|
    ensures Run(strategy, cap, s, ps, k + 1) == Step(strategy, cap, Run(strategy, cap, s, ps, k), ps[k])
    ensures Trace(strategy, cap, s, ps, k + 1)
      == Trace(strategy, cap, s, ps, k) + [Record(k + 1, ps[k], Run(strategy, cap, s, ps, k + 1))]
  {
  }

  /** Every reference value of the sequence's pages reset to 0, as `execute`
      does before replaying. */
  ghost function ZeroRefs<T>(ps: seq<T>): (m: map<T, nat>)
    ensures forall q :: q in ps ==> q in m
    ensures forall q :: q in m ==> q in ps && m[q] == 0
  {
    map q | q in ps :: 0
  }

  /** A policy that has just been constructed: nothing buffered, no misses,
      the hand on the last frame. */
  ghost function Initial<T>(cap: nat, ps: seq<T>): (s: State<T>)
    requires 1 <= cap
    ensures Inv(s, cap)
  {
    State([], ZeroRefs(ps), 0, cap - 1)
  }
}
