// The policy engine on objects: a policy owns the buffer of shared `Page`
// objects, the miss counter, the step log and the clock hand, and replays the
// request sequence. Each request is proved to perform `Simulation.Step` on the
// policy's state, so `Execute` performs `Simulation.Run` and logs `Simulation.Trace`.

module PolicyEngine {
  import opened Seqs
  import opened Rules
  import opened Simulation
  import opened Structure

  /** The request sequence for `identifiers`: one new page per distinct
      identifier, shared by every request that repeats it. */
  method CreateSequence(identifiers: seq<char>) returns (sequence: seq<Page>)
    ensures |sequence| == |identifiers|
    ensures forall i :: 0 <= i < |sequence| ==> sequence[i].identifier == identifiers[i]
    ensures forall i, j :: 0 <= i < |sequence| && 0 <= j < |sequence| ==>
      (sequence[i] == sequence[j] <==> identifiers[i] == identifiers[j])
    ensures forall i :: 0 <= i < |sequence| ==> fresh(sequence[i]) && sequence[i].reference == 0
  {
    sequence := [];
    var seen: map<char, Page> := map[];
    for i := 0 to |identifiers|
      invariant |sequence| == i
      invariant forall j :: 0 <= j < i ==> identifiers[j] in seen && sequence[j] == seen[identifiers[j]]
      invariant forall c :: c in seen ==> seen[c].identifier == c && fresh(seen[c]) && seen[c].reference == 0
    {
      var c := identifiers[i];
      if c !in seen {
        var page := new Page(c);
        seen := seen[c := page];
      }
      sequence := sequence + [seen[c]];
    }
  }

  /** The (page, reference value) pairs of `buf`, in order. */
  function Pairs(buf: seq<Page>): (r: seq<(Page, nat)>)
    reads set q | q in buf
    ensures |r| == |buf|
    ensures forall i :: 0 <= i < |buf| ==> r[i] == (buf[i], buf[i].reference)
  {
    if buf == [] then [] else [(buf[0], buf[0].reference)] + Pairs(buf[1..])
  }

  class Policy {
    const strategy: Strategy
    const sequence: seq<Page>
    const bufferSize: nat
    var buffer: seq<Page>
    var io: nat
    var steps: seq<Entry<Page>>
    // The clock hand; only CLOCK and GCLOCK move it.
    var cursorPos: nat

    /** The distinct pages of the request sequence. */
    ghost function Pages(): set<Page> {
      set q | q in sequence
    }

    /** The reference value of every page of the sequence. */
    ghost function Refs(): map<Page, nat>
      reads Pages()
    {
      map q | q in Pages() :: q.reference
    }

    /** The policy's state as the value the simulation steps. */
    ghost function Model(): State<Page>
      reads this, Pages()
    {
      State(buffer, Refs(), io, cursorPos)
    }

    /** The simulation's invariant, and the buffer holds distinct pages of the
        sequence. */
    ghost predicate Valid()
      reads this, Pages()
    {
      && Inv(Model(), bufferSize)
      && NoDup(buffer)
      && (forall q :: q in buffer ==> q in sequence)
    }

    constructor (strategy: Strategy, sequence: seq<Page>, bufferSize: nat)
      requires bufferSize >= 1
      ensures this.strategy == strategy && this.sequence == sequence && this.bufferSize == bufferSize
      ensures buffer == [] && io == 0 && steps == [] && cursorPos == bufferSize - 1
      ensures Valid()
    {
      this.strategy := strategy;
      this.sequence := sequence;
      this.bufferSize := bufferSize;
      buffer := [];
      io := 0;
      steps := [];
      cursorPos := bufferSize - 1;
    }

    /** Resets every page's reference value to 0, then replays the sequence,
        logging after each request its number, the page with its reference
        value, the buffer's pages with theirs and the miss count so far. */
    method Execute()
      requires Valid()
      modifies this, Pages()
      ensures Valid()
      ensures var s0 := old(Model()).(refs := ZeroRefs(sequence));
        && Inv(s0, bufferSize)
        && Model() == Run(strategy, bufferSize, s0, sequence, |sequence|)
        && steps == old(steps) + Trace(strategy, bufferSize, s0, sequence, |sequence|)
    {
      ResetReferences();
      Replay();
    }

    /** The replay loop of `Execute`: request after request, serve and log. */
    method Replay()
      requires Valid()
      modifies this, Pages()
      ensures Valid()
      ensures Model() == Run(strategy, bufferSize, old(Model()), sequence, |sequence|)
      ensures steps == old(steps) + Trace(strategy, bufferSize, old(Model()), sequence, |sequence|)
    {
      ghost var s0 := Model();
      var stepNumber := 1;
      for i := 0 to |sequence|
        invariant Valid()
        invariant stepNumber == i + 1
        invariant Model() == Run(strategy, bufferSize, s0, sequence, i)
        invariant steps == old(steps) + Trace(strategy, bufferSize, s0, sequence, i)
      {
        RunNext(strategy, bufferSize, s0, sequence, i);
        Request(stepNumber, sequence[i]);
        stepNumber := stepNumber + 1;
      }
    }

    /** One turn of the replay: serve request number `n` for `p` and log it. */
    method Request(n: nat, p: Page)
      requires Valid() && p in sequence
      modifies this, Pages()
      ensures Valid()
      ensures Model() == Step(strategy, bufferSize, old(Model()), p)
      ensures steps == old(steps) + [Record(n, p, Model())]
    {
      PageRequest(p);
      Log(n, p);
    }

    /** Appends the entry of request number `n` for `p`: the page with its
        reference value, the buffer's pages with theirs, and the miss count. */
    method Log(n: nat, p: Page)
      requires p in sequence && forall q :: q in buffer ==> q in sequence
      modifies this`steps
      ensures steps == old(steps) + [Record(n, p, Model())]
    {
      assert Pairs(buffer) == Snapshot(buffer, Refs());
      steps := steps + [Entry(n, p, p.reference, Pairs(buffer), io)];
    }

    /** Sets the reference value of every page of the sequence to 0. */
    method ResetReferences()
      modifies Pages()
      ensures Refs() == ZeroRefs(sequence)
    {
      for i := 0 to |sequence|
        invariant forall j :: 0 <= j < i ==> sequence[j].reference == 0
      {
        sequence[i].ResetReference();
      }
    }

    /** One request under the policy's strategy. */
    method PageRequest(p: Page)
      requires Valid() && p in sequence
      modifies this, Pages()
      ensures Valid()
      ensures Model() == Step(strategy, bufferSize, old(Model()), p)
      ensures steps == old(steps)
    {
      match strategy {
        case FIFO => FifoRequest(p);
        case LRU => LruRequest(p);
        case MRU => MruRequest(p);
        case CLOCK => ClockRequest(p);
        case GCLOCK => ClockRequest(p);
      }
    }

    /** FIFO: a hit is ignored; a miss is counted and loads `p` at the head,
        evicting the tail when the buffer is full. */
    method FifoRequest(p: Page)
      requires Valid() && p in sequence
      modifies this
      ensures Valid()
      ensures buffer == FifoBuffer(old(buffer), bufferSize, p)
      ensures io == old(io) + Miss(old(buffer), p)
      ensures cursorPos == old(cursorPos) && steps == old(steps)
    {
      FifoAdmits(buffer, bufferSize, p);
      if p in buffer {
        return;
      }
      io := io + 1;
      if |buffer| < bufferSize {
        buffer := [p] + buffer;
        return;
      }
      buffer := buffer[..|buffer| - 1];
      buffer := [p] + buffer;
    }

    /** LRU: a hit moves `p` to the head; a miss is counted and loads `p` at
        the head, evicting the tail when the buffer is full. */
    method LruRequest(p: Page)
      requires Valid() && p in sequence
      modifies this
      ensures Valid()
      ensures buffer == LruBuffer(old(buffer), bufferSize, p)
      ensures io == old(io) + Miss(old(buffer), p)
      ensures cursorPos == old(cursorPos) && steps == old(steps)
    {
      LruAdmits(buffer, bufferSize, p);
      if p in buffer {
        buffer := Remove(buffer, p);
        buffer := [p] + buffer;
        return;
      }
      io := io + 1;
      if |buffer| < bufferSize {
        buffer := [p] + buffer;
        return;
      }
      buffer := buffer[..|buffer| - 1];
      buffer := [p] + buffer;
    }

    /** MRU: a hit moves `p` to the head; a miss is counted and loads `p` at
        the head, evicting the head when the buffer is full. */
    method MruRequest(p: Page)
      requires Valid() && p in sequence
      modifies this
      ensures Valid()
      ensures buffer == MruBuffer(old(buffer), bufferSize, p)
      ensures io == old(io) + Miss(old(buffer), p)
      ensures cursorPos == old(cursorPos) && steps == old(steps)
    {
      MruAdmits(buffer, bufferSize, p);
      if p in buffer {
        buffer := Remove(buffer, p);
        buffer := [p] + buffer;
        return;
      }
      io := io + 1;
      if |buffer| < bufferSize {
        buffer := [p] + buffer;
        return;
      }
      buffer := buffer[1..];
      buffer := [p] + buffer;
    }

    /** CLOCK and GCLOCK: bump `p`'s reference value; on a miss count it and
        load `p`, sweeping for a victim when the buffer is full. */
    method ClockRequest(p: Page)
      requires Valid() && p in sequence && (strategy == CLOCK || strategy == GCLOCK)
      modifies this, Pages()
      ensures Valid()
      ensures Model() == ClockStep(strategy == CLOCK, bufferSize, old(Model()), p)
      ensures steps == old(steps)
    {
      ClockAdmits(strategy == CLOCK, bufferSize, Model(), p);
      var _ := IncrementReference(p);
      if p in buffer {
        return;
      }
      io := io + 1;
      if |buffer| < bufferSize {
        buffer := [p] + buffer;
        return;
      }
      Evict(p);
    }

    /** The sweep of a miss on a full buffer: from the hand backwards, a page
        whose value is 0 is replaced by `p` and the hand moves past it; every
        other page passed has its value decremented. */
    method Evict(p: Page)
      requires Inv(Model(), bufferSize) && |buffer| == bufferSize
      requires forall q :: q in buffer ==> q in sequence
      modifies this`buffer, this`cursorPos, Pages()
      ensures buffer == old(buffer)[Sweep(old(buffer), old(Refs()), old(cursorPos)).victim := p]
      ensures Refs() == SweepRefs(old(buffer), old(Refs()), old(cursorPos))
      ensures cursorPos == Rules.Tick(Sweep(old(buffer), old(Refs()), old(cursorPos)).victim, bufferSize)
    {
      var bufferArray := ToArray(buffer);
      FindVictim(bufferArray);
      bufferArray[cursorPos] := p;
      var _ := Tick();
      buffer := bufferArray[..];
    }

    /** The loop of the sweep: while the page under the hand has a positive
        value, decrement it and tick; stop at the first page whose value is 0. */
    method FindVictim(bufferArray: array<Page>)
      requires bufferArray[..] == buffer && cursorPos < |buffer| == bufferSize
      requires forall q :: q in buffer ==> q in sequence
      modifies this`cursorPos, Pages()
      ensures cursorPos == Sweep(buffer, old(Refs()), old(cursorPos)).victim
      ensures Refs() == SweepRefs(buffer, old(Refs()), old(cursorPos))
    {
      ghost var refs := Refs();
      ghost var victim := Sweep(buffer, refs, cursorPos).victim;
      ghost var swept := SweepRefs(buffer, refs, cursorPos);
      while true
        invariant cursorPos < |buffer|
        invariant Refs() == refs
        invariant Sweep(buffer, refs, cursorPos).victim == victim
        invariant SweepRefs(buffer, refs, cursorPos) == swept
        decreases RefSum(buffer, refs)
      {
        var cursor := bufferArray[cursorPos];
        if cursor.GetReference() == 0 {
          return;
        }
        SweepPasses(buffer, refs, cursorPos);
        var _ := DecrementReference(cursor);
        refs := refs[cursor := Ref(refs, cursor) - 1];
        var _ := Tick();
      }
    }

    /** A fresh array holding the buffer's pages in order. */
    static method ToArray(buf: seq<Page>) returns (a: array<Page>)
      ensures fresh(a) && a[..] == buf
    {
      a := new Page[|buf|](i requires 0 <= i < |buf| => buf[i]);
    }

    /** The reference bump of a request: GCLOCK adds one and returns the new
        value; CLOCK raises only a 0 to 1 and always returns 1. */
    method IncrementReference(p: Page) returns (r: nat)
      requires (strategy == CLOCK || strategy == GCLOCK) && p in sequence
      modifies p
      ensures Refs() == old(Refs())[p := Bump(strategy == CLOCK, old(p.reference))]
      ensures strategy == CLOCK ==> r == 1
      ensures strategy == GCLOCK ==> r == p.reference
    {
      if strategy == CLOCK {
        if p.GetReference() == 0 {
          var _ := p.IncrementReference();
        }
        r := 1;
      } else {
        r := p.IncrementReference();
      }
      assert Refs() == old(Refs())[p := p.reference];
    }

    /** The decrement of a page the hand passes: floored at 0. */
    method DecrementReference(p: Page) returns (r: nat)
      requires p in sequence
      modifies p
      ensures Refs() == old(Refs())[p := if old(p.reference) > 0 then old(p.reference) - 1 else 0]
      ensures r == p.reference
    {
      r := p.DecrementReference();
      assert Refs() == old(Refs())[p := p.reference];
    }

    /** Moves the hand one frame back, wrapping from 0 to `bufferSize - 1`. */
    method Tick() returns (r: nat)
      requires cursorPos < bufferSize
      modifies this`cursorPos
      ensures cursorPos == Rules.Tick(old(cursorPos), bufferSize) && r == cursorPos
    {
      var c := cursorPos - 1;
      if c < 0 {
        c := bufferSize - 1;
      }
      cursorPos := c;
      r := cursorPos;
    }

    method GetIO() returns (r: nat)
      ensures r == io
    {
      r := io;
    }

    method GetSteps() returns (r: seq<Entry<Page>>)
      ensures r == steps
    {
      r := steps;
    }
  }
}
