/** The queue between the emulator and the audio writer thread: a ring that drops its oldest
    samples when it is full. Both threads hold the lock for one step at a time, so a run is
    any sequence of steps; `Line` is what such a run means, the class is the ring itself. */
module AudioQueue {

  import opened Basics
  import opened Resampler

  const WRITE_CHUNK := 2048

  // -------------------------------------------------------------- one line

  datatype Event =
    | Enqueue(samples: seq<int16>)
    | Take
    | Write(ok: bool)
    | Stop

  /** The line of samples from the emulator to the device. `taken` are the positions, in all
      that was accepted, of the samples the worker took out of the queue. */
  datatype Line = Line(
    capacity: nat, queue: seq<int16>, inFlight: seq<int16>, delivered: seq<int16>,
    accepted: seq<int16>, taken: seq<nat>, dropped: nat, failed: bool, stopping: bool)

  function Started(capacity: nat): Line {
    Line(capacity, [], [], [], [], [], 0, false, false)
  }

  function Step(line: Line, event: Event): Line {
    match event
    case Enqueue(samples) =>
      if samples == [] || line.failed || line.stopping then line
      else
        var all := line.queue + samples;
        line.(queue := Last(line.capacity, all), accepted := line.accepted + samples,
              dropped := line.dropped + |all| - |Last(line.capacity, all)|)
    case Take =>
      if line.failed || line.stopping || line.inFlight != [] || line.queue == []
         || |line.accepted| < |line.queue| then line
      else
        var count, from := Min(|line.queue|, WRITE_CHUNK), |line.accepted| - |line.queue|;
        line.(inFlight := line.queue[..count], queue := line.queue[count..],
              taken := line.taken + seq(count, i => from + i))
    case Write(ok) =>
      if line.failed || line.inFlight == [] then line
      else if ok then line.(delivered := line.delivered + line.inFlight, inFlight := [])
      else line.(failed := true, queue := [])
    case Stop => line.(stopping := true)
  }

  function Run(line: Line, events: seq<Event>): Line {
    if events == [] then line else Step(Run(line, events[..|events| - 1]), events[|events| - 1])
  }

  ghost predicate Increasing(s: seq<nat>) {
    forall i, j :: 0 <= i < j < |s| ==> s[i] < s[j]
  }

  /** `part` are the samples of `all` at increasing positions. */
  ghost predicate Picks(part: seq<int16>, positions: seq<nat>, all: seq<int16>) {
    && |part| == |positions| && Increasing(positions)
    && forall i :: 0 <= i < |part| ==> positions[i] < |all| && part[i] == all[positions[i]]
  }

  /** What every step keeps: samples leave the queue only by its front, so it is the end of
      what was accepted, and everything before it was taken, in order, or dropped. */
  ghost predicate Orderly(line: Line) {
    && |line.queue| <= line.capacity && |line.queue| <= |line.accepted|
    && Picks(line.delivered + line.inFlight, line.taken, line.accepted)
    && (!line.failed ==> LastAre(line.queue, line.accepted))
    && (!line.failed ==> |line.taken| + line.dropped + |line.queue| == |line.accepted|)
    && (!line.failed ==> AllBelow(line.taken, |line.accepted| - |line.queue|))
  }

  ghost predicate AllBelow(s: seq<nat>, bound: int) {
    forall i :: 0 <= i < |s| ==> s[i] < bound
  }

  ghost predicate LastAre(s: seq<int16>, all: seq<int16>)
  {
    |s| <= |all| && s == all[|all| - |s|..]
  }

  lemma StepKeepsOrder(line: Line, event: Event)
    requires Orderly(line)
    ensures Orderly(Step(line, event))
  {
    match event
    case Enqueue(samples) => EnqueueKeepsOrder(line, samples);
    case Take => TakeKeepsOrder(line);
    case Write(_) => WriteKeepsOrder(line, event);
    case Stop =>
  }

  lemma EnqueueKeepsOrder(line: Line, samples: seq<int16>)
    requires Orderly(line)
    ensures Orderly(Step(line, Enqueue(samples)))
  {
    if samples != [] && !line.failed && !line.stopping {
      var accepted := line.accepted + samples;
      assert line.queue + samples == accepted[|line.accepted| - |line.queue|..];
      var kept := Last(line.capacity, line.queue + samples);
      assert kept == accepted[|accepted| - |kept|..];
    }
  }

  lemma TakeKeepsOrder(line: Line)
    requires Orderly(line)
    ensures Orderly(Step(line, Take))
  {
    if !line.failed && !line.stopping && line.inFlight == [] && line.queue != [] {
      hide Orderly;
      var count, from := Min(|line.queue|, WRITE_CHUNK), |line.accepted| - |line.queue|;
      FrontTaken(line, count, from);
    }
  }

  lemma FrontTaken(line: Line, count: nat, from: int)
    requires Orderly(line) && !line.failed && line.inFlight == [] && count <= |line.queue|
    requires from == |line.accepted| - |line.queue|
    ensures 0 <= from && Orderly(line.(inFlight := line.queue[..count], queue := line.queue[count..],
                                       taken := line.taken + seq(count, i => from + i)))
  {
    hide Picks, AllBelow, LastAre;
    EndParts(line.queue, line.accepted, count);
    EmptyJoins(line.delivered);
    PicksNext(line.delivered, line.taken, line.accepted, from, count);
  }

  lemma EndParts(s: seq<int16>, all: seq<int16>, count: nat)
    requires LastAre(s, all) && count <= |s|
    ensures LastAre(s[count..], all) && s[..count] == all[|all| - |s|..|all| - |s| + count]
  {
  }

  lemma PicksNext(part: seq<int16>, positions: seq<nat>, all: seq<int16>, from: nat, count: nat)
    requires Picks(part, positions, all) && AllBelow(positions, from) && from + count <= |all|
    ensures var positions' := positions + seq(count, i => from + i);
      Picks(part + all[from..from + count], positions', all) && AllBelow(positions', from + count)
  {
  }

  lemma WriteKeepsOrder(line: Line, event: Event)
    requires Orderly(line) && event.Write?
    ensures Orderly(Step(line, event))
  {
  }

  lemma {:induction false} RunKeepsOrder(line: Line, events: seq<Event>)
    requires Orderly(line)
    ensures Orderly(Run(line, events))
  {
    if events != [] {
      RunKeepsOrder(line, events[..|events| - 1]);
      StepKeepsOrder(Run(line, events[..|events| - 1]), events[|events| - 1]);
    }
  }

  /** Whatever the interleaving: what the device got is part of what was accepted, in order;
      and until the writer fails nothing is unaccounted for and the queue is the newest. */
  lemma Accounted(capacity: nat, events: seq<Event>)
    ensures var line := Run(Started(capacity), events);
      && Picks(line.delivered + line.inFlight, line.taken, line.accepted)
      && |line.queue| <= capacity
      && (!line.failed ==>
            && |line.delivered| + |line.inFlight| + line.dropped + |line.queue| == |line.accepted|
            && LastAre(line.queue, line.accepted))
  {
    RunKeepsOrder(Started(capacity), events);
    CapacityKept(Started(capacity), events);
  }

  lemma {:induction false} CapacityKept(line: Line, events: seq<Event>)
    ensures Run(line, events).capacity == line.capacity
  {
    if events != [] {
      CapacityKept(line, events[..|events| - 1]);
    }
  }

  /** If nothing was dropped, nothing is missing or out of place. */
  lemma NothingDropped(capacity: nat, events: seq<Event>)
    requires var line := Run(Started(capacity), events); !line.failed && line.dropped == 0
    ensures var line := Run(Started(capacity), events);
      line.delivered + line.inFlight + line.queue == line.accepted
  {
    RunKeepsOrder(Started(capacity), events);
    NothingMissing(Run(Started(capacity), events));
  }

  lemma NothingMissing(line: Line)
    requires Orderly(line) && !line.failed && line.dropped == 0
    ensures line.delivered + line.inFlight + line.queue == line.accepted
  {
    var n := |line.taken|;
    forall i | 0 <= i < n ensures line.taken[i] == i {
      Filled(line.taken, i);
    }
    assert line.delivered + line.inFlight == line.accepted[..n];
    assert line.queue == line.accepted[n..];
  }

  /** n increasing numbers below n are 0, 1, 2 and so on. */
  lemma {:induction false} Filled(s: seq<nat>, i: nat)
    requires Increasing(s) && AllBelow(s, |s|) && i < |s|
    ensures s[i] == i
  {
    AtLeast(s, i);
    AtMost(s, i);
  }

  lemma {:induction false} AtLeast(s: seq<nat>, i: nat)
    requires Increasing(s) && i < |s|
    ensures s[i] >= i
  {
    if i > 0 {
      AtLeast(s, i - 1);
    }
  }

  lemma {:induction false} AtMost(s: seq<nat>, i: nat)
    requires Increasing(s) && AllBelow(s, |s|) && i < |s|
    ensures s[i] <= i
    decreases |s| - i
  {
    if i + 1 < |s| {
      AtMost(s, i + 1);
    }
  }

  // ---------------------------------------------------------------- the ring

  /** The source's (head + i) % capacity. */
  function Slot(head: nat, i: nat, capacity: nat): nat { Wrapped(head + i, capacity) }

  lemma SlotIsModulo(head: nat, i: nat, capacity: nat)
    requires head < capacity && i <= capacity
    ensures (head + i) % capacity == Slot(head, i, capacity)
  {
    WrappedIsModulo(head + i, capacity);
  }

  predicate Ring(block: seq<int16>, head: nat, size: nat) {
    head < |block| && size <= |block|
  }

  function Queue(block: seq<int16>, head: nat, size: nat): (r: seq<int16>)
    requires Ring(block, head, size)
    ensures |r| == size
  {
    seq(size, i requires 0 <= i < size => block[Slot(head, i, |block|)])
  }

  lemma DropFront(block: seq<int16>, head: nat, size: nat, n: nat)
    requires Ring(block, head, size) && n <= size
    ensures Slot(head, n, |block|) < |block| || (n == |block| && Slot(head, n, |block|) == head)
    ensures Queue(block, Slot(head, n, |block|), size - n) == Queue(block, head, size)[n..]
  {
  }

  /** Samples written behind the tail, in two parts where the ring wraps, join the queue. */
  lemma Appended(block: seq<int16>, head: nat, size: nat, samples: seq<int16>, first: nat)
    requires Ring(block, head, size) && |samples| <= |block| - size
    requires var tail := Slot(head, size, |block|);
      tail < |block| && first == Min(|samples|, |block| - tail)
    ensures var tail := Slot(head, size, |block|);
      var block' := Overlaid(Overlaid(block, tail, samples[..first]), 0, samples[first..]);
      Queue(block', head, size + |samples|) == Queue(block, head, size) + samples
  {
    var tail := Slot(head, size, |block|);
    var block' := Overlaid(Overlaid(block, tail, samples[..first]), 0, samples[first..]);
    var queue := Queue(block', head, size + |samples|);
    forall i | 0 <= i < |queue| ensures queue[i] == (Queue(block, head, size) + samples)[i] {
      if i >= size {
        assert Slot(head, i, |block|) == Slot(tail, i - size, |block|);
      }
    }
  }

  /** The ring and the worker's buffer hold what the line says. */
  ghost predicate Holds(line: Line, block: seq<int16>, head: nat, size: nat, chunk: seq<int16>) {
    (&& Ring(block, head, size) && line.capacity == |block|
     && line.queue == Queue(block, head, size)
     && line.inFlight == chunk
     && Orderly(line)) == true
  }

  function Skipped(n: nat, capacity: nat): nat { if n > capacity then n - capacity else 0 }

  /** Skipping the samples that cannot fit and then making room keeps the newest. */
  lemma EnqueueHolds(line: Line, block: seq<int16>, head: nat, size: nat, chunk: seq<int16>, samples: seq<int16>,
                     skipped: nat, discarded: nat, block': seq<int16>, head': nat, size': nat)
    requires Holds(line, block, head, size, chunk)
    requires samples != [] && !line.failed && !line.stopping
    requires skipped == Skipped(|samples|, |block|) && discarded == Skipped(|samples| - skipped + size, |block|)
    requires Ring(block', head', size') && |block'| == |block| && discarded <= size
    requires Queue(block', head', size') == Queue(block, head, size)[discarded..] + samples[skipped..]
    ensures var line' := Step(line, Enqueue(samples));
      Holds(line', block', head', size', chunk) && line'.dropped == line.dropped + skipped + discarded
  {
    EnqueueKeepsOrder(line, samples);
    hide Orderly, Queue;
    NewestKept(Queue(block, head, size), samples, |block|, skipped, discarded);
  }

  lemma NewestKept(queue: seq<int16>, samples: seq<int16>, capacity: nat, skipped: nat, discarded: nat)
    requires |queue| <= capacity && skipped == Skipped(|samples|, capacity)
    requires discarded == Skipped(|samples| - skipped + |queue|, capacity)
    ensures Last(capacity, queue + samples) == queue[discarded..] + samples[skipped..]
  {
  }

  lemma TakeHolds(line: Line, block: seq<int16>, head: nat, size: nat, n: nat, head': nat, chunk: seq<int16>)
    requires Holds(line, block, head, size, [])
    requires !line.failed && !line.stopping && size > 0
    requires n == Min(size, WRITE_CHUNK) && head' == (head + n) % |block|
    requires |chunk| == n && forall i :: 0 <= i < n ==> chunk[i] == block[Slot(head, i, |block|)]
    ensures Holds(Step(line, Take), block, head', size - n, chunk)
    ensures var line' := Step(line, Take);
      line'.dropped == line.dropped && line'.failed == line.failed && line'.stopping == line.stopping
  {
    TakeKeepsOrder(line);
    SlotIsModulo(head, n, |block|);
    assert chunk == line.queue[..n];
    if n == |block| {
      assert size - n == 0;
    }
    DropFront(block, head, size, n);
  }

  /** What a call with these samples puts into the queue, after calls with so many frames. */
  function Mono(calls: seq<nat>, samples: seq<int16>, sourceRate: nat, outputRate: nat): seq<int16>
    requires samples != [] && sourceRate > 0
  {
    if sourceRate == outputRate then samples
    else
      var before := Produced(calls, sourceRate, outputRate);
      Resampled(samples, Whole(Scaled(|samples|, outputRate, before.1), sourceRate))
  }

  /** A call queues what is due for all frames so far, less what was due before it. */
  lemma MonoIsDue(calls: seq<nat>, samples: seq<int16>, sourceRate: nat, outputRate: nat)
    requires samples != [] && sourceRate > 0
    ensures |Mono(calls, samples, sourceRate, outputRate)| ==
      Sum(calls + [|samples|]) * outputRate / sourceRate - Sum(calls) * outputRate / sourceRate
  {
    assert (calls + [|samples|])[..|calls|] == calls;
    SplitDoesNotMatter(calls, sourceRate, outputRate);
    SplitDoesNotMatter(calls + [|samples|], sourceRate, outputRate);
    if sourceRate == outputRate {
      QuotientIs(Sum(calls) * outputRate, sourceRate, Sum(calls), 0);
      QuotientIs(Sum(calls + [|samples|]) * outputRate, sourceRate, Sum(calls) + |samples|, 0);
    }
  }

  class DeckAudio {
    const sourceRate: nat
    const outputRate: nat
    var rateRemainder: nat
    /** Frames of each call of WriteMono so far. */
    ghost var calls: seq<nat>
    /** Frames those calls handed on to the queue. */
    ghost var handed: nat
    const queue: array<int16>
    var head: nat
    var size: nat
    var dropped: nat
    var workerFailed: bool
    var stopping: bool
    /** The worker's buffer, with the samples it is writing. */
    const output: array<int16>
    var count: nat
    ghost var line: Line

    ghost predicate Valid()
      reads this, queue, output
    {
      && queue != output && output.Length == WRITE_CHUNK && count <= WRITE_CHUNK
      && Holds(line, queue[..], head, size, output[..count])
      && line.dropped == dropped && line.failed == workerFailed && line.stopping == stopping
    }

    /** The frames handed on and the remainder make up what is due for all frames so far. */
    ghost predicate InStep()
      reads this
    {
      && sourceRate > 0
      && (sourceRate != outputRate ==>
            && rateRemainder == Produced(calls, sourceRate, outputRate).1
            && rateRemainder < sourceRate
            && handed * sourceRate + rateRemainder == Sum(calls) * outputRate)
      && (sourceRate == outputRate ==> handed == Sum(calls))
    }

    constructor (capacity: nat, sourceRate: nat, outputRate: nat)
      requires capacity > 0 && sourceRate > 0
      ensures Valid() && InStep() && fresh(queue) && fresh(output)
      ensures line == Started(capacity) && calls == [] && handed == 0
      ensures this.sourceRate == sourceRate && this.outputRate == outputRate
    {
      this.sourceRate, this.outputRate, rateRemainder := sourceRate, outputRate, 0;
      calls, handed := [], 0;
      queue := new int16[capacity](_ => 0);
      output := new int16[WRITE_CHUNK](_ => 0);
      head, size, dropped, workerFailed, stopping, count := 0, 0, 0, false, false, 0;
      line := Started(capacity);
    }

    method CopyIn(samples: seq<int16>, at: nat)
      requires at + |samples| <= queue.Length
      modifies queue
      ensures queue[..] == Overlaid(old(queue[..]), at, samples)
    {
      for i := 0 to |samples|
        invariant queue[..] == Overlaid(old(queue[..]), at, samples[..i])
      {
        queue[at + i] := samples[i];
      }
      assert samples[..|samples|] == samples;
    }

    /** The emulator's step: the queue keeps the newest of what it held and what comes. */
    method Enqueue(samples: seq<int16>) returns (ok: bool)
      requires Valid()
      modifies this`head, this`size, this`dropped, this`line, queue
      ensures Valid() && line == Step(old(line), Event.Enqueue(samples))
      ensures ok <==> samples != [] && !old(workerFailed) && !old(stopping)
    {
      ok := false;
      if |samples| == 0 || stopping || workerFailed { return; }
      var skipped := if |samples| > queue.Length then |samples| - queue.Length else 0;
      var n := |samples| - skipped;
      var discarded := if n > queue.Length - size then n - (queue.Length - size) else 0;
      Replace(samples[skipped..], discarded);
      EnqueueHolds(line, old(queue[..]), old(head), old(size), output[..count], samples,
                   skipped, discarded, queue[..], head, size);
      dropped := dropped + skipped + discarded;
      line := Step(line, Event.Enqueue(samples));
      ok := true;
    }

    /** write_mono: resampled, with the remainder carried on, and queued. */
    method WriteMono(samples: seq<int16>) returns (ok: bool)
      requires Valid() && InStep()
      modifies this, queue
      ensures Valid() && InStep()
      ensures samples == [] ==> !ok && line == old(line) && calls == old(calls) && handed == old(handed)
      ensures samples != [] ==> calls == old(calls) + [|samples|]
      ensures samples != [] ==> handed == old(handed) + |Mono(old(calls), samples, sourceRate, outputRate)|
      ensures samples != [] ==>
        line == Step(old(line), Event.Enqueue(Mono(old(calls), samples, sourceRate, outputRate)))
      ensures samples != [] ==>
        (ok <==> Mono(old(calls), samples, sourceRate, outputRate) == [] || (!workerFailed && !stopping))
      ensures ok ==> |line.accepted| - old(|line.accepted|) == handed - old(handed)
    {
      if |samples| == 0 { return false; }
      var mono := Convert(samples);
      if |mono| == 0 { return true; }
      ok := Enqueue(mono);
    }

    method Convert(samples: seq<int16>) returns (mono: seq<int16>)
      requires InStep() && samples != []
      modifies this`rateRemainder, this`calls, this`handed
      ensures InStep() && calls == old(calls) + [|samples|] && handed == old(handed) + |mono|
      ensures mono == Mono(old(calls), samples, sourceRate, outputRate)
    {
      ProducedNext(calls, |samples|, sourceRate, outputRate);
      SumNext(calls, |samples|);
      if sourceRate != outputRate {
        CountsOn(handed, rateRemainder, |samples|, Sum(calls), sourceRate, outputRate);
      }
      calls := calls + [|samples|];
      mono := samples;
      if sourceRate != outputRate {
        var scaled := Scaled(|samples|, outputRate, rateRemainder);
        var outputFrames := Whole(scaled, sourceRate);
        rateRemainder := scaled % sourceRate;
        var buffer := Resample(samples, outputFrames);
        mono := buffer[..];
      }
      handed := handed + |mono|;
    }

    /** Makes room at the front and appends. */
    method Replace(samples: seq<int16>, discarded: nat)
      requires Ring(queue[..], head, size) && samples != []
      requires discarded <= size && |samples| <= queue.Length - (size - discarded)
      modifies this`head, this`size, queue
      ensures size == old(size) - discarded + |samples| && Ring(queue[..], head, size)
      ensures Queue(queue[..], head, size) == old(Queue(queue[..], head, size))[discarded..] + samples
    {
      SlotIsModulo(head, discarded, queue.Length);
      DropFront(queue[..], head, size, discarded);
      head, size := (head + discarded) % queue.Length, size - discarded;
      Append(samples);
    }

    method Append(samples: seq<int16>)
      requires Ring(queue[..], head, size) && samples != [] && |samples| <= queue.Length - size
      modifies this`size, queue
      ensures size == old(size) + |samples| && Ring(queue[..], head, size)
      ensures Queue(queue[..], head, size) == old(Queue(queue[..], head, size)) + samples
    {
      SlotIsModulo(head, size, queue.Length);
      var tail := (head + size) % queue.Length;
      var first := Min(|samples|, queue.Length - tail);
      Appended(queue[..], head, size, samples, first);
      CopyIn(samples[..first], tail);
      CopyIn(samples[first..], 0);
      size := size + |samples|;
    }

    method CopyOut(from: nat, n: nat, to: nat)
      requires queue != output && from + n <= queue.Length && to + n <= output.Length
      modifies output
      ensures output[..] == Overlaid(old(output[..]), to, queue[from..from + n])
    {
      for i := 0 to n
        invariant output[..] == Overlaid(old(output[..]), to, queue[from..from + i])
      {
        output[to + i] := queue[from + i];
      }
    }

    /** The worker's locked step: the oldest samples move to its own buffer. */
    method Take()
      requires Valid()
      modifies this, output
      ensures Valid() && line == Step(old(line), Event.Take)
    {
      if count != 0 || stopping || workerFailed || size == 0 { return; }
      TakeFront();
    }

    method TakeFront()
      requires Valid() && count == 0 && !stopping && !workerFailed && size > 0
      modifies this`head, this`size, this`count, this`line, output
      ensures Valid() && line == Step(old(line), Event.Take)
    {
      assert Ring(queue[..], head, size) && output[..count] == [];
      hide Holds, Step;
      var n := CopyFront();
      var next := (head + n) % queue.Length;
      TakeHolds(line, queue[..], head, size, n, next, output[..n]);
      head, size, count := next, size - n, n;
      line := Step(line, Event.Take);
    }

    method CopyFront() returns (n: nat)
      requires queue != output && output.Length == WRITE_CHUNK && Ring(queue[..], head, size)
      modifies output
      ensures n == Min(size, WRITE_CHUNK)
      ensures forall i :: 0 <= i < n ==> output[i] == queue[Slot(head, i, queue.Length)]
    {
      n := Min(size, output.Length);
      var first := Min(n, queue.Length - head);
      CopyOut(head, first, 0);
      CopyOut(0, n - first, first);
      assert forall i :: 0 <= i < n ==> output[i] == output[..][i];
    }

    /** The worker's unlocked step: its buffer reaches the device, or the writer fails. */
    method Write(ok: bool)
      requires Valid()
      modifies this
      ensures Valid() && line == Step(old(line), Event.Write(ok))
    {
      if count == 0 || workerFailed { return; }
      WriteKeepsOrder(line, Event.Write(ok));
      line := Step(line, Event.Write(ok));
      if ok {
        count := 0;
      } else {
        workerFailed, size := true, 0;
      }
    }

    method Stop()
      requires Valid()
      modifies this
      ensures Valid() && line == Step(old(line), Event.Stop)
    {
      stopping := true;
      line := Step(line, Event.Stop);
    }

    /** Any interleaving of the two threads. */
    method Interleave(events: seq<Event>)
      requires Valid()
      modifies this, queue, output
      ensures Valid() && line == Run(old(line), events)
    {
      for i := 0 to |events|
        invariant Valid() && line == Run(old(line), events[..i])
      {
        assert events[..i + 1][..i] == events[..i];
        match events[i]
        case Enqueue(samples) => var _ := Enqueue(samples);
        case Take => Take();
        case Write(ok) => Write(ok);
        case Stop => Stop();
      }
      assert events[..|events|] == events;
    }
  }
}
