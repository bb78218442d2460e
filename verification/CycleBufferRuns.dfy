/** Whole runs of writes and reads over the ring, with user copies that may fault. */
module CycleBufferRuns {
  import opened CycleBuffer

  datatype Step =
    | Write(ready: bool, data: seq<char>)
    | Read(count: nat, firstOk: nat, lastOk: nat)

  /** The ring, everything it accepted and everything its readers were given. */
  datatype Traffic = Traffic(queue: Queue, accepted: seq<char>, delivered: seq<char>)

  function Start(size: nat): Traffic {
    Traffic(Queue([], size), [], [])
  }

  ghost predicate TrafficOk(t: Traffic, size: nat) {
    QueueOk(t.queue, size)
  }

  function Apply(t: Traffic, size: nat, step: Step): (t': Traffic)
    requires TrafficOk(t, size)
    ensures TrafficOk(t', size)
  {
    match step
    case Write(ready, data) =>
      Traffic(AfterWrite(t.queue, size, ready, data),
              if Accepts(t.queue, size, ready, data) then t.accepted + data else t.accepted,
              t.delivered)
    case Read(count, firstOk, lastOk) =>
      TakenBounds(t.queue, count, firstOk, lastOk);
      Traffic(AfterRead(t.queue, size, count, firstOk, lastOk), t.accepted,
              t.delivered + Delivered(t.queue, count, firstOk, lastOk))
  }

  function Run(t: Traffic, size: nat, steps: seq<Step>): (t': Traffic)
    requires TrafficOk(t, size)
    ensures TrafficOk(t', size)
    decreases |steps|
  {
    if steps == [] then t else Run(Apply(t, size, steps[0]), size, steps[1..])
  }

  /** The one departure: a crossing read whose first copy stores some bytes but not all of them
      reports those bytes and leaves them in the ring. */
  predicate Redelivers(t: Traffic, step: Step) {
    step.Read? && FirstCopyFaults(t.queue, step.count, step.firstOk) && step.firstOk > 0
  }

  predicate NeverRedelivers(t: Traffic, size: nat, steps: seq<Step>)
    requires TrafficOk(t, size)
    decreases |steps|
  {
    steps == [] || (!Redelivers(t, steps[0]) && NeverRedelivers(Apply(t, size, steps[0]), size, steps[1..]))
  }

  ghost predicate Conserved(t: Traffic) {
    t.delivered + t.queue.bytes == t.accepted
  }

  /** How many bytes more were handed over or are unread than were accepted. */
  function Surplus(t: Traffic): int {
    |t.delivered| + |t.queue.bytes| - |t.accepted|
  }

  lemma StepConserves(t: Traffic, size: nat, step: Step)
    requires TrafficOk(t, size)
    ensures Conserved(t) && !Redelivers(t, step) ==> Conserved(Apply(t, size, step))
    ensures Surplus(Apply(t, size, step)) == Surplus(t) + if Redelivers(t, step) then step.firstOk else 0
  {
  }

  lemma {:induction false} RunConserves(t: Traffic, size: nat, steps: seq<Step>)
    requires TrafficOk(t, size)
    ensures Conserved(t) && NeverRedelivers(t, size, steps) ==> Conserved(Run(t, size, steps))
    ensures Surplus(Run(t, size, steps)) >= Surplus(t)
    ensures !NeverRedelivers(t, size, steps) ==> Surplus(Run(t, size, steps)) > Surplus(t)
    decreases |steps|
  {
    if steps != [] {
      StepConserves(t, size, steps[0]);
      RunConserves(Apply(t, size, steps[0]), size, steps[1..]);
    }
  }

  /** Over every run, what was handed over followed by what is unread is what was accepted,
      exactly when no crossing read faulted in its first copy after storing something. */
  lemma ConservedIff(size: nat, steps: seq<Step>)
    requires size > 0
    ensures Conserved(Run(Start(size), size, steps)) <==> NeverRedelivers(Start(size), size, steps)
  {
    RunConserves(Start(size), size, steps);
    var t := Run(Start(size), size, steps);
    if Conserved(t) {
      assert |t.delivered + t.queue.bytes| == |t.accepted|;
    }
  }

  /** What the writes of a run carry. */
  function Written(steps: seq<Step>): seq<char> {
    if steps == [] then []
    else (if steps[0].Write? then steps[0].data else []) + Written(steps[1..])
  }

  ghost predicate AlwaysReady(steps: seq<Step>) {
    forall i :: 0 <= i < |steps| && steps[i].Write? ==> steps[i].ready
  }

  lemma StepAccepts(t: Traffic, size: nat, step: Step)
    requires TrafficOk(t, size) && (step.Write? ==> step.ready && |t.queue.bytes| + |step.data| < size)
    ensures var t' := Apply(t, size, step);
      && t'.accepted == t.accepted + (if step.Write? then step.data else [])
      && |t'.queue.bytes| <= |t.queue.bytes| + if step.Write? then |step.data| else 0
  {
    if step.Write? {
      WriteIsAppendedIffItFits(t.queue, size, step.ready, step.data);
    } else {
      TakenBounds(t.queue, step.count, step.firstOk, step.lastOk);
    }
  }

  /** A ring that is ready and larger than all that is ever written accepts everything, whatever
      is read in between. */
  lemma {:induction false} SmallRunAcceptsAll(t: Traffic, size: nat, steps: seq<Step>)
    requires TrafficOk(t, size) && AlwaysReady(steps) && |t.queue.bytes| + |Written(steps)| < size
    ensures Run(t, size, steps).accepted == t.accepted + Written(steps)
    decreases |steps|
  {
    if steps != [] {
      var rest := steps[1..];
      assert |Written(steps)| == (if steps[0].Write? then |steps[0].data| else 0) + |Written(rest)|;
      StepAccepts(t, size, steps[0]);
      assert AlwaysReady(rest);
      SmallRunAcceptsAll(Apply(t, size, steps[0]), size, rest);
    }
  }

  /** The departure happens: a ring of 3 bytes, a stretch up to its end and a faulting read. */
  lemma FaultRedelivers()
    ensures var steps := [Write(true, "a"), Read(1, 1, 1), Write(true, "bc"), Read(2, 1, 2)];
      Run(Start(3), 3, steps) == Traffic(Queue("bc", 2), "abc", "ab")
  {
    var t0 := Start(3);
    var t1 := Apply(t0, 3, Write(true, "a"));
    assert t1 == Traffic(Queue("a", 3), "a", "");
    var t2 := Apply(t1, 3, Read(1, 1, 1));
    assert t2 == Traffic(Queue("", 2), "a", "a");
    var t3 := Apply(t2, 3, Write(true, "bc"));
    assert t3 == Traffic(Queue("bc", 2), "abc", "a");
    var t4 := Apply(t3, 3, Read(2, 1, 2));
    assert t4 == Traffic(Queue("bc", 2), "abc", "ab");
    RunOfFour(t0, 3, Write(true, "a"), Read(1, 1, 1), Write(true, "bc"), Read(2, 1, 2));
  }

  lemma RunOfFour(t: Traffic, size: nat, a: Step, b: Step, c: Step, d: Step)
    requires TrafficOk(t, size)
    ensures Run(t, size, [a, b, c, d]) == Apply(Apply(Apply(Apply(t, size, a), size, b), size, c), size, d)
  {
    var t1 := Apply(t, size, a);
    var t2 := Apply(t1, size, b);
    var t3 := Apply(t2, size, c);
    assert [a, b, c, d][1..] == [b, c, d] && [b, c, d][1..] == [c, d] && [c, d][1..] == [d];
    assert Run(t3, size, [d]) == Apply(t3, size, d);
    assert Run(t2, size, [c, d]) == Run(t3, size, [d]);
    assert Run(t1, size, [b, c, d]) == Run(t2, size, [c, d]);
  }
}
