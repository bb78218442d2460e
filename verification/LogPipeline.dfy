/** From the hooks through the ring to the reading process, as one step system: many producers,
    one reader, in any interleaving. */
module LogPipeline {
  import opened Common
  import opened LogDetails
  import opened CycleBuffer
  import opened LogRecord

  /** A record as the reader knows it. */
  datatype Entry = Entry(header: LogHeader, path: CString, details: CString)

  function EntryOf(h: LogHeader, path: Option<CString>, details: Option<CString>): Entry {
    Entry(WithLayout(h, path, details), Text(path), Text(details))
  }

  function EncodeContent(e: Entry): string {
    Content(Some(e.path), Some(e.details))
  }

  function EncodeAll(es: seq<Entry>): string {
    if es == [] then "" else EncodeHeader(es[0].header) + EncodeContent(es[0]) + EncodeAll(es[1..])
  }

  /** Where the reader's loop stands. */
  datatype Phase = Closed | AwaitHeader | AwaitContent(header: LogHeader) | Stopped

  datatype World = World(queue: Queue, phase: Phase, accepted: seq<Entry>, decoded: seq<Entry>)

  datatype Event =
    | Produce(header: LogHeader, path: Option<CString>, details: Option<CString>)
    | ReadOnce(memoryOk: bool)
    | Open
    | Release
    /** Another process reads: interface_read does not ask who the owner is. */
    | ForeignRead(count: nat)

  ghost predicate WorldOk(w: World, size: nat) {
    QueueOk(w.queue, size)
  }

  /** One read of a header: nothing yet means try again, anything but a whole header is fatal. */
  function AfterHeaderRead(w: World, size: nat): World
    requires WorldOk(w, size)
  {
    var bytes := Delivered(w.queue, HEADER_SIZE, HEADER_SIZE, HEADER_SIZE);
    var queue := AfterRead(w.queue, size, HEADER_SIZE, HEADER_SIZE, HEADER_SIZE);
    if bytes == "" then w.(queue := queue)
    else if |bytes| != HEADER_SIZE then w.(queue := queue, phase := Stopped)
    else w.(queue := queue, phase := AwaitContent(DecodeHeader(bytes)))
  }

  function AfterContentRead(w: World, size: nat, h: LogHeader, memoryOk: bool): World
    requires WorldOk(w, size)
  {
    var n := h.contentSize;
    if n <= 0 || !memoryOk then w.(phase := Stopped)
    else
      var bytes := Delivered(w.queue, n, n, n);
      var queue := AfterRead(w.queue, size, n, n, n);
      if |bytes| != n then w.(queue := queue, phase := Stopped)
      else match SplitContent(bytes)
        case None => w.(queue := queue, phase := Stopped)
        case Some((path, details)) =>
          w.(queue := queue, phase := AwaitHeader, decoded := w.decoded + [Entry(h, path, details)])
  }

  function Apply(w: World, size: nat, event: Event): World
    requires WorldOk(w, size)
  {
    match event
    case Produce(h, path, details) =>
      var data := Serialise(h, path, details);
      World(AfterWrite(w.queue, size, !w.phase.Closed?, data), w.phase,
            if Accepts(w.queue, size, !w.phase.Closed?, data)
            then w.accepted + [EntryOf(h, path, details)]
            else w.accepted,
            w.decoded)
    case ReadOnce(memoryOk) =>
      (match w.phase
       case AwaitHeader => AfterHeaderRead(w, size)
       case AwaitContent(h) => AfterContentRead(w, size, h, memoryOk)
       case _ => w)
    case Open => if w.phase.Closed? then w.(phase := AwaitHeader) else w
    case Release => w.(phase := Closed)
    case ForeignRead(count) => w.(queue := AfterRead(w.queue, size, count, count, count))
  }

  lemma ApplyKeepsOk(w: World, size: nat, event: Event)
    requires WorldOk(w, size)
    ensures WorldOk(Apply(w, size, event), size)
  {
    match event
    case Produce(_, _, _) =>
    case ReadOnce(_) =>
      CompleteRead(w.queue, size, HEADER_SIZE);
      if w.phase.AwaitContent? && w.phase.header.contentSize > 0 {
        CompleteRead(w.queue, size, w.phase.header.contentSize);
      }
    case ForeignRead(count) => CompleteRead(w.queue, size, count);
    case _ =>
  }

  function Run(w: World, size: nat, events: seq<Event>): (w': World)
    requires WorldOk(w, size)
    ensures WorldOk(w', size)
    decreases |events|
  {
    if events == [] then w
    else
      ApplyKeepsOk(w, size, events[0]);
      Run(Apply(w, size, events[0]), size, events[1..])
  }

  function Start(size: nat): World {
    World(Queue("", size), Closed, [], [])
  }

  // ---- the framing invariant ----

  ghost predicate LayoutOk(e: Entry) {
    e.header.contentSize == |EncodeContent(e)|
  }

  /** Does the reader hold a header whose content is still in the ring? */
  predicate MidRecord(w: World) {
    w.phase.AwaitContent? || w.phase.Stopped?
  }

  /** pending: accepted but not yet decoded. The ring holds exactly their bytes, less the header
      that the reader already took. */
  ghost predicate FramedBy(w: World, pending: seq<Entry>) {
    && w.accepted == w.decoded + pending
    && (forall e :: e in pending ==> LayoutOk(e))
    && (w.phase.AwaitContent? ==> pending != [] && w.phase.header == pending[0].header)
    && if MidRecord(w)
       then pending != [] && w.queue.bytes == EncodeContent(pending[0]) + EncodeAll(pending[1..])
       else w.queue.bytes == EncodeAll(pending)
  }

  ghost predicate Framed(w: World) {
    exists pending :: FramedBy(w, pending)
  }

  lemma {:induction false} EncodeAllAppend(es: seq<Entry>, e: Entry)
    ensures EncodeAll(es + [e]) == EncodeAll(es) + (EncodeHeader(e.header) + EncodeContent(e))
  {
    if es == [] {
      assert es + [e] == [e];
    } else {
      EncodeAllAppend(es[1..], e);
      assert (es + [e])[1..] == es[1..] + [e];
      Associate(EncodeHeader(es[0].header) + EncodeContent(es[0]), EncodeAll(es[1..]),
                EncodeHeader(e.header) + EncodeContent(e));
    }
  }

  lemma EntryBytes(h: LogHeader, path: Option<CString>, details: Option<CString>)
    ensures var e := EntryOf(h, path, details);
      && EncodeContent(e) == Content(path, details)
      && Serialise(h, path, details) == EncodeHeader(e.header) + EncodeContent(e)
  {
  }

  lemma AppendKeepsFraming(w: World, w': World, pending: seq<Entry>, e: Entry)
    requires FramedBy(w, pending) && LayoutOk(e)
    requires w'.phase == w.phase && w'.decoded == w.decoded && w'.accepted == w.accepted + [e]
    requires w'.queue.bytes == w.queue.bytes + (EncodeHeader(e.header) + EncodeContent(e))
    ensures FramedBy(w', pending + [e])
  {
    if MidRecord(w) {
      EncodeAllAppend(pending[1..], e);
      assert (pending + [e])[1..] == pending[1..] + [e];
      Associate(EncodeContent(pending[0]), EncodeAll(pending[1..]), EncodeHeader(e.header) + EncodeContent(e));
    } else {
      EncodeAllAppend(pending, e);
    }
  }

  lemma ProduceKeepsFraming(w: World, size: nat, event: Event, pending: seq<Entry>)
    requires WorldOk(w, size) && size <= 0x8000_0000 && event.Produce? && FramedBy(w, pending)
    ensures Framed(Apply(w, size, event))
  {
    var e := EntryOf(event.header, event.path, event.details);
    var data := Serialise(event.header, event.path, event.details);
    var w' := Apply(w, size, event);
    if Accepts(w.queue, size, !w.phase.Closed?, data) {
      OffsetsAgree(event.header, event.path, event.details);
      EntryBytes(event.header, event.path, event.details);
      AppendKeepsFraming(w, w', pending, e);
    } else {
      assert FramedBy(w', pending);
    }
  }

  lemma HeaderReadKeepsFraming(w: World, size: nat, pending: seq<Entry>)
    requires WorldOk(w, size) && w.phase.AwaitHeader? && FramedBy(w, pending)
    ensures FramedBy(AfterHeaderRead(w, size), pending)
    ensures AfterHeaderRead(w, size).phase == if pending == [] then AwaitHeader else AwaitContent(pending[0].header)
  {
    CompleteRead(w.queue, size, HEADER_SIZE);
    if pending != [] {
      var head := EncodeHeader(pending[0].header);
      assert w.queue.bytes == head + (EncodeContent(pending[0]) + EncodeAll(pending[1..]));
      assert w.queue.bytes[..HEADER_SIZE] == head;
      HeaderRoundTrip(pending[0].header);
    }
  }

  lemma ContentReadKeepsFraming(w: World, size: nat, pending: seq<Entry>)
    requires WorldOk(w, size) && w.phase.AwaitContent? && FramedBy(w, pending)
    ensures var w' := AfterContentRead(w, size, w.phase.header, true);
      w'.phase == AwaitHeader && w'.decoded == w.decoded + [pending[0]] && FramedBy(w', pending[1..])
  {
    var e := pending[0];
    var n := w.phase.header.contentSize;
    assert LayoutOk(e);
    CompleteRead(w.queue, size, n);
    assert w.queue.bytes[..n] == EncodeContent(e);
    ContentRoundTrip(Some(e.path), Some(e.details));
    assert w.accepted == w.decoded + [e] + pending[1..];
  }

  lemma ReadKeepsFraming(w: World, size: nat, event: Event, pending: seq<Entry>)
    requires WorldOk(w, size) && event.ReadOnce? && FramedBy(w, pending)
    ensures Framed(Apply(w, size, event))
    ensures Apply(w, size, event).phase.Stopped? ==> w.phase.Stopped? || event == ReadOnce(false)
  {
    if w.phase.AwaitHeader? {
      HeaderReadKeepsFraming(w, size, pending);
    } else if w.phase.AwaitContent? && event.memoryOk {
      ContentReadKeepsFraming(w, size, pending);
    } else {
      assert w.phase.AwaitContent? ==> LayoutOk(pending[0]);
      assert FramedBy(Apply(w, size, event), pending);
    }
  }

  /** A reader that leaves with a header whose content is in the ring, and any byte taken by
      another process. */
  predicate Breaks(w: World, event: Event) {
    || (event.Release? && MidRecord(w))
    || (event.ForeignRead? && event.count > 0 && w.queue.bytes != "")
  }

  /** What a framed ring holds when these records are not yet decoded. */
  function FramedBytes(pending: seq<Entry>, midRecord: bool): string {
    if midRecord && pending != [] then EncodeContent(pending[0]) + EncodeAll(pending[1..]) else EncodeAll(pending)
  }

  lemma PendingIsTheRest(w: World, pending: seq<Entry>)
    requires FramedBy(w, pending)
    ensures w.decoded <= w.accepted && w.accepted[|w.decoded|..] == pending
    ensures w.queue.bytes == FramedBytes(pending, MidRecord(w))
  {
  }

  /** Fewer bytes, or the same bytes after the header was forgotten, are not framed. */
  lemma OtherBytesAreNotFramed(w: World, pending: seq<Entry>, w': World)
    requires FramedBy(w, pending) && w'.accepted == w.accepted && w'.decoded == w.decoded
    requires if MidRecord(w) == MidRecord(w') then |w'.queue.bytes| < |w.queue.bytes|
             else MidRecord(w) && w'.queue.bytes == w.queue.bytes
    ensures !Framed(w')
  {
    PendingIsTheRest(w, pending);
    if pending': seq<Entry> :| FramedBy(w', pending') {
      PendingIsTheRest(w', pending');
    }
  }

  lemma ForeignReadBreaksFraming(w: World, size: nat, event: Event, pending: seq<Entry>)
    requires WorldOk(w, size) && FramedBy(w, pending) && event.ForeignRead?
    ensures Framed(Apply(w, size, event)) <==> !Breaks(w, event)
  {
    var w' := Apply(w, size, event);
    CompleteRead(w.queue, size, event.count);
    if Breaks(w, event) {
      OtherBytesAreNotFramed(w, pending, w');
    } else {
      assert w'.queue.bytes == w.queue.bytes;
      assert FramedBy(w', pending);
    }
  }

  lemma StepKeepsFramingIff(w: World, size: nat, event: Event)
    requires WorldOk(w, size) && size <= 0x8000_0000 && Framed(w)
    ensures Framed(Apply(w, size, event)) <==> !Breaks(w, event)
    ensures Apply(w, size, event).phase.Stopped? ==> w.phase.Stopped? || event == ReadOnce(false)
  {
    var pending :| FramedBy(w, pending);
    match event
    case Produce(_, _, _) => ProduceKeepsFraming(w, size, event, pending);
    case ReadOnce(_) => ReadKeepsFraming(w, size, event, pending);
    case ForeignRead(_) => ForeignReadBreaksFraming(w, size, event, pending);
    case Open => assert FramedBy(Apply(w, size, event), pending);
    case Release =>
      if MidRecord(w) {
        OtherBytesAreNotFramed(w, pending, Apply(w, size, event));
      } else {
        assert FramedBy(Apply(w, size, event), pending);
      }
  }

  /** Every reader of the run leaves on a record boundary, and nobody else takes bytes. */
  predicate Orderly(w: World, size: nat, events: seq<Event>)
    requires WorldOk(w, size)
    decreases |events|
  {
    events == [] ||
    (!Breaks(w, events[0]) && (ApplyKeepsOk(w, size, events[0]); Orderly(Apply(w, size, events[0]), size, events[1..])))
  }

  ghost predicate AlwaysFramed(w: World, size: nat, events: seq<Event>)
    requires WorldOk(w, size)
    decreases |events|
  {
    Framed(w) &&
    (events == [] || (ApplyKeepsOk(w, size, events[0]); AlwaysFramed(Apply(w, size, events[0]), size, events[1..])))
  }

  /** A run is framed all along if and only if it is orderly. */
  lemma {:induction false} RunFramedIff(w: World, size: nat, events: seq<Event>)
    requires WorldOk(w, size) && size <= 0x8000_0000 && Framed(w)
    ensures AlwaysFramed(w, size, events) <==> Orderly(w, size, events)
    decreases |events|
  {
    if events != [] {
      ApplyKeepsOk(w, size, events[0]);
      StepKeepsFramingIff(w, size, events[0]);
      if !Breaks(w, events[0]) {
        RunFramedIff(Apply(w, size, events[0]), size, events[1..]);
      }
    }
  }

  lemma {:induction false} RunKeepsFraming(w: World, size: nat, events: seq<Event>)
    requires WorldOk(w, size) && size <= 0x8000_0000 && Framed(w) && Orderly(w, size, events)
    ensures Framed(Run(w, size, events))
    ensures Run(w, size, events).phase.Stopped? ==> w.phase.Stopped? || ReadOnce(false) in events
    decreases |events|
  {
    if events != [] {
      ApplyKeepsOk(w, size, events[0]);
      StepKeepsFramingIff(w, size, events[0]);
      RunKeepsFraming(Apply(w, size, events[0]), size, events[1..]);
    }
  }

  /** For every orderly interleaving of producers and readers, and every size: the decoded
      records are a prefix of the accepted ones, and the reader's loop never ends unless it ran
      out of memory. */
  lemma ReaderDecodesAccepted(size: nat, events: seq<Event>)
    requires 0 < size <= 0x8000_0000 && Orderly(Start(size), size, events)
    ensures var w := Run(Start(size), size, events);
      w.decoded <= w.accepted && (ReadOnce(false) !in events ==> !w.phase.Stopped?)
  {
    var start := Start(size);
    assert FramedBy(start, []);
    RunKeepsFraming(start, size, events);
    var w := Run(start, size, events);
    var pending :| FramedBy(w, pending);
  }

  /** Two successful reads take the oldest pending record. */
  lemma TwoReadsTakeOne(w: World, size: nat, pending: seq<Entry>) returns (w1: World, w2: World)
    requires WorldOk(w, size) && w.phase.AwaitHeader? && FramedBy(w, pending) && pending != []
    ensures w1 == Apply(w, size, ReadOnce(true)) && WorldOk(w1, size)
    ensures w2 == Apply(w1, size, ReadOnce(true)) && WorldOk(w2, size)
    ensures w2.phase.AwaitHeader? && FramedBy(w2, pending[1..]) && w2.accepted == w.accepted
  {
    w1 := Apply(w, size, ReadOnce(true));
    ApplyKeepsOk(w, size, ReadOnce(true));
    HeaderReadKeepsFraming(w, size, pending);
    w2 := Apply(w1, size, ReadOnce(true));
    ApplyKeepsOk(w1, size, ReadOnce(true));
    ContentReadKeepsFraming(w1, size, pending);
  }

  lemma NothingPending(w: World, pending: seq<Entry>)
    requires w.phase.AwaitHeader? && FramedBy(w, pending) && pending == []
    ensures w.decoded == w.accepted && w.queue.bytes == ""
  {
  }

  /** A stretch of a run in which the reader reads and nobody else does anything. */
  ghost predicate OnlyReads(worlds: seq<World>, size: nat) {
    && worlds != [] && WorldOk(worlds[0], size)
    && (|worlds| > 1 ==> worlds[1] == Apply(worlds[0], size, ReadOnce(true)) && OnlyReads(worlds[1..], size))
  }

  /** Reading on without new records delivers everything that was accepted: two reads for each
      pending record. */
  lemma {:induction false} ReaderCatchesUp(worlds: seq<World>, size: nat, pending: seq<Entry>)
    requires OnlyReads(worlds, size) && |worlds| == 2 * |pending| + 1
    requires worlds[0].phase.AwaitHeader? && FramedBy(worlds[0], pending)
    ensures var last := worlds[2 * |pending|];
      last.decoded == worlds[0].accepted && last.queue.bytes == "" && last.phase == AwaitHeader
    decreases |pending|
  {
    if pending == [] {
      NothingPending(worlds[0], pending);
    } else {
      var w1, w2 := TwoReadsTakeOne(worlds[0], size, pending);
      var tail, rest := worlds[1..][1..], pending[1..];
      assert worlds[1] == w1 && tail[0] == worlds[1..][1] == w2;
      ReaderCatchesUp(tail, size, rest);
      assert tail[2 * |rest|] == worlds[2 * |pending|];
    }
  }

  // ---- what is accepted ----

  /** The bytes of a record. */
  function SizeOf(event: Event): nat
    requires event.Produce?
  {
    40 + (|Text(event.path)| + 1) + (|Text(event.details)| + 1)
  }

  /** A record is accepted if and only if a reader has the device open and the unread bytes and
      the record together stay below the size of the ring. */
  lemma ProduceIsAcceptedIff(w: World, size: nat, event: Event)
    requires WorldOk(w, size) && event.Produce?
    ensures var w', e := Apply(w, size, event), EntryOf(event.header, event.path, event.details);
      if !w.phase.Closed? && |w.queue.bytes| + SizeOf(event) < size
      then w'.accepted == w.accepted + [e] && |w'.queue.bytes| == |w.queue.bytes| + SizeOf(event)
      else w' == w
  {
    var data := Serialise(event.header, event.path, event.details);
    assert |data| == SizeOf(event);
    WriteIsAppendedIffItFits(w.queue, size, !w.phase.Closed?, data);
  }

  /** The records of all calls of a run, and their bytes in all. */
  function Produced(events: seq<Event>): seq<Entry> {
    if events == [] then []
    else
      (if events[0].Produce? then [EntryOf(events[0].header, events[0].path, events[0].details)] else [])
        + Produced(events[1..])
  }

  function TotalSize(events: seq<Event>): nat {
    if events == [] then 0 else (if events[0].Produce? then SizeOf(events[0]) else 0) + TotalSize(events[1..])
  }

  lemma OtherEventsOnlyTake(w: World, size: nat, event: Event)
    requires WorldOk(w, size) && !event.Produce? && !event.Release? && !w.phase.Closed?
    ensures var w' := Apply(w, size, event);
      !w'.phase.Closed? && w'.accepted == w.accepted && |w'.queue.bytes| <= |w.queue.bytes|
  {
    match event
    case ReadOnce(_) =>
      CompleteRead(w.queue, size, HEADER_SIZE);
      if w.phase.AwaitContent? && w.phase.header.contentSize > 0 {
        CompleteRead(w.queue, size, w.phase.header.contentSize);
      }
    case ForeignRead(count) => CompleteRead(w.queue, size, count);
    case _ =>
  }

  /** While a reader has the device open and the ring is larger than all records together, every
      record is accepted, in order. */
  lemma {:induction false} SmallRunAcceptsAll(w: World, size: nat, events: seq<Event>)
    requires WorldOk(w, size) && !w.phase.Closed? && Release !in events
    requires |w.queue.bytes| + TotalSize(events) < size
    ensures Run(w, size, events).accepted == w.accepted + Produced(events)
    decreases |events|
  {
    if events != [] {
      ApplyKeepsOk(w, size, events[0]);
      if events[0].Produce? {
        ProduceIsAcceptedIff(w, size, events[0]);
      } else {
        OtherEventsOnlyTake(w, size, events[0]);
      }
      SmallRunAcceptsAll(Apply(w, size, events[0]), size, events[1..]);
    }
  }

  // ---- the boundary ----

  /** The ring holds exactly the accepted records from the j-th on. */
  ghost predicate OnBoundary(w: World, j: nat) {
    j <= |w.accepted| && w.queue.bytes == EncodeAll(w.accepted[j..])
  }

  lemma {:induction false} EncodeAllLonger(es: seq<Entry>, j: nat)
    requires j <= |es|
    ensures |EncodeAll(es[j..])| <= |EncodeAll(es)|
    ensures j > 0 ==> |EncodeAll(es[j..])| < |EncodeAll(es)|
  {
    if j > 0 {
      EncodeAllLonger(es[1..], j - 1);
      assert es[1..][j - 1..] == es[j..];
    } else {
      assert es[0..] == es;
    }
  }

  lemma SuffixOfSuffix<T>(a: seq<T>, b: seq<T>, j: nat)
    requires |a| < j <= |a| + |b|
    ensures (a + b)[j..] == b[1..][j - |a| - 1..]
  {
  }

  lemma MidRecordIsNoBoundary(w: World, pending: seq<Entry>, j: nat)
    requires pending != [] && w.accepted == w.decoded + pending && j <= |w.accepted|
    requires |EncodeAll(pending[1..])| < |w.queue.bytes| < |EncodeAll(pending)|
    ensures !OnBoundary(w, j)
  {
    var d := |w.decoded|;
    if j <= d {
      EncodeAllLonger(w.accepted[j..], d - j);
      assert w.accepted[j..][d - j..] == pending;
    } else {
      EncodeAllLonger(pending[1..], j - d - 1);
      SuffixOfSuffix(w.decoded, pending, j);
    }
  }

  /** After a reader left, the next one starts on a record boundary exactly when the first did
      not leave between a header and its content, be it by itself or because it stopped. */
  lemma BoundaryAfterRelease(w: World, size: nat, pending: seq<Entry>)
    requires WorldOk(w, size) && FramedBy(w, pending)
    ensures (exists j :: OnBoundary(Apply(w, size, Release), j)) <==> !MidRecord(w)
  {
    var w' := Apply(w, size, Release);
    if MidRecord(w) {
      forall j | 0 <= j <= |w.accepted|
        ensures !OnBoundary(w', j)
      {
        MidRecordIsNoBoundary(w', pending, j);
      }
    } else {
      assert w.accepted[|w.decoded|..] == pending;
      assert OnBoundary(w', |w.decoded|);
    }
  }

  // ---- both conditions of an orderly run are needed ----

  lemma RunStep(w: World, size: nat, event: Event, rest: seq<Event>)
    requires WorldOk(w, size)
    ensures WorldOk(Apply(w, size, event), size)
    ensures Run(w, size, [event] + rest) == Run(Apply(w, size, event), size, rest)
  {
    ApplyKeepsOk(w, size, event);
    assert ([event] + rest)[1..] == rest;
  }

  const SMALLEST := HEADER_SIZE + 2

  /** The reader is about to read a header, but the ring holds a piece too short for one. */
  lemma ShortHeaderStops(w: World, size: nat)
    requires WorldOk(w, size) && w.phase.AwaitHeader? && 0 < |w.queue.bytes| < HEADER_SIZE
    ensures Apply(w, size, ReadOnce(true)).phase.Stopped?
  {
  }

  /** Open, and one record without path and details. */
  lemma OneRecord(h: LogHeader, size: nat) returns (w: World)
    requires SMALLEST < size <= 0x8000_0000
    ensures WorldOk(w, size) && w.phase.AwaitHeader?
    ensures FramedBy(w, [EntryOf(h, None, None)]) && |w.queue.bytes| == SMALLEST
    ensures forall rest :: Run(Start(size), size, [Open] + ([Produce(h, None, None)] + rest)) == Run(w, size, rest)
  {
    var start := Start(size);
    var ready := Apply(start, size, Open);
    w := Apply(ready, size, Produce(h, None, None));
    OffsetsAgree(h, None, None);
    EntryBytes(h, None, None);
    forall rest: seq<Event>
      ensures Run(start, size, [Open] + ([Produce(h, None, None)] + rest)) == Run(w, size, rest)
    {
      RunStep(start, size, Open, [Produce(h, None, None)] + rest);
      RunStep(ready, size, Produce(h, None, None), rest);
    }
    assert FramedBy(ready, []);
    AppendKeepsFraming(ready, w, [], EntryOf(h, None, None));
  }

  /** The first reader leaves after the header; the next one stops at once, memory or not. */
  lemma LeavingEarlyStopsTheNext(h: LogHeader, size: nat)
    requires SMALLEST < size <= 0x8000_0000
    ensures Run(Start(size), size, [Open] + ([Produce(h, None, None)] +
                ([ReadOnce(true)] + ([Release] + ([Open] + ([ReadOnce(true)] + [])))))).phase.Stopped?
  {
    var w0 := OneRecord(h, size);
    var pending := [EntryOf(h, None, None)];
    HeaderReadKeepsFraming(w0, size, pending);
    var w1 := Apply(w0, size, ReadOnce(true));
    RunStep(w0, size, ReadOnce(true), [Release] + ([Open] + ([ReadOnce(true)] + [])));
    var w2 := Apply(w1, size, Release);
    RunStep(w1, size, Release, [Open] + ([ReadOnce(true)] + []));
    var w3 := Apply(w2, size, Open);
    RunStep(w2, size, Open, [ReadOnce(true)] + []);
    RunStep(w3, size, ReadOnce(true), []);
    EntryBytes(h, None, None);
    ShortHeaderStops(w3, size);
  }

  /** Another process takes three bytes; the reader stops at the next header. */
  lemma ForeignReadStopsReader(h: LogHeader, size: nat)
    requires SMALLEST < size <= 0x8000_0000
    ensures Run(Start(size), size, [Open] + ([Produce(h, None, None)] +
                ([ForeignRead(3)] + ([ReadOnce(true)] + [])))).phase.Stopped?
  {
    var w0 := OneRecord(h, size);
    var w1 := Apply(w0, size, ForeignRead(3));
    CompleteRead(w0.queue, size, 3);
    RunStep(w0, size, ForeignRead(3), [ReadOnce(true)] + []);
    RunStep(w1, size, ReadOnce(true), []);
    ShortHeaderStops(w1, size);
  }

  // ---- the system itself ----

  datatype HeaderResult = Again | Failed | Got(header: LogHeader)

  /** One round of ReadHeader's loop. */
  method ReadHeader(dev: Device) returns (r: HeaderResult)
    requires dev.Valid()
    modifies dev`readPtr
    ensures dev.Valid()
    ensures dev.AsQueue() == AfterRead(old(dev.AsQueue()), dev.buffer.Length, HEADER_SIZE, HEADER_SIZE, HEADER_SIZE)
    ensures var bytes := Delivered(old(dev.AsQueue()), HEADER_SIZE, HEADER_SIZE, HEADER_SIZE);
      r == if bytes == "" then Again else if |bytes| != HEADER_SIZE then Failed else Got(DecodeHeader(bytes))
  {
    var bytes := dev.InterfaceRead(HEADER_SIZE, HEADER_SIZE, HEADER_SIZE);
    if 0 == |bytes| {
      return Again;
    }
    if |bytes| != HEADER_SIZE {
      return Failed;
    }
    return Got(DecodeHeader(bytes));
  }

  /** ReadContent; None stands for its failure exit. */
  method ReadContent(dev: Device, contentSize: int, memoryOk: bool) returns (r: Option<(CString, CString)>)
    requires dev.Valid()
    modifies dev`readPtr
    ensures dev.Valid()
    ensures if contentSize <= 0 || !memoryOk then r == None && dev.AsQueue() == old(dev.AsQueue()) else
      var bytes := Delivered(old(dev.AsQueue()), contentSize, contentSize, contentSize);
      && dev.AsQueue() == AfterRead(old(dev.AsQueue()), dev.buffer.Length, contentSize, contentSize, contentSize)
      && r == if |bytes| != contentSize then None else SplitContent(bytes)
  {
    if contentSize <= 0 || !memoryOk {
      return None;
    }
    var bytes := dev.InterfaceRead(contentSize, contentSize, contentSize);
    if |bytes| != contentSize {
      return None;
    }
    return SplitContent(bytes);
  }

  class Monitor {
    const dev: Device
    var phase: Phase
    ghost var accepted: seq<Entry>
    ghost var decoded: seq<Entry>

    ghost predicate Valid()
      reads this, dev`readPtr, dev`writePtr, dev`deviceReady, dev`ownerPid
    {
      dev.Valid() && (dev.deviceReady <==> !phase.Closed?) && (dev.deviceReady <==> dev.ownerPid != 0)
    }

    ghost function AsWorld(): World
      requires Valid()
      reads this, dev`readPtr, dev`writePtr, dev`deviceReady, dev`ownerPid, dev.buffer
    {
      World(dev.AsQueue(), phase, accepted, decoded)
    }

    constructor (size: nat)
      requires size > 0
      ensures Valid() && fresh(dev) && fresh(dev.buffer) && dev.buffer.Length == size
      ensures AsWorld() == Start(size)
    {
      dev := new Device(size);
      phase := Closed;
      accepted, decoded := [], [];
    }

    /** The reader opens the device. */
    method Open(pid: int)
      requires Valid() && pid != 0
      modifies this`phase, dev`deviceReady, dev`ownerPid
      ensures Valid() && AsWorld() == Apply(old(AsWorld()), dev.buffer.Length, Event.Open)
    {
      var result := dev.InterfaceOpen(pid, false);
      if phase.Closed? {
        phase := AwaitHeader;
      }
    }

    /** A read by a process that interface_open refused, or that never ready the device. */
    method ForeignRead(count: nat) returns (taken: string)
      requires Valid()
      modifies dev`readPtr
      ensures Valid() && taken == Delivered(old(dev.AsQueue()), count, count, count)
      ensures AsWorld() == Apply(old(AsWorld()), dev.buffer.Length, Event.ForeignRead(count))
    {
      taken := dev.InterfaceRead(count, count, count);
    }

    /** The reader closes the device, or is killed. */
    method Release()
      requires Valid()
      modifies this`phase, dev`deviceReady, dev`ownerPid
      ensures Valid() && AsWorld() == Apply(old(AsWorld()), dev.buffer.Length, Event.Release)
    {
      var result := dev.InterfaceRelease(dev.ownerPid);
      phase := Closed;
    }

    /** A hook finishes its record: end_log_system_call on its item. Without memory for the
        record nothing happens. */
    method EndCall(item: LogItem, header: LogHeader, ret: Int32, detailsMemory: bool, recordMemory: bool)
      returns (ghost details: Option<CString>)
      requires Valid() && item.Valid()
      modifies this`accepted, dev.buffer, dev`writePtr
      ensures Valid() && HandedOn(item.path, details)
      ensures details.Some? <==> DetailSize(item.path) > 0 && detailsMemory
      ensures details.Some? ==> exists k :: CutAt(old(item.Params()), DetailSize(item.path), k, details.value)
      ensures AsWorld() == if recordMemory
        then Apply(old(AsWorld()), dev.buffer.Length, Produce(header.(result := ret), item.path, details))
        else old(AsWorld())
    {
      ghost var q, h := dev.AsQueue(), header.(result := ret);
      details := EndLogSystemCall(dev, item, header, ret, detailsMemory, recordMemory);
      if recordMemory && Accepts(q, dev.buffer.Length, dev.deviceReady, Serialise(h, item.path, details)) {
        accepted := accepted + [EntryOf(h, item.path, details)];
      }
    }

    /** One turn of the reader's main loop up to its next read call. */
    method Turn(memoryOk: bool) returns (record: Option<Entry>)
      requires Valid()
      modifies this`phase, this`decoded, dev`readPtr
      ensures Valid()
      ensures AsWorld() == Apply(old(AsWorld()), dev.buffer.Length, ReadOnce(memoryOk))
      ensures decoded == old(decoded) + if record.Some? then [record.value] else []
    {
      record := None;
      if phase.AwaitHeader? {
        var r := ReadHeader(dev);
        match r
        case Again =>
        case Failed => phase := Stopped;
        case Got(h) => phase := AwaitContent(h);
      } else if phase.AwaitContent? {
        var h := phase.header;
        var r := ReadContent(dev, h.contentSize, memoryOk);
        match r
        case None => phase := Stopped;
        case Some((path, details)) =>
          phase := AwaitHeader;
          record := Some(Entry(h, path, details));
          decoded := decoded + [record.value];
      }
    }
  }
}
