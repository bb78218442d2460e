/** From a hooked call to the record that the reader decodes: both halves of the system, joined by
    the records that the hooks write. */
module EndToEnd {
  import opened Common
  import opened FdRecords
  import opened LogDetails
  import opened LogRecord
  import opened Hooks
  import opened LogPipeline
  import Coherence
  import Filter
  import SysReader

  const OP_READ_FILE := 2
  const OP_CLOSE_FILE := 4
  const API_SYS_READ := 3
  const API_SYS_CLOSE := 5

  // ---- the records behind the decoded entries ----

  function EntryAt(event: Event): Entry
    requires event.Produce?
  {
    EntryOf(event.header, event.path, event.details)
  }

  /** These entries are the records of these events, each of another one, in order. */
  ghost predicate RecordsOf(es: seq<Entry>, events: seq<Event>, indices: seq<nat>) {
    && |es| == |indices|
    && (forall i :: 0 <= i < |indices| ==>
        indices[i] < |events| && events[indices[i]].Produce? && es[i] == EntryAt(events[indices[i]]))
    && (forall i, j :: 0 <= i < j < |indices| ==> indices[i] < indices[j])
  }

  function Shifted(indices: seq<nat>): (shifted: seq<nat>)
    ensures |shifted| == |indices| && forall i :: 0 <= i < |indices| ==> shifted[i] == indices[i] + 1
  {
    seq(|indices|, i requires 0 <= i < |indices| => indices[i] + 1)
  }

  lemma OneEventMore(es: seq<Entry>, events: seq<Event>, indices: seq<nat>)
    requires events != [] && RecordsOf(es, events[1..], indices)
    ensures RecordsOf(es, events, Shifted(indices))
    ensures events[0].Produce? ==> RecordsOf([EntryAt(events[0])] + es, events, [0] + Shifted(indices))
  {
  }

  /** What a run accepts are records of its events. */
  lemma {:induction false} AcceptedAreProduced(w: World, size: nat, events: seq<Event>)
    returns (added: seq<Entry>, indices: seq<nat>)
    requires WorldOk(w, size)
    ensures Run(w, size, events).accepted == w.accepted + added && RecordsOf(added, events, indices)
    decreases |events|
  {
    added, indices := [], [];
    if events != [] {
      ApplyKeepsOk(w, size, events[0]);
      var w' := Apply(w, size, events[0]);
      added, indices := AcceptedAreProduced(w', size, events[1..]);
      OneEventMore(added, events, indices);
      indices := Shifted(indices);
      if w'.accepted != w.accepted {
        added, indices := [EntryAt(events[0])] + added, [0] + indices;
        assert w'.accepted == w.accepted + [EntryAt(events[0])];
      }
    }
  }

  lemma FirstRecords(es: seq<Entry>, events: seq<Event>, indices: seq<nat>, n: nat)
    requires RecordsOf(es, events, indices) && n <= |es|
    ensures RecordsOf(es[..n], events, indices[..n])
  {
  }

  /** In an orderly run every decoded entry is the record of a call, no call is decoded twice, and
      the order is that of the calls. */
  lemma DecodedAreProduced(size: nat, events: seq<Event>) returns (indices: seq<nat>)
    requires 0 < size <= 0x8000_0000 && Orderly(Start(size), size, events)
    ensures RecordsOf(Run(Start(size), size, events).decoded, events, indices)
  {
    ReaderDecodesAccepted(size, events);
    var w := Run(Start(size), size, events);
    var added;
    added, indices := AcceptedAreProduced(Start(size), size, events);
    assert w.accepted == added && w.decoded == added[..|w.decoded|];
    FirstRecords(added, events, indices, |w.decoded|);
    indices := indices[..|w.decoded|];
  }

  // ---- what they say about the calls ----

  /** The event is the record of this read or close: its caller and the path its hook handed over. */
  ghost predicate Reports(event: Event, step: Coherence.Step) {
    && event.Produce? && (step.call.ReadCall? || step.call.CloseCall?)
    && event.header.pid == step.pid && event.path == Coherence.Logged(step.call)
  }

  /** The reader gets every field of the caller's header, the path and the details. */
  ghost predicate CarriesOver(event: Event, e: Entry) {
    && event.Produce?
    && e.header.sec == event.header.sec && e.header.nsec == event.header.nsec
    && e.header.pid == event.header.pid && e.header.tid == event.header.tid
    && e.header.operation == event.header.operation && e.header.api == event.header.api
    && e.header.result == event.header.result
    && e.path == (if event.path.Some? then event.path.value else "")
    && e.details == (if event.details.Some? then event.details.value else "")
  }

  /** A decoded record of a read or close shows its caller, and as path either nothing or the
      kernel's path of the open descriptor at the time of the call; it shows that path whenever
      memory and lookup allowed, however many records, wraps and readers came between. */
  lemma DecodedPathIsKernelPath(systems: seq<Coherence.System>, steps: seq<Coherence.Step>, size: nat,
                                events: seq<Event>, indices: seq<nat>, i: nat, a: nat, k: nat)
    requires Coherence.Run(systems, steps) && a <= k < |steps| && 0 < size
    requires RecordsOf(Run(Start(size), size, events).decoded, events, indices) && i < |indices|
    requires Reports(events[indices[i]], steps[k])
    requires Coherence.CoherentAt(systems, steps[k].pid, steps[k].call.fd, a)
    requires Coherence.SafeBetween(systems, steps, steps[k].pid, steps[k].call.fd, a, k)
    ensures steps[k].pid in systems[k]
    ensures CarriesOver(events[indices[i]], Run(Start(size), size, events).decoded[i])
    ensures var e, call := Run(Start(size), size, events).decoded[i], steps[k].call;
      var files := systems[k][steps[k].pid].kernel.files;
      && e.header.pid == steps[k].pid
      && (e.path == "" || (call.fd in files && e.path == files[call.fd]))
      && (call.fd in files && call.lookupOk && call.memory == Coherence.PLENTY ==> e.path == files[call.fd])
  {
    Coherence.LoggedPathIsKernelPath(systems, steps, a, k);
  }

  // ---- the hooks with their logging ----

  /** Hooks and log live on different objects. */
  ghost predicate Separate(machine: Machine, monitor: Monitor)
    reads machine.table
  {
    monitor !in machine.table.Repr && monitor.dev !in machine.table.Repr && monitor.dev.buffer !in machine.table.Repr
  }

  /** What the hook gets for its log item. */
  datatype LogMemory = LogMemory(item: bool, fd: bool, buf: bool, count: bool, details: bool, record: bool)

  function AfterEvent(w: World, size: nat, event: Option<Event>): World
    requires WorldOk(w, size)
  {
    if event.Some? then Apply(w, size, event.value) else w
  }

  /** A parameter whose buffer could be had. */
  function Kept(text: CString, memoryOk: bool): (some: seq<Option<CString>>)
    ensures |some| <= 1
  {
    if memoryOk then [Some(text)] else []
  }

  /** The n slots of a call: the parameters that were kept, then empty slots. */
  function Slots(some: seq<Option<CString>>, n: nat): seq<Option<CString>>
    requires |some| <= n
  {
    some + seq(n - |some|, i => None)
  }

  function ReadParams(fd: Fd, buf: UInt32, count: Int32, spare: LogMemory): seq<Option<CString>> {
    var some := Kept("fd: " + Hex(fd), spare.fd) + Kept("buf: " + Hex(buf), spare.buf);
    Slots(some + Kept("count: " + Decimal(count), spare.count), 3)
  }

  function CloseParams(fd: Fd, spare: LogMemory): seq<Option<CString>> {
    Slots(Kept("fd: " + Hex(fd), spare.fd), 1)
  }

  /** Storing a parameter in the next free slot, or keeping that free without memory. */
  lemma NextSlot(some: seq<Option<CString>>, n: nat, text: CString, memoryOk: bool)
    requires |some| < n
    ensures Slots(some + Kept(text, memoryOk), n) ==
      if memoryOk then Slots(some, n)[|some| := Some(text)] else Slots(some, n)
  {
    assert !memoryOk ==> some + Kept(text, memoryOk) == some;
  }

  lemma AllKept(a: CString, b: CString, c: CString)
    ensures Slots(Kept(a, true), 1) == [Some(a)]
    ensures Slots(Kept(a, true) + Kept(b, true) + Kept(c, true), 3) == [Some(a), Some(b), Some(c)]
  {
  }

  /** The event is the record of a call: this header, this path, and as details as many of these
      parameters as fit, if there is memory for them. */
  ghost predicate RecordOfCall(event: Event, header: LogHeader, logged: Option<CString>, ps: seq<Option<CString>>,
                               memory: bool) {
    && event.Produce? && event.header == header && event.path == logged
    && (event.details.Some? <==> DetailSize(logged) > 0 && memory)
    && (event.details.Some? ==> exists k :: CutAt(ps, DetailSize(logged), k, event.details.value))
  }

  /** The record of sys_read: operation 2, call 3, thread 0. */
  ghost predicate ReadRecord(event: Event, pid: Int32, fd: Fd, buf: UInt32, count: Int32, logged: Option<CString>,
                             sec: Int32, nsec: Int32, ret: Int32, spare: LogMemory) {
    RecordOfCall(event, LogHeader(sec, nsec, pid, 0, 2, 3, ret, 0, 0, 0), logged, ReadParams(fd, buf, count, spare),
                 spare.details)
  }

  /** The record of sys_close: operation 4, call 5, thread 0. */
  ghost predicate CloseRecord(event: Event, pid: Int32, fd: Fd, logged: Option<CString>, sec: Int32, nsec: Int32,
                              ret: Int32, spare: LogMemory) {
    RecordOfCall(event, LogHeader(sec, nsec, pid, 0, 4, 5, ret, 0, 0, 0), logged, CloseParams(fd, spare),
                 spare.details)
  }

  lemma WholeDetails(event: Event, header: LogHeader, logged: Option<CString>, ps: seq<Option<CString>>)
    requires RecordOfCall(event, header, logged, ps, true)
    requires |Join(ps)| + (if logged.Some? then |logged.value| else 1) < 967
    ensures event.details == Some(Join(ps))
  {
    var k :| CutAt(ps, DetailSize(logged), k, event.details.value);
    DetailsAreWholeIff(ps, logged, k, event.details.value);
  }

  const ENOUGH := LogMemory(true, true, true, true, true, true)

  /** The row that the reader shows for a read whose hook had memory and whose path has at most
      900 characters. */
  lemma ReadIsShown(event: Event, pid: Int32, fd: Fd, buf: UInt32, count: Int32, logged: Option<CString>,
                    sec: Int32, nsec: Int32, ret: Int32, s: SysReader.Surroundings)
    requires ReadRecord(event, pid, fd, buf, count, logged, sec, nsec, ret, ENOUGH)
    requires logged.Some? ==> |logged.value| <= 900
    ensures var log := SysReader.LogOf(EntryAt(event), s);
      && log.pid == Decimal(pid) && log.operation == "Read file" && log.api == "sys_read"
      && log.path == (if logged.Some? then logged.value else "")
      && log.outcome == Hex(if ret < 0 then 4294967296 + ret else ret)
      && log.details == "fd: " + Hex(fd) + ", " + ("buf: " + Hex(buf)) + ", " + ("count: " + Decimal(count))
  {
    var a, b, c := "fd: " + Hex(fd), "buf: " + Hex(buf), "count: " + Decimal(count);
    AllKept(a, b, c);
    JoinReads(a, b, c);
    HexFits(fd);
    HexFits(buf);
    DecimalFits(count);
    WholeDetails(event, event.header, logged, [Some(a), Some(b), Some(c)]);
    SysReader.FileCallsAreNamed();
  }

  /** The same for a close. */
  lemma CloseIsShown(event: Event, pid: Int32, fd: Fd, logged: Option<CString>, sec: Int32, nsec: Int32, ret: Int32,
                     s: SysReader.Surroundings)
    requires CloseRecord(event, pid, fd, logged, sec, nsec, ret, ENOUGH)
    requires logged.Some? ==> |logged.value| <= 900
    ensures var log := SysReader.LogOf(EntryAt(event), s);
      && log.pid == Decimal(pid) && log.operation == "Close file" && log.api == "sys_close"
      && log.path == (if logged.Some? then logged.value else "")
      && log.outcome == Hex(if ret < 0 then 4294967296 + ret else ret)
      && log.details == "fd: " + Hex(fd)
  {
    var a := "fd: " + Hex(fd);
    AllKept(a, a, a);
    JoinReads(a, a, a);
    HexFits(fd);
    WholeDetails(event, event.header, logged, [Some(a)]);
    SysReader.FileCallsAreNamed();
  }

  /** Slots of an item that is being filled. */
  ghost predicate Holds(item: LogItem, some: seq<Option<CString>>, n: nat)
    reads item, item.paramStrings
  {
    && item.Valid() && item.paramStrings != null
    && |some| <= n && item.Params() == Slots(some, n) && item.currentParam == |some|
  }

  method StoreHex(item: LogItem, name: CString, u: UInt32, memoryOk: bool, ghost some: seq<Option<CString>>,
                  ghost n: nat)
    requires Holds(item, some, n) && |some| < n
    modifies item`currentParam, item.paramStrings
    ensures Holds(item, some + Kept(name + ": " + Hex(u), memoryOk), n)
  {
    NextSlot(some, n, name + ": " + Hex(u), memoryOk);
    item.AddUnsignedIntParam(name, u, memoryOk);
  }

  method StoreDecimal(item: LogItem, name: CString, i: Int32, memoryOk: bool, ghost some: seq<Option<CString>>,
                      ghost n: nat)
    requires Holds(item, some, n) && |some| < n
    modifies item`currentParam, item.paramStrings
    ensures Holds(item, some + Kept(name + ": " + Decimal(i), memoryOk), n)
  {
    NextSlot(some, n, name + ": " + Decimal(i), memoryOk);
    item.AddIntParam(name, i, memoryOk);
  }

  /** Nothing stored yet. */
  method NewItem(logged: Option<CString>, n: nat) returns (item: LogItem)
    requires n > 0
    ensures fresh(item) && fresh(item.paramStrings) && item.path == logged && Holds(item, [], n)
  {
    item := new LogItem(logged, n);
    assert item.Params() == Slots([], n);
  }

  /** The log item of fake_sys_read. */
  method NewReadItem(fd: Fd, buf: UInt32, count: Int32, logged: Option<CString>, spare: LogMemory)
    returns (item: LogItem)
    ensures fresh(item) && item.Valid() && item.path == logged && item.Params() == ReadParams(fd, buf, count, spare)
  {
    item := NewItem(logged, 3);
    ghost var some := [];
    StoreHex(item, "fd", fd, spare.fd, some, 3);
    some := some + Kept("fd" + ": " + Hex(fd), spare.fd);
    StoreHex(item, "buf", buf, spare.buf, some, 3);
    some := some + Kept("buf" + ": " + Hex(buf), spare.buf);
    StoreDecimal(item, "count", count, spare.count, some, 3);
    Names(fd, buf, count, spare);
  }

  lemma Names(fd: Fd, buf: UInt32, count: Int32, spare: LogMemory)
    ensures ReadParams(fd, buf, count, spare) ==
      Slots([] + Kept("fd" + ": " + Hex(fd), spare.fd) + Kept("buf" + ": " + Hex(buf), spare.buf)
            + Kept("count" + ": " + Decimal(count), spare.count), 3)
    ensures CloseParams(fd, spare) == Slots([] + Kept("fd" + ": " + Hex(fd), spare.fd), 1)
  {
    assert "fd" + ": " == "fd: " && "buf" + ": " == "buf: " && "count" + ": " == "count: ";
    var some := Kept("fd: " + Hex(fd), spare.fd);
    assert [] + some == some;
  }

  /** The log item of fake_sys_close. */
  method NewCloseItem(fd: Fd, logged: Option<CString>, spare: LogMemory) returns (item: LogItem)
    ensures fresh(item) && item.Valid() && item.path == logged && item.Params() == CloseParams(fd, spare)
  {
    item := NewItem(logged, 1);
    StoreHex(item, "fd", fd, spare.fd, [], 1);
    Names(fd, 0, 0, spare);
  }

  /** The log of a hook: nothing if the caller is the reader or its item could not be had. */
  method WriteLog(monitor: Monitor, item: LogItem, header: LogHeader, ret: Int32, spare: LogMemory)
    returns (ghost event: Option<Event>)
    requires monitor.Valid() && item.Valid()
    modifies monitor`accepted, monitor.dev.buffer, monitor.dev`writePtr
    ensures monitor.Valid()
    ensures event.Some? <==> monitor.dev.ownerPid != header.pid && spare.item && spare.record
    ensures event.Some? ==>
      RecordOfCall(event.value, header.(result := ret), item.path, old(item.Params()), spare.details)
    ensures monitor.AsWorld() == AfterEvent(old(monitor.AsWorld()), monitor.dev.buffer.Length, event)
  {
    event := None;
    if monitor.dev.ownerPid == header.pid || !spare.item {
      return;
    }
    ghost var details := monitor.EndCall(item, header, ret, spare.details, spare.record);
    if spare.record {
      event := Some(Produce(header.(result := ret), item.path, details));
    }
  }

  /** The log of fake_sys_read; the hooks do not notice. */
  method WriteReadLog(ghost machine: Machine, monitor: Monitor, pid: Int32, fd: Fd, buf: UInt32, count: Int32,
                      logged: Option<CString>, sec: Int32, nsec: Int32, ret: Int32, spare: LogMemory)
    returns (ghost event: Option<Event>)
    requires monitor.Valid() && machine.Valid() && Separate(machine, monitor)
    modifies monitor`accepted, monitor.dev.buffer, monitor.dev`writePtr
    ensures machine.Valid() && Separate(machine, monitor) && machine.AsSystem() == old(machine.AsSystem())
    ensures monitor.Valid()
    ensures event.Some? <==> monitor.dev.ownerPid != pid && spare.item && spare.record
    ensures event.Some? ==> ReadRecord(event.value, pid, fd, buf, count, logged, sec, nsec, ret, spare)
    ensures monitor.AsWorld() == AfterEvent(old(monitor.AsWorld()), monitor.dev.buffer.Length, event)
  {
    var item := NewReadItem(fd, buf, count, logged, spare);
    var header := LogHeader(sec, nsec, pid, 0, OP_READ_FILE, API_SYS_READ, 0, 0, 0, 0);
    event := WriteLog(monitor, item, header, ret, spare);
  }

  /** The log of fake_sys_close. */
  method WriteCloseLog(ghost machine: Machine, monitor: Monitor, pid: Int32, fd: Fd, logged: Option<CString>,
                       sec: Int32, nsec: Int32, ret: Int32, spare: LogMemory)
    returns (ghost event: Option<Event>)
    requires monitor.Valid() && machine.Valid() && Separate(machine, monitor)
    modifies monitor`accepted, monitor.dev.buffer, monitor.dev`writePtr
    ensures machine.Valid() && Separate(machine, monitor) && machine.AsSystem() == old(machine.AsSystem())
    ensures monitor.Valid()
    ensures event.Some? <==> monitor.dev.ownerPid != pid && spare.item && spare.record
    ensures event.Some? ==> CloseRecord(event.value, pid, fd, logged, sec, nsec, ret, spare)
    ensures monitor.AsWorld() == AfterEvent(old(monitor.AsWorld()), monitor.dev.buffer.Length, event)
  {
    var item := NewCloseItem(fd, logged, spare);
    var header := LogHeader(sec, nsec, pid, 0, OP_CLOSE_FILE, API_SYS_CLOSE, 0, 0, 0, 0);
    event := WriteLog(monitor, item, header, ret, spare);
  }

  /** fake_sys_read as a whole: one step of the hooks, and the record of it for the reader, unless
      the caller is the reader or there is no memory. */
  method LogRead(machine: Machine, monitor: Monitor, pid: Int32, fd: Fd, buf: UInt32, count: Int32, lookupOk: bool,
                 memory: Coherence.Memory, sec: Int32, nsec: Int32, ret: Int32, spare: LogMemory)
    returns (ghost call: Coherence.Call, ghost event: Option<Event>)
    requires machine.Valid() && monitor.Valid() && Separate(machine, monitor) && pid in machine.kernels
    modifies machine.table.Repr, monitor`accepted, monitor.dev.buffer, monitor.dev`writePtr
    ensures machine.Valid() && monitor.Valid() && Separate(machine, monitor)
    ensures call.ReadCall? && call == Coherence.ReadCall(fd, call.answer, lookupOk, memory)
    ensures Coherence.SystemNext(old(machine.AsSystem()), Coherence.Step(pid, call), machine.AsSystem())
    ensures event.Some? <==> monitor.dev.ownerPid != pid && spare.item && spare.record
    ensures event.Some? ==> Reports(event.value, Coherence.Step(pid, call)) && event.value.header.result == ret
    ensures event.Some? ==>
      ReadRecord(event.value, pid, fd, buf, count, Coherence.Logged(call), sec, nsec, ret, spare)
    ensures monitor.AsWorld() == AfterEvent(old(monitor.AsWorld()), monitor.dev.buffer.Length, event)
  {
    var logged;
    logged, call := machine.FakeSysRead(pid, fd, lookupOk, memory);
    event := WriteReadLog(machine, monitor, pid, fd, buf, count, logged, sec, nsec, ret, spare);
  }

  /** fake_sys_close as a whole. The hook forgets the descriptor after logging; the record
      depends on the look-up before only. */
  method LogClose(machine: Machine, monitor: Monitor, pid: Int32, fd: Fd, closed: bool, lookupOk: bool,
                  memory: Coherence.Memory, sec: Int32, nsec: Int32, ret: Int32, spare: LogMemory)
    returns (ghost call: Coherence.Call, ghost event: Option<Event>)
    requires machine.Valid() && monitor.Valid() && Separate(machine, monitor) && pid in machine.kernels
    requires (closed ==> fd in machine.kernels[pid].files) && (ret == 0 ==> closed)
    modifies machine`kernels, machine.table.Repr, monitor`accepted, monitor.dev.buffer, monitor.dev`writePtr
    ensures machine.Valid() && monitor.Valid() && Separate(machine, monitor)
    ensures call.CloseCall? && call == Coherence.CloseCall(fd, call.answer, lookupOk, closed, ret == 0, memory)
    ensures Coherence.SystemNext(old(machine.AsSystem()), Coherence.Step(pid, call), machine.AsSystem())
    ensures event.Some? <==> monitor.dev.ownerPid != pid && spare.item && spare.record
    ensures event.Some? ==> Reports(event.value, Coherence.Step(pid, call)) && event.value.header.result == ret
    ensures event.Some? ==> CloseRecord(event.value, pid, fd, Coherence.Logged(call), sec, nsec, ret, spare)
    ensures monitor.AsWorld() == AfterEvent(old(monitor.AsWorld()), monitor.dev.buffer.Length, event)
  {
    var logged;
    logged, call := machine.FakeSysClose(pid, fd, ret, closed, lookupOk, memory);
    event := WriteCloseLog(machine, monitor, pid, fd, logged, sec, nsec, ret, spare);
  }
}
