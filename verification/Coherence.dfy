/** Processes as the kernel and their cache slots see them, call by call: when does the cache of a
    process agree with its descriptor table about a number? */
module Coherence {
  import opened Common
  import opened FdRecords
  import opened CacheView

  const FIRST_ERROR_FD := 0x8000_0000

  /** The process that has the pid now: its real start time and its open descriptors. */
  datatype Kernel = Kernel(startTime: Timespec, files: map<int, CString>)

  datatype World = World(kernel: Kernel, slot: Slot)

  /** What the allocator grants during one call: a process record, a cache node, and a copy of
      the path for the log. */
  datatype Memory = Memory(record: bool, node: bool, copy: bool)

  datatype Call =
    /** sys_open or sys_creat: its result, the kernel's path of a new descriptor, whether asking
        the kernel for that path works, and what the hook can copy instead. */
    | OpenCall(result: int, path: CString, lookupOk: bool, userName: Option<CString>, spare: bool, memory: Memory)
    /** sys_read, and sys_write and sys_ioctl alike; answer is what the cache says. */
    | ReadCall(fd: Fd, answer: Option<CString>, lookupOk: bool, memory: Memory)
    /** sys_close: did the kernel remove the descriptor, and did it answer 0? A close that
        reports a late error has removed it all the same. */
    | CloseCall(fd: Fd, answer: Option<CString>, lookupOk: bool, closed: bool, ok: bool, memory: Memory)
    /** sys_execve; on success the kernel may close descriptors. */
    | ExecCall(kept: map<int, CString>, memory: Memory)
    /** A hooked call that does not use the cache: fork, clone, exit. */
    | PlainCall(memory: Memory)
    /** A call without a hook that opens a descriptor. */
    | UnhookedOpen(newFd: int, path: CString)
    /** The kernel's path of an open descriptor changes without a hook: its file is renamed or
        unlinked, or dup2 puts another file there. */
    | PathChange(fd: Fd, newPath: CString)
    /** A descriptor disappears without a hook. */
    | UnhookedClose(fd: Fd)
    /** The process is gone and its pid belongs to a new one. */
    | NewProcess(startTime: Timespec, files: map<int, CString>)

  /** A result of type long as an unsigned int. */
  function Unsigned(result: int): Fd {
    result % 0x1_0000_0000
  }

  /** The name that the open hook caches. */
  function FullName(call: Call): Option<CString>
    requires call.OpenCall?
  {
    if call.result >= 0 && call.lookupOk then Some(call.path)
    else if call.userName.Some? then call.userName
    else if call.spare then Some("<NULL>")
    else None
  }

  function KernelPath(k: Kernel, fd: Fd, lookupOk: bool): Option<CString> {
    if fd in k.files && lookupOk then Some(k.files[fd]) else None
  }

  /** The path that begin_log_system_call_by_fd hands to the log: a copy of the answer. */
  function Logged(call: Call): Option<CString>
    requires call.ReadCall? || call.CloseCall?
  {
    if call.memory.copy then call.answer else None
  }

  predicate Later(a: Timespec, b: Timespec) {
    a.sec > b.sec || (a.sec == b.sec && a.nsec > b.nsec)
  }

  ghost predicate FilesOk(files: map<int, CString>) {
    forall fd :: fd in files ==> 0 <= fd < FIRST_ERROR_FD
  }

  /** The slot once the hook has run notify_enter. */
  function Entered(w: World, memory: Memory): Slot {
    SlotAfterEnter(w.slot, w.kernel.startTime, memory.record)
  }

  /** The slot once the hook has also asked for the path of fd. */
  function Asked(w: World, fd: Fd, lookupOk: bool, memory: Memory): Slot {
    SlotAfterGet(Entered(w, memory), fd, KernelPath(w.kernel, fd, lookupOk), memory.node)
  }

  ghost predicate Next(w: World, call: Call, w': World) {
    match call
    case OpenCall(result, path, _, _, _, memory) =>
      && -0x8000_0000 <= result < FIRST_ERROR_FD && result !in w.kernel.files
      && w'.kernel == (if result >= 0 then w.kernel.(files := w.kernel.files[result := path]) else w.kernel)
      && w'.slot == (if result == -1 then Entered(w, memory)
                     else SlotAfterInsert(Entered(w, memory), Unsigned(result), FullName(call), memory.node))
    case ReadCall(fd, answer, lookupOk, memory) =>
      && w'.kernel == w.kernel
      && w'.slot == Asked(w, fd, lookupOk, memory)
      && Answers(Entered(w, memory), fd, KernelPath(w.kernel, fd, lookupOk), memory.node, answer)
    case CloseCall(fd, answer, lookupOk, closed, ok, memory) =>
      && (closed ==> fd in w.kernel.files) && (ok ==> closed)
      && w'.kernel == (if closed then w.kernel.(files := w.kernel.files - {fd}) else w.kernel)
      && Answers(Entered(w, memory), fd, KernelPath(w.kernel, fd, lookupOk), memory.node, answer)
      && (if ok
          then exists suc :: Deletes(Asked(w, fd, lookupOk, memory), fd, suc, w'.slot)
          else w'.slot == Asked(w, fd, lookupOk, memory))
    case ExecCall(kept, memory) =>
      && kept.Items <= w.kernel.files.Items
      && w'.kernel == w.kernel.(files := kept)
      && w'.slot == SlotAfterExecve(Entered(w, memory))
    case PlainCall(memory) =>
      w'.kernel == w.kernel && w'.slot == Entered(w, memory)
    case UnhookedOpen(fd, path) =>
      && 0 <= fd < FIRST_ERROR_FD && fd !in w.kernel.files
      && w' == w.(kernel := w.kernel.(files := w.kernel.files[fd := path]))
    case PathChange(fd, path) =>
      && fd in w.kernel.files
      && w' == w.(kernel := w.kernel.(files := w.kernel.files[fd as int := path]))
    case UnhookedClose(fd) =>
      && fd in w.kernel.files
      && w' == w.(kernel := w.kernel.(files := w.kernel.files - {fd}))
    case NewProcess(startTime, files) =>
      && Later(startTime, w.kernel.startTime) && FilesOk(files)
      && w' == w.(kernel := Kernel(startTime, files))
  }

  // ---- agreement on one number ----

  /** The pairs with this number: none unless it is an open descriptor, and then at most one,
      with the kernel's path. */
  ghost predicate FaithfulAt(es: seq<Entry>, files: map<int, CString>, fd: Fd) {
    && (forall i :: 0 <= i < |es| && es[i].fd == fd ==> fd in files && files[fd] == es[i].path)
    && (forall i, j :: 0 <= i < j < |es| && es[i].fd == es[j].fd ==> es[i].fd != fd)
  }

  /** Descriptors are below 2^31, and a slot never holds the record of a later process. */
  ghost predicate Timely(w: World) {
    && FilesOk(w.kernel.files)
    && (w.slot.Some? ==>
        w.slot.value.startTime == w.kernel.startTime || Later(w.kernel.startTime, w.slot.value.startTime))
  }

  /** The slot holds this process's record, and it is not marked stale. */
  predicate Live(w: World) {
    w.slot.Some? && w.slot.value.startTime == w.kernel.startTime && !w.slot.value.beforeExecve
  }

  /** A live slot agrees with the kernel about fd. */
  ghost predicate Coherent(w: World, fd: Fd) {
    Timely(w) && (Live(w) ==> FaithfulAt(w.slot.value.entries, w.kernel.files, fd))
  }

  /** The hook runs without a process record: there was none and there is no memory for one. */
  predicate Unrecorded(w: World, memory: Memory) {
    w.slot.None? && !memory.record
  }

  /** An open that caches nothing: it failed with -1, or no name or memory could be had. */
  predicate CachesNothing(w: World, call: Call)
    requires call.OpenCall?
  {
    call.result == -1 || FullName(call).None? || !call.memory.node || Unrecorded(w, call.memory)
  }

  /** The slot would answer a search for fd as it stands. */
  predicate Serves(w: World, fd: Fd) {
    Live(w) && HasEntry(w.slot.value.entries, fd)
  }

  /** When a call keeps agreement about fd, in terms of what is known before it and of what the
      kernel and the allocator answer. An open that fails with an error code other than -1 caches
      that code as a number of its own. */
  predicate Safe(w: World, call: Call, fd: Fd) {
    match call
    case OpenCall(result, path, _, _, _, _) =>
      Unsigned(result) != fd || CachesNothing(w, call) || (result >= 0 && FullName(call).value == path)
    case CloseCall(f, _, lookupOk, closed, ok, memory) =>
      f != fd || ok || !closed || Unrecorded(w, memory) || (!Serves(w, fd) && !(lookupOk && memory.node))
    case PathChange(f, path) =>
      f != fd || (fd in w.kernel.files && w.kernel.files[fd] == path) || !Serves(w, fd)
    case UnhookedClose(f) => f != fd || !Serves(w, fd)
    case _ => true
  }

  /** notify_enter settles the doubtful cases before the hook looks anything up: a live record
      stays as it is, and any other starts over with an empty cache. */
  lemma EnterSettles(w: World, memory: Memory, fd: Fd)
    requires Coherent(w, fd)
    ensures var slot := Entered(w, memory);
      slot.Some? ==> slot.value.startTime == w.kernel.startTime && !slot.value.beforeExecve &&
                     FaithfulAt(slot.value.entries, w.kernel.files, fd)
    ensures Entered(w, memory).None? <==> Unrecorded(w, memory)
    ensures Live(w) ==> Entered(w, memory) == w.slot
    ensures !Live(w) && !Unrecorded(w, memory) ==>
      Entered(w, memory) == Some(Cached(w.kernel.startTime, false, []))
  {
  }

  lemma FrontIsListed(e: Entry, es: seq<Entry>, fd: Fd)
    ensures HasEntry([e] + es, fd) <==> e.fd == fd || HasEntry(es, fd)
  {
    var es' := [e] + es;
    if e.fd == fd {
      assert es'[0].fd == fd;
    } else if HasEntry(es, fd) {
      var i :| 0 <= i < |es| && es[i].fd == fd;
      assert es'[i + 1].fd == fd;
    }
  }

  /** A new pair in front matters for its own number only. */
  lemma FaithfulAfterFill(es: seq<Entry>, files: map<int, CString>, e: Entry, fd: Fd)
    requires e.fd == fd ==> !HasEntry(es, fd)
    requires e.fd != fd ==> FaithfulAt(es, files, fd)
    ensures FaithfulAt([e] + es, files, fd) <==> (e.fd == fd ==> fd in files && files[fd] == e.path)
  {
    var es' := [e] + es;
    assert es'[0] == e && forall i :: 1 <= i < |es'| ==> es'[i] == es[i - 1];
  }

  /** Taking out a pair leaves the others as they were. */
  lemma FaithfulAfterCut(es: seq<Entry>, files: map<int, CString>, f: Fd, i: int, es': seq<Entry>, fd: Fd)
    requires FaithfulAt(es, files, fd) && CutsOut(es, f, i, es')
    ensures FaithfulAt(es', files, fd) && (f == fd ==> !HasEntry(es', fd))
  {
  }

  lemma AskedStaysFaithful(w: World, f: Fd, lookupOk: bool, memory: Memory, fd: Fd)
    requires Coherent(w, fd)
    ensures var slot := Asked(w, f, lookupOk, memory);
      slot.Some? ==> slot.value.startTime == w.kernel.startTime && !slot.value.beforeExecve &&
                     FaithfulAt(slot.value.entries, w.kernel.files, fd)
  {
    EnterSettles(w, memory, fd);
    var slot, path := Entered(w, memory), KernelPath(w.kernel, f, lookupOk);
    if slot.Some? && !HasEntry(slot.value.entries, f) && path.Some? && memory.node {
      FaithfulAfterFill(slot.value.entries, w.kernel.files, Entry(f, path.value), fd);
    }
  }

  /** An open call keeps agreement about a number exactly when it caches nothing under it, or
      what it caches is the kernel's path of a new descriptor. */
  lemma OpenKeepsCoherentIff(w: World, call: Call, w': World, fd: Fd)
    requires Coherent(w, fd) && call.OpenCall? && Next(w, call, w')
    ensures Coherent(w', fd) <==> Safe(w, call, fd)
  {
    EnterSettles(w, call.memory, fd);
    var slot := Entered(w, call.memory);
    if slot.Some? {
      var es, files' := slot.value.entries, w'.kernel.files;
      assert Unsigned(call.result) == fd ==> fd !in w.kernel.files && !HasEntry(es, fd);
      assert FaithfulAt(es, files', fd);
      if !CachesNothing(w, call) {
        FaithfulAfterFill(es, files', Entry(Unsigned(call.result), FullName(call).value), fd);
      }
    }
  }

  /** The pairs of the slot after an open, in each case. A new descriptor is listed first under
      the kernel's path when that could be had; only without it the caller's name counts, and only
      without that one too the placeholder. The same holds for a failed open, whose number is its
      error code in 32 bits; -1 is never listed. */
  lemma OpenCaches(w: World, call: Call, w': World)
    requires call.OpenCall? && Next(w, call, w')
    ensures Unrecorded(w, call.memory) <==> w'.slot.None?
    ensures w'.slot.Some? ==> Entered(w, call.memory).Some?
    ensures w'.slot.Some? ==>
      var before, after := Entered(w, call.memory).value.entries, w'.slot.value.entries;
      var r, kernelKnows := call.result, call.result >= 0 && call.lookupOk;
      && (r == -1 || !call.memory.node ==> after == before)
      && (r >= 0 && call.lookupOk && call.memory.node ==> after == [Entry(r, call.path)] + before)
      && (r != -1 && call.memory.node && !kernelKnows ==>
          var number := if r >= 0 then r else 4294967296 + r;
          && (call.userName.Some? ==> after == [Entry(number, call.userName.value)] + before)
          && (call.userName.None? && call.spare ==> after == [Entry(number, "<NULL>")] + before)
          && (call.userName.None? && !call.spare ==> after == before))
  {
  }

  /** An open that answers with a descriptor whose path the kernel gives is safe for every number. */
  lemma OpenWithLookupIsSafe(w: World, call: Call, fd: Fd)
    requires call.OpenCall? && call.result >= 0 && call.lookupOk
    ensures Safe(w, call, fd)
  {
  }

  /** The pairs of the slot after a read: a listed number stays as it is listed, and an open
      descriptor that is not is listed first under the kernel's path, if that can be had. */
  lemma ReadCaches(w: World, call: Call, w': World)
    requires call.ReadCall? && Next(w, call, w')
    ensures Unrecorded(w, call.memory) <==> w'.slot.None?
    ensures w'.slot.Some? ==> Entered(w, call.memory).Some?
    ensures w'.slot.Some? ==>
      var before, after, files := Entered(w, call.memory).value.entries, w'.slot.value.entries, w.kernel.files;
      && (HasEntry(before, call.fd) ==>
          after == before && call.answer.Some? && Entry(call.fd, call.answer.value) in before)
      && (!HasEntry(before, call.fd) ==>
          if call.fd in files && call.lookupOk && call.memory.node
          then after == [Entry(call.fd, files[call.fd])] + before && call.answer == Some(files[call.fd])
          else after == before && call.answer == None)
  {
  }

  /** A close that answers 0 leaves no record of the descriptor. */
  lemma CloseForgets(w: World, call: Call, w': World, fd: Fd)
    requires Coherent(w, fd) && call.CloseCall? && call.ok && Next(w, call, w')
    ensures Coherent(w', fd)
    ensures call.fd == fd && w'.slot.Some? ==> !HasEntry(w'.slot.value.entries, fd)
  {
    AskedStaysFaithful(w, call.fd, call.lookupOk, call.memory, fd);
    var slot := Asked(w, call.fd, call.lookupOk, call.memory);
    var suc :| Deletes(slot, call.fd, suc, w'.slot);
    if suc {
      var i :| CutsOut(slot.value.entries, call.fd, i, w'.slot.value.entries);
      FaithfulAfterCut(slot.value.entries, w.kernel.files, call.fd, i, w'.slot.value.entries, fd);
    }
  }

  /** Without a deletion, agreement survives the loss of a descriptor exactly when it is not listed. */
  lemma FaithfulWithoutIff(es: seq<Entry>, files: map<int, CString>, f: Fd, fd: Fd)
    requires FaithfulAt(es, files, fd)
    ensures FaithfulAt(es, files - {f}, fd) <==> f != fd || !HasEntry(es, fd)
  {
    if HasEntry(es, fd) {
      var i :| 0 <= i < |es| && es[i].fd == fd;
      assert files[es[i].fd] == es[i].path;
    }
  }

  /** Agreement survives a new path of a descriptor exactly when it is the old one or not listed. */
  lemma FaithfulWithPathIff(es: seq<Entry>, files: map<int, CString>, f: Fd, path: CString, fd: Fd)
    requires FaithfulAt(es, files, fd) && f in files
    ensures FaithfulAt(es, files[f as int := path], fd) <==> f != fd || files[fd] == path || !HasEntry(es, fd)
  {
    if HasEntry(es, fd) {
      var i :| 0 <= i < |es| && es[i].fd == fd;
      assert files[es[i].fd] == es[i].path;
    }
  }

  /** A close keeps agreement about its descriptor exactly when the kernel answers 0, or keeps
      the descriptor, or nothing was cached for it before the close and nothing could be during it. */
  lemma CloseKeepsCoherentIff(w: World, call: Call, w': World, fd: Fd)
    requires Coherent(w, fd) && call.CloseCall? && Next(w, call, w')
    ensures Coherent(w', fd) <==> Safe(w, call, fd)
  {
    if call.ok {
      CloseForgets(w, call, w', fd);
    } else {
      AskedStaysFaithful(w, call.fd, call.lookupOk, call.memory, fd);
      var slot := Asked(w, call.fd, call.lookupOk, call.memory);
      if call.closed && slot.Some? {
        FaithfulWithoutIff(slot.value.entries, w.kernel.files, call.fd, fd);
        AskedListsIff(w, call.fd, call.lookupOk, call.memory);
      }
    }
  }

  /** After asking for an open descriptor it is listed if it was, or if it could be filled in. */
  lemma AskedListsIff(w: World, fd: Fd, lookupOk: bool, memory: Memory)
    requires Timely(w) && fd in w.kernel.files && Asked(w, fd, lookupOk, memory).Some?
    ensures HasEntry(Asked(w, fd, lookupOk, memory).value.entries, fd) <==> Serves(w, fd) || (lookupOk && memory.node)
  {
    var es := Entered(w, memory).value.entries;
    assert HasEntry(es, fd) <==> Serves(w, fd);
    FrontIsListed(Entry(fd, w.kernel.files[fd]), es, fd);
  }

  /** What happens without a hook, to a slot that is the process's own and not stale. */
  lemma UnhookedKeepsCoherentIff(w: World, call: Call, w': World, fd: Fd)
    requires Coherent(w, fd) && (call.PathChange? || call.UnhookedClose? || call.UnhookedOpen?) && Next(w, call, w')
    ensures Coherent(w', fd) <==> Safe(w, call, fd)
  {
    if Live(w) {
      var es := w.slot.value.entries;
      match call
      case PathChange(f, path) => FaithfulWithPathIff(es, w.kernel.files, f, path, fd);
      case UnhookedClose(f) => FaithfulWithoutIff(es, w.kernel.files, f, fd);
      case _ =>
    }
  }

  /** Every call of a process, and everything that happens to it without a hook, keeps agreement
      about a number if and only if it is safe for it. */
  lemma NextKeepsCoherentIff(w: World, call: Call, w': World, fd: Fd)
    requires Coherent(w, fd) && Next(w, call, w')
    ensures Coherent(w', fd) <==> Safe(w, call, fd)
  {
    match call
    case OpenCall(_, _, _, _, _, _) => OpenKeepsCoherentIff(w, call, w', fd);
    case ReadCall(f, _, lookupOk, memory) => AskedStaysFaithful(w, f, lookupOk, memory, fd);
    case CloseCall(_, _, _, _, _, _) => CloseKeepsCoherentIff(w, call, w', fd);
    case ExecCall(kept, memory) =>
      EnterSettles(w, memory, fd);
      assert forall f :: f in kept ==> (f, kept[f]) in kept.Items;
    case PlainCall(memory) => EnterSettles(w, memory, fd);
    case NewProcess(_, _) =>
    case _ => UnhookedKeepsCoherentIff(w, call, w', fd);
  }

  // ---- all processes on one table ----

  /** Every pid with its process, as kernel and table see it. */
  type System = map<int, World>

  /** The process with this pid makes a call, or it happens to it. */
  datatype Step = Step(pid: int, call: Call)

  ghost predicate SystemNext(s: System, step: Step, s': System) {
    && step.pid in s && s'.Keys == s.Keys
    && Next(s[step.pid], step.call, s'[step.pid])
    && forall q :: q in s && q != step.pid ==> s'[q] == s[q]
  }

  lemma IsStep(s: System, pid: int, call: Call, w': World)
    requires pid in s && Next(s[pid], call, w')
    ensures SystemNext(s, Step(pid, call), s[pid := w'])
  {
  }

  lemma IsOpen(s: System, pid: int, call: Call, w': World)
    requires pid in s && call.OpenCall?
    requires var k := s[pid].kernel;
      && -0x8000_0000 <= call.result < FIRST_ERROR_FD && call.result !in k.files
      && w'.kernel == if call.result >= 0 then k.(files := k.files[call.result := call.path]) else k
    requires w'.slot == if call.result == -1 then Entered(s[pid], call.memory)
      else SlotAfterInsert(Entered(s[pid], call.memory), Unsigned(call.result), FullName(call), call.memory.node)
    ensures SystemNext(s, Step(pid, call), s[pid := w'])
    ensures call.result >= 0 && call.lookupOk && call.memory.node && w'.slot.Some? ==>
      w'.slot.value.entries != [] && w'.slot.value.entries[0] == Entry(call.result, call.path)
  {
    OpenCaches(s[pid], call, w');
  }

  lemma IsClose(s: System, pid: int, call: Call, suc: bool, w': World)
    requires pid in s && call.CloseCall?
    requires var files := s[pid].kernel.files;
      && (call.closed ==> call.fd in files) && (call.ok ==> call.closed)
      && w'.kernel == if call.closed then s[pid].kernel.(files := files - {call.fd}) else s[pid].kernel
    requires Answers(Entered(s[pid], call.memory), call.fd, KernelPath(s[pid].kernel, call.fd, call.lookupOk),
                     call.memory.node, call.answer)
    requires var slot := Asked(s[pid], call.fd, call.lookupOk, call.memory);
      if call.ok then Deletes(slot, call.fd, suc, w'.slot) else w'.slot == slot
    ensures SystemNext(s, Step(pid, call), s[pid := w'])
  {
  }

  ghost predicate StepAt(systems: seq<System>, steps: seq<Step>, i: nat)
    requires |systems| == |steps| + 1 && i < |steps|
  {
    SystemNext(systems[i], steps[i], systems[i + 1])
  }

  /** Any interleaving of the calls of any processes, from an empty table. */
  ghost predicate Run(systems: seq<System>, steps: seq<Step>) {
    && |systems| == |steps| + 1
    && (forall q :: q in systems[0] ==> systems[0][q].slot == None && FilesOk(systems[0][q].kernel.files))
    && (forall i :: 0 <= i < |steps| ==> StepAt(systems, steps, i))
  }

  ghost predicate CoherentAt(systems: seq<System>, pid: int, fd: Fd, i: nat)
    requires i < |systems|
  {
    pid in systems[i] && Coherent(systems[i][pid], fd)
  }

  /** A call of this process must be safe for fd; those of others do not matter. */
  ghost predicate SafeAt(systems: seq<System>, steps: seq<Step>, pid: int, fd: Fd, i: nat)
    requires |systems| == |steps| + 1 && i < |steps|
  {
    steps[i].pid == pid ==> pid in systems[i] && Safe(systems[i][pid], steps[i].call, fd)
  }

  /** In a step of the system only the own calls of a process matter to its agreement. */
  lemma StepKeepsCoherentIff(systems: seq<System>, steps: seq<Step>, pid: int, fd: Fd, i: nat)
    requires |systems| == |steps| + 1 && i < |steps| && StepAt(systems, steps, i) && CoherentAt(systems, pid, fd, i)
    ensures pid in systems[i + 1]
    ensures CoherentAt(systems, pid, fd, i + 1) <==> SafeAt(systems, steps, pid, fd, i)
  {
    if steps[i].pid == pid {
      NextKeepsCoherentIff(systems[i][pid], steps[i].call, systems[i + 1][pid], fd);
    }
  }

  ghost predicate CoherentBetween(systems: seq<System>, pid: int, fd: Fd, a: nat, i: nat)
    requires i < |systems|
  {
    forall j :: a <= j <= i ==> CoherentAt(systems, pid, fd, j)
  }

  ghost predicate SafeBetween(systems: seq<System>, steps: seq<Step>, pid: int, fd: Fd, a: nat, i: nat)
    requires |systems| == |steps| + 1 && i <= |steps|
  {
    forall k :: a <= k < i ==> SafeAt(systems, steps, pid, fd, k)
  }

  lemma NextKeepsTimely(w: World, call: Call, w': World)
    requires Timely(w) && Next(w, call, w')
    ensures Timely(w')
  {
    if call.ExecCall? {
      assert forall f :: f in call.kept ==> (f, call.kept[f]) in call.kept.Items;
    }
  }

  lemma {:induction false} RunStaysTimely(systems: seq<System>, steps: seq<Step>, pid: int, i: nat)
    requires Run(systems, steps) && i <= |steps| && pid in systems[0]
    ensures pid in systems[i] && Timely(systems[i][pid])
  {
    if i > 0 {
      RunStaysTimely(systems, steps, pid, i - 1);
      assert StepAt(systems, steps, i - 1);
      if steps[i - 1].pid == pid {
        NextKeepsTimely(systems[i - 1][pid], steps[i - 1].call, systems[i][pid]);
      }
    }
  }

  /** Agreement about every number is there at the start of a run, and comes back with every
      execve and every new process, whatever was cached before. */
  lemma AgreementStartsHere(systems: seq<System>, steps: seq<Step>, pid: int, fd: Fd, a: nat)
    requires Run(systems, steps) && a <= |steps| && pid in systems[0]
    requires a == 0 || (steps[a - 1].pid == pid && (steps[a - 1].call.ExecCall? || steps[a - 1].call.NewProcess?))
    ensures CoherentAt(systems, pid, fd, a)
  {
    RunStaysTimely(systems, steps, pid, a);
    if a > 0 {
      RunStaysTimely(systems, steps, pid, a - 1);
      assert StepAt(systems, steps, a - 1);
    }
  }

  /** From a moment of agreement on, a process's slot agrees with the kernel about a number all
      along if and only if that process's own calls are safe for that number. */
  lemma {:induction false} RunCoherentIff(systems: seq<System>, steps: seq<Step>, pid: int, fd: Fd, a: nat, i: nat)
    requires Run(systems, steps) && a <= i <= |steps| && CoherentAt(systems, pid, fd, a)
    ensures pid in systems[i]
    ensures CoherentBetween(systems, pid, fd, a, i) <==> SafeBetween(systems, steps, pid, fd, a, i)
  {
    if i > a {
      RunCoherentIff(systems, steps, pid, fd, a, i - 1);
      assert StepAt(systems, steps, i - 1);
      if CoherentBetween(systems, pid, fd, a, i - 1) {
        assert CoherentAt(systems, pid, fd, i - 1);
        StepKeepsCoherentIff(systems, steps, pid, fd, i - 1);
      }
    }
  }

  /** What a hook hands to the log for a number is right: the kernel's path if it is an open
      descriptor, and for an open descriptor it is missing only if memory or the lookup failed. */
  ghost predicate LogsRightPath(w: World, call: Call)
    requires call.ReadCall? || call.CloseCall?
  {
    var fd, files := call.fd, w.kernel.files;
    && (Logged(call).Some? ==> fd in files && Logged(call).value == files[fd])
    && (fd in files && call.lookupOk && call.memory == Memory(true, true, true) ==> Logged(call) == Some(files[fd]))
  }

  /** If the process's calls since a moment of agreement were safe for the number, the logged
      path is right. */
  lemma LoggedPathIsKernelPath(systems: seq<System>, steps: seq<Step>, a: nat, i: nat)
    requires Run(systems, steps) && a <= i < |steps| && (steps[i].call.ReadCall? || steps[i].call.CloseCall?)
    requires CoherentAt(systems, steps[i].pid, steps[i].call.fd, a)
    requires SafeBetween(systems, steps, steps[i].pid, steps[i].call.fd, a, i)
    ensures steps[i].pid in systems[i] && LogsRightPath(systems[i][steps[i].pid], steps[i].call)
  {
    var pid, call := steps[i].pid, steps[i].call;
    RunCoherentIff(systems, steps, pid, call.fd, a, i);
    assert CoherentAt(systems, pid, call.fd, i);
    EnterSettles(systems[i][pid], call.memory, call.fd);
    assert StepAt(systems, steps, i);
  }

  /** Nothing out of the ordinary happens to this descriptor: an open that answers with it can look
      up its path, a close that removes it answers 0, and it does not change without a hook. */
  predicate Ordinary(call: Call, fd: Fd) {
    match call
    case OpenCall(result, _, lookupOk, _, _, _) => result == fd ==> lookupOk
    case CloseCall(f, _, _, closed, ok, _) => f == fd && closed ==> ok
    case PathChange(f, _) => f != fd
    case UnhookedClose(f) => f != fd
    case _ => true
  }

  lemma OrdinaryIsSafe(w: World, call: Call, w': World, fd: Fd)
    requires Next(w, call, w') && fd < FIRST_ERROR_FD && Ordinary(call, fd)
    ensures Safe(w, call, fd)
  {
    if call.OpenCall? && call.result >= 0 && call.lookupOk {
      OpenWithLookupIsSafe(w, call, fd);
    }
  }

  /** If nothing out of the ordinary happens to a descriptor in its process, then in every
      interleaving with any calls on other descriptors and any failures of memory, every path
      logged for it is the kernel's. */
  lemma OrdinaryCallsLogRight(systems: seq<System>, steps: seq<Step>, a: nat, i: nat)
    requires Run(systems, steps) && a <= i < |steps| && (steps[i].call.ReadCall? || steps[i].call.CloseCall?)
    requires steps[i].call.fd < FIRST_ERROR_FD && CoherentAt(systems, steps[i].pid, steps[i].call.fd, a)
    requires forall k :: a <= k < i && steps[k].pid == steps[i].pid ==> Ordinary(steps[k].call, steps[i].call.fd)
    ensures steps[i].pid in systems[i] && LogsRightPath(systems[i][steps[i].pid], steps[i].call)
  {
    var pid, fd := steps[i].pid, steps[i].call.fd;
    forall k | a <= k < i
      ensures SafeAt(systems, steps, pid, fd, k)
    {
      assert StepAt(systems, steps, k);
      if steps[k].pid == pid {
        OrdinaryIsSafe(systems[k][pid], steps[k].call, systems[k + 1][pid], fd);
      }
    }
    LoggedPathIsKernelPath(systems, steps, a, i);
  }

  // ---- each condition is needed ----

  /** A later read that logs a path, but not the kernel's path of an open descriptor. */
  ghost predicate LogsWrongPath(w: World, read: Call) {
    && read.ReadCall? && Next(w, read, w) && Logged(read).Some?
    && (read.fd in w.kernel.files ==> Logged(read).value != w.kernel.files[read.fd])
  }

  const PLENTY := Memory(true, true, true)
  const SOME_TIME := Timespec(1, 0)

  /** A process with these descriptors and one cached pair. */
  function OnePair(files: map<int, CString>, fd: Fd, cachedPath: CString): World {
    World(Kernel(SOME_TIME, files), Some(Cached(SOME_TIME, false, [Entry(fd, cachedPath)])))
  }

  lemma OnePairIsRead(files: map<int, CString>, fd: Fd, cachedPath: CString)
    requires fd in files ==> files[fd] != cachedPath
    ensures LogsWrongPath(OnePair(files, fd, cachedPath), ReadCall(fd, Some(cachedPath), true, PLENTY))
  {
    assert [Entry(fd, cachedPath)][0].fd == fd;
  }

  /** Without the lookup a relative name is cached and later logged. */
  lemma RelativeNameIsLogged() returns (w: World, open: Call, w1: World, read: Call)
    ensures Coherent(w, 3) && open.OpenCall? && !Safe(w, open, 3) && Next(w, open, w1) && LogsWrongPath(w1, read)
  {
    w := World(Kernel(SOME_TIME, map[]), None);
    open := OpenCall(3, "/a", false, Some("a"), true, PLENTY);
    w1 := OnePair(map[3 := "/a"], 3, "a");
    read := ReadCall(3, Some("a"), true, PLENTY);
    var entry := Entry(3, "a");
    assert [entry] + [] == [entry];
    assert |"a"| != |"/a"|;
    OnePairIsRead(map[3 := "/a"], 3, "a");
  }

  /** A failed open caches its error code; a later read of that number logs the path although
      the number is no descriptor. */
  lemma ErrorCodeIsLogged() returns (w: World, open: Call, w1: World, read: Call)
    ensures open.OpenCall? && open.result == -2 && read.ReadCall? && read.fd == 0xFFFF_FFFE
    ensures Coherent(w, read.fd) && !Safe(w, open, read.fd) && Next(w, open, w1) && LogsWrongPath(w1, read)
    ensures read.fd !in w1.kernel.files
  {
    w := World(Kernel(SOME_TIME, map[]), None);
    open := OpenCall(-2, "", false, Some("/a"), true, PLENTY);
    w1 := OnePair(map[], 0xFFFF_FFFE, "/a");
    read := ReadCall(0xFFFF_FFFE, Some("/a"), true, PLENTY);
    var entry := Entry(0xFFFF_FFFE, "/a");
    assert [entry] + [] == [entry];
    OnePairIsRead(map[], 0xFFFF_FFFE, "/a");
  }

  /** A close that reports a late error leaves its pair behind; once the number is used again
      without a hook, the old path is logged for the new file. */
  lemma FailedCloseLeavesStalePair() returns (w: World, close: Call, w1: World, reuse: Call, w2: World, read: Call)
    ensures Coherent(w, 3) && close.CloseCall? && !Safe(w, close, 3) && Next(w, close, w1) && !Coherent(w1, 3)
    ensures reuse.UnhookedOpen? && Next(w1, reuse, w2) && LogsWrongPath(w2, read)
  {
    w := OnePair(map[3 := "/a"], 3, "/a");
    close := CloseCall(3, Some("/a"), true, true, false, PLENTY);
    w1 := w.(kernel := Kernel(SOME_TIME, map[3 := "/a"] - {3}));
    reuse := UnhookedOpen(3, "/b");
    w2 := OnePair(map[3 := "/b"], 3, "/a");
    read := ReadCall(3, Some("/a"), true, PLENTY);
    assert [Entry(3, "/a")][0].fd == 3;
    CloseKeepsCoherentIff(w, close, w1, 3);
    assert w2.kernel.files == w1.kernel.files[3 := "/b"];
    assert "/a"[1] != "/b"[1];
    OnePairIsRead(map[3 := "/b"], 3, "/a");
  }

  /** The cache keeps the path that a file had when it was first seen. */
  lemma RenameIsNotSeen() returns (w: World, rename: Call, w1: World, read: Call)
    ensures Coherent(w, 3) && rename.PathChange? && !Safe(w, rename, 3) && Next(w, rename, w1)
    ensures LogsWrongPath(w1, read)
  {
    w := OnePair(map[3 := "/a"], 3, "/a");
    rename := PathChange(3, "/b");
    w1 := OnePair(map[3 := "/b"], 3, "/a");
    read := ReadCall(3, Some("/a"), true, PLENTY);
    assert [Entry(3, "/a")][0].fd == 3;
    assert "/a"[1] != "/b"[1];
    assert w1.kernel.files == w.kernel.files[3 := "/b"];
    OnePairIsRead(map[3 := "/b"], 3, "/a");
  }
}
