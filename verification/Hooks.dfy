/** driver/sys_calls: the hooks, as far as they touch the process table and the cache, called by any
    processes in any order. The kernel's side of each call comes in as parameters. */
module Hooks {
  import opened Common
  import opened FdRecords
  import opened CacheView
  import opened ProcessTable
  import opened Coherence

  class Machine {
    const table: Table
    /** The processes with their start times and descriptors, and their binaries. */
    var kernels: map<int, Kernel>
    var exePaths: map<int, CString>

    ghost predicate Valid()
      reads this, table, table.Repr
    {
      this !in table.Repr && table.Valid() && forall pid :: pid in kernels ==> 0 <= pid < table.cache.Length
    }

    ghost function AsWorld(pid: int): World
      requires Valid() && pid in kernels
      reads this, table, table.Repr
    {
      World(kernels[pid], table.View(pid))
    }

    ghost function AsSystem(): System
      requires Valid()
      reads this, table, table.Repr
    {
      map pid | pid in kernels :: AsWorld(pid)
    }

    constructor (kernels: map<int, Kernel>, exePaths: map<int, CString>)
      requires forall pid :: pid in kernels ==> 0 <= pid < HASH_SLOT_SIZE
      ensures Valid() && fresh(table.Repr) && AsSystem() == map pid | pid in kernels :: World(kernels[pid], None)
    {
      table := new Table();
      this.kernels := kernels;
      this.exePaths := exePaths;
    }

    /** A call of one process shows in its world only. */
    twostate lemma OthersKept(pid: int)
      requires old(Valid()) && Valid() && pid in old(kernels) && pid in kernels
      requires kernels == old(kernels)[pid := kernels[pid]]
      requires forall q :: q != pid ==> table.View(q) == old(table.View(q))
      ensures AsSystem() == old(AsSystem())[pid := AsWorld(pid)]
    {
    }

    function Current(pid: int): Task
      requires pid in kernels
      reads this
    {
      Task(pid, kernels[pid].startTime, if pid in exePaths then Some(exePaths[pid]) else None)
    }

    /** The kernel's side of a call. */
    method SetFiles(pid: int, files: map<int, CString>)
      requires Valid() && pid in kernels
      modifies this`kernels
      ensures Valid() && kernels == old(kernels)[pid := old(kernels)[pid].(files := files)]
      ensures forall q :: table.View(q) == old(table.View(q))
    {
      kernels := kernels[pid := kernels[pid].(files := files)];
    }

    /** The kernel opens the file; unless it answers -1, the hook caches the result under the
        kernel's path, else what it can copy from the caller, else a placeholder. */
    method OpenAndCache(pid: int, result: int, path: CString, lookupOk: bool, userName: Option<CString>, spare: bool,
                        memory: Memory)
      requires Valid() && pid in kernels
      modifies this`kernels, table.Repr
      ensures Valid() && fresh(table.Repr - old(table.Repr))
      ensures var files := old(kernels)[pid].files;
        kernels ==
          if result >= 0 then old(kernels)[pid := old(kernels)[pid].(files := files[result := path])] else old(kernels)
      ensures var call := OpenCall(result, path, lookupOk, userName, spare, memory);
        table.View(pid) == if result == -1 then old(table.View(pid))
          else SlotAfterInsert(old(table.View(pid)), Unsigned(result), FullName(call), memory.node)
      ensures forall q :: q != pid ==> table.View(q) == old(table.View(q))
    {
      if result >= 0 {
        SetFiles(pid, kernels[pid].files[result := path]);
      }
      if -1 != result {
        var fullName := if result >= 0 && lookupOk then Some(path) else None;
        if fullName == None {
          fullName := userName;
          if fullName == None {
            fullName := if spare then Some("<NULL>") else None;
          }
        }
        table.InsertIntoCache(Current(pid), Unsigned(result), fullName, memory.node);
      }
    }

    /** The parts of fake_sys_open, one after the other. */
    method EnterAndOpen(pid: int, result: int, path: CString, lookupOk: bool, userName: Option<CString>, spare: bool,
                        memory: Memory)
      requires Valid() && pid in kernels
      modifies this`kernels, table.Repr
      ensures Valid() && fresh(table.Repr - old(table.Repr))
      ensures var files := old(kernels)[pid].files;
        kernels ==
          if result >= 0 then old(kernels)[pid := old(kernels)[pid].(files := files[result := path])] else old(kernels)
      ensures var call := OpenCall(result, path, lookupOk, userName, spare, memory);
        table.View(pid) == if result == -1 then Entered(old(AsWorld(pid)), memory)
          else SlotAfterInsert(Entered(old(AsWorld(pid)), memory), Unsigned(result), FullName(call), memory.node)
      ensures forall q :: q != pid ==> table.View(q) == old(table.View(q))
    {
      table.NotifyEnter(Current(pid), memory.record);
      OpenAndCache(pid, result, path, lookupOk, userName, spare, memory);
    }

    /** fake_sys_open; fake_sys_creat differs only in what it logs. */
    method FakeSysOpen(pid: int, result: int, path: CString, lookupOk: bool, userName: Option<CString>, spare: bool,
                       memory: Memory)
      requires Valid() && pid in kernels
      requires -0x8000_0000 <= result < FIRST_ERROR_FD && result !in kernels[pid].files
      modifies this`kernels, table.Repr
      ensures Valid() && fresh(table.Repr - old(table.Repr))
      ensures var call := OpenCall(result, path, lookupOk, userName, spare, memory);
        SystemNext(old(AsSystem()), Step(pid, call), AsSystem())
      ensures result >= 0 && lookupOk && memory.node && table.View(pid).Some? ==>
        table.View(pid).value.entries != [] && table.View(pid).value.entries[0] == Entry(result, path)
    {
      ghost var s, call := AsSystem(), OpenCall(result, path, lookupOk, userName, spare, memory);
      EnterAndOpen(pid, result, path, lookupOk, userName, spare, memory);
      OthersKept(pid);
      IsOpen(s, pid, call, AsWorld(pid));
    }

    /** notify_enter and begin_log_system_call_by_fd: answer is what the cache says, and the log
        gets a copy of it. */
    method Ask(pid: int, fd: Fd, lookupOk: bool, memory: Memory)
      returns (logged: Option<CString>, ghost answer: Option<CString>)
      requires Valid() && pid in kernels
      modifies table.Repr
      ensures Valid() && fresh(table.Repr - old(table.Repr))
      ensures table.View(pid) == Asked(old(AsWorld(pid)), fd, lookupOk, memory)
      ensures forall q :: q != pid ==> table.View(q) == old(table.View(q))
      ensures Answers(Entered(old(AsWorld(pid)), memory), fd, KernelPath(kernels[pid], fd, lookupOk), memory.node,
                      answer)
      ensures logged == if memory.copy then answer else None
    {
      table.NotifyEnter(Current(pid), memory.record);
      var path := table.GetCacheByFd(Current(pid), fd, KernelPath(kernels[pid], fd, lookupOk), memory.node);
      logged := None;
      if path.Some? && memory.copy {
        logged := path;
      }
      answer := path;
    }

    /** fake_sys_read, like fake_sys_write and fake_sys_ioctl. */
    method FakeSysRead(pid: int, fd: Fd, lookupOk: bool, memory: Memory)
      returns (logged: Option<CString>, ghost call: Call)
      requires Valid() && pid in kernels
      modifies table.Repr
      ensures Valid() && fresh(table.Repr - old(table.Repr))
      ensures call.ReadCall? && call == ReadCall(fd, call.answer, lookupOk, memory) && logged == Logged(call)
      ensures SystemNext(old(AsSystem()), Step(pid, call), AsSystem())
    {
      ghost var s := AsSystem();
      ghost var answer;
      logged, answer := Ask(pid, fd, lookupOk, memory);
      call := ReadCall(fd, answer, lookupOk, memory);
      OthersKept(pid);
      IsStep(s, pid, call, AsWorld(pid));
    }

    /** The end of a successful close: the record goes; a warning asks for the path once more. */
    method Forget(pid: int, fd: Fd, memory: Memory) returns (ghost suc: bool)
      requires Valid() && pid in kernels && fd !in kernels[pid].files
      modifies table.Repr
      ensures Valid() && fresh(table.Repr - old(table.Repr))
      ensures Deletes(old(table.View(pid)), fd, suc, table.View(pid))
      ensures forall q :: q != pid ==> table.View(q) == old(table.View(q))
    {
      var deleteOk := table.DeleteCacheByFd(Current(pid), fd);
      if !deleteOk {
        var warned := table.GetCacheByFd(Current(pid), fd, None, memory.node);
      }
      suc := deleteOk;
    }

    /** The kernel closes fd, and on 0 the hook forgets it. */
    method CloseAndForget(pid: int, fd: Fd, result: int, closed: bool, memory: Memory) returns (ghost suc: bool)
      requires Valid() && pid in kernels && (closed ==> fd in kernels[pid].files) && (result == 0 ==> closed)
      modifies this`kernels, table.Repr
      ensures Valid() && fresh(table.Repr - old(table.Repr))
      ensures var files := old(kernels)[pid].files;
        kernels == if closed then old(kernels)[pid := old(kernels)[pid].(files := files - {fd})] else old(kernels)
      ensures if result == 0 then Deletes(old(table.View(pid)), fd, suc, table.View(pid))
              else table.View(pid) == old(table.View(pid))
      ensures forall q :: q != pid ==> table.View(q) == old(table.View(q))
    {
      if closed {
        SetFiles(pid, kernels[pid].files - {fd});
      }
      suc := false;
      if 0 == result {
        suc := Forget(pid, fd, memory);
      }
    }

    /** The parts of fake_sys_close, one after the other. */
    method AskAndClose(pid: int, fd: Fd, result: int, closed: bool, lookupOk: bool, memory: Memory)
      returns (logged: Option<CString>, ghost answer: Option<CString>, ghost suc: bool)
      requires Valid() && pid in kernels && (closed ==> fd in kernels[pid].files) && (result == 0 ==> closed)
      modifies this`kernels, table.Repr
      ensures Valid() && fresh(table.Repr - old(table.Repr))
      ensures logged == if memory.copy then answer else None
      ensures var w := old(AsWorld(pid));
        && Answers(Entered(w, memory), fd, KernelPath(w.kernel, fd, lookupOk), memory.node, answer)
        && kernels == (if closed then old(kernels)[pid := w.kernel.(files := w.kernel.files - {fd})] else old(kernels))
        && (if result == 0 then Deletes(Asked(w, fd, lookupOk, memory), fd, suc, table.View(pid))
            else table.View(pid) == Asked(w, fd, lookupOk, memory))
      ensures forall q :: q != pid ==> table.View(q) == old(table.View(q))
    {
      logged, answer := Ask(pid, fd, lookupOk, memory);
      suc := CloseAndForget(pid, fd, result, closed, memory);
    }

    /** fake_sys_close; result is what the kernel answers and closed says whether it removed the
        descriptor, which it does on 0 and may do on an error. */
    method FakeSysClose(pid: int, fd: Fd, result: int, closed: bool, lookupOk: bool, memory: Memory)
      returns (logged: Option<CString>, ghost call: Call)
      requires Valid() && pid in kernels && (closed ==> fd in kernels[pid].files) && (result == 0 ==> closed)
      modifies this`kernels, table.Repr
      ensures Valid() && fresh(table.Repr - old(table.Repr))
      ensures call.CloseCall? && call == CloseCall(fd, call.answer, lookupOk, closed, result == 0, memory)
      ensures logged == Logged(call)
      ensures SystemNext(old(AsSystem()), Step(pid, call), AsSystem())
    {
      ghost var s, answer, suc := AsSystem(), None, false;
      logged, answer, suc := AskAndClose(pid, fd, result, closed, lookupOk, memory);
      call := CloseCall(fd, answer, lookupOk, closed, result == 0, memory);
      OthersKept(pid);
      IsClose(s, pid, call, suc, AsWorld(pid));
    }

    /** notify_enter and notify_execve, one after the other. */
    method EnterAndMark(pid: int, memory: Memory)
      requires Valid() && pid in kernels
      modifies table.Repr
      ensures Valid() && fresh(table.Repr - old(table.Repr))
      ensures table.View(pid) == SlotAfterExecve(Entered(old(AsWorld(pid)), memory))
      ensures forall q :: q != pid ==> table.View(q) == old(table.View(q))
    {
      table.NotifyEnter(Current(pid), memory.record);
      table.NotifyExecve(Current(pid));
    }

    /** fake_sys_exec; kept is what the kernel leaves open. */
    method FakeSysExec(pid: int, kept: map<int, CString>, memory: Memory)
      requires Valid() && pid in kernels && kept.Items <= kernels[pid].files.Items
      modifies this`kernels, table.Repr
      ensures Valid() && fresh(table.Repr - old(table.Repr))
      ensures SystemNext(old(AsSystem()), Step(pid, ExecCall(kept, memory)), AsSystem())
    {
      ghost var s := AsSystem();
      EnterAndMark(pid, memory);
      SetFiles(pid, kept);
      OthersKept(pid);
      IsStep(s, pid, ExecCall(kept, memory), AsWorld(pid));
    }

    /** fake_sys_exit and the fork hooks. */
    method FakeSysPlain(pid: int, memory: Memory)
      requires Valid() && pid in kernels
      modifies table.Repr
      ensures Valid() && fresh(table.Repr - old(table.Repr))
      ensures SystemNext(old(AsSystem()), Step(pid, PlainCall(memory)), AsSystem())
    {
      ghost var s := AsSystem();
      table.NotifyEnter(Current(pid), memory.record);
      OthersKept(pid);
      IsStep(s, pid, PlainCall(memory), AsWorld(pid));
    }

    /** What happens to a process without a hook, or its replacement by a new process. */
    method Unhooked(pid: int, kernel: Kernel, ghost call: Call)
      requires Valid() && pid in kernels
      requires call.UnhookedOpen? || call.PathChange? || call.UnhookedClose? || call.NewProcess?
      requires Next(AsWorld(pid), call, World(kernel, table.View(pid)))
      modifies this`kernels
      ensures Valid() && SystemNext(old(AsSystem()), Step(pid, call), AsSystem())
    {
      ghost var s := AsSystem();
      kernels := kernels[pid := kernel];
      OthersKept(pid);
      IsStep(s, pid, call, AsWorld(pid));
    }
  }
}
