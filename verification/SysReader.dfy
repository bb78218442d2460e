/** native/jni/main.cpp: the reader's loop, which prints the decoded logs that the rules let pass. */
module SysReader {
  import opened Common
  import opened LogDetails
  import opened LogRecord
  import opened LogPipeline
  import opened Filter

  // ---- the columns of a log ----

  /** Null and file operations. */
  function FileOperationName(operation: int): (name: CString)
    ensures name == "<Unknown>" <==> !(0 <= operation < 7)
  {
    match operation
    case 0 => "<Null operation>"
    case 1 => "Create file"
    case 2 => "Read file"
    case 3 => "Write file"
    case 4 => "Close file"
    case 5 => "Ioctl file"
    case 6 => "Stat file"
    case _ => "<Unknown>"
  }

  /** Operations on names, directories and links. */
  function TreeOperationName(operation: int): (name: CString)
    ensures name == "<Unknown>" <==> !(7 <= operation < 14)
  {
    match operation
    case 7 => "Rename file"
    case 8 => "Make directory"
    case 9 => "Rename directory"
    case 10 => "Sync file"
    case 11 => "Open pipe"
    case 12 => "Symbol link"
    case 13 => "Read symbol link"
    case _ => "<Unknown>"
  }

  /** Process events. */
  function ProcessOperationName(operation: int): (name: CString)
    ensures name == "<Unknown>" <==> !(14 <= operation < 19)
  {
    match operation
    case 14 => "Load library"
    case 15 => "Exit process"
    case 16 => "Fork process"
    case 17 => "Exec process"
    case 18 => "Kill process"
    case _ => "<Unknown>"
  }

  function OperationToString(operation: int): (name: CString)
    ensures name == "<Unknown>" <==> !(0 <= operation < 19)
  {
    if operation < 7 then FileOperationName(operation)
    else if operation < 14 then TreeOperationName(operation)
    else ProcessOperationName(operation)
  }

  /** Null and calls on open files. */
  function FileApiName(api: int): (name: CString)
    ensures name == "<Unknown>" <==> !(0 <= api < 7)
  {
    match api
    case 0 => "<Null api>"
    case 1 => "sys_creat"
    case 2 => "sys_open"
    case 3 => "sys_read"
    case 4 => "sys_write"
    case 5 => "sys_close"
    case 6 => "sys_ioctl"
    case _ => "<Unknown>"
  }

  /** Calls on names, directories and links. */
  function TreeApiName(api: int): (name: CString)
    ensures name == "<Unknown>" <==> !(7 <= api < 17)
  {
    match api
    case 7 => "sys_stat"
    case 8 => "sys_lstat"
    case 9 => "sys_fstat"
    case 10 => "sys_rename"
    case 11 => "sys_mkdir"
    case 12 => "sys_rmdir"
    case 13 => "sys_sync"
    case 14 => "sys_pipe"
    case 15 => "sys_symlink"
    case 16 => "sys_readlink"
    case _ => "<Unknown>"
  }

  /** Process events; number 23, sys_kill, has no name. */
  function ProcessApiName(api: int): (name: CString)
    ensures name == "<Unknown>" <==> !(17 <= api < 23)
  {
    match api
    case 17 => "sys_uselib"
    case 18 => "sys_exit"
    case 19 => "sys_fork"
    case 20 => "sys_vfork"
    case 21 => "sys_clone"
    case 22 => "sys_execve"
    case _ => "<Unknown>"
  }

  function ApiToString(api: int): (name: CString)
    ensures name == "<Unknown>" <==> !(0 <= api < 23)
  {
    if api < 7 then FileApiName(api) else if api < 17 then TreeApiName(api) else ProcessApiName(api)
  }

  /** What the reader asks its surroundings for: the time as text in the local zone, and the name
      of the process if it can still be found. */
  datatype Surroundings = Surroundings(time: CString, process: Option<CString>)

  /** The log as text, column by column. */
  function LogOf(e: Entry, s: Surroundings): LogView {
    var h := e.header;
    LogView(s.time, Decimal(h.pid),
            match s.process case Some(name) => name case None => "PROCESS #" + Decimal(h.pid),
            OperationToString(h.operation), ApiToString(h.api), e.path, Hex(AsUnsigned(h.result)), e.details)
  }

  function AsUnsigned(x: Int32): UInt32 {
    if x < 0 then x + 0x1_0000_0000 else x
  }

  /** Column by column: what a rule about a column looks at. */
  lemma ColumnsShow(e: Entry, s: Surroundings)
    ensures var log, h := LogOf(e, s), e.header;
      && ColumnText(log, Time) == Some(s.time)
      && ColumnText(log, Pid) == Some(Decimal(h.pid))
      && (s.process.Some? ==> ColumnText(log, Process) == s.process)
      && (s.process.None? ==> ColumnText(log, Process) == Some("PROCESS #" + Decimal(h.pid)))
      && ColumnText(log, Operation) == Some(OperationToString(h.operation))
      && ColumnText(log, Api) == Some(ApiToString(h.api))
      && ColumnText(log, Path) == Some(e.path)
      && (h.result >= 0 ==> ColumnText(log, Outcome) == Some(Hex(h.result)))
      && (h.result < 0 ==> ColumnText(log, Outcome) == Some(Hex(4294967296 + h.result)))
      && ColumnText(log, Details) == Some(e.details)
      && ColumnText(log, NoColumn) == None
  {
  }

  /** The numbers that the hooks of open and creat, read, write, close and ioctl log. */
  lemma FileCallsAreNamed()
    ensures OperationToString(1) == "Create file"
    ensures ApiToString(1) == "sys_creat"
    ensures ApiToString(2) == "sys_open"
    ensures OperationToString(2) == "Read file"
    ensures ApiToString(3) == "sys_read"
    ensures OperationToString(3) == "Write file"
    ensures ApiToString(4) == "sys_write"
    ensures OperationToString(4) == "Close file"
    ensures ApiToString(5) == "sys_close"
    ensures OperationToString(5) == "Ioctl file"
    ensures ApiToString(6) == "sys_ioctl"
  {
  }

  /** The numbers that the hooks of exit, fork, vfork, clone and execve log. */
  lemma ProcessCallsAreNamed()
    ensures OperationToString(15) == "Exit process"
    ensures ApiToString(18) == "sys_exit"
    ensures OperationToString(16) == "Fork process"
    ensures ApiToString(19) == "sys_fork"
    ensures ApiToString(20) == "sys_vfork"
    ensures ApiToString(21) == "sys_clone"
    ensures OperationToString(17) == "Exec process"
    ensures ApiToString(22) == "sys_execve"
  {
  }

  /** Operations that no hook logs. */
  lemma TreeOperationsAreNamed()
    ensures OperationToString(6) == "Stat file"
    ensures OperationToString(7) == "Rename file"
    ensures OperationToString(8) == "Make directory"
    ensures OperationToString(9) == "Rename directory"
    ensures OperationToString(10) == "Sync file"
    ensures OperationToString(11) == "Open pipe"
    ensures OperationToString(12) == "Symbol link"
    ensures OperationToString(13) == "Read symbol link"
  {
  }

  /** Calls that no hook logs. */
  lemma TreeCallsAreNamed()
    ensures ApiToString(7) == "sys_stat"
    ensures ApiToString(8) == "sys_lstat"
    ensures ApiToString(9) == "sys_fstat"
    ensures ApiToString(10) == "sys_rename"
    ensures ApiToString(11) == "sys_mkdir"
    ensures ApiToString(12) == "sys_rmdir"
    ensures ApiToString(13) == "sys_sync"
    ensures ApiToString(14) == "sys_pipe"
    ensures ApiToString(15) == "sys_symlink"
    ensures ApiToString(16) == "sys_readlink"
  {
  }

  /** The rest of both lists. */
  lemma OthersAreNamed()
    ensures OperationToString(0) == "<Null operation>"
    ensures OperationToString(14) == "Load library"
    ensures OperationToString(18) == "Kill process"
    ensures ApiToString(0) == "<Null api>"
    ensures ApiToString(17) == "sys_uselib"
  {
  }

  lemma LowerIsSame(s: string)
    requires forall c :: c in s ==> !('A' <= c <= 'Z')
    ensures Lower(s) == s
  {
    assert forall i :: 0 <= i < |s| ==> s[i] in s && LowerChar(s[i]) == s[i];
  }

  /** The sign and the digits can be told apart. */
  lemma DecimalParts(n: int)
    ensures Decimal(n)[0] == '-' <==> n < 0
    ensures Value(if n < 0 then Decimal(n)[1..] else Decimal(n), 10) == if n < 0 then -n else n
  {
    DecimalReads(n);
    if n >= 0 {
      assert Decimal(n)[0] in Decimal(n);
    }
  }

  lemma SameDecimalIff(a: int, b: int)
    ensures SameText(Decimal(a), Decimal(b)) <==> a == b
  {
    DecimalIsLower(a);
    DecimalIsLower(b);
    if Decimal(a) == Decimal(b) {
      DecimalParts(a);
      DecimalParts(b);
    }
  }

  /** A rule that a pid is a number speaks about exactly the records of that process. */
  lemma PidRuleIsExact(e: Entry, s: Surroundings, pid: Int32, action: Action)
    ensures Matches(Rule(Pid, Is, Decimal(pid), action), LogOf(e, s)) <==> e.header.pid == pid
  {
    ColumnsShow(e, s);
    SameDecimalIff(e.header.pid, pid);
  }

  lemma DecimalIsLower(n: int)
    ensures Lower(Decimal(n)) == Decimal(n)
  {
    DigitsAreDigits(if n < 0 then -n else n, 10, 1);
    LowerIsSame(Decimal(n));
  }

  lemma SameHexIff(a: UInt32, b: UInt32)
    ensures SameText(Hex(a), Hex(b)) <==> a == b
  {
    HexIsLower(a);
    HexIsLower(b);
    HexReads(a);
    HexReads(b);
  }

  /** A rule that a result is a number speaks about exactly the calls with that result. */
  lemma ResultRuleIsExact(e: Entry, s: Surroundings, result: Int32, action: Action)
    ensures Matches(Rule(Outcome, Is, Hex(AsUnsigned(result)), action), LogOf(e, s)) <==> e.header.result == result
  {
    ColumnsShow(e, s);
    SameHexIff(AsUnsigned(e.header.result), AsUnsigned(result));
  }

  lemma HexIsLower(u: UInt32)
    ensures Lower(Hex(u)) == Hex(u)
  {
    DigitsAreDigits(u, 16, 8);
    LowerIsSame(Hex(u));
  }

  // ---- the loop ----

  ghost predicate Passes(rules: seq<Rule>, log: LogView) {
    Means(rules, log, Included)
  }

  /** The marked entries, in order. */
  function Selected(entries: seq<Entry>, marks: seq<bool>): seq<Entry>
    requires |entries| == |marks|
  {
    if entries == [] then []
    else
      var n := |entries| - 1;
      Selected(entries[..n], marks[..n]) + if marks[n] then [entries[n]] else []
  }

  /** An entry is selected exactly when it is marked somewhere. */
  lemma {:induction false} SelectedIffMarked(entries: seq<Entry>, marks: seq<bool>, e: Entry)
    requires |entries| == |marks|
    ensures e in Selected(entries, marks) <==> exists i :: 0 <= i < |entries| && entries[i] == e && marks[i]
  {
    if entries != [] {
      var n := |entries| - 1;
      SelectedIffMarked(entries[..n], marks[..n], e);
      assert forall i :: 0 <= i < n ==> entries[..n][i] == entries[i] && marks[..n][i] == marks[i];
    }
  }

  lemma SelectedAppend(entries: seq<Entry>, marks: seq<bool>, e: Entry, mark: bool)
    requires |entries| == |marks|
    ensures Selected(entries + [e], marks + [mark]) == Selected(entries, marks) + if mark then [e] else []
  {
  }

  /** passed marks exactly the records whose log passes, and printed are those. */
  ghost predicate Filtered(rules: seq<Rule>, decoded: seq<Entry>, seen: seq<Surroundings>, passed: seq<bool>,
                           printed: seq<Entry>) {
    && |seen| == |passed| == |decoded|
    && (forall i :: 0 <= i < |seen| ==> (passed[i] <==> Passes(rules, LogOf(decoded[i], seen[i]))))
    && printed == Selected(decoded, passed)
  }

  lemma FilteredAppend(rules: seq<Rule>, decoded: seq<Entry>, seen: seq<Surroundings>, passed: seq<bool>,
                       printed: seq<Entry>, e: Entry, s: Surroundings, mark: bool)
    requires Filtered(rules, decoded, seen, passed, printed) && (mark <==> Passes(rules, LogOf(e, s)))
    ensures Filtered(rules, decoded + [e], seen + [s], passed + [mark], if mark then printed + [e] else printed)
  {
    SelectedAppend(decoded, passed, e, mark);
  }

  class Reader {
    const monitor: Monitor
    const filters: FilterList
    /** What the surroundings said for every decoded record, whether it passed, and the records
        printed. */
    ghost var seen: seq<Surroundings>
    ghost var passed: seq<bool>
    ghost var printed: seq<Entry>

    /** The loop's own variables after these decoded records. */
    ghost predicate Tracks(decoded: seq<Entry>)
      reads this, filters, filters.Items
    {
      filters.Valid() && Filtered(filters.Rules(), decoded, seen, passed, printed)
    }

    ghost predicate Valid()
      reads this, monitor, monitor.dev, filters, filters.Items
    {
      monitor.Valid() && Tracks(monitor.decoded)
    }

    constructor (monitor: Monitor, filters: FilterList)
      requires monitor.Valid() && filters.Valid() && monitor.decoded == []
      ensures Valid() && this.monitor == monitor && this.filters == filters && printed == []
    {
      this.monitor := monitor;
      this.filters := filters;
      seen, passed, printed := [], [], [];
    }

    /** The two read calls; what was filtered and printed before does not change. */
    method ReadOne(memoryOk: bool) returns (record: Option<Entry>)
      requires Valid()
      modifies monitor`phase, monitor`decoded, monitor.dev`readPtr
      ensures monitor.Valid() && Tracks(old(monitor.decoded))
      ensures monitor.AsWorld() == Apply(old(monitor.AsWorld()), monitor.dev.buffer.Length, ReadOnce(memoryOk))
      ensures monitor.decoded ==
        if record.Some? then old(monitor.decoded) + [record.value] else old(monitor.decoded)
    {
      record := monitor.Turn(memoryOk);
    }

    /** One turn of the loop; s is what the surroundings say about the record, should there be one. */
    method Turn(memoryOk: bool, s: Surroundings)
      requires Valid()
      modifies this`seen, this`passed, this`printed, monitor`phase, monitor`decoded, monitor.dev`readPtr
      ensures Valid() && old(printed) <= printed
      ensures monitor.AsWorld() == Apply(old(monitor.AsWorld()), monitor.dev.buffer.Length, ReadOnce(memoryOk))
    {
      ghost var decoded := monitor.decoded;
      var record := ReadOne(memoryOk);
      if record.Some? {
        Print(decoded, record.value, s);
      }
    }

    /** Filters one decoded record and prints it if it passes. */
    method Print(ghost decoded: seq<Entry>, record: Entry, s: Surroundings)
      requires Tracks(decoded)
      modifies this`seen, this`passed, this`printed
      ensures Tracks(decoded + [record]) && old(printed) <= printed
    {
      var result := Judge(LogOf(record, s));
      FilteredAppend(filters.Rules(), decoded, seen, passed, printed, record, s, Included == result);
      if Included == result {
        printed := printed + [record];
      }
      seen := seen + [s];
      passed := passed + [Included == result];
    }

    /** FilterLog includes exactly the logs that pass. */
    method Judge(log: LogView) returns (result: Verdict)
      requires filters.Valid()
      ensures result == Included <==> Passes(filters.Rules(), log)
    {
      result := filters.FilterLog(log);
      if Passes(filters.Rules(), log) {
        VerdictIsUnique(filters.Rules(), log, result, Included);
      }
    }
  }
}
