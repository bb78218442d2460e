/** driver/process.c: one record per pid slot, all records on one list, each with its own cache. */
module ProcessTable {
  import opened Common
  import opened FdRecords
  import opened FdCacheSpec
  import opened FdCache
  import opened CacheView

  const HASH_SLOT_SIZE := 65535
  const HOT_FD_CACHE_SIZE := 16

  /** The calling task: its pid, real start time and binary path. */
  datatype Task = Task(pid: int, startTime: Timespec, exePath: Option<CString>)

  class ProcessRecord {
    var prev: ProcessRecord?
    var next: ProcessRecord?
    var startTime: Timespec
    var beforeExecve: bool
    var filename: Option<CString>
    const fds: FdArea
    /** The pid that the record was made for. */
    ghost const slot: int

    constructor (ghost slot: int)
      ensures this.slot == slot && fresh(fds) && fresh(fds.hotFdCache) && fds.hotFdCache.Length == HOT_FD_CACHE_SIZE
    {
      fds := new FdArea(HOT_FD_CACHE_SIZE);
      prev, next := null, null;
      startTime := Timespec(0, 0);
      beforeExecve := false;
      filename := None;
      this.slot := slot;
    }
  }

  ghost function ViewOf(r: ProcessRecord): Slot
    reads r`startTime, r`beforeExecve, r.fds`Link
  {
    Some(Cached(r.startTime, r.beforeExecve, Entries(r.fds.Link)))
  }

  class Table {
    const cache: array<ProcessRecord?>
    var outstandingHeader: ProcessRecord?
    ghost var Outstanding: seq<ProcessRecord>
    ghost var Repr: set<object>

    ghost function Records(): set<ProcessRecord>
      reads this`Outstanding
    {
      set r | r in Outstanding
    }

    /** Every record is on the list once and in its own slot, and nothing else is. */
    ghost predicate SlotsOk()
      reads this`Outstanding, cache
    {
      && Distinct(Outstanding)
      && (forall r :: r in Outstanding ==> 0 <= r.slot < cache.Length && cache[r.slot] == r)
      && (forall i :: 0 <= i < cache.Length && cache[i] != null ==> cache[i] in Outstanding && cache[i].slot == i)
    }

    ghost predicate ListOk()
      reads this`Outstanding, this`outstandingHeader, Records()`prev, Records()`next
    {
      && outstandingHeader == (if Outstanding == [] then null else Outstanding[0])
      && (forall i {:trigger Outstanding[i].prev} :: 0 <= i < |Outstanding| ==>
          Outstanding[i].prev == if i == 0 then null else Outstanding[i - 1])
      && (forall i {:trigger Outstanding[i].next} :: 0 <= i < |Outstanding| ==>
          Outstanding[i].next == if i == |Outstanding| - 1 then null else Outstanding[i + 1])
    }

    /** r and its cache belong to the table. */
    ghost predicate Owns(r: ProcessRecord)
      reads this`Repr, r.fds
    {
      r in Repr && r.fds in Repr && r.fds.Footprint() <= Repr
    }

    /** The nodes of a cache are neither records nor slots. */
    ghost predicate Apart(r: ProcessRecord)
      reads this`Outstanding, r.fds`Link
    {
      && cache !in r.fds.Footprint() && this !in r.fds.Footprint()
      && forall s :: s in Outstanding ==> s !in r.fds.Footprint()
    }

    lemma AreApart()
      ensures forall r :: r in Outstanding ==> Apart(r)
    {
    }

    ghost predicate AreaOk(r: ProcessRecord)
      reads r.fds.Footprint()
    {
      r.fds.Valid() && r.fds.hotFdCache.Length == HOT_FD_CACHE_SIZE
    }

    ghost predicate AreasOk()
      reads this, Repr
    {
      && (forall r :: r in Outstanding ==> r.fds in Repr && Owns(r) && AreaOk(r))
      && (forall r, s :: r in Outstanding && s in Outstanding && r != s ==> r.fds.Footprint() !! s.fds.Footprint())
    }

    ghost predicate Valid()
      reads this, Repr
    {
      this in Repr && cache in Repr && AreasOk() && SlotsOk() && ListOk()
    }

    ghost function View(pid: int): Slot
      requires Valid()
      reads this, Repr
    {
      if 0 <= pid < cache.Length && cache[pid] != null then ViewOf(cache[pid]) else None
    }

    /** process_monitor_init */
    constructor ()
      ensures Valid() && cache.Length == HASH_SLOT_SIZE && fresh(Repr)
      ensures Outstanding == []
    {
      cache := new ProcessRecord?[HASH_SLOT_SIZE](_ => null);
      outstandingHeader := null;
      Outstanding := [];
      Repr := {this, cache};
    }

    /** get_record_by_pid */
    function GetRecordByPid(pid: int): (r: ProcessRecord?)
      reads this, cache
    {
      if pid < 0 || pid >= cache.Length then null else cache[pid]
    }

    /** What every call on one record's cache leaves alone. */
    twostate predicate OnlyTouches(r: ProcessRecord)
      reads this`Outstanding, cache, Records()`startTime, Records()`beforeExecve
      reads (set s | s in Outstanding :: s.fds)`Link
    {
      && Outstanding == old(Outstanding) && cache[..] == old(cache[..])
      && forall s :: s in Outstanding && s != r ==> ViewOf(s) == old(ViewOf(s))
    }

    /** Nothing of the table changed but the cache of r and the set of owned objects. */
    twostate predicate StaysInside(r: ProcessRecord)
      reads this, Repr
    {
      && outstandingHeader == old(outstandingHeader) && Outstanding == old(Outstanding)
      && old(Repr) <= Repr
      && forall o :: o in old(Repr) && o != this && o !in old(r.fds.Footprint()) ==> unchanged(o)
    }

    /** Such a call keeps every other cache as it was. */
    twostate lemma CallKeepsOthers(r: ProcessRecord)
      requires old(Valid()) && r in old(Outstanding) && StaysInside(r)
      requires AreaOk(r) && fresh(r.fds.Footprint() - old(r.fds.Footprint())) && r.fds.Footprint() <= Repr
      ensures AreasOk() && OnlyTouches(r)
    {
      forall s | s in Outstanding && s != r
        ensures unchanged(s) && unchanged(s.fds) && AreaOk(s) && s.fds.Footprint() == old(s.fds.Footprint())
        ensures r.fds.Footprint() !! s.fds.Footprint()
      {
        assert old(Owns(s) && AreaOk(s));
        assert old(r.fds.Footprint() !! s.fds.Footprint());
      }
    }

    /** It leaves the records and their slots alone. */
    twostate lemma CallKeepsRecords(r: ProcessRecord)
      requires old(Valid()) && r in old(Outstanding) && StaysInside(r)
      ensures unchanged(cache)
      ensures forall i {:trigger Outstanding[i]} :: 0 <= i < |Outstanding| ==>
        Outstanding[i].prev == old(Outstanding[i].prev) && Outstanding[i].next == old(Outstanding[i].next)
    {
      assert old(Owns(r) && Apart(r));
      forall i | 0 <= i < |Outstanding|
        ensures unchanged(Outstanding[i])
      {
        assert old(Owns(Outstanding[i]));
      }
    }

    /** So the table stays valid. */
    twostate lemma CallKeepsValid(r: ProcessRecord)
      requires old(Valid()) && r in old(Outstanding) && StaysInside(r)
      requires AreaOk(r) && fresh(r.fds.Footprint() - old(r.fds.Footprint())) && r.fds.Footprint() <= Repr
      ensures Valid() && OnlyTouches(r)
    {
      CallKeepsOthers(r);
      CallKeepsRecords(r);
    }

    method InsertFor(record: ProcessRecord, fd: Fd, path: CString, memoryOk: bool) returns (ghost x: Option<Record>)
      requires Valid() && record in Outstanding
      modifies record.fds.Footprint(), this`Repr
      ensures Valid() && fresh(Repr - old(Repr)) && OnlyTouches(record)
      ensures memoryOk <==> x.Some?
      ensures x.Some? ==> x.value.fd == fd && x.value.filename == path
      ensures record.fds.State() ==
        if x.Some? then AfterInsert(old(record.fds.State()), x.value, HOT_FD_CACHE_SIZE) else old(record.fds.State())
    {
      assert AreaOk(record);
      x := record.fds.Insert(fd, path, memoryOk);
      Repr := Repr + record.fds.Footprint();
      CallKeepsValid(record);
    }

    method GetFor(record: ProcessRecord, fd: Fd, kernelPath: Option<CString>, memoryOk: bool)
      returns (path: Option<CString>, ghost found: Option<Record>, ghost filled: Option<Record>)
      requires Valid() && record in Outstanding
      modifies record.fds.Footprint(), this`Repr
      ensures Valid() && fresh(Repr - old(Repr)) && OnlyTouches(record)
      ensures Got(old(record.fds.State()), record.fds.State(), HOT_FD_CACHE_SIZE, fd, kernelPath, memoryOk,
                  path, found, filled)
    {
      assert AreaOk(record);
      path, found, filled := record.fds.Get(fd, kernelPath, memoryOk);
      Repr := Repr + record.fds.Footprint();
      CallKeepsValid(record);
    }

    method DeleteFor(record: ProcessRecord, fd: Fd) returns (suc: bool, ghost found: Option<Record>)
      requires Valid() && record in Outstanding
      modifies record.fds.Footprint(), this`Repr
      ensures Valid() && fresh(Repr - old(Repr)) && OnlyTouches(record)
      ensures suc <==> found.Some?
      ensures Finds(old(record.fds.State()), fd, found)
      ensures record.fds.State() == AfterDelete(old(record.fds.State()), found)
    {
      assert AreaOk(record);
      suc, found := record.fds.DeleteFromRecord(fd);
      Repr := Repr + record.fds.Footprint();
      CallKeepsValid(record);
    }

    /** fd_cache_initize on the cache of a record in use. */
    method ResetCache(record: ProcessRecord)
      requires Valid() && record in Outstanding
      modifies record.fds.Footprint(), this`Repr
      ensures Valid() && fresh(Repr - old(Repr)) && OnlyTouches(record)
      ensures record.fds.Link == []
    {
      assert AreaOk(record);
      record.fds.Initize();
      Repr := Repr + record.fds.Footprint();
      CallKeepsValid(record);
    }

    method SetIdentity(record: ProcessRecord, current: Task)
      requires Valid() && record in Outstanding
      modifies record`startTime, record`beforeExecve, record`filename
      ensures Valid() && record.startTime == current.startTime && !record.beforeExecve
      ensures record.filename == current.exePath
    {
      AreApart();
      record.filename := current.exePath;
      record.beforeExecve := false;
      record.startTime := current.startTime;
    }

    /** build_process_record for a record that exists: everything in it is replaced and its cache
        emptied; it keeps its place on the list. */
    method Rebuild(record: ProcessRecord, current: Task)
      requires Valid() && record in Outstanding
      modifies record.fds.Footprint(), this`Repr
      modifies record`startTime, record`beforeExecve, record`filename
      ensures Valid() && fresh(Repr - old(Repr)) && OnlyTouches(record)
      ensures ViewOf(record) == Some(Cached(current.startTime, false, []))
      ensures record.filename == current.exePath
    {
      SetIdentity(record, current);
      ResetCache(record);
    }

    /** A record for the calling task, with an empty cache. */
    static method NewRecord(current: Task) returns (record: ProcessRecord)
      ensures fresh(record) && fresh(record.fds.Footprint()) && record.slot == current.pid
      ensures record.fds.Valid() && record.fds.hotFdCache.Length == HOT_FD_CACHE_SIZE
      ensures ViewOf(record) == Some(Cached(current.startTime, false, []))
      ensures record.filename == current.exePath
    {
      record := new ProcessRecord(current.pid);
      record.filename := current.exePath;
      record.beforeExecve := false;
      record.startTime := current.startTime;
      record.fds.Initize();
    }

    /** Of the objects in the table only the table itself and the links of its records were written. */
    twostate predicate OnlyLists()
      reads this, Repr
    {
      && old(Repr) <= Repr
      && (forall o :: o in old(Repr) && o != this && o != cache && o !in old(Records()) ==> unchanged(o))
      && (forall s :: s in old(Records()) && s in old(Repr) ==>
          s.startTime == old(s.startTime) && s.beforeExecve == old(s.beforeExecve))
    }

    /** Then every cache is as it was. */
    twostate lemma ListingKeepsCaches()
      requires old(Valid()) && OnlyLists()
      ensures forall s :: s in old(Outstanding) ==> s.fds in Repr && Owns(s) && AreaOk(s)
      ensures forall s :: s in old(Outstanding) ==>
        s.fds.Footprint() == old(s.fds.Footprint()) && s.fds.Footprint() <= old(Repr) && ViewOf(s) == old(ViewOf(s))
    {
      forall s | s in old(Outstanding)
        ensures s.fds in Repr && Owns(s) && AreaOk(s)
        ensures s.fds.Footprint() == old(s.fds.Footprint()) && s.fds.Footprint() <= old(Repr)
        ensures ViewOf(s) == old(ViewOf(s))
      {
        assert old(Owns(s) && AreaOk(s));
        assert old(Apart(s)) && unchanged(s.fds);
      }
    }

    /** A record with nodes of its own joins without disturbing the others. */
    twostate lemma JoinKeepsAreas(record: ProcessRecord)
      requires old(Valid()) && OnlyLists() && Outstanding == [record] + old(Outstanding)
      requires record.fds.Footprint() !! old(Repr) && AreaOk(record)
      requires Repr == old(Repr) + {record} + record.fds.Footprint()
      ensures AreasOk()
      ensures forall s :: s in old(Outstanding) ==> ViewOf(s) == old(ViewOf(s))
    {
      ListingKeepsCaches();
      forall r, s | r in Outstanding && s in Outstanding && r != s
        ensures r.fds.Footprint() !! s.fds.Footprint()
      {
        if r != record && s != record {
          assert old(r.fds.Footprint() !! s.fds.Footprint());
        }
      }
    }

    /** Links a new record in front of the list. */
    method PushRecord(record: ProcessRecord)
      requires ListOk() && Distinct(Outstanding) && record !in Outstanding
      modifies this`outstandingHeader, this`Outstanding, Records()`prev, Records()`next, record`prev, record`next
      ensures Outstanding == [record] + old(Outstanding) && ListOk()
    {
      if outstandingHeader == null {
        outstandingHeader := record;
        record.next := null;
        record.prev := null;
      } else {
        record.prev := null;
        record.next := outstandingHeader;
        outstandingHeader.prev := record;
        outstandingHeader := record;
      }
      Outstanding := [record] + Outstanding;
    }

    /** A new record in an empty slot shows in that slot only. */
    twostate lemma OtherSlotsAfterJoin(new record: ProcessRecord)
      requires old(Valid()) && Valid() && Outstanding == [record] + old(Outstanding)
      requires cache[..] == old(cache[..])[record.slot := record]
      requires forall s :: s in old(Outstanding) ==> ViewOf(s) == old(ViewOf(s))
      ensures forall q :: q != record.slot ==> View(q) == old(View(q))
    {
      forall q | 0 <= q < cache.Length && q != record.slot
        ensures cache[q] == old(cache[q])
      {
        assert cache[q] == cache[..][q];
      }
    }

    /** The new record goes to the head of the list and into its slot. */
    method Enlist(id: int, record: ProcessRecord)
      requires record !in Repr && ListOk() && SlotsOk()
      requires 0 <= id < cache.Length && cache[id] == null && record.slot == id
      modifies this`outstandingHeader, this`Outstanding, this`Repr, cache
      modifies Records()`prev, Records()`next, record`prev, record`next
      ensures ListOk() && SlotsOk()
      ensures Outstanding == [record] + old(Outstanding) && cache[..] == old(cache[..])[id := record]
      ensures Repr == old(Repr) + {record} + record.fds.Footprint()
      ensures OnlyLists()
    {
      PushRecord(record);
      cache[id] := record;
      Repr := Repr + {record} + record.fds.Footprint();
      assert forall r :: r in Outstanding <==> r == record || r in old(Outstanding);
    }

    /** A record with nodes of its own joins the list and fills its slot. */
    method Install(id: int, record: ProcessRecord)
      requires Valid() && 0 <= id < cache.Length && cache[id] == null && record.slot == id
      requires record !in Repr && record.fds.Footprint() !! Repr && AreaOk(record)
      modifies Repr, record`prev, record`next
      ensures Valid() && Repr == old(Repr) + {record} + record.fds.Footprint()
      ensures Outstanding == [record] + old(Outstanding) && cache[..] == old(cache[..])[id := record]
      ensures ViewOf(record) == old(ViewOf(record)) && record.filename == old(record.filename)
      ensures forall s :: s in old(Outstanding) ==> ViewOf(s) == old(ViewOf(s))
    {
      Enlist(id, record);
      JoinKeepsAreas(record);
    }

    /** notify_enter, first time: build_process_record(NULL) and the slot. */
    method Register(current: Task)
      requires Valid() && 0 <= current.pid < cache.Length && cache[current.pid] == null
      modifies Repr
      ensures Valid() && fresh(Repr - old(Repr))
      ensures View(current.pid) == Some(Cached(current.startTime, false, []))
      ensures forall q :: q != current.pid ==> View(q) == old(View(q))
      ensures cache[current.pid] != null && cache[current.pid].filename == current.exePath
    {
      var record := NewRecord(current);
      Install(current.pid, record);
      assert cache[current.pid] == cache[..][current.pid];
      OtherSlotsAfterJoin(record);
    }

    /** The slot of one record changed, no other. */
    twostate lemma OtherSlots(r: ProcessRecord)
      requires old(Valid()) && Valid() && r in Outstanding && OnlyTouches(r)
      ensures cache[r.slot] == old(cache[r.slot]) == r
      ensures forall q :: q != r.slot ==> View(q) == old(View(q))
    {
      forall q | 0 <= q < cache.Length
        ensures cache[q] == old(cache[q])
      {
        assert cache[q] == cache[..][q] == old(cache[..])[q] == old(cache[q]);
      }
    }

    method NotifyEnter(current: Task, memoryOk: bool)
      requires Valid()
      modifies Repr
      ensures Valid() && fresh(Repr - old(Repr))
      ensures 0 <= current.pid < cache.Length ==>
        View(current.pid) == SlotAfterEnter(old(View(current.pid)), current.startTime, memoryOk)
      ensures forall q :: q != current.pid ==> View(q) == old(View(q))
      ensures 0 <= current.pid < cache.Length && View(current.pid) != old(View(current.pid)) ==>
        cache[current.pid] != null && cache[current.pid].filename == current.exePath
    {
      if current.pid < 0 || current.pid >= cache.Length {
        return;
      }
      var record := cache[current.pid];
      if record != null {
        if record.startTime == current.startTime {
          if record.beforeExecve {
            Rebuild(record, current);
            record.beforeExecve := false;
            OtherSlots(record);
          }
        } else {
          Rebuild(record, current);
          OtherSlots(record);
        }
      } else if memoryOk {
        Register(current);
      }
    }

    method MarkStale(record: ProcessRecord)
      requires Valid() && record in Outstanding
      modifies record`beforeExecve
      ensures Valid() && OnlyTouches(record)
      ensures record.beforeExecve
      ensures record.startTime == old(record.startTime) && record.fds.Link == old(record.fds.Link)
    {
      AreApart();
      record.beforeExecve := true;
    }

    method NotifyExecve(current: Task)
      requires Valid()
      modifies Records()`beforeExecve
      ensures Valid()
      ensures View(current.pid) == SlotAfterExecve(old(View(current.pid)))
      ensures forall q :: q != current.pid ==> View(q) == old(View(q))
    {
      if 0 <= current.pid < cache.Length && cache[current.pid] != null {
        var record := cache[current.pid];
        MarkStale(record);
        OtherSlots(record);
      }
    }

    method InsertIntoCache(current: Task, fd: Fd, path: Option<CString>, memoryOk: bool)
      requires Valid()
      modifies Repr
      ensures Valid() && fresh(Repr - old(Repr))
      ensures View(current.pid) == SlotAfterInsert(old(View(current.pid)), fd, path, memoryOk)
      ensures forall q :: q != current.pid ==> View(q) == old(View(q))
    {
      if path == None {
        return;
      }
      var record := GetRecordByPid(current.pid);
      if record != null {
        ghost var link := record.fds.Link;
        ghost var x := InsertFor(record, fd, path.value, memoryOk);
        OtherSlots(record);
        if x.Some? {
          InsertIsListed(link, x.value);
        }
      }
    }

    /** kernelPath is what get_absolute_path_by_fd gives, should it be asked. */
    method GetCacheByFd(current: Task, fd: Fd, kernelPath: Option<CString>, memoryOk: bool)
      returns (path: Option<CString>)
      requires Valid()
      modifies Repr
      ensures Valid() && fresh(Repr - old(Repr))
      ensures View(current.pid) == SlotAfterGet(old(View(current.pid)), fd, kernelPath, memoryOk)
      ensures Answers(old(View(current.pid)), fd, kernelPath, memoryOk, path)
      ensures forall q :: q != current.pid ==> View(q) == old(View(q))
    {
      path := None;
      var record := GetRecordByPid(current.pid);
      if record != null {
        ghost var c, s := ViewOf(record).value, record.fds.State();
        assert AreaOk(record);
        ghost var found, filled;
        path, found, filled := GetFor(record, fd, kernelPath, memoryOk);
        OtherSlots(record);
        GetShows(c, s, record.fds.State(), HOT_FD_CACHE_SIZE, fd, kernelPath, memoryOk, path, found, filled);
      }
    }

    method DeleteCacheByFd(current: Task, fd: Fd) returns (suc: bool)
      requires Valid()
      modifies Repr
      ensures Valid() && fresh(Repr - old(Repr))
      ensures Deletes(old(View(current.pid)), fd, suc, View(current.pid))
      ensures forall q :: q != current.pid ==> View(q) == old(View(q))
    {
      suc := false;
      var record := GetRecordByPid(current.pid);
      if record != null {
        ghost var c, s := ViewOf(record).value, record.fds.State();
        assert AreaOk(record);
        ghost var found;
        suc, found := DeleteFor(record, fd);
        OtherSlots(record);
        DeleteShows(c, s, record.fds.State(), HOT_FD_CACHE_SIZE, fd, suc, found);
      }
    }
  }
}
