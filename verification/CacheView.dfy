/** What the hooks can tell about one slot of the process table: whose record it is, whether it
    is stale, and which (fd, path) pairs its cache lists, newest first. */
module CacheView {
  import opened Common
  import opened FdRecords
  import opened FdCacheSpec

  datatype Entry = Entry(fd: Fd, path: CString)

  datatype Timespec = Timespec(sec: int, nsec: int)

  datatype Cached = Cached(startTime: Timespec, beforeExecve: bool, entries: seq<Entry>)

  type Slot = Option<Cached>

  function Entries(link: seq<Record>): (es: seq<Entry>)
    ensures |es| == |link|
  {
    seq(|link|, i requires 0 <= i < |link| => Entry(link[i].fd, link[i].filename))
  }

  predicate HasEntry(es: seq<Entry>, fd: Fd) {
    exists i :: 0 <= i < |es| && es[i].fd == fd
  }

  /** notify_enter: a new, a stale and another process's record all start over. */
  function SlotAfterEnter(slot: Slot, start: Timespec, memoryOk: bool): Slot {
    match slot
    case None => if memoryOk then Some(Cached(start, false, [])) else None
    case Some(c) => if c.startTime == start && !c.beforeExecve then slot else Some(Cached(start, false, []))
  }

  function SlotAfterExecve(slot: Slot): Slot {
    match slot
    case None => None
    case Some(c) => Some(c.(beforeExecve := true))
  }

  function SlotAfterInsert(slot: Slot, fd: Fd, path: Option<CString>, memoryOk: bool): Slot {
    if slot.Some? && path.Some? && memoryOk
    then Some(slot.value.(entries := [Entry(fd, path.value)] + slot.value.entries))
    else slot
  }

  function SlotAfterGet(slot: Slot, fd: Fd, kernelPath: Option<CString>, memoryOk: bool): Slot {
    if slot.Some? && HasEntry(slot.value.entries, fd) then slot else SlotAfterInsert(slot, fd, kernelPath, memoryOk)
  }

  /** path is a possible answer: some listed path of the fd, else the kernel's if it was inserted. */
  predicate Answers(slot: Slot, fd: Fd, kernelPath: Option<CString>, memoryOk: bool, path: Option<CString>) {
    if slot.Some? && HasEntry(slot.value.entries, fd)
    then path.Some? && Entry(fd, path.value) in slot.value.entries
    else path == if slot.Some? && memoryOk then kernelPath else None
  }

  /** One pair with this fd goes, if there is one. */
  ghost predicate Deletes(slot: Slot, fd: Fd, suc: bool, slot': Slot) {
    && (suc <==> slot.Some? && HasEntry(slot.value.entries, fd))
    && (!suc ==> slot' == slot)
    && (suc ==> slot'.Some? && slot' == Some(slot.value.(entries := slot'.value.entries)))
    && (suc ==> exists i :: CutsOut(slot.value.entries, fd, i, slot'.value.entries))
  }

  predicate CutsOut(es: seq<Entry>, fd: Fd, i: int, es': seq<Entry>) {
    0 <= i < |es| && es[i].fd == fd && es' == RemoveAt(es, i)
  }

  // ---- the slot of a cache state ----

  lemma FoundIsListed(s: CacheState, capacity: nat, fd: Fd, found: Option<Record>)
    requires Inv(s, capacity) && Finds(s, fd, found)
    ensures found.Some? <==> HasEntry(Entries(s.link), fd)
    ensures found.Some? ==> Entry(fd, found.value.filename) in Entries(s.link)
  {
    if found.Some? {
      var i :| 0 <= i < |s.link| && s.link[i] == found.value;
      assert Entries(s.link)[i] == Entry(fd, found.value.filename);
    } else {
      assert forall i :: 0 <= i < |s.link| ==> s.link[i] in s.link;
    }
  }

  lemma InsertIsListed(link: seq<Record>, x: Record)
    ensures Entries([x] + link) == [Entry(x.fd, x.filename)] + Entries(link)
  {
  }

  lemma DeleteIsCut(s: CacheState, capacity: nat, r: Record)
    requires Inv(s, capacity) && r in s.link
    ensures exists i :: CutsOut(Entries(s.link), r.fd, i, Entries(Without(s.link, r)))
  {
    var i :| 0 <= i < |s.link| && s.link[i] == r;
    WithoutIsRemoveAt(s.link, i);
    assert Entries(RemoveAt(s.link, i)) == RemoveAt(Entries(s.link), i);
    assert CutsOut(Entries(s.link), r.fd, i, Entries(Without(s.link, r)));
  }

  /** get_cache_by_fd on a record's cache, seen through its slot. */
  lemma GetShows(c: Cached, s: CacheState, s': CacheState, capacity: nat, fd: Fd, kernelPath: Option<CString>,
                 memoryOk: bool, path: Option<CString>, found: Option<Record>, filled: Option<Record>)
    requires Inv(s, capacity) && c.entries == Entries(s.link)
    requires Got(s, s', capacity, fd, kernelPath, memoryOk, path, found, filled)
    ensures Some(c.(entries := Entries(s'.link))) == SlotAfterGet(Some(c), fd, kernelPath, memoryOk)
    ensures Answers(Some(c), fd, kernelPath, memoryOk, path)
  {
    FoundIsListed(s, capacity, fd, found);
    if filled.Some? {
      InsertIsListed(s.link, filled.value);
    }
  }

  /** delete_cache_by_fd on a record's cache, seen through its slot. */
  lemma DeleteShows(c: Cached, s: CacheState, s': CacheState, capacity: nat, fd: Fd, suc: bool, found: Option<Record>)
    requires Inv(s, capacity) && Finds(s, fd, found) && c.entries == Entries(s.link)
    requires suc <==> found.Some?
    requires s' == AfterDelete(s, found)
    ensures Deletes(Some(c), fd, suc, Some(c.(entries := Entries(s'.link))))
  {
    FoundIsListed(s, capacity, fd, found);
    if found.Some? {
      DeleteIsCut(s, capacity, found.value);
    }
  }
}
