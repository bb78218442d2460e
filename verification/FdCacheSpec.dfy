/** What the fd cache of one process means: a list of records, youngest first, and the
    "hot" ones among them in the order in which they became hot. */
module FdCacheSpec {
  import opened Common
  import opened FdRecords

  type Record = FileFdRecord

  /** link: every record, newest first. ring: the hot records, last promoted first. */
  datatype CacheState = CacheState(link: seq<Record>, ring: seq<Record>)

  const EMPTY := CacheState([], [])

  ghost predicate Inv(s: CacheState, capacity: nat) {
    && Distinct(s.link)
    && Distinct(s.ring)
    && (forall r :: r in s.ring ==> r in s.link)
    && |s.ring| <= capacity
  }

  ghost predicate HasFd(rs: seq<Record>, fd: Fd) {
    exists r :: r in rs && r.fd == fd
  }

  /** At most one position of rs holds fd. */
  ghost predicate AtMostOne(rs: seq<Record>, fd: Fd) {
    forall i, j :: 0 <= i < j < |rs| ==> !(rs[i].fd == fd && rs[j].fd == fd)
  }

  /** The slow search: the first record with this fd, seen from the head of the list. */
  function FirstWithFd(rs: seq<Record>, fd: Fd): (r: Option<Record>)
    ensures r.None? ==> !HasFd(rs, fd)
    ensures r.Some? ==> r.value in rs && r.value.fd == fd
  {
    if rs == [] then None
    else if rs[0].fd == fd then Some(rs[0])
    else FirstWithFd(rs[1..], fd)
  }

  /** x stands in rs in front of every other record with its fd. */
  ghost predicate IsFirst(rs: seq<Record>, x: Record) {
    exists i :: 0 <= i < |rs| && rs[i] == x && forall j :: 0 <= j < i ==> rs[j].fd != x.fd
  }

  /** The walk stops at the first record with the fd, whatever follows it. */
  lemma {:induction false} FirstIsFirst(rs: seq<Record>, fd: Fd)
    ensures FirstWithFd(rs, fd).None? <==> !HasFd(rs, fd)
    ensures forall x: Record {:trigger IsFirst(rs, x)} ::
      FirstWithFd(rs, fd) == Some(x) <==> x.fd == fd && IsFirst(rs, x)
  {
    if rs != [] {
      FirstIsFirst(rs[1..], fd);
      forall x: Record
        ensures FirstWithFd(rs, fd) == Some(x) <==> x.fd == fd && IsFirst(rs, x)
      {
        FirstGrows(rs, x);
      }
    }
  }

  /** In front of the others: at the head, or in front of them in the tail behind another fd. */
  lemma FirstGrows(rs: seq<Record>, x: Record)
    requires rs != []
    ensures IsFirst(rs, x) <==> rs[0] == x || (rs[0].fd != x.fd && IsFirst(rs[1..], x))
  {
    if rs[0] != x && IsFirst(rs, x) {
      var i :| 0 <= i < |rs| && rs[i] == x && forall j :: 0 <= j < i ==> rs[j].fd != x.fd;
      assert rs[1..][i - 1] == x;
    }
    if rs[0].fd != x.fd && IsFirst(rs[1..], x) {
      var i :| 0 <= i < |rs[1..]| && rs[1..][i] == x && forall j :: 0 <= j < i ==> rs[1..][j].fd != x.fd;
      assert rs[i + 1] == x;
    }
  }

  /** The fast search: any hot record with this fd if there is one, else the slow search. */
  ghost predicate Finds(s: CacheState, fd: Fd, found: Option<Record>) {
    if HasFd(s.ring, fd)
    then found.Some? && found.value in s.ring && found.value.fd == fd
    else found == FirstWithFd(s.link, fd)
  }

  /** x becomes the youngest hot record; a full ring loses its last one. */
  function Promoted(ring: seq<Record>, x: Record, capacity: nat): seq<Record> {
    [x] + if |ring| == capacity && capacity > 0 then ring[..|ring| - 1] else ring
  }

  function AfterInsert(s: CacheState, x: Record, capacity: nat): CacheState {
    CacheState([x] + s.link, Promoted(s.ring, x, capacity))
  }

  function AfterLookup(s: CacheState, found: Option<Record>, capacity: nat): CacheState {
    if found.Some? && found.value !in s.ring
    then s.(ring := Promoted(s.ring, found.value, capacity))
    else s
  }

  ghost function AfterDelete(s: CacheState, found: Option<Record>): CacheState {
    if found.None? then s
    else CacheState(Without(s.link, found.value), Without(s.ring, found.value))
  }

  /** A search with fallback: found answers it, or else filled, a new record with the kernel's
      path, when the kernel knows one and there is memory for it. */
  ghost predicate Got(s: CacheState, s': CacheState, capacity: nat, fd: Fd, kernelPath: Option<CString>, memoryOk: bool,
                      path: Option<CString>, found: Option<Record>, filled: Option<Record>) {
    && Finds(s, fd, found)
    && (filled.Some? <==> found.None? && kernelPath.Some? && memoryOk)
    && (if filled.Some?
        then filled.value.fd == fd && Some(filled.value.filename) == kernelPath == path &&
             s' == AfterInsert(s, filled.value, capacity)
        else s' == AfterLookup(s, found, capacity) && path == if found.Some? then Some(found.value.filename) else None)
  }

  /** One call on the cache, with what it found. */
  datatype Op =
    | Insert(x: Record)
    | Lookup(fd: Fd, found: Option<Record>)
    | Delete(fd: Fd, found: Option<Record>)

  ghost predicate Next(s: CacheState, capacity: nat, op: Op, s': CacheState) {
    match op
    case Insert(x) => x !in s.link && s' == AfterInsert(s, x, capacity)
    case Lookup(fd, found) => Finds(s, fd, found) && s' == AfterLookup(s, found, capacity)
    case Delete(fd, found) => Finds(s, fd, found) && s' == AfterDelete(s, found)
  }

  /** A deletion cuts one position out of the list, and one or none out of the ring. */
  lemma DeleteCuts(s: CacheState, r: Record, capacity: nat)
    requires Inv(s, capacity) && r in s.link
    ensures Inv(AfterDelete(s, Some(r)), capacity)
    ensures exists j :: 0 <= j < |s.link| && s.link[j] == r && AfterDelete(s, Some(r)).link == RemoveAt(s.link, j)
    ensures r !in s.ring ==> AfterDelete(s, Some(r)).ring == s.ring
    ensures r in s.ring ==>
      exists k :: 0 <= k < |s.ring| && s.ring[k] == r && AfterDelete(s, Some(r)).ring == RemoveAt(s.ring, k)
  {
    var j :| 0 <= j < |s.link| && s.link[j] == r;
    WithoutIsRemoveAt(s.link, j);
    DistinctAfterRemove(s.link, j);
    if r in s.ring {
      var k :| 0 <= k < |s.ring| && s.ring[k] == r;
      WithoutIsRemoveAt(s.ring, k);
      DistinctAfterRemove(s.ring, k);
    } else {
      WithoutAbsent(s.ring, r);
    }
  }
}
