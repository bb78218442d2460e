/** What holds over every run of calls on one fd cache, whatever its capacity. */
module FdCacheRuns {
  import opened Common
  import opened FdRecords
  import opened FdCacheSpec

  ghost predicate StepAt(states: seq<CacheState>, ops: seq<Op>, capacity: nat, i: nat)
    requires |states| == |ops| + 1 && i < |ops|
  {
    Next(states[i], capacity, ops[i], states[i + 1])
  }

  /** states[i] is the cache before call ops[i]; the run starts at fd_cache_initize. */
  ghost predicate Run(states: seq<CacheState>, ops: seq<Op>, capacity: nat) {
    && |states| == |ops| + 1
    && states[0] == EMPTY
    && forall i :: 0 <= i < |ops| ==> StepAt(states, ops, capacity, i)
  }

  // ---- the invariant ----

  lemma NextKeepsInv(s: CacheState, capacity: nat, op: Op, s': CacheState)
    requires capacity >= 2 && Inv(s, capacity) && Next(s, capacity, op, s')
    ensures Inv(s', capacity)
  {
    if op.Delete? && op.found.Some? {
      DeleteCuts(s, op.found.value, capacity);
    }
  }

  lemma {:induction false} RunKeepsInv(states: seq<CacheState>, ops: seq<Op>, capacity: nat, i: nat)
    requires capacity >= 2 && Run(states, ops, capacity) && i <= |ops|
    ensures Inv(states[i], capacity)
  {
    if i > 0 {
      RunKeepsInv(states, ops, capacity, i - 1);
      assert StepAt(states, ops, capacity, i - 1);
      NextKeepsInv(states[i - 1], capacity, ops[i - 1], states[i]);
    }
  }

  // ---- the ring is ordered by promotion time ----

  /** The index of the last mark before i that names r; -1 if none does. */
  ghost function Latest(marks: seq<Option<Record>>, r: Record, i: nat): int
    requires i <= |marks|
  {
    if i == 0 then -1 else if marks[i - 1] == Some(r) then i - 1 else Latest(marks, r, i - 1)
  }

  ghost predicate YoungestFirst(marks: seq<Option<Record>>, ring: seq<Record>, i: nat)
    requires i <= |marks|
  {
    && (forall a :: 0 <= a < |ring| ==> 0 <= Latest(marks, ring[a], i) < i)
    && (forall a, b :: 0 <= a < b < |ring| ==> Latest(marks, ring[a], i) > Latest(marks, ring[b], i))
  }

  /** A record that the last mark does not name keeps its time. */
  lemma NewHeadKeepsOrder(marks: seq<Option<Record>>, ring: seq<Record>, i: nat, x: Record, capacity: nat)
    requires 0 < i <= |marks| && YoungestFirst(marks, ring, i - 1)
    requires marks[i - 1] == Some(x) && x !in ring
    ensures YoungestFirst(marks, Promoted(ring, x, capacity), i)
  {
  }

  lemma CutKeepsOrder(marks: seq<Option<Record>>, ring: seq<Record>, i: nat, k: nat)
    requires 0 < i <= |marks| && YoungestFirst(marks, ring, i - 1) && marks[i - 1] == None && k < |ring|
    ensures YoungestFirst(marks, RemoveAt(ring, k), i)
  {
  }

  lemma NoMarkKeepsOrder(marks: seq<Option<Record>>, ring: seq<Record>, i: nat)
    requires 0 < i <= |marks| && YoungestFirst(marks, ring, i - 1) && marks[i - 1] == None
    ensures YoungestFirst(marks, ring, i)
  {
  }

  /** A mark on a member of the ring keeps the order exactly when that member is the head. */
  lemma MarkKeepsOrderIff(marks: seq<Option<Record>>, ring: seq<Record>, i: nat, x: Record)
    requires 0 < i <= |marks| && YoungestFirst(marks, ring, i - 1) && Distinct(ring)
    requires marks[i - 1] == Some(x) && x in ring
    ensures YoungestFirst(marks, ring, i) <==> x == ring[0]
  {
    var a :| 0 <= a < |ring| && ring[a] == x;
    assert Latest(marks, ring[a], i) == i - 1;
  }

  /** The record that op makes hot, if it makes one hot. A hit on a hot record makes none. */
  ghost function PromotedBy(s: CacheState, op: Op): Option<Record> {
    match op
    case Insert(x) => Some(x)
    case Lookup(_, found) => if found.Some? && found.value !in s.ring then found else None
    case Delete(_, _) => None
  }

  ghost function Promotions(states: seq<CacheState>, ops: seq<Op>): seq<Option<Record>>
    requires |states| == |ops| + 1
  {
    seq(|ops|, i requires 0 <= i < |ops| => PromotedBy(states[i], ops[i]))
  }

  /** The index of the call before call i that made r hot most recently; -1 if none did. */
  ghost function PromotionTime(states: seq<CacheState>, ops: seq<Op>, r: Record, i: nat): int
    requires |states| == |ops| + 1 && i <= |ops|
  {
    Latest(Promotions(states, ops), r, i)
  }

  /** What a call that marks no hot record does to the order. */
  lemma NextKeepsOrder(s: CacheState, capacity: nat, op: Op, s': CacheState, marks: seq<Option<Record>>, i: nat)
    requires capacity >= 2 && Inv(s, capacity) && Next(s, capacity, op, s')
    requires 0 < i <= |marks| && YoungestFirst(marks, s.ring, i - 1) && marks[i - 1] == PromotedBy(s, op)
    ensures YoungestFirst(marks, s'.ring, i)
  {
    if PromotedBy(s, op).Some? {
      NewHeadKeepsOrder(marks, s.ring, i, PromotedBy(s, op).value, capacity);
    } else if s'.ring != s.ring {
      DeleteCuts(s, op.found.value, capacity);
      var k :| 0 <= k < |s.ring| && s'.ring == RemoveAt(s.ring, k);
      CutKeepsOrder(marks, s.ring, i, k);
    } else {
      NoMarkKeepsOrder(marks, s.ring, i);
    }
  }

  lemma {:induction false} RingByPromotionTime(states: seq<CacheState>, ops: seq<Op>, capacity: nat, i: nat)
    requires capacity >= 2 && Run(states, ops, capacity) && i <= |ops|
    ensures YoungestFirst(Promotions(states, ops), states[i].ring, i)
  {
    if i > 0 {
      RingByPromotionTime(states, ops, capacity, i - 1);
      RunKeepsInv(states, ops, capacity, i - 1);
      assert StepAt(states, ops, capacity, i - 1);
      NextKeepsOrder(states[i - 1], capacity, ops[i - 1], states[i], Promotions(states, ops), i);
    }
  }

  // ---- but not by time of use ----

  /** The record that op inserts or finds. */
  ghost function UsedBy(op: Op): Option<Record> {
    match op
    case Insert(x) => Some(x)
    case Lookup(_, found) => found
    case Delete(_, _) => None
  }

  ghost function Uses(ops: seq<Op>): seq<Option<Record>> {
    seq(|ops|, i requires 0 <= i < |ops| => UsedBy(ops[i]))
  }

  /** A search that finds a hot record finds the head of the ring. */
  predicate HitsHeadOnly(s: CacheState, op: Op) {
    op.Lookup? && op.found.Some? && op.found.value in s.ring ==> op.found.value == s.ring[0]
  }

  ghost predicate ByUseAt(states: seq<CacheState>, ops: seq<Op>, i: nat)
    requires |states| == |ops| + 1 && i <= |ops|
  {
    YoungestFirst(Uses(ops), states[i].ring, i)
  }

  predicate HitsHeadAt(states: seq<CacheState>, ops: seq<Op>, i: nat)
    requires |states| == |ops| + 1 && i < |ops|
  {
    HitsHeadOnly(states[i], ops[i])
  }

  ghost predicate AlwaysByUse(states: seq<CacheState>, ops: seq<Op>, i: nat)
    requires |states| == |ops| + 1 && i <= |ops|
  {
    forall j :: 0 <= j <= i ==> ByUseAt(states, ops, j)
  }

  predicate HitsHeadsUpTo(states: seq<CacheState>, ops: seq<Op>, i: nat)
    requires |states| == |ops| + 1 && i <= |ops|
  {
    forall k :: 0 <= k < i ==> HitsHeadAt(states, ops, k)
  }

  lemma NextKeepsByUseIff(s: CacheState, capacity: nat, op: Op, s': CacheState, marks: seq<Option<Record>>, i: nat)
    requires capacity >= 2 && Inv(s, capacity) && Next(s, capacity, op, s')
    requires 0 < i <= |marks| && YoungestFirst(marks, s.ring, i - 1) && marks[i - 1] == UsedBy(op)
    ensures YoungestFirst(marks, s'.ring, i) <==> HitsHeadOnly(s, op)
  {
    if op.Lookup? && op.found.Some? && op.found.value in s.ring {
      MarkKeepsOrderIff(marks, s.ring, i, op.found.value);
    } else {
      NextKeepsOrder(s, capacity, op, s', marks, i);
    }
  }

  lemma StepByUseIff(states: seq<CacheState>, ops: seq<Op>, capacity: nat, i: nat)
    requires capacity >= 2 && Run(states, ops, capacity) && i < |ops| && ByUseAt(states, ops, i)
    ensures ByUseAt(states, ops, i + 1) <==> HitsHeadAt(states, ops, i)
  {
    RunKeepsInv(states, ops, capacity, i);
    assert StepAt(states, ops, capacity, i);
    NextKeepsByUseIff(states[i], capacity, ops[i], states[i + 1], Uses(ops), i + 1);
  }

  /** The ring is ordered by time of last use all along a run if and only if every hit on a hot
      record is a hit on the head of the ring. */
  lemma {:induction false} RingByLastUseIff(states: seq<CacheState>, ops: seq<Op>, capacity: nat, i: nat)
    requires capacity >= 2 && Run(states, ops, capacity) && i <= |ops|
    ensures AlwaysByUse(states, ops, i) <==> HitsHeadsUpTo(states, ops, i)
  {
    if i > 0 {
      RingByLastUseIff(states, ops, capacity, i - 1);
      if AlwaysByUse(states, ops, i - 1) {
        assert ByUseAt(states, ops, i - 1);
        StepByUseIff(states, ops, capacity, i - 1);
      }
    }
  }

  /** A hit on the oldest hot record of a full ring does not save it from the next insertion. */
  lemma UsedRecordIsEvicted(s: CacheState, capacity: nat, r: Record, s1: CacheState, x: Record, s2: CacheState)
    requires capacity >= 2 && Inv(s, capacity) && |s.ring| == capacity && r == s.ring[capacity - 1]
    requires Next(s, capacity, Lookup(r.fd, Some(r)), s1) && Next(s1, capacity, Insert(x), s2)
    ensures r !in s2.ring && forall y :: y in s.ring && y != r ==> y in s2.ring
  {
  }

  // ---- what eviction takes ----

  /** A call other than a deletion drops at most the last record of a full ring. */
  lemma DropsOnlyTheLast(s: CacheState, capacity: nat, op: Op, s': CacheState, v: Record)
    requires capacity >= 2 && Inv(s, capacity) && Next(s, capacity, op, s') && !op.Delete?
    requires v in s.ring && v !in s'.ring
    ensures |s.ring| == capacity && v == s.ring[capacity - 1] && v in s'.link
    ensures forall r :: r in s.ring && r != v ==> r in s'.ring
  {
  }

  /** What such a call drops from the ring is the record promoted earliest. */
  lemma EvictsEarliestPromoted(states: seq<CacheState>, ops: seq<Op>, capacity: nat, i: nat, v: Record, r: Record)
    requires capacity >= 2 && Run(states, ops, capacity) && i < |ops| && !ops[i].Delete?
    requires v in states[i].ring && v !in states[i + 1].ring
    requires r in states[i].ring && r != v
    ensures |states[i].ring| == capacity && v in states[i + 1].link && r in states[i + 1].ring
    ensures PromotionTime(states, ops, v, i) < PromotionTime(states, ops, r, i)
  {
    RunKeepsInv(states, ops, capacity, i);
    assert StepAt(states, ops, capacity, i);
    DropsOnlyTheLast(states[i], capacity, ops[i], states[i + 1], v);
    RingByPromotionTime(states, ops, capacity, i);
    var j :| 0 <= j < |states[i].ring| && states[i].ring[j] == r;
  }

  // ---- the fast search against the slow one ----

  lemma FastRefinesSlow(s: CacheState, capacity: nat, fd: Fd, found: Option<Record>)
    requires Inv(s, capacity) && AtMostOne(s.link, fd) && Finds(s, fd, found)
    ensures found == FirstWithFd(s.link, fd)
  {
  }

  /** op neither inserts nor deletes this fd; it may look it up. */
  predicate LeavesAlone(op: Op, fd: Fd) {
    match op
    case Insert(x) => x.fd != fd
    case Lookup(_, _) => true
    case Delete(f, _) => f != fd
  }

  lemma {:induction false} CutKeepsFirst(rs: seq<Record>, k: nat, fd: Fd)
    requires k < |rs| && rs[k].fd != fd
    ensures FirstWithFd(RemoveAt(rs, k), fd) == FirstWithFd(rs, fd)
    ensures AtMostOne(rs, fd) ==> AtMostOne(RemoveAt(rs, k), fd)
  {
    if k > 0 {
      assert RemoveAt(rs, k)[1..] == RemoveAt(rs[1..], k - 1);
      CutKeepsFirst(rs[1..], k - 1, fd);
    } else {
      assert RemoveAt(rs, k) == rs[1..];
    }
  }

  lemma OtherCallKeepsAnswer(s: CacheState, capacity: nat, op: Op, s': CacheState, fd: Fd)
    requires capacity >= 2 && Inv(s, capacity) && Next(s, capacity, op, s') && LeavesAlone(op, fd)
    ensures FirstWithFd(s'.link, fd) == FirstWithFd(s.link, fd)
    ensures AtMostOne(s.link, fd) ==> AtMostOne(s'.link, fd)
  {
    match op
    case Insert(x) =>
      assert s'.link[1..] == s.link;
    case Lookup(_, _) =>
    case Delete(f, found) =>
      if found.Some? {
        DeleteCuts(s, found.value, capacity);
        var j :| 0 <= j < |s.link| && s.link[j] == found.value && s'.link == RemoveAt(s.link, j);
        CutKeepsFirst(s.link, j, fd);
      }
  }

  lemma {:induction false} RunKeepsSlowAnswer(states: seq<CacheState>, ops: seq<Op>, capacity: nat, fd: Fd,
                                              i: nat, j: nat)
    requires capacity >= 2 && Run(states, ops, capacity) && i <= j <= |ops|
    requires forall k :: i <= k < j ==> LeavesAlone(ops[k], fd)
    ensures FirstWithFd(states[j].link, fd) == FirstWithFd(states[i].link, fd)
    ensures AtMostOne(states[i].link, fd) ==> AtMostOne(states[j].link, fd)
    decreases j - i
  {
    if i < j {
      RunKeepsInv(states, ops, capacity, i);
      assert StepAt(states, ops, capacity, i);
      OtherCallKeepsAnswer(states[i], capacity, ops[i], states[i + 1], fd);
      RunKeepsSlowAnswer(states, ops, capacity, fd, i + 1, j);
    }
  }

  /** After an insertion, whatever is done to other fds and however many older records of the fd
      there are: a search finds a hot record of the fd if there is one, and otherwise exactly the
      record inserted. */
  lemma SearchFindsNewest(states: seq<CacheState>, ops: seq<Op>, capacity: nat, x: Record, i: nat, j: nat,
                          found: Option<Record>)
    requires capacity >= 2 && Run(states, ops, capacity) && i < j <= |ops| && ops[i] == Insert(x)
    requires forall k :: i < k < j ==> LeavesAlone(ops[k], x.fd)
    requires Finds(states[j], x.fd, found)
    ensures found.Some? && found.value.fd == x.fd
    ensures if HasFd(states[j].ring, x.fd) then found.value in states[j].ring else found == Some(x)
    ensures j == i + 1 ==> x in states[j].ring
  {
    assert StepAt(states, ops, capacity, i);
    assert states[i + 1].link[0] == x;
    RunKeepsSlowAnswer(states, ops, capacity, x.fd, i + 1, j);
  }

  /** Between two searches for fd, whatever is done to other fds and however often fd itself
      falls out of the hot array and comes back, both searches give the same record. */
  lemma SearchesAgree(states: seq<CacheState>, ops: seq<Op>, capacity: nat, fd: Fd, i: nat, j: nat,
                      early: Option<Record>, late: Option<Record>)
    requires capacity >= 2 && Run(states, ops, capacity) && i <= j <= |ops|
    requires forall k :: i <= k < j ==> LeavesAlone(ops[k], fd)
    requires AtMostOne(states[i].link, fd)
    requires Finds(states[i], fd, early) && Finds(states[j], fd, late)
    ensures early == late
  {
    RunKeepsInv(states, ops, capacity, i);
    RunKeepsInv(states, ops, capacity, j);
    RunKeepsSlowAnswer(states, ops, capacity, fd, i, j);
    FastRefinesSlow(states[i], capacity, fd, early);
    FastRefinesSlow(states[j], capacity, fd, late);
  }

  // ---- deletion ----

  /** A deletion finds a record exactly when some record has the fd, hot or not, and takes
      exactly that one out; every other record stays hot or cold as it was. */
  lemma DeleteTakesOne(s: CacheState, capacity: nat, fd: Fd, found: Option<Record>, s': CacheState)
    requires capacity >= 2 && Inv(s, capacity) && Next(s, capacity, Delete(fd, found), s')
    ensures found.Some? <==> HasFd(s.link, fd)
    ensures found.None? ==> s' == s
    ensures found.Some? ==> found.value.fd == fd && |s'.link| == |s.link| - 1
    ensures found.Some? ==>
      forall r :: r in s.link && r != found.value ==> r in s'.link && (r in s.ring <==> r in s'.ring)
    ensures found.Some? ==> found.value !in s'.link && found.value !in s'.ring
  {
    if found.Some? {
      DeleteCuts(s, found.value, capacity);
    }
  }

  /** Inserting an fd that is nowhere in the list and deleting it again restores the list, so
      every fd with at most one record is found as before. */
  lemma InsertDeleteRestores(s: CacheState, capacity: nat, x: Record, s1: CacheState, found: Option<Record>,
                             s2: CacheState)
    requires capacity >= 2 && Inv(s, capacity) && !HasFd(s.link, x.fd)
    requires Next(s, capacity, Insert(x), s1) && Next(s1, capacity, Delete(x.fd, found), s2)
    ensures found == Some(x) && s2.link == s.link
  {
    NextKeepsInv(s, capacity, Insert(x), s1);
    assert AtMostOne(s1.link, x.fd);
    FastRefinesSlow(s1, capacity, x.fd, found);
    assert s1.link[0] == x;
    WithoutIsRemoveAt(s1.link, 0);
    assert RemoveAt(s1.link, 0) == s.link;
  }

  // ---- get_cache_by_fd ----

  /** A search with fallback is one call, or on a miss that is filled three of them. */
  lemma GetIsRun(s: CacheState, s': CacheState, capacity: nat, fd: Fd, kernelPath: Option<CString>, memoryOk: bool,
                 path: Option<CString>, found: Option<Record>, filled: Option<Record>)
    requires Got(s, s', capacity, fd, kernelPath, memoryOk, path, found, filled)
    requires filled.Some? ==> filled.value !in s.link
    ensures filled.None? ==> Next(s, capacity, Lookup(fd, found), s')
    ensures filled.Some? ==>
      Next(s, capacity, Lookup(fd, None), s) && Next(s, capacity, Insert(filled.value), s') &&
      Next(s', capacity, Lookup(fd, filled), s')
  {
    if filled.Some? {
      assert s'.ring[0] == filled.value;
    }
  }

  /** A search with fallback for an fd with at most one record: the answer is that record's path,
      else the kernel's if there is memory; an answered fd has exactly one record, hot and with
      that path, and an unanswered one leaves the cache alone. */
  lemma GetAnswersAndPromotes(s: CacheState, s': CacheState, capacity: nat, fd: Fd, kernelPath: Option<CString>,
                              memoryOk: bool, path: Option<CString>, found: Option<Record>, filled: Option<Record>)
    requires capacity >= 2 && Inv(s, capacity) && AtMostOne(s.link, fd)
    requires Got(s, s', capacity, fd, kernelPath, memoryOk, path, found, filled)
    ensures path == match FirstWithFd(s.link, fd)
      case Some(r) => Some(r.filename)
      case None => if memoryOk then kernelPath else None
    ensures AtMostOne(s'.link, fd)
    ensures path.Some? ==>
      HasFd(s'.ring, fd) && FirstWithFd(s'.link, fd).Some? && FirstWithFd(s'.link, fd).value.filename == path.value
    ensures path.None? ==> s' == s
    ensures !memoryOk ==> s'.link == s.link
  {
  }
}
