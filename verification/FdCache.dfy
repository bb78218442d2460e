/** driver/fd_cache.c on the heap: one doubly linked list, one sorted array and one circular
    list over the same nodes. */
module FdCache {
  import opened Common
  import opened FdRecords
  import opened FdCacheSpec

  ghost predicate Sorted(hot: seq<Record>) {
    forall i, j :: 0 <= i <= j < |hot| ==> hot[i].fd <= hot[j].fd
  }

  ghost predicate SameMembers(a: seq<Record>, b: seq<Record>) {
    |a| == |b| && (forall r :: r in a ==> r in b) && (forall r :: r in b ==> r in a)
  }

  /** Frames name the nodes of a list as a set. */
  ghost function Members(rs: seq<Record>): set<Record> {
    set r | r in rs
  }

  ghost predicate LinkWired(head: FileFdRecord?, link: seq<Record>)
    reads Members(link)`prev, Members(link)`next
  {
    && head == (if link == [] then null else link[0])
    && (forall i {:trigger link[i].prev} :: 0 <= i < |link| ==>
        link[i].prev == if i == 0 then null else link[i - 1])
    && (forall i {:trigger link[i].next} :: 0 <= i < |link| ==>
        link[i].next == if i == |link| - 1 then null else link[i + 1])
  }

  ghost predicate RingWired(ring: seq<Record>)
    reads Members(ring)`timePrev, Members(ring)`timeNext
  {
    && (forall i {:trigger ring[i].timePrev} :: 0 <= i < |ring| ==>
        ring[i].timePrev == if i == 0 then ring[|ring| - 1] else ring[i - 1])
    && (forall i {:trigger ring[i].timeNext} :: 0 <= i < |ring| ==>
        ring[i].timeNext == if i == |ring| - 1 then ring[0] else ring[i + 1])
  }

  ghost predicate HotPlaced(cache: array<FileFdRecord?>, hot: seq<Record>)
    reads cache, Members(hot)`hotIndex
  {
    && |hot| <= cache.Length
    && (forall i :: 0 <= i < |hot| ==> cache[i] == hot[i])
    && (forall i :: 0 <= i < |hot| ==> hot[i].hotIndex == i)
  }

  ghost predicate Fits(hot: seq<Record>, fd: Fd, p: int) {
    && 0 <= p <= |hot|
    && (p > 0 ==> hot[p - 1].fd <= fd)
    && (p < |hot| ==> fd <= hot[p].fd)
  }

  /** The fd part of a process_record. */
  class FdArea {
    const hotFdCache: array<FileFdRecord?>
    var fdCount: int
    var hotCount: int
    var fileFdHead: FileFdRecord?
    var hotFdHead: FileFdRecord?
    ghost var Link: seq<Record>
    ghost var Ring: seq<Record>
    ghost var Hot: seq<Record>

    ghost predicate LinkOk()
      reads this`fdCount, this`fileFdHead, this`Link, Members(Link)`prev, Members(Link)`next
    {
      fdCount == |Link| && LinkWired(fileFdHead, Link)
    }

    ghost predicate HotOk()
      reads this`hotCount, this`Hot, hotFdCache, Members(Hot)`hotIndex
    {
      hotCount == |Hot| && HotPlaced(hotFdCache, Hot) && Sorted(Hot)
    }

    ghost predicate RingOk()
      reads this`hotFdHead, this`Ring, Members(Ring)`timePrev, Members(Ring)`timeNext
    {
      RingWired(Ring) && hotFdHead == if Ring == [] then null else Ring[0]
    }

    ghost function State(): CacheState
      reads this`Link, this`Ring
    {
      CacheState(Link, Ring)
    }

    ghost function Footprint(): set<object>
      reads this`Link
    {
      {this, hotFdCache} + Members(Link)
    }

    ghost predicate Valid()
      reads Footprint()
    {
      && hotFdCache.Length >= 2
      && Inv(State(), hotFdCache.Length)
      && SameMembers(Hot, Ring)
      && LinkOk() && HotOk() && RingOk()
    }

    constructor (capacity: nat)
      ensures fresh(hotFdCache) && hotFdCache.Length == capacity
    {
      hotFdCache := new FileFdRecord?[capacity](_ => null);
      fdCount, hotCount := 0, 0;
      fileFdHead, hotFdHead := null, null;
      Link, Ring, Hot := [], [], [];
    }

    /** fd_cache_initize: also run on the record of an earlier process, whatever it held. */
    method Initize()
      requires hotFdCache.Length >= 2
      modifies this, hotFdCache
      ensures Valid() && State() == EMPTY && fresh(Footprint() - old(Footprint()))
    {
      fdCount := 0;
      hotCount := 0;
      fileFdHead := null;
      hotFdHead := null;
      forall i | 0 <= i < hotFdCache.Length {
        hotFdCache[i] := null;
      }
      Link, Ring, Hot := [], [], [];
    }

    method FindRecordInHotCache(fd: Fd) returns (r: FileFdRecord?, index: int)
      requires Valid()
      ensures r == null <==> !HasFd(Ring, fd)
      ensures r == null ==> index == -1
      ensures r != null ==> 0 <= index < |Hot| && r == Hot[index] && r.fd == fd
    {
      var left := 0;
      var right := hotCount - 1;
      index := -1;
      while left <= right
        invariant 0 <= left <= right + 1 <= |Hot|
        invariant index == -1
        invariant forall i :: 0 <= i < left ==> Hot[i].fd < fd
        invariant forall i :: right < i < |Hot| ==> fd < Hot[i].fd
      {
        var m := (left + right) / 2;
        assert hotFdCache[m] == Hot[m];
        var tFd := hotFdCache[m].fd;
        if tFd < fd {
          left := m + 1;
        } else if tFd > fd {
          right := m - 1;
        } else {
          index := m;
          break;
        }
      }
      if index != -1 {
        r := hotFdCache[index];
        assert r in Hot;
      } else {
        r := null;
        assert forall x :: x in Hot ==> x.fd != fd;
      }
    }

    method FindRecordInLink(fd: Fd) returns (res: FileFdRecord?)
      requires Valid()
      ensures FirstWithFd(Link, fd) == if res == null then None else Some(res)
      ensures if res == null then !HasFd(Link, fd) else res.fd == fd && IsFirst(Link, res)
    {
      FirstIsFirst(Link, fd);
      res := null;
      var p := fileFdHead;
      ghost var i := 0;
      while p != null
        invariant 0 <= i <= |Link|
        invariant p == if i == |Link| then null else Link[i]
        invariant res == null
        invariant FirstWithFd(Link, fd) == FirstWithFd(Link[i..], fd)
        decreases |Link| - i
      {
        if p.fd == fd {
          res := p;
          break;
        }
        assert Link[i].next == if i == |Link| - 1 then null else Link[i + 1];
        p := p.next;
        i := i + 1;
      }
    }

    /** byBreak: the search left its loop by one of the two breaks, with the fitting index. */
    method GetInsertIndex(fd: Fd) returns (fitIndex: int, ghost byBreak: bool)
      requires HotOk()
      ensures Fits(Hot, fd, fitIndex)
      ensures byBreak <==> |Hot| > 0
    {
      fitIndex := 0;
      byBreak := false;
      var prevFd, nextFd := 0, 0;
      var l := 0;
      var r := hotCount - 1;
      while l <= r
        invariant 0 <= l <= |Hot| && -1 <= r < |Hot|
        invariant if |Hot| == 0 then fitIndex == 0 else l <= r
        invariant !byBreak
        invariant l > 0 ==> Hot[l - 1].fd < fd && Hot[l].fd < fd
        invariant r < |Hot| - 1 ==> fd < Hot[r + 1].fd && fd < Hot[r].fd
        decreases r - l
      {
        var m := (l + r) / 2;
        prevFd, nextFd := 0, 0;
        fitIndex := hotCount - 1;
        assert hotFdCache[m] == Hot[m];
        var tFd := hotFdCache[m].fd;
        if 0 != m {
          prevFd := hotFdCache[m - 1].fd;
        }
        if hotCount - 1 != m {
          nextFd := hotFdCache[m + 1].fd;
        }
        if (0 == m || prevFd <= fd) && tFd >= fd {
          fitIndex := m;
          byBreak := true;
          break;
        }
        if tFd <= fd && (hotCount - 1 == m || nextFd >= fd) {
          fitIndex := m + 1;
          byBreak := true;
          break;
        }
        if tFd < fd {
          l := m + 1;
        } else {
          r := m - 1;
        }
      }
    }

    /** Bypassing the k-th node leaves one cycle through the others. */
    twostate lemma BypassedRing(k: nat)
      requires Ring == old(Ring) && Distinct(Ring) && old(RingWired(Ring)) && k < |Ring|
      requires var n := |Ring|; var before, after := if k == 0 then n - 1 else k - 1, if k == n - 1 then 0 else k + 1;
        && (forall i {:trigger Ring[i].timePrev} :: 0 <= i < n ==>
            Ring[i].timePrev == if i == after then Ring[before] else old(Ring[i].timePrev))
        && (forall i {:trigger Ring[i].timeNext} :: 0 <= i < n ==>
            Ring[i].timeNext == if i == before then Ring[after] else old(Ring[i].timeNext))
      ensures RingWired(RemoveAt(Ring, k))
    {
      var rest := RemoveAt(Ring, k);
      forall i | 0 <= i < |rest|
        ensures rest[i].timePrev == if i == 0 then rest[|rest| - 1] else rest[i - 1]
      {
        var j := if i < k then i else i + 1;
        assert rest[i] == Ring[j];
      }
      forall i | 0 <= i < |rest|
        ensures rest[i].timeNext == if i == |rest| - 1 then rest[0] else rest[i + 1]
      {
        var j := if i < k then i else i + 1;
        assert rest[i] == Ring[j];
      }
    }

    /** Takes r, the k-th of the ring, out of the circular list. */
    method UnlinkFromRing(r: Record, ghost k: nat)
      requires k < |Ring| && Ring[k] == r && Distinct(Ring) && RingWired(Ring)
      modifies Members(Ring)`timePrev, Members(Ring)`timeNext
      ensures RingWired(RemoveAt(Ring, k))
    {
      assert Ring[k].timePrev == if k == 0 then Ring[|Ring| - 1] else Ring[k - 1];
      assert Ring[k].timeNext == if k == |Ring| - 1 then Ring[0] else Ring[k + 1];
      r.timePrev.timeNext := r.timeNext;
      r.timeNext.timePrev := r.timePrev;
      BypassedRing(k);
    }

    /** Puts x in front of the ring head, which makes it the youngest. */
    method LinkYoungest(x: Record)
      requires x !in Ring && Distinct(Ring) && RingOk()
      modifies this`hotFdHead, this`Ring, Members(Ring)`timePrev, Members(Ring)`timeNext, x`timePrev, x`timeNext
      ensures Ring == [x] + old(Ring) && RingOk()
    {
      if hotFdHead == null {
        x.timePrev := x;
        x.timeNext := x;
      } else {
        assert Ring[0].timePrev == Ring[|Ring| - 1];
        x.timePrev := hotFdHead.timePrev;
        x.timeNext := hotFdHead;
        hotFdHead.timePrev.timeNext := x;
        hotFdHead.timePrev := x;
      }
      hotFdHead := x;
      Ring := [x] + Ring;
    }

    /** Moves slots first..last-1 one to the right; slot first becomes free. */
    method ShiftRight(first: int, last: int)
      requires HotPlaced(hotFdCache, Hot)
      requires 0 <= first <= last <= |Hot| && last < hotFdCache.Length
      modifies hotFdCache, Members(Hot)`hotIndex
      ensures forall i :: first <= i < last ==> hotFdCache[i + 1] == Hot[i] && Hot[i].hotIndex == i + 1
      ensures forall i :: 0 <= i < |Hot| && !(first < i <= last) ==> hotFdCache[i] == Hot[i]
      ensures forall i :: 0 <= i < |Hot| && !(first <= i < last) ==> Hot[i].hotIndex == i
    {
      var i := last;
      while i > first
        invariant first <= i <= last
        invariant forall j :: i <= j < last ==> hotFdCache[j + 1] == Hot[j] && Hot[j].hotIndex == j + 1
        invariant forall j :: 0 <= j < |Hot| && !(i < j <= last) ==> hotFdCache[j] == Hot[j]
        invariant forall j :: 0 <= j < |Hot| && !(i <= j < last) ==> Hot[j].hotIndex == j
      {
        assert hotFdCache[i - 1] == Hot[i - 1];
        hotFdCache[i] := hotFdCache[i - 1];
        hotFdCache[i].hotIndex := i;
        i := i - 1;
      }
    }

    /** Moves slots first+1..last one to the left; slot last becomes free. */
    method ShiftLeft(first: int, last: int)
      requires HotPlaced(hotFdCache, Hot)
      requires 0 <= first <= last < |Hot|
      modifies hotFdCache, Members(Hot)`hotIndex
      ensures forall i :: first < i <= last ==> hotFdCache[i - 1] == Hot[i] && Hot[i].hotIndex == i - 1
      ensures forall i :: 0 <= i < |Hot| && !(first <= i < last) ==> hotFdCache[i] == Hot[i]
      ensures forall i :: 0 <= i < |Hot| && !(first < i <= last) ==> Hot[i].hotIndex == i
    {
      var i := first;
      while i < last
        invariant first <= i <= last
        invariant forall j :: first < j <= i ==> hotFdCache[j - 1] == Hot[j] && Hot[j].hotIndex == j - 1
        invariant forall j :: 0 <= j < |Hot| && !(first <= j < i) ==> hotFdCache[j] == Hot[j]
        invariant forall j :: 0 <= j < |Hot| && !(first < j <= i) ==> Hot[j].hotIndex == j
      {
        assert hotFdCache[i + 1] == Hot[i + 1];
        hotFdCache[i] := hotFdCache[i + 1];
        hotFdCache[i].hotIndex := i;
        i := i + 1;
      }
    }

    /** A full ring: takes the tail, which is the oldest, out of the ring and says where it
        sits in the array. */
    method EvictOldest() returns (oldestIndex: int)
      requires |Ring| >= 2 && Distinct(Ring) && RingOk() && HotPlaced(hotFdCache, Hot) && SameMembers(Hot, Ring)
      modifies this`Ring, Members(Ring)`timePrev, Members(Ring)`timeNext
      ensures Ring == old(Ring)[..|old(Ring)| - 1] && RingOk()
      ensures 0 <= oldestIndex < |Hot| && Hot[oldestIndex] == old(Ring)[|old(Ring)| - 1]
    {
      ghost var k := |Ring| - 1;
      assert Ring[0].timePrev == Ring[k];
      var oldest := hotFdHead.timePrev;
      oldestIndex := oldest.hotIndex;
      assert oldest in Ring && oldest in Hot;
      UnlinkFromRing(oldest, k);
      assert RemoveAt(Ring, k) == Ring[..k];
      Ring := Ring[..k];
    }

    /** The three shifts: frees the slot where a record inserted at fitIndex belongs once the
        record at oldestIndex (if any) is dropped. */
    method MakeRoom(fitIndex: int, oldestIndex: int) returns (slot: int)
      requires hotCount == |Hot| && HotPlaced(hotFdCache, Hot)
      requires 0 <= fitIndex <= |Hot| && -1 <= oldestIndex < |Hot|
      requires oldestIndex == -1 ==> |Hot| < hotFdCache.Length
      modifies hotFdCache, Members(Hot)`hotIndex
      ensures slot == if 0 <= oldestIndex < fitIndex then fitIndex - 1 else fitIndex
      ensures var rest := Kept(Hot, oldestIndex);
        && 0 <= slot <= |rest| < hotFdCache.Length
        && (forall i :: 0 <= i < slot ==> hotFdCache[i] == rest[i] && rest[i].hotIndex == i)
        && (forall i :: slot <= i < |rest| ==> hotFdCache[i + 1] == rest[i] && rest[i].hotIndex == i + 1)
    {
      slot := fitIndex;
      if -1 == oldestIndex {
        ShiftRight(fitIndex, hotCount);
      } else if oldestIndex < fitIndex {
        ShiftLeft(oldestIndex, fitIndex - 1);
        slot := fitIndex - 1;
      } else if oldestIndex > fitIndex {
        ShiftRight(fitIndex, oldestIndex);
      }
    }

    /** The free slot receives x. */
    method Settle(x: Record, slot: int, ghost rest: seq<Record>)
      requires x !in rest && 0 <= slot <= |rest| < hotFdCache.Length
      requires forall i :: 0 <= i < slot ==> hotFdCache[i] == rest[i] && rest[i].hotIndex == i
      requires forall i :: slot <= i < |rest| ==> hotFdCache[i + 1] == rest[i] && rest[i].hotIndex == i + 1
      modifies hotFdCache, x`hotIndex
      ensures HotPlaced(hotFdCache, InsertAt(rest, slot, x))
    {
      hotFdCache[slot] := x;
      x.hotIndex := slot;
      ghost var hot := InsertAt(rest, slot, x);
      forall i | 0 <= i < |hot|
        ensures hotFdCache[i] == hot[i] && hot[i].hotIndex == i
      {
        if i > slot {
          assert hotFdCache[(i - 1) + 1] == rest[i - 1];
        }
      }
    }

    /** Puts x into the sorted array in place of the record at oldestIndex, if any. */
    method PlaceByFd(x: Record, oldestIndex: int) returns (slot: int)
      requires HotOk() && x !in Hot && -1 <= oldestIndex < |Hot|
      requires oldestIndex == -1 ==> |Hot| < hotFdCache.Length
      modifies this`Hot, hotFdCache, Members(Hot)`hotIndex, x`hotIndex
      ensures var rest := Kept(old(Hot), oldestIndex); 0 <= slot <= |rest| && Hot == InsertAt(rest, slot, x)
      ensures HotPlaced(hotFdCache, Hot) && Sorted(Hot)
    {
      var fitIndex;
      ghost var byBreak;
      fitIndex, byBreak := GetInsertIndex(x.fd);
      slot := MakeRoom(fitIndex, oldestIndex);
      SlotKeepsSorted(Hot, x, fitIndex, oldestIndex);
      ghost var rest := Kept(Hot, oldestIndex);
      Settle(x, slot, rest);
      Hot := InsertAt(rest, slot, x);
    }

    /** Both halves of a promotion; the last out-parameters say where in the array it happened. */
    method Promote(x: Record) returns (oldestIndex: int, slot: int)
      requires hotFdCache.Length >= 2 && HotOk() && RingOk() && Distinct(Ring) && SameMembers(Hot, Ring)
      requires x !in Ring && x !in Hot
      modifies this`hotFdHead, this`hotCount, this`Ring, this`Hot, hotFdCache, x`hotIndex, x`timePrev, x`timeNext
      modifies Members(Hot)`hotIndex, Members(Ring)`timePrev, Members(Ring)`timeNext
      ensures HotOk() && RingOk()
      ensures -1 <= oldestIndex < |old(Hot)| && (oldestIndex == -1 <==> |old(Ring)| < hotFdCache.Length)
      ensures oldestIndex != -1 ==> old(Hot)[oldestIndex] == old(Ring)[|old(Ring)| - 1]
      ensures 0 <= slot <= |Kept(old(Hot), oldestIndex)|
      ensures Hot == InsertAt(Kept(old(Hot), oldestIndex), slot, x)
      ensures Ring == Promoted(old(Ring), x, hotFdCache.Length)
    {
      oldestIndex := -1;
      if hotCount == hotFdCache.Length {
        oldestIndex := EvictOldest();
      }
      slot := PlaceByFd(x, oldestIndex);
      LinkYoungest(x);
      if -1 == oldestIndex {
        hotCount := hotCount + 1;
      }
    }

    /** The list does not notice. */
    method PromoteListed(x: Record) returns (oldestIndex: int, slot: int)
      requires LinkOk() && x in Link && hotFdCache.Length >= 2
      requires HotOk() && RingOk() && Distinct(Ring) && SameMembers(Hot, Ring) && x !in Ring && x !in Hot
      modifies this`hotFdHead, this`hotCount, this`Ring, this`Hot, hotFdCache, x`hotIndex, x`timePrev, x`timeNext
      modifies Members(Hot)`hotIndex, Members(Ring)`timePrev, Members(Ring)`timeNext
      ensures LinkOk()
      ensures HotOk() && RingOk()
      ensures -1 <= oldestIndex < |old(Hot)| && (oldestIndex == -1 <==> |old(Ring)| < hotFdCache.Length)
      ensures oldestIndex != -1 ==> old(Hot)[oldestIndex] == old(Ring)[|old(Ring)| - 1]
      ensures 0 <= slot <= |Kept(old(Hot), oldestIndex)|
      ensures Hot == InsertAt(Kept(old(Hot), oldestIndex), slot, x)
      ensures Ring == Promoted(old(Ring), x, hotFdCache.Length)
    {
      oldestIndex, slot := Promote(x);
    }

    method InsertIntoHotCache(x: Record)
      requires Valid() && x in Link && x !in Ring
      modifies this`hotFdHead, this`hotCount, this`Ring, this`Hot, hotFdCache
      modifies Members(Link)`hotIndex, Members(Link)`timePrev, Members(Link)`timeNext
      ensures Valid() && Ring == Promoted(old(Ring), x, hotFdCache.Length)
    {
      ghost var hot, s := Hot, State();
      HotIsDistinct(hotFdCache, Hot);
      var oldestIndex, slot := PromoteListed(x);
      PromotionKeepsInv(s, hot, x, oldestIndex, slot, hotFdCache.Length);
    }

    /** Puts a new record in front of the list. */
    method LinkFront(r: Record)
      requires LinkOk() && Distinct(Link) && r !in Link
      modifies this`fdCount, this`fileFdHead, this`Link, Members(Link)`prev
      modifies r`prev, r`next, r`timePrev, r`timeNext
      ensures LinkOk() && Link == [r] + old(Link)
    {
      r.prev := null;
      r.next := fileFdHead;
      r.timeNext := null;
      r.timePrev := null;
      if fileFdHead != null {
        fileFdHead.prev := r;
      }
      fileFdHead := r;
      fdCount := fdCount + 1;
      Link := [r] + Link;
    }

    /** memoryOk says whether both kmalloc calls of allocate_file_fd_record succeed. */
    method InsertIntoLink(fd: Fd, path: CString, memoryOk: bool) returns (r: FileFdRecord?)
      requires Valid()
      modifies this`fdCount, this`fileFdHead, this`Link, Members(Link)`prev
      ensures Valid()
      ensures memoryOk <==> r != null
      ensures r == null ==> Link == old(Link)
      ensures r != null ==> fresh(r) && r.fd == fd && r.filename == path && Link == [r] + old(Link)
    {
      r := null;
      if memoryOk {
        r := new FileFdRecord(fd, path);
        LinkFront(r);
      }
    }

    /** Takes r, the k-th of the list, out of the list. */
    method UnlinkFromLink(r: Record, ghost k: nat)
      requires k < |Link| && Link[k] == r && Distinct(Link) && LinkWired(fileFdHead, Link)
      modifies this`fileFdHead, this`Link, Members(Link)`prev, Members(Link)`next
      ensures Link == RemoveAt(old(Link), k) && LinkWired(fileFdHead, Link)
    {
      assert Link[k].prev == if k == 0 then null else Link[k - 1];
      assert Link[k].next == if k == |Link| - 1 then null else Link[k + 1];
      if r == fileFdHead {
        fileFdHead := fileFdHead.next;
        if fileFdHead != null {
          fileFdHead.prev := null;
        }
      } else {
        r.prev.next := r.next;
        if r.next != null {
          r.next.prev := r.prev;
        }
      }
      Link := RemoveAt(Link, k);
      assert forall i :: 0 <= i < |Link| ==> Link[i].prev == if i == 0 then null else Link[i - 1];
      assert forall i :: 0 <= i < |Link| ==> Link[i].next == if i == |Link| - 1 then null else Link[i + 1];
    }

    /** Takes the hot record at delIndex out of the array. */
    method CloseGap(delIndex: int)
      requires hotCount == |Hot| && HotPlaced(hotFdCache, Hot) && Sorted(Hot)
      requires 0 <= delIndex < |Hot|
      modifies this`Hot, hotFdCache, Members(Hot)`hotIndex
      ensures Hot == RemoveAt(old(Hot), delIndex) && HotPlaced(hotFdCache, Hot) && Sorted(Hot)
    {
      ShiftLeft(delIndex, hotCount - 1);
      ghost var hot := Hot;
      Hot := RemoveAt(Hot, delIndex);
      forall i | 0 <= i < |Hot|
        ensures hotFdCache[i] == Hot[i] && Hot[i].hotIndex == i
      {
        if i >= delIndex {
          assert Hot[i] == hot[i + 1] && hotFdCache[(i + 1) - 1] == hot[i + 1];
        }
      }
    }

    /** The head of the ring moves on if it is r, then r, the k-th, leaves the ring. */
    method TakeFromRing(r: Record, ghost k: nat)
      requires RingOk() && Distinct(Ring) && k < |Ring| && Ring[k] == r
      modifies this`hotFdHead, this`Ring, Members(Ring)`timePrev, Members(Ring)`timeNext
      ensures Ring == RemoveAt(old(Ring), k) && RingWired(Ring) && (Ring != [] ==> hotFdHead == Ring[0])
    {
      assert Ring[0].timeNext == if |Ring| == 1 then Ring[0] else Ring[1];
      if r == hotFdHead {
        hotFdHead := hotFdHead.timeNext;
      }
      UnlinkFromRing(r, k);
      Ring := RemoveAt(Ring, k);
    }

    /** Takes the hot record r at array index delIndex, the k-th of the ring, out of both. */
    method DeleteFromHot(r: Record, delIndex: int, ghost k: nat)
      requires HotOk() && RingOk() && Distinct(Ring) && |Hot| == |Ring|
      requires 0 <= delIndex < |Hot| && Hot[delIndex] == r
      requires k < |Ring| && Ring[k] == r
      modifies this`hotFdHead, this`hotCount, this`Ring, this`Hot, hotFdCache
      modifies Members(Hot)`hotIndex, Members(Ring)`timePrev, Members(Ring)`timeNext
      ensures HotOk() && RingOk()
      ensures Hot == RemoveAt(old(Hot), delIndex) && Ring == RemoveAt(old(Ring), k)
    {
      CloseGap(delIndex);
      TakeFromRing(r, k);
      hotCount := hotCount - 1;
      if 0 == hotCount {
        hotFdHead := null;
      }
    }

    /** The end of a deletion: a hot record leaves array and ring, and the counter follows the
        list, which already lacks the record. */
    method LeaveHot(r: Record, hot: bool, delIndex: int, ghost k: nat)
      requires fdCount == |Link| + 1 && LinkWired(fileFdHead, Link)
      requires HotOk() && RingOk() && Distinct(Ring) && |Hot| == |Ring|
      requires hot ==> 0 <= delIndex < |Hot| && Hot[delIndex] == r && k < |Ring| && Ring[k] == r
      modifies this`hotFdHead, this`hotCount, this`Ring, this`Hot, this`fdCount, this`fileFdHead, hotFdCache
      modifies Members(Hot)`hotIndex, Members(Ring)`timePrev, Members(Ring)`timeNext
      ensures LinkOk() && HotOk() && RingOk()
      ensures Ring == if hot then RemoveAt(old(Ring), k) else old(Ring)
      ensures Hot == if hot then RemoveAt(old(Hot), delIndex) else old(Hot)
    {
      if hot {
        DeleteFromHot(r, delIndex, k);
      }
      fdCount := fdCount - 1;
      if 0 == fdCount {
        fileFdHead := null;
      }
    }

    /** Takes r, the j-th of the list, out of the list and, when it is hot, out of the array
        and the ring, where it is the k-th. */
    method Detach(r: Record, hot: bool, delIndex: int, ghost j: nat, ghost k: nat)
      requires Distinct(Link) && Distinct(Ring) && |Hot| == |Ring| && LinkOk() && HotOk() && RingOk()
      requires j < |Link| && Link[j] == r
      requires hot ==> 0 <= delIndex < |Hot| && Hot[delIndex] == r && k < |Ring| && Ring[k] == r
      modifies this`fdCount, this`fileFdHead, this`Link, Members(Link)`prev, Members(Link)`next
      modifies this`hotFdHead, this`hotCount, this`Ring, this`Hot, hotFdCache
      modifies Members(Hot)`hotIndex, Members(Ring)`timePrev, Members(Ring)`timeNext
      ensures LinkOk() && HotOk() && RingOk()
      ensures Link == RemoveAt(old(Link), j)
      ensures Ring == if hot then RemoveAt(old(Ring), k) else old(Ring)
      ensures Hot == if hot then RemoveAt(old(Hot), delIndex) else old(Hot)
    {
      UnlinkFromLink(r, j);
      LeaveHot(r, hot, delIndex, k);
    }

    /** The record r goes; delIndex is its place in the array when it is hot. */
    method DeleteFound(r: Record, hot: bool, delIndex: int)
      requires Valid() && r in Link && (hot <==> r in Ring)
      requires hot ==> 0 <= delIndex < |Hot| && Hot[delIndex] == r
      modifies this, hotFdCache, Members(Link)
      ensures Valid() && fresh(Footprint() - old(Footprint()))
      ensures State() == AfterDelete(old(State()), Some(r))
    {
      HotIsDistinct(hotFdCache, Hot);
      ghost var j, k := DeletionKeepsInv(State(), Hot, hotFdCache.Length, r, hot, delIndex);
      Detach(r, hot, delIndex, j, k);
    }

    /** found is the record that goes; suc says whether there was one. */
    method DeleteFromRecord(fd: Fd) returns (suc: bool, ghost found: Option<Record>)
      requires Valid()
      modifies this, hotFdCache, Members(Link)
      ensures Valid() && fresh(Footprint() - old(Footprint()))
      ensures suc <==> found.Some?
      ensures Finds(old(State()), fd, found) && State() == AfterDelete(old(State()), found)
      ensures Next(old(State()), hotFdCache.Length, Op.Delete(fd, found), State())
    {
      found := None;
      suc := false;
      var r, delIndex := FindRecordInHotCache(fd);
      var hot := r != null;
      if r == null {
        r := FindRecordInLink(fd);
      } else {
        assert r in Hot && r in Ring && r in Link;
      }
      if r != null {
        found := Some(r);
        DeleteFound(r, hot, delIndex);
        suc := true;
      }
    }

    /** get_cache_by_fd_internal: the path of the record found, promoting it unless it is hot. */
    method GetInternal(fd: Fd) returns (path: Option<CString>, ghost found: Option<Record>)
      requires Valid()
      modifies this, hotFdCache, Members(Link)
      ensures Valid() && fresh(Footprint() - old(Footprint()))
      ensures Finds(old(State()), fd, found) && State() == AfterLookup(old(State()), found, hotFdCache.Length)
      ensures Next(old(State()), hotFdCache.Length, Op.Lookup(fd, found), State())
      ensures path == if found.Some? then Some(found.value.filename) else None
    {
      found := None;
      path := None;
      var r, index := FindRecordInHotCache(fd);
      if r == null {
        r := FindRecordInLink(fd);
        if r != null {
          InsertIntoHotCache(r);
        }
      } else {
        assert r in Hot && r in Ring;
      }
      if r != null {
        path := Some(r.filename);
        found := Some(r);
      }
    }

    /** insert_into_cache: a new record at the front of the list, hot at once. */
    method Insert(fd: Fd, path: CString, memoryOk: bool) returns (ghost x: Option<Record>)
      requires Valid()
      modifies this, hotFdCache, Members(Link)
      ensures Valid() && fresh(Footprint() - old(Footprint()))
      ensures memoryOk <==> x.Some?
      ensures x.None? ==> State() == old(State())
      ensures x.Some? ==> fresh(x.value) && x.value.fd == fd && x.value.filename == path
      ensures x.Some? ==> State() == AfterInsert(old(State()), x.value, hotFdCache.Length)
      ensures x.Some? ==> Next(old(State()), hotFdCache.Length, Op.Insert(x.value), State())
    {
      x := None;
      var r := InsertIntoLink(fd, path, memoryOk);
      if r != null {
        x := Some(r);
        InsertIntoHotCache(r);
      }
    }

    /** get_cache_by_fd: on a miss the kernel is asked (kernelPath is its answer), the answer is
        inserted and the search repeated. */
    method Get(fd: Fd, kernelPath: Option<CString>, memoryOk: bool)
      returns (path: Option<CString>, ghost found: Option<Record>, ghost filled: Option<Record>)
      requires Valid()
      modifies this, hotFdCache, Members(Link)
      ensures Valid() && fresh(Footprint() - old(Footprint()))
      ensures Got(old(State()), State(), hotFdCache.Length, fd, kernelPath, memoryOk, path, found, filled)
      ensures filled.Some? ==> filled.value !in old(Link)
    {
      filled := None;
      path, found := GetInternal(fd);
      if path == None {
        path := kernelPath;
        if path.Some? {
          filled := Insert(fd, path.value, memoryOk);
          ghost var again;
          path, again := GetInternal(fd);
        }
      }
    }
  }

  /** The array contents that survive an insertion. */
  function Kept(hot: seq<Record>, oldestIndex: int): seq<Record>
    requires -1 <= oldestIndex < |hot|
  {
    if oldestIndex == -1 then hot else RemoveAt(hot, oldestIndex)
  }

  lemma SlotKeepsSorted(hot: seq<Record>, x: Record, fitIndex: int, oldestIndex: int)
    requires Sorted(hot) && Fits(hot, x.fd, fitIndex) && -1 <= oldestIndex < |hot|
    ensures var rest := Kept(hot, oldestIndex);
      var slot := if 0 <= oldestIndex < fitIndex then fitIndex - 1 else fitIndex;
      slot <= |rest| && Sorted(InsertAt(rest, slot, x))
  {
    var rest := Kept(hot, oldestIndex);
    var slot := if 0 <= oldestIndex < fitIndex then fitIndex - 1 else fitIndex;
    forall i | 0 <= i < |rest|
      ensures if i < slot then rest[i].fd <= x.fd else x.fd <= rest[i].fd
    {
      var j := if oldestIndex == -1 || i < oldestIndex then i else i + 1;
      assert rest[i] == hot[j];
    }
    InsertKeepsSorted(rest, slot, x);
  }

  lemma InsertKeepsSorted(s: seq<Record>, slot: nat, x: Record)
    requires Sorted(s) && slot <= |s|
    requires forall i :: 0 <= i < |s| ==> if i < slot then s[i].fd <= x.fd else x.fd <= s[i].fd
    ensures Sorted(InsertAt(s, slot, x))
  {
  }

  /** What survives an eviction is the same in the array and in the ring. */
  lemma EvictionKeepsMembers(hot: seq<Record>, ring: seq<Record>, oldestIndex: int)
    requires Distinct(hot) && Distinct(ring) && SameMembers(hot, ring)
    requires 0 <= oldestIndex < |hot| && hot[oldestIndex] == ring[|ring| - 1]
    ensures SameMembers(RemoveAt(hot, oldestIndex), ring[..|ring| - 1]) && Distinct(ring[..|ring| - 1])
  {
    DistinctAfterRemove(hot, oldestIndex);
    DistinctAfterRemove(ring, |ring| - 1);
    assert RemoveAt(ring, |ring| - 1) == ring[..|ring| - 1];
  }

  lemma InsertionKeepsMembers(a: seq<Record>, b: seq<Record>, x: Record, slot: nat)
    requires SameMembers(a, b) && slot <= |a| && Distinct(b) && x !in b
    ensures SameMembers(InsertAt(a, slot, x), [x] + b) && Distinct([x] + b)
  {
    var a' := InsertAt(a, slot, x);
    assert a'[slot] == x;
    forall r | r in a
      ensures r in a'
    {
      var i :| 0 <= i < |a| && a[i] == r;
      assert a'[if i < slot then i else i + 1] == r;
    }
  }

  lemma PromotionKeepsInv(s: CacheState, hot: seq<Record>, x: Record, oldestIndex: int, slot: int, capacity: nat)
    requires Inv(s, capacity) && Distinct(hot) && SameMembers(hot, s.ring) && 0 < capacity
    requires x in s.link && x !in s.ring
    requires -1 <= oldestIndex < |hot| && (oldestIndex == -1 <==> |s.ring| < capacity)
    requires oldestIndex != -1 ==> hot[oldestIndex] == s.ring[|s.ring| - 1]
    requires 0 <= slot <= |Kept(hot, oldestIndex)|
    ensures SameMembers(InsertAt(Kept(hot, oldestIndex), slot, x), Promoted(s.ring, x, capacity))
    ensures Inv(s.(ring := Promoted(s.ring, x, capacity)), capacity)
  {
    var ring := s.ring;
    if oldestIndex == -1 {
      InsertionKeepsMembers(hot, ring, x, slot);
    } else {
      EvictionKeepsMembers(hot, ring, oldestIndex);
      InsertionKeepsMembers(RemoveAt(hot, oldestIndex), ring[..|ring| - 1], x, slot);
    }
  }

  lemma HotIsDistinct(cache: array<FileFdRecord?>, hot: seq<Record>)
    requires HotPlaced(cache, hot)
    ensures Distinct(hot)
  {
  }

  lemma DeletionKeepsInv(s: CacheState, hot: seq<Record>, capacity: nat, r: Record, isHot: bool, delIndex: int)
    returns (j: nat, k: nat)
    requires Inv(s, capacity) && Distinct(hot) && SameMembers(hot, s.ring) && r in s.link
    requires if isHot then 0 <= delIndex < |hot| && hot[delIndex] == r else r !in s.ring
    ensures Inv(AfterDelete(s, Some(r)), capacity)
    ensures j < |s.link| && s.link[j] == r && AfterDelete(s, Some(r)).link == RemoveAt(s.link, j)
    ensures isHot ==> k < |s.ring| && s.ring[k] == r
    ensures AfterDelete(s, Some(r)).ring == if isHot then RemoveAt(s.ring, k) else s.ring
    ensures SameMembers(if isHot then RemoveAt(hot, delIndex) else hot, AfterDelete(s, Some(r)).ring)
  {
    k := 0;
    DeleteCuts(s, r, capacity);
    j :| 0 <= j < |s.link| && s.link[j] == r && AfterDelete(s, Some(r)).link == RemoveAt(s.link, j);
    if isHot {
      assert r in hot;
      k :| 0 <= k < |s.ring| && s.ring[k] == r && AfterDelete(s, Some(r)).ring == RemoveAt(s.ring, k);
      DistinctAfterRemove(s.ring, k);
      DistinctAfterRemove(hot, delIndex);
    }
  }
}
