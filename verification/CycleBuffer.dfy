/** driver/interface.c: the ring of bytes between the hooks and the reading process. */
module CycleBuffer {

  function Min(a: int, b: int): int {
    if a < b then a else b
  }

  /** The ring as a queue; toEnd is the distance from the oldest byte to the physical end. */
  datatype Queue = Queue(bytes: seq<char>, toEnd: int)

  ghost predicate QueueOk(q: Queue, size: nat) {
    |q.bytes| < size && 0 < q.toEnd <= size
  }

  predicate Accepts(q: Queue, size: nat, ready: bool, data: seq<char>) {
    ready && size - |q.bytes| > |data|
  }

  /** A write that fits while leaving one byte free is appended whole; any other is dropped whole. */
  function AfterWrite(q: Queue, size: nat, ready: bool, data: seq<char>): Queue {
    if Accepts(q, size, ready, data) then q.(bytes := q.bytes + data) else q
  }

  /** A write to a ready ring is appended whole exactly when it leaves one byte of the buffer free,
      however many bytes are unread; in every other case nothing changes. */
  lemma WriteIsAppendedIffItFits(q: Queue, size: nat, ready: bool, data: seq<char>)
    requires QueueOk(q, size)
    ensures ready && |q.bytes| + |data| < size ==>
      AfterWrite(q, size, ready, data) == Queue(q.bytes + data, q.toEnd)
    ensures !ready || |q.bytes| + |data| >= size ==> AfterWrite(q, size, ready, data) == q
  {
  }

  /** Does a read of count bytes reach the physical end of the buffer? */
  predicate Crosses(q: Queue, count: nat) {
    q.bytes != [] && q.toEnd <= Min(count, |q.bytes|)
  }

  /** The first copy of a crossing read stops early: user memory accepts less than the stretch. */
  predicate FirstCopyFaults(q: Queue, count: nat, firstOk: nat) {
    Crosses(q, count) && firstOk < q.toEnd
  }

  /** How many bytes a read hands over. firstOk and lastOk bound what the copy to the end of
      the buffer and the last copy can store in user memory. */
  function Taken(q: Queue, count: nat, firstOk: nat, lastOk: nat): int {
    var wanted := Min(count, |q.bytes|);
    if FirstCopyFaults(q, count, firstOk) then firstOk
    else if Crosses(q, count) then q.toEnd + Min(lastOk, wanted - q.toEnd)
    else Min(lastOk, wanted)
  }

  lemma TakenBounds(q: Queue, count: nat, firstOk: nat, lastOk: nat)
    requires q.toEnd > 0
    ensures 0 <= Taken(q, count, firstOk, lastOk) <= Min(count, |q.bytes|)
  {
  }

  function Delivered(q: Queue, count: nat, firstOk: nat, lastOk: nat): seq<char>
    requires q.toEnd > 0
  {
    q.bytes[..Taken(q, count, firstOk, lastOk)]
  }

  function AfterRead(q: Queue, size: nat, count: nat, firstOk: nat, lastOk: nat): Queue
    requires q.toEnd > 0
  {
    var n := Taken(q, count, firstOk, lastOk);
    if FirstCopyFaults(q, count, firstOk) then q
    else Queue(q.bytes[n..], if Crosses(q, count) then q.toEnd - n + size else q.toEnd - n)
  }

  /** A read whose user copies are complete hands over the oldest min(count, used) bytes, in
      order and across the end, and leaves the others. */
  lemma CompleteRead(q: Queue, size: nat, count: nat)
    requires QueueOk(q, size)
    ensures Delivered(q, count, count, count) == q.bytes[..Min(count, |q.bytes|)]
    ensures AfterRead(q, size, count, count, count).bytes == q.bytes[Min(count, |q.bytes|)..]
    ensures QueueOk(AfterRead(q, size, count, count, count), size)
  {
  }

  /** User memory that takes only limit bytes gets the oldest of the wanted bytes up to that limit,
      whether or not the read crosses the end, and they leave the ring, unless the limit lies in
      the first copy of a crossing read: then nothing leaves. */
  lemma LimitedRead(q: Queue, size: nat, count: nat, limit: nat)
    requires QueueOk(q, size)
    ensures var n := Min(limit, Min(count, |q.bytes|));
      var left := if limit > q.toEnd then limit - q.toEnd else 0;
      var lastOk := if Crosses(q, count) then left else limit;
      && Delivered(q, count, limit, lastOk) == q.bytes[..n]
      && AfterRead(q, size, count, limit, lastOk).bytes ==
           if q.bytes != [] && limit < q.toEnd <= Min(count, |q.bytes|) then q.bytes else q.bytes[n..]
  {
  }

  function Used(size: nat, r: int, w: int): (used: nat)
    requires 0 <= r < size && 0 <= w < size
  {
    if r <= w then w - r else size - r + w
  }

  /** The cells from r up to w, going round the end when w is before r. */
  function Span(cells: seq<char>, r: int, w: int): (span: seq<char>)
    requires 0 <= r < |cells| && 0 <= w < |cells|
  {
    var n := |cells|;
    seq(Used(n, r, w), i requires 0 <= i < Used(n, r, w) => cells[if r + i < n then r + i else r + i - n])
  }

  /** b is a with data written from w on, round the end if it is reached; pos is where it stopped. */
  ghost predicate StoredRound(a: seq<char>, b: seq<char>, w: nat, data: seq<char>, pos: int)
    requires w < |a| && |data| < |a|
  {
    var n, end := |a|, w + |data|;
    && pos == (if end < n then end else end - n)
    && b == if end < n then a[..w] + data + a[end..] else data[n - w..] + a[end - n..w] + data[..n - w]
  }

  lemma StoreAppends(a: seq<char>, b: seq<char>, r: int, w: int, data: seq<char>, pos: int)
    requires |a| == |b| && 0 <= r < |a| && 0 <= w < |a|
    requires |Span(a, r, w)| + |data| < |a| && StoredRound(a, b, w, data, pos)
    ensures Span(b, r, pos) == Span(a, r, w) + data
  {
  }

  /** cells with data written from start on. */
  function Stored(cells: seq<char>, start: nat, data: seq<char>): seq<char>
    requires start + |data| <= |cells|
  {
    cells[..start] + data + cells[start + |data|..]
  }

  lemma StoreNothing(cells: seq<char>, start: nat)
    requires start <= |cells|
    ensures cells == Stored(cells, start, [])
  {
  }

  /** The two stores of data that reach the end: the first up to it, the second from the front on. */
  lemma StoreGoesRound(cells: seq<char>, data: seq<char>, start: nat)
    requires start < |cells| && |data| < |cells| <= start + |data|
    ensures var first := |cells| - start;
      Stored(Stored(cells, start, data[..first]), 0, data[first..])
        == data[first..] + cells[start + |data| - |cells|..start] + data[..first]
  {
  }

  lemma SpanSplits(cells: seq<char>, r: int, w: int, n: nat)
    requires 0 <= r < |cells| && 0 <= w < |cells| && n <= |Span(cells, r, w)|
    ensures r + n < |cells| ==>
      Span(cells, r + n, w) == Span(cells, r, w)[n..] && cells[r..r + n] == Span(cells, r, w)[..n]
    ensures r + n == |cells| ==> Span(cells, 0, w) == Span(cells, r, w)[n..] && cells[r..] == Span(cells, r, w)[..n]
  {
  }

  /** A read that copies k bytes up to the end, if it crosses it, and n bytes after that. */
  lemma ReadResult(q: Queue, size: nat, count: nat, firstOk: nat, lastOk: nat, k: nat, n: nat)
    requires QueueOk(q, size) && k + n <= |q.bytes|
    requires if Crosses(q, count) then !FirstCopyFaults(q, count, firstOk) && k == q.toEnd else k == 0
    requires n == Min(lastOk, Min(count, |q.bytes|) - k)
    ensures Delivered(q, count, firstOk, lastOk) == q.bytes[..k + n]
    ensures AfterRead(q, size, count, firstOk, lastOk)
      == Queue(q.bytes[k + n..], if Crosses(q, count) then size - n else q.toEnd - n)
  {
  }

  class Device {
    const buffer: array<char>
    var readPtr: int
    var writePtr: int
    var deviceReady: bool
    var ownerPid: int

    ghost predicate Valid()
      reads this`readPtr, this`writePtr
    {
      0 <= readPtr < buffer.Length && 0 <= writePtr < buffer.Length
    }

    ghost function Contents(): seq<char>
      requires Valid()
      reads this`readPtr, this`writePtr, buffer
    {
      Span(buffer[..], readPtr, writePtr)
    }

    ghost function AsQueue(): (q: Queue)
      requires Valid()
      reads this`readPtr, this`writePtr, buffer
      ensures QueueOk(q, buffer.Length)
    {
      Queue(Contents(), buffer.Length - readPtr)
    }

    /** begin_interface: an empty ring of any size above 0, owned by nobody. */
    constructor (size: nat)
      requires size > 0
      ensures Valid() && fresh(buffer) && buffer.Length == size
      ensures AsQueue() == Queue([], size) && !deviceReady && ownerPid == 0
    {
      buffer := new char[size];
      readPtr, writePtr := 0, 0;
      deviceReady, ownerPid := false, 0;
    }

    method GetUsedSize() returns (used: int)
      requires Valid()
      ensures used == |Contents()|
      ensures readPtr == writePtr <==> used == 0
    {
      if readPtr == writePtr {
        used := 0;
      } else if readPtr > writePtr {
        used := buffer.Length - (readPtr - writePtr);
      } else {
        used := writePtr - readPtr;
      }
    }

    /** memcpy into the buffer. */
    method Store(start: int, data: seq<char>)
      requires 0 <= start && start + |data| <= buffer.Length
      modifies buffer
      ensures buffer[..] == Stored(old(buffer[..]), start, data)
    {
      forall i | 0 <= i < |data| {
        buffer[start + i] := data[i];
      }
    }

    /** Stores data from startPos on, going on at the front when the end is reached. */
    method CopyToBuffer(startPos: int, data: seq<char>) returns (pos: int)
      requires 0 <= startPos < buffer.Length && |data| < buffer.Length
      modifies buffer
      ensures StoredRound(old(buffer[..]), buffer[..], startPos, data, pos) && 0 <= pos < buffer.Length
    {
      pos := startPos;
      var rest := data;
      ghost var before := buffer[..];
      if startPos + |data| >= buffer.Length {
        var firstSize := buffer.Length - startPos;
        Store(startPos, data[..firstSize]);
        pos := 0;
        rest := data[firstSize..];
        StoreGoesRound(before, data, startPos);
      }
      if |rest| > 0 {
        Store(pos, rest);
        pos := pos + |rest|;
      } else {
        StoreNothing(buffer[..], pos);
      }
    }

    method WriteToInterface(data: seq<char>)
      requires Valid()
      modifies buffer, this`writePtr
      ensures Valid()
      ensures AsQueue() == AfterWrite(old(AsQueue()), buffer.Length, deviceReady, data)
      ensures Contents() ==
        if deviceReady && |old(Contents())| + |data| < buffer.Length then old(Contents()) + data else old(Contents())
    {
      if !deviceReady {
        return;
      }
      if 0 == |data| {
        return;
      }
      var used := GetUsedSize();
      if buffer.Length - used > |data| {
        ghost var cells, w := buffer[..], writePtr;
        writePtr := CopyToBuffer(writePtr, data);
        StoreAppends(cells, buffer[..], readPtr, w, data, writePtr);
      }
    }

    /** The copy_to_user of the stretch up to the end of the buffer; the pointer moves only if
        it is complete. */
    method CopyFirst(firstOk: nat) returns (piece: seq<char>)
      requires Valid() && readPtr > writePtr
      modifies this`readPtr
      ensures Valid()
      ensures |piece| == Min(firstOk, buffer.Length - old(readPtr)) <= |old(Contents())|
      ensures piece == old(Contents())[..|piece|]
      ensures if firstOk < buffer.Length - old(readPtr) then readPtr == old(readPtr)
              else readPtr == 0 && Contents() == old(Contents())[|piece|..]
    {
      var firstSize := buffer.Length - readPtr;
      var firstCopy := Min(firstOk, firstSize);
      piece := buffer[readPtr..readPtr + firstCopy];
      SpanSplits(buffer[..], readPtr, writePtr, firstCopy);
      if firstCopy == firstSize {
        readPtr := 0;
      }
    }

    /** A read of count bytes from the queue q has copied what lies before its last copy_to_user. */
    ghost predicate BeforeLast(q: Queue, count: nat, firstOk: nat, copied: seq<char>)
      reads this`readPtr, this`writePtr, buffer
    {
      && Valid() && QueueOk(q, buffer.Length) && |copied| <= |q.bytes|
      && copied == q.bytes[..|copied|] && Contents() == q.bytes[|copied|..]
      && if Crosses(q, count)
         then !FirstCopyFaults(q, count, firstOk) && |copied| == q.toEnd && readPtr == 0
         else |copied| == 0 && readPtr == buffer.Length - q.toEnd
    }

    /** The last copy_to_user of a read, which the pointer follows as far as it got; k bytes of
        all went out before. */
    method CopyLast(min: int, lastOk: nat, ghost all: seq<char>, ghost k: nat) returns (piece: seq<char>)
      requires Valid() && 0 <= min <= |Contents()| && readPtr + min < buffer.Length
      requires k <= |all| && Contents() == all[k..]
      modifies this`readPtr
      ensures Valid() && readPtr == old(readPtr) + |piece|
      ensures |piece| == Min(lastOk, min) && k + |piece| <= |all|
      ensures all[..k] + piece == all[..k + |piece|] && Contents() == all[k + |piece|..]
    {
      piece := [];
      if min > 0 {
        var n := Min(lastOk, min);
        SpanSplits(buffer[..], readPtr, writePtr, n);
        piece := buffer[readPtr..readPtr + n];
        readPtr := readPtr + n;
      }
    }

    /** What is left to do then. */
    method FinishRead(copied: seq<char>, min: int, lastOk: nat, ghost q: Queue, ghost count: nat, ghost firstOk: nat)
      returns (all: seq<char>)
      requires BeforeLast(q, count, firstOk, copied) && min == Min(count, |q.bytes|) - |copied|
      modifies this`readPtr
      ensures Valid()
      ensures all == Delivered(q, count, firstOk, lastOk)
      ensures AsQueue() == AfterRead(q, buffer.Length, count, firstOk, lastOk)
    {
      ReadResult(q, buffer.Length, count, firstOk, lastOk, |copied|, Min(lastOk, min));
      var piece := CopyLast(min, lastOk, q.bytes, |copied|);
      all := copied + piece;
    }

    /** copied is what the caller finds in its buffer, the return value is its length. */
    method InterfaceRead(count: nat, firstOk: nat, lastOk: nat) returns (copied: seq<char>)
      requires Valid()
      modifies this`readPtr
      ensures Valid()
      ensures copied == Delivered(old(AsQueue()), count, firstOk, lastOk)
      ensures AsQueue() == AfterRead(old(AsQueue()), buffer.Length, count, firstOk, lastOk)
    {
      copied := [];
      ghost var q := AsQueue();
      var used := GetUsedSize();
      var min := if count > used then used else count;
      var firstSize := buffer.Length - readPtr;
      if readPtr == writePtr {
        return;
      } else if readPtr > writePtr && firstSize <= min {
        assert Crosses(q, count);
        copied := CopyFirst(firstOk);
        if |copied| != firstSize {
          return;
        }
        min := min - |copied|;
      }
      copied := FinishRead(copied, min, lastOk, q, count, firstOk);
    }

    /** Only the first reader becomes the owner, but every caller is told that it succeeded. */
    method InterfaceOpen(pid: int, forWriting: bool) returns (result: int)
      modifies this`deviceReady, this`ownerPid
      ensures result == 0
      ensures if old(ownerPid) == 0 && !forWriting then ownerPid == pid && deviceReady
              else ownerPid == old(ownerPid) && deviceReady == old(deviceReady)
    {
      result := 0;
      if 0 != ownerPid {
        return;
      }
      if forWriting {
        return;
      }
      ownerPid := pid;
      deviceReady := true;
    }

    method InterfaceRelease(pid: int) returns (result: int)
      modifies this`deviceReady, this`ownerPid
      ensures result == 0
      ensures if pid == old(ownerPid) then ownerPid == 0 && !deviceReady
              else ownerPid == old(ownerPid) && deviceReady == old(deviceReady)
    {
      result := 0;
      if pid == ownerPid {
        ownerPid := 0;
        deviceReady := false;
      }
    }
  }
}
