/** driver/log.c, second half, and native/jni/interface.cpp: one record as bytes and back. */
module LogRecord {
  import opened Common
  import opened LogDetails
  import opened CycleBuffer

  /** sizeof(log_header): ten 4-byte words. */
  const HEADER_SIZE := 40

  datatype LogHeader = LogHeader(
    sec: Int32, nsec: Int32, pid: Int32, tid: Int32, operation: Int32, api: Int32, result: Int32,
    pathOffset: Int32, detailsOffset: Int32, contentSize: Int32)

  // ---- words ----

  /** An int that an assignment to a 32-bit field leaves there. */
  function Wrap(x: int): (w: Int32)
    ensures -0x8000_0000 <= x < 0x8000_0000 ==> w == x
  {
    var u := x % 0x1_0000_0000;
    if u < 0x8000_0000 then u else u - 0x1_0000_0000
  }

  /** Least significant byte first. */
  function EncodeWord(x: Int32): (s: string)
    ensures |s| == 4
  {
    var u: int := if x < 0 then x + 0x1_0000_0000 else x;
    var u1 := u / 256;
    var u2 := u1 / 256;
    var u3 := u2 / 256;
    [(u % 256) as char, (u1 % 256) as char, (u2 % 256) as char, u3 as char]
  }

  function DecodeWord(s: string): Int32
    requires |s| == 4
  {
    Wrap(s[0] as int + 256 * (s[1] as int + 256 * (s[2] as int + 256 * (s[3] as int))))
  }

  lemma WordRoundTrip(x: Int32)
    ensures DecodeWord(EncodeWord(x)) == x
  {
  }

  function EncodeWords(ws: seq<Int32>): (s: string)
    ensures |s| == 4 * |ws|
  {
    if ws == [] then "" else EncodeWord(ws[0]) + EncodeWords(ws[1..])
  }

  function DecodeWords(s: string, n: nat): (ws: seq<Int32>)
    requires |s| == 4 * n
    ensures |ws| == n
  {
    if n == 0 then [] else [DecodeWord(s[..4])] + DecodeWords(s[4..], n - 1)
  }

  lemma {:induction false} WordsRoundTrip(ws: seq<Int32>)
    ensures DecodeWords(EncodeWords(ws), |ws|) == ws
  {
    if ws != [] {
      var s := EncodeWords(ws);
      WordRoundTrip(ws[0]);
      WordsRoundTrip(ws[1..]);
      assert s[..4] == EncodeWord(ws[0]) && s[4..] == EncodeWords(ws[1..]);
    }
  }

  // ---- the header ----

  function Words(h: LogHeader): seq<Int32> {
    [h.sec, h.nsec, h.pid, h.tid, h.operation, h.api, h.result, h.pathOffset, h.detailsOffset, h.contentSize]
  }

  function EncodeHeader(h: LogHeader): (s: string)
    ensures |s| == HEADER_SIZE
  {
    EncodeWords(Words(h))
  }

  /** What the reader sees after reading sizeof(log_header) bytes into a log_header. */
  function DecodeHeader(s: string): LogHeader
    requires |s| == HEADER_SIZE
  {
    var ws := DecodeWords(s, 10);
    LogHeader(ws[0], ws[1], ws[2], ws[3], ws[4], ws[5], ws[6], ws[7], ws[8], ws[9])
  }

  lemma HeaderRoundTrip(h: LogHeader)
    ensures DecodeHeader(EncodeHeader(h)) == h
  {
    WordsRoundTrip(Words(h));
  }

  /** A word is stored least significant byte first, a negative one in two's complement. */
  lemma WordBytes(x: Int32)
    ensures var s := EncodeWord(x);
      s[0] as int + 256 * (s[1] as int) + 65536 * (s[2] as int) + 16777216 * (s[3] as int)
        == (if x < 0 then x + 4294967296 else x)
  {
  }

  lemma {:induction false} WordAt(ws: seq<Int32>, i: nat)
    requires i < |ws|
    ensures EncodeWords(ws)[4 * i..4 * i + 4] == EncodeWord(ws[i])
  {
    var s := EncodeWords(ws);
    assert s[4..] == EncodeWords(ws[1..]);
    if i == 0 {
      assert s[..4] == EncodeWord(ws[0]);
    } else {
      WordAt(ws[1..], i - 1);
      assert s[4 * i..4 * i + 4] == s[4..][4 * (i - 1)..4 * (i - 1) + 4];
    }
  }

  /** Where each field of a header stands. */
  lemma HeaderBytes(h: LogHeader)
    ensures var s := EncodeHeader(h);
      && s[0..4] == EncodeWord(h.sec) && s[4..8] == EncodeWord(h.nsec) && s[8..12] == EncodeWord(h.pid)
      && s[12..16] == EncodeWord(h.tid) && s[16..20] == EncodeWord(h.operation) && s[20..24] == EncodeWord(h.api)
      && s[24..28] == EncodeWord(h.result) && s[28..32] == EncodeWord(h.pathOffset)
      && s[32..36] == EncodeWord(h.detailsOffset) && s[36..40] == EncodeWord(h.contentSize)
  {
    var ws := Words(h);
    WordAt(ws, 0);
    WordAt(ws, 1);
    WordAt(ws, 2);
    WordAt(ws, 3);
    WordAt(ws, 4);
    WordAt(ws, 5);
    WordAt(ws, 6);
    WordAt(ws, 7);
    WordAt(ws, 8);
    WordAt(ws, 9);
  }

  // ---- the record ----

  function Text(s: Option<CString>): CString {
    if s.Some? then s.value else ""
  }

  function Content(path: Option<CString>, details: Option<CString>): string {
    (Text(path) + "\0") + (Text(details) + "\0")
  }

  /** The header as stored: the caller's fields plus the layout of the content behind it. */
  function WithLayout(h: LogHeader, path: Option<CString>, details: Option<CString>): LogHeader {
    var pathSize := |Text(path)| + 1;
    var detailsSize := |Text(details)| + 1;
    h.(pathOffset := HEADER_SIZE, detailsOffset := Wrap(HEADER_SIZE + pathSize),
       contentSize := Wrap(pathSize + detailsSize))
  }

  function Serialise(h: LogHeader, path: Option<CString>, details: Option<CString>): string {
    EncodeHeader(WithLayout(h, path, details)) + Content(path, details)
  }

  /** The first NUL at or after from; None when strlen would run off the end. */
  function StringEnd(s: string, from: nat): (end: Option<nat>)
    requires from <= |s|
    ensures end.Some? ==> from <= end.value < |s| && s[end.value] == '\0' && '\0' !in s[from..end.value]
    ensures end.None? ==> '\0' !in s[from..]
    decreases |s| - from
  {
    if from == |s| then None
    else if s[from] == '\0' then Some(from)
    else StringEnd(s, from + 1)
  }

  /** ReadContent: the path is the first string of the content and the details the second; the
      stored offsets are not consulted. None when a terminator is missing. */
  function SplitContent(content: string): Option<(CString, CString)> {
    match StringEnd(content, 0)
    case None => None
    case Some(pathSize) =>
      match StringEnd(content, pathSize + 1)
      case None => None
      case Some(end) => Some((content[..pathSize], content[pathSize + 1..end]))
  }

  lemma {:induction false} StringEndIs(s: string, from: nat, text: CString, rest: string)
    requires from <= |s| && s[from..] == text + "\0" + rest
    ensures StringEnd(s, from) == Some(from + |text|)
    decreases |text|
  {
    assert s[from] == s[from..][0];
    if text != "" {
      assert s[from + 1..] == s[from..][1..] == text[1..] + "\0" + rest;
      StringEndIs(s, from + 1, text[1..], rest);
    }
  }

  /** Splitting by string length gives both strings back. */
  lemma ContentRoundTrip(path: Option<CString>, details: Option<CString>)
    ensures SplitContent(Content(path, details)) == Some((Text(path), Text(details)))
  {
    SplitsBack(Text(path), Text(details), Content(path, details));
  }

  lemma SplitsBack(p: CString, d: CString, c: string)
    requires c == (p + "\0") + (d + "\0")
    ensures SplitContent(c) == Some((p, d))
  {
    assert c[0..] == p + "\0" + (d + "\0");
    StringEndIs(c, 0, p, d + "\0");
    assert c[|p| + 1..] == d + "\0" + "";
    StringEndIs(c, |p| + 1, d, "");
    assert c[..|p|] == p && c[|p| + 1..|p| + 1 + |d|] == d;
  }

  /** The stored offsets and size, which fit their fields, point at the two strings. */
  lemma OffsetsAgree(h: LogHeader, path: Option<CString>, details: Option<CString>)
    requires |Serialise(h, path, details)| < 0x8000_0000
    ensures var s, h' := Serialise(h, path, details), WithLayout(h, path, details);
      && h'.contentSize == |Content(path, details)|
      && s[h'.pathOffset..h'.detailsOffset] == Text(path) + "\0"
      && s[h'.detailsOffset..h'.detailsOffset + |Text(details)| + 1] == Text(details) + "\0"
      && |s| == h'.detailsOffset + |Text(details)| + 1 == HEADER_SIZE + h'.contentSize
  {
  }

  /** The bytes of a record: the header with its three layout fields, the path and the details,
      each with its terminator; a missing string is its terminator alone. */
  lemma RecordBytes(h: LogHeader, path: Option<CString>, details: Option<CString>)
    requires |Serialise(h, path, details)| < 0x8000_0000
    ensures var p, d := if path.Some? then path.value else "", if details.Some? then details.value else "";
      Serialise(h, path, details) ==
        EncodeHeader(LogHeader(h.sec, h.nsec, h.pid, h.tid, h.operation, h.api, h.result,
                               40, 41 + |p|, |p| + |d| + 2)) + ((p + "\0") + (d + "\0"))
  {
  }

  /** The details that end_log_system_call hands on for this path: a text shorter than its
      buffer, or none when there was no room or no memory for a buffer. */
  ghost predicate HandedOn(path: Option<CString>, details: Option<CString>) {
    details.Some? ==> |details.value| < DetailSize(path)
  }

  /** A record with a details buffer stays within RECORD_MAX_SIZE; one without it does so
      exactly when its path has at most 982 characters. */
  lemma RecordSize(h: LogHeader, path: Option<CString>, details: Option<CString>)
    requires HandedOn(path, details)
    ensures |Serialise(h, path, details)| <= RECORD_MAX_SIZE <==> |Text(path)| <= 982
    ensures details.Some? ==> |Serialise(h, path, details)| <= RECORD_MAX_SIZE
  {
  }

  /** All parameters are kept if and only if their join and the path together have less than 967
      characters, a missing path counting as one. */
  lemma DetailsAreWholeIff(ps: seq<Option<CString>>, path: Option<CString>, k: nat, details: string)
    requires CutAt(ps, DetailSize(path), k, details)
    ensures details == Join(ps) <==> |Join(ps)| + (if path.Some? then |path.value| else 1) < 967
  {
    CutIsPrefix(ps, DetailSize(path), k, details);
  }

  /** Details that fill their buffer make a record of 1008 bytes, or 1007 without a path. */
  lemma FullestRecord(h: LogHeader, path: Option<CString>, details: CString)
    requires |details| + 1 == DetailSize(path)
    ensures |Serialise(h, path, Some(details))| == if path.Some? then 1008 else 1007
  {
  }

  // ---- the serialiser ----

  /** strcpy with its terminator. */
  method StrCpy(buff: array<char>, at: int, s: CString)
    requires 0 <= at && at + |s| < buff.Length
    modifies buff
    ensures buff[..] == old(buff[..at]) + s + "\0" + old(buff[at + |s| + 1..])
  {
    forall i | 0 <= i <= |s| {
      buff[at + i] := if i < |s| then s[i] else '\0';
    }
  }

  /** log_item_to_storage; memoryOk says whether the record buffer can be allocated. */
  method LogItemToStorage(dev: Device, header: LogHeader, path: Option<CString>, details: Option<CString>,
                          memoryOk: bool)
    requires dev.Valid()
    modifies dev.buffer, dev`writePtr
    ensures dev.Valid()
    ensures dev.AsQueue() == if memoryOk
      then AfterWrite(old(dev.AsQueue()), dev.buffer.Length, dev.deviceReady, Serialise(header, path, details))
      else old(dev.AsQueue())
  {
    if !dev.deviceReady {
      return;
    }
    var pathSize := 1;
    var detailsSize := 1;
    if path != None {
      pathSize := |path.value| + 1;
    }
    if details != None {
      detailsSize := |details.value| + 1;
    }
    var fullSize := HEADER_SIZE + pathSize + detailsSize;
    if memoryOk {
      var stored := WithLayout(header, path, details);
      var bytes := FillRecord(EncodeHeader(stored), path, details, pathSize, fullSize);
      dev.WriteToInterface(bytes);
    }
  }

  /** A string at a position that already holds a terminator; a missing one stays empty. */
  method PutString(buff: array<char>, at: int, s: Option<CString>)
    requires 0 <= at && at + |Text(s)| < buff.Length && buff[at] == '\0'
    modifies buff
    ensures buff[..at] == old(buff[..at])
    ensures buff[at..at + |Text(s)| + 1] == Text(s) + "\0"
    ensures buff[at + |Text(s)| + 1..] == old(buff[at + |Text(s)| + 1..])
  {
    if s != None {
      StrCpy(buff, at, s.value);
    }
  }

  /** The header and the two terminators that stand for missing strings. */
  method PlaceHeader(buff: array<char>, head: string, detailsAt: int)
    requires |head| == HEADER_SIZE < detailsAt < buff.Length
    modifies buff
    ensures buff[..HEADER_SIZE] == head && buff[HEADER_SIZE] == '\0' && buff[detailsAt] == '\0'
  {
    forall i | 0 <= i < HEADER_SIZE {
      buff[i] := head[i];
    }
    buff[HEADER_SIZE] := '\0';
    buff[detailsAt] := '\0';
  }

  /** Lays the record out in a buffer of fullSize bytes. */
  method FillRecord(head: string, path: Option<CString>, details: Option<CString>, pathSize: int, fullSize: int)
    returns (bytes: string)
    requires |head| == HEADER_SIZE
    requires pathSize == |Text(path)| + 1 && fullSize == HEADER_SIZE + pathSize + |Text(details)| + 1
    ensures bytes == head + Content(path, details)
  {
    var buff := new char[fullSize];
    var detailsAt := HEADER_SIZE + pathSize;
    PlaceHeader(buff, head, detailsAt);
    ghost var tail := buff[detailsAt..];
    PutString(buff, HEADER_SIZE, path);
    assert buff[detailsAt] == tail[0];
    ghost var front := buff[..detailsAt];
    assert front[..HEADER_SIZE] == head && front[HEADER_SIZE..] == Text(path) + "\0";
    PutString(buff, detailsAt, details);
    bytes := buff[..];
    Assemble(bytes, front, head, Text(path) + "\0", Text(details) + "\0");
  }

  lemma Assemble(bytes: string, front: string, a: string, b: string, c: string)
    requires |front| <= |bytes| && bytes[..|front|] == front && bytes[|front|..] == c
    requires |a| <= |front| && front[..|a|] == a && front[|a|..] == b
    ensures bytes == a + (b + c)
  {
  }

  /** end_log_system_call: joins the parameters into a bounded buffer and hands the record on. */
  method EndLogSystemCall(dev: Device, item: LogItem, header: LogHeader, ret: Int32, detailsMemory: bool,
                          recordMemory: bool)
    returns (ghost handed: Option<CString>)
    requires dev.Valid() && item.Valid()
    modifies dev.buffer, dev`writePtr
    ensures dev.Valid()
    ensures handed.Some? <==> DetailSize(item.path) > 0 && detailsMemory
    ensures HandedOn(item.path, handed)
    ensures handed.Some? ==> exists k :: CutAt(old(item.Params()), DetailSize(item.path), k, handed.value)
    ensures dev.AsQueue() == if recordMemory
      then AfterWrite(old(dev.AsQueue()), dev.buffer.Length, dev.deviceReady,
                      Serialise(header.(result := ret), item.path, handed))
      else old(dev.AsQueue())
  {
    var detailSize := DetailSize(item.path);
    var details: Option<CString> := None;
    if detailSize > 0 && detailsMemory {
      var ps := if item.paramStrings == null then [] else item.paramStrings[..];
      assert ps == old(item.Params());
      var buffer, text, k := JoinParams(ps, detailSize);
      var n := StrLen(buffer, text);
      assert buffer[..n] == text;
      details := Some(buffer[..n]);
      assert CutAt(old(item.Params()), detailSize, k, details.value);
    }
    handed := details;
    LogItemToStorage(dev, header.(result := ret), item.path, details, recordMemory);
  }
}
