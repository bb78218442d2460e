/** driver/log.c, first half: the parameter strings of a call and their bounded join. */
module LogDetails {
  import opened Common

  const RECORD_MAX_SIZE := 1024
  /** sizeof(log_item) with 4-byte words: ten words of header, three of connector, one path. */
  const LOG_ITEM_SIZE := 56

  type Int32 = x: int | -0x8000_0000 <= x < 0x8000_0000
  type UInt32 = x: int | 0 <= x < 0x1_0000_0000

  // ---- formatting ----

  function Digit(d: nat): (c: char)
    requires d < 16
    ensures c != '\0'
  {
    if d < 10 then ('0' as int + d) as char else ('a' as int + d - 10) as char
  }

  function DigitValue(c: char): int {
    if '0' <= c <= '9' then c as int - '0' as int else c as int - 'a' as int + 10
  }

  type Base = b: int | b == 10 || b == 16 witness 10

  function Scale(n: int, base: Base): int {
    if base == 10 then 10 * n else 16 * n
  }

  function Quotient(n: nat, base: Base): (q: nat)
    ensures q <= n && (n > 0 ==> q < n)
    ensures Scale(q, base) <= n < Scale(q + 1, base)
  {
    if base == 10 then n / 10 else n / 16
  }

  /** At least width digits of n, most significant first. */
  function Digits(n: nat, base: Base, width: nat): (s: CString)
    decreases n, width
  {
    if n == 0 && width == 0 then ""
    else
      var q := Quotient(n, base);
      Digits(q, base, if width == 0 then 0 else width - 1) + [Digit(n - Scale(q, base))]
  }

  /** The number that a digit string stands for. */
  function Value(s: string, base: Base): int {
    if s == "" then 0 else Scale(Value(s[..|s| - 1], base), base) + DigitValue(s[|s| - 1])
  }

  lemma {:induction false} DigitsValue(n: nat, base: Base, width: nat)
    ensures Value(Digits(n, base, width), base) == n
    decreases n, width
  {
    if n != 0 || width != 0 {
      var q, w := Quotient(n, base), if width == 0 then 0 else width - 1;
      DigitsValue(q, base, w);
      ValueOfLast(Digits(q, base, w), Digit(n - Scale(q, base)), base);
    }
  }

  lemma ValueOfLast(s: string, c: char, base: Base)
    ensures Value(s + [c], base) == Scale(Value(s, base), base) + DigitValue(c)
  {
  }

  function Power(base: Base, e: nat): nat {
    if e == 0 then 1 else Scale(Power(base, e - 1), base)
  }

  lemma {:induction false} DigitsLength(n: nat, base: Base, width: nat, e: nat)
    requires n < Power(base, e)
    ensures width <= |Digits(n, base, width)| <= if e < width then width else e
    decreases n, width
  {
    if n != 0 || width != 0 {
      DigitsLength(Quotient(n, base), base, if width == 0 then 0 else width - 1, if e == 0 then 0 else e - 1);
    }
  }

  /** %d */
  function Decimal(n: int): (s: CString)
    ensures s != ""
  {
    if n < 0 then "-" + Digits(-n, 10, 1) else Digits(n, 10, 1)
  }

  /** 0x%08x */
  function Hex(u: UInt32): (s: CString) {
    "0x" + Digits(u, 16, 8)
  }

  // ---- the item that a call fills ----

  /** Every producer writes the name, a colon and a space, or "void: void". */
  ghost predicate Producible(p: Option<CString>) {
    p.Some? ==> |p.value| >= 2
  }

  class LogItem {
    const path: Option<CString>
    /** NULL when the call has no parameters. */
    const paramStrings: array?<Option<CString>>
    var currentParam: nat

    ghost predicate Valid()
      reads this, paramStrings
    {
      paramStrings != null ==>
        currentParam <= paramStrings.Length && forall i :: 0 <= i < paramStrings.Length ==> Producible(paramStrings[i])
    }

    ghost function Params(): seq<Option<CString>>
      reads this, paramStrings
    {
      if paramStrings == null then [] else paramStrings[..]
    }

    /** begin_log_system_call_internal, when both of its allocations succeed. */
    constructor (path: Option<CString>, paramCount: nat)
      ensures Valid() && this.path == path && currentParam == 0
      ensures paramStrings != null <==> paramCount > 0
      ensures paramStrings != null ==> fresh(paramStrings)
      ensures Params() == seq(paramCount, i => None)
    {
      this.path := path;
      currentParam := 0;
      if paramCount > 0 {
        var holders := new Option<CString>[paramCount](_ => None);
        paramStrings := holders;
      } else {
        paramStrings := null;
      }
    }

    /** Stores a formatted parameter that sprintf put into a buffer of len bytes; when that
        buffer could not be allocated the slot stays free for the next parameter. */
    method AddParam(text: CString, len: nat, memoryOk: bool)
      requires Valid() && paramStrings != null && currentParam < paramStrings.Length
      requires 2 <= |text| < len
      modifies this`currentParam, paramStrings
      ensures Valid()
      ensures currentParam == old(currentParam) + if memoryOk then 1 else 0
      ensures Params() == if memoryOk then old(Params())[old(currentParam) := Some(text)] else old(Params())
    {
      if memoryOk {
        paramStrings[currentParam] := Some(text);
        currentParam := currentParam + 1;
      }
    }

    method AddVoidParam(memoryOk: bool)
      requires Valid() && paramStrings != null && currentParam < paramStrings.Length
      modifies this`currentParam, paramStrings
      ensures Valid()
      ensures Params() == if memoryOk then old(Params())[old(currentParam) := Some("void: void")] else old(Params())
      ensures currentParam == old(currentParam) + if memoryOk then 1 else 0
    {
      AddParam("void: void", 11, memoryOk);
    }

    method AddIntParam(name: CString, n: Int32, memoryOk: bool)
      requires Valid() && paramStrings != null && currentParam < paramStrings.Length
      modifies this`currentParam, paramStrings
      ensures Valid()
      ensures Params() ==
        if memoryOk then old(Params())[old(currentParam) := Some(name + ": " + Decimal(n))] else old(Params())
      ensures currentParam == old(currentParam) + if memoryOk then 1 else 0
    {
      DecimalFits(n);
      AddParam(name + ": " + Decimal(n), |name| + 22, memoryOk);
    }

    method AddUnsignedIntParam(name: CString, u: UInt32, memoryOk: bool)
      requires Valid() && paramStrings != null && currentParam < paramStrings.Length
      modifies this`currentParam, paramStrings
      ensures Valid()
      ensures Params() ==
        if memoryOk then old(Params())[old(currentParam) := Some(name + ": " + Hex(u))] else old(Params())
      ensures currentParam == old(currentParam) + if memoryOk then 1 else 0
    {
      HexFits(u);
      AddParam(name + ": " + Hex(u), |name| + 13, memoryOk);
    }

    /** copied is the string fetched from user space, None when fetching failed. */
    method AddStringParam(name: CString, copied: Option<CString>, memoryOk: bool)
      requires Valid() && paramStrings != null && currentParam < paramStrings.Length
      modifies this`currentParam, paramStrings
      ensures Valid()
      ensures Params() ==
        if memoryOk then old(Params())[old(currentParam) := Some(name + ": " + Rendered(copied))] else old(Params())
      ensures currentParam == old(currentParam) + if memoryOk then 1 else 0
    {
      var str := Rendered(copied);
      AddParam(name + ": " + str, |name| + 3 + |str|, memoryOk);
    }
  }

  lemma DecimalFits(n: Int32)
    ensures 1 <= |Decimal(n)| <= 11
  {
    assert Power(10, 10) == 10000000000 by {
      assert Power(10, 5) == 100000;
      assert Power(10, 8) == 100000000;
    }
    var m: int := n;
    DigitsLength(if m < 0 then -m else m, 10, 1, 10);
  }

  lemma HexFits(u: UInt32)
    ensures |Hex(u)| == 10
  {
    assert Power(16, 4) == 65536;
    assert Power(16, 8) == 0x1_0000_0000 by {
      assert Power(16, 6) == 0x100_0000;
    }
    DigitsLength(u, 16, 8, 8);
  }

  lemma DigitReads(d: nat)
    requires d < 16
    ensures Digit(d) == "0123456789abcdef"[d]
    ensures DigitValue(Digit(d)) == d
  {
  }

  /** Digits of this base are digits, not signs. */
  lemma {:induction false} DigitsAreDigits(n: nat, base: Base, width: nat)
    ensures forall c :: c in Digits(n, base, width) ==> '0' <= c <= '9' || ('a' <= c <= 'f' && base == 16)
    decreases n, width
  {
    if n != 0 || width != 0 {
      DigitsAreDigits(Quotient(n, base), base, if width == 0 then 0 else width - 1);
    }
  }

  /** Without padding the first digit is not 0. */
  lemma {:induction false} FirstDigit(n: nat, base: Base, width: nat)
    requires n > 0 && width <= 1
    ensures Digits(n, base, width) != "" && Digits(n, base, width)[0] != '0'
    decreases n
  {
    var q := Quotient(n, base);
    if q > 0 {
      FirstDigit(q, base, 0);
    } else {
      assert Digits(0, base, 0) == "";
    }
  }

  /** A decimal is a minus sign for a negative number and then its digits, the first of which is
      not 0 unless it is the only one; they read back as the number. */
  lemma DecimalReads(n: int)
    ensures var digits := if n < 0 then Decimal(n)[1..] else Decimal(n);
      && (n < 0 ==> Decimal(n)[0] == '-')
      && digits != "" && (forall c :: c in digits ==> '0' <= c <= '9')
      && Value(digits, 10) == (if n < 0 then -n else n)
      && (digits[0] == '0' ==> digits == "0")
  {
    var m := if n < 0 then -n else n;
    DigitsAreDigits(m, 10, 1);
    DigitsValue(m, 10, 1);
    if n < 0 {
      assert Decimal(n)[1..] == Digits(m, 10, 1);
    }
    if m > 0 {
      FirstDigit(m, 10, 1);
    } else {
      assert Digits(0, 10, 1) == Digits(0, 10, 0) + [Digit(0)] == "0";
    }
  }

  /** A hexadecimal text is 0x and eight digits that read back as the number. */
  lemma HexReads(u: UInt32)
    ensures |Hex(u)| == 10 && Hex(u)[..2] == "0x" && Value(Hex(u)[2..], 16) == u
    ensures forall c :: c in Hex(u)[2..] ==> '0' <= c <= '9' || 'a' <= c <= 'f'
  {
    HexFits(u);
    DigitsValue(u, 16, 8);
    DigitsAreDigits(u, 16, 8);
    assert Hex(u)[2..] == Digits(u, 16, 8);
  }

  // ---- end_log_system_call ----

  function Rendered(p: Option<CString>): CString {
    if p.Some? then p.value else "<NULL>"
  }

  /** The first n parameters as they read when nothing is cut. */
  function JoinFirst(ps: seq<Option<CString>>, n: nat): CString
    requires n <= |ps|
  {
    if n == 0 then ""
    else if n == 1 then Rendered(ps[0])
    else JoinFirst(ps, n - 1) + ", " + Rendered(ps[n - 1])
  }

  function Join(ps: seq<Option<CString>>): CString {
    JoinFirst(ps, |ps|)
  }

  function DetailSize(path: Option<CString>): int {
    RECORD_MAX_SIZE - LOG_ITEM_SIZE - (if path.Some? then |path.value| else 1) - 1
  }

  /** text is the join of the first k parameters, with a separator behind it when more were to
      come and it fitted, and k is as many parameters as fit. */
  ghost predicate CutAt(ps: seq<Option<CString>>, size: int, k: nat, text: string) {
    && k <= |ps| && |text| < size
    && text == JoinFirst(ps, k) + (if 0 < k < |ps| && |JoinFirst(ps, k)| + 2 < size then ", " else "")
    && (k < |ps| ==> |JoinFirst(ps, k + 1)| >= size)
  }

  /** buffer holds text as a C string. */
  ghost predicate Holds(buffer: array<char>, text: string)
    reads buffer
  {
    |text| < buffer.Length && buffer[..|text|] == text && buffer[|text|] == '\0' && '\0' !in text
  }

  method StrLen(buffer: array<char>, ghost text: string) returns (n: nat)
    requires Holds(buffer, text)
    ensures n == |text|
  {
    n := 0;
    while buffer[n] != '\0'
      invariant n <= |text|
      decreases |text| - n
    {
      n := n + 1;
    }
    assert forall i :: 0 <= i < |text| ==> buffer[i] == text[i];
  }

  method StrCat(buffer: array<char>, ghost text: string, s: CString)
    requires Holds(buffer, text) && |text| + |s| < buffer.Length
    modifies buffer
    ensures Holds(buffer, text + s)
  {
    var n := StrLen(buffer, text);
    forall i | 0 <= i <= |s| {
      buffer[n + i] := if i < |s| then s[i] else '\0';
    }
    assert buffer[..n + |s|] == text + s;
  }

  /** Before the i-th parameter: the text so far, with its separator unless that did not fit. */
  ghost predicate JoinedUpTo(ps: seq<Option<CString>>, size: int, i: nat, text: string) {
    && i <= |ps| && |text| < size
    && (text == JoinFirst(ps, i) || (0 < i < |ps| && text == JoinFirst(ps, i) + ", "))
    && (0 < i < |ps| && text == JoinFirst(ps, i) ==> size - |text| <= 2)
    && (i == |ps| ==> text == Join(ps))
  }

  lemma ItemFits(ps: seq<Option<CString>>, size: int, i: nat, text: string)
    requires i < |ps| && JoinedUpTo(ps, size, i, text) && Producible(ps[i])
    requires |text| + |Rendered(ps[i])| < size
    ensures text + Rendered(ps[i]) == JoinFirst(ps, i + 1)
  {
  }

  lemma ItemIsCut(ps: seq<Option<CString>>, size: int, i: nat, text: string)
    requires i < |ps| && JoinedUpTo(ps, size, i, text) && Producible(ps[i])
    requires |text| + |Rendered(ps[i])| >= size
    ensures CutAt(ps, size, i, text)
  {
  }

  /** The loop of end_log_system_call over a buffer of detailSize bytes; k parameters fit. */
  method JoinParams(ps: seq<Option<CString>>, detailSize: int)
    returns (details: array<char>, ghost text: string, ghost k: nat)
    requires detailSize > 0
    requires forall i :: 0 <= i < |ps| ==> Producible(ps[i])
    ensures fresh(details) && details.Length == detailSize && Holds(details, text)
    ensures CutAt(ps, detailSize, k, text)
  {
    details := new char[detailSize];
    details[0] := '\0';
    text := "";
    var left := detailSize;
    var i := 0;
    while i < |ps|
      invariant 0 <= i <= |ps|
      invariant Holds(details, text) && |text| + left == detailSize && left > 0
      invariant JoinedUpTo(ps, detailSize, i, text)
    {
      var item := Rendered(ps[i]);
      left := left - |item|;
      if left > 0 {
        ItemFits(ps, detailSize, i, text);
        StrCat(details, text, item);
        text := text + item;
      } else {
        k := i;
        ItemIsCut(ps, detailSize, i, text);
        return;
      }
      if |ps| - 1 != i && left > 2 {
        StrCat(details, text, ", ");
        text := text + ", ";
        left := left - 2;
      }
      i := i + 1;
    }
    k := |ps|;
  }

  /** What the parameters k..n-1 add behind the first k. */
  function Added(ps: seq<Option<CString>>, k: nat, n: nat): string
    requires n <= |ps|
  {
    if n <= k then "" else Added(ps, k, n - 1) + (", " + Rendered(ps[n - 1]))
  }

  lemma Chain(whole: string, a: string, b: string, c: string, d: string, rest: string)
    requires whole == ((a + b) + c) + d && rest == b + (c + d)
    ensures whole == a + rest
  {
  }

  lemma {:induction false} JoinGrows(ps: seq<Option<CString>>, k: nat, n: nat)
    requires 0 < k <= n <= |ps|
    ensures JoinFirst(ps, n) == JoinFirst(ps, k) + Added(ps, k, n)
    decreases n - k
  {
    if k < n {
      JoinGrows(ps, k, n - 1);
      Chain(JoinFirst(ps, n), JoinFirst(ps, k), Added(ps, k, n - 1), ", ", Rendered(ps[n - 1]), Added(ps, k, n));
    }
  }

  lemma StaysInFront(a: string, sep: string, b: string)
    requires a == "" || (|a| >= |sep| && a[..|sep|] == sep)
    ensures |a + (sep + b)| >= |sep| && (a + (sep + b))[..|sep|] == sep
  {
  }

  lemma {:induction false} AddedStartsWithSeparator(ps: seq<Option<CString>>, k: nat, n: nat)
    requires k < n <= |ps|
    ensures |Added(ps, k, n)| >= 2 && Added(ps, k, n)[..2] == ", "
    decreases n - k
  {
    if k < n - 1 {
      AddedStartsWithSeparator(ps, k, n - 1);
    }
    StaysInFront(Added(ps, k, n - 1), ", ", Rendered(ps[n - 1]));
  }

  /** Parameters and buffer determine what is kept. */
  lemma CutIsUnique(ps: seq<Option<CString>>, size: int, k: nat, text: string, k': nat, text': string)
    requires CutAt(ps, size, k, text) && CutAt(ps, size, k', text')
    ensures k == k' && text == text'
  {
    if k < k' {
      JoinIsMonotone(ps, k + 1, k');
    } else if k' < k {
      JoinIsMonotone(ps, k' + 1, k);
    }
  }

  /** How joined parameters read: a missing one as its placeholder. */
  lemma JoinReads(a: CString, b: CString, c: CString)
    ensures Join([]) == "" && Join([Some(a)]) == a
    ensures Join([Some(a), None]) == a + ", " + "<NULL>"
    ensures Join([Some(a), Some(b), Some(c)]) == a + ", " + b + ", " + c
  {
    var two: seq<Option<CString>>, three := [Some(a), None], [Some(a), Some(b), Some(c)];
    assert JoinFirst(two, 1) == a && Rendered(two[1]) == "<NULL>";
    assert JoinFirst(three, 2) == a + ", " + b;
  }

  lemma {:induction false} JoinIsMonotone(ps: seq<Option<CString>>, i: nat, j: nat)
    requires i <= j <= |ps|
    ensures |JoinFirst(ps, i)| <= |JoinFirst(ps, j)|
    decreases j - i
  {
    if i < j {
      JoinIsMonotone(ps, i, j - 1);
    }
  }

  /** Behind the first k parameters the join goes on with a separator. */
  lemma GoesOnWithSeparator(ps: seq<Option<CString>>, k: nat)
    requires 0 < k < |ps|
    ensures JoinFirst(ps, k) <= Join(ps) && JoinFirst(ps, k) + ", " <= Join(ps)
  {
    JoinGrows(ps, k, |ps|);
    AddedStartsWithSeparator(ps, k, |ps|);
    var rest := Added(ps, k, |ps|);
    assert rest == ", " + rest[2..];
    Associate(JoinFirst(ps, k), ", ", rest[2..]);
  }

  /** The details are a prefix of the full join, and the whole of it exactly when it fits. */
  lemma CutIsPrefix(ps: seq<Option<CString>>, size: int, k: nat, text: string)
    requires CutAt(ps, size, k, text)
    ensures text <= Join(ps)
    ensures text == Join(ps) <==> |Join(ps)| < size
  {
    if k < |ps| {
      JoinIsMonotone(ps, k + 1, |ps|);
      if k > 0 {
        GoesOnWithSeparator(ps, k);
      }
    }
  }
}
