/** native/jni/filter.cpp: the ordered list of rules that decides which logs are printed. */
module Filter {
  import opened Common

  datatype Column = NoColumn | Time | Pid | Process | Operation | Api | Path | Outcome | Details
  datatype Operate = NoOperate | Is | IsNot | Contains | BeginsWith | EndsWith | Excludes
  datatype Action = NoAction | Include | Exclude
  datatype Verdict = Undecided | Included | Excluded

  datatype Rule = Rule(column: Column, operate: Operate, value: CString, action: Action)

  /** A log with its columns already rendered as text. */
  datatype LogView = LogView(time: CString, pid: CString, process: CString, operation: CString, api: CString,
                             path: CString, outcome: CString, details: CString)

  // ---- the C string functions ----

  function LowerChar(c: char): char {
    if 'A' <= c <= 'Z' then (c as int + 32) as char else c
  }

  function Lower(s: string): (r: string)
    ensures |r| == |s|
  {
    seq(|s|, i requires 0 <= i < |s| => LowerChar(s[i]))
  }

  /** strcasecmp(a, b) == 0 */
  predicate SameText(a: string, b: string) {
    Lower(a) == Lower(b)
  }

  predicate OccursAt(a: string, b: string, i: int) {
    0 <= i <= |a| - |b| && a[i..i + |b|] == b
  }

  /** strstr(a, b) != NULL */
  predicate Occurs(a: string, b: string) {
    |a| >= |b| && (a[..|b|] == b || (a != "" && Occurs(a[1..], b)))
  }

  lemma {:induction false} OccursSomewhere(a: string, b: string)
    ensures Occurs(a, b) <==> exists i :: OccursAt(a, b, i)
  {
    if |a| >= |b| {
      if a[..|b|] == b {
        assert OccursAt(a, b, 0);
      } else if a != "" {
        OccursSomewhere(a[1..], b);
        forall i | OccursAt(a, b, i)
          ensures OccursAt(a[1..], b, i - 1)
        {
          assert i > 0;
          assert a[1..][i - 1..i - 1 + |b|] == a[i..i + |b|];
        }
        forall i | OccursAt(a[1..], b, i)
          ensures OccursAt(a, b, i + 1)
        {
          assert a[i + 1..i + 1 + |b|] == a[1..][i..i + |b|];
        }
      }
    }
  }

  // ---- one rule ----

  predicate ValueMatches(value: string, rule: Rule) {
    var n := |rule.value|;
    match rule.operate
    case NoOperate => false
    case Is => SameText(value, rule.value)
    case IsNot => !SameText(value, rule.value)
    case Excludes => !Occurs(value, rule.value)
    case Contains => Occurs(value, rule.value)
    case BeginsWith => |value| >= n && SameText(value[..n], rule.value)
    case EndsWith => |value| >= n && SameText(value[|value| - n..], rule.value)
  }

  function ColumnText(log: LogView, column: Column): Option<CString> {
    match column
    case NoColumn => None
    case Time => Some(log.time)
    case Pid => Some(log.pid)
    case Process => Some(log.process)
    case Operation => Some(log.operation)
    case Api => Some(log.api)
    case Path => Some(log.path)
    case Outcome => Some(log.outcome)
    case Details => Some(log.details)
  }

  /** Does the rule speak about this log? */
  predicate Matches(rule: Rule, log: LogView) {
    var text := ColumnText(log, rule.column);
    text.Some? && ValueMatches(text.value, rule)
  }

  function FilterValueWithFilter(value: string, rule: Rule): Verdict {
    var matched := ValueMatches(value, rule);
    if rule.action == Include then
      if matched then Included else Undecided
    else
      if matched then Excluded else Undecided
  }

  function FilterOneLog(rule: Rule, log: LogView): (v: Verdict)
    ensures v == Undecided <==> !Matches(rule, log)
    ensures v == Included ==> rule.action == Include
    ensures v == Excluded ==> rule.action != Include
  {
    match ColumnText(log, rule.column)
    case None => Undecided
    case Some(value) => FilterValueWithFilter(value, rule)
  }

  // ---- what each operator compares ----

  /** The same character, or the same letter of A to Z in another case. */
  predicate SameLetter(c: char, d: char) {
    || c == d
    || ('A' <= c <= 'Z' && d as int == c as int + 32)
    || ('A' <= d <= 'Z' && c as int == d as int + 32)
  }

  lemma LowerCharIff(c: char, d: char)
    ensures LowerChar(c) == LowerChar(d) <==> SameLetter(c, d)
  {
  }

  /** b stands in a at this position, but for the case of its letters. */
  predicate ReadsAt(a: string, b: string, at: int) {
    0 <= at <= |a| - |b| && forall i :: 0 <= i < |b| ==> SameLetter(a[at + i], b[i])
  }

  lemma SameTextIff(a: string, b: string)
    ensures SameText(a, b) <==> |a| == |b| && ReadsAt(a, b, 0)
  {
    if SameText(a, b) {
      forall i | 0 <= i < |b|
        ensures SameLetter(a[i], b[i])
      {
        assert Lower(a)[i] == Lower(b)[i];
        LowerCharIff(a[i], b[i]);
      }
    }
    if |a| == |b| && ReadsAt(a, b, 0) {
      forall i | 0 <= i < |b|
        ensures Lower(a)[i] == Lower(b)[i]
      {
        assert SameLetter(a[0 + i], b[i]);
        LowerCharIff(a[i], b[i]);
      }
    }
  }

  /** "is" and "is not": the whole text, whatever the case of its letters. */
  lemma IsComparesAll(value: string, rule: Rule)
    ensures rule.operate == Is ==>
      (ValueMatches(value, rule) <==> |value| == |rule.value| && ReadsAt(value, rule.value, 0))
    ensures rule.operate == IsNot ==> (ValueMatches(value, rule) <==> !ValueMatches(value, rule.(operate := Is)))
  {
    SameTextIff(value, rule.value);
  }

  /** "begins with" and "ends with": the first and the last characters, whatever their case. */
  lemma EndsCompareAtEnds(value: string, rule: Rule)
    ensures rule.operate == BeginsWith ==> (ValueMatches(value, rule) <==> ReadsAt(value, rule.value, 0))
    ensures rule.operate == EndsWith ==>
      (ValueMatches(value, rule) <==> ReadsAt(value, rule.value, |value| - |rule.value|))
  {
    var n := |rule.value|;
    if |value| >= n {
      SameTextIff(value[..n], rule.value);
      var last := value[|value| - n..];
      SameTextIff(last, rule.value);
      assert forall i :: 0 <= i < n ==> value[..n][i] == value[i] && last[i] == value[|value| - n + i];
    }
  }

  /** "contains" and "excludes": some position, the case of the letters included. A rule without
      an operator matches nothing. */
  lemma ContainsLooksEverywhere(value: string, rule: Rule)
    ensures rule.operate == Contains ==> (ValueMatches(value, rule) <==> exists i :: OccursAt(value, rule.value, i))
    ensures rule.operate == Excludes ==> (ValueMatches(value, rule) <==> !exists i :: OccursAt(value, rule.value, i))
    ensures rule.operate == NoOperate ==> !ValueMatches(value, rule)
  {
    OccursSomewhere(value, rule.value);
  }

  // ---- the meaning of a list ----

  /** The regular expression of AddFilter admits no other actions. */
  ghost predicate Decisive(rules: seq<Rule>) {
    forall i :: 0 <= i < |rules| ==> rules[i].action != NoAction
  }

  ghost predicate FirstMatch(rules: seq<Rule>, log: LogView, k: int) {
    && 0 <= k < |rules| && Matches(rules[k], log)
    && forall i :: 0 <= i < k ==> !Matches(rules[i], log)
  }

  ghost predicate NoMatch(rules: seq<Rule>, log: LogView) {
    forall i :: 0 <= i < |rules| ==> !Matches(rules[i], log)
  }

  /** A verdict without a matching rule: print exactly when there is no rule or the last one excludes. */
  function Default(rules: seq<Rule>): Verdict {
    if rules == [] || rules[|rules| - 1].action == Exclude then Included else Undecided
  }

  /** The first rule that matches decides, else the default. */
  ghost predicate Means(rules: seq<Rule>, log: LogView, v: Verdict) {
    && (forall k :: FirstMatch(rules, log, k) ==> v == if rules[k].action == Include then Included else Excluded)
    && (NoMatch(rules, log) ==> v == Default(rules))
  }

  lemma {:induction false} FirstMatchExists(rules: seq<Rule>, log: LogView, n: nat) returns (k: nat)
    requires n < |rules| && Matches(rules[n], log)
    ensures FirstMatch(rules, log, k) && k <= n
  {
    if exists i :: 0 <= i < n && Matches(rules[i], log) {
      var i :| 0 <= i < n && Matches(rules[i], log);
      k := FirstMatchExists(rules, log, i);
    } else {
      k := n;
    }
  }

  // ---- the list itself ----

  class FilterItem {
    const rule: Rule
    var next: FilterItem?

    constructor (rule: Rule)
      ensures this.rule == rule && next == null
    {
      this.rule := rule;
      next := null;
    }
  }

  class FilterList {
    var header: FilterItem?
    var tail: FilterItem?
    ghost var Items: seq<FilterItem>

    ghost predicate Valid()
      reads this, Items
    {
      && Distinct(Items)
      && header == (if Items == [] then null else Items[0])
      && tail == (if Items == [] then null else Items[|Items| - 1])
      && (forall i {:trigger Items[i].next} :: 0 <= i < |Items| ==>
          Items[i].next == if i == |Items| - 1 then null else Items[i + 1])
      && Decisive(Rules())
    }

    ghost function Rules(): (rs: seq<Rule>)
      reads this
    {
      var items := Items;
      seq(|items|, i requires 0 <= i < |items| => items[i].rule)
    }

    constructor ()
      ensures Valid() && Rules() == []
    {
      header, tail := null, null;
      Items := [];
    }

    /** The end of AddFilter, once the rule is parsed; memoryOk says whether its mallocs succeed. */
    method AddFilter(rule: Rule, memoryOk: bool) returns (ret: bool)
      requires Valid() && rule.action != NoAction
      modifies this, Items
      ensures Valid() && ret == memoryOk
      ensures Rules() == if ret then old(Rules()) + [rule] else old(Rules())
    {
      ret := false;
      if memoryOk {
        var item := new FilterItem(rule);
        if header == null {
          header := item;
          tail := item;
        } else {
          tail.next := item;
          tail := item;
        }
        Items := Items + [item];
        assert Rules() == old(Rules()) + [rule];
        ret := true;
      }
    }

    method FilterLog(log: LogView) returns (result: Verdict)
      requires Valid()
      ensures Means(Rules(), log, result)
    {
      result := Included;
      var p := header;
      ghost var i := 0;
      ghost var rules := Rules();
      while p != null
        invariant 0 <= i <= |Items|
        invariant p == if i == |Items| then null else Items[i]
        invariant forall j :: 0 <= j < i ==> !Matches(rules[j], log)
        invariant result == if i == 0 || rules[i - 1].action == Exclude then Included else Undecided
        decreases |Items| - i
      {
        assert p == Items[i] && p.rule == rules[i];
        result := FilterOneLog(p.rule, log);
        if Include == p.rule.action {
          if Included == result {
            break;
          }
        }
        if Exclude == p.rule.action {
          if Excluded == result {
            break;
          } else {
            result := Included;
          }
        }
        assert Items[i].next == if i == |Items| - 1 then null else Items[i + 1];
        p := p.next;
        i := i + 1;
      }
    }
  }

  // ---- what follows for whole lists ----

  /** A list gives a log one verdict. */
  lemma VerdictIsUnique(rules: seq<Rule>, log: LogView, v: Verdict, v': Verdict)
    requires Means(rules, log, v) && Means(rules, log, v')
    ensures v == v'
  {
    if !NoMatch(rules, log) {
      var n :| 0 <= n < |rules| && Matches(rules[n], log);
      var k := FirstMatchExists(rules, log, n);
    }
  }

  /** Lists of exclude rules print the logs that no rule matches; non-empty lists of include
      rules print the logs that some rule matches. */
  lemma UniformLists(rules: seq<Rule>, log: LogView, v: Verdict)
    requires Decisive(rules) && Means(rules, log, v)
    ensures (forall i :: 0 <= i < |rules| ==> rules[i].action == Exclude) ==> (v == Included <==> NoMatch(rules, log))
    ensures rules != [] && (forall i :: 0 <= i < |rules| ==> rules[i].action == Include) ==>
      (v == Included <==> !NoMatch(rules, log))
  {
    if !NoMatch(rules, log) {
      var n :| 0 <= n < |rules| && Matches(rules[n], log);
      var k := FirstMatchExists(rules, log, n);
    }
  }

  /** A rule added at the end changes nothing for a log that an earlier rule matched. For the
      others it decides alone, and when it does not match either, an exclude rule makes the log
      printed and an include rule makes it dropped, whatever held before. */
  lemma AddedRule(rules: seq<Rule>, rule: Rule, log: LogView, v: Verdict)
    requires rule.action != NoAction && Means(rules, log, v)
    ensures Means(rules + [rule], log,
      if !NoMatch(rules, log) then v
      else if rule.action == Exclude then (if Matches(rule, log) then Excluded else Included)
      else (if Matches(rule, log) then Included else Undecided))
  {
    var more := rules + [rule];
    forall k | FirstMatch(more, log, k)
      ensures if k < |rules| then FirstMatch(rules, log, k) else NoMatch(rules, log) && Matches(rule, log)
    {
      assert forall i :: 0 <= i < |rules| ==> more[i] == rules[i];
    }
    if NoMatch(more, log) {
      assert forall i :: 0 <= i < |rules| ==> more[i] == rules[i];
      assert more[|rules|] == rule;
    }
  }
}
