/** The cache on the heap, serving any sequence of requests: it makes a run of the abstract cache,
    and about an fd that is never inserted twice it answers like a plain map from fds to paths. */
module FdCacheService {
  import opened Common
  import opened FdRecords
  import opened FdCacheSpec
  import opened FdCache
  import opened FdCacheRuns

  datatype Request =
    /** insert_into_cache */
    | Insertion(fd: Fd, path: CString, memoryOk: bool)
    /** get_cache_by_fd; kernelPath is what the kernel would say. */
    | Search(fd: Fd, kernelPath: Option<CString>, memoryOk: bool)
    /** delete_cache_by_fd */
    | Deletion(fd: Fd)

  datatype Answer = Nothing | Path(path: Option<CString>) | Success(ok: bool)

  // ---- the plain map ----

  type PathMap = map<Fd, CString>

  function AfterRequest(m: PathMap, r: Request): PathMap {
    match r
    case Insertion(fd, path, memoryOk) => if memoryOk then m[fd := path] else m
    case Search(fd, kernelPath, memoryOk) =>
      if fd !in m && kernelPath.Some? && memoryOk then m[fd := kernelPath.value] else m
    case Deletion(fd) => m - {fd}
  }

  function AnswerOf(m: PathMap, r: Request): Answer {
    match r
    case Insertion(_, _, _) => Nothing
    case Search(fd, kernelPath, memoryOk) =>
      Path(if fd in m then Some(m[fd]) else if memoryOk then kernelPath else None)
    case Deletion(fd) => Success(fd in m)
  }

  /** The map after the first i requests. */
  function MapAt(requests: seq<Request>, i: nat): PathMap
    requires i <= |requests|
  {
    if i == 0 then map[] else AfterRequest(MapAt(requests, i - 1), requests[i - 1])
  }

  /** If the request inserts fd, it has no record. Requests about other fds do not matter. */
  predicate AdmissibleFor(m: PathMap, r: Request, fd: Fd) {
    r.Insertion? && r.memoryOk && r.fd == fd ==> fd !in m
  }

  /** The list holds exactly the record of fd that the map has, or none. */
  ghost predicate ShowsAt(link: seq<Record>, m: PathMap, fd: Fd) {
    && AtMostOne(link, fd)
    && match FirstWithFd(link, fd)
       case None => fd !in m
       case Some(r) => fd in m && r.filename == m[fd]
  }

  lemma InsertionShowsIff(link: seq<Record>, x: Record, m: PathMap, fd: Fd)
    requires ShowsAt(link, m, fd)
    ensures ShowsAt([x] + link, m[x.fd := x.filename], fd) <==> (x.fd == fd ==> fd !in m)
  {
    var link' := [x] + link;
    assert link'[1..] == link;
    if x.fd == fd && fd in m {
      var i :| 0 <= i < |link| && link[i] == FirstWithFd(link, fd).value;
      assert link'[0].fd == fd && link'[i + 1].fd == fd;
    }
  }

  lemma CutShowsAt(link: seq<Record>, k: nat, m: PathMap, fd: Fd)
    requires k < |link| && ShowsAt(link, m, fd)
    ensures ShowsAt(RemoveAt(link, k), m - {link[k].fd}, fd)
  {
    if fd != link[k].fd {
      CutKeepsFirst(link, k, fd);
    }
  }

  lemma DeletionShows(s: CacheState, capacity: nat, f: Fd, found: Option<Record>, m: PathMap, fd: Fd)
    requires capacity >= 2 && Inv(s, capacity) && Finds(s, f, found) && ShowsAt(s.link, m, fd)
    ensures f == fd ==> (found.Some? <==> fd in m)
    ensures ShowsAt(AfterDelete(s, found).link, m - {f}, fd)
  {
    if f == fd {
      FastRefinesSlow(s, capacity, fd, found);
    }
    if found.Some? {
      DeleteCuts(s, found.value, capacity);
      var k :| 0 <= k < |s.link| && s.link[k] == found.value && AfterDelete(s, found).link == RemoveAt(s.link, k);
      CutShowsAt(s.link, k, m, fd);
    }
  }

  // ---- one request ----

  /** The answer; the record that a search or a deletion found; the record that was inserted. */
  datatype Outcome = Outcome(answer: Answer, found: Option<Record>, filled: Option<Record>)

  /** How the cache goes from s to s' when it serves r. */
  ghost predicate Serves(s: CacheState, capacity: nat, r: Request, o: Outcome, s': CacheState) {
    && (o.filled.Some? ==> o.filled.value !in s.link)
    && match r
       case Insertion(fd, path, memoryOk) =>
         && o.answer == Nothing && (o.filled.Some? <==> memoryOk)
         && (if memoryOk
             then o.filled.value.fd == fd && o.filled.value.filename == path &&
                  s' == AfterInsert(s, o.filled.value, capacity)
             else s' == s)
       case Search(fd, kernelPath, memoryOk) =>
         o.answer.Path? && Got(s, s', capacity, fd, kernelPath, memoryOk, o.answer.path, o.found, o.filled)
       case Deletion(fd) =>
         o.answer == Success(o.found.Some?) && Finds(s, fd, o.found) && s' == AfterDelete(s, o.found)
  }

  /** Whatever is hot, evicted or listed twice for other fds: a request about fd gets the map's
      answer, and the list shows the map's record of fd afterwards if and only if the request
      does not insert fd a second time. */
  lemma ServesLikeMapIff(s: CacheState, capacity: nat, r: Request, o: Outcome, s': CacheState, m: PathMap, fd: Fd)
    requires capacity >= 2 && Inv(s, capacity) && ShowsAt(s.link, m, fd) && Serves(s, capacity, r, o, s')
    ensures r.fd == fd ==> o.answer == AnswerOf(m, r)
    ensures ShowsAt(s'.link, AfterRequest(m, r), fd) <==> AdmissibleFor(m, r, fd)
  {
    match r
    case Insertion(_, _, _) =>
      if o.filled.Some? {
        InsertionShowsIff(s.link, o.filled.value, m, fd);
      }
    case Search(f, _, _) =>
      if f == fd {
        FastRefinesSlow(s, capacity, fd, o.found);
      }
      if o.filled.Some? {
        InsertionShowsIff(s.link, o.filled.value, m, fd);
      }
    case Deletion(f) =>
      DeletionShows(s, capacity, f, o.found, m, fd);
  }

  // ---- any sequence of requests ----

  ghost predicate ServesAt(states: seq<CacheState>, capacity: nat, requests: seq<Request>, outcomes: seq<Outcome>,
                           i: nat)
    requires i < |outcomes| <= |requests| && |states| == |outcomes| + 1
  {
    Serves(states[i], capacity, requests[i], outcomes[i], states[i + 1])
  }

  /** outcomes[i] is what became of requests[i], from the empty cache on. */
  ghost predicate ServedRun(states: seq<CacheState>, capacity: nat, requests: seq<Request>, outcomes: seq<Outcome>) {
    && |states| == |outcomes| + 1 && |outcomes| <= |requests|
    && states[0] == EMPTY
    && forall i :: 0 <= i < |outcomes| ==> ServesAt(states, capacity, requests, outcomes, i)
  }

  lemma {:induction false} ServedRunKeepsInv(states: seq<CacheState>, capacity: nat, requests: seq<Request>,
                                             outcomes: seq<Outcome>, i: nat)
    requires capacity >= 2 && ServedRun(states, capacity, requests, outcomes) && i <= |outcomes|
    ensures Inv(states[i], capacity)
  {
    if i > 0 {
      ServedRunKeepsInv(states, capacity, requests, outcomes, i - 1);
      var s, o, s' := states[i - 1], outcomes[i - 1], states[i];
      assert ServesAt(states, capacity, requests, outcomes, i - 1);
      if o.found.Some? && requests[i - 1].Deletion? {
        DeleteCuts(s, o.found.value, capacity);
      }
    }
  }

  ghost predicate ShowsNow(states: seq<CacheState>, requests: seq<Request>, fd: Fd, i: nat)
    requires i < |states| <= |requests| + 1
  {
    ShowsAt(states[i].link, MapAt(requests, i), fd)
  }

  predicate AdmissibleNow(requests: seq<Request>, fd: Fd, i: nat)
    requires i < |requests|
  {
    AdmissibleFor(MapAt(requests, i), requests[i], fd)
  }

  ghost predicate ShowsFrom(states: seq<CacheState>, requests: seq<Request>, fd: Fd, a: nat, i: nat)
    requires i < |states| <= |requests| + 1
  {
    forall j :: a <= j <= i ==> ShowsNow(states, requests, fd, j)
  }

  predicate AdmissibleFrom(requests: seq<Request>, fd: Fd, a: nat, i: nat)
    requires i <= |requests|
  {
    forall k :: a <= k < i ==> AdmissibleNow(requests, fd, k)
  }

  lemma RequestShowsMapIff(states: seq<CacheState>, capacity: nat, requests: seq<Request>, outcomes: seq<Outcome>,
                           fd: Fd, i: nat)
    requires capacity >= 2 && ServedRun(states, capacity, requests, outcomes) && i < |outcomes|
    requires ShowsNow(states, requests, fd, i)
    ensures ShowsNow(states, requests, fd, i + 1) <==> AdmissibleNow(requests, fd, i)
    ensures requests[i].fd == fd ==> outcomes[i].answer == AnswerOf(MapAt(requests, i), requests[i])
  {
    ServedRunKeepsInv(states, capacity, requests, outcomes, i);
    assert ServesAt(states, capacity, requests, outcomes, i);
    ServesLikeMapIff(states[i], capacity, requests[i], outcomes[i], states[i + 1], MapAt(requests, i), fd);
  }

  /** From any moment at which the list shows the map's record of fd on, such as the start, it
      does so all along if and only if fd is not inserted while it has a record. */
  lemma {:induction false} ShowsMapIff(states: seq<CacheState>, capacity: nat, requests: seq<Request>,
                                       outcomes: seq<Outcome>, fd: Fd, a: nat, i: nat)
    requires capacity >= 2 && ServedRun(states, capacity, requests, outcomes) && a <= i <= |outcomes|
    requires ShowsNow(states, requests, fd, a)
    ensures ShowsFrom(states, requests, fd, a, i) <==> AdmissibleFrom(requests, fd, a, i)
  {
    if i > a {
      ShowsMapIff(states, capacity, requests, outcomes, fd, a, i - 1);
      if ShowsFrom(states, requests, fd, a, i - 1) {
        assert ShowsNow(states, requests, fd, i - 1);
        RequestShowsMapIff(states, capacity, requests, outcomes, fd, i - 1);
      }
    }
  }

  /** Every answer about fd is the one that the plain map gives at that point. */
  predicate AnswersLikeMap(requests: seq<Request>, answers: seq<Answer>, fd: Fd)
    requires |answers| == |requests|
  {
    forall i :: 0 <= i < |requests| && requests[i].fd == fd ==> answers[i] == AnswerOf(MapAt(requests, i), requests[i])
  }

  function Answers(outcomes: seq<Outcome>): (answers: seq<Answer>)
    ensures |answers| == |outcomes|
  {
    seq(|outcomes|, i requires 0 <= i < |outcomes| => outcomes[i].answer)
  }

  /** What is done to other fds, duplicates included, does not matter. */
  lemma RunAnswersLikeMap(states: seq<CacheState>, capacity: nat, requests: seq<Request>, outcomes: seq<Outcome>,
                          fd: Fd)
    requires capacity >= 2 && ServedRun(states, capacity, requests, outcomes) && |outcomes| == |requests|
    requires AdmissibleFrom(requests, fd, 0, |requests|)
    ensures AnswersLikeMap(requests, Answers(outcomes), fd)
  {
    ShowsMapIff(states, capacity, requests, outcomes, fd, 0, |requests|);
    forall i | 0 <= i < |requests| && requests[i].fd == fd
      ensures outcomes[i].answer == AnswerOf(MapAt(requests, i), requests[i])
    {
      assert ShowsNow(states, requests, fd, i);
      RequestShowsMapIff(states, capacity, requests, outcomes, fd, i);
    }
  }

  /** One fd inserted twice, deleted and searched for. */
  function Twice(fd: Fd): seq<Request> {
    [Insertion(fd, "a", true), Insertion(fd, "b", true), Deletion(fd), Search(fd, None, false)]
  }

  /** With two records of one fd a deletion leaves one to be found; the plain map has none. */
  lemma DuplicateIsAnswered(states: seq<CacheState>, capacity: nat, fd: Fd, outcomes: seq<Outcome>)
    requires capacity >= 2 && ServedRun(states, capacity, Twice(fd), outcomes) && |outcomes| == 4
    ensures !AdmissibleFor(MapAt(Twice(fd), 1), Twice(fd)[1], fd)
    ensures AnswerOf(MapAt(Twice(fd), 3), Twice(fd)[3]) == Path(None)
    ensures outcomes[3].answer.Path? && outcomes[3].answer.path.Some?
  {
    var requests := Twice(fd);
    assert ServesAt(states, capacity, requests, outcomes, 0);
    assert ServesAt(states, capacity, requests, outcomes, 1);
    var x, y := outcomes[0].filled.value, outcomes[1].filled.value;
    assert ServesAt(states, capacity, requests, outcomes, 2);
    assert ServesAt(states, capacity, requests, outcomes, 3);
    assert states[2].link == [y, x] && x != y;
    ServedRunKeepsInv(states, capacity, requests, outcomes, 2);
    assert x in states[2].link && y in states[2].link;
    DeleteTakesOne(states[2], capacity, fd, outcomes[2].found, states[3]);
    var other := if outcomes[2].found == Some(x) then y else x;
    assert other in states[3].link && other.fd == fd;
    TwiceOnMap(fd);
  }

  lemma TwiceOnMap(fd: Fd)
    ensures fd in MapAt(Twice(fd), 1) && fd !in MapAt(Twice(fd), 3)
  {
  }

  // ---- as a run of calls ----

  /** The states of the cache and the calls made, request by request. */
  datatype History = History(states: seq<CacheState>, steps: seq<seq<Op>>)

  function Concat(steps: seq<seq<Op>>): seq<Op> {
    if steps == [] then [] else Concat(steps[..|steps| - 1]) + steps[|steps| - 1]
  }

  /** h is a run from the empty cache to s. */
  ghost predicate LeadsTo(h: History, capacity: nat, s: CacheState) {
    Run(h.states, Concat(h.steps), capacity) && h.states[|Concat(h.steps)|] == s
  }

  predicate Inserts(op: Op, fd: Fd, path: CString) {
    op.Insert? && op.x.fd == fd && op.x.filename == path
  }

  /** These calls are what the request asks for. */
  predicate Performs(ops: seq<Op>, r: Request) {
    match r
    case Insertion(fd, path, memoryOk) => if memoryOk then |ops| == 1 && Inserts(ops[0], fd, path) else ops == []
    case Search(fd, kernelPath, memoryOk) =>
      || (|ops| == 1 && ops[0].Lookup? && ops[0].fd == fd)
      || (|ops| == 3 && kernelPath.Some? && memoryOk &&
          ops[0] == Lookup(fd, None) && Inserts(ops[1], fd, kernelPath.value) && ops[2] == Lookup(fd, Some(ops[1].x)))
    case Deletion(fd) => |ops| == 1 && ops[0].Delete? && ops[0].fd == fd
  }

  predicate PerformsAll(steps: seq<seq<Op>>, requests: seq<Request>) {
    |steps| <= |requests| && forall i :: 0 <= i < |steps| ==> Performs(steps[i], requests[i])
  }

  /** The calls that serve a request, and the states after each of them. */
  lemma ServedByCalls(s: CacheState, capacity: nat, r: Request, o: Outcome, s': CacheState)
    returns (ops: seq<Op>, states: seq<CacheState>)
    requires Serves(s, capacity, r, o, s')
    ensures Performs(ops, r) && Chain(s, capacity, ops, states) && Last(s, states) == s'
  {
    match r
    case Insertion(_, _, memoryOk) =>
      ops, states := if memoryOk then [Insert(o.filled.value)] else [], if memoryOk then [s'] else [];
    case Search(fd, kernelPath, memoryOk) =>
      GetIsRun(s, s', capacity, fd, kernelPath, memoryOk, o.answer.path, o.found, o.filled);
      if o.filled.Some? {
        ops, states := [Lookup(fd, None), Insert(o.filled.value), Lookup(fd, o.filled)], [s, s', s'];
      } else {
        ops, states := [Lookup(fd, o.found)], [s'];
      }
    case Deletion(fd) =>
      ops, states := [Delete(fd, o.found)], [s'];
  }

  function Last(s: CacheState, states: seq<CacheState>): CacheState {
    if states == [] then s else states[|states| - 1]
  }

  /** From s these calls lead through these states. */
  ghost predicate Chain(s: CacheState, capacity: nat, ops: seq<Op>, states: seq<CacheState>) {
    |ops| == |states| && forall i :: 0 <= i < |ops| ==> Next(([s] + states)[i], capacity, ops[i], states[i])
  }

  /** The run after one more request. */
  lemma Extend(h: History, capacity: nat, s: CacheState, ops: seq<Op>, states: seq<CacheState>) returns (h': History)
    requires LeadsTo(h, capacity, s) && Chain(s, capacity, ops, states)
    ensures h'.steps == h.steps + [ops] && LeadsTo(h', capacity, Last(s, states))
  {
    h' := History(h.states + states, h.steps + [ops]);
    assert h'.steps[..|h.steps|] == h.steps;
    var all, n := Concat(h.steps), |Concat(h.steps)|;
    assert Concat(h'.steps) == all + ops;
    forall i | 0 <= i < |all + ops|
      ensures StepAt(h'.states, all + ops, capacity, i)
    {
      if i < n {
        assert StepAt(h.states, all, capacity, i);
      } else {
        var k := i - n;
        assert Next(([s] + states)[k], capacity, ops[k], states[k]);
        assert h'.states[i] == ([s] + states)[k];
      }
    }
  }

  /** Serving requests makes a run of the abstract cache, out of the calls that they ask for. */
  lemma {:induction false} ServedRunIsRun(states: seq<CacheState>, capacity: nat, requests: seq<Request>,
                                          outcomes: seq<Outcome>, i: nat) returns (h: History)
    requires ServedRun(states, capacity, requests, outcomes) && i <= |outcomes|
    ensures |h.steps| == i && PerformsAll(h.steps, requests) && LeadsTo(h, capacity, states[i])
  {
    if i == 0 {
      h := History([EMPTY], []);
    } else {
      h := ServedRunIsRun(states, capacity, requests, outcomes, i - 1);
      assert ServesAt(states, capacity, requests, outcomes, i - 1);
      var ops, between := ServedByCalls(states[i - 1], capacity, requests[i - 1], outcomes[i - 1], states[i]);
      h := Extend(h, capacity, states[i - 1], ops, between);
    }
  }

  // ---- the class ----

  method ServeOne(area: FdArea, r: Request) returns (answer: Answer, ghost o: Outcome)
    requires area.Valid()
    modifies area, area.hotFdCache, Members(area.Link)
    ensures area.Valid() && fresh(area.Footprint() - old(area.Footprint()))
    ensures Serves(old(area.State()), area.hotFdCache.Length, r, o, area.State()) && answer == o.answer
  {
    ghost var found, filled := None, None;
    match r {
      case Insertion(fd, path, memoryOk) =>
        filled := area.Insert(fd, path, memoryOk);
        answer := Nothing;
      case Search(fd, kernelPath, memoryOk) =>
        var path;
        path, found, filled := area.Get(fd, kernelPath, memoryOk);
        answer := Path(path);
      case Deletion(fd) =>
        var suc;
        suc, found := area.DeleteFromRecord(fd);
        answer := Success(suc);
    }
    o := Outcome(answer, found, filled);
  }

  lemma ServedOnce(states: seq<CacheState>, capacity: nat, requests: seq<Request>, outcomes: seq<Outcome>,
                   o: Outcome, s': CacheState)
    requires ServedRun(states, capacity, requests, outcomes) && |outcomes| < |requests|
    requires Serves(states[|outcomes|], capacity, requests[|outcomes|], o, s')
    ensures ServedRun(states + [s'], capacity, requests, outcomes + [o])
    ensures Answers(outcomes + [o]) == Answers(outcomes) + [o.answer]
  {
    forall i | 0 <= i <= |outcomes|
      ensures ServesAt(states + [s'], capacity, requests, outcomes + [o], i)
    {
      assert i < |outcomes| ==> ServesAt(states, capacity, requests, outcomes, i);
    }
  }

  /** The run so far ends in s. */
  ghost predicate ServedTo(states: seq<CacheState>, capacity: nat, requests: seq<Request>, outcomes: seq<Outcome>,
                           s: CacheState) {
    ServedRun(states, capacity, requests, outcomes) && states[|outcomes|] == s
  }

  method ServeNext(area: FdArea, requests: seq<Request>, i: nat, ghost states: seq<CacheState>,
                   ghost outcomes: seq<Outcome>)
    returns (answer: Answer, ghost states': seq<CacheState>, ghost outcomes': seq<Outcome>)
    requires area.Valid() && i == |outcomes| < |requests|
    requires ServedTo(states, area.hotFdCache.Length, requests, outcomes, area.State())
    modifies area, area.hotFdCache, Members(area.Link)
    ensures area.Valid() && fresh(area.Footprint() - old(area.Footprint()))
    ensures ServedTo(states', area.hotFdCache.Length, requests, outcomes', area.State())
    ensures |outcomes'| == i + 1 && Answers(outcomes') == Answers(outcomes) + [answer]
  {
    ghost var o;
    answer, o := ServeOne(area, requests[i]);
    ServedOnce(states, area.hotFdCache.Length, requests, outcomes, o, area.State());
    states', outcomes' := states + [area.State()], outcomes + [o];
  }

  lemma EveryFdLikeMap(states: seq<CacheState>, capacity: nat, requests: seq<Request>, outcomes: seq<Outcome>)
    requires capacity >= 2 && ServedRun(states, capacity, requests, outcomes) && |outcomes| == |requests|
    ensures forall fd: Fd :: AdmissibleFrom(requests, fd, 0, |requests|) ==>
      AnswersLikeMap(requests, Answers(outcomes), fd)
  {
    forall fd: Fd | AdmissibleFrom(requests, fd, 0, |requests|)
      ensures AnswersLikeMap(requests, Answers(outcomes), fd)
    {
      RunAnswersLikeMap(states, capacity, requests, outcomes, fd);
    }
  }

  /** Any requests to a cache that fd_cache_initize has just set up, whatever it held before. */
  method ServeAll(area: FdArea, requests: seq<Request>)
    returns (answers: seq<Answer>, ghost states: seq<CacheState>, ghost outcomes: seq<Outcome>)
    requires area.hotFdCache.Length >= 2
    modifies area, area.hotFdCache
    ensures area.Valid() && ServedTo(states, area.hotFdCache.Length, requests, outcomes, area.State())
    ensures |outcomes| == |requests| && answers == Answers(outcomes)
    ensures forall fd: Fd :: AdmissibleFrom(requests, fd, 0, |requests|) ==> AnswersLikeMap(requests, answers, fd)
  {
    area.Initize();
    answers, states, outcomes := [], [EMPTY], [];
    for i := 0 to |requests|
      invariant area.Valid() && fresh(Members(area.Link))
      invariant ServedTo(states, area.hotFdCache.Length, requests, outcomes, area.State())
      invariant |outcomes| == i && answers == Answers(outcomes)
    {
      var answer;
      answer, states, outcomes := ServeNext(area, requests, i, states, outcomes);
      answers := answers + [answer];
    }
    EveryFdLikeMap(states, area.hotFdCache.Length, requests, outcomes);
  }

  /** So the condition of ServeAll is needed. */
  method ServeTwice(area: FdArea, fd: Fd) returns (answers: seq<Answer>)
    requires area.hotFdCache.Length >= 2
    modifies area, area.hotFdCache
    ensures |answers| == 4 && answers[3].Path? && answers[3].path.Some? && !AnswersLikeMap(Twice(fd), answers, fd)
  {
    ghost var states, outcomes;
    answers, states, outcomes := ServeAll(area, Twice(fd));
    DuplicateIsAnswered(states, area.hotFdCache.Length, fd, outcomes);
    assert answers[3] != AnswerOf(MapAt(Twice(fd), 3), Twice(fd)[3]);
  }
}
