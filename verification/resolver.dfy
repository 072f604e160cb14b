/** The resolution task of resolver.go: a name, the record types to ask for
    in order, the answers so far and the index of the next type. One call
    of `Do` is one worker step: take a server, ask it for the current type,
    and either leave the task as it was (the query failed), advance it and
    ask to be retried (more types remain), or turn it into a `Result`. The
    job queue that retries tasks and delivers results is not modelled. */
module Resolver {
  import O = Outcomes
  import opened Sorting
  import Dns
  import Pools

  /** The caller's metadata, copied verbatim; its values are opaque here. */
  type Meta = map<string, string>

  type Answers = map<string, seq<string>>

  datatype Task = Task(name: string, qtypes: seq<string>, meta: Meta, answers: Answers, qtypeIdx: nat)

  datatype Result = Result(name: string, answers: Answers, meta: Meta)

  /** Why a step crashed the worker. */
  datatype Panic =
    | InvalidQtypeIndex   // the explicit guard in `qtype`
    | IndexOutOfRange     // Go's runtime check on `Qtypes[qtypeIdx]`

  /** What one step hands back to the job queue: the task to run again
      (with the query error when it failed), the finished result, a crash,
      or a wait on an empty server buffer. */
  datatype Outcome =
    | Retry(task: Task, cause: O.Option<Dns.QueryError>)
    | Emit(result: Result)
    | Crash(reason: Panic)
    | Blocked

  datatype Step = Step(pool: Pools.Pool, outcome: Outcome)

  /** A task that has asked nothing yet. */
  predicate Fresh(t: Task)
  {
    t.answers == map[] && t.qtypeIdx == 0
  }

  /** `add`: the task the queue receives for a submission. */
  function Add(name: string, qtypes: seq<string>, meta: Meta): (t: Task)
    ensures Fresh(t)
    ensures t.name == name && t.qtypes == qtypes && t.meta == meta
    ensures Done(t) <==> |qtypes| == 0
  {
    Task(name, qtypes, meta, map[], 0)
  }

  /** `done`: as many answers as requested types. */
  predicate Done(t: Task)
  {
    |t.answers| == |t.qtypes|
  }

  /** `qtype` as written: the guard lets `qtypeIdx == |qtypes|` through, and
      the read that follows then fails Go's own bounds check. */
  function QTypeAsWritten(t: Task): (r: O.Result<string, Panic>)
    ensures r.Ok? <==> t.qtypeIdx < |t.qtypes|
    ensures r.Ok? ==> r.value == t.qtypes[t.qtypeIdx]
    ensures r == O.Err(IndexOutOfRange) <==> t.qtypeIdx == |t.qtypes|
  {
    if t.qtypeIdx > |t.qtypes| then O.Err(InvalidQtypeIndex)
    else if t.qtypeIdx < |t.qtypes| then O.Ok(t.qtypes[t.qtypeIdx])
    else O.Err(IndexOutOfRange)
  }

  /** The guard at its off-by-one input, on a state the program reaches: a
      task for `["A", "A"]` after both of its answers has one answer key, so
      it is not done and is stepped again; its index has reached the end,
      passes the guard and crashes on the read instead. */
  lemma QTypeGuardOffByOne()
    ensures var t := SetAnswer(SetAnswer(Add("example.com", ["A", "A"], map[]), "A", ["192.0.2.1"]), "A", ["192.0.2.1"]);
            && !Done(t)
            && t.qtypeIdx == |t.qtypes| == 2
            && QTypeAsWritten(t) == O.Err(IndexOutOfRange)
  {
  }

  /** `qtype` with the guard the message intends (`>=`): every index that
      cannot be read is caught by the guard itself. */
  function QType(t: Task): (r: O.Result<string, Panic>)
    ensures r.Ok? <==> t.qtypeIdx < |t.qtypes|
    ensures r.Ok? ==> r.value == t.qtypes[t.qtypeIdx]
    ensures r.Err? ==> r.error == InvalidQtypeIndex
  {
    if t.qtypeIdx >= |t.qtypes| then O.Err(InvalidQtypeIndex)
    else O.Ok(t.qtypes[t.qtypeIdx])
  }

  /** The correction changes only how the off-by-one index fails: both
      guards read the same type from every readable index, and both refuse
      every other index. */
  lemma QTypeCorrectionAgrees(t: Task)
    ensures QType(t).Ok? <==> QTypeAsWritten(t).Ok?
    ensures QType(t).Ok? ==> QType(t) == QTypeAsWritten(t)
    ensures t.qtypeIdx == |t.qtypes| ==> QType(t) == O.Err(InvalidQtypeIndex) && QTypeAsWritten(t) == O.Err(IndexOutOfRange)
    ensures t.qtypeIdx != |t.qtypes| ==> QType(t) == QTypeAsWritten(t)
  {
  }

  /** `setAnswer(q, a)`: `q` now maps to `a`, every other type keeps its
      answer, and the index moves on by one. */
  function SetAnswer(t: Task, q: string, a: seq<string>): (r: Task)
    ensures q in r.answers && r.answers[q] == a
    ensures forall k :: k != q ==> (k in r.answers <==> k in t.answers)
    ensures forall k :: k != q && k in t.answers ==> r.answers[k] == t.answers[k]
    ensures r.qtypeIdx == t.qtypeIdx + 1
    ensures r.name == t.name && r.qtypes == t.qtypes && r.meta == t.meta
  {
    t.(answers := t.answers[q := a], qtypeIdx := t.qtypeIdx + 1)
  }

  /** `done` counts answered types, so answering a type that already has an
      answer does not bring the task any closer to done. */
  lemma DoneProgress(t: Task, q: string, a: seq<string>)
    ensures |SetAnswer(t, q, a).answers| == |t.answers| + (if q in t.answers then 0 else 1)
    ensures Done(SetAnswer(t, q, a)) <==> |t.answers| + (if q in t.answers then 0 else 1) == |t.qtypes|
  {
    var r := SetAnswer(t, q, a);
    if q in t.answers {
      assert r.answers.Keys == t.answers.Keys;
    } else {
      assert r.answers.Keys == t.answers.Keys + {q};
    }
  }

  /** The terminal projection of a task. */
  function ResultOf(t: Task): Result
  {
    Result(t.name, t.answers, t.meta)
  }

  /** The rest of a step once server and query type are fixed: a failed
      query leaves the task untouched; an answer is recorded, and the task
      either asks to be retried for its next type or becomes a result. */
  function Continue(t: Task, q: string, reply: O.Result<seq<string>, Dns.QueryError>): (o: Outcome)
    ensures reply.Err? ==> o == Retry(t, O.Some(reply.error))
    ensures reply.Ok? ==> o.Retry? || o.Emit?
    ensures o.Retry? && reply.Ok? ==> o.task == SetAnswer(t, q, reply.value) && !Done(o.task) && o.cause.None?
    ensures o.Emit? ==> reply.Ok? && Done(SetAnswer(t, q, reply.value)) && o.result == ResultOf(SetAnswer(t, q, reply.value))
  {
    match reply
    case Err(e) => Retry(t, O.Some(e))
    case Ok(a) =>
      var next := SetAnswer(t, q, a);
      if !Done(next) then Retry(next, O.None) else Emit(ResultOf(next))
  }

  /** `do`: one worker step against the pool, with `qtype`'s guard as
      written. The server taken is never put back; its query counter goes up
      whatever the query returns. */
  function Do(p: Pools.Pool, t: Task, exchange: Dns.Exchanger): (s: Step)
    requires Pools.Valid(p)
    ensures Pools.Valid(s.pool) && Pools.SameServers(p, s.pool)
    ensures s.outcome.Blocked? <==> |p.ready| == 0
    ensures s.outcome.Blocked? ==> s.pool == p
    ensures !s.outcome.Blocked? ==> s.pool.ready == p.ready[1..]
    ensures s.pool.capacity == p.capacity && s.pool.rate == p.rate
    ensures s.outcome.Crash? ==> s.pool.servers == p.servers
    ensures s.outcome.Crash? <==> |p.ready| > 0 && t.qtypeIdx >= |t.qtypes|
    ensures s.outcome.Crash? ==> (s.outcome.reason == IndexOutOfRange <==> t.qtypeIdx == |t.qtypes|)
    ensures s.outcome.Retry? && s.outcome.cause.Some? ==> s.outcome.task == t
    ensures s.outcome.Retry? ==> s.outcome.task.qtypeIdx <= t.qtypeIdx + 1
    ensures |p.ready| > 0 && t.qtypeIdx < |t.qtypes| ==>
              var server := p.ready[0];
              var q := t.qtypes[t.qtypeIdx];
              && s.pool.servers[server].queriesCount == p.servers[server].queriesCount + 1
              && (forall j :: 0 <= j < |p.servers| && j != server ==> s.pool.servers[j] == p.servers[j])
              && s.outcome == Continue(t, q, Dns.Query(p.servers[server].ip, t.name, q, exchange))
  {
    match Pools.Take(p)
    case None => Step(p, Blocked)
    case Some(taken) =>
      match QTypeAsWritten(t)
      case Err(reason) => Step(taken.pool, Crash(reason))
      case Ok(q) =>
        var queried := Pools.ServerQuery(taken.pool, taken.server, t.name, q, exchange);
        Step(queried.pool, Continue(t, q, queried.reply))
  }

  /** The answers a task holds after its first `|rs|` types were answered
      with `rs`, in order; a later answer for a repeated type replaces the
      earlier one. */
  function Recorded(qs: seq<string>, rs: seq<seq<string>>): (m: Answers)
    requires |rs| <= |qs|
    ensures m.Keys == set i | 0 <= i < |rs| :: qs[i]
  {
    if |rs| == 0 then map[]
    else
      var k := |rs| - 1;
      assert qs[..k] == qs[..|qs|][..k];
      Recorded(qs, rs[..k])[qs[k] := rs[k]]
  }

  /** The task after `|rs|` successful steps. */
  function Snapshot(name: string, qs: seq<string>, meta: Meta, rs: seq<seq<string>>): Task
    requires |rs| <= |qs|
  {
    Task(name, qs, meta, Recorded(qs, rs), |rs|)
  }

  /** The task driven through successful queries answering `rs`, one step
      per element, until it emits, crashes or `rs` runs out. */
  function RunOk(t: Task, rs: seq<seq<string>>): Outcome
    decreases |rs|
  {
    if |rs| == 0 then Retry(t, O.None)
    else
      match QTypeAsWritten(t)
      case Err(reason) => Crash(reason)
      case Ok(q) =>
        match Continue(t, q, O.Ok(rs[0]))
        case Retry(next, _) => RunOk(next, rs[1..])
        case other => other
  }

  predicate Distinct(qs: seq<string>)
  {
    forall i, j :: 0 <= i < j < |qs| ==> qs[i] != qs[j]
  }

  /** A list has as many different elements as entries exactly when no
      entry repeats. */
  lemma {:induction false} DistinctCount(qs: seq<string>, k: nat)
    requires k <= |qs|
    ensures |set i | 0 <= i < k :: qs[i]| <= k
    ensures Distinct(qs[..k]) <==> |set i | 0 <= i < k :: qs[i]| == k
  {
    if k > 0 {
      DistinctCount(qs, k - 1);
      var before := set i | 0 <= i < k - 1 :: qs[i];
      assert (set i | 0 <= i < k :: qs[i]) == before + {qs[k - 1]};
      if Distinct(qs[..k]) {
        assert Distinct(qs[..k - 1]) by {
          assert forall i, j :: 0 <= i < j < k - 1 ==> qs[..k - 1][i] == qs[..k][i] && qs[..k - 1][j] == qs[..k][j];
        }
        assert qs[k - 1] !in before;
      } else {
        var i, j :| 0 <= i < j < k && qs[..k][i] == qs[..k][j];
        if j == k - 1 {
          assert qs[k - 1] in before;
        } else {
          assert !Distinct(qs[..k - 1]) by {
            assert qs[..k - 1][i] == qs[..k - 1][j];
          }
        }
      }
    }
  }

  /** For distinct types, a task that has taken `k` answers holds exactly
      the first `k` types, the i-th with the i-th answer, and is done exactly
      when every type is answered. */
  lemma {:induction false} RecordedDistinct(qs: seq<string>, rs: seq<seq<string>>, i: nat)
    requires |rs| <= |qs| && Distinct(qs) && i < |rs|
    ensures qs[i] in Recorded(qs, rs) && Recorded(qs, rs)[qs[i]] == rs[i]
    decreases |rs|
  {
    var k := |rs| - 1;
    if i < k {
      RecordedDistinct(qs, rs[..k], i);
      assert rs[..k][i] == rs[i];
    }
  }

  lemma SnapshotDone(name: string, qs: seq<string>, meta: Meta, rs: seq<seq<string>>)
    requires |rs| <= |qs|
    ensures Distinct(qs) ==> (Done(Snapshot(name, qs, meta, rs)) <==> |rs| == |qs|)
    ensures !Distinct(qs) ==> !Done(Snapshot(name, qs, meta, rs))
  {
    var keys := Recorded(qs, rs).Keys;
    DistinctCount(qs, |rs|);
    DistinctCount(qs, |qs|);
    assert qs[..|qs|] == qs;
    if Distinct(qs) {
      assert Distinct(qs[..|rs|]) by {
        assert forall i, j :: 0 <= i < j < |rs| ==> qs[..|rs|][i] == qs[i] && qs[..|rs|][j] == qs[j];
      }
    } else {
      assert keys <= set i | 0 <= i < |qs| :: qs[i];
    }
  }

  /** One successful step from the snapshot after `k` answers. */
  lemma StepFromSnapshot(name: string, qs: seq<string>, meta: Meta, rs: seq<seq<string>>, k: nat)
    requires k < |rs| <= |qs|
    ensures QTypeAsWritten(Snapshot(name, qs, meta, rs[..k])) == O.Ok(qs[k])
    ensures SetAnswer(Snapshot(name, qs, meta, rs[..k]), qs[k], rs[k]) == Snapshot(name, qs, meta, rs[..k + 1])
  {
    assert rs[..k + 1][..k] == rs[..k];
  }

  /** From the snapshot after `k` answers, with distinct types, feeding the
      remaining answers retries until the last type and then emits the
      full result. */
  lemma {:induction false} RunFromDistinct(name: string, qs: seq<string>, meta: Meta, rs: seq<seq<string>>, k: nat)
    requires Distinct(qs) && k <= |rs| <= |qs| && k < |qs|
    ensures RunOk(Snapshot(name, qs, meta, rs[..k]), rs[k..]) ==
            if |rs| < |qs| then Retry(Snapshot(name, qs, meta, rs), O.None)
            else Emit(Result(name, Recorded(qs, rs), meta))
    decreases |rs| - k
  {
    var t := Snapshot(name, qs, meta, rs[..k]);
    if k == |rs| {
      assert rs[..k] == rs;
    } else {
      StepFromSnapshot(name, qs, meta, rs, k);
      var next := Snapshot(name, qs, meta, rs[..k + 1]);
      SnapshotDone(name, qs, meta, rs[..k + 1]);
      assert rs[k..][1..] == rs[k + 1..];
      if k + 1 < |qs| {
        RunFromDistinct(name, qs, meta, rs, k + 1);
      } else {
        assert rs[..k + 1] == rs;
      }
    }
  }

  /** With non-empty, pairwise-distinct types: after `k < n` successful
      steps the task is retried holding exactly the first `k` types, the
      i-th with the i-th answer, at index `k`; the `n`-th successful step,
      and no earlier one, emits the result, with the task's name and
      metadata and an answer for every type. */
  lemma ResolveDistinct(name: string, qs: seq<string>, meta: Meta, rs: seq<seq<string>>)
    requires 0 < |qs| && Distinct(qs) && |rs| <= |qs|
    ensures |rs| < |qs| ==>
              && RunOk(Add(name, qs, meta), rs) == Retry(Snapshot(name, qs, meta, rs), O.None)
              && Snapshot(name, qs, meta, rs).answers.Keys == (set i | 0 <= i < |rs| :: qs[i])
              && !Done(Snapshot(name, qs, meta, rs))
              && QTypeAsWritten(Snapshot(name, qs, meta, rs)).Ok?
    ensures |rs| == |qs| ==>
              && RunOk(Add(name, qs, meta), rs) == Emit(Result(name, Recorded(qs, rs), meta))
              && Recorded(qs, rs).Keys == (set i | 0 <= i < |qs| :: qs[i])
    ensures forall i :: 0 <= i < |rs| ==> Recorded(qs, rs)[qs[i]] == rs[i]
  {
    assert rs[..0] == [];
    RunFromDistinct(name, qs, meta, rs, 0);
    assert rs[0..] == rs;
    SnapshotDone(name, qs, meta, rs);
    forall i | 0 <= i < |rs|
      ensures Recorded(qs, rs)[qs[i]] == rs[i]
    {
      RecordedDistinct(qs, rs, i);
    }
  }

  /** From the snapshot after `k` answers, with a repeated type, no step
      ever reaches `done`: every answer only retries. */
  lemma {:induction false} RunFromRepeated(name: string, qs: seq<string>, meta: Meta, rs: seq<seq<string>>, k: nat)
    requires !Distinct(qs) && k <= |rs| <= |qs|
    ensures RunOk(Snapshot(name, qs, meta, rs[..k]), rs[k..]) == Retry(Snapshot(name, qs, meta, rs), O.None)
    decreases |rs| - k
  {
    if k == |rs| {
      assert rs[..k] == rs;
    } else {
      StepFromSnapshot(name, qs, meta, rs, k);
      SnapshotDone(name, qs, meta, rs[..k + 1]);
      assert rs[k..][1..] == rs[k + 1..];
      RunFromRepeated(name, qs, meta, rs, k + 1);
    }
  }

  /** With a repeated type the map can never hold as many keys as there are
      types: after one successful step per type the task is still retried,
      its index has reached the end, and the next step passes the guard and
      crashes on the read. */
  lemma ResolveRepeated(name: string, qs: seq<string>, meta: Meta, rs: seq<seq<string>>, extra: seq<string>)
    requires !Distinct(qs) && |rs| == |qs|
    ensures RunOk(Add(name, qs, meta), rs) == Retry(Snapshot(name, qs, meta, rs), O.None)
    ensures Snapshot(name, qs, meta, rs).qtypeIdx == |qs|
    ensures !Done(Snapshot(name, qs, meta, rs))
    ensures RunOk(Snapshot(name, qs, meta, rs), [extra]) == Crash(IndexOutOfRange)
  {
    assert rs[..0] == [];
    assert rs[0..] == rs;
    RunFromRepeated(name, qs, meta, rs, 0);
    SnapshotDone(name, qs, meta, rs);
  }

  /** An empty type list is done at once, yet its first step reads index 0,
      which the guard lets through, and crashes on the read before `done` is
      consulted. */
  lemma EmptyQtypesCrash(p: Pools.Pool, name: string, meta: Meta, exchange: Dns.Exchanger)
    requires Pools.Valid(p) && |p.ready| > 0
    ensures Done(Add(name, [], meta))
    ensures Do(p, Add(name, [], meta), exchange).outcome == Crash(IndexOutOfRange)
  {
  }

  /** A failed query changes nothing in the task, whatever state it is in. */
  lemma FailureLeavesTask(p: Pools.Pool, t: Task, exchange: Dns.Exchanger)
    requires Pools.Valid(p) && |p.ready| > 0 && t.qtypeIdx < |t.qtypes|
    requires |t.name| > 0 && t.qtypes[t.qtypeIdx] in Dns.QtypeMap
    requires exchange(Dns.Request(t.name, t.qtypes[t.qtypeIdx]), Dns.GetAddr(p.servers[p.ready[0]].ip)).TransportError?
    ensures Do(p, t, exchange).outcome.Retry?
    ensures Do(p, t, exchange).outcome.task == t
    ensures Do(p, t, exchange).outcome.cause.Some?
  {
  }

  /** `SortAnswers`: every answer list sorted in Go's string order; keys,
      name and metadata untouched. */
  function SortAnswers(r: Result): (s: Result)
    ensures s.name == r.name && s.meta == r.meta
    ensures s.answers.Keys == r.answers.Keys
    ensures forall k :: k in s.answers ==> Sorted(s.answers[k]) && multiset(s.answers[k]) == multiset(r.answers[k])
  {
    r.(answers := map k | k in r.answers :: Sort(r.answers[k]))
  }

  /** Sorting the answers twice is sorting them once. */
  lemma SortAnswersIdempotent(r: Result)
    ensures SortAnswers(SortAnswers(r)) == SortAnswers(r)
  {
    var once := SortAnswers(r);
    forall k | k in once.answers
      ensures Sort(once.answers[k]) == once.answers[k]
    {
      SortSorted(once.answers[k]);
    }
  }

  /** `IsEmpty`: sums the lengths of all answer lists, visiting the types in
      whatever order, and reports whether the sum is zero. */
  method IsEmpty(r: Result) returns (empty: bool)
    ensures empty <==> forall k :: k in r.answers ==> |r.answers[k]| == 0
  {
    var count := 0;
    var left := r.answers.Keys;
    while left != {}
      invariant left <= r.answers.Keys
      invariant count >= 0
      invariant count == 0 <==> forall k :: k in r.answers && k !in left ==> |r.answers[k]| == 0
      decreases left
    {
      var k :| k in left;
      count := count + |r.answers[k]|;
      left := left - {k};
    }
    empty := count == 0;
  }
}
