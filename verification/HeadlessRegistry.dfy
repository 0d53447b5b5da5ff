// The registry of headless task runs: at most eight running, at most two hundred kept,
// the oldest finished ones pruned, and no zombie "running" after a restart.
module HeadlessRegistry {
  import opened Common

  const MAX_RECORDS: nat := 200
  const MAX_CONCURRENT: nat := 8

  datatype Status = Running | Done | Failed | Interrupted

  datatype Task = Task(id: nat, status: Status, startedAt: int, finishedAt: Option<int>)

  function RunningOf(ts: seq<Task>): seq<Task> {
    if ts == [] then [] else (if ts[0].status.Running? then [ts[0]] else []) + RunningOf(ts[1..])
  }

  function FinishedOf(ts: seq<Task>): seq<Task> {
    if ts == [] then [] else (if ts[0].status.Running? then [] else [ts[0]]) + FinishedOf(ts[1..])
  }

  /** ts without its first n finished tasks. */
  function DropFinished(ts: seq<Task>, n: nat): seq<Task> {
    if ts == [] || n == 0 then ts
    else if ts[0].status.Running? then [ts[0]] + DropFinished(ts[1..], n)
    else DropFinished(ts[1..], n - 1)
  }

  /** What a flush keeps. */
  function Pruned(ts: seq<Task>): seq<Task> {
    if |ts| > MAX_RECORDS then DropFinished(ts, |ts| - MAX_RECORDS) else ts
  }

  /** Boot fixup: a leftover running task is a zombie of a dead process. */
  function Reconciled(t: Task): Task {
    if t.status.Running? then Task(t.id, Interrupted, t.startedAt, Some(if t.finishedAt.Some? then t.finishedAt.value else t.startedAt))
    else t
  }

  function ReconcileAll(ts: seq<Task>): (r: seq<Task>)
    ensures |r| == |ts|
    ensures forall i :: 0 <= i < |ts| ==> r[i] == Reconciled(ts[i])
  {
    seq(|ts|, i requires 0 <= i < |ts| => Reconciled(ts[i]))
  }

  predicate DistinctIds(ts: seq<Task>) {
    forall i, j :: 0 <= i < j < |ts| ==> ts[i].id != ts[j].id
  }

  /** find by id; the length when there is none. */
  function IndexOfId(ts: seq<Task>, id: nat): (i: nat)
    ensures i <= |ts|
    ensures i < |ts| ==> ts[i].id == id
    ensures forall j :: 0 <= j < i ==> ts[j].id != id
  {
    if ts == [] || ts[0].id == id then 0 else 1 + IndexOfId(ts[1..], id)
  }

  // ---------------------------------------------------------------- pruning

  predicate Subsequence(a: seq<Task>, b: seq<Task>) {
    if a == [] then true
    else if b == [] then false
    else if a[0] == b[0] then Subsequence(a[1..], b[1..])
    else Subsequence(a, b[1..])
  }

  lemma CountsAdd(ts: seq<Task>)
    ensures |RunningOf(ts)| + |FinishedOf(ts)| == |ts|
  {
  }

  lemma {:induction false} SubsequenceSelf(ts: seq<Task>)
    ensures Subsequence(ts, ts)
  {
    if ts != [] {
      SubsequenceSelf(ts[1..]);
    }
  }

  lemma {:induction false} SubsequenceTail(a: seq<Task>, b: seq<Task>)
    requires a != [] && Subsequence(a, b)
    ensures Subsequence(a[1..], b)
    decreases |b|
  {
    if a[0] != b[0] {
      SubsequenceTail(a, b[1..]);
    }
    if |a| > 1 && a[1] == b[0] {
      SubsequenceTail(a[1..], b[1..]);
    }
  }

  lemma SubsequenceSkip(a: seq<Task>, b: seq<Task>)
    requires b != [] && Subsequence(a, b[1..])
    ensures Subsequence(a, b)
  {
    if a != [] && a[0] == b[0] {
      SubsequenceTail(a, b[1..]);
    }
  }

  lemma {:induction false} DropKeepsOrder(ts: seq<Task>, n: nat)
    ensures Subsequence(DropFinished(ts, n), ts)
  {
    if ts == [] || n == 0 {
      SubsequenceSelf(ts);
    } else if ts[0].status.Running? {
      DropKeepsOrder(ts[1..], n);
      var kept := [ts[0]] + DropFinished(ts[1..], n);
      assert kept[1..] == DropFinished(ts[1..], n);
    } else {
      DropKeepsOrder(ts[1..], n - 1);
      SubsequenceSkip(DropFinished(ts, n), ts);
    }
  }

  lemma {:induction false} DropKeepsRunning(ts: seq<Task>, n: nat)
    ensures RunningOf(DropFinished(ts, n)) == RunningOf(ts)
  {
    if ts != [] && n > 0 {
      var rest := DropFinished(ts[1..], if ts[0].status.Running? then n else n - 1);
      DropKeepsRunning(ts[1..], if ts[0].status.Running? then n else n - 1);
      assert ([ts[0]] + rest)[1..] == rest;
    }
  }

  lemma {:induction false} DropTakesOldest(ts: seq<Task>, n: nat)
    ensures FinishedOf(DropFinished(ts, n)) == FinishedOf(ts)[Min(n, |FinishedOf(ts)|)..]
  {
    if ts != [] && n > 0 {
      var rest := DropFinished(ts[1..], if ts[0].status.Running? then n else n - 1);
      DropTakesOldest(ts[1..], if ts[0].status.Running? then n else n - 1);
      if ts[0].status.Running? {
        assert ([ts[0]] + rest)[1..] == rest;
        assert FinishedOf(ts) == FinishedOf(ts[1..]);
      } else {
        assert FinishedOf(ts) == [ts[0]] + FinishedOf(ts[1..]);
      }
    }
  }

  /** Main result for pruning: every running task stays, of the finished ones exactly the oldest n go,
      and what stays keeps its order. */
  lemma DropFinishedFacts(ts: seq<Task>, n: nat)
    ensures RunningOf(DropFinished(ts, n)) == RunningOf(ts)
    ensures FinishedOf(DropFinished(ts, n)) == FinishedOf(ts)[Min(n, |FinishedOf(ts)|)..]
    ensures Subsequence(DropFinished(ts, n), ts)
    ensures |DropFinished(ts, n)| == |ts| - Min(n, |FinishedOf(ts)|)
  {
    DropKeepsRunning(ts, n);
    DropTakesOldest(ts, n);
    DropKeepsOrder(ts, n);
    CountsAdd(ts);
    CountsAdd(DropFinished(ts, n));
  }

  /** The ids of the finished tasks, oldest first. */
  function FinishedIds(ts: seq<Task>): (r: seq<nat>)
    ensures |r| == |FinishedOf(ts)|
  {
    if ts == [] then [] else (if ts[0].status.Running? then [] else [ts[0].id]) + FinishedIds(ts[1..])
  }

  function WithoutIds(ts: seq<Task>, ids: set<nat>): seq<Task> {
    if ts == [] then [] else (if ts[0].id in ids then [] else [ts[0]]) + WithoutIds(ts[1..], ids)
  }

  lemma {:induction false} FinishedIdsAreIds(ts: seq<Task>, id: nat)
    requires id in FinishedIds(ts)
    ensures exists i :: 0 <= i < |ts| && ts[i].id == id
  {
    if !ts[0].status.Running? && ts[0].id == id {
    } else {
      FinishedIdsAreIds(ts[1..], id);
      var i :| 0 <= i < |ts[1..]| && ts[1..][i].id == id;
      assert ts[i + 1].id == id;
    }
  }

  lemma {:induction false} WithoutAbsentIds(ts: seq<Task>, ids: set<nat>)
    requires forall i :: 0 <= i < |ts| ==> ts[i].id !in ids
    ensures WithoutIds(ts, ids) == ts
  {
    if ts != [] {
      WithoutAbsentIds(ts[1..], ids);
    }
  }

  /** An id that none of ts has makes no difference to filtering ts. */
  lemma {:induction false} WithoutMore(ts: seq<Task>, ids: set<nat>, id: nat)
    requires forall i :: 0 <= i < |ts| ==> ts[i].id != id
    ensures WithoutIds(ts, ids + {id}) == WithoutIds(ts, ids)
  {
    if ts != [] {
      WithoutMore(ts[1..], ids, id);
    }
  }

  function IdSet(ids: seq<nat>): set<nat> {
    set id | id in ids
  }

  lemma IdSetOfCons(id: nat, ids: seq<nat>)
    ensures IdSet([id] + ids) == IdSet(ids) + {id}
  {
  }

  /** Filtering by the set of the oldest finished ids is dropping the oldest finished. */
  lemma {:induction false} WithoutIdsIsDrop(ts: seq<Task>, n: nat)
    requires DistinctIds(ts) && n <= |FinishedIds(ts)|
    ensures WithoutIds(ts, IdSet(FinishedIds(ts)[..n])) == DropFinished(ts, n)
  {
    hide DistinctIds, FinishedOf, FinishedIds, WithoutIds, DropFinished, IdSet;
    if ts == [] || n == 0 {
      NothingDropped(ts, n);
    } else {
      var t, rest := ts[0], ts[1..];
      assert ts == [t] + rest;
      DistinctRest(ts);
      FinishedIdsOfCons(t, rest);
      DropOfCons(t, rest, n);
      if t.status.Running? {
        WithoutIdsIsDrop(rest, n);
        OthersFinished(rest, t.id, n);
        WithoutKeepsFirst(t, rest, IdSet(FinishedIds(rest)[..n]));
      } else {
        WithoutIdsIsDrop(rest, n - 1);
        WithoutFirst(t, rest, FinishedIds(rest)[..n - 1]);
        assert FinishedIds(ts)[..n] == [t.id] + FinishedIds(rest)[..n - 1];
      }
    }
  }

  lemma NothingDropped(ts: seq<Task>, n: nat)
    requires (ts == [] || n == 0) && n <= |FinishedIds(ts)|
    ensures WithoutIds(ts, IdSet(FinishedIds(ts)[..n])) == DropFinished(ts, n)
  {
    WithoutAbsentIds(ts, IdSet([]));
    assert FinishedIds(ts)[..0] == [];
  }

  lemma FinishedIdsOfCons(t: Task, rest: seq<Task>)
    ensures FinishedIds([t] + rest) == if t.status.Running? then FinishedIds(rest) else [t.id] + FinishedIds(rest)
  {
    assert ([t] + rest)[1..] == rest;
  }

  lemma DropOfCons(t: Task, rest: seq<Task>, n: nat)
    requires n > 0
    ensures DropFinished([t] + rest, n)
            == if t.status.Running? then [t] + DropFinished(rest, n) else DropFinished(rest, n - 1)
  {
    assert ([t] + rest)[1..] == rest;
  }

  lemma WithoutKeepsFirst(t: Task, rest: seq<Task>, ids: set<nat>)
    requires t.id !in ids
    ensures WithoutIds([t] + rest, ids) == [t] + WithoutIds(rest, ids)
  {
    assert ([t] + rest)[1..] == rest;
  }

  lemma WithoutFirst(t: Task, rest: seq<Task>, older: seq<nat>)
    requires forall i :: 0 <= i < |rest| ==> rest[i].id != t.id
    ensures WithoutIds([t] + rest, IdSet([t.id] + older)) == WithoutIds(rest, IdSet(older))
  {
    IdSetOfCons(t.id, older);
    WithoutMore(rest, IdSet(older), t.id);
    assert ([t] + rest)[1..] == rest;
    assert [] + WithoutIds(rest, IdSet(older) + {t.id}) == WithoutIds(rest, IdSet(older));
  }

  lemma OthersFinished(ts: seq<Task>, id: nat, n: nat)
    requires n <= |FinishedIds(ts)| && forall i :: 0 <= i < |ts| ==> ts[i].id != id
    ensures id !in IdSet(FinishedIds(ts)[..n])
  {
    if id in FinishedIds(ts) {
      FinishedIdsAreIds(ts, id);
    }
  }

  // ---------------------------------------------------------------- every interleaving

  /** The registry, the file as last renamed into place, what the flushes under way are writing, the
      children of this process, fresh ids. */
  datatype Registry = Registry(
    tasks: seq<Task>, disk: seq<Task>, writing: seq<seq<Task>>, children: set<nat>, nextId: nat)

  /** A flush serializes the records, and later its rename lands or it fails; flushes are not queued,
      so an older one may land last. A restart reads the file, or starts clean when it cannot. */
  datatype Event =
    | Dispatch(now: int)
    | Completes(id: nat, status: Status, now: int)
    | Serialize
    | Land(flush: nat)
    | Restart(readable: bool)

  const EMPTY := Registry([], [], [], {}, 0)

  function RunningCount(ts: seq<Task>): nat {
    |RunningOf(ts)|
  }

  function Step(s: Registry, e: Event): Registry {
    match e
    case Dispatch(now) =>
      if RunningCount(s.tasks) >= MAX_CONCURRENT then s
      else
        s.(tasks := Pruned(s.tasks + [Task(s.nextId, Running, now, None)]), children := s.children + {s.nextId}, nextId := s.nextId + 1)
    case Completes(id, status, now) =>
      if id !in s.children || status.Running? then s
      else
        var i := IndexOfId(s.tasks, id);
        if i == |s.tasks| then s.(children := s.children - {id})
        else s.(tasks := Pruned(s.tasks[i := s.tasks[i].(status := status, finishedAt := Some(now))]), children := s.children - {id})
    case Serialize => s.(writing := s.writing + [s.tasks])
    case Land(k) => if k < |s.writing| then s.(disk := s.writing[k]) else s
    case Restart(readable) =>
      s.(tasks := ReconcileAll(if readable then s.disk else []), writing := [], children := {})
  }

  function Run(s: Registry, events: seq<Event>): Registry {
    if events == [] then s else Step(Run(s, events[..|events| - 1]), events[|events| - 1])
  }

  /** Bounded, uniquely numbered, and at most eight running. */
  predicate Bounded(ts: seq<Task>, nextId: nat) {
    && |ts| <= MAX_RECORDS
    && RunningCount(ts) <= MAX_CONCURRENT
    && DistinctIds(ts)
    && forall i :: 0 <= i < |ts| ==> ts[i].id < nextId
  }

  /** The running records are those of this process's children. */
  predicate Tracks(ts: seq<Task>, children: set<nat>) {
    && (forall i :: 0 <= i < |ts| ==> (ts[i].status.Running? <==> ts[i].id in children))
    && (forall id :: id in children ==> HasId(ts, id))
  }

  predicate HasId(ts: seq<Task>, id: nat) {
    exists i :: 0 <= i < |ts| && ts[i].id == id
  }

  predicate AllBounded(snapshots: seq<seq<Task>>, nextId: nat) {
    forall k :: 0 <= k < |snapshots| ==> Bounded(snapshots[k], nextId)
  }

  lemma MoreIds(ts: seq<Task>, snapshots: seq<seq<Task>>, nextId: nat)
    requires Bounded(ts, nextId) && AllBounded(snapshots, nextId)
    ensures Bounded(ts, nextId + 1) && AllBounded(snapshots, nextId + 1)
  {
    hide RunningOf;
  }

  predicate Inv(s: Registry) {
    && Bounded(s.tasks, s.nextId)
    && Bounded(s.disk, s.nextId)
    && AllBounded(s.writing, s.nextId)
    && Tracks(s.tasks, s.children)
  }

  lemma {:induction false} RunningOfAppend(ts: seq<Task>, t: Task)
    ensures RunningOf(ts + [t]) == RunningOf(ts) + (if t.status.Running? then [t] else [])
  {
    if ts == [] {
      assert [t][1..] == [] && [] + [t] == [t];
    } else {
      RunningOfAppend(ts[1..], t);
      assert (ts + [t])[1..] == ts[1..] + [t];
    }
  }

  lemma {:induction false} RunningOfUpdate(ts: seq<Task>, i: nat, t: Task)
    requires i < |ts| && !t.status.Running?
    ensures |RunningOf(ts[i := t])| <= |RunningOf(ts)|
  {
    if i == 0 {
      assert ts[i := t][1..] == ts[1..];
    } else {
      RunningOfUpdate(ts[1..], i - 1, t);
      assert ts[i := t][1..] == ts[1..][i - 1 := t];
    }
  }

  lemma {:induction false} NoneRunning(ts: seq<Task>)
    requires forall i :: 0 <= i < |ts| ==> !ts[i].status.Running?
    ensures RunningOf(ts) == []
  {
    if ts != [] {
      NoneRunning(ts[1..]);
    }
  }

  /** Membership through pruning: nothing new, and no running task lost. */
  lemma {:induction false} DropMembers(ts: seq<Task>, n: nat)
    ensures forall t :: t in DropFinished(ts, n) ==> t in ts
    ensures forall t :: t in ts && t.status.Running? ==> t in DropFinished(ts, n)
  {
    if ts != [] && n > 0 {
      var rest := ts[1..];
      DropMembers(rest, if ts[0].status.Running? then n else n - 1);
      assert ts == [ts[0]] + rest;
    }
  }

  lemma DistinctCons(t: Task, kept: seq<Task>, rest: seq<Task>)
    requires DistinctIds([t] + rest) && DistinctIds(kept)
    requires forall k :: k in kept ==> k in rest
    ensures DistinctIds([t] + kept)
  {
    forall i, j | 0 <= i < j < |[t] + kept|
      ensures ([t] + kept)[i].id != ([t] + kept)[j].id
    {
      if i == 0 {
        assert kept[j - 1] in rest;
        var k :| 0 <= k < |rest| && rest[k] == kept[j - 1];
        assert ([t] + rest)[k + 1].id != ([t] + rest)[0].id;
      } else {
        assert kept[i - 1].id != kept[j - 1].id;
      }
    }
  }

  lemma DistinctRest(ts: seq<Task>)
    requires ts != [] && DistinctIds(ts)
    ensures DistinctIds(ts[1..]) && forall i :: 0 <= i < |ts| - 1 ==> ts[1..][i].id != ts[0].id
  {
    var rest := ts[1..];
    assert forall i :: 0 <= i < |rest| ==> rest[i] == ts[i + 1];
    forall i, j | 0 <= i < j < |rest|
      ensures rest[i].id != rest[j].id
    {
      assert rest[i] == ts[i + 1] && rest[j] == ts[j + 1];
    }
  }

  lemma {:induction false} DropKeepsDistinct(ts: seq<Task>, n: nat)
    requires DistinctIds(ts)
    ensures DistinctIds(DropFinished(ts, n))
  {
    if ts != [] && n > 0 {
      var rest := ts[1..];
      var m := if ts[0].status.Running? then n else n - 1;
      DistinctRest(ts);
      DropKeepsDistinct(rest, m);
      DropMembers(rest, m);
      assert ts == [ts[0]] + rest;
      hide DistinctIds;
      DistinctCons(ts[0], DropFinished(rest, m), rest);
    }
  }

  lemma PrunedKeeps(ts: seq<Task>, children: set<nat>, nextId: nat)
    requires |ts| <= MAX_RECORDS + 1 && RunningCount(ts) <= MAX_CONCURRENT && DistinctIds(ts)
    requires forall i :: 0 <= i < |ts| ==> ts[i].id < nextId
    requires Tracks(ts, children)
    ensures Bounded(Pruned(ts), nextId) && Tracks(Pruned(ts), children)
  {
    if |ts| > MAX_RECORDS {
      var kept := DropFinished(ts, 1);
      CountsAdd(ts);
      DropFinishedFacts(ts, 1);
      DropMembers(ts, 1);
      DropKeepsDistinct(ts, 1);
      forall i | 0 <= i < |kept|
        ensures kept[i].id < nextId && (kept[i].status.Running? <==> kept[i].id in children)
      {
        assert kept[i] in ts;
      }
      forall id | id in children
        ensures HasId(kept, id)
      {
        assert HasId(ts, id);
        var i :| 0 <= i < |ts| && ts[i].id == id;
        assert ts[i] in ts && ts[i] in kept;
      }
    }
  }

  lemma DispatchKeeps(s: Registry, now: int)
    requires Inv(s)
    ensures Inv(Step(s, Dispatch(now)))
  {
    if RunningCount(s.tasks) < MAX_CONCURRENT {
      var ts := s.tasks + [Task(s.nextId, Running, now, None)];
      RunningOfAppend(s.tasks, Task(s.nextId, Running, now, None));
      var children := s.children + {s.nextId};
      forall id | id in children
        ensures HasId(ts, id)
      {
        if id in s.children {
          assert HasId(s.tasks, id);
          var i :| 0 <= i < |s.tasks| && s.tasks[i].id == id;
          assert ts[i].id == id;
        } else {
          assert ts[|s.tasks|].id == id;
        }
      }
      MoreIds(s.disk, s.writing, s.nextId);
      PrunedKeeps(ts, children, s.nextId + 1);
    }
  }

  lemma CompletesKeeps(s: Registry, id: nat, status: Status, now: int)
    requires Inv(s)
    ensures Inv(Step(s, Completes(id, status, now)))
  {
    if id in s.children && !status.Running? {
      CompletionFindsRecord(s, id);
      var i := IndexOfId(s.tasks, id);
      var ts := s.tasks[i := s.tasks[i].(status := status, finishedAt := Some(now))];
      RunningOfUpdate(s.tasks, i, ts[i]);
      var children := s.children - {id};
      forall other | other in children
        ensures HasId(ts, other)
      {
        assert HasId(s.tasks, other);
        var j :| 0 <= j < |s.tasks| && s.tasks[j].id == other;
        assert ts[j].id == other;
      }
      PrunedKeeps(ts, children, s.nextId);
    }
  }

  /** Pruning never takes a running record, so a completion always finds its own. */
  lemma CompletionFindsRecord(s: Registry, id: nat)
    requires Inv(s) && id in s.children
    ensures IndexOfId(s.tasks, id) < |s.tasks| && s.tasks[IndexOfId(s.tasks, id)].status.Running?
  {
    assert HasId(s.tasks, id);
  }

  lemma SerializeKeeps(s: Registry)
    requires Inv(s)
    ensures Inv(Step(s, Serialize))
  {
    hide Bounded, Tracks;
  }

  lemma RestartKeeps(s: Registry, readable: bool)
    requires Inv(s)
    ensures Inv(Step(s, Restart(readable)))
    ensures RunningCount(Step(s, Restart(readable)).tasks) == 0
  {
    var ts := Step(s, Restart(readable)).tasks;
    NoneRunning(ts);
  }

  /** Main result: in every interleaving of dispatches, completions, file writes and restarts, at most
      eight tasks run, at most two hundred are kept, and no record runs right after a load. */
  lemma {:induction false} EveryRun(events: seq<Event>)
    ensures Inv(Run(EMPTY, events))
    ensures |Run(EMPTY, events).tasks| <= 200 && RunningCount(Run(EMPTY, events).tasks) <= 8
    ensures events != [] && events[|events| - 1].Restart? ==> RunningCount(Run(EMPTY, events).tasks) == 0
  {
    if events == [] {
      assert RunningOf([]) == [];
    } else {
      var s := Run(EMPTY, events[..|events| - 1]);
      EveryRun(events[..|events| - 1]);
      match events[|events| - 1]
      case Dispatch(now) => DispatchKeeps(s, now);
      case Completes(id, status, now) => CompletesKeeps(s, id, status, now);
      case Serialize => SerializeKeeps(s);
      case Land(k) => assert k < |s.writing| ==> Bounded(s.writing[k], s.nextId);
      case Restart(readable) => RestartKeeps(s, readable);
    }
  }

  // ---------------------------------------------------------------- what each event does

  /** What a restart makes of a record: a running one is interrupted, as of its start unless it has an end. */
  predicate Reloaded(before: Task, after: Task) {
    if before.status.Running? then
      && after.id == before.id && after.status == Interrupted && after.startedAt == before.startedAt
      && after.finishedAt == Some(if before.finishedAt.Some? then before.finishedAt.value else before.startedAt)
    else after == before
  }

  /** A restart has every record of a readable file and no others, and no children. */
  lemma RestartExactly(s: Registry, readable: bool)
    ensures var after := Step(s, Restart(readable));
            && after.children == {} && after.writing == [] && after.disk == s.disk && after.nextId == s.nextId
            && (!readable ==> after.tasks == [])
            && (readable ==> |after.tasks| == |s.disk| && forall i :: 0 <= i < |s.disk| ==> Reloaded(s.disk[i], after.tasks[i]))
  {
  }

  /** A flush that lands puts the records as they were when it began on disk, whatever has begun since. */
  lemma FlushExactly(s: Registry, between: seq<Event>)
    requires forall i :: 0 <= i < |between| ==> !between[i].Restart?
    ensures var after := Step(Run(Step(s, Serialize), between), Land(|s.writing|));
            after.disk == s.tasks && after.tasks == Run(Step(s, Serialize), between).tasks
  {
    StillWriting(Step(s, Serialize), between);
  }

  lemma {:induction false} StillWriting(s: Registry, events: seq<Event>)
    requires forall i :: 0 <= i < |events| ==> !events[i].Restart?
    ensures s.writing <= Run(s, events).writing
  {
    if events != [] {
      StillWriting(s, events[..|events| - 1]);
    }
  }

  /** A completion closes the record of its task as it is told, and touches no other. */
  lemma CompletesExactly(s: Registry, id: nat, status: Status, now: int)
    requires Inv(s) && id in s.children && !status.Running?
    ensures var after := Step(s, Completes(id, status, now));
            && after.children == s.children - {id} && after.disk == s.disk
            && HasId(s.tasks, id) && |after.tasks| == |s.tasks|
            && forall i :: 0 <= i < |s.tasks| ==>
                 after.tasks[i] == if s.tasks[i].id == id then Task(id, status, s.tasks[i].startedAt, Some(now)) else s.tasks[i]
  {
    hide RunningOf;
    CompletionFindsRecord(s, id);
  }

  lemma {:induction false} DropFirstFinished(ts: seq<Task>, i: nat)
    requires i < |ts| && !ts[i].status.Running? && forall j :: 0 <= j < i ==> ts[j].status.Running?
    ensures DropFinished(ts, 1) == ts[..i] + ts[i + 1..]
  {
    if i == 0 {
      assert DropFinished(ts[1..], 0) == ts[1..];
    } else {
      DropFirstFinished(ts[1..], i - 1);
      assert ts[..i] == [ts[0]] + ts[1..][..i - 1];
      assert ts[1..][i..] == ts[i + 1..];
    }
  }

  lemma {:induction false} SomeFinished(ts: seq<Task>) returns (i: nat)
    requires |RunningOf(ts)| < |ts|
    ensures i < |ts| && !ts[i].status.Running? && forall j :: 0 <= j < i ==> ts[j].status.Running?
  {
    i := 0;
    if ts[0].status.Running? {
      i := SomeFinished(ts[1..]);
      i := i + 1;
      assert forall j :: 0 < j < i ==> ts[j] == ts[1..][j - 1];
    }
  }

  /** The records with a running one added at the end: all of them, or at two hundred all but the oldest
      finished one. */
  predicate Added(before: seq<Task>, t: Task, after: seq<Task>) {
    if |before| < 200 then after == before + [t]
    else
      exists i :: 0 <= i < |before| && !before[i].status.Running?
        && (forall j :: 0 <= j < i ==> before[j].status.Running?)
        && after == before[..i] + before[i + 1..] + [t]
  }

  /** A dispatch is refused at eight running; otherwise its record is the new last one. */
  lemma DispatchExactly(s: Registry, now: int)
    requires Inv(s)
    ensures var after := Step(s, Dispatch(now));
            if RunningCount(s.tasks) >= 8 then after == s
            else
              && Added(s.tasks, Task(s.nextId, Running, now, None), after.tasks)
              && after.children == s.children + {s.nextId} && after.disk == s.disk && after.nextId == s.nextId + 1
  {
    hide RunningOf, DropFinished;
    var t := Task(s.nextId, Running, now, None);
    var all := s.tasks + [t];
    if RunningCount(s.tasks) < 8 && |s.tasks| == 200 {
      var i := SomeFinished(s.tasks);
      DropFirstFinished(all, i);
      assert all[..i] + all[i + 1..] == s.tasks[..i] + s.tasks[i + 1..] + [t];
    }
  }

  lemma FirstIsNew(ts: seq<Task>)
    requires ts != [] && DistinctIds(ts)
    ensures DistinctIds(ts[1..]) && ts[0] !in ts[1..]
  {
    DistinctRest(ts);
  }

  lemma RunningMembersOfCons(t: Task, rest: seq<Task>)
    ensures (set x | x in [t] + rest && x.status.Running?)
            == (set x | x in rest && x.status.Running?) + if t.status.Running? then {t} else {}
  {
  }

  /** The running records counted one by one, each once. */
  lemma {:induction false} RunningCountExactly(ts: seq<Task>)
    requires DistinctIds(ts)
    ensures RunningCount(ts) == |set t | t in ts && t.status.Running?|
  {
    hide DistinctIds;
    if ts != [] {
      FirstIsNew(ts);
      RunningCountExactly(ts[1..]);
      RunningMembersOfCons(ts[0], ts[1..]);
      assert ts == [ts[0]] + ts[1..];
    }
  }

  // ---------------------------------------------------------------- the registry as the program runs it

  class HeadlessTaskRegistry {
    var tasks: seq<Task>
    var disk: seq<Task>
    var writing: seq<seq<Task>>
    var children: set<nat>
    var nextId: nat

    ghost function State(): Registry
      reads this
    {
      Registry(tasks, disk, writing, children, nextId)
    }

    constructor ()
      ensures State() == EMPTY
    {
      tasks, disk, writing, children, nextId := [], [], [], {}, 0;
    }

    method Prune()
      requires DistinctIds(tasks)
      modifies this`tasks
      ensures tasks == Pruned(old(tasks))
    {
      if |tasks| > MAX_RECORDS {
        var dropCount := |tasks| - MAX_RECORDS;
        var finished := FinishedIds(tasks);
        var n := Min(dropCount, |finished|);
        var toDrop := IdSet(finished[..n]);
        WithoutIdsIsDrop(tasks, n);
        DropNoMore(tasks, dropCount);
        tasks := WithoutIds(tasks, toDrop);
      }
    }

    /** Check and create in one go: the push happens before the first await. */
    method DispatchTask(now: int) returns (id: Option<nat>)
      requires Inv(State())
      modifies this
      ensures State() == Step(old(State()), Dispatch(now)) && Inv(State())
      ensures id.None? <==> RunningCount(old(tasks)) >= 8
    {
      DispatchKeeps(State(), now);
      if |RunningOf(tasks)| >= MAX_CONCURRENT {
        return None;
      }
      id := Some(nextId);
      tasks := tasks + [Task(nextId, Running, now, None)];
      children := children + {nextId};
      nextId := nextId + 1;
      Prune();
    }

    method Complete(id: nat, status: Status, now: int)
      requires Inv(State()) && id in children && !status.Running?
      modifies this
      ensures State() == Step(old(State()), Completes(id, status, now)) && Inv(State())
    {
      CompletesKeeps(State(), id, status, now);
      children := children - {id};
      var i := IndexOfId(tasks, id);
      if i == |tasks| {
        return;
      }
      tasks := tasks[i := tasks[i].(status := status, finishedAt := Some(now))];
      Prune();
    }

    /** Boot fixup of every leftover running record, in place. */
    method Reconcile()
      modifies this`tasks
      ensures tasks == ReconcileAll(old(tasks))
    {
      var k := 0;
      while k < |tasks|
        invariant 0 <= k <= |tasks| == |old(tasks)|
        invariant forall i :: 0 <= i < |tasks| ==> tasks[i] == if i < k then Reconciled(old(tasks)[i]) else old(tasks)[i]
      {
        if tasks[k].status.Running? {
          tasks := tasks[k := Reconciled(tasks[k])];
        }
        k := k + 1;
      }
    }

    method Load(readable: bool)
      requires Inv(State())
      modifies this
      ensures State() == Step(old(State()), Restart(readable)) && Inv(State())
    {
      RestartKeeps(State(), readable);
      tasks := if readable then disk else [];
      writing, children := [], {};
      Reconcile();
    }
  }

  lemma {:induction false} DropNoMore(ts: seq<Task>, n: nat)
    ensures DropFinished(ts, n) == DropFinished(ts, Min(n, |FinishedIds(ts)|))
  {
    if ts != [] && n > 0 {
      DropNoMore(ts[1..], if ts[0].status.Running? then n else n - 1);
      if ts[0].status.Running? {
        NothingFinished(ts);
      }
    }
  }

  lemma {:induction false} NothingFinished(ts: seq<Task>)
    ensures FinishedIds(ts) == [] ==> forall n: nat :: DropFinished(ts, n) == ts
  {
    if ts != [] && ts[0].status.Running? {
      NothingFinished(ts[1..]);
    }
  }
}
