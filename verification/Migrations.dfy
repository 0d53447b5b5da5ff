// The migration runner: pending migrations applied in registry order, each journaled after it
// ran, over launches that may stop at any point.
module Migrations {
  import opened Common

  /** `partial(c, n)` is the configuration an up that stops after n of its writes leaves of c. */
  datatype Migration<!C> = Migration(id: string, up: C -> C, partial: (C, nat) -> C)

  datatype Applied = Applied(id: string, at: nat, version: string)

  datatype Meta = Meta(version: string, applied: seq<Applied>)

  /** Blank: no journal, or one without a list of migrations. Torn: not JSON, as a write cut short leaves it. */
  datatype Journal = Blank | Torn | Saved(meta: Meta)

  datatype Disk<C> = Disk(config: C, journal: Journal)

  /** Where a launch stops while it works on one migration, by an exception or a crash. */
  datatype Stage = AtSnapshot | DuringUp(writes: nat) | BeforeJournal | TearingJournal | AfterJournal

  /** Stopping at the migration with this position among the pending ones. */
  datatype Fault = Fault(at: nat, stage: Stage)

  /** One start of the program: its version and registry, its clock, and its fault if it meets one. */
  datatype Launch<!C> = Launch(version: string, registry: seq<Migration<C>>, now: nat, fault: Option<Fault>)

  function Ids<C>(ms: seq<Migration<C>>): (r: seq<string>)
    ensures |r| == |ms|
    ensures forall i :: 0 <= i < |ms| ==> r[i] == ms[i].id
  {
    seq(|ms|, i requires 0 <= i < |ms| => ms[i].id)
  }

  function AppliedIds(applied: seq<Applied>): (r: seq<string>)
    ensures |r| == |applied|
    ensures forall i :: 0 <= i < |applied| ==> r[i] == applied[i].id
  {
    seq(|applied|, i requires 0 <= i < |applied| => applied[i].id)
  }

  function JournalIds(j: Journal): seq<string> {
    if j.Saved? then AppliedIds(j.meta.applied) else []
  }

  function Pending<C>(ids: seq<string>, registry: seq<Migration<C>>): (r: seq<Migration<C>>)
    ensures |r| <= |registry|
  {
    if registry == [] then []
    else if registry[0].id in ids then Pending(ids, registry[1..])
    else [registry[0]] + Pending(ids, registry[1..])
  }

  /** readMeta of a journal that parses. */
  function ReadMeta(j: Journal, version: string): (r: Meta)
    ensures !j.Torn? ==> AppliedIds(r.applied) == JournalIds(j)
  {
    if j.Saved? then j.meta else Meta(version, [])
  }

  function Recorded<C>(meta: Meta, m: Migration<C>, l: Launch<C>): Meta {
    Meta(l.version, meta.applied + [Applied(m.id, l.now, l.version)])
  }

  function Stopped<C>(d: Disk<C>, meta: Meta, m: Migration<C>, l: Launch<C>, stage: Stage): Disk<C> {
    match stage
    case AtSnapshot => d
    case DuringUp(n) => d.(config := m.partial(d.config, n))
    case BeforeJournal => d.(config := m.up(d.config))
    case TearingJournal => Disk(m.up(d.config), Torn)
    case AfterJournal => Disk(m.up(d.config), Saved(Recorded(meta, m, l)))
  }

  /** The loop over pending migrations, from the i-th on. */
  function Work<C>(d: Disk<C>, meta: Meta, pending: seq<Migration<C>>, l: Launch<C>, i: nat): Disk<C>
    decreases |pending|
  {
    if pending == [] then d
    else
      var m := pending[0];
      if l.fault.Some? && l.fault.value.at == i then Stopped(d, meta, m, l, l.fault.value.stage)
      else
        var next := Recorded(meta, m, l);
        Work(Disk(m.up(d.config), Saved(next)), next, pending[1..], l, i + 1)
  }

  function Launched<C>(d: Disk<C>, l: Launch<C>): Disk<C> {
    if d.journal.Torn? then d
    else
      var meta := ReadMeta(d.journal, l.version);
      Work(d, meta, Pending(AppliedIds(meta.applied), l.registry), l, 0)
  }

  function Launches<C>(d: Disk<C>, ls: seq<Launch<C>>): Disk<C> {
    if ls == [] then d else Launched(Launches(d, ls[..|ls| - 1]), ls[|ls| - 1])
  }

  // ---------------------------------------------------------------- the contract of a migration

  /** up is idempotent, and running it over what an interrupted up left ends where it would have ended. */
  ghost predicate Resumable<C(!new)>(m: Migration<C>) {
    && (forall c :: m.up(m.up(c)) == m.up(c))
    && (forall c, n :: m.up(m.partial(c, n)) == m.up(c))
  }

  ghost predicate AllResumable<C(!new)>(ms: seq<Migration<C>>) {
    forall i :: 0 <= i < |ms| ==> Resumable(ms[i])
  }

  function ApplyAll<C>(ms: seq<Migration<C>>, c: C): C
    decreases |ms|
  {
    if ms == [] then c else ApplyAll(ms[1..], ms[0].up(c))
  }

  /** Where an undisturbed launch would end: the configuration, and the ids its journal would hold. */
  function EndConfig<C>(d: Disk<C>, registry: seq<Migration<C>>): C {
    ApplyAll(Pending(JournalIds(d.journal), registry), d.config)
  }

  function EndIds<C>(d: Disk<C>, registry: seq<Migration<C>>): seq<string> {
    JournalIds(d.journal) + Ids(Pending(JournalIds(d.journal), registry))
  }

  // ---------------------------------------------------------------- pending migrations

  lemma {:induction false} PendingMembers<C>(ids: seq<string>, registry: seq<Migration<C>>, i: nat)
    requires i < |Pending(ids, registry)|
    ensures Pending(ids, registry)[i] in registry && Pending(ids, registry)[i].id !in ids
  {
    if registry[0].id in ids {
      PendingMembers(ids, registry[1..], i);
    } else if i > 0 {
      PendingMembers(ids, registry[1..], i - 1);
    }
  }

  lemma {:induction false} PendingOfPrefix<C>(ids: seq<string>, earlier: seq<Migration<C>>, registry: seq<Migration<C>>)
    requires earlier <= registry
    ensures Pending(ids, earlier) <= Pending(ids, registry)
  {
    if earlier != [] {
      PendingOfPrefix(ids, earlier[1..], registry[1..]);
    }
  }

  lemma {:induction false} PendingIgnoresStranger<C>(ids: seq<string>, id: string, registry: seq<Migration<C>>)
    requires id !in Ids(registry)
    ensures Pending(ids + [id], registry) == Pending(ids, registry)
  {
    if registry != [] {
      assert Ids(registry) == [registry[0].id] + Ids(registry[1..]);
      PendingIgnoresStranger(ids, id, registry[1..]);
    }
  }

  lemma DistinctRest<C>(ms: seq<Migration<C>>)
    requires Distinct(Ids(ms)) && ms != []
    ensures Distinct(Ids(ms[1..])) && ms[0].id !in Ids(ms[1..])
  {
    var ids := Ids(ms);
    assert Ids(ms[1..]) == ids[1..];
    forall i, j | 0 <= i < j < |ids[1..]|
      ensures ids[1..][i] != ids[1..][j]
    {
      assert ids[1..][i] == ids[i + 1] && ids[1..][j] == ids[j + 1];
    }
  }

  lemma IdsOfFirst<C>(ids: seq<string>, ms: seq<Migration<C>>)
    requires ms != []
    ensures (ids + [ms[0].id]) + Ids(ms[1..]) == ids + Ids(ms)
  {
  }

  lemma DistinctOfNew(ids: seq<string>, id: string)
    requires Distinct(ids) && id !in ids
    ensures Distinct(ids + [id])
  {
  }

  /** Recording the first pending migration leaves the others pending. */
  lemma {:induction false} PendingAfterRecording<C>(ids: seq<string>, registry: seq<Migration<C>>)
    requires Distinct(Ids(registry)) && Pending(ids, registry) != []
    ensures Pending(ids + [Pending(ids, registry)[0].id], registry) == Pending(ids, registry)[1..]
  {
    var rest := registry[1..];
    DistinctRest(registry);
    if registry[0].id in ids {
      PendingAfterRecording(ids, rest);
    } else {
      PendingIgnoresStranger(ids, registry[0].id, rest);
    }
  }

  lemma {:induction false} PendingIdsDistinct<C>(ids: seq<string>, registry: seq<Migration<C>>)
    requires Distinct(Ids(registry)) && Distinct(ids)
    ensures Distinct(ids + Ids(Pending(ids, registry)))
    decreases |Pending(ids, registry)|
  {
    var pending := Pending(ids, registry);
    if pending == [] {
      assert ids + Ids(pending) == ids;
    } else {
      PendingMembers(ids, registry, 0);
      PendingAfterRecording(ids, registry);
      hide Distinct, Ids, Pending;
      DistinctOfNew(ids, pending[0].id);
      PendingIdsDistinct(ids + [pending[0].id], registry);
      IdsOfFirst(ids, pending);
    }
  }

  // ---------------------------------------------------------------- one launch

  /** Stopping anywhere but inside the journal write leaves the end of the road where it was. */
  lemma StoppedKeepsEnd<C(!new)>(d: Disk<C>, meta: Meta, registry: seq<Migration<C>>, l: Launch<C>, stage: Stage)
    requires !d.journal.Torn? && AppliedIds(meta.applied) == JournalIds(d.journal)
    requires Distinct(Ids(registry)) && !stage.TearingJournal?
    requires Pending(JournalIds(d.journal), registry) != []
    ensures var m := Pending(JournalIds(d.journal), registry)[0];
            var s := Stopped(d, meta, m, l, stage);
            && !s.journal.Torn? && EndIds(s, registry) == EndIds(d, registry)
            && (AllResumable(registry) ==> EndConfig(s, registry) == EndConfig(d, registry))
  {
    hide Pending, Ids, AllResumable, Resumable, ApplyAll, Recorded, Distinct, AppliedIds;
    var pending := Pending(JournalIds(d.journal), registry);
    var m := pending[0];
    if stage.AfterJournal? {
      RecordedKeepsEnd(d, meta, registry, l);
    } else if AllResumable(registry) {
      FirstIsResumable(JournalIds(d.journal), registry);
      var s := Stopped(d, meta, m, l, stage);
      UpReaches(m, d.config);
      if stage.DuringUp? {
        UpAfterPart(m, d.config, stage.writes);
      }
      FirstUpAgrees(pending, d.config, s.config);
    }
  }

  lemma FirstIsResumable<C(!new)>(ids: seq<string>, registry: seq<Migration<C>>)
    requires AllResumable(registry) && Pending(ids, registry) != []
    ensures Resumable(Pending(ids, registry)[0])
  {
    hide Pending, Resumable;
    PendingMembers(ids, registry, 0);
  }

  lemma UpReaches<C(!new)>(m: Migration<C>, c: C)
    requires Resumable(m)
    ensures m.up(m.up(c)) == m.up(c)
  {
  }

  lemma UpAfterPart<C(!new)>(m: Migration<C>, c: C, n: nat)
    requires Resumable(m)
    ensures m.up(m.partial(c, n)) == m.up(c)
  {
  }

  lemma FirstUpAgrees<C>(ms: seq<Migration<C>>, a: C, b: C)
    requires ms != [] && ms[0].up(a) == ms[0].up(b)
    ensures ApplyAll(ms, a) == ApplyAll(ms, b)
  {
  }

  lemma RecordedKeepsEnd<C>(d: Disk<C>, meta: Meta, registry: seq<Migration<C>>, l: Launch<C>)
    requires !d.journal.Torn? && AppliedIds(meta.applied) == JournalIds(d.journal)
    requires Distinct(Ids(registry)) && Pending(JournalIds(d.journal), registry) != []
    ensures var m := Pending(JournalIds(d.journal), registry)[0];
            var next := Recorded(meta, m, l);
            var s := Disk(m.up(d.config), Saved(next));
            && AppliedIds(next.applied) == JournalIds(d.journal) + [m.id]
            && Pending(JournalIds(s.journal), registry) == Pending(JournalIds(d.journal), registry)[1..]
            && EndConfig(s, registry) == EndConfig(d, registry) && EndIds(s, registry) == EndIds(d, registry)
  {
    hide Pending;
    var ids := JournalIds(d.journal);
    var pending := Pending(ids, registry);
    var next := Recorded(meta, pending[0], l);
    assert AppliedIds(next.applied) == ids + [pending[0].id];
    PendingAfterRecording(ids, registry);
    IdsOfFirst(ids, pending);
  }

  /** Whether the launch is cut short inside a journal write. */
  predicate Tears<C>(l: Launch<C>, i: nat, pending: nat) {
    l.fault.Some? && i <= l.fault.value.at < i + pending && l.fault.value.stage.TearingJournal?
  }

  /** The loop, over pending migrations of a registry that begins the full one. */
  lemma {:induction false} WorkKeepsEnd<C(!new)>(
      d: Disk<C>, meta: Meta, pending: seq<Migration<C>>, l: Launch<C>, i: nat, registry: seq<Migration<C>>)
    requires !d.journal.Torn? && AppliedIds(meta.applied) == JournalIds(d.journal)
    requires Distinct(Ids(registry))
    requires pending <= Pending(JournalIds(d.journal), registry)
    requires !Tears(l, i, |pending|)
    ensures var s := Work(d, meta, pending, l, i);
            && !s.journal.Torn? && EndIds(s, registry) == EndIds(d, registry)
            && (AllResumable(registry) ==> EndConfig(s, registry) == EndConfig(d, registry))
    decreases |pending|
  {
    hide EndConfig, EndIds, Pending, AllResumable, Distinct, Recorded, Stopped;
    if pending != [] {
      var all := Pending(JournalIds(d.journal), registry);
      assert pending[0] == all[0];
      if l.fault.Some? && l.fault.value.at == i {
        StoppedKeepsEnd(d, meta, registry, l, l.fault.value.stage);
      } else {
        RecordedKeepsEnd(d, meta, registry, l);
        var next := Recorded(meta, pending[0], l);
        WorkKeepsEnd(Disk(pending[0].up(d.config), Saved(next)), next, pending[1..], l, i + 1, registry);
      }
    }
  }

  /** A launch of this program or an earlier release of it, whatever its fault short of a torn journal,
      does not change the journal ids that a complete launch will end with, nor, with migrations that can
      be resumed, the configuration. */
  lemma LaunchKeepsEnd<C(!new)>(d: Disk<C>, l: Launch<C>, registry: seq<Migration<C>>)
    requires Distinct(Ids(registry)) && l.registry <= registry
    requires !d.journal.Torn? && !Launched(d, l).journal.Torn?
    ensures AllResumable(registry) ==> EndConfig(Launched(d, l), registry) == EndConfig(d, registry)
    ensures EndIds(Launched(d, l), registry) == EndIds(d, registry)
  {
    TornExactly(d, l);
    var meta := ReadMeta(d.journal, l.version);
    var ids := JournalIds(d.journal);
    PendingOfPrefix(ids, l.registry, registry);
    WorkKeepsEnd(d, meta, Pending(ids, l.registry), l, 0, registry);
  }

  lemma {:induction false} WorkTornExactly<C>(d: Disk<C>, meta: Meta, pending: seq<Migration<C>>, l: Launch<C>, i: nat)
    requires !d.journal.Torn?
    ensures Work(d, meta, pending, l, i).journal.Torn? <==> Tears(l, i, |pending|)
    decreases |pending|
  {
    if pending != [] && !(l.fault.Some? && l.fault.value.at == i) {
      var next := Recorded(meta, pending[0], l);
      WorkTornExactly(Disk(pending[0].up(d.config), Saved(next)), next, pending[1..], l, i + 1);
    }
  }

  /** The journal is unreadable after a launch exactly when it was before, or the launch is cut short in a
      journal write it reaches. */
  lemma TornExactly<C>(d: Disk<C>, l: Launch<C>)
    ensures Launched(d, l).journal.Torn? <==>
            d.journal.Torn? || Tears(l, 0, |Pending(JournalIds(d.journal), l.registry)|)
  {
    if !d.journal.Torn? {
      WorkTornExactly(d, ReadMeta(d.journal, l.version), Pending(JournalIds(d.journal), l.registry), l, 0);
    }
  }

  lemma {:induction false} UndisturbedWork<C>(d: Disk<C>, meta: Meta, pending: seq<Migration<C>>, l: Launch<C>, i: nat)
    requires !d.journal.Torn? && AppliedIds(meta.applied) == JournalIds(d.journal) && l.fault.None?
    ensures var s := Work(d, meta, pending, l, i);
            s.config == ApplyAll(pending, d.config) && JournalIds(s.journal) == JournalIds(d.journal) + Ids(pending)
    decreases |pending|
  {
    if pending == [] {
      assert JournalIds(d.journal) + Ids(pending) == JournalIds(d.journal);
    } else {
      hide Ids;
      var next := Recorded(meta, pending[0], l);
      UndisturbedWork(Disk(pending[0].up(d.config), Saved(next)), next, pending[1..], l, i + 1);
      assert AppliedIds(next.applied) == JournalIds(d.journal) + [pending[0].id];
      IdsOfFirst(JournalIds(d.journal), pending);
    }
  }

  // ---------------------------------------------------------------- what a launch leaves behind

  predicate IsPending<C>(ids: seq<string>, m: Migration<C>) {
    m.id !in ids
  }

  function NotApplied<C>(ids: seq<string>): Migration<C> -> bool {
    (m: Migration<C>) => IsPending(ids, m)
  }

  lemma {:induction false} PendingIsFilter<C>(ids: seq<string>, registry: seq<Migration<C>>)
    ensures Pending(ids, registry) == Filter(NotApplied(ids), registry)
  {
    if registry != [] {
      PendingIsFilter(ids, registry[1..]);
      assert registry == [registry[0]] + registry[1..];
      FilterOfConcat(NotApplied(ids), [registry[0]], registry[1..]);
      FilterOfOne(NotApplied(ids), registry[0]);
    }
  }

  /** The configuration after the first k pending migrations and, when the launch stops at the next one, what
      was done of it. */
  ghost predicate ConfigAfter<C>(config: C, pending: seq<Migration<C>>, stop: Option<Stage>, k: nat, after: C)
    requires k <= |pending| && (stop.Some? ==> k < |pending|)
  {
    var done := ApplyAll(pending[..k], config);
    if stop.None? || stop.value.AtSnapshot? then after == done
    else if stop.value.DuringUp? then after == pending[k].partial(done, stop.value.writes)
    else after == pending[k].up(done)
  }

  /** The records of the first j pending migrations, each with the launch's clock and version. */
  function Records<C>(pending: seq<Migration<C>>, l: Launch<C>, j: nat): (r: seq<Applied>)
    requires j <= |pending|
    ensures |r| == j && forall i :: 0 <= i < j ==> r[i] == Applied(pending[i].id, l.now, l.version)
  {
    seq(j, i requires 0 <= i < j => Applied(pending[i].id, l.now, l.version))
  }

  /** The journal: unreadable when torn, as it was when nothing was recorded, otherwise the records it had and
      those of the migrations done, under the launch's version. */
  predicate JournalAfter<C>(journal: Journal, pending: seq<Migration<C>>, l: Launch<C>, stop: Option<Stage>, k: nat, after: Journal)
    requires k <= |pending| && (stop.Some? ==> k < |pending|)
  {
    var j := if stop.Some? && stop.value.AfterJournal? then k + 1 else k;
    if stop == Some(TearingJournal) then after == Torn
    else if j == 0 then after == journal
    else after == Saved(Meta(l.version, (if journal.Saved? then journal.meta.applied else []) + Records(pending, l, j)))
  }

  lemma AppliedOneMore<C>(before: seq<Applied>, pending: seq<Migration<C>>, l: Launch<C>, j: nat)
    requires 0 < j <= |pending|
    ensures (before + [Applied(pending[0].id, l.now, l.version)]) + Records(pending[1..], l, j - 1)
            == before + Records(pending, l, j)
  {
  }

  /** The launch stops at the k-th of these migrations, or, k being their number, at none of them. */
  predicate StopsAt<C>(l: Launch<C>, i: nat, pending: nat, k: nat) {
    && k <= pending
    && if k < pending then l.fault.Some? && l.fault.value.at == i + k
       else l.fault.None? || l.fault.value.at < i || l.fault.value.at >= i + k
  }

  function StopOf<C>(l: Launch<C>, pending: nat, k: nat): Option<Stage>
    requires k < pending ==> l.fault.Some?
  {
    if k < pending then Some(l.fault.value.stage) else None
  }

  lemma {:induction false} WorkConfig<C>(d: Disk<C>, meta: Meta, pending: seq<Migration<C>>, l: Launch<C>, i: nat, k: nat)
    requires StopsAt(l, i, |pending|, k)
    ensures ConfigAfter(d.config, pending, StopOf(l, |pending|, k), k, Work(d, meta, pending, l, i).config)
    decreases |pending|
  {
    if pending != [] && k > 0 {
      var next := Recorded(meta, pending[0], l);
      WorkConfig(Disk(pending[0].up(d.config), Saved(next)), next, pending[1..], l, i + 1, k - 1);
      assert pending[..k][1..] == pending[1..][..k - 1];
    }
  }

  lemma {:induction false} WorkJournal<C>(d: Disk<C>, meta: Meta, pending: seq<Migration<C>>, l: Launch<C>, i: nat, k: nat)
    requires !d.journal.Torn? && meta.applied == (if d.journal.Saved? then d.journal.meta.applied else [])
    requires StopsAt(l, i, |pending|, k)
    ensures JournalAfter(d.journal, pending, l, StopOf(l, |pending|, k), k, Work(d, meta, pending, l, i).journal)
    decreases |pending|
  {
    hide JournalAfter, Records;
    if pending == [] || k == 0 {
      FirstJournal(d, meta, pending, l, i);
    } else {
      var next := Recorded(meta, pending[0], l);
      WorkJournal(Disk(pending[0].up(d.config), Saved(next)), next, pending[1..], l, i + 1, k - 1);
      LaterJournal(d.journal, meta, pending, l, StopOf(l, |pending|, k), k, Work(d, meta, pending, l, i).journal);
    }
  }

  lemma FirstJournal<C>(d: Disk<C>, meta: Meta, pending: seq<Migration<C>>, l: Launch<C>, i: nat)
    requires !d.journal.Torn? && meta.applied == (if d.journal.Saved? then d.journal.meta.applied else [])
    requires StopsAt(l, i, |pending|, 0)
    ensures JournalAfter(d.journal, pending, l, StopOf(l, |pending|, 0), 0, Work(d, meta, pending, l, i).journal)
  {
    hide Records;
    if pending != [] {
      FirstRecord(meta.applied, pending, l);
    }
  }

  lemma LaterJournal<C>(journal: Journal, meta: Meta, pending: seq<Migration<C>>, l: Launch<C>, stop: Option<Stage>, k: nat, after: Journal)
    requires 0 < k <= |pending| && (stop.Some? ==> k < |pending|)
    requires meta.applied == (if journal.Saved? then journal.meta.applied else [])
    requires JournalAfter(Saved(Recorded(meta, pending[0], l)), pending[1..], l, stop, k - 1, after)
    ensures JournalAfter(journal, pending, l, stop, k, after)
  {
    hide Records;
    FirstRecord(meta.applied, pending, l);
    AppliedOneMore(meta.applied, pending, l, k);
    if k < |pending| {
      AppliedOneMore(meta.applied, pending, l, k + 1);
    }
  }

  lemma FirstRecord<C>(before: seq<Applied>, pending: seq<Migration<C>>, l: Launch<C>)
    requires pending != []
    ensures before + [Applied(pending[0].id, l.now, l.version)] == before + Records(pending, l, 1)
  {
  }

  /** Main result for one launch: the migrations of its registry that are not in the journal run in order up
      to the one it stops at, if it stops at one, and the journal gains exactly their records. */
  lemma LaunchExactly<C>(d: Disk<C>, l: Launch<C>)
    requires !d.journal.Torn?
    ensures var pending := Filter(NotApplied(JournalIds(d.journal)), l.registry);
            var stops := l.fault.Some? && l.fault.value.at < |pending|;
            var k := if stops then l.fault.value.at else |pending|;
            var stop := if stops then Some(l.fault.value.stage) else None;
            && ConfigAfter(d.config, pending, stop, k, Launched(d, l).config)
            && JournalAfter(d.journal, pending, l, stop, k, Launched(d, l).journal)
  {
    hide Filter, ConfigAfter, JournalAfter, Work, Pending;
    PendingIsFilter(JournalIds(d.journal), l.registry);
    var pending := Pending(JournalIds(d.journal), l.registry);
    var meta := ReadMeta(d.journal, l.version);
    var k := if l.fault.Some? && l.fault.value.at < |pending| then l.fault.value.at else |pending|;
    WorkConfig(d, meta, pending, l, 0, k);
    WorkJournal(d, meta, pending, l, 0, k);
  }

  /** A launch that meets no fault ends at the end of the road. */
  lemma UndisturbedEnds<C>(d: Disk<C>, l: Launch<C>)
    requires !d.journal.Torn? && l.fault.None?
    ensures Launched(d, l).config == EndConfig(d, l.registry)
    ensures JournalIds(Launched(d, l).journal) == EndIds(d, l.registry)
  {
    UndisturbedWork(d, ReadMeta(d.journal, l.version), Pending(JournalIds(d.journal), l.registry), l, 0);
  }

  // ---------------------------------------------------------------- every run

  /** Registries only grow: every launch's is the beginning of the full one. */
  ghost predicate Releases<C>(ls: seq<Launch<C>>, registry: seq<Migration<C>>) {
    forall k :: 0 <= k < |ls| ==> ls[k].registry <= registry
  }

  lemma {:induction false} LaunchesKeepEnd<C(!new)>(d: Disk<C>, ls: seq<Launch<C>>, registry: seq<Migration<C>>)
    requires Distinct(Ids(registry)) && Releases(ls, registry)
    requires !Launches(d, ls).journal.Torn?
    ensures !d.journal.Torn?
    ensures AllResumable(registry) ==> EndConfig(Launches(d, ls), registry) == EndConfig(d, registry)
    ensures EndIds(Launches(d, ls), registry) == EndIds(d, registry)
  {
    if ls != [] {
      hide Launched, EndConfig, EndIds, AllResumable, Distinct;
      var before, last := Launches(d, ls[..|ls| - 1]), ls[|ls| - 1];
      TornExactly(before, last);
      LaunchesKeepEnd(d, ls[..|ls| - 1], registry);
      LaunchKeepsEnd(before, last, registry);
    }
  }

  /** Any launches, of this release or earlier ones, that fail or crash at any point, then one undisturbed
      launch: the configuration and the journal's ids are those of one undisturbed launch from the start,
      unless a journal write was cut short, and then no later launch changes anything. */
  lemma InterruptedRunsConverge<C(!new)>(d: Disk<C>, ls: seq<Launch<C>>, last: Launch<C>)
    requires Distinct(Ids(last.registry)) && AllResumable(last.registry) && Releases(ls, last.registry)
    requires last.fault.None?
    ensures var after := Launches(d, ls);
            if after.journal.Torn? then Launched(after, last) == after
            else
              && Launched(after, last).config == Launched(d, last).config
              && JournalIds(Launched(after, last).journal) == JournalIds(Launched(d, last).journal)
  {
    var after := Launches(d, ls);
    if !after.journal.Torn? {
      hide Launched, EndConfig, EndIds, AllResumable, Distinct, Launches;
      LaunchesKeepEnd(d, ls, last.registry);
      UndisturbedEnds(after, last);
      UndisturbedEnds(d, last);
    }
  }

  /** In every run the journal is the ids it began with, then a first part of the registry's other ids in
      registry order, and holds no id twice. */
  lemma JournalInOrder<C(!new)>(d: Disk<C>, ls: seq<Launch<C>>, registry: seq<Migration<C>>)
    requires Distinct(Ids(registry)) && Releases(ls, registry)
    requires Distinct(JournalIds(d.journal)) && !Launches(d, ls).journal.Torn?
    ensures JournalIds(d.journal) <= JournalIds(Launches(d, ls).journal)
    ensures JournalIds(Launches(d, ls).journal) <=
            JournalIds(d.journal) + Ids(Pending(JournalIds(d.journal), registry))
    ensures Distinct(JournalIds(Launches(d, ls).journal))
  {
    hide Launches, Pending, AllResumable;
    LaunchesKeepEnd(d, ls, registry);
    PendingIdsDistinct(JournalIds(d.journal), registry);
    JournalGrows(d, ls);
    var ids, end := JournalIds(Launches(d, ls).journal), EndIds(d, registry);
    assert ids <= end && Distinct(end);
    forall i, j | 0 <= i < j < |ids|
      ensures ids[i] != ids[j]
    {
      assert ids[i] == end[i] && ids[j] == end[j];
    }
  }

  lemma {:induction false} WorkGrows<C>(d: Disk<C>, meta: Meta, pending: seq<Migration<C>>, l: Launch<C>, i: nat)
    requires !d.journal.Torn? && AppliedIds(meta.applied) == JournalIds(d.journal)
    requires !Work(d, meta, pending, l, i).journal.Torn?
    ensures JournalIds(d.journal) <= JournalIds(Work(d, meta, pending, l, i).journal)
    decreases |pending|
  {
    if pending != [] {
      var next := Recorded(meta, pending[0], l);
      assert AppliedIds(next.applied) == JournalIds(d.journal) + [pending[0].id];
      if !(l.fault.Some? && l.fault.value.at == i) {
        WorkGrows(Disk(pending[0].up(d.config), Saved(next)), next, pending[1..], l, i + 1);
      }
    }
  }

  lemma {:induction false} JournalGrows<C>(d: Disk<C>, ls: seq<Launch<C>>)
    requires !Launches(d, ls).journal.Torn?
    ensures !d.journal.Torn?
    ensures JournalIds(d.journal) <= JournalIds(Launches(d, ls).journal)
  {
    if ls != [] {
      hide JournalIds, Work;
      var before, last := Launches(d, ls[..|ls| - 1]), ls[|ls| - 1];
      TornExactly(before, last);
      JournalGrows(d, ls[..|ls| - 1]);
      WorkGrows(before, ReadMeta(before.journal, last.version),
                Pending(JournalIds(before.journal), last.registry), last, 0);
    }
  }

  /** A launch after a complete one leaves the disk alone, whatever its fault. */
  lemma SecondLaunchDoesNothing<C>(d: Disk<C>, first: Launch<C>, second: Launch<C>)
    requires !d.journal.Torn? && first.fault.None? && second.registry == first.registry
    ensures Launched(Launched(d, first), second) == Launched(d, first)
  {
    var after := Launched(d, first);
    TornExactly(d, first);
    UndisturbedEnds(d, first);
    NothingPending(JournalIds(d.journal), first.registry);
    assert Pending(JournalIds(after.journal), second.registry) == [];
  }

  lemma {:induction false} NothingPendingIn<C>(ids: seq<string>, registry: seq<Migration<C>>)
    requires forall i :: 0 <= i < |registry| ==> registry[i].id in ids
    ensures Pending(ids, registry) == []
  {
    if registry != [] {
      NothingPendingIn(ids, registry[1..]);
    }
  }

  lemma {:induction false} PendingCovers<C>(ids: seq<string>, registry: seq<Migration<C>>, i: nat)
    requires i < |registry| && registry[i].id !in ids
    ensures registry[i] in Pending(ids, registry)
  {
    if i > 0 {
      PendingCovers(ids, registry[1..], i - 1);
    }
  }

  lemma NothingPending<C>(ids: seq<string>, registry: seq<Migration<C>>)
    ensures Pending(ids + Ids(Pending(ids, registry)), registry) == []
  {
    var end := ids + Ids(Pending(ids, registry));
    forall i | 0 <= i < |registry|
      ensures registry[i].id in end
    {
      if registry[i].id !in ids {
        PendingCovers(ids, registry, i);
        var k :| 0 <= k < |Pending(ids, registry)| && Pending(ids, registry)[k] == registry[i];
        assert end[|ids| + k] == registry[i].id;
      }
    }
    NothingPendingIn(end, registry);
  }

  /** The contract is needed: a crash between up and the journal is repaired by the next launch exactly
      when running up again changes nothing. */
  lemma IdempotenceNeeded<C>(m: Migration<C>, c: C, version: string, now: nat)
    ensures var start := Disk(c, Blank);
            var crash := Launch(version, [m], now, Some(Fault(0, BeforeJournal)));
            var whole := Launch(version, [m], now, None);
            Launched(Launched(start, crash), whole).config == Launched(start, whole).config <==>
            m.up(m.up(c)) == m.up(c)
  {
    var whole := Launch(version, [m], now, None);
    OnePending(m);
    assert ApplyAll([m][1..], m.up(c)) == m.up(c);
    UndisturbedEnds(Disk(c, Blank), whole);
    UndisturbedEnds(Disk(m.up(c), Blank), whole);
  }

  lemma OnePending<C>(m: Migration<C>)
    ensures Pending([], [m]) == [m]
    ensures forall c :: ApplyAll([m], c) == m.up(c)
  {
    assert [m][1..] == [];
    assert Pending([], [m]) == [m] + Pending([], [m][1..]);
  }

  // ---------------------------------------------------------------- the runner

  /** How a launch ended: the journal could not be read, nothing to do or all done, or stopped at a migration. */
  datatype Ending = Unreadable | Done | StoppedAt(id: string)

  /** The journal agrees with the copy in memory, and the two parts of the final ids add up. */
  predicate Midway<C>(d: Disk<C>, meta: Meta, rest: seq<Migration<C>>, end: seq<string>) {
    && JournalIds(d.journal) == AppliedIds(meta.applied)
    && AppliedIds(meta.applied) + Ids(rest) == end
  }

  lemma WorkGoesOn<C>(d: Disk<C>, meta: Meta, rest: seq<Migration<C>>, l: Launch<C>, i: nat, end: seq<string>)
    requires rest != [] && !(l.fault.Some? && l.fault.value.at == i) && Midway(d, meta, rest, end)
    ensures var next := Recorded(meta, rest[0], l);
            var after := Disk(rest[0].up(d.config), Saved(next));
            && Work(d, meta, rest, l, i) == Work(after, next, rest[1..], l, i + 1)
            && Midway(after, next, rest[1..], end)
  {
    var next := Recorded(meta, rest[0], l);
    assert AppliedIds(next.applied) == AppliedIds(meta.applied) + [rest[0].id];
    IdsOfFirst(AppliedIds(meta.applied), rest);
  }

  lemma WorkStops<C>(d: Disk<C>, meta: Meta, rest: seq<Migration<C>>, l: Launch<C>, i: nat)
    requires rest != [] && l.fault.Some? && l.fault.value.at == i
    ensures Work(d, meta, rest, l, i) == Stopped(d, meta, rest[0], l, l.fault.value.stage)
  {
  }

  /** The configuration directory: the migrated files and the journal. */
  class ConfigDir<C> {
    var config: C
    var journal: Journal

    constructor (config: C, journal: Journal)
      ensures this.config == config && this.journal == journal
    {
      this.config := config;
      this.journal := journal;
    }

    function Contents(): Disk<C>
      reads this
    {
      Disk(config, journal)
    }

    /** A launch that stops here, the journal of the disk being the one read and extended in memory. */
    method Stop(m: Migration<C>, meta: Meta, l: Launch<C>, stage: Stage)
      modifies this
      ensures Contents() == Stopped(old(Contents()), meta, m, l, stage)
    {
      match stage {
        case AtSnapshot =>
        case DuringUp(n) => config := m.partial(config, n);
        case BeforeJournal => config := m.up(config);
        case TearingJournal => config := m.up(config); journal := Torn;
        case AfterJournal =>
          config := m.up(config);
          journal := Saved(Meta(l.version, meta.applied + [Applied(m.id, l.now, l.version)]));
      }
    }

    method RunMigrations(l: Launch<C>) returns (ending: Ending)
      modifies this
      ensures Contents() == Launched(old(Contents()), l)
      ensures ending.Unreadable? <==> old(journal).Torn?
      ensures ending.Done? ==> JournalIds(journal) == old(EndIds(Contents(), l.registry))
    {
      if journal.Torn? {
        return Unreadable;
      }
      var meta := ReadMeta(journal, l.version);
      var pending := Pending(AppliedIds(meta.applied), l.registry);
      var i := 0;
      assert pending[0..] == pending;
      while i < |pending|
        invariant i <= |pending|
        invariant Midway(Contents(), meta, pending[i..], old(EndIds(Contents(), l.registry)))
        invariant Work(Contents(), meta, pending[i..], l, i) == Launched(old(Contents()), l)
      {
        hide Work, Launched, Midway, EndIds, Recorded, Stopped, Pending, ReadMeta;
        var m := pending[i];
        if l.fault.Some? && l.fault.value.at == i {
          WorkStops(Contents(), meta, pending[i..], l, i);
          Stop(m, meta, l, l.fault.value.stage);
          return StoppedAt(m.id);
        }
        WorkGoesOn(Contents(), meta, pending[i..], l, i, old(EndIds(Contents(), l.registry)));
        assert pending[i..][1..] == pending[i + 1..];
        config := m.up(config);
        meta := Recorded(meta, m, l);
        journal := Saved(meta);
        i := i + 1;
      }
      return Done;
    }
  }
}
