// Chat transcripts: a capped in-memory copy per session, mirrored event by event onto
// a per-record file through a chain of asynchronous writes, and read back when a dead
// session is opened again.
module ChatTranscripts {
  import opened Common

  /** MAX_TRANSCRIPT_EVENTS of the sessions and MAX_REPLAY_EVENTS of the store. */
  const MAX_EVENTS: nat := 4000

  datatype ChatEvent = ChatEvent(json: string)

  /** How an append to the file ends: the whole line, nothing, or part of it and no newline. */
  datatype Appended = Whole | NotAtAll | Cut

  /** One write that has run; `ok` says whether its event can be read back. */
  datatype Write = Write(event: ChatEvent, how: Appended, ok: bool)

  /** One record: every event ever handed to the store, the writes that have run, the events its file reads
      back as, whether the file ends in part of a line, the writes still queued, the live session's
      transcript, and reads whose session has not been built yet. */
  datatype Record = Record(
    all: seq<ChatEvent>, written: seq<Write>, file: seq<ChatEvent>, fragment: bool, chain: seq<ChatEvent>,
    live: Option<seq<ChatEvent>>, loads: seq<seq<ChatEvent>>)

  /** The transcript directory: mkdir runs once and its promise is kept, a rejected one included. */
  datatype Dir = Untried | Ready | Broken

  datatype Store = Store(dir: Dir, records: map<string, Record>)

  /** A stray event comes from the child of a session already replaced or stopped. Open is a new record's
      first session; Start is one that begins with what a read returned. */
  datatype Step =
    | Emit(event: ChatEvent)
    | Stray(event: ChatEvent)
    | WriteNext(mkdirOk: bool, how: Appended)
    | Read
    | Open
    | Start(load: nat)
    | Stop

  const FRESH := Record([], [], [], false, [], None, [])

  function RecordOf(s: Store, id: string): Record {
    if id in s.records then s.records[id] else FRESH
  }

  /** push, then shift when over the cap. */
  function PushEvent(transcript: seq<ChatEvent>, e: ChatEvent): seq<ChatEvent> {
    var longer := transcript + [e];
    if |longer| > MAX_EVENTS then longer[1..] else longer
  }

  /** Whether the directory is usable for a write that finds it in this state. */
  function DirAfter(dir: Dir, mkdirOk: bool): Dir {
    if dir.Untried? then (if mkdirOk then Ready else Broken) else dir
  }

  /** A line behind a fragment joins it, and the two together do not parse. */
  function Wrote(r: Record, how: Appended): Record
    requires r.chain != []
  {
    var ok := how.Whole? && !r.fragment;
    r.(written := r.written + [Write(r.chain[0], how, ok)],
       file := if ok then r.file + [r.chain[0]] else r.file,
       fragment := how.Cut? || (r.fragment && !how.Whole?),
       chain := r.chain[1..])
  }

  function Queued(r: Record, e: ChatEvent): Record {
    r.(all := r.all + [e], chain := r.chain + [e])
  }

  function RecordStep(r: Record, dir: Dir, step: Step): Record {
    match step
    case Emit(e) => if r.live.None? then r else Queued(r, e).(live := Some(PushEvent(r.live.value, e)))
    case Stray(e) => Queued(r, e)
    case WriteNext(mkdirOk, how) =>
      if r.chain == [] then r else Wrote(r, if DirAfter(dir, mkdirOk).Ready? then how else NotAtAll)
    case Read => r.(loads := r.loads + [LastN(r.file, MAX_EVENTS)])
    case Open => r.(live := Some([]))
    case Start(k) => if k < |r.loads| then r.(live := Some(r.loads[k])) else r
    case Stop => r.(live := None)
  }

  function StoreStep(s: Store, id: string, step: Step): Store {
    var r := RecordOf(s, id);
    var dir := if step.WriteNext? && r.chain != [] then DirAfter(s.dir, step.mkdirOk) else s.dir;
    Store(dir, s.records[id := RecordStep(r, s.dir, step)])
  }

  function Run(s: Store, steps: seq<(string, Step)>): Store {
    if steps == [] then s
    else
      var before := Run(s, steps[..|steps| - 1]);
      StoreStep(before, steps[|steps| - 1].0, steps[|steps| - 1].1)
  }

  // ---------------------------------------------------------------- the file and its queue

  function EventsOf(written: seq<Write>): (r: seq<ChatEvent>)
    ensures |r| == |written|
  {
    seq(|written|, i requires 0 <= i < |written| => written[i].event)
  }

  function Landed(written: seq<Write>): (r: seq<ChatEvent>)
    ensures |r| <= |written|
  {
    if written == [] then []
    else
      var last := written[|written| - 1];
      Landed(written[..|written| - 1]) + (if last.ok then [last.event] else [])
  }

  predicate NoneFailed(r: Record) {
    forall i :: 0 <= i < |r.written| ==> r.written[i].ok
  }

  /** The writes that ran, then the queued ones, are all the record's events in order; the file is
      the ones that landed; the in-memory copy never exceeds the cap. */
  predicate Ordered(r: Record) {
    && EventsOf(r.written) + r.chain == r.all
    && r.file == Landed(r.written)
    && (r.live.Some? ==> |r.live.value| <= MAX_EVENTS)
    && (forall k :: 0 <= k < |r.loads| ==> |r.loads[k]| <= MAX_EVENTS)
  }

  lemma WroteKeeps(r: Record, how: Appended)
    requires Ordered(r) && r.chain != []
    ensures Ordered(Wrote(r, how))
  {
    var w := Write(r.chain[0], how, how.Whole? && !r.fragment);
    assert (r.written + [w])[..|r.written|] == r.written;
    assert EventsOf(r.written + [w]) == EventsOf(r.written) + [r.chain[0]];
    assert r.chain == [r.chain[0]] + r.chain[1..];
    ConcatAssociates(EventsOf(r.written), [r.chain[0]], r.chain[1..]);
  }

  lemma RecordStepKeeps(r: Record, dir: Dir, step: Step)
    requires Ordered(r)
    ensures Ordered(RecordStep(r, dir, step))
  {
    match step
    case Emit(e) => ConcatAssociates(EventsOf(r.written), r.chain, [e]);
    case Stray(e) => ConcatAssociates(EventsOf(r.written), r.chain, [e]);
    case WriteNext(mkdirOk, how) =>
      if r.chain != [] { WroteKeeps(r, if DirAfter(dir, mkdirOk).Ready? then how else NotAtAll); }
    case Read =>
    case Open =>
    case Start(k) =>
    case Stop =>
  }

  /** Main result: in every interleaving over all records, each record's file and queue account for
      all its events in order. */
  lemma {:induction false} EveryRunOrdered(dir: Dir, steps: seq<(string, Step)>, id: string)
    ensures Ordered(RecordOf(Run(Store(dir, map[]), steps), id))
  {
    if steps == [] {
      assert EventsOf([]) + [] == [];
    } else {
      var s, last := Run(Store(dir, map[]), steps[..|steps| - 1]), steps[|steps| - 1];
      EveryRunOrdered(dir, steps[..|steps| - 1], id);
      if last.0 == id {
        RecordStepKeeps(RecordOf(s, id), s.dir, last.1);
      }
    }
  }

  // ---------------------------------------------------------------- what each step does

  /** An event of the live session is queued behind all others and is the last of the at most 4000 held;
      without a live session there is none. */
  lemma EmitExactly(r: Record, dir: Dir, e: ChatEvent)
    requires Ordered(r)
    ensures var t := RecordStep(r, dir, Emit(e));
            && (r.live.None? ==> t == r)
            && (r.live.Some? ==>
                  && t.live == Some(LastN(r.live.value + [e], 4000))
                  && t.chain == r.chain + [e] && t.all == r.all + [e]
                  && t == r.(live := t.live, chain := t.chain, all := t.all))
  {
  }

  /** A write takes the oldest queued event. It can be read back exactly when the directory is usable, the
      line is whole and no part of a line is before it; a cut line leaves its part behind. */
  lemma WriteExactly(r: Record, dir: Dir, mkdirOk: bool, how: Appended)
    requires r.chain != []
    ensures var t := RecordStep(r, dir, WriteNext(mkdirOk, how));
            var usable := dir == Ready || (dir == Untried && mkdirOk);
            && t.chain == r.chain[1..]
            && t.file == (if usable && how.Whole? && !r.fragment then r.file + [r.chain[0]] else r.file)
            && (t.fragment <==> if !usable || how.NotAtAll? then r.fragment else how.Cut?)
            && |t.written| == |r.written| + 1 && t.written[..|r.written|] == r.written
            && t == r.(chain := t.chain, file := t.file, fragment := t.fragment, written := t.written)
  {
  }

  /** A read returns at most the last 4000 events of the file; a session begins with what a read returned or
      with nothing, and ends with its transcript forgotten. */
  lemma SessionsExactly(r: Record, dir: Dir, load: nat)
    ensures RecordStep(r, dir, Read) == r.(loads := r.loads + [LastN(r.file, 4000)])
    ensures RecordStep(r, dir, Open) == r.(live := Some([]))
    ensures RecordStep(r, dir, Start(load)) == if load < |r.loads| then r.(live := Some(r.loads[load])) else r
    ensures RecordStep(r, dir, Stop) == r.(live := None)
  {
  }

  /** Before write i the file ends in a fragment: a write was cut short and none has been whole since. */
  predicate BehindCut(written: seq<Write>, i: nat)
    requires i <= |written|
  {
    exists j :: 0 <= j < i && written[j].how.Cut? && forall k :: j < k < i ==> !written[k].how.Whole?
  }

  /** Exactly the whole writes that are not behind a fragment can be read back. */
  predicate Marked(r: Record) {
    && (r.fragment <==> BehindCut(r.written, |r.written|))
    && (forall i :: 0 <= i < |r.written| ==> (r.written[i].ok <==> r.written[i].how.Whole? && !BehindCut(r.written, i)))
  }

  lemma BehindCutOfPrefix(written: seq<Write>, more: seq<Write>, i: nat)
    requires i <= |written|
    ensures BehindCut(written + more, i) <==> BehindCut(written, i)
  {
    assert forall k :: 0 <= k < i ==> (written + more)[k] == written[k];
    if BehindCut(written, i) {
      var j :| 0 <= j < i && written[j].how.Cut? && forall k :: j < k < i ==> !written[k].how.Whole?;
      assert (written + more)[j].how.Cut?;
    }
    if BehindCut(written + more, i) {
      var j :| 0 <= j < i && (written + more)[j].how.Cut? && forall k :: j < k < i ==> !(written + more)[k].how.Whole?;
      assert written[j].how.Cut? && forall k :: j < k < i ==> (written + more)[k] == written[k];
    }
  }

  lemma BehindCutOfLast(written: seq<Write>, w: Write)
    ensures BehindCut(written + [w], |written| + 1)
            <==> w.how.Cut? || (BehindCut(written, |written|) && !w.how.Whole?)
  {
    var longer := written + [w];
    assert longer[|written|] == w && forall k :: 0 <= k < |written| ==> longer[k] == written[k];
    if w.how.Cut? {
      assert longer[|written|].how.Cut?;
    } else if BehindCut(written, |written|) && !w.how.Whole? {
      var j :| 0 <= j < |written| && written[j].how.Cut? && forall k :: j < k < |written| ==> !written[k].how.Whole?;
      assert longer[j].how.Cut?;
    }
    if BehindCut(longer, |written| + 1) && !w.how.Cut? {
      var j :| 0 <= j < |longer| && longer[j].how.Cut? && forall k :: j < k < |longer| ==> !longer[k].how.Whole?;
      assert written[j].how.Cut? && forall k :: j < k < |written| ==> longer[k] == written[k];
    }
  }

  lemma WroteMarks(r: Record, how: Appended)
    requires Marked(r) && r.chain != []
    ensures Marked(Wrote(r, how))
  {
    hide BehindCut;
    var w := Write(r.chain[0], how, how.Whole? && !r.fragment);
    var longer := r.written + [w];
    BehindCutOfLast(r.written, w);
    forall i | 0 <= i < |longer|
      ensures longer[i].ok <==> longer[i].how.Whole? && !BehindCut(longer, i)
    {
      BehindCutOfPrefix(r.written, [w], i);
      assert i < |r.written| ==> longer[i] == r.written[i];
    }
  }

  /** In every run of every record. */
  lemma {:induction false} EveryRunMarked(dir: Dir, steps: seq<(string, Step)>, id: string)
    ensures Marked(RecordOf(Run(Store(dir, map[]), steps), id))
  {
    if steps != [] {
      hide Marked;
      var s, last := Run(Store(dir, map[]), steps[..|steps| - 1]), steps[|steps| - 1];
      var r := RecordOf(s, id);
      EveryRunMarked(dir, steps[..|steps| - 1], id);
      if last.0 == id {
        StepMarks(r, s.dir, last.1);
      }
    }
  }

  lemma StepMarks(r: Record, dir: Dir, step: Step)
    requires Marked(r)
    ensures Marked(RecordStep(r, dir, step))
  {
    hide BehindCut;
    if step.WriteNext? && r.chain != [] {
      WroteMarks(r, if DirAfter(dir, step.mkdirOk).Ready? then step.how else NotAtAll);
    }
  }

  lemma {:induction false} LandedOfAll(written: seq<Write>)
    ensures Landed(written) == EventsOf(written) <==> forall i :: 0 <= i < |written| ==> written[i].ok
    ensures |Landed(written)| == |written| <==> forall i :: 0 <= i < |written| ==> written[i].ok
  {
    if written != [] {
      var init, last := written[..|written| - 1], written[|written| - 1];
      LandedOfAll(init);
      assert EventsOf(written) == EventsOf(init) + [last.event];
      assert forall i :: 0 <= i < |init| ==> init[i] == written[i];
      if last.ok {
        assert Landed(written)[..|Landed(written)| - 1] == Landed(init);
        assert EventsOf(written)[..|init|] == EventsOf(init);
      }
    }
  }

  /** With no failed write the file followed by its queue is exactly the record's history. */
  lemma FileThenQueueIsAll(r: Record)
    requires Ordered(r)
    ensures r.file + r.chain == r.all <==> NoneFailed(r)
  {
    LandedOfAll(r.written);
    assert |r.file + r.chain| == |r.all| <==> |Landed(r.written)| == |r.written|;
  }

  // ---------------------------------------------------------------- the in-memory copy

  /** The live transcript is the last 4000 of everything the record has seen. */
  predicate InSync(r: Record) {
    r.live.Some? ==> r.live.value == LastN(r.all, MAX_EVENTS)
  }

  lemma PushIsLastN(all: seq<ChatEvent>, e: ChatEvent)
    ensures PushEvent(LastN(all, MAX_EVENTS), e) == LastN(all + [e], MAX_EVENTS)
  {
  }

  /** A session stays in sync through its own events and every write; what breaks it is an event of
      an older child, and what decides it afresh is the read a new session starts from. */
  lemma SyncKept(r: Record, dir: Dir, step: Step)
    requires Ordered(r) && InSync(r) && !step.Stray?
    requires step.Start? && step.load < |r.loads| ==> r.loads[step.load] == LastN(r.all, MAX_EVENTS)
    requires step.Open? ==> r.all == []
    ensures InSync(RecordStep(r, dir, step))
  {
    if step.Emit? {
      PushIsLastN(r.all, step.event);
    }
  }

  /** No event of an older child, and every session of the record starts from an up-to-date read. */
  predicate CleanStep(r: Record, step: Step) {
    && !step.Stray?
    && (step.Start? && step.load < |r.loads| ==> r.loads[step.load] == LastN(r.all, MAX_EVENTS))
    && (step.Open? ==> r.all == [])
  }

  predicate CleanRun(s: Store, steps: seq<(string, Step)>, id: string) {
    forall i :: 0 <= i < |steps| && steps[i].0 == id ==> CleanStep(RecordOf(Run(s, steps[..i]), id), steps[i].1)
  }

  /** Main result: through any such run, whatever other records do, the transcript stays the last
      4000 of the record's history. */
  lemma {:induction false} EveryCleanRunInSync(dir: Dir, steps: seq<(string, Step)>, id: string)
    requires CleanRun(Store(dir, map[]), steps, id)
    ensures InSync(RecordOf(Run(Store(dir, map[]), steps), id))
  {
    if steps != [] {
      var init, last := steps[..|steps| - 1], steps[|steps| - 1];
      var s := Run(Store(dir, map[]), init);
      assert CleanRun(Store(dir, map[]), init, id) by {
        assert forall i :: 0 <= i < |init| ==> init[..i] == steps[..i] && init[i] == steps[i];
      }
      EveryCleanRunInSync(dir, init, id);
      EveryRunOrdered(dir, init, id);
      if last.0 == id {
        assert CleanStep(RecordOf(s, id), steps[|steps| - 1].1);
        SyncKept(RecordOf(s, id), s.dir, last.1);
      }
    }
  }

  /** The last n writes can be read back. */
  predicate LastLanded(written: seq<Write>, n: nat) {
    forall i :: Max(0, |written| - n) <= i < |written| ==> written[i].ok
  }

  lemma LastOfAppend<T>(s: seq<T>, x: T, n: nat)
    requires n > 0
    ensures LastN(s + [x], n) == LastN(s, n - 1) + [x]
  {
  }

  /** A failure further back than n writes does not show in the last n events. */
  lemma {:induction false} LastLandedAgree(written: seq<Write>, n: nat)
    requires LastLanded(written, n)
    ensures LastN(Landed(written), n) == LastN(EventsOf(written), n)
  {
    if written != [] && n > 0 {
      var init, last := written[..|written| - 1], written[|written| - 1];
      hide LastN;
      assert last.ok && forall i :: 0 <= i < |init| ==> init[i] == written[i];
      assert EventsOf(written) == EventsOf(init) + [last.event] && Landed(written) == Landed(init) + [last.event];
      hide EventsOf, Landed;
      LastLandedAgree(init, n - 1);
      LastOfAppend(Landed(init), last.event, n);
      LastOfAppend(EventsOf(init), last.event, n);
    } else {
      assert LastN(Landed(written), n) == [] && LastN(EventsOf(written), n) == [];
    }
  }

  lemma {:induction false} NotLanded(written: seq<Write>, e: ChatEvent)
    requires forall i :: 0 <= i < |written| && written[i].ok ==> written[i].event != e
    ensures e !in Landed(written)
  {
    if written != [] {
      NotLanded(written[..|written| - 1], e);
    }
  }

  /** What happens to any record: the file's tail is the history's exactly when nothing is queued and the
      writes of that tail landed. Events of the tail are told apart when the history fits or has no repeats. */
  lemma TailAgreesExactly(r: Record)
    requires Ordered(r) && (|r.all| <= MAX_EVENTS || Distinct(r.all))
    ensures LastN(r.file, MAX_EVENTS) == LastN(r.all, MAX_EVENTS) <==> r.chain == [] && LastLanded(r.written, MAX_EVENTS)
  {
    if r.chain == [] && LastLanded(r.written, MAX_EVENTS) {
      LastLandedAgree(r.written, MAX_EVENTS);
      assert r.all == EventsOf(r.written);
    } else if |r.all| <= MAX_EVENTS {
      ShortFileDiffers(r);
    } else {
      MissingEventShows(r);
    }
  }

  lemma ShortFileDiffers(r: Record)
    requires Ordered(r) && |r.all| <= MAX_EVENTS && !(r.chain == [] && LastLanded(r.written, MAX_EVENTS))
    ensures LastN(r.file, MAX_EVENTS) != LastN(r.all, MAX_EVENTS)
  {
    LandedOfAll(r.written);
    assert |r.all| == |r.written| + |r.chain|;
    assert |r.file| < |r.all|;
  }

  /** The event at position k of the tail is queued, or its write failed: no other write can stand in for it. */
  lemma MissingEventShows(r: Record)
    requires Ordered(r) && |r.all| > MAX_EVENTS && Distinct(r.all)
    requires !(r.chain == [] && LastLanded(r.written, MAX_EVENTS))
    ensures LastN(r.file, MAX_EVENTS) != LastN(r.all, MAX_EVENTS)
  {
    var k := MissingPosition(r);
    var e := r.all[k];
    assert LastN(r.all, MAX_EVENTS)[k - (|r.all| - MAX_EVENTS)] == e;
    forall i | 0 <= i < |r.written| && r.written[i].ok
      ensures r.written[i].event != e
    {
      assert r.written[i].event == r.all[i] && i != k;
    }
    NotLanded(r.written, e);
  }

  lemma MissingPosition(r: Record) returns (k: nat)
    requires Ordered(r) && |r.all| > MAX_EVENTS && !(r.chain == [] && LastLanded(r.written, MAX_EVENTS))
    ensures |r.all| - MAX_EVENTS <= k < |r.all|
    ensures k < |r.written| ==> !r.written[k].ok
  {
    if r.chain != [] {
      k := |r.all| - 1;
    } else {
      k :| |r.written| - MAX_EVENTS <= k < |r.written| && !r.written[k].ok;
    }
  }

  /** Main result: a session dies in sync, its queue drains with the last 4000 writes readable, whatever
      failed or was cut short before, and the record is opened again: the new session starts with exactly the transcript
      the dead one held. */
  lemma RehydratedAgrees(r: Record, dir: Dir, held: seq<ChatEvent>)
    requires Ordered(r) && r.live == Some(held) && InSync(r)
    requires r.chain == [] && LastLanded(r.written, MAX_EVENTS)
    ensures var again := RecordStep(RecordStep(RecordStep(r, dir, Stop), dir, Read), dir, Start(|r.loads|));
            again.live == Some(held) && InSync(again)
  {
    hide LastN, LastLanded;
    LastLandedAgree(r.written, MAX_EVENTS);
    assert r.all == EventsOf(r.written);
  }

  /** A session opened now is in sync exactly when the queue is drained and the last 4000 writes are
      readable, none failed or cut short or the first whole one behind a cut: opened any earlier, it lacks what the file's tail lacks. */
  lemma RehydratesExactly(r: Record, dir: Dir)
    requires Ordered(r) && (|r.all| <= MAX_EVENTS || Distinct(r.all))
    ensures InSync(RecordStep(RecordStep(r, dir, Read), dir, Start(|r.loads|)))
            <==> r.chain == [] && LastLanded(r.written, MAX_EVENTS)
  {
    hide LastN, LastLanded, Ordered, Distinct;
    TailAgreesExactly(r);
  }

  /** In terms of how the writes ended: each of the last 4000 was whole, and before none of them did the
      file end in part of a line. */
  lemma RehydratesExactlyByWrites(r: Record, dir: Dir)
    requires Ordered(r) && Marked(r) && (|r.all| <= MAX_EVENTS || Distinct(r.all))
    ensures InSync(RecordStep(RecordStep(r, dir, Read), dir, Start(|r.loads|)))
            <==> && r.chain == []
                 && forall i :: Max(0, |r.written| - MAX_EVENTS) <= i < |r.written|
                      ==> r.written[i].how.Whole? && !BehindCut(r.written, i)
  {
    RehydratesExactly(r, dir);
    hide Ordered, InSync, RecordStep, BehindCut, Distinct;
  }

  /** Draining changes neither the history nor the transcript, and ends. */
  function DrainAll(r: Record): (d: Record)
    ensures d.chain == [] && d.all == r.all && d.live == r.live && d.loads == r.loads
    decreases |r.chain|
  {
    if r.chain == [] then r else DrainAll(Wrote(r, Whole))
  }

  /** Once the queue has drained with whole writes, event i can be read back: a fragment the file ends in
      takes the first queued event with it. */
  predicate ReadableAfterDrain(r: Record, i: nat) {
    if i < |r.written| then r.written[i].ok else !(r.fragment && i == |r.written|)
  }

  lemma {:induction false} DrainKeeps(r: Record)
    requires Ordered(r)
    ensures Ordered(DrainAll(r)) && |DrainAll(r).written| == |r.all|
    ensures forall i :: 0 <= i < |r.all| ==> (DrainAll(r).written[i].ok <==> ReadableAfterDrain(r, i))
    decreases |r.chain|
  {
    if r.chain != [] {
      WroteKeeps(r, Whole);
      DrainKeeps(Wrote(r, Whole));
      assert Wrote(r, Whole).written[|r.written|].ok == !r.fragment;
      forall i | 0 <= i < |r.all|
        ensures ReadableAfterDrain(Wrote(r, Whole), i) <==> ReadableAfterDrain(r, i)
      {
        if i < |r.written| {
          assert Wrote(r, Whole).written[i] == r.written[i];
        }
      }
    }
  }

  function Reopened(r: Record, dir: Dir): Record {
    var d := DrainAll(r);
    RecordStep(RecordStep(RecordStep(d, dir, Stop), dir, Read), dir, Start(|d.loads|))
  }

  /** So whenever a session dies, draining and reopening restores it, unless one of its last 4000 events
      cannot be read back. */
  lemma DieDrainReopen(r: Record, dir: Dir, held: seq<ChatEvent>)
    requires Ordered(r) && r.live == Some(held) && InSync(r)
    requires forall i :: Max(0, |r.all| - MAX_EVENTS) <= i < |r.all| ==> ReadableAfterDrain(r, i)
    ensures Reopened(r, dir).live == Some(held)
  {
    DrainKeeps(r);
    hide ReadableAfterDrain, Ordered;
    RehydratedAgrees(DrainAll(r), dir, held);
  }

  lemma ReopenedHolds(r: Record, dir: Dir)
    ensures Reopened(r, dir).live == Some(LastN(DrainAll(r).file, MAX_EVENTS))
  {
    hide LastN, DrainAll;
  }

  lemma LandedAfterDrain(r: Record)
    requires Ordered(r)
    ensures LastLanded(DrainAll(r).written, MAX_EVENTS)
            <==> forall i :: Max(0, |r.all| - MAX_EVENTS) <= i < |r.all| ==> ReadableAfterDrain(r, i)
  {
    DrainKeeps(r);
    hide Ordered, ReadableAfterDrain, DrainAll;
  }

  /** And exactly then, for a history within the cap or without repeats. */
  lemma DieDrainReopenExactly(r: Record, dir: Dir, held: seq<ChatEvent>)
    requires Ordered(r) && r.live == Some(held) && InSync(r) && (|r.all| <= MAX_EVENTS || Distinct(r.all))
    ensures Reopened(r, dir).live == Some(held)
            <==> forall i :: Max(0, |r.all| - MAX_EVENTS) <= i < |r.all| ==> ReadableAfterDrain(r, i)
  {
    DrainKeeps(r);
    hide ReadableAfterDrain, Ordered, LastN, LastLanded, Distinct, Reopened, DrainAll;
    ReopenedHolds(r, dir);
    LandedAfterDrain(r);
    TailAgreesExactly(DrainAll(r));
  }

  // ---------------------------------------------------------------- the directory

  /** One failed mkdir is never retried: from then on no write of any record lands. */
  lemma {:induction false} BrokenDirLosesAll(s: Store, steps: seq<(string, Step)>, id: string)
    requires s.dir.Broken?
    ensures Run(s, steps).dir.Broken?
    ensures RecordOf(Run(s, steps), id).file == RecordOf(s, id).file
  {
    if steps != [] {
      BrokenDirLosesAll(s, steps[..|steps| - 1], id);
    }
  }

  /** Step i runs a queued write. */
  predicate Writes(s: Store, steps: seq<(string, Step)>, i: nat)
    requires i < |steps|
  {
    steps[i].1.WriteNext? && RecordOf(Run(s, steps[..i]), steps[i].0).chain != []
  }

  predicate FirstWrite(s: Store, steps: seq<(string, Step)>, i: nat)
    requires i < |steps|
  {
    Writes(s, steps, i) && forall j :: 0 <= j < i ==> !Writes(s, steps, j)
  }

  /** The first write of all to run, of whatever record, found that mkdir fails. */
  predicate MkdirFailed(s: Store, steps: seq<(string, Step)>) {
    exists i: nat :: i < |steps| && FirstWrite(s, steps, i) && !steps[i].1.mkdirOk
  }

  predicate AnyWrite(s: Store, steps: seq<(string, Step)>) {
    exists i: nat :: i < |steps| && Writes(s, steps, i)
  }

  lemma WritesOfInit(s: Store, steps: seq<(string, Step)>, i: nat)
    requires i < |steps| - 1
    ensures var init := steps[..|steps| - 1];
            (Writes(s, steps, i) <==> Writes(s, init, i)) && steps[i] == init[i]
  {
    assert steps[..i] == steps[..|steps| - 1][..i];
  }

  lemma FirstWriteOfInit(s: Store, steps: seq<(string, Step)>, i: nat)
    requires i < |steps| - 1
    ensures FirstWrite(s, steps, i) <==> FirstWrite(s, steps[..|steps| - 1], i)
  {
    hide Writes;
    var init := steps[..|steps| - 1];
    WritesOfInit(s, steps, i);
    if FirstWrite(s, steps, i) {
      forall j | 0 <= j < i
        ensures !Writes(s, init, j)
      {
        WritesOfInit(s, steps, j);
      }
    }
    if FirstWrite(s, init, i) {
      forall j | 0 <= j < i
        ensures !Writes(s, steps, j)
      {
        WritesOfInit(s, steps, j);
      }
    }
  }

  lemma AnyWriteOfLast(s: Store, steps: seq<(string, Step)>)
    requires steps != []
    ensures var init := steps[..|steps| - 1];
            AnyWrite(s, steps) <==> AnyWrite(s, init) || Writes(s, steps, |init|)
    ensures var init := steps[..|steps| - 1];
            FirstWrite(s, steps, |init|) <==> Writes(s, steps, |init|) && !AnyWrite(s, init)
  {
    hide Writes;
    var init := steps[..|steps| - 1];
    forall i: nat | i < |init|
      ensures Writes(s, steps, i) <==> Writes(s, init, i)
    {
      WritesOfInit(s, steps, i);
    }
    if AnyWrite(s, init) {
      var i: nat :| i < |init| && Writes(s, init, i);
      assert Writes(s, steps, i);
    }
    if AnyWrite(s, steps) && !Writes(s, steps, |init|) {
      var i: nat :| i < |steps| && Writes(s, steps, i);
      assert Writes(s, init, i);
    }
  }

  lemma MkdirFailedOfLast(s: Store, steps: seq<(string, Step)>)
    requires steps != []
    ensures var init := steps[..|steps| - 1];
            MkdirFailed(s, steps)
            <==> MkdirFailed(s, init) || (!AnyWrite(s, init) && Writes(s, steps, |init|) && !steps[|init|].1.mkdirOk)
  {
    hide Writes, FirstWrite;
    var init := steps[..|steps| - 1];
    AnyWriteOfLast(s, steps);
    hide AnyWrite;
    forall i: nat | i < |init|
      ensures steps[i] == init[i] && (FirstWrite(s, steps, i) <==> FirstWrite(s, init, i))
    {
      FirstWriteOfInit(s, steps, i);
    }
    forall i: nat | i < |steps| && FirstWrite(s, steps, i)
      ensures steps[i].1.WriteNext?
    {
      FirstWriteWrites(s, steps, i);
    }
    if MkdirFailed(s, init) {
      var i: nat :| i < |init| && FirstWrite(s, init, i) && !init[i].1.mkdirOk;
      assert FirstWrite(s, steps, i);
    }
  }

  lemma FirstWriteWrites(s: Store, steps: seq<(string, Step)>, i: nat)
    requires i < |steps| && FirstWrite(s, steps, i)
    ensures steps[i].1.WriteNext?
  {
  }

  /** The directory is unusable after a run exactly when the first write to run found that mkdir fails, and
      not yet tried exactly when none has run. */
  lemma {:induction false} DirExactly(s: Store, steps: seq<(string, Step)>)
    requires s.dir.Untried?
    ensures Run(s, steps).dir.Broken? <==> MkdirFailed(s, steps)
    ensures Run(s, steps).dir.Untried? <==> !AnyWrite(s, steps)
  {
    if steps != [] {
      var init, last := steps[..|steps| - 1], steps[|steps| - 1];
      DirExactly(s, init);
      AnyWriteOfLast(s, steps);
      MkdirFailedOfLast(s, steps);
      hide MkdirFailed, AnyWrite;
    }
  }

  /** A queued write adds its event to what the file reads back as exactly when it is whole, no fragment is
      before it, and the first write of all, this one if there was none, did not find that mkdir fails. */
  lemma LandsExactly(s: Store, steps: seq<(string, Step)>, id: string, mkdirOk: bool, how: Appended)
    requires s.dir.Untried? && RecordOf(Run(s, steps), id).chain != []
    ensures var more := steps + [(id, WriteNext(mkdirOk, how))];
            var r := RecordOf(Run(s, steps), id);
            RecordOf(Run(s, more), id).file == r.file + [r.chain[0]]
            <==> how.Whole? && !r.fragment && !MkdirFailed(s, more)
  {
    var more := steps + [(id, WriteNext(mkdirOk, how))];
    var r := RecordOf(Run(s, steps), id);
    assert more[..|steps|] == steps;
    DirExactly(s, more);
    hide MkdirFailed, AnyWrite;
    assert r.file != r.file + [r.chain[0]];
  }

  /** Records do not disturb each other. */
  lemma OtherRecordsUntouched(s: Store, id: string, other: string, step: Step)
    requires id != other
    ensures RecordOf(StoreStep(s, id, step), other) == RecordOf(s, other)
  {
  }

  // ---------------------------------------------------------------- as the program runs it

  /** The store: per record the tail of its write chain, and the files themselves. */
  class ChatTranscriptStore {
    var ready: Dir
    var writeChains: map<string, seq<ChatEvent>>
    /** What each record's file reads back as, and the files that end in part of a line. */
    var files: map<string, seq<ChatEvent>>
    var fragments: set<string>
    /** The state of the specification this store stands for. */
    ghost var spec: Store

    ghost predicate Valid()
      reads this
    {
      ready == spec.dir && forall id :: Agrees(id)
    }

    ghost predicate Agrees(id: string)
      reads this
    {
      && ChainOf(id) == RecordOf(spec, id).chain && FileOf(id) == RecordOf(spec, id).file
      && (id in fragments <==> RecordOf(spec, id).fragment)
    }

    constructor ()
      ensures ready == Untried && writeChains == map[] && files == map[]
      ensures Valid() && spec == Store(Untried, map[])
    {
      ready, writeChains, files, fragments := Untried, map[], map[], {};
      spec := Store(Untried, map[]);
    }

    function ChainOf(id: string): seq<ChatEvent>
      reads this`writeChains
    {
      if id in writeChains then writeChains[id] else []
    }

    function FileOf(id: string): seq<ChatEvent>
      reads this`files
    {
      if id in files then files[id] else []
    }

    /** `own` says whether the event comes from the record's live session. */
    method Append(id: string, e: ChatEvent, ghost own: bool)
      requires Valid() && (own ==> RecordOf(spec, id).live.Some?)
      modifies this`writeChains, this`spec
      ensures Valid() && spec == StoreStep(old(spec), id, if own then Emit(e) else Stray(e))
      ensures ChainOf(id) == old(ChainOf(id)) + [e]
      ensures forall other :: other != id ==> ChainOf(other) == old(ChainOf(other))
    {
      var prev := if id in writeChains then writeChains[id] else [];
      assert Agrees(id);
      writeChains := writeChains[id := prev + [e]];
      spec := StoreStep(spec, id, if own then Emit(e) else Stray(e));
      forall other
        ensures Agrees(other)
      {
        assert old(Agrees(other));
      }
    }

    /** The next queued write of a record runs. */
    method RunWrite(id: string, mkdirOk: bool, how: Appended)
      requires Valid() && ChainOf(id) != []
      modifies this
      ensures Valid() && spec == StoreStep(old(spec), id, WriteNext(mkdirOk, how))
      ensures ready == DirAfter(old(ready), mkdirOk)
      ensures ChainOf(id) == old(ChainOf(id))[1..]
      ensures FileOf(id)
              == if ready.Ready? && how.Whole? && id !in old(fragments) then old(FileOf(id)) + [old(ChainOf(id))[0]] else old(FileOf(id))
      ensures forall other :: other != id ==> ChainOf(other) == old(ChainOf(other)) && FileOf(other) == old(FileOf(other))
    {
      assert Agrees(id);
      spec := StoreStep(spec, id, WriteNext(mkdirOk, how));
      var chain := writeChains[id];
      if ready.Untried? {
        ready := if mkdirOk then Ready else Broken;
      }
      if ready.Ready? {
        AppendLine(id, chain[0], how);
      }
      writeChains := writeChains[id := chain[1..]];
      forall other
        ensures Agrees(other)
      {
        assert old(Agrees(other));
      }
    }

    /** appendFile: a line written whole behind a fragment ends up in one unreadable line with it. */
    method AppendLine(id: string, e: ChatEvent, how: Appended)
      modifies this`files, this`fragments
      ensures FileOf(id) == if how.Whole? && id !in old(fragments) then old(FileOf(id)) + [e] else old(FileOf(id))
      ensures forall other :: other != id ==> FileOf(other) == old(FileOf(other))
      ensures fragments == match how
                           case Whole => old(fragments) - {id}
                           case NotAtAll => old(fragments)
                           case Cut => old(fragments) + {id}
    {
      match how {
        case Whole =>
          if id !in fragments {
            files := files[id := (if id in files then files[id] else []) + [e]];
          }
          fragments := fragments - {id};
        case NotAtAll =>
        case Cut => fragments := fragments + {id};
      }
    }

    /** Every event of a record's file; none when there is no file. */
    method ParseFile(id: string) returns (all: seq<ChatEvent>)
      ensures all == FileOf(id)
    {
      all := [];
      if id !in files {
        return;
      }
      var i := 0;
      while i < |files[id]|
        invariant 0 <= i <= |files[id]| && all == files[id][..i]
      {
        all := all + [files[id][i]];
        i := i + 1;
      }
    }

    /** The last events of a record. */
    method ReadTranscript(id: string) returns (out: seq<ChatEvent>)
      requires Valid()
      modifies this`spec
      ensures Valid() && spec == StoreStep(old(spec), id, Read)
      ensures RecordOf(spec, id).loads == old(RecordOf(spec, id).loads) + [out]
      ensures out == LastN(FileOf(id), MAX_EVENTS)
    {
      var all := ParseFile(id);
      out := if |all| > MAX_EVENTS then all[|all| - MAX_EVENTS..] else all;
      assert out == LastN(all, MAX_EVENTS);
      hide LastN;
      assert Agrees(id);
      spec := StoreStep(spec, id, Read);
      forall other
        ensures Agrees(other)
      {
        assert old(Agrees(other));
      }
    }
  }

  class ChatSession {
    const recordId: string
    const store: ChatTranscriptStore
    var transcript: seq<ChatEvent>
    /** Everything the record had and got. */
    ghost var history: seq<ChatEvent>

    ghost predicate Valid()
      reads this
    {
      transcript == LastN(history, MAX_EVENTS)
    }

    /** This is the record's live session, and its transcript the one the specification holds. */
    ghost predicate IsLive()
      reads this, store
    {
      store.Valid() && RecordOf(store.spec, recordId).live == Some(transcript)
    }

    /** A record's first session begins empty, a later one with what a read returned; `before` is the
        history that read stood for. */
    constructor (recordId: string, store: ChatTranscriptStore, initial: seq<ChatEvent>, ghost before: seq<ChatEvent>,
                 ghost load: Option<nat>)
      requires initial == LastN(before, MAX_EVENTS) && store.Valid()
      requires match load
               case None => initial == []
               case Some(k) => k < |RecordOf(store.spec, recordId).loads| && initial == RecordOf(store.spec, recordId).loads[k]
      modifies store`spec
      ensures Valid() && history == before && this.recordId == recordId && this.store == store && transcript == initial
      ensures store.spec == StoreStep(old(store.spec), recordId, if load.None? then Open else Start(load.value)) && IsLive()
    {
      this.recordId, this.store, transcript, history := recordId, store, initial, before;
      new;
      store.spec := StoreStep(store.spec, recordId, if load.None? then Open else Start(load.value));
      forall id
        ensures store.Agrees(id)
      {
        assert old(store.Agrees(id));
      }
    }

    /** `own` is false for a session already replaced, whose child still talks. */
    method AppendTranscript(e: ChatEvent, ghost own: bool)
      requires Valid() && store.Valid() && (own ==> IsLive())
      modifies this`transcript, this`history, store`writeChains, store`spec
      ensures Valid() && history == old(history) + [e]
      ensures store.spec == StoreStep(old(store.spec), recordId, if own then Emit(e) else Stray(e))
      ensures own ==> IsLive()
      ensures transcript == PushEvent(old(transcript), e)
      ensures store.ChainOf(recordId) == old(store.ChainOf(recordId)) + [e]
      ensures forall other :: other != recordId ==> store.ChainOf(other) == old(store.ChainOf(other))
    {
      PushIsLastN(history, e);
      transcript := transcript + [e];
      if |transcript| > MAX_EVENTS {
        transcript := transcript[1..];
      }
      history := history + [e];
      store.Append(recordId, e, own);
    }
  }
}
