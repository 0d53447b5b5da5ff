// The append-only event log: every append goes to disk and to a bounded in-memory
// buffer; opening recovers both the sequence counter and the buffer from disk.
module EventLogs {
  import opened Common

  datatype Entry = Entry(no: nat, ts: int, kind: string, payload: string, causedBy: Option<int>)

  /** A line of the log file; malformed lines are skipped by every read. */
  datatype Line = Record(entry: Entry) | Malformed

  /** afterSeq defaults to 0, no limit is Infinity, the empty kind filters nothing. */
  datatype ReadOpts = ReadOpts(afterSeq: int, limit: Option<int>, kind: string)

  function Entries(disk: seq<Line>): seq<Entry> {
    if disk == [] then []
    else Entries(disk[..|disk| - 1]) + (if disk[|disk| - 1].Record? then [disk[|disk| - 1].entry] else [])
  }

  predicate Matches(o: ReadOpts, e: Entry) {
    e.no > o.afterSeq && (o.kind == "" || e.kind == o.kind)
  }

  /** The entries a query asks for, before its limit. */
  function Hits(o: ReadOpts, es: seq<Entry>): seq<Entry> {
    if es == [] then []
    else Hits(o, es[..|es| - 1]) + (if Matches(o, es[|es| - 1]) then [es[|es| - 1]] else [])
  }

  /** The limit is tested after each push, so any limit below one still lets one entry through. */
  function Limited(limit: Option<int>, hits: seq<Entry>): seq<Entry> {
    if limit.None? || |hits| <= Max(1, limit.value) then hits else hits[..Max(1, limit.value)]
  }

  /** Sequence numbers strictly increase and stay within the counter. */
  predicate Increasing(es: seq<Entry>) {
    forall i, j :: 0 <= i < j < |es| ==> es[i].no < es[j].no
  }

  predicate Within(es: seq<Entry>, no: nat) {
    forall i :: 0 <= i < |es| ==> es[i].no <= no
  }

  /** Every parent link points at an earlier entry of the log. */
  predicate Causal(es: seq<Entry>) {
    forall i :: 0 <= i < |es| && es[i].causedBy.Some? ==> HasParent(es, i)
  }

  predicate HasParent(es: seq<Entry>, i: nat)
    requires i < |es| && es[i].causedBy.Some?
  {
    exists j :: 0 <= j < i && es[j].no == es[i].causedBy.value
  }

  class EventLog {
    const bufferSize: nat
    /** The log file, which outlives the object. */
    var disk: seq<Line>
    var no: nat
    var buffer: seq<Entry>
    /** How many of the disk's entries a close has put out of the buffer's reach. */
    ghost var dropped: nat

    ghost predicate Valid()
      reads this
    {
      var es := Entries(disk);
      && Increasing(es) && Within(es, no)
      && dropped <= |es|
      && (0 < bufferSize ==> buffer == LastN(es[dropped..], bufferSize))
    }

    /** createEventLog on an existing file: recoverState parses what it can and keeps the tail. */
    constructor (file: seq<Line>, bufferSize: nat)
      requires Increasing(Entries(file))
      ensures Valid() && disk == file && this.bufferSize == bufferSize && dropped == 0
      ensures no == if Entries(file) == [] then 0 else Entries(file)[|Entries(file)| - 1].no
      ensures buffer == LastN(Entries(file), bufferSize) <==> bufferSize > 0 || Entries(file) == []
    {
      hide Entries, JsSlice, LastN, Increasing, Within;
      RecoveredTail(Entries(file), bufferSize);
      this.bufferSize := bufferSize;
      disk := file;
      var entries := Entries(file);
      if |entries| == 0 {
        no, buffer := 0, [];
      } else {
        buffer := JsSlice(entries, 0 - bufferSize, |entries|);
        no := entries[|entries| - 1].no;
      }
      dropped := 0;
    }

    /** `valid` is the payload check, `fails` an I/O error of the disk write. */
    method Append(kind: string, payload: string, causedBy: Option<int>, ts: int, valid: bool, fails: bool)
      returns (r: Option<Entry>)
      requires Valid()
      modifies this
      ensures Valid() && dropped == old(dropped)
      ensures r.Some? <==> valid && !fails
      ensures r.Some? ==> r.value == Entry(old(no) + 1, ts, kind, payload, causedBy)
      ensures no == (if valid then old(no) + 1 else old(no))
      ensures disk == (if r.Some? then old(disk) + [Record(r.value)] else old(disk))
      ensures Entries(disk) == (if r.Some? then old(Entries(disk)) + [r.value] else old(Entries(disk)))
    {
      if !valid {
        return None;
      }
      no := no + 1;
      var entry := Entry(no, ts, kind, payload, causedBy);
      IncreasingExtends(Entries(disk), no - 1, entry);
      if fails {
        return None;
      }
      ghost var es := Entries(disk);
      EntriesOfAppend(disk, Record(entry));
      hide Entries, LastN, Increasing, Within;
      disk := disk + [Record(entry)];
      assert (es + [entry])[dropped..] == es[dropped..] + [entry];
      Remember(entry, es[dropped..]);
      r := Some(entry);
    }

    /** Pushes onto the ring buffer and trims it. */
    method Remember(entry: Entry, ghost window: seq<Entry>)
      requires 0 < bufferSize ==> buffer == LastN(window, bufferSize)
      modifies this`buffer
      ensures 0 < bufferSize ==> buffer == LastN(window + [entry], bufferSize)
    {
      LastNOfExtension(window, [entry], bufferSize);
      buffer := buffer + [entry];
      if |buffer| > bufferSize {
        buffer := buffer[|buffer| - bufferSize..];
      }
    }

    method Close()
      requires Valid()
      modifies this`buffer, this`dropped
      ensures Valid() && buffer == [] && dropped == |Entries(disk)|
    {
      buffer := [];
      dropped := |Entries(disk)|;
    }

    /** A query of the file. */
    method Read(o: ReadOpts) returns (results: seq<Entry>)
      ensures results == Limited(o.limit, Hits(o, Entries(disk)))
      ensures Increasing(Entries(disk)) ==> Answers(o, Entries(disk), results)
    {
      hide Hits, Entries, Answers;
      AnswersExactly(o, Entries(disk));
      NoEntries(o);
      results := [];
      var i := 0;
      while i < |disk|
        invariant 0 <= i <= |disk|
        invariant results == Hits(o, Entries(disk[..i]))
        invariant o.limit.Some? ==> |results| < Max(1, o.limit.value)
      {
        var line := disk[i];
        EntriesOfAppend(disk[..i], line);
        assert disk[..i + 1] == disk[..i] + [line];
        i := i + 1;
        if line.Malformed? {
          continue;
        }
        var entry := line.entry;
        HitsOfAppend(o, Entries(disk[..i - 1]), entry);
        if entry.no <= o.afterSeq {
          continue;
        }
        if o.kind != "" && entry.kind != o.kind {
          continue;
        }
        results := results + [entry];
        if o.limit.Some? && |results| >= o.limit.value {
          EntriesOfConcat(disk[..i], disk[i..]);
          assert disk[..i] + disk[i..] == disk;
          HitsOfConcat(o, Entries(disk[..i]), Entries(disk[i..]));
          return;
        }
      }
      assert disk[..i] == disk;
    }

    /** A query of the buffer. */
    method Recent(o: ReadOpts) returns (results: seq<Entry>)
      ensures results == Limited(o.limit, Hits(o, buffer))
      ensures Increasing(buffer) ==> Answers(o, buffer, results)
    {
      hide Hits, Answers;
      AnswersExactly(o, buffer);
      NoEntries(o);
      results := [];
      var i := 0;
      while i < |buffer|
        invariant 0 <= i <= |buffer|
        invariant results == Hits(o, buffer[..i])
        invariant o.limit.Some? ==> |results| < Max(1, o.limit.value)
      {
        var entry := buffer[i];
        assert buffer[..i + 1] == buffer[..i] + [entry];
        HitsOfAppend(o, buffer[..i], entry);
        i := i + 1;
        if entry.no <= o.afterSeq {
          continue;
        }
        if o.kind != "" && entry.kind != o.kind {
          continue;
        }
        results := results + [entry];
        if o.limit.Some? && |results| >= o.limit.value {
          assert buffer[..i] + buffer[i..] == buffer;
          HitsOfConcat(o, buffer[..i], buffer[i..]);
          return;
        }
      }
      assert buffer[..i] == buffer;
    }

    /** A listener's emit: the declared event types only (None is the wildcard), and a causal link to
        the event being handled unless the caller gives another. */
    method Emit(parent: Entry, declared: Option<set<string>>, registered: set<string>, kind: string, payload: string,
                causedBy: Option<int>, ts: int, valid: bool, fails: bool) returns (r: Option<Entry>)
      requires Valid() && parent in Entries(disk)
      modifies this
      ensures Valid()
      ensures r.Some? <==> kind in (if declared.Some? then declared.value else registered) && valid && !fails
      ensures r.Some? ==>
                r.value == Entry(old(no) + 1, ts, kind, payload, if causedBy.Some? then causedBy else Some(parent.no as int))
      ensures Entries(disk) == (if r.Some? then old(Entries(disk)) + [r.value] else old(Entries(disk)))
      ensures parent.no < old(no) + 1
      ensures causedBy.None? && old(Causal(Entries(disk))) ==> Causal(Entries(disk))
    {
      if kind !in (if declared.Some? then declared.value else registered) {
        return None;
      }
      var link := if causedBy.Some? then causedBy else Some(parent.no as int);
      r := Append(kind, payload, link, ts, valid, fails);
      if r.Some? && causedBy.None? && old(Causal(Entries(disk))) {
        ParentedKeepsCausal(old(Entries(disk)), r.value);
      }
    }
  }

  /** slice(-n): minus zero is zero, which keeps everything. */
  lemma RecoveredTail(es: seq<Entry>, n: nat)
    requires Increasing(es)
    ensures JsSlice(es, 0 - n, |es|) == LastN(es, n) <==> n > 0 || es == []
    ensures n > 0 ==> LastN(es[0..], n) == LastN(es, n)
    ensures if es == [] then LastN(es, n) == [] && Within(es, 0) else Within(es, es[|es| - 1].no)
  {
    assert es[0..] == es;
  }

  lemma IncreasingExtends(es: seq<Entry>, no: nat, e: Entry)
    requires Increasing(es) && Within(es, no) && e.no > no
    ensures Increasing(es + [e]) && Within(es + [e], e.no) && Within(es, e.no)
  {
  }

  lemma NoEntries(o: ReadOpts)
    ensures Entries([]) == [] && Hits(o, []) == []
  {
  }

  lemma EntriesOfAppend(disk: seq<Line>, l: Line)
    ensures Entries(disk + [l]) == Entries(disk) + (if l.Record? then [l.entry] else [])
    ensures l.Malformed? ==> Entries(disk + [l]) == Entries(disk)
  {
    assert (disk + [l])[..|disk|] == disk;
  }

  lemma {:induction false} EntriesOfConcat(a: seq<Line>, b: seq<Line>)
    ensures Entries(a + b) == Entries(a) + Entries(b)
  {
    if b == [] {
      assert a + b == a;
    } else {
      hide Entries;
      var init, last := b[..|b| - 1], b[|b| - 1];
      EntriesOfConcat(a, init);
      EntriesOfAppend(a + init, last);
      EntriesOfAppend(init, last);
      SplitLast(b);
      ConcatAssociates(a, init, [last]);
      ConcatAssociates(Entries(a), Entries(init), if last.Record? then [last.entry] else []);
    }
  }

  lemma HitsOfAppend(o: ReadOpts, es: seq<Entry>, e: Entry)
    ensures Hits(o, es + [e]) == Hits(o, es) + (if Matches(o, e) then [e] else [])
    ensures !Matches(o, e) ==> Hits(o, es + [e]) == Hits(o, es)
  {
    assert (es + [e])[..|es|] == es;
  }

  lemma {:induction false} HitsOfConcat(o: ReadOpts, a: seq<Entry>, b: seq<Entry>)
    ensures Hits(o, a + b) == Hits(o, a) + Hits(o, b)
  {
    if b == [] {
      assert a + b == a;
    } else {
      hide Matches, Hits;
      var init, last := b[..|b| - 1], b[|b| - 1];
      HitsOfConcat(o, a, init);
      HitsOfAppend(o, a + init, last);
      HitsOfAppend(o, init, last);
      SplitLast(b);
      ConcatAssociates(a, init, [last]);
      ConcatAssociates(Hits(o, a), Hits(o, init), if Matches(o, last) then [last] else []);
    }
  }

  lemma {:induction false} HitsEmptyExactly(o: ReadOpts, es: seq<Entry>)
    ensures Hits(o, es) == [] <==> forall i :: 0 <= i < |es| ==> !Matches(o, es[i])
  {
    if es != [] {
      HitsEmptyExactly(o, es[..|es| - 1]);
    }
  }

  /** Dropping the older entries costs a query exactly its hits among them. */
  lemma OlderHits(es: seq<Entry>, n: nat, o: ReadOpts)
    requires |es| > n
    ensures Hits(o, es) == Hits(o, es[..|es| - n]) + Hits(o, LastN(es, n))
  {
    assert es[..|es| - n] + LastN(es, n) == es;
    HitsOfConcat(o, es[..|es| - n], LastN(es, n));
  }

  /** The buffer answers as the file does whenever afterSeq reaches the entry just before its head. */
  lemma RecentEqualsRead(es: seq<Entry>, n: nat, o: ReadOpts)
    requires Increasing(es)
    requires |es| > n ==> es[|es| - n - 1].no <= o.afterSeq
    ensures Limited(o.limit, Hits(o, LastN(es, n))) == Limited(o.limit, Hits(o, es))
  {
    if |es| > n {
      HitsEmptyExactly(o, es[..|es| - n]);
      OlderHits(es, n, o);
      hide Hits, LastN, Limited;
      assert Hits(o, es[..|es| - n]) == [];
      assert [] + Hits(o, LastN(es, n)) == Hits(o, LastN(es, n));
    }
  }

  lemma OlderHitLost(es: seq<Entry>, n: nat, o: ReadOpts)
    requires |es| > n && Matches(o, es[|es| - n - 1])
    ensures |Hits(o, LastN(es, n))| < |Hits(o, es)|
  {
    hide Hits, LastN, Matches;
    var older := es[..|es| - n];
    assert older[|older| - 1] == es[|es| - n - 1];
    HitsEmptyExactly(o, older);
    OlderHits(es, n, o);
  }

  /** For a query without kind or limit that is exactly when it does. */
  lemma RecentEqualsReadExactly(es: seq<Entry>, n: nat, afterSeq: int)
    requires Increasing(es)
    ensures var o := ReadOpts(afterSeq, None, "");
            Hits(o, LastN(es, n)) == Hits(o, es) <==> (|es| > n ==> es[|es| - n - 1].no <= afterSeq)
  {
    var o := ReadOpts(afterSeq, None, "");
    if |es| > n && es[|es| - n - 1].no > afterSeq {
      OlderHitLost(es, n, o);
    } else {
      hide Hits, LastN, Increasing;
      RecentEqualsRead(es, n, o);
    }
  }

  /** A query of either kind, whatever its limit and type: the first hit of the older entries, if there is
      one, is in the file's answer and not in the buffer's. */
  lemma RecentEqualsReadExactlyForAny(es: seq<Entry>, n: nat, o: ReadOpts)
    requires Increasing(es)
    ensures Limited(o.limit, Hits(o, LastN(es, n))) == Limited(o.limit, Hits(o, es))
            <==> (|es| > n ==> Hits(o, es[..|es| - n]) == [])
  {
    if |es| > n {
      var older, newer := es[..|es| - n], LastN(es, n);
      OlderHits(es, n, o);
      if Hits(o, older) == [] {
        assert [] + Hits(o, newer) == Hits(o, newer);
      } else {
        FirstHitDiffers(es, n, o);
        hide Hits, LastN, Increasing;
        LimitedKeepsFirst(o.limit, Hits(o, es));
        LimitedIsFront(o.limit, Hits(o, newer));
      }
    }
  }

  lemma LimitedKeepsFirst(limit: Option<int>, hits: seq<Entry>)
    requires hits != []
    ensures Limited(limit, hits) != [] && Limited(limit, hits)[0] == hits[0]
  {
  }

  lemma LimitedIsFront(limit: Option<int>, hits: seq<Entry>)
    ensures Limited(limit, hits) <= hits
  {
  }

  lemma {:induction false} HitsAreEntries(o: ReadOpts, es: seq<Entry>)
    ensures forall e :: e in Hits(o, es) ==> e in es
  {
    if es != [] {
      HitsAreEntries(o, es[..|es| - 1]);
      SplitLast(es);
    }
  }

  lemma OlderAreOther(es: seq<Entry>, n: nat, e: Entry)
    requires Increasing(es) && |es| > n && e in es[..|es| - n]
    ensures e !in LastN(es, n)
  {
    var newer := LastN(es, n);
    var i :| 0 <= i < |es| - n && es[i] == e;
    forall j | 0 <= j < |newer|
      ensures newer[j] != e
    {
      assert newer[j] == es[|es| - n + j];
    }
  }

  /** The first hit among the older entries is none of the newer ones. */
  lemma FirstHitDiffers(es: seq<Entry>, n: nat, o: ReadOpts)
    requires Increasing(es) && |es| > n && Hits(o, es[..|es| - n]) != []
    ensures Hits(o, es) != [] && Hits(o, es)[0] !in Hits(o, LastN(es, n))
  {
    hide Hits, LastN, Increasing;
    var older, newer := es[..|es| - n], LastN(es, n);
    OlderHits(es, n, o);
    HitsAreEntries(o, older);
    HitsAreEntries(o, newer);
    var first := Hits(o, older)[0];
    assert Hits(o, es)[0] == first && first in Hits(o, older);
    OlderAreOther(es, n, first);
  }

  /** What a query asks for: later entries, of its type if it names one. */
  predicate Wanted(o: ReadOpts, e: Entry) {
    o.afterSeq < e.no && o.kind in {"", e.kind}
  }

  /** The answer to a query of increasing entries: wanted ones, in order, and all of them; under a limit no
      more than that, or one for a limit below one, and then those left out come after all the others. */
  predicate Answers(o: ReadOpts, es: seq<Entry>, results: seq<Entry>) {
    && Increasing(results)
    && (forall e :: e in results ==> e in es && Wanted(o, e))
    && (o.limit.None? ==> forall e :: e in es && Wanted(o, e) ==> e in results)
    && (o.limit.Some? ==>
          var most := if o.limit.value >= 1 then o.limit.value else 1;
          && |results| <= most
          && forall e :: e in es && Wanted(o, e) && e !in results ==>
               |results| == most && forall r :: r in results ==> r.no < e.no)
  }

  lemma {:induction false} HitsAreWanted(o: ReadOpts, es: seq<Entry>, e: Entry)
    ensures e in Hits(o, es) <==> e in es && Wanted(o, e)
  {
    if es != [] {
      HitsAreWanted(o, es[..|es| - 1], e);
      SplitLast(es);
    }
  }

  lemma BelowLast(es: seq<Entry>, e: Entry)
    requires Increasing(es) && es != [] && e in es[..|es| - 1]
    ensures e.no < es[|es| - 1].no
  {
    var i :| 0 <= i < |es| - 1 && es[i] == e;
  }

  lemma {:induction false} HitsIncrease(o: ReadOpts, es: seq<Entry>)
    requires Increasing(es)
    ensures Increasing(Hits(o, es))
  {
    if es != [] {
      var init, last := es[..|es| - 1], es[|es| - 1];
      HitsIncrease(o, init);
      forall k | 0 <= k < |Hits(o, init)|
        ensures Hits(o, init)[k].no < last.no
      {
        HitsAreWanted(o, init, Hits(o, init)[k]);
        BelowLast(es, Hits(o, init)[k]);
      }
    }
  }

  /** A front of an increasing list, and what is behind it. */
  lemma FrontIsBelow(hits: seq<Entry>, n: nat, e: Entry)
    requires Increasing(hits) && n <= |hits|
    ensures Increasing(hits[..n])
    ensures e in hits[..n] ==> e in hits
    ensures e in hits && e !in hits[..n] ==> forall r :: r in hits[..n] ==> r.no < e.no
  {
    if e in hits && e !in hits[..n] {
      assert hits == hits[..n] + hits[n..];
      var i :| 0 <= i < |hits[n..]| && hits[n..][i] == e;
      assert e == hits[n + i];
    }
  }

  /** Main result for queries. */
  lemma AnswersExactly(o: ReadOpts, es: seq<Entry>)
    ensures Increasing(es) ==> Answers(o, es, Limited(o.limit, Hits(o, es)))
  {
    if Increasing(es) {
      hide Hits, Wanted, Increasing;
      var hits, n := Hits(o, es), |Limited(o.limit, Hits(o, es))|;
      HitsIncrease(o, es);
      forall e
        ensures e in hits <==> e in es && Wanted(o, e)
        ensures e in hits[..n] ==> e in hits
        ensures e in hits && e !in hits[..n] ==> forall r :: r in hits[..n] ==> r.no < e.no
      {
        HitsAreWanted(o, es, e);
        FrontIsBelow(hits, n, e);
      }
      assert Increasing(hits[..n]) by {
        FrontIsBelow(hits, n, Entry(0, 0, "", "", None));
      }
      assert hits[..n] == Limited(o.limit, hits);
    }
  }

  /** `limit` bounds the answer except when it is zero and something matches. */
  lemma LimitBoundsExactly(limit: nat, hits: seq<Entry>)
    ensures |Limited(Some(limit), hits)| <= limit <==> limit > 0 || hits == []
  {
  }

  // ---------------------------------------------------------------- writes cut short

  /** How the write of one line ends: whole, not at all, or part of the line and no newline. */
  datatype Write = Whole(entry: Entry) | NotAtAll | Cut

  /** The file with a fragment of a line at its end, or without. */
  datatype LogFile = LogFile(lines: seq<Line>, fragment: bool)

  /** The next line joins a fragment, and the two together do not parse. */
  function AfterWrite(f: LogFile, w: Write): LogFile {
    match w
    case Whole(e) => LogFile(f.lines + [if f.fragment then Malformed else Record(e)], false)
    case NotAtAll => f
    case Cut => LogFile(f.lines, true)
  }

  function AfterWrites(f: LogFile, ws: seq<Write>): LogFile {
    if ws == [] then f else AfterWrite(AfterWrites(f, ws[..|ws| - 1]), ws[|ws| - 1])
  }

  /** The entries whose append was answered, which the buffer is given. */
  function Answered(ws: seq<Write>): seq<Entry> {
    if ws == [] then []
    else
      var last := ws[|ws| - 1];
      if last.Whole? then Answered(ws[..|ws| - 1]) + [last.entry] else Answered(ws[..|ws| - 1])
  }

  predicate AnyCut(ws: seq<Write>) {
    exists i :: 0 <= i < |ws| && ws[i].Cut?
  }

  /** Nothing is written whole behind a fragment. */
  predicate NoneBehindCut(fragment: bool, ws: seq<Write>) {
    && (fragment ==> forall i :: 0 <= i < |ws| ==> !ws[i].Whole?)
    && (forall i, j :: 0 <= i < j < |ws| && ws[i].Cut? ==> !ws[j].Whole?)
  }

  lemma NoneBehindCutOfLast(fragment: bool, ws: seq<Write>)
    requires ws != []
    ensures var init, last := ws[..|ws| - 1], ws[|ws| - 1];
            && (NoneBehindCut(fragment, ws) <==>
                  NoneBehindCut(fragment, init) && (last.Whole? ==> !fragment && !AnyCut(init)))
            && (AnyCut(ws) <==> AnyCut(init) || last.Cut?)
  {
    var init, last := ws[..|ws| - 1], ws[|ws| - 1];
    assert forall i :: 0 <= i < |init| ==> init[i] == ws[i];
    if last.Cut? {
      assert ws[|ws| - 1].Cut?;
    }
  }

  lemma {:induction false} CutFacts(f: LogFile, ws: seq<Write>)
    ensures var after := AfterWrites(f, ws);
            if NoneBehindCut(f.fragment, ws)
            then Entries(after.lines) == Entries(f.lines) + Answered(ws) && (after.fragment <==> f.fragment || AnyCut(ws))
            else |Entries(after.lines)| < |Entries(f.lines)| + |Answered(ws)|
  {
    if ws != [] {
      hide Entries, NoneBehindCut, AnyCut;
      var init, last := ws[..|ws| - 1], ws[|ws| - 1];
      var before := AfterWrites(f, init);
      CutFacts(f, init);
      NoneBehindCutOfLast(f.fragment, ws);
      if last.Whole? {
        EntriesOfAppend(before.lines, if before.fragment then Malformed else Record(last.entry));
        ConcatAssociates(Entries(f.lines), Answered(init), [last.entry]);
      }
    }
  }

  /** The file holds every answered entry, and so agrees with what the buffer was given, exactly when no
      append was answered after a write had been cut short: the first one behind a fragment is lost. */
  lemma CutWriteLosesExactly(f: LogFile, ws: seq<Write>)
    ensures Entries(AfterWrites(f, ws).lines) == Entries(f.lines) + Answered(ws) <==> NoneBehindCut(f.fragment, ws)
  {
    hide Entries, NoneBehindCut, AfterWrites, Answered;
    CutFacts(f, ws);
  }

  // ---------------------------------------------------------------- causal chains

  lemma ParentedKeepsCausal(es: seq<Entry>, e: Entry)
    requires Causal(es)
    requires e.causedBy.Some? ==> exists j :: 0 <= j < |es| && es[j].no == e.causedBy.value
    ensures Causal(es + [e])
  {
    var out := es + [e];
    forall i | 0 <= i < |out| && out[i].causedBy.Some?
      ensures HasParent(out, i)
    {
      if i < |es| {
        assert HasParent(es, i);
        var j :| 0 <= j < i && es[j].no == es[i].causedBy.value;
        assert out[j].no == out[i].causedBy.value;
      } else {
        var j :| 0 <= j < |es| && es[j].no == e.causedBy.value;
        assert out[j].no == out[i].causedBy.value;
      }
    }
  }

  /** The position of an entry's parent. */
  ghost function ParentOf(es: seq<Entry>, i: nat): (j: nat)
    requires Causal(es) && i < |es| && es[i].causedBy.Some?
    ensures j < i && es[j].no == es[i].causedBy.value
  {
    assert HasParent(es, i);
    var j :| 0 <= j < i && es[j].no == es[i].causedBy.value;
    j
  }

  /** From an entry up its parent links to the root. */
  ghost function Chain(es: seq<Entry>, i: nat): (c: seq<nat>)
    requires Causal(es) && i < |es|
    ensures c != [] && c[0] == i && forall k :: 0 <= k < |c| ==> c[k] < |es|
    decreases i
  {
    if es[i].causedBy.None? then [i] else [i] + Chain(es, ParentOf(es, i))
  }

  /** Main result: causal chains end, at an entry nothing caused, through strictly older entries. */
  lemma {:induction false} ChainsTerminate(es: seq<Entry>, i: nat)
    requires Causal(es) && Increasing(es) && i < |es|
    ensures var c := Chain(es, i);
            && |c| <= i + 1
            && es[c[|c| - 1]].causedBy.None?
            && forall k :: 0 <= k < |c| - 1 ==> es[c[k]].causedBy == Some(es[c[k + 1]].no as int) && es[c[k + 1]].no < es[c[k]].no
    decreases i
  {
    if es[i].causedBy.Some? {
      ChainsTerminate(es, ParentOf(es, i));
    }
  }
}
