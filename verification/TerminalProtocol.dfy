// The terminal session as a state machine over its full output and exit history.
// This is the specification PersistentSession.dfy is proved against; the laws of
// every run are stated and proved here.
module TerminalProtocol {
  import opened Common
  import opened ReplayBuffers

  const RESPAWN_WINDOW_MS := 30_000
  const RESPAWN_WINDOW_LIMIT := 3
  const CURSOR_BYTES_INTERVAL := 65_536

  /** What a client receives: binary output, and the control messages carrying a position or lifecycle news. */
  datatype Frame =
    | Bytes(data: seq<byte>)
    | Attached(replayFromSeq: int, tail: nat, scrollbackTruncated: bool)
    | Cursor(at: nat)
    | ChildExited(code: int)
    | ChildRespawned(pid: nat)
    | Exit(code: int)

  /** One stay of a socket: everything delivered to it from its attach on. `open` is readyState === OPEN. */
  datatype Attachment = Attachment(socket: nat, open: bool, frames: seq<Frame>)

  /** The child terminal; `paused` is the read stream's own state, not the session's flag. */
  datatype Pty = Pty(pid: nat, paused: bool)

  datatype Limits = Limits(capacity: nat, highWatermark: nat, lowWatermark: nat)

  datatype Session = Session(
    history: seq<byte>,
    current: Option<Attachment>,
    past: seq<Attachment>,
    lastCursorSeq: nat,
    ticking: bool,
    pty: Pty,
    paused: bool,
    clock: int,
    exits: seq<int>,
    timer: Option<nat>,
    armed: set<nat>,
    nextId: nat,
    disposed: bool)

  /** `buffered` is the socket's bufferedAmount as the code reads it; `elapsed` advances the clock. */
  datatype Event =
    | PtyData(data: seq<byte>, buffered: nat)
    | SendDone(ok: bool, buffered: nat)
    | Attach(socket: nat, open: bool, since: Option<int>)
    | SocketClosing
    | SocketClosed(socket: nat)
    | Detach
    | PtyExit(pid: nat, code: int, elapsed: nat)
    | TimerFired(id: nat, spawns: bool)
    | CursorTick
    | Dispose

  function Initial(seed: seq<byte>): Session {
    Session(seed, None, [], 0, false, Pty(0, false), false, 0, [], None, {}, 1, false)
  }

  /** What the client has after one more frame is sent: a socket that is not open receives nothing. */
  function Deliver(client: Option<Attachment>, f: Frame): Option<Attachment> {
    if client.Some? && client.value.open then Some(client.value.(frames := client.value.frames + [f])) else client
  }

  /** The stays that are over once the current client, if any, is let go. */
  function Stays(s: Session): seq<Attachment> {
    if s.current.Some? then s.past + [s.current.value] else s.past
  }

  /** Un-pauses the PTY if backpressure paused it. */
  function Resumed(s: Session): Pty {
    if s.paused then s.pty.(paused := false) else s.pty
  }

  /** The exit times in the window ending at `now`, out of all of ts. */
  function Recent(ts: seq<int>, now: int): seq<int> {
    if ts == [] then []
    else Recent(ts[..|ts| - 1], now)
         + (if now - ts[|ts| - 1] < RESPAWN_WINDOW_MS then [ts[|ts| - 1]] else [])
  }

  /** What an attach sends: the missed bytes, if any, then where they start and where the session is. */
  function Greeting(l: Limits, history: seq<byte>, since: Option<int>): seq<Frame> {
    var slice := Replay(history, l.capacity, if since.Some? then since.value else 0);
    var truncated := since.Some? && slice.effectiveSeq > since.value;
    (if slice.bytes != [] then [Bytes(slice.bytes)] else [])
    + [Attached(slice.effectiveSeq, slice.tailSeq, truncated)]
  }

  function PtyDataStep(l: Limits, s: Session, data: seq<byte>, buffered: nat): Session {
    if s.disposed then s
    else
      var history := s.history + data;
      var sent := Deliver(s.current, Bytes(data));
      var full := s.current.Some? && !s.paused && buffered >= l.highWatermark;
      var due := s.current.Some? && |history| - s.lastCursorSeq >= CURSOR_BYTES_INTERVAL;
      s.(history := history,
         current := if due then Deliver(sent, Cursor(|history|)) else sent,
         lastCursorSeq := if due then |history| else s.lastCursorSeq,
         paused := s.paused || full,
         pty := if full then s.pty.(paused := true) else s.pty)
  }

  function SendDoneStep(l: Limits, s: Session, ok: bool, buffered: nat): Session {
    if ok && s.paused && buffered <= l.lowWatermark then s.(paused := false, pty := s.pty.(paused := false)) else s
  }

  function AttachStep(l: Limits, s: Session, socket: nat, open: bool, since: Option<int>): Session {
    if s.disposed then s
    else
      s.(past := Stays(s),
         current := Some(Attachment(socket, open, if open then Greeting(l, s.history, since) else [])),
         paused := false,
         pty := Resumed(s),
         lastCursorSeq := |s.history|,
         ticking := true)
  }

  function DetachStep(s: Session): Session {
    if s.current.None? then s
    else s.(past := Stays(s), current := None, paused := false, pty := Resumed(s), ticking := false)
  }

  function ClosingStep(s: Session): Session {
    if s.current.Some? then s.(current := Some(s.current.value.(open := false))) else s
  }

  /** Clears the pending timer, if any. */
  function Cleared(s: Session): set<nat> {
    if s.timer.Some? then s.armed - {s.timer.value} else s.armed
  }

  function DisposeStep(s: Session): Session {
    if s.disposed then s
    else s.(disposed := true, ticking := false, timer := None, armed := Cleared(s), past := Stays(s), current := None)
  }

  predicate CircuitOpens(exits: seq<int>, now: int) {
    |Recent(exits, now)| > RESPAWN_WINDOW_LIMIT
  }

  /** The exit is recorded and the client told. */
  function Crashed(s: Session, code: int): Session {
    s.(exits := s.exits + [s.clock], current := Deliver(s.current, ChildExited(code)))
  }

  /** The client is told the session is over, and it is. */
  function Ended(s: Session, code: int): Session {
    DisposeStep(s.(current := Deliver(s.current, Exit(code))))
  }

  /** Sets the respawn timer, clearing the one already set. */
  function Arm(s: Session): Session {
    s.(timer := Some(s.nextId), armed := Cleared(s) + {s.nextId}, nextId := s.nextId + 1)
  }

  function CrashStep(s: Session, code: int): Session {
    var crashed := Crashed(s, code);
    if CircuitOpens(crashed.exits, s.clock) then Ended(crashed, code) else Arm(crashed)
  }

  function PtyExitStep(s: Session, pid: nat, code: int, elapsed: nat): Session {
    var s0 := s.(clock := s.clock + elapsed);
    if s.disposed || pid != s.pty.pid then s0 else CrashStep(s0, code)
  }

  function TimerStep(s: Session, id: nat, spawns: bool): Session {
    if id !in s.armed then s
    else
      var s1 := s.(armed := s.armed - {id}, timer := None);
      if s.disposed then s1
      else if spawns then
        s1.(pty := Pty(s.nextId, false), nextId := s.nextId + 1, current := Deliver(s.current, ChildRespawned(s.nextId)))
      else Ended(s1, -1)
  }

  function CursorStep(s: Session): Session {
    if s.disposed || s.current.None? || |s.history| == s.lastCursorSeq then s
    else s.(lastCursorSeq := |s.history|, current := Deliver(s.current, Cursor(|s.history|)))
  }

  function Step(l: Limits, s: Session, e: Event): Session {
    match e
    case PtyData(data, buffered) => PtyDataStep(l, s, data, buffered)
    case SendDone(ok, buffered) => SendDoneStep(l, s, ok, buffered)
    case Attach(socket, open, since) => AttachStep(l, s, socket, open, since)
    case SocketClosing => ClosingStep(s)
    case SocketClosed(socket) => if s.current.Some? && s.current.value.socket == socket then DetachStep(s) else s
    case Detach => DetachStep(s)
    case PtyExit(pid, code, elapsed) => PtyExitStep(s, pid, code, elapsed)
    case TimerFired(id, spawns) => TimerStep(s, id, spawns)
    case CursorTick => CursorStep(s)
    case Dispose => DisposeStep(s)
  }

  function Run(l: Limits, s: Session, events: seq<Event>): Session {
    if events == [] then s else Step(l, Run(l, s, events[..|events| - 1]), events[|events| - 1])
  }

  // ---------------------------------------------------------------- what a client holds

  /** All output bytes in the frames, in order. */
  function Held(frames: seq<Frame>): seq<byte> {
    if frames == [] then []
    else Held(frames[..|frames| - 1]) + (if frames[|frames| - 1].Bytes? then frames[|frames| - 1].data else [])
  }

  predicate IsMark(f: Frame) {
    f.Attached? || f.Cursor?
  }

  /** The output position a control frame announces. */
  function MarkOf(f: Frame): nat
    requires IsMark(f)
  {
    if f.Attached? then f.tail else f.at
  }

  /** The `attached` message among the frames. */
  function Header(frames: seq<Frame>): Option<Frame> {
    if frames == [] then None
    else if frames[|frames| - 1].Attached? then Some(frames[|frames| - 1])
    else Header(frames[..|frames| - 1])
  }

  /** The client asked for a position the session had reached. */
  predicate InRange(frames: seq<Frame>) {
    var h := Header(frames);
    h.Some? && h.value.Attached? && h.value.replayFromSeq <= h.value.tail
  }

  function From(frames: seq<Frame>): int
    requires InRange(frames)
  {
    Header(frames).value.replayFromSeq
  }

  /** Every announced position is exactly where the bytes delivered before it end. */
  predicate MarksExact(frames: seq<Frame>, from: int) {
    frames == [] ||
    var init, last := frames[..|frames| - 1], frames[|frames| - 1];
    MarksExact(init, from) && (IsMark(last) ==> MarkOf(last) == from + |Held(init)|)
  }

  predicate MarksIncrease(frames: seq<Frame>) {
    forall i, j :: 0 <= i < j < |frames| && IsMark(frames[i]) && IsMark(frames[j]) ==> MarkOf(frames[i]) < MarkOf(frames[j])
  }

  predicate MarksWithin(frames: seq<Frame>, bound: nat) {
    forall i :: 0 <= i < |frames| && IsMark(frames[i]) ==> MarkOf(frames[i]) <= bound
  }

  /** The bytes held are a contiguous stretch of the history starting where the session said. */
  predicate Carries(frames: seq<Frame>, history: seq<byte>) {
    && InRange(frames)
    && 0 <= From(frames) <= From(frames) + |Held(frames)| <= |history|
    && Held(frames) == history[From(frames)..From(frames) + |Held(frames)|]
  }

  predicate HoldsHistory(frames: seq<Frame>, history: seq<byte>) {
    && MarksIncrease(frames)
    && (InRange(frames) ==> Carries(frames, history) && MarksExact(frames, From(frames)))
  }

  predicate AllHoldHistory(stays: seq<Attachment>, history: seq<byte>) {
    forall k :: 0 <= k < |stays| ==> HoldsHistory(stays[k].frames, history)
  }

  /** A client has heard a position less than 64 KiB old; while its socket is open its copy ends at the tail. */
  predicate UpToDate(a: Attachment, history: seq<byte>, lastCursorSeq: nat) {
    && HoldsHistory(a.frames, history)
    && MarksWithin(a.frames, lastCursorSeq)
    && (a.open ==> Header(a.frames).Some?)
    && (a.open && InRange(a.frames) ==> From(a.frames) + |Held(a.frames)| == |history|)
  }

  predicate ClientUpToDate(client: Option<Attachment>, history: seq<byte>, lastCursorSeq: nat) {
    && lastCursorSeq <= |history|
    && (client.Some? ==>
          UpToDate(client.value, history, lastCursorSeq) && |history| - lastCursorSeq < CURSOR_BYTES_INTERVAL)
  }

  /** The PTY is only ever paused for an attached client, under the session's own flag. */
  predicate NotStranded(s: Session) {
    s.pty.paused && !s.disposed ==> s.paused && s.current.Some?
  }

  /** Any four consecutive exits of ts span at least the window. */
  predicate Spaced(ts: seq<int>) {
    forall i :: 0 <= i && i + 3 < |ts| ==> ts[i + 3] - ts[i] >= 30_000
  }

  predicate Ordered(ts: seq<int>, clock: int) {
    && (forall i, j :: 0 <= i <= j < |ts| ==> ts[i] <= ts[j])
    && (forall i :: 0 <= i < |ts| ==> ts[i] <= clock)
  }

  predicate BreakerLaw(s: Session) {
    && Ordered(s.exits, s.clock)
    && (!s.disposed ==> Spaced(s.exits))
  }

  /** At most one respawn timer is pending, and it is the one the session knows. */
  predicate OneTimer(s: Session) {
    && s.armed == (if s.timer.Some? then {s.timer.value} else {})
    && (s.timer.Some? ==> s.timer.value < s.nextId)
    && s.pty.pid < s.nextId
  }

  /** Everything but the crash times. */
  predicate Core(s: Session) {
    && AllHoldHistory(s.past, s.history)
    && ClientUpToDate(s.current, s.history, s.lastCursorSeq)
    && NotStranded(s)
    && OneTimer(s)
    && (s.ticking <==> s.current.Some?)
    && (s.disposed ==> s.current.None? && s.armed == {})
  }

  predicate Inv(s: Session) {
    Core(s) && BreakerLaw(s)
  }

  // ---------------------------------------------------------------- lemmas on frames and exits

  lemma TakeOfStretch(history: seq<byte>, from: nat, length: nat, k: nat)
    requires k <= length && from + length <= |history|
    ensures history[from..from + length][..k] == history[from..from + k]
  {
  }

  lemma Splice(history: seq<byte>, a: int, b: int, c: int)
    requires 0 <= a <= b <= c <= |history|
    ensures history[a..b] + history[b..c] == history[a..c]
  {
  }

  lemma FramesExtend(frames: seq<Frame>, f: Frame)
    ensures Held(frames + [f]) == Held(frames) + (if f.Bytes? then f.data else [])
    ensures Header(frames + [f]) == if f.Attached? then Some(f) else Header(frames)
    ensures forall from :: MarksExact(frames + [f], from)
              <==> MarksExact(frames, from) && (IsMark(f) ==> MarkOf(f) == from + |Held(frames)|)
  {
    assert (frames + [f])[..|frames|] == frames;
  }

  lemma NoFrames()
    ensures Held([]) == [] && Header([]) == None && forall from :: MarksExact([], from)
  {
  }

  lemma HistoryGrows(frames: seq<Frame>, history: seq<byte>, more: seq<byte>)
    requires HoldsHistory(frames, history)
    ensures HoldsHistory(frames, history + more)
  {
  }

  /** One more frame adds at most one announced position, the last. */
  lemma MarksExtend(frames: seq<Frame>, f: Frame, bound: nat)
    requires MarksIncrease(frames) && MarksWithin(frames, bound)
    requires IsMark(f) ==> MarkOf(f) > bound
    ensures MarksIncrease(frames + [f])
    ensures MarksWithin(frames + [f], if IsMark(f) then MarkOf(f) else bound)
  {
  }

  lemma CarriesExtend(frames: seq<Frame>, f: Frame, history: seq<byte>)
    requires Carries(frames, history) && !f.Attached?
    requires f.Bytes? ==>
      var end := From(frames) + |Held(frames)|;
      end + |f.data| <= |history| && history[end..end + |f.data|] == f.data
    ensures Carries(frames + [f], history)
  {
    FramesExtend(frames, f);
    hide Held, Header, MarksExact;
    if f.Bytes? {
      var end := From(frames) + |Held(frames)|;
      Splice(history, From(frames), end, end + |f.data|);
    }
  }

  /** Delivering one more frame keeps the client's copy exact when the frame itself is. */
  lemma DeliverKeeps(frames: seq<Frame>, f: Frame, history: seq<byte>, bound: nat)
    requires HoldsHistory(frames, history) && Header(frames).Some? && !f.Attached?
    requires MarksWithin(frames, bound)
    requires f.Cursor? ==> f.at > bound && (InRange(frames) ==> f.at == From(frames) + |Held(frames)|)
    requires f.Bytes? && InRange(frames) ==>
      var end := From(frames) + |Held(frames)|;
      end + |f.data| <= |history| && history[end..end + |f.data|] == f.data
    ensures HoldsHistory(frames + [f], history)
    ensures InRange(frames + [f]) == InRange(frames)
    ensures InRange(frames) ==> From(frames + [f]) == From(frames)
    ensures MarksWithin(frames + [f], if f.Cursor? then f.at else bound)
  {
    hide Held, Header, MarksExact, MarksIncrease, MarksWithin, Carries;
    FramesExtend(frames, f);
    MarksExtend(frames, f, bound);
    if InRange(frames) {
      assert Carries(frames, history);
      CarriesExtend(frames, f, history);
    }
  }

  /** In time order, the window keeps exactly a suffix. */
  lemma {:induction false} RecentIsSuffix(ts: seq<int>, now: int)
    requires Ordered(ts, now)
    ensures |Recent(ts, now)| <= |ts| && Recent(ts, now) == ts[|ts| - |Recent(ts, now)|..]
    ensures forall i :: 0 <= i < |ts| ==> (now - ts[i] < RESPAWN_WINDOW_MS <==> i >= |ts| - |Recent(ts, now)|)
  {
    if ts != [] {
      var init, last := ts[..|ts| - 1], ts[|ts| - 1];
      RecentIsSuffix(init, now);
      var k := |init| - |Recent(init, now)|;
      if now - last >= RESPAWN_WINDOW_MS {
        assert forall i :: 0 <= i < |init| ==> init[i] <= last;
        assert k == |init|;
      } else {
        assert Recent(ts, now) == Recent(init, now) + [last];
        assert ts[k..] == init[k..] + [last];
      }
    }
  }

  /** Pruning to an earlier window first loses nothing a later window keeps. */
  lemma {:induction false} RecentOfRecent(ts: seq<int>, before: int, now: int)
    requires before <= now
    ensures Recent(Recent(ts, before), now) == Recent(ts, now)
  {
    if ts != [] {
      var init := ts[..|ts| - 1];
      RecentOfRecent(init, before, now);
      var last := ts[|ts| - 1];
      var kept := Recent(init, before);
      assert (kept + [last])[..|kept|] == kept;
      if before - last >= RESPAWN_WINDOW_MS {
        assert Recent(ts, before) == kept && Recent(ts, now) == Recent(init, now);
      } else {
        assert Recent(ts, before) == kept + [last];
      }
    }
  }

  /** The circuit opens at an exit exactly when it is the fourth in less than 30 s. */
  lemma BreakerOpensExactly(ts: seq<int>, now: int)
    requires Ordered(ts, now)
    ensures CircuitOpens(ts + [now], now)
            <==> |ts| >= 3 && now - ts[|ts| - 3] < 30_000
  {
    RecentIsSuffix(ts, now);
    assert (ts + [now])[..|ts|] == ts;
    if |ts| >= RESPAWN_WINDOW_LIMIT {
      assert now - ts[|ts| - RESPAWN_WINDOW_LIMIT] < RESPAWN_WINDOW_MS
          <==> |Recent(ts, now)| >= RESPAWN_WINDOW_LIMIT;
    }
  }

  // ---------------------------------------------------------------- every step keeps the invariant

  /** Lifecycle messages move no position. */
  lemma NoticeKeeps(client: Option<Attachment>, f: Frame, history: seq<byte>, last: nat)
    requires ClientUpToDate(client, history, last) && !f.Attached? && !f.Cursor? && !f.Bytes?
    ensures ClientUpToDate(Deliver(client, f), history, last)
  {
    if client.Some? && client.value.open {
      DeliverKeeps(client.value.frames, f, history, last);
      FramesExtend(client.value.frames, f);
    }
  }

  /** A cursor brings an up-to-date client's last known position to the tail. */
  lemma CursorFrames(a: Attachment, history: seq<byte>, last: nat)
    requires a.open && UpToDate(a, history, last) && last < |history|
    ensures UpToDate(a.(frames := a.frames + [Cursor(|history|)]), history, |history|)
  {
    DeliverKeeps(a.frames, Cursor(|history|), history, last);
    FramesExtend(a.frames, Cursor(|history|));
  }

  lemma DataFrames(a: Attachment, history: seq<byte>, data: seq<byte>, last: nat)
    requires a.open && UpToDate(a, history, last) && last <= |history|
    ensures UpToDate(a.(frames := a.frames + [Bytes(data)]), history + data, last)
  {
    HistoryGrows(a.frames, history, data);
    DeliverKeeps(a.frames, Bytes(data), history + data, last);
    FramesExtend(a.frames, Bytes(data));
  }

  /** A stay that ends is kept with the past ones. */
  lemma StaysKeep(s: Session)
    requires Core(s)
    ensures AllHoldHistory(Stays(s), s.history)
  {
  }

  lemma CursorKeeps(s: Session)
    requires Core(s)
    ensures Core(CursorStep(s))
  {
    if !s.disposed && s.current.Some? && |s.history| != s.lastCursorSeq && s.current.value.open {
      CursorFrames(s.current.value, s.history, s.lastCursorSeq);
    }
  }

  lemma PastKeeps(past: seq<Attachment>, history: seq<byte>, more: seq<byte>)
    requires AllHoldHistory(past, history)
    ensures AllHoldHistory(past, history + more)
  {
    forall k | 0 <= k < |past|
      ensures HoldsHistory(past[k].frames, history + more)
    {
      HistoryGrows(past[k].frames, history, more);
    }
  }

  lemma DataKeeps(l: Limits, s: Session, data: seq<byte>, buffered: nat)
    requires Core(s)
    ensures Core(PtyDataStep(l, s, data, buffered))
  {
    var history := s.history + data;
    PastKeeps(s.past, s.history, data);
    if s.current.Some? {
      var a := s.current.value;
      if a.open {
        DataFrames(a, s.history, data, s.lastCursorSeq);
        if |history| - s.lastCursorSeq >= CURSOR_BYTES_INTERVAL {
          CursorFrames(a.(frames := a.frames + [Bytes(data)]), history, s.lastCursorSeq);
        }
      } else {
        HistoryGrows(a.frames, s.history, data);
        assert UpToDate(a, history, s.lastCursorSeq) && UpToDate(a, history, |history|);
      }
    }
  }

  lemma GreetingFrames(bytes: seq<byte>, header: Frame)
    requires header.Attached?
    ensures var frames := (if bytes != [] then [Bytes(bytes)] else []) + [header];
            && Header(frames) == Some(header) && Held(frames) == bytes
            && (forall from :: header.tail == from + |bytes| ==> MarksExact(frames, from))
            && MarksIncrease(frames) && MarksWithin(frames, header.tail)
  {
    hide Held, Header, MarksExact;
    NoFrames();
    var replayed := if bytes != [] then [Bytes(bytes)] else [];
    FramesExtend(replayed, header);
    if bytes != [] {
      FramesExtend([], Bytes(bytes));
      assert [] + replayed == replayed;
    }
  }

  lemma GreetingShape(l: Limits, history: seq<byte>, since: Option<int>)
    ensures var slice := Replay(history, l.capacity, if since.Some? then since.value else 0);
            var frames := Greeting(l, history, since);
            && Header(frames) == Some(Attached(slice.effectiveSeq, slice.tailSeq, since.Some? && slice.effectiveSeq > since.value))
            && Held(frames) == slice.bytes
            && (slice.tailSeq == slice.effectiveSeq + |slice.bytes| ==> MarksExact(frames, slice.effectiveSeq))
            && MarksIncrease(frames) && MarksWithin(frames, slice.tailSeq)
  {
    hide Held, Header, MarksExact, Replay, MarksIncrease, MarksWithin;
    var slice := Replay(history, l.capacity, if since.Some? then since.value else 0);
    GreetingFrames(slice.bytes, Attached(slice.effectiveSeq, slice.tailSeq, since.Some? && slice.effectiveSeq > since.value));
  }

  lemma GreetingFacts(l: Limits, history: seq<byte>, since: Option<int>)
    ensures UpToDate(Attachment(0, true, Greeting(l, history, since)), history, |history|)
  {
    hide Held, Header, MarksExact, MarksIncrease, MarksWithin, Greeting;
    GreetingShape(l, history, since);
  }

  lemma AttachKeeps(l: Limits, s: Session, socket: nat, open: bool, since: Option<int>)
    requires Core(s)
    ensures Core(AttachStep(l, s, socket, open, since))
  {
    StaysKeep(s);
    GreetingFacts(l, s.history, since);
  }

  lemma DetachKeeps(s: Session)
    requires Core(s)
    ensures Core(DetachStep(s))
  {
    StaysKeep(s);
  }

  lemma DisposeKeeps(s: Session)
    requires Core(s)
    ensures Core(DisposeStep(s))
  {
    StaysKeep(s);
  }

  /** One more exit keeps every four of them spaced unless the circuit opens. */
  lemma SpacingKeeps(ts: seq<int>, clock: int, now: int)
    requires Ordered(ts, clock) && clock <= now
    ensures Ordered(ts + [now], now)
    ensures Spaced(ts) && !CircuitOpens(ts + [now], now) ==> Spaced(ts + [now])
  {
    BreakerOpensExactly(ts, now);
  }

  lemma EndedKeeps(s: Session, code: int)
    requires Core(s)
    ensures Core(Ended(s, code))
  {
    NoticeKeeps(s.current, Exit(code), s.history, s.lastCursorSeq);
    DisposeKeeps(s.(current := Deliver(s.current, Exit(code))));
  }

  lemma ArmKeeps(s: Session)
    requires Core(s) && !s.disposed
    ensures Core(Arm(s))
  {
    assert Cleared(s) == {};
  }

  lemma CrashKeeps(s: Session, code: int)
    requires Inv(s) && !s.disposed
    ensures Inv(CrashStep(s, code))
  {
    var crashed := Crashed(s, code);
    SpacingKeeps(s.exits, s.clock, s.clock);
    NoticeKeeps(s.current, ChildExited(code), s.history, s.lastCursorSeq);
    assert Core(crashed);
    if CircuitOpens(crashed.exits, s.clock) {
      EndedKeeps(crashed, code);
    } else {
      ArmKeeps(crashed);
    }
  }

  lemma TimePasses(s: Session, elapsed: nat)
    requires Inv(s)
    ensures Inv(s.(clock := s.clock + elapsed))
  {
  }

  lemma ExitKeeps(s: Session, pid: nat, code: int, elapsed: nat)
    requires Inv(s)
    ensures Inv(PtyExitStep(s, pid, code, elapsed))
  {
    hide Core, BreakerLaw, CrashStep;
    TimePasses(s, elapsed);
    if !s.disposed && pid == s.pty.pid {
      CrashKeeps(s.(clock := s.clock + elapsed), code);
    }
  }

  lemma TimerKeeps(s: Session, id: nat, spawns: bool)
    requires Core(s)
    ensures Core(TimerStep(s, id, spawns))
  {
    if id in s.armed {
      NoticeKeeps(s.current, ChildRespawned(s.nextId), s.history, s.lastCursorSeq);
      assert s.armed - {id} == {};
      EndedKeeps(s.(armed := {}, timer := None), -1);
    }
  }

  lemma StepKeeps(l: Limits, s: Session, e: Event)
    requires Inv(s)
    ensures Inv(Step(l, s, e))
  {
    match e
    case PtyData(data, buffered) => DataKeeps(l, s, data, buffered);
    case SendDone(ok, buffered) =>
    case Attach(socket, open, since) => AttachKeeps(l, s, socket, open, since);
    case SocketClosing =>
    case SocketClosed(socket) => DetachKeeps(s);
    case Detach => DetachKeeps(s);
    case PtyExit(pid, code, elapsed) => ExitKeeps(s, pid, code, elapsed);
    case TimerFired(id, spawns) => TimerKeeps(s, id, spawns);
    case CursorTick => CursorKeeps(s);
    case Dispose => DisposeKeeps(s);
  }

  /** Main result: in every run, clients hold exact history, cursors are exact and increasing,
      the PTY is never stranded, the breaker law holds and at most one timer is pending. */
  lemma {:induction false} EveryRun(l: Limits, seed: seq<byte>, events: seq<Event>)
    ensures Inv(Run(l, Initial(seed), events))
  {
    if events != [] {
      EveryRun(l, seed, events[..|events| - 1]);
      StepKeeps(l, Run(l, Initial(seed), events[..|events| - 1]), events[|events| - 1]);
    }
  }

  // ---------------------------------------------------------------- consequences

  /** What a client is told and given when it asks for the bytes from `since` on. */
  predicate Answers(now: seq<Frame>, history: seq<byte>, capacity: nat, since: nat) {
    var h := Header(now);
    && h.Some? && h.value.Attached?
    && h.value.replayFromSeq == Max(since, HeadOf(history, capacity)) <= |history|
    && h.value.scrollbackTruncated == (since < HeadOf(history, capacity))
    && Held(now) == history[h.value.replayFromSeq..]
  }

  lemma AttachAnswers(l: Limits, s: Session, socket: nat, since: nat)
    requires !s.disposed && since <= |s.history|
    ensures var t := Step(l, s, Attach(socket, true, Some(since)));
            t.current.Some? && Answers(t.current.value.frames, s.history, l.capacity, since)
  {
    GreetingShape(l, s.history, Some(since));
  }

  /** Main result: a client that saved any position of an earlier stay and reattaches there gets the
      rest of the history with no gap and no overlap; it is told `truncated` exactly when the ring
      has evicted past that position, and then exactly the evicted bytes are missing. */
  lemma Reattach(l: Limits, s: Session, earlier: seq<Frame>, held: nat, socket: nat)
    requires !s.disposed
    requires Carries(earlier, s.history) && held <= |Held(earlier)|
    ensures var since := From(earlier) + held;
            var t := Step(l, s, Attach(socket, true, Some(since)));
            && t.current.Some?
            && var now := t.current.value.frames;
            && Answers(now, s.history, l.capacity, since)
            && (!Header(now).value.scrollbackTruncated ==>
                  Held(earlier)[..held] + Held(now) == s.history[From(earlier)..])
  {
    hide Held, Header, Greeting, Step;
    var from, since := From(earlier), From(earlier) + held;
    AttachAnswers(l, s, socket, since);
    TakeOfStretch(s.history, from, |Held(earlier)|, held);
    Splice(s.history, from, since, |s.history|);
  }

  /** Asking past the tail is answered with a start the session has not reached: the one request
      whose later bytes do not sit where the client was told. */
  lemma OutOfRangeExactly(l: Limits, s: Session, socket: nat, since: int)
    requires !s.disposed
    ensures InRange(Step(l, s, Attach(socket, true, Some(since))).current.value.frames) <==> since <= |s.history|
  {
    GreetingShape(l, s.history, Some(since));
  }

  /** A run of bytes and where it starts: what a stay's frames amount to for the client. */
  datatype Stretch = Stretch(from: nat, bytes: seq<byte>) {
    function End(): nat {
      from + |bytes|
    }

    predicate In(history: seq<byte>) {
      End() <= |history| && bytes == history[from..End()]
    }
  }

  function StretchOf(frames: seq<Frame>, history: seq<byte>): (r: Stretch)
    requires Carries(frames, history)
    ensures r.In(history)
  {
    Stretch(From(frames), Held(frames))
  }

  function Joined(stays: seq<Stretch>): seq<byte> {
    if stays == [] then [] else Joined(stays[..|stays| - 1]) + stays[|stays| - 1].bytes
  }

  /** Over any number of reattachments, each from where the last stay ended, nothing is lost or repeated. */
  lemma {:induction false} ManyReattachments(stays: seq<Stretch>, history: seq<byte>)
    requires stays != []
    requires forall i :: 0 <= i < |stays| ==> stays[i].In(history)
    requires forall i :: 0 < i < |stays| ==> stays[i].from == stays[i - 1].End()
    ensures stays[0].from <= stays[|stays| - 1].End() <= |history|
    ensures Joined(stays) == history[stays[0].from..stays[|stays| - 1].End()]
  {
    var last := stays[|stays| - 1];
    if |stays| == 1 {
      assert Joined(stays[..0]) == [];
    } else {
      var init := stays[..|stays| - 1];
      ManyReattachments(init, history);
      assert init[|init| - 1].End() == last.from;
      Splice(history, stays[0].from, last.from, last.End());
    }
  }

  // ---------------------------------------------------------------- the pause flag

  /** The session's flag and the PTY's read stream agree. */
  predicate Lockstep(s: Session) {
    s.paused == s.pty.paused
  }

  /** Flag and stream stay in lockstep through every step but one: a respawn that finds the flag
      raised. The new child runs unpaused under a raised flag, so the next high watermark cannot
      pause it. */
  lemma LockstepKeptExactly(l: Limits, s: Session, e: Event)
    requires Inv(s) && Lockstep(s) && !s.disposed
    ensures Lockstep(Step(l, s, e)) <==> !(e.TimerFired? && e.id in s.armed && e.spawns && s.paused)
  {
  }

  /** Three steps break the lockstep: output on a full socket, a crash, the respawn. */
  lemma LockstepBreaks(l: Limits, s: Session, data: seq<byte>)
    requires Inv(s) && !s.disposed && s.exits == [] && s.current.Some?
    ensures var s1 := Step(l, s, PtyData(data, l.highWatermark));
            var s2 := Step(l, s1, PtyExit(s.pty.pid, 1, 0));
            var s3 := Step(l, s2, TimerFired(s.nextId, true));
            !s3.disposed && s3.paused && !s3.pty.paused
  {
    var s1 := Step(l, s, PtyData(data, l.highWatermark));
    BreakerOpensExactly([], s.clock);
    assert s1.exits == [] && s1.clock == s.clock && s1.paused;
    assert s1.exits + [s.clock] == [s.clock];
  }

  // ---------------------------------------------------------------- each event's outcome

  /** What the current stay has been sent. */
  function Sent(s: Session): seq<Frame> {
    if s.current.Some? then s.current.value.frames else []
  }

  predicate Listening(s: Session) {
    s.current.Some? && s.current.value.open
  }

  /** The same stay, its socket as before, with more frames delivered if it listens. */
  predicate Hears(s: Session, t: Session, more: seq<Frame>) {
    && (t.current.Some? <==> s.current.Some?)
    && (s.current.Some? ==>
          && t.current.value.socket == s.current.value.socket && t.current.value.open == s.current.value.open
          && t.current.value.frames == s.current.value.frames + (if s.current.value.open then more else []))
  }

  /** A finished send releases backpressure exactly when it succeeded with the socket at or below the low
      watermark, the flag and the stream together, and changes nothing else. */
  lemma SendDoneExactly(l: Limits, s: Session, ok: bool, buffered: nat)
    ensures var t := Step(l, s, SendDone(ok, buffered));
            && (t.paused <==> s.paused && !(ok && buffered <= l.lowWatermark))
            && (Lockstep(s) ==> (t.pty.paused <==> s.pty.paused && !(ok && buffered <= l.lowWatermark)))
            && t == s.(paused := t.paused, pty := t.pty) && t.pty.pid == s.pty.pid
  {
  }

  /** Output raises the flag and pauses the stream exactly when a client is attached whose socket is at or
      above the high watermark; it is kept, delivered, and followed by a cursor every 65,536 bytes. */
  lemma PtyDataExactly(l: Limits, s: Session, data: seq<byte>, buffered: nat)
    requires !s.disposed
    ensures var t := Step(l, s, PtyData(data, buffered));
            var full := s.current.Some? && buffered >= l.highWatermark;
            var due := s.current.Some? && |s.history + data| - s.lastCursorSeq >= 65_536;
            && t.history == s.history + data
            && (t.paused <==> s.paused || full)
            && (t.pty.paused <==> s.pty.paused || (full && !s.paused)) && t.pty.pid == s.pty.pid
            && Hears(s, t, [Bytes(data)] + (if due then [Cursor(|t.history|)] else []))
            && t.lastCursorSeq == (if due then |t.history| else s.lastCursorSeq)
            && t == s.(history := t.history, current := t.current, lastCursorSeq := t.lastCursorSeq, paused := t.paused, pty := t.pty)
  {
    var due := s.current.Some? && |s.history + data| - s.lastCursorSeq >= 65_536;
    if Listening(s) && due {
      assert Sent(s) + [Bytes(data)] + [Cursor(|s.history + data|)] == Sent(s) + ([Bytes(data)] + [Cursor(|s.history + data|)]);
    }
    assert [Bytes(data)] + [] == [Bytes(data)];
  }

  /** An attach lets the old client go, leaves no backpressure behind, and sends an open socket the bytes from
      the later of the request and the oldest byte kept, if any, then where they start and where they end. */
  lemma AttachExactly(l: Limits, s: Session, socket: nat, open: bool, since: Option<int>)
    requires !s.disposed
    ensures var t := Step(l, s, Attach(socket, open, since));
            var oldest := Max(0, |s.history| - l.capacity);
            var from := Max(if since.Some? then since.value else 0, oldest);
            var header := Attached(from, |s.history|, since.Some? && since.value < oldest);
            && t.current.Some? && t.current.value.socket == socket && t.current.value.open == open
            && (!open ==> Sent(t) == [])
            && (open && from >= |s.history| ==> Sent(t) == [header])
            && (open && from < |s.history| ==> Sent(t) == [Bytes(s.history[from..]), header])
            && t.past == (if s.current.Some? then s.past + [s.current.value] else s.past)
            && !t.paused && (t.pty.paused <==> s.pty.paused && !s.paused) && t.pty.pid == s.pty.pid
            && t.ticking && t.lastCursorSeq == |s.history|
            && t == s.(current := t.current, past := t.past, paused := false, pty := t.pty, ticking := true, lastCursorSeq := t.lastCursorSeq)
  {
    var oldest := Max(0, |s.history| - l.capacity);
    var from := Max(if since.Some? then since.value else 0, oldest);
    var header := Attached(from, |s.history|, since.Some? && since.value < oldest);
    assert [Bytes(s.history[Min(from, |s.history|)..])] + [header] == [Bytes(s.history[Min(from, |s.history|)..]), header];
    assert [] + [header] == [header];
  }

  /** A new session has the saved scrollback as its history, a running child, no client and no timer. */
  lemma InitialExactly(seed: seq<byte>)
    ensures var s := Initial(seed);
            && s.history == seed && s.current.None? && s.past == [] && s.lastCursorSeq == 0 && !s.ticking
            && !s.paused && !s.pty.paused && s.exits == [] && s.timer.None? && s.armed == {} && !s.disposed
            && s.pty.pid < s.nextId
  {
  }

  /** A socket that leaves OPEN stays attached with what it was sent, and hears no more. */
  lemma SocketClosingExactly(l: Limits, s: Session)
    ensures var t := Step(l, s, SocketClosing);
            && (s.current.None? ==> t == s)
            && (s.current.Some? ==> t == s.(current := Some(s.current.value.(open := false))))
  {
  }

  /** A detach of whatever client there is does the same as its socket's close. */
  lemma DetachExactly(l: Limits, s: Session)
    ensures Step(l, s, Detach) == if s.current.Some? then Step(l, s, SocketClosed(s.current.value.socket)) else s
  {
  }

  /** The current socket's close lets it go and leaves no backpressure behind; any other's changes nothing. */
  lemma SocketClosedExactly(l: Limits, s: Session, socket: nat)
    ensures var t := Step(l, s, SocketClosed(socket));
            if s.current.Some? && s.current.value.socket == socket then
              && t.current.None? && t.past == s.past + [s.current.value] && !t.ticking
              && !t.paused && (t.pty.paused <==> s.pty.paused && !s.paused) && t.pty.pid == s.pty.pid
              && t == s.(current := None, past := t.past, paused := false, pty := t.pty, ticking := false)
            else t == s
  {
  }

  /** The cursor tick announces the tail exactly when it has moved, however little. */
  lemma CursorTickExactly(l: Limits, s: Session)
    requires !s.disposed && s.current.Some?
    ensures var t := Step(l, s, CursorTick);
            && Hears(s, t, if |s.history| != s.lastCursorSeq then [Cursor(|s.history|)] else [])
            && t.lastCursorSeq == |s.history|
            && t == s.(current := t.current, lastCursorSeq := t.lastCursorSeq)
  {
  }

  /** The session is over: the client, told so, is let go, no timer is left, and the rest stays. */
  predicate Over(s: Session, t: Session, told: seq<Frame>) {
    && t.disposed && t.current.None? && t.timer.None? && t.armed == {} && !t.ticking
    && (s.current.None? ==> t.past == s.past)
    && (s.current.Some? ==>
          && |t.past| == |s.past| + 1 && t.past[..|s.past|] == s.past
          && t.past[|s.past|] == s.current.value.(frames := Sent(s) + (if s.current.value.open then told else [])))
    && t.history == s.history && t.pty == s.pty && t.paused == s.paused
  }

  /** A crash of the running child ends the session exactly when it is the fourth in less than 30 seconds;
      otherwise one respawn timer is pending, the only one, and the client knows of the exit. */
  lemma CrashExactly(l: Limits, s: Session, code: int, elapsed: nat)
    requires Inv(s) && !s.disposed
    ensures var t := Step(l, s, PtyExit(s.pty.pid, code, elapsed));
            var now := s.clock + elapsed;
            var fourth := |s.exits| >= 3 && now - s.exits[|s.exits| - 3] < 30_000;
            && t.exits == s.exits + [now] && t.clock == now
            && (fourth ==> Over(s, t, [ChildExited(code), Exit(code)]))
            && (!fourth ==>
                  && Hears(s, t, [ChildExited(code)]) && !t.disposed
                  && t.timer.Some? && t.armed == {t.timer.value} && t.timer.value !in s.armed
                  && t == s.(clock := now, exits := t.exits, current := t.current, timer := t.timer, armed := t.armed, nextId := t.nextId))
  {
    var now := s.clock + elapsed;
    hide Inv, Core, Over, Hears, Step, CrashStep, CircuitOpens;
    CrashIsStep(l, s, code, elapsed);
    TimePasses(s, elapsed);
    BreakerOpens(s, now);
    var s0 := s.(clock := now);
    if CircuitOpens(s.exits + [now], now) {
      CrashEnds(s0, code);
      OverIgnoresClock(s, s0, CrashStep(s0, code), [ChildExited(code), Exit(code)]);
    } else {
      CrashRearms(s0, code);
      HearsIgnoresClock(s, s0, CrashStep(s0, code), [ChildExited(code)]);
    }
  }

  lemma CrashIsStep(l: Limits, s: Session, code: int, elapsed: nat)
    requires !s.disposed
    ensures Step(l, s, PtyExit(s.pty.pid, code, elapsed)) == CrashStep(s.(clock := s.clock + elapsed), code)
  {
    hide CrashStep;
  }

  lemma BreakerOpens(s: Session, now: int)
    requires Inv(s) && s.clock <= now
    ensures CircuitOpens(s.exits + [now], now) <==> |s.exits| >= 3 && now - s.exits[|s.exits| - 3] < 30_000
  {
    hide Core, Recent, Spaced;
    BreakerOpensExactly(s.exits, now);
  }

  lemma OverIgnoresClock(s: Session, s0: Session, t: Session, told: seq<Frame>)
    requires s0 == s.(clock := s0.clock) && Over(s0, t, told)
    ensures Over(s, t, told)
  {
  }

  lemma HearsIgnoresClock(s: Session, s0: Session, t: Session, more: seq<Frame>)
    requires s0 == s.(clock := s0.clock) && Hears(s0, t, more)
    ensures Hears(s, t, more)
  {
  }

  lemma CrashEnds(s: Session, code: int)
    requires Inv(s) && !s.disposed && CircuitOpens(s.exits + [s.clock], s.clock)
    ensures var t := CrashStep(s, code);
            Over(s, t, [ChildExited(code), Exit(code)]) && t.exits == s.exits + [s.clock] && t.clock == s.clock
  {
    OneTimerOf(s);
    hide Inv, CircuitOpens;
    if s.current.Some? && s.current.value.open {
      assert Sent(s) + [ChildExited(code)] + [Exit(code)] == Sent(s) + [ChildExited(code), Exit(code)];
    }
  }

  lemma CrashRearms(s: Session, code: int)
    requires Inv(s) && !s.disposed && !CircuitOpens(s.exits + [s.clock], s.clock)
    ensures var t := CrashStep(s, code);
            && Hears(s, t, [ChildExited(code)]) && !t.disposed
            && t.timer.Some? && t.armed == {t.timer.value} && t.timer.value !in s.armed
            && t == s.(exits := s.exits + [s.clock], current := t.current, timer := t.timer, armed := t.armed, nextId := t.nextId)
  {
    OneTimerOf(s);
    hide Inv, CircuitOpens;
  }

  lemma OneTimerOf(s: Session)
    requires Inv(s)
    ensures OneTimer(s)
  {
  }

  /** An exit of a child already replaced, or after dispose, only lets time pass. */
  lemma StaleExitExactly(l: Limits, s: Session, pid: nat, code: int, elapsed: nat)
    requires s.disposed || pid != s.pty.pid
    ensures Step(l, s, PtyExit(pid, code, elapsed)) == s.(clock := s.clock + elapsed)
  {
  }

  /** The pending timer starts a new, running child and says so, or ends the session when it cannot. */
  lemma RespawnExactly(l: Limits, s: Session, id: nat, spawns: bool)
    requires Inv(s) && !s.disposed && id in s.armed
    ensures var t := Step(l, s, TimerFired(id, spawns));
            && t.armed == {} && t.timer.None?
            && (!spawns ==> Over(s, t, [Exit(-1)]))
            && (spawns ==>
                  && t.pty == Pty(t.pty.pid, false) && t.pty.pid >= s.nextId && !t.disposed
                  && Hears(s, t, [ChildRespawned(t.pty.pid)])
                  && t == s.(timer := None, armed := {}, pty := t.pty, nextId := t.nextId, current := t.current))
  {
    hide Recent, AllHoldHistory, ClientUpToDate, Spaced, NotStranded;
    assert s.armed == {id};
  }

  lemma DisposeExactly(l: Limits, s: Session)
    requires Inv(s) && !s.disposed
    ensures Over(s, Step(l, s, Dispose), [])
  {
    hide Recent, AllHoldHistory, ClientUpToDate, Spaced, NotStranded;
    assert s.current.Some? ==> Sent(s) + [] == Sent(s);
  }
}
