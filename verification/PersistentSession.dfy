// The terminal session as the program runs it: a replay ring instead of the full
// history, a pruned list of crash times instead of all exits. Every method is
// proved to take the step TerminalProtocol.dfy describes.
module PersistentSessions {
  import opened Common
  import opened ReplayBuffers
  import opened TerminalProtocol

  class PersistentSession {
    const limits: Limits
    const buffer: ReplayBuffer
    /** The attached socket, with what has been delivered to it. */
    var ws: Option<Attachment>
    var term: Pty
    var paused: bool
    var disposed: bool
    var cursorTimer: bool
    var lastCursorSeq: nat
    var respawnTimes: seq<int>
    var respawnTimer: Option<nat>
    /** The runtime's side: the clock, timers set and not yet cleared or fired, fresh ids. */
    var now: int
    var timers: set<nat>
    var nextId: nat
    ghost var exits: seq<int>
    ghost var past: seq<Attachment>

    ghost predicate Valid()
      reads this, buffer
    {
      && buffer.Valid()
      && buffer.maxBytes == limits.capacity
      && respawnTimes == (if exits == [] then [] else Recent(exits, exits[|exits| - 1]))
      && Ordered(exits, now)
    }

    /** The protocol state this object stands for. */
    ghost function State(): Session
      reads this, buffer
    {
      Session(buffer.history, ws, past, lastCursorSeq, cursorTimer, term, paused, now, exits,
              respawnTimer, timers, nextId, disposed)
    }

    constructor (limits: Limits, initialReplayBytes: seq<byte>)
      requires 0 < limits.capacity
      ensures Valid() && State() == Initial(initialReplayBytes) && this.limits == limits
      ensures fresh(buffer)
    {
      this.limits := limits;
      var b := new ReplayBuffer(limits.capacity);
      buffer := b;
      ws, paused, disposed, cursorTimer, lastCursorSeq := None, false, false, false, 0;
      respawnTimes, respawnTimer := [], None;
      term := Pty(0, false);
      now, timers, nextId := 0, {}, 1;
      exits, past := [], [];
      new;
      buffer.Append(initialReplayBytes);
      assert [] + initialReplayBytes == initialReplayBytes;
    }

    /** ws.send: a socket that is not open delivers nothing. */
    method SendFrame(f: Frame)
      modifies this`ws
      ensures ws == Deliver(old(ws), f)
    {
      if ws.Some? && ws.value.open {
        ws := Some(ws.value.(frames := ws.value.frames + [f]));
      }
    }

    method MaybeSendCursor()
      requires Valid()
      modifies this`ws, this`lastCursorSeq
      ensures Valid() && State() == CursorStep(old(State()))
    {
      if disposed || ws.None? {
        return;
      }
      var tail := buffer.TailSeq();
      if tail == lastCursorSeq {
        return;
      }
      lastCursorSeq := tail;
      SendFrame(Cursor(tail));
    }

    method ResumePty()
      modifies this`paused, this`term
      ensures !paused && term == Resumed(old(State()))
    {
      if !paused {
        return;
      }
      paused := false;
      term := term.(paused := false);
    }

    method OnPtyData(data: seq<byte>, buffered: nat)
      requires Valid()
      modifies this, buffer
      ensures Valid() && State() == PtyDataStep(limits, old(State()), data, buffered)
    {
      hide Recent, Ordered, Flatten, LastN, HeadOf;
      if disposed {
        return;
      }
      buffer.Append(data);
      if ws.Some? {
        SendFrame(Bytes(data));
        if !paused && buffered >= limits.highWatermark {
          paused := true;
          term := term.(paused := true);
        }
      }
      if buffer.TailSeq() - lastCursorSeq >= CURSOR_BYTES_INTERVAL {
        MaybeSendCursor();
      }
    }

    /** The completion callback of a send. */
    method OnSendDone(ok: bool, buffered: nat)
      requires Valid()
      modifies this`paused, this`term
      ensures Valid() && State() == SendDoneStep(limits, old(State()), ok, buffered)
    {
      if !ok {
        return;
      }
      if paused && buffered <= limits.lowWatermark {
        paused := false;
        term := term.(paused := false);
      }
    }

    /** Ships the missed bytes, then says where they start and where the session is. */
    method Greet(since: Option<int>) returns (tailSeq: nat)
      requires Valid() && ws.Some? && ws.value.frames == []
      modifies this`ws
      ensures ws == Some(old(ws).value.(frames := if old(ws).value.open then Greeting(limits, buffer.history, since) else []))
      ensures tailSeq == |buffer.history|
    {
      var requested := if since.Some? then since.value else 0;
      var slice := buffer.Since(requested);
      var scrollbackTruncated := since.Some? && slice.effectiveSeq > since.value;
      if |slice.bytes| > 0 {
        SendFrame(Bytes(slice.bytes));
      }
      SendFrame(Attached(slice.effectiveSeq, slice.tailSeq, scrollbackTruncated));
      assert ws.value.open ==> ws.value.frames == Greeting(limits, buffer.history, since);
      tailSeq := slice.tailSeq;
    }

    method SwapSocket(socket: nat, open: bool)
      modifies this`ws, this`past
      ensures past == Stays(old(State())) && ws == Some(Attachment(socket, open, []))
    {
      if ws.Some? {
        past := past + [ws.value];
      }
      ws := Some(Attachment(socket, open, []));
    }

    /** Swaps in a socket as the attached client, kicking the previous one if any. */
    method AttachClient(socket: nat, open: bool, since: Option<int>)
      requires Valid()
      modifies this`ws, this`past, this`paused, this`term, this`lastCursorSeq, this`cursorTimer
      ensures Valid() && State() == AttachStep(limits, old(State()), socket, open, since)
    {
      hide Recent, Ordered, Flatten, LastN, HeadOf, Replay, Greeting;
      if disposed {
        return;
      }
      SwapSocket(socket, open);
      ResumePty();
      lastCursorSeq := Greet(since);
      cursorTimer := true;
    }

    /** The socket leaves OPEN before its close event arrives. */
    method OnSocketClosing()
      requires Valid()
      modifies this`ws
      ensures Valid() && State() == ClosingStep(old(State()))
    {
      if ws.Some? {
        ws := Some(ws.value.(open := false));
      }
    }

    /** Drops the current client without killing the PTY. */
    method DetachClient()
      requires Valid()
      modifies this`ws, this`past, this`paused, this`term, this`cursorTimer
      ensures Valid() && State() == DetachStep(old(State()))
    {
      hide Recent, Ordered, Flatten, LastN, HeadOf;
      if ws.None? {
        return;
      }
      past := past + [ws.value];
      ws := None;
      ResumePty();
      cursorTimer := false;
    }

    /** A stale socket's close event must not detach its successor. */
    method OnSocketClosed(socket: nat)
      requires Valid()
      modifies this
      ensures Valid() && State() == Step(limits, old(State()), SocketClosed(socket))
    {
      if ws.Some? && ws.value.socket == socket {
        DetachClient();
      }
    }

    method DisposeSession()
      requires Valid()
      modifies this`disposed, this`cursorTimer, this`timers, this`respawnTimer, this`ws, this`past
      ensures Valid() && State() == DisposeStep(old(State()))
    {
      hide Recent, Ordered, Flatten, LastN, HeadOf;
      if disposed {
        return;
      }
      disposed := true;
      cursorTimer := false;
      if respawnTimer.Some? {
        timers := timers - {respawnTimer.value};
        respawnTimer := None;
      }
      if ws.Some? {
        past := past + [ws.value];
        ws := None;
      }
    }

    /** Tells the client and disposes. */
    method End(code: int)
      requires Valid()
      modifies this`disposed, this`cursorTimer, this`timers, this`respawnTimer, this`ws, this`past
      ensures Valid() && State() == Ended(old(State()), code)
    {
      hide Recent, Ordered, Flatten, LastN, HeadOf;
      SendFrame(Exit(code));
      DisposeSession();
    }

    /** Filtering the pruned list gives the window over all exits ever. */
    lemma PruneIsWindow()
      requires Valid()
      ensures Recent(respawnTimes, now) + [now] == Recent(exits + [now], now)
    {
      assert (exits + [now])[..|exits|] == exits;
      if exits != [] {
        RecentOfRecent(exits, exits[|exits| - 1], now);
      }
    }

    /** Prunes the crash list to the window and adds this crash. */
    method RecordCrash()
      requires Valid()
      modifies this`respawnTimes, this`exits
      ensures Valid() && exits == old(exits) + [now] && respawnTimes == Recent(exits, now)
    {
      PruneIsWindow();
      respawnTimes := Recent(respawnTimes, now);
      respawnTimes := respawnTimes + [now];
      exits := exits + [now];
    }

    method ScheduleRespawn()
      requires Valid()
      modifies this`timers, this`respawnTimer, this`nextId
      ensures Valid() && State() == Arm(old(State()))
    {
      hide Recent, Ordered, Flatten, LastN, HeadOf;
      if respawnTimer.Some? {
        timers := timers - {respawnTimer.value};
      }
      respawnTimer := Some(nextId);
      timers := timers + {nextId};
      nextId := nextId + 1;
    }

    /** The child exited: respawn after the debounce, unless it keeps crashing. */
    method OnChildExit(pid: nat, code: int, elapsed: nat)
      requires Valid()
      modifies this
      ensures Valid() && State() == PtyExitStep(old(State()), pid, code, elapsed)
    {
      hide Recent, Flatten, LastN, HeadOf;
      now := now + elapsed;
      if disposed || pid != term.pid {
        return;
      }
      OnCrash(code);
    }

    method OnCrash(code: int)
      requires Valid() && !disposed
      modifies this
      ensures Valid() && State() == CrashStep(old(State()), code)
    {
      hide Recent, Ordered, Flatten, LastN, HeadOf;
      SendFrame(ChildExited(code));
      RecordCrash();
      if |respawnTimes| > RESPAWN_WINDOW_LIMIT {
        End(code);
        return;
      }
      ScheduleRespawn();
    }

    /** The debounce timer's callback; `spawns` is whether the spawn succeeds. */
    method OnTimer(id: nat, spawns: bool)
      requires Valid()
      modifies this
      ensures Valid() && State() == TimerStep(old(State()), id, spawns)
    {
      hide Recent, Ordered, Flatten, LastN, HeadOf;
      if id !in timers {
        return;
      }
      timers := timers - {id};
      respawnTimer := None;
      if disposed {
        return;
      }
      if spawns {
        term := Pty(nextId, false);
        nextId := nextId + 1;
        SendFrame(ChildRespawned(term.pid));
      } else {
        End(-1);
      }
    }

    /** The whole ring, head to tail, as it is saved when a shell is paused. */
    method DumpReplayBuffer() returns (bytes: seq<byte>)
      requires Valid()
      ensures bytes == LastN(buffer.history, limits.capacity)
    {
      var slice := buffer.Since(buffer.HeadSeq());
      bytes := slice.bytes;
    }
  }
}
