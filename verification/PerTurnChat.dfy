// The per-turn chat session: one one-shot child per user message, one at a time, the
// rest queued, with interrupts that drop the queue and a terminal dispose.
module PerTurnChats {
  import opened Common

  /** A message taken off the queue; `ran` is whether its child was spawned. */
  datatype Turn = Turn(msg: nat, ran: bool)

  /** Messages are numbered by acceptance. `alive` is the set of children no end event has come from yet,
      `ended` of those that have given one and may give their other. */
  datatype Chat = Chat(
    accepted: nat, queue: seq<nat>, child: Option<nat>, interrupted: bool, disposed: bool,
    taken: seq<Turn>, dropped: set<nat>, alive: set<nat>, ended: set<nat>, nextChild: nat)

  /** `spawns` is whether the spawn this event may lead to succeeds. A stray end is the second end event
      (an `exit` after an `error`, or the reverse) of a child already accounted for; each is heard once. */
  datatype Event =
    | Send(spawns: bool)
    | TurnEnds(child: nat, spawns: bool)
    | StrayEnd(child: nat, spawns: bool)
    | Interrupt
    | Dispose

  const EMPTY := Chat(0, [], None, false, false, [], {}, {}, {}, 0)

  function DrainIfIdle(s: Chat, spawns: bool): Chat {
    if s.disposed || s.child.Some? || s.queue == [] then s
    else if !spawns then s.(queue := s.queue[1..], taken := s.taken + [Turn(s.queue[0], false)])
    else
      s.(queue := s.queue[1..], taken := s.taken + [Turn(s.queue[0], true)],
         child := Some(s.nextChild), alive := s.alive + {s.nextChild}, nextChild := s.nextChild + 1, interrupted := false)
  }

  function OnTurnExit(s: Chat, spawns: bool): Chat {
    DrainIfIdle(s.(child := None, interrupted := false), spawns)
  }

  function Step(s: Chat, e: Event): Chat {
    match e
    case Send(spawns) =>
      if s.disposed then s else DrainIfIdle(s.(accepted := s.accepted + 1, queue := s.queue + [s.accepted]), spawns)
    case TurnEnds(child, spawns) =>
      if child !in s.alive then s
      else OnTurnExit(s.(alive := s.alive - {child}, ended := s.ended + {child}), spawns)
    case StrayEnd(child, spawns) =>
      if child !in s.ended then s else OnTurnExit(s.(ended := s.ended - {child}), spawns)
    case Interrupt =>
      if s.disposed || s.child.None? then s
      else s.(interrupted := true, dropped := s.dropped + (set m | m in s.queue), queue := [])
    case Dispose => s.(disposed := true)
  }

  function Run(s: Chat, events: seq<Event>): Chat {
    if events == [] then s else Step(Run(s, events[..|events| - 1]), events[|events| - 1])
  }

  predicate NoStray(events: seq<Event>) {
    forall i :: 0 <= i < |events| ==> !events[i].StrayEnd?
  }

  // ---------------------------------------------------------------- accounting

  function Msgs(taken: seq<Turn>): (r: seq<nat>)
    ensures |r| == |taken|
  {
    seq(|taken|, i requires 0 <= i < |taken| => taken[i].msg)
  }

  /** The first n messages less the dropped ones, in order. */
  function Kept(n: nat, dropped: set<nat>): seq<nat> {
    if n == 0 then [] else Kept(n - 1, dropped) + (if n - 1 in dropped then [] else [n - 1])
  }

  /** Turns taken, then the queue, are the accepted sends in order minus those dropped. */
  predicate Accounts(s: Chat) {
    && Msgs(s.taken) + s.queue == Kept(s.accepted, s.dropped)
    && forall m :: m in s.dropped ==> m < s.accepted
  }

  lemma {:induction false} KeptMembers(n: nat, dropped: set<nat>)
    ensures forall i :: 0 <= i < |Kept(n, dropped)| ==> Kept(n, dropped)[i] < n && Kept(n, dropped)[i] !in dropped
    ensures forall i, j :: 0 <= i < j < |Kept(n, dropped)| ==> Kept(n, dropped)[i] < Kept(n, dropped)[j]
  {
    if n > 0 {
      KeptMembers(n - 1, dropped);
    }
  }

  /** Dropping everything from position k of the kept list on leaves its first k. */
  lemma {:induction false} DropSuffix(n: nat, dropped: set<nat>, k: nat, more: set<nat>)
    requires k <= |Kept(n, dropped)|
    requires forall i :: 0 <= i < |Kept(n, dropped)| ==> (Kept(n, dropped)[i] in more <==> i >= k)
    ensures Kept(n, dropped + more) == Kept(n, dropped)[..k]
  {
    if n > 0 {
      var before, all := Kept(n - 1, dropped), Kept(n, dropped);
      assert forall i :: 0 <= i < |before| ==> all[i] == before[i];
      DropSuffix(n - 1, dropped, Min(k, |before|), more);
      if n - 1 !in dropped {
        assert all[|before|] == n - 1;
      }
    }
  }

  lemma InterruptAccounts(s: Chat)
    requires Accounts(s) && !s.disposed && s.child.Some?
    ensures Accounts(Step(s, Interrupt))
  {
    var kept := Kept(s.accepted, s.dropped);
    var k := |s.taken|;
    KeptMembers(s.accepted, s.dropped);
    var more := set m | m in s.queue;
    assert forall j :: 0 <= j < |s.queue| ==> s.queue[j] == kept[k + j];
    forall i | 0 <= i < |kept|
      ensures kept[i] in more <==> i >= k
    {
      if i >= k {
        assert kept[i] == s.queue[i - k];
      }
    }
    DropSuffix(s.accepted, s.dropped, k, more);
    assert Step(s, Interrupt).dropped == s.dropped + more;
    assert kept[..k] == Msgs(s.taken) && Msgs(s.taken) + [] == Msgs(s.taken);
    forall m | m in more
      ensures m < s.accepted
    {
      var j :| 0 <= j < |s.queue| && s.queue[j] == m;
      assert s.queue[j] == kept[k + j];
    }
  }

  lemma DrainAccounts(s: Chat, spawns: bool)
    requires Accounts(s)
    ensures Accounts(DrainIfIdle(s, spawns))
  {
    hide Kept;
    if s.queue != [] {
      var next := Turn(s.queue[0], spawns);
      assert Msgs(s.taken + [next]) == Msgs(s.taken) + [s.queue[0]];
      assert s.queue == [s.queue[0]] + s.queue[1..];
      ConcatAssociates(Msgs(s.taken), [s.queue[0]], s.queue[1..]);
    }
  }

  lemma SendAccounts(s: Chat, spawns: bool)
    requires Accounts(s)
    ensures Accounts(Step(s, Send(spawns)))
  {
    if !s.disposed {
      assert s.accepted !in s.dropped;
      assert Kept(s.accepted + 1, s.dropped) == Kept(s.accepted, s.dropped) + [s.accepted];
      hide Kept;
      ConcatAssociates(Msgs(s.taken), s.queue, [s.accepted]);
      DrainAccounts(s.(accepted := s.accepted + 1, queue := s.queue + [s.accepted]), spawns);
    }
  }

  /** Holds in every run whatever, stray ends included. */
  lemma {:induction false} EveryRunAccounts(events: seq<Event>)
    ensures Accounts(Run(EMPTY, events))
  {
    if events == [] {
      assert Msgs([]) + [] == Kept(0, {});
    } else {
      var s, e := Run(EMPTY, events[..|events| - 1]), events[|events| - 1];
      EveryRunAccounts(events[..|events| - 1]);
      match e
      case Send(spawns) => SendAccounts(s, spawns);
      case TurnEnds(child, spawns) =>
        DrainAccounts(s.(alive := s.alive - {child}, ended := s.ended + {child}, child := None, interrupted := false), spawns);
      case StrayEnd(child, spawns) => DrainAccounts(s.(ended := s.ended - {child}, child := None, interrupted := false), spawns);
      case Interrupt => if !s.disposed && s.child.Some? { InterruptAccounts(s); }
      case Dispose =>
    }
  }

  /** So turns start in send order: their numbers strictly increase, and none was dropped. */
  lemma TurnsInSendOrder(events: seq<Event>)
    ensures var s := Run(EMPTY, events);
            && (forall i, j :: 0 <= i < j < |s.taken| ==> s.taken[i].msg < s.taken[j].msg)
            && (forall i :: 0 <= i < |s.taken| ==> s.taken[i].msg !in s.dropped)
  {
    var s := Run(EMPTY, events);
    EveryRunAccounts(events);
    KeptMembers(s.accepted, s.dropped);
    var kept := Kept(s.accepted, s.dropped);
    forall i | 0 <= i < |s.taken|
      ensures s.taken[i].msg == kept[i]
    {
      assert Msgs(s.taken)[i] == kept[i];
    }
  }

  // ---------------------------------------------------------------- one child at a time

  /** The children alive are exactly the one the session knows, if any. */
  predicate OneChild(s: Chat) {
    && s.alive == (if s.child.Some? then {s.child.value} else {})
    && (s.child.Some? ==> s.child.value < s.nextChild)
  }

  /** An idle live session has nothing waiting. */
  predicate IdleIsEmpty(s: Chat) {
    !s.disposed && s.child.None? ==> s.queue == []
  }

  /** Main result: with one end event per child, at most one child is in flight in every run. */
  lemma {:induction false} EveryRunOneChild(events: seq<Event>)
    requires NoStray(events)
    ensures var s := Run(EMPTY, events); OneChild(s) && |s.alive| <= 1
  {
    if events != [] {
      assert NoStray(events[..|events| - 1]);
      EveryRunOneChild(events[..|events| - 1]);
      OneChildKeptExactly(Run(EMPTY, events[..|events| - 1]), events[|events| - 1]);
    }
  }

  /** The step that loses track of a child is the second end event of one while another runs. */
  lemma OneChildKeptExactly(s: Chat, e: Event)
    requires OneChild(s)
    ensures OneChild(Step(s, e)) <==> !(e.StrayEnd? && e.child in s.ended && s.child.Some?)
  {
    if e.TurnEnds? && e.child in s.alive {
      assert s.alive - {e.child} == {};
    }
  }

  /** Then two children run at once as soon as a message is waiting. */
  lemma StrayEndStartsTwo(s: Chat, child: nat)
    requires OneChild(s) && !s.disposed && s.child.Some? && s.queue != [] && child in s.ended
    ensures |Step(s, StrayEnd(child, true)).alive| == 2
  {
    var t := Step(s, StrayEnd(child, true));
    assert t.alive == {s.child.value, s.nextChild};
  }

  /** Every child started is in one of three states: no end event yet, one, or both. */
  predicate Children(s: Chat) {
    && (forall k :: k in s.alive ==> k < s.nextChild && k !in s.ended)
    && (forall k :: k in s.ended ==> k < s.nextChild)
  }

  /** So in every run an end event is only ever one of a child that was started, and a second one only of a
      child that has given its first. */
  lemma {:induction false} EveryRunChildren(events: seq<Event>)
    ensures Children(Run(EMPTY, events))
  {
    if events != [] {
      EveryRunChildren(events[..|events| - 1]);
    }
  }

  predicate AlwaysSpawns(events: seq<Event>) {
    forall i :: 0 <= i < |events| ==>
      (events[i].Send? || events[i].TurnEnds? || events[i].StrayEnd? ==> events[i].spawns)
  }

  /** A turn ends, the next spawn fails, and more messages wait behind it. */
  predicate Strands(s: Chat, e: Event) {
    && ((e.StrayEnd? && e.child in s.ended) || (e.TurnEnds? && e.child in s.alive))
    && !s.disposed && !e.spawns && |s.queue| >= 2
  }

  /** That is the one kind of step that leaves messages waiting with nothing to take them. */
  lemma IdleIsEmptyKeptExactly(s: Chat, e: Event)
    requires OneChild(s) && IdleIsEmpty(s)
    ensures IdleIsEmpty(Step(s, e)) <==> !Strands(s, e)
  {
  }

  /** Main result: when spawns succeed and ends are not doubled, an idle live session has an empty queue. */
  lemma {:induction false} EveryRunIdleIsEmpty(events: seq<Event>)
    requires NoStray(events) && AlwaysSpawns(events)
    ensures IdleIsEmpty(Run(EMPTY, events))
  {
    if events != [] {
      var init, last := events[..|events| - 1], events[|events| - 1];
      assert NoStray(init) && AlwaysSpawns(init);
      EveryRunIdleIsEmpty(init);
      EveryRunOneChild(init);
      assert events[|events| - 1] == last;
      IdleIsEmptyKeptExactly(Run(EMPTY, init), last);
    }
  }

  lemma RunOfAppend(s: Chat, events: seq<Event>, e: Event)
    ensures Run(s, events + [e]) == Step(Run(s, events), e)
  {
    assert (events + [e])[..|events|] == events;
  }

  /** Three messages and a turn that ends into a failing spawn strand the third. */
  lemma ThreeSendsStrandOne()
    ensures var s := Run(EMPTY, [Send(true), Send(true), Send(true), TurnEnds(0, false)]);
            !s.disposed && s.child.None? && s.alive == {} && s.queue == [2]
  {
    hide Run, Step;
    RunOfFour(EMPTY, Send(true), Send(true), Send(true), TurnEnds(0, false));
    AfterThreeSends();
    ThenAFailingSpawn();
  }

  lemma RunOfTwo(s: Chat, e0: Event, e1: Event)
    ensures Run(s, [e0, e1]) == Step(Step(s, e0), e1)
  {
    hide Step;
    RunOfAppend(s, [e0], e1);
    assert [e0] + [e1] == [e0, e1] && [e0][..0] == [] && Run(s, []) == s;
  }

  lemma RunOfFour(s: Chat, e0: Event, e1: Event, e2: Event, e3: Event)
    ensures Run(s, [e0, e1, e2, e3]) == Step(Step(Step(Step(s, e0), e1), e2), e3)
  {
    hide Step, Run;
    RunOfTwo(s, e0, e1);
    RunOfAppend(s, [e0, e1], e2);
    assert [e0, e1] + [e2] == [e0, e1, e2];
    RunOfAppend(s, [e0, e1, e2], e3);
    assert [e0, e1, e2] + [e3] == [e0, e1, e2, e3];
  }

  lemma AfterThreeSends()
    ensures Step(Step(Step(EMPTY, Send(true)), Send(true)), Send(true))
            == Chat(3, [1, 2], Some(0), false, false, [Turn(0, true)], {}, {0}, {}, 1)
  {
  }

  lemma ThenAFailingSpawn()
    ensures Step(Chat(3, [1, 2], Some(0), false, false, [Turn(0, true)], {}, {0}, {}, 1), TurnEnds(0, false))
            == Chat(3, [2], None, false, false, [Turn(0, true), Turn(1, false)], {}, {}, {0}, 1)
  {
  }

  /** Three messages, and both end events of the first child: its second one starts a further child
      beside the one running. */
  lemma ThreeSendsRunTwo()
    ensures Run(EMPTY, [Send(true), Send(true), Send(true), TurnEnds(0, true)] + [StrayEnd(0, true)]).alive == {1, 2}
  {
    var sent := [Send(true), Send(true), Send(true), TurnEnds(0, true)];
    hide Run, Step;
    RunOfFour(EMPTY, Send(true), Send(true), Send(true), TurnEnds(0, true));
    AfterThreeSends();
    RunOfAppend(EMPTY, sent, StrayEnd(0, true));
    ThenTheFirstEndsTwice();
  }

  lemma ThenTheFirstEndsTwice()
    ensures var s := Chat(3, [1, 2], Some(0), false, false, [Turn(0, true)], {}, {0}, {}, 1);
            Step(Step(s, TurnEnds(0, true)), StrayEnd(0, true)).alive == {1, 2}
  {
    var s := Chat(3, [1, 2], Some(0), false, false, [Turn(0, true)], {}, {0}, {}, 1);
    assert Step(s, TurnEnds(0, true)) == Chat(3, [2], Some(1), false, false, [Turn(0, true), Turn(1, true)], {}, {1}, {0}, 2);
  }

  /** Main result: nothing starts after dispose, in any continuation. */
  lemma {:induction false} NothingStartsAfterDispose(s: Chat, events: seq<Event>)
    requires s.disposed
    ensures var t := Run(s, events); t.disposed && t.taken == s.taken && t.accepted == s.accepted && t.alive <= s.alive
  {
    if events != [] {
      NothingStartsAfterDispose(s, events[..|events| - 1]);
    }
  }

  // ---------------------------------------------------------------- what each event does

  /** The oldest of the waiting messages q becomes a turn, with a new child when its spawn succeeds. */
  predicate TakesOldest(before: Chat, q: seq<nat>, spawns: bool, after: Chat)
    requires q != []
  {
    && after.queue == q[1..] && after.taken == before.taken + [Turn(q[0], spawns)]
    && after.child == (if spawns then Some(before.nextChild) else None)
    && after.nextChild == (if spawns then before.nextChild + 1 else before.nextChild)
  }

  /** Nothing is taken and no child started. */
  predicate TakesNothing(before: Chat, q: seq<nat>, after: Chat) {
    after.queue == q && after.taken == before.taken && after.nextChild == before.nextChild
  }

  /** A send joins the end of the queue; an idle session takes the oldest message at once. */
  lemma SendExactly(s: Chat, spawns: bool)
    ensures var after, q := Step(s, Send(spawns)), s.queue + [s.accepted];
            && after.dropped == s.dropped && after.disposed == s.disposed && after.ended == s.ended
            && (s.disposed ==> after == s)
            && (!s.disposed ==>
                  && after.accepted == s.accepted + 1
                  && if s.child.Some? then TakesNothing(s, q, after) && after.child == s.child && after.alive == s.alive
                     else TakesOldest(s, q, spawns, after) && after.alive == if spawns then s.alive + {s.nextChild} else s.alive)
  {
  }

  /** The first end event of a child leaves the session idle or with the next message's child. */
  lemma TurnEndsExactly(s: Chat, child: nat, spawns: bool)
    ensures var after := Step(s, TurnEnds(child, spawns));
            && after.dropped == s.dropped && after.disposed == s.disposed && after.accepted == s.accepted
            && (child !in s.alive ==> after == s)
            && (child in s.alive ==>
                  && after.ended == s.ended + {child}
                  && if s.disposed || s.queue == [] then TakesNothing(s, s.queue, after) && after.child == None && after.alive == s.alive - {child}
                     else
                       && TakesOldest(s, s.queue, spawns, after)
                       && after.alive == (s.alive - {child}) + if spawns then {s.nextChild} else {})
  {
  }

  /** An interrupt of a running turn empties the queue and drops exactly its messages; the child runs on. */
  lemma InterruptExactly(s: Chat)
    ensures var after := Step(s, Interrupt);
            && after.accepted == s.accepted && after.taken == s.taken && after.child == s.child
            && after.alive == s.alive && after.ended == s.ended && after.nextChild == s.nextChild
            && after.disposed == s.disposed
            && (!s.disposed && s.child.Some? ==>
                  && after.queue == [] && after.interrupted
                  && forall m :: m in after.dropped <==> m in s.dropped || m in s.queue)
            && (s.disposed || s.child.None? ==> after == s)
  {
  }

  /** A dispose keeps everything else as it is. */
  lemma DisposeExactly(s: Chat)
    ensures Step(s, Dispose).disposed && Step(s, Dispose).(disposed := s.disposed) == s
  {
  }

  // ---------------------------------------------------------------- the session as the program runs it

  class PerTurnChatSession {
    var queue: seq<string>
    var child: Option<nat>
    var interruptedTurn: bool
    var disposed: bool
    /** The texts given to children, in order. */
    var started: seq<string>
    var alive: set<nat>
    var endedOnce: set<nat>
    var nextChild: nat
    ghost var texts: seq<string>
    ghost var waiting: seq<nat>
    ghost var taken: seq<Turn>
    ghost var dropped: set<nat>

    ghost function State(): Chat
      reads this
    {
      Chat(|texts|, waiting, child, interruptedTurn, disposed, taken, dropped, alive, endedOnce, nextChild)
    }

    /** The queue holds the texts of the waiting messages; the texts started are those of the turns that ran. */
    ghost predicate Valid()
      reads this
    {
      && (forall i :: 0 <= i < |waiting| ==> waiting[i] < |texts|)
      && (forall i :: 0 <= i < |taken| ==> taken[i].msg < |texts|)
      && queue == TextsOf(texts, waiting)
      && started == RanTexts(texts, taken)
    }

    constructor ()
      ensures Valid() && State() == EMPTY
    {
      queue, child, interruptedTurn, disposed, started := [], None, false, false, [];
      alive, endedOnce, nextChild, texts, waiting, taken, dropped := {}, {}, 0, [], [], [], {};
    }

    method SendText(text: string, spawns: bool)
      requires Valid()
      modifies this
      ensures Valid() && State() == Step(old(State()), Send(spawns))
      ensures texts == if old(disposed) then old(texts) else old(texts) + [text]
    {
      if disposed {
        return;
      }
      hide TextsOf, RanTexts;
      MoreTexts(texts, text, waiting, taken);
      TextsOfAppend(texts + [text], waiting, |texts|);
      waiting := waiting + [|texts|];
      texts := texts + [text];
      queue := queue + [text];
      Drain(spawns);
    }

    method Drain(spawns: bool)
      requires Valid()
      modifies this`queue, this`waiting, this`taken, this`child, this`alive, this`nextChild, this`interruptedTurn, this`started
      ensures Valid() && State() == DrainIfIdle(old(State()), spawns)
    {
      hide TextsOf, RanTexts;
      TextsOfFacts(texts, waiting);
      if disposed || child.Some? || |queue| == 0 {
        return;
      }
      Dequeue(spawns);
      if spawns {
        Launch();
      }
    }

    method Launch()
      modifies this`child, this`alive, this`nextChild, this`interruptedTurn
      ensures child == Some(old(nextChild)) && alive == old(alive) + {old(nextChild)} && nextChild == old(nextChild) + 1
      ensures !interruptedTurn
    {
      child := Some(nextChild);
      alive := alive + {nextChild};
      nextChild := nextChild + 1;
      interruptedTurn := false;
    }

    /** Takes the oldest message off the queue and, when its child spawns, hands it over. */
    method Dequeue(spawns: bool)
      requires Valid() && waiting != []
      modifies this`queue, this`waiting, this`taken, this`started
      ensures Valid()
      ensures waiting == old(waiting)[1..] && taken == old(taken) + [Turn(old(waiting)[0], spawns)]
    {
      TextsOfFacts(texts, waiting);
      TextsOfTail(texts, waiting);
      RanTextsOfAppend(texts, taken, Turn(waiting[0], spawns));
      hide TextsOf, RanTexts;
      var next := queue[0];
      queue := queue[1..];
      if spawns {
        started := started + [next];
      }
      taken := taken + [Turn(waiting[0], spawns)];
      waiting := waiting[1..];
    }

    /** A child's exit or error event: its first, or the other one after it. */
    method OnEnd(ended: nat, spawns: bool)
      requires Valid() && (ended in alive || ended in endedOnce)
      modifies this
      ensures Valid()
      ensures State() == Step(old(State()), if ended in old(alive) then TurnEnds(ended, spawns) else StrayEnd(ended, spawns))
      ensures texts == old(texts)
    {
      hide TextsOf, RanTexts;
      if ended in alive {
        alive, endedOnce := alive - {ended}, endedOnce + {ended};
      } else {
        endedOnce := endedOnce - {ended};
      }
      child := None;
      interruptedTurn := false;
      Drain(spawns);
    }

    method InterruptTurn()
      requires Valid()
      modifies this
      ensures Valid() && State() == Step(old(State()), Interrupt)
      ensures texts == old(texts)
    {
      if disposed {
        return;
      }
      if child.None? {
        return;
      }
      hide RanTexts;
      interruptedTurn := true;
      dropped := dropped + (set m | m in waiting);
      waiting := [];
      queue := [];
    }

    method DisposeSession()
      requires Valid()
      modifies this`disposed
      ensures Valid() && State() == Step(old(State()), Dispose)
    {
      disposed := true;
    }
  }

  ghost function TextsOf(texts: seq<string>, msgs: seq<nat>): (r: seq<string>)
    requires forall i :: 0 <= i < |msgs| ==> msgs[i] < |texts|
  {
    seq(|msgs|, i requires 0 <= i < |msgs| => texts[msgs[i]])
  }

  ghost function RanTexts(texts: seq<string>, taken: seq<Turn>): seq<string>
    requires forall i :: 0 <= i < |taken| ==> taken[i].msg < |texts|
  {
    if taken == [] then []
    else
      var last := taken[|taken| - 1];
      RanTexts(texts, taken[..|taken| - 1]) + (if last.ran then [texts[last.msg]] else [])
  }

  lemma TextsOfFacts(texts: seq<string>, msgs: seq<nat>)
    requires forall i :: 0 <= i < |msgs| ==> msgs[i] < |texts|
    ensures |TextsOf(texts, msgs)| == |msgs|
    ensures forall i :: 0 <= i < |msgs| ==> TextsOf(texts, msgs)[i] == texts[msgs[i]]
  {
  }

  lemma TextsOfTail(texts: seq<string>, msgs: seq<nat>)
    requires msgs != [] && forall i :: 0 <= i < |msgs| ==> msgs[i] < |texts|
    ensures TextsOf(texts, msgs[1..]) == TextsOf(texts, msgs)[1..]
  {
  }

  lemma TextsOfAppend(texts: seq<string>, msgs: seq<nat>, m: nat)
    requires m < |texts| && forall i :: 0 <= i < |msgs| ==> msgs[i] < |texts|
    ensures TextsOf(texts, msgs + [m]) == TextsOf(texts, msgs) + [texts[m]]
  {
  }

  lemma RanTextsOfAppend(texts: seq<string>, taken: seq<Turn>, t: Turn)
    requires t.msg < |texts| && forall i :: 0 <= i < |taken| ==> taken[i].msg < |texts|
    ensures RanTexts(texts, taken + [t]) == if t.ran then RanTexts(texts, taken) + [texts[t.msg]] else RanTexts(texts, taken)
  {
    assert (taken + [t])[..|taken|] == taken;
  }

  lemma {:induction false} MoreTexts(texts: seq<string>, text: string, msgs: seq<nat>, taken: seq<Turn>)
    requires forall i :: 0 <= i < |msgs| ==> msgs[i] < |texts|
    requires forall i :: 0 <= i < |taken| ==> taken[i].msg < |texts|
    ensures TextsOf(texts + [text], msgs) == TextsOf(texts, msgs)
    ensures RanTexts(texts + [text], taken) == RanTexts(texts, taken)
  {
    if taken != [] {
      MoreTexts(texts, text, msgs, taken[..|taken| - 1]);
    }
  }
}
