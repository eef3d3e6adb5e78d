/**
 * Inbound connection permits (crates/chesscoin-node/src/runtime.rs): threads race to raise a shared counter with a
 * load / compare-exchange loop and lower it when their permit is dropped. Every interleaving of atomic steps is covered.
 */
module Permits {
  import opened Prelude

  /** Where a thread is in `reserve_inbound_connection`, or what it got. */
  datatype Position =
    | Trying               // about to load the counter
    | Loaded(seen: u64)    // has seen a value below the limit and is about to compare and exchange
    | Holding              // owns a permit
    | Refused

  datatype State = State(counter: u64, limit: u64, threads: map<nat, Position>)

  datatype Action = Load | CompareExchange | DropPermit | Retry

  datatype Event = Event(thread: nat, action: Action)

  function At(s: State, thread: nat): Position {
    if thread in s.threads then s.threads[thread] else Trying
  }

  /** `fetch_sub(1)` wraps around. */
  function FetchSub(x: u64): u64 {
    if x == 0 then TWO64 - 1 else x - 1
  }

  /** One atomic step of one thread; a step the thread is not ready for does nothing. */
  function Step(s: State, e: Event): State {
    match (e.action, At(s, e.thread))
    case (Load, Trying) =>
      s.(threads := s.threads[e.thread := if s.counter >= s.limit then Refused else Loaded(s.counter)])
    case (CompareExchange, Loaded(seen)) =>
      if s.counter == seen then
        s.(counter := if seen == TWO64 - 1 then 0 else seen + 1, threads := s.threads[e.thread := Holding])
      else s.(threads := s.threads[e.thread := Trying])
    case (DropPermit, Holding) =>
      s.(counter := FetchSub(s.counter), threads := s.threads[e.thread := Trying])
    case (Retry, Refused) => s.(threads := s.threads[e.thread := Trying])
    case _ => s
  }

  function Run(s: State, events: seq<Event>): State
    decreases |events|
  {
    if events == [] then s else Run(Step(s, events[0]), events[1..])
  }

  function Initial(limit: u64): State {
    State(0, limit, map[])
  }

  /** The threads that own a permit. */
  ghost function Holders(s: State): set<nat> {
    set t | t in s.threads && s.threads[t] == Holding
  }

  ghost predicate Inv(s: State) {
    && s.counter as int == |Holders(s)|
    && s.counter <= s.limit
    && SeenBelowLimit(s)
  }

  ghost predicate SeenBelowLimit(s: State) {
    forall t :: t in s.threads && s.threads[t].Loaded? ==> s.threads[t].seen < s.limit
  }

  /** Moving one thread adds it to the holders, removes it, or changes nothing. */
  lemma HoldersAfterMove(threads: map<nat, Position>, t: nat, p: Position, c: u64, d: u64, limit: u64)
    ensures var before, after := Holders(State(c, limit, threads)), Holders(State(d, limit, threads[t := p]));
            && after == (if p == Holding then before + {t} else before - {t})
            && |after| == |before| + (if p == Holding && t !in before then 1
                                      else if p != Holding && t in before then -1 else 0)
  {
    var before, after := Holders(State(c, limit, threads)), Holders(State(d, limit, threads[t := p]));
    assert after == if p == Holding then before + {t} else before - {t};
  }

  lemma StepKeepsInv(s: State, e: Event)
    requires Inv(s)
    ensures Inv(Step(s, e)) && Step(s, e).limit == s.limit
  {
    hide Holders, SeenBelowLimit;
    var t, u := e.thread, Step(s, e);
    StepKeepsSeen(s, e);
    HoldersAfterMove(s.threads, t, At(u, t), s.counter, u.counter, s.limit);
    HolderIsKnown(s, t);
  }

  lemma StepKeepsSeen(s: State, e: Event)
    requires SeenBelowLimit(s)
    ensures SeenBelowLimit(Step(s, e))
    ensures At(s, e.thread).Loaded? ==> At(s, e.thread).seen < s.limit
  {
  }

  lemma HolderIsKnown(s: State, t: nat)
    ensures t in Holders(s) <==> At(s, t) == Holding
    ensures |Holders(s)| == 0 ==> At(s, t) != Holding
  {
    if t in Holders(s) {
      assert |Holders(s)| > 0;
    }
  }

  lemma {:induction false} RunKeepsInv(s: State, events: seq<Event>)
    requires Inv(s)
    ensures Inv(Run(s, events)) && Run(s, events).limit == s.limit
    decreases |events|
  {
    if events != [] {
      StepKeepsInv(s, events[0]);
      RunKeepsInv(Step(s, events[0]), events[1..]);
    }
  }

  /** In every reachable state the counter is the number of live permits, and that number is within the limit. */
  lemma CounterIsLivePermits(limit: u64, events: seq<Event>)
    ensures Run(Initial(limit), events).counter as int == |Holders(Run(Initial(limit), events))|
    ensures |Holders(Run(Initial(limit), events))| <= limit
  {
    assert Holders(Initial(limit)) == {};
    RunKeepsInv(Initial(limit), events);
  }

  /** Dropping a permit never takes the counter below zero, and a thread is refused only when all permits are live. */
  lemma NoUnderflowNoSpuriousRefusal(limit: u64, events: seq<Event>, e: Event)
    ensures var s := Run(Initial(limit), events);
            && (e.action == DropPermit && At(s, e.thread) == Holding ==>
                  s.counter > 0 && Step(s, e).counter as int == s.counter as int - 1)
            && (At(s, e.thread) == Trying && At(Step(s, e), e.thread) == Refused ==> |Holders(s)| == limit)
  {
    var s := Run(Initial(limit), events);
    assert Holders(Initial(limit)) == {};
    RunKeepsInv(Initial(limit), events);
    if At(s, e.thread) == Holding {
      assert e.thread in Holders(s);
      assert |Holders(s)| > 0;
    }
  }

  /**
   * What an attempt ends in. A thread that finds the counter below the limit gets a permit, and the counter goes up by
   * one, exactly if the counter is as it was when the thread compares and exchanges; otherwise some other thread made
   * progress, nothing changes, and it tries again.
   */
  lemma FailedExchangeMeansProgress(s: State, thread: nat, others: seq<Event>)
    requires At(s, thread) == Trying && s.counter < s.limit
    requires forall i :: 0 <= i < |others| ==> others[i].thread != thread
    ensures var before := Run(Step(s, Event(thread, Load)), others);
            var after := Step(before, Event(thread, CompareExchange));
            && At(before, thread) == Loaded(s.counter)
            && (before.counter == s.counter ==>
                  && At(after, thread) == Holding && Holders(after) == Holders(before) + {thread}
                  && after.counter as int == before.counter as int + 1)
            && (before.counter != s.counter ==>
                  At(after, thread) == Trying && Holders(after) == Holders(before) && after.counter == before.counter)
  {
    var loaded := Step(s, Event(thread, Load));
    OthersLeaveAlone(loaded, thread, others);
    LimitStays(loaded, others);
  }

  lemma {:induction false} LimitStays(s: State, events: seq<Event>)
    ensures Run(s, events).limit == s.limit
    decreases |events|
  {
    if events != [] {
      LimitStays(Step(s, events[0]), events[1..]);
    }
  }

  /** From every reachable state with a free permit, a thread that is alone gets one. */
  lemma FreePermitIsGranted(limit: u64, events: seq<Event>, thread: nat)
    requires At(Run(Initial(limit), events), thread) == Trying
    requires |Holders(Run(Initial(limit), events))| < limit
    ensures var s := Run(Initial(limit), events);
            var t := Run(s, [Event(thread, Load), Event(thread, CompareExchange)]);
            && At(t, thread) == Holding && Holders(t) == Holders(s) + {thread}
            && t.counter as int == s.counter as int + 1
  {
    var s := Run(Initial(limit), events);
    CounterIsLivePermits(limit, events);
    LimitStays(Initial(limit), events);
    FailedExchangeMeansProgress(s, thread, []);
    var load, exchange := Event(thread, Load), Event(thread, CompareExchange);
    assert [load, exchange][1..] == [exchange] && [exchange][1..] == [];
    assert Run(Step(s, load), []) == Step(s, load);
    assert Run(Step(Step(s, load), exchange), []) == Step(Step(s, load), exchange);
    LoadOnly(s, thread);
  }

  lemma LoadOnly(s: State, thread: nat)
    ensures Holders(Step(s, Event(thread, Load))) == Holders(s)
  {
  }

  /** Dropping a permit frees it for the next attempt. */
  lemma DroppedPermitIsFree(limit: u64, events: seq<Event>, thread: nat)
    requires At(Run(Initial(limit), events), thread) == Holding
    ensures var s := Run(Initial(limit), events);
            var t := Step(s, Event(thread, DropPermit));
            At(t, thread) == Trying && Holders(t) == Holders(s) - {thread} && |Holders(t)| == |Holders(s)| - 1
  {
    var s := Run(Initial(limit), events);
    var t := Step(s, Event(thread, DropPermit));
    assert thread in Holders(s);
    assert Holders(t) == Holders(s) - {thread};
  }

  lemma {:induction false} OthersLeaveAlone(s: State, thread: nat, others: seq<Event>)
    requires forall i :: 0 <= i < |others| ==> others[i].thread != thread
    ensures At(Run(s, others), thread) == At(s, thread)
    decreases |others|
  {
    if others != [] {
      OthersLeaveAlone(Step(s, others[0]), thread, others[1..]);
    }
  }
}
