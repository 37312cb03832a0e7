/** The event queue under any interleaving of any number of sending and receiving threads.

A send holds the lock while it stores the event and then releases a token; a receive takes
a token without the lock and only later locks the ring and pops. Each of these is a step of
its own here, so a token may be taken between a store and its release, and any number of
receivers may sit between their token and their pop. */
module EventProtocol {
  import opened EventQueue

  type Tid = nat

  datatype Lock = Open | Storing(t: Tid) | Leaving(t: Tid)

  /** `holders` have a token and have not popped yet. `accepted` and `delivered` record the
  history: events that entered the ring, and events handed to receivers. */
  datatype State = State(
    ring: Ring, tokens: nat, lock: Lock, holders: set<Tid>,
    accepted: seq<Event>, delivered: seq<Event>)

  datatype Step =
    | EnterSend(t: Tid, ev: Event)
    | ReleaseToken(t: Tid)
    | TakeToken(t: Tid)
    | TimeOut(t: Tid)
    | EnterPop(t: Tid)
    | Leave(t: Tid)

  function Initial(): State {
    State(EmptyRing(), 0, Open, {}, [], [])
  }

  /** What the code's own sequencing allows a thread to do next. */
  predicate Enabled(s: State, a: Step) {
    |s.ring.buf| == CAP && s.ring.head < CAP && s.ring.tail < CAP &&
    match a
    case EnterSend(t, ev) => s.lock.Open? && t !in s.holders
    case ReleaseToken(t) => s.lock == Storing(t)
    case TakeToken(t) => s.tokens > 0 && t !in s.holders && (s.lock.Open? || s.lock.t != t)
    case TimeOut(t) => t !in s.holders
    case EnterPop(t) => s.lock.Open? && t in s.holders
    case Leave(t) => s.lock == Leaving(t)
  }

  function Next(s: State, a: Step): State
    requires Enabled(s, a)
  {
    match a
    case EnterSend(t, ev) =>
      if s.ring.cnt < CAP
      then s.(ring := Push(s.ring, ev), lock := Storing(t), accepted := s.accepted + [ev])
      else s.(lock := Leaving(t))
    case ReleaseToken(t) => s.(tokens := Release(s.tokens), lock := Leaving(t))
    case TakeToken(t) => s.(tokens := s.tokens - 1, holders := s.holders + {t})
    case TimeOut(t) => s
    case EnterPop(t) =>
      var p := Pop(s.ring);
      s.(ring := p.0, lock := Leaving(t), holders := s.holders - {t}, delivered := s.delivered + [p.1])
    case Leave(t) => s.(lock := Open)
  }

  // ----- The inductive invariant -----

  /** An event is stored whose token has not been released yet. */
  function Unsignalled(s: State): nat {
    if s.lock.Storing? then 1 else 0
  }

  predicate Inv(s: State) {
    RingOk(s.ring) &&
    s.ring.cnt == s.tokens + |s.holders| + Unsignalled(s) &&
    s.accepted == s.delivered + Contents(s.ring) &&
    (s.lock.Open? || s.lock.t !in s.holders)
  }

  lemma InitialInv()
    ensures Inv(Initial())
  {
    assert Contents(EmptyRing()) == [];
  }

  lemma SendKeepsInv(s: State, t: Tid, ev: Event)
    requires Inv(s) && Enabled(s, EnterSend(t, ev))
    ensures Inv(Next(s, EnterSend(t, ev)))
  {
    hide RingOk, Contents, Push;
    if s.ring.cnt < CAP {
      PushAppends(s.ring, ev);
      PushCounts(s.ring, ev);
      assert s.delivered + (Contents(s.ring) + [ev]) == s.accepted + [ev];
    }
  }

  lemma PushCounts(r: Ring, ev: Event)
    requires |r.buf| == CAP && r.tail < CAP
    ensures Push(r, ev).cnt == r.cnt + 1
  {
  }

  lemma PopKeepsInv(s: State, t: Tid)
    requires Inv(s) && Enabled(s, EnterPop(t))
    ensures Inv(Next(s, EnterPop(t)))
  {
    hide Contents;
    assert |s.holders| > 0 by { assert s.holders != {}; }
    PopRemoves(s.ring);
    PopCounts(s.ring);
    hide Pop, RingOk;
    var c := Contents(s.ring);
    assert c == [c[0]] + c[1..];
    assert s.delivered + c == (s.delivered + [c[0]]) + c[1..];
  }

  lemma PopCounts(r: Ring)
    requires |r.buf| == CAP && r.head < CAP
    ensures Pop(r).0.cnt == r.cnt - 1
  {
  }

  lemma NextKeepsInv(s: State, a: Step)
    requires Inv(s) && Enabled(s, a)
    ensures Inv(Next(s, a))
  {
    hide Contents, Push, Pop;
    match a {
      case EnterSend(t, ev) => SendKeepsInv(s, t, ev);
      case ReleaseToken(t) =>
      case TakeToken(t) =>
      case TimeOut(t) =>
      case EnterPop(t) => PopKeepsInv(s, t);
      case Leave(t) =>
    }
  }

  // ----- What the invariant gives every step -----

  /** No receiver that holds a token ever finds the ring empty: its pop hands over exactly
  the oldest accepted event not yet delivered. */
  lemma PopDeliversNext(s: State, t: Tid)
    requires Inv(s) && Enabled(s, EnterPop(t))
    ensures s.ring.cnt > 0 && |s.delivered| < |s.accepted|
    ensures Next(s, EnterPop(t)).delivered == s.delivered + [s.accepted[|s.delivered|]]
    ensures Next(s, EnterPop(t)).accepted == s.accepted
  {
    assert |s.holders| > 0 by { assert s.holders != {}; }
    PopRemoves(s.ring);
  }

  /** A token release never meets the semaphore's limit of 512, so no token is lost. */
  lemma ReleaseSucceeds(s: State, t: Tid)
    requires Inv(s) && Enabled(s, ReleaseToken(t))
    ensures s.tokens < 128 && Next(s, ReleaseToken(t)).tokens == s.tokens + 1
    ensures Release(511) == 512 == Release(512)
  {
  }

  /** A send is refused exactly when 128 accepted events are still undelivered. */
  lemma SendRefusedWhenFull(s: State, t: Tid, ev: Event)
    requires Inv(s) && Enabled(s, EnterSend(t, ev))
    ensures Next(s, EnterSend(t, ev)).accepted ==
      if |s.accepted| - |s.delivered| < 128 then s.accepted + [ev] else s.accepted
  {
  }

  // ----- Progress -----

  /** The steps can be taken one after the other. */
  predicate Possible(s: State, steps: seq<Step>)
    decreases |steps|
  {
    steps == [] || (Enabled(s, steps[0]) && Possible(Next(s, steps[0]), steps[1..]))
  }

  function Taken(s: State, steps: seq<Step>): State
    requires Possible(s, steps)
    decreases |steps|
  {
    if steps == [] then s else Taken(Next(s, steps[0]), steps[1..])
  }

  lemma {:induction false} TwoSteps(s: State, a: Step, b: Step)
    requires Enabled(s, a) && Enabled(Next(s, a), b)
    ensures Possible(s, [a, b]) && Taken(s, [a, b]) == Next(Next(s, a), b)
  {
    hide Enabled, Next;
    assert [a, b][1..] == [b] && [b][1..] == [];
    OneStep(Next(s, a), b);
  }

  lemma {:induction false} OneStep(s: State, a: Step)
    requires Enabled(s, a)
    ensures Possible(s, [a]) && Taken(s, [a]) == Next(s, a)
  {
    hide Enabled, Next;
    assert [a][1..] == [];
    assert Possible(Next(s, a), []);
    assert Taken(Next(s, a), []) == Next(s, a);
  }

  lemma {:induction false} StepsConcat(s: State, a: seq<Step>, b: seq<Step>)
    requires Possible(s, a) && Possible(Taken(s, a), b)
    ensures Possible(s, a + b) && Taken(s, a + b) == Taken(Taken(s, a), b)
    decreases |a|
  {
    hide Enabled, Next;
    if a == [] {
      assert a + b == b;
    } else {
      assert (a + b)[0] == a[0] && (a + b)[1..] == a[1..] + b;
      StepsConcat(Next(s, a[0]), a[1..], b);
    }
  }

  /** Whoever is inside the lock leaves it, and nothing else happens. */
  lemma LockClears(s: State) returns (steps: seq<Step>)
    requires Inv(s)
    ensures |steps| <= 2 && Possible(s, steps) && forall a | a in steps :: a.ReleaseToken? || a.Leave?
    ensures var s' := Taken(s, steps);
      s'.lock.Open? && s'.ring == s.ring && s'.holders == s.holders && s'.accepted == s.accepted &&
      s'.delivered == s.delivered
  {
    if s.lock.Storing? {
      steps := [ReleaseToken(s.lock.t), Leave(s.lock.t)];
      TwoSteps(s, ReleaseToken(s.lock.t), Leave(s.lock.t));
    } else if s.lock.Leaving? {
      steps := [Leave(s.lock.t)];
      OneStep(s, Leave(s.lock.t));
    } else {
      steps := [];
    }
  }

  lemma {:induction false} StepsKeepInv(s: State, steps: seq<Step>)
    requires Inv(s) && Possible(s, steps)
    ensures Inv(Taken(s, steps))
    decreases |steps|
  {
    hide Inv, Enabled, Next;
    if steps != [] {
      NextKeepsInv(s, steps[0]);
      StepsKeepInv(Next(s, steps[0]), steps[1..]);
    }
  }

  /** With the lock open and an event undelivered, a receiver pops it: one that holds a token, or
  else `idle`, which finds one. */
  lemma OpenDelivers(s: State, idle: Tid) returns (steps: seq<Step>)
    requires Inv(s) && s.lock.Open? && |s.delivered| < |s.accepted| && idle !in s.holders
    ensures |steps| <= 2 && Possible(s, steps) && forall a | a in steps :: a.EnterPop? || a == TakeToken(idle)
    ensures Taken(s, steps).delivered == s.delivered + [s.accepted[|s.delivered|]]
    ensures Taken(s, steps).accepted == s.accepted
  {
    if s.holders != {} {
      var t :| t in s.holders;
      PopDeliversNext(s, t);
      steps := [EnterPop(t)];
      OneStep(s, EnterPop(t));
    } else {
      var s1 := Next(s, TakeToken(idle));
      NextKeepsInv(s, TakeToken(idle));
      PopDeliversNext(s1, idle);
      steps := [TakeToken(idle), EnterPop(idle)];
      TwoSteps(s, TakeToken(idle), EnterPop(idle));
    }
  }

  /** While an event is undelivered, at most four steps of the threads inside and of one idle
  receiver, and no new send, deliver the oldest such event and nothing else. */
  lemma Progress(s: State, idle: Tid) returns (steps: seq<Step>)
    requires Inv(s) && |s.delivered| < |s.accepted| && idle !in s.holders
    ensures |steps| <= 4 && Possible(s, steps) && forall a | a in steps :: !a.EnterSend? && !a.TimeOut?
    ensures Taken(s, steps).delivered == s.delivered + [s.accepted[|s.delivered|]]
    ensures Taken(s, steps).accepted == s.accepted
  {
    hide Inv, Enabled, Next, Possible, Taken;
    var first := LockClears(s);
    StepsKeepInv(s, first);
    var rest := OpenDelivers(Taken(s, first), idle);
    StepsConcat(s, first, rest);
    steps := first + rest;
  }

  /** A thread that is in no call can send: at most two steps of whoever is inside the lock let it
  in, and the event is accepted unless 128 are undelivered. */
  lemma SendProgress(s: State, t: Tid, ev: Event) returns (steps: seq<Step>)
    requires Inv(s) && t !in s.holders
    ensures |steps| <= 3 && Possible(s, steps)
    ensures forall a | a in steps :: a.ReleaseToken? || a.Leave? || a == EnterSend(t, ev)
    ensures Taken(s, steps).delivered == s.delivered
    ensures Taken(s, steps).accepted ==
      if |s.accepted| - |s.delivered| < 128 then s.accepted + [ev] else s.accepted
  {
    hide Inv, Enabled, Next, Possible, Taken;
    var first := LockClears(s);
    StepsKeepInv(s, first);
    var s1 := Taken(s, first);
    CanEnter(s1, t, ev);
    SendRefusedWhenFull(s1, t, ev);
    OneStep(s1, EnterSend(t, ev));
    StepsConcat(s, first, [EnterSend(t, ev)]);
    steps := first + [EnterSend(t, ev)];
  }

  lemma CanEnter(s: State, t: Tid, ev: Event)
    requires Inv(s) && s.lock.Open? && t !in s.holders
    ensures Enabled(s, EnterSend(t, ev)) && Next(s, EnterSend(t, ev)).delivered == s.delivered
  {
  }

  // ----- The methods of the queue object, as steps -----

  /** An undisturbed `Store` is the step that enters the send and, if the event is accepted, the
  step that releases its token. */
  lemma StoreIsSend(s: State, t: Tid, ev: Event)
    requires Enabled(s, EnterSend(t, ev))
    ensures var s1, stored := Next(s, EnterSend(t, ev)), Stored(s.ring, s.tokens, ev);
      if stored.accepted then
        Enabled(s1, ReleaseToken(t)) &&
        var s2 := Next(s1, ReleaseToken(t));
        s2.ring == stored.ring && s2.tokens == stored.tokens && s2.lock == Leaving(t)
      else s1.ring == stored.ring && s1.tokens == stored.tokens && s1.lock == Leaving(t)
  {
  }

  /** `TakeToken` succeeds exactly when that step is enabled, and then is that step. */
  lemma TokenIsTake(s: State, t: Tid)
    requires |s.ring.buf| == CAP && s.ring.head < CAP && s.ring.tail < CAP
    requires t !in s.holders && (s.lock.Open? || s.lock.t != t)
    ensures var r := TokenTaken(s.tokens);
      (r.0 <==> Enabled(s, TakeToken(t))) && (r.0 ==> Next(s, TakeToken(t)).tokens == r.1) && (!r.0 ==> r.1 == s.tokens)
  {
  }

  /** `Remove` is the step that enters the pop. */
  lemma RemoveIsPop(s: State, t: Tid)
    requires Enabled(s, EnterPop(t))
    ensures var s1, p := Next(s, EnterPop(t)), Pop(s.ring);
      s1.ring == p.0 && s1.delivered == s.delivered + [p.1] && s1.tokens == s.tokens
  {
  }

  // ----- Whole runs -----

  /** `trace` is a run: it starts empty and every state follows from the one before by an enabled step. */
  predicate IsRun(trace: seq<State>, steps: seq<Step>) {
    |trace| == |steps| + 1 && trace[0] == Initial() &&
    forall k :: 0 <= k < |steps| ==> Enabled(trace[k], steps[k]) && trace[k + 1] == Next(trace[k], steps[k])
  }

  /** At every moment of every run: one token, holder or pending release per queued event; the
  ring's indices agree; the semaphore stays below its limit; and delivered events followed by
  queued events are exactly the accepted ones, in order. */
  lemma {:induction false} RunsKeepInv(trace: seq<State>, steps: seq<Step>, k: nat)
    requires IsRun(trace, steps) && k <= |steps|
    ensures Inv(trace[k]) && trace[k].tokens <= 128
  {
    if k == 0 {
      InitialInv();
    } else {
      RunsKeepInv(trace, steps, k - 1);
      assert trace[k] == Next(trace[k - 1], steps[k - 1]);
      NextKeepsInv(trace[k - 1], steps[k - 1]);
    }
  }

  /** Histories only grow, and what was delivered is always a prefix of what was accepted. */
  lemma {:induction false} RunsDeliverInOrder(trace: seq<State>, steps: seq<Step>, j: nat, k: nat)
    requires IsRun(trace, steps) && j <= k <= |steps|
    ensures trace[j].delivered <= trace[k].delivered <= trace[k].accepted
    ensures trace[j].accepted <= trace[k].accepted
  {
    RunsKeepInv(trace, steps, k);
    if j < k {
      RunsDeliverInOrder(trace, steps, j, k - 1);
      assert trace[k] == Next(trace[k - 1], steps[k - 1]);
    }
  }

  /** When no thread is inside a call, the semaphore counts exactly the undelivered events. */
  lemma QuietTokens(trace: seq<State>, steps: seq<Step>, k: nat)
    requires IsRun(trace, steps) && k <= |steps| && trace[k].holders == {} && trace[k].lock.Open?
    ensures trace[k].tokens == |trace[k].accepted| - |trace[k].delivered|
  {
    RunsKeepInv(trace, steps, k);
  }
}
