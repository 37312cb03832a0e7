/** The LV2 object pool and the event-port calls over it, as a state transformer: a next-fit
pool of 511 slots whose identifiers are used again after a free (`runtime_glue.cpp`). */
module Kernel {
  import opened Bits
  import opened EventQueue

  const SLOTS: nat := 511

  /** What a slot holds; slot 0 is never used. */
  datatype Obj =
    | Free
    | Semaphore
    | Mutex
    | Condition
    | EventQueue(events: seq<Event>)
    | EventPort(queueId: word, name: dword)

  type Table = t: seq<Obj> | |t| == SLOTS + 1 witness AllFree(SLOTS + 1)

  datatype State = State(slots: Table, cursor: nat)

  function AllFree(n: nat): (t: seq<Obj>)
    ensures |t| == n && forall i :: 0 <= i < n ==> t[i] == Free
  {
    seq(n, _ => Free)
  }

  predicate Ok(k: State) {
    1 <= k.cursor <= SLOTS && k.slots[0] == Free &&
    forall id :: 1 <= id <= SLOTS && k.slots[id].EventQueue? ==> |k.slots[id].events| <= CAP
  }

  // ----- The pool -----

  /** The identifier examined in round `i` of an allocation that starts at `cursor`. */
  function Probe(cursor: nat, i: nat): (id: nat)
    requires cursor >= 1
    ensures 1 <= id <= SLOTS
  {
    (cursor - 1 + i) % SLOTS + 1
  }

  /** The first round at or after `i` that finds a free slot; `SLOTS` if none does. */
  function FirstFree(k: State, i: nat): (r: nat)
    requires Ok(k) && i <= SLOTS
    ensures i <= r <= SLOTS
    ensures forall j :: i <= j < r ==> !k.slots[Probe(k.cursor, j)].Free?
    ensures r < SLOTS ==> k.slots[Probe(k.cursor, r)].Free?
    decreases SLOTS - i
  {
    if i == SLOTS || k.slots[Probe(k.cursor, i)].Free? then i else FirstFree(k, i + 1)
  }

  /** The identifier an allocation grants; 0 if the pool is full. */
  function Granted(k: State): (id: nat)
    requires Ok(k)
    ensures id <= SLOTS
  {
    var i := FirstFree(k, 0);
    if i < SLOTS then Probe(k.cursor, i) else 0
  }

  /** The slot table and cursor after allocating an object. */
  function Alloc(k: State, o: Obj): State
    requires Ok(k)
  {
    var id := Granted(k);
    if id == 0 then k else State(k.slots[id := o], id % SLOTS + 1)
  }

  /** Distance from the cursor to an identifier, going round. */
  function Ahead(cursor: nat, id: nat): (d: nat)
    requires 1 <= cursor <= SLOTS && 1 <= id <= SLOTS
    ensures d < SLOTS
  {
    if id >= cursor then id - cursor else id - cursor + SLOTS
  }

  lemma ProbeAhead(cursor: nat, id: nat)
    requires 1 <= cursor <= SLOTS && 1 <= id <= SLOTS
    ensures Probe(cursor, Ahead(cursor, id)) == id
  {
  }

  lemma AheadProbe(cursor: nat, i: nat)
    requires 1 <= cursor <= SLOTS && i < SLOTS
    ensures Ahead(cursor, Probe(cursor, i)) == i
  {
  }

  /** Allocation fails only when every slot is in use; otherwise it grants the free identifier
  nearest to the cursor going up and round, which was not live. */
  lemma GrantIsNearest(k: State)
    requires Ok(k)
    ensures Granted(k) == 0 <==> forall id :: 1 <= id <= SLOTS ==> !k.slots[id].Free?
    ensures Granted(k) != 0 ==> k.slots[Granted(k)].Free?
    ensures Granted(k) != 0 ==>
      (forall id :: 1 <= id <= SLOTS && k.slots[id].Free? ==> Ahead(k.cursor, Granted(k)) <= Ahead(k.cursor, id))
  {
    var r := FirstFree(k, 0);
    forall id | 1 <= id <= SLOTS && k.slots[id].Free?
      ensures r <= Ahead(k.cursor, id)
    {
      ProbeAhead(k.cursor, id);
    }
    if r < SLOTS {
      AheadProbe(k.cursor, r);
    }
  }

  lemma AllocKeepsOk(k: State, o: Obj)
    requires Ok(k) && (o.EventQueue? ==> |o.events| <= CAP)
    ensures Ok(Alloc(k, o))
  {
  }

  // ----- Calls -----

  datatype Call =
    | Create(o: Obj)
    | DestroyQueue(id: word)
    | Destroy(id: word)
    | Connect(port: word, queue: word)
    | Send(port: word, d1: dword, d2: dword, d3: dword)
    | TryReceive(queue: word)

  /** Objects are created without contents or connection. */
  predicate Fresh(o: Obj) {
    !o.Free? && (o.EventQueue? ==> o.events == []) && (o.EventPort? ==> o.queueId == 0)
  }

  predicate WellTyped(c: Call) {
    c.Create? ==> Fresh(c.o)
  }

  /** `pool_get(id, kind) != NULL` for queues and for ports. */
  predicate LiveQueue(k: State, id: word) {
    1 <= id <= SLOTS && k.slots[id].EventQueue?
  }

  predicate LivePort(k: State, id: word) {
    1 <= id <= SLOTS && k.slots[id].EventPort?
  }

  function FreeSlot(k: State, id: word): State {
    if id == 0 || id > SLOTS then k else k.(slots := k.slots[id := Free])
  }

  /** The queue a send on `port` would enter, if there is one. */
  function Route(k: State, port: word): word {
    if LivePort(k, port) && LiveQueue(k, k.slots[port].queueId) then k.slots[port].queueId else 0
  }

  /** What the call hands back to its caller. */
  datatype Outcome = Nothing | Id(id: nat) | Accepted(queue: word, ev: Event) | Received(ev: Event)

  function Do(k: State, c: Call): (State, Outcome)
    requires Ok(k)
  {
    match c
    case Create(o) => (Alloc(k, o), Id(Granted(k)))
    case DestroyQueue(id) => (FreeSlot(k, id), Nothing)
    case Destroy(id) => (FreeSlot(k, id), Nothing)
    case Connect(port, queue) =>
      (if LivePort(k, port) then k.(slots := k.slots[port := k.slots[port].(queueId := queue)]) else k, Nothing)
    case Send(port, d1, d2, d3) =>
      var q := Route(k, port);
      if q != 0 && |k.slots[q].events| < CAP then
        var ev := Event(k.slots[port].name, d1, d2, d3);
        (k.(slots := k.slots[q := EventQueue(k.slots[q].events + [ev])]), Accepted(q, ev))
      else (k, Nothing)
    case TryReceive(queue) =>
      if LiveQueue(k, queue) && k.slots[queue].events != [] then
        var es := k.slots[queue].events;
        (k.(slots := k.slots[queue := EventQueue(es[1..])]), Received(es[0]))
      else (k, Nothing)
  }

  lemma DoKeepsOk(k: State, c: Call)
    requires Ok(k) && WellTyped(c)
    ensures Ok(Do(k, c).0)
  {
    match c {
      case Create(o) => AllocKeepsOk(k, o);
      case DestroyQueue(id) =>
      case Destroy(id) =>
      case Connect(port, queue) =>
      case Send(port, d1, d2, d3) =>
      case TryReceive(queue) =>
    }
  }

  predicate AllWellTyped(calls: seq<Call>) {
    forall i :: 0 <= i < |calls| ==> WellTyped(calls[i])
  }

  /** The state after a sequence of calls. */
  function After(k: State, calls: seq<Call>): (k': State)
    requires Ok(k) && AllWellTyped(calls)
    ensures Ok(k')
    decreases |calls|
  {
    if calls == [] then k else
      DoKeepsOk(k, calls[0]);
      After(Do(k, calls[0]).0, calls[1..])
  }

  // ----- Next fit over whole runs -----

  /** An allocation from `k` examines slot `id`: it grants it, or finds it in use. */
  predicate Examines(k: State, id: nat)
    requires Ok(k)
  {
    1 <= id <= SLOTS && Ahead(k.cursor, id) <= FirstFree(k, 0)
  }

  /** Some creation during the calls examined slot `id`. */
  predicate ExaminedDuring(k: State, calls: seq<Call>, id: nat)
    requires Ok(k) && AllWellTyped(calls)
    decreases |calls|
  {
    calls != [] &&
    (DoKeepsOk(k, calls[0]);
     (calls[0].Create? && Examines(k, id)) || ExaminedDuring(Do(k, calls[0]).0, calls[1..], id))
  }

  /** An examined slot was granted, or was in use. */
  lemma ExaminedMeans(k: State, id: nat)
    requires Ok(k) && Examines(k, id)
    ensures Granted(k) == id || !k.slots[id].Free?
  {
    ProbeAhead(k.cursor, id);
  }

  /** When the last call grants `x`, every slot between the starting cursor and `x` was examined. */
  lemma {:induction false} SweepExamines(k: State, calls: seq<Call>, x: nat, y: nat)
    requires Ok(k) && AllWellTyped(calls) && calls != []
    requires 1 <= x <= SLOTS && 1 <= y <= SLOTS && Ahead(k.cursor, y) <= Ahead(k.cursor, x)
    requires calls[|calls| - 1].Create? && Granted(After(k, calls[..|calls| - 1])) == x
    ensures ExaminedDuring(k, calls, y)
    decreases |calls|
  {
    var c := calls[0];
    DoKeepsOk(k, c);
    if c.Create? && Examines(k, y) {
    } else if |calls| == 1 {
      assert calls[..0] == [];
      assert Granted(k) == x;
      AheadProbe(k.cursor, FirstFree(k, 0));
    } else {
      var k' := Do(k, c).0;
      assert calls[..|calls| - 1][0] == c;
      assert calls[..|calls| - 1][1..] == calls[1..][..|calls[1..]| - 1];
      if c.Create? {
        CursorPasses(k, c.o, x, y);
      }
      SweepExamines(k', calls[1..], x, y);
    }
  }

  /** A creation that does not examine `y` moves the cursor without overtaking `y`. */
  lemma CursorPasses(k: State, o: Obj, x: nat, y: nat)
    requires Ok(k) && !o.Free? && 1 <= x <= SLOTS && 1 <= y <= SLOTS
    requires Ahead(k.cursor, y) <= Ahead(k.cursor, x) && !Examines(k, y)
    ensures Ok(Alloc(k, o)) ==> Ahead(Alloc(k, o).cursor, y) <= Ahead(Alloc(k, o).cursor, x)
  {
    var r := FirstFree(k, 0);
    hide FirstFree, Probe;
    assert r < Ahead(k.cursor, y) < SLOTS;
    var z := Probe(k.cursor, r);
    AheadProbe(k.cursor, r);
    assert Granted(k) == z && Ahead(k.cursor, z) == r;
  }

  /** Between two grants of the same identifier, every other identifier was granted or found in use. */
  lemma {:induction false} GrantedAgainAfterAll(k: State, o: Obj, calls: seq<Call>, y: nat)
    requires Ok(k) && WellTyped(Create(o)) && AllWellTyped(calls) && calls != [] && 1 <= y <= SLOTS
    requires var x := Granted(k); var k' := Alloc(k, o);
      x != 0 && Ok(k') && calls[|calls| - 1].Create? && Granted(After(k', calls[..|calls| - 1])) == x
    ensures Ok(Alloc(k, o)) && ExaminedDuring(Alloc(k, o), calls, y)
  {
    var x := Granted(k);
    var k' := Alloc(k, o);
    GrantedIsFarthest(k, o);
    hide *;
    SweepExamines(k', calls, x, y);
  }

  /** Right after a grant the granted identifier is the last one the scan would come to. */
  lemma GrantedIsFarthest(k: State, o: Obj)
    requires Ok(k) && Granted(k) != 0 && Ok(Alloc(k, o))
    ensures forall y :: 1 <= y <= SLOTS ==> Ahead(Alloc(k, o).cursor, y) <= Ahead(Alloc(k, o).cursor, Granted(k))
  {
    hide FirstFree, Granted;
    var x := Granted(k);
    assert Alloc(k, o).cursor == x % SLOTS + 1;
    assert Ahead(Alloc(k, o).cursor, x) == SLOTS - 1;
  }

  // ----- Ports and queues over whole runs -----

  /** A send changes at most the one live queue that the port's stored id names, which gains
  one event carrying the port's name; every other send changes nothing. */
  lemma SendTouchesRoute(k: State, port: word, d1: dword, d2: dword, d3: dword)
    requires Ok(k)
    ensures var k' := Do(k, Send(port, d1, d2, d3)).0;
      var q := Route(k, port);
      k'.cursor == k.cursor && forall id :: 0 <= id <= SLOTS && id != q ==> k'.slots[id] == k.slots[id]
    ensures Route(k, port) == 0 ==> Do(k, Send(port, d1, d2, d3)) == (k, Nothing)
    ensures var q := Route(k, port);
      q == 0 || (LivePort(k, port) && q == k.slots[port].queueId && LiveQueue(k, q) &&
        Do(k, Send(port, d1, d2, d3)).0.slots[q].EventQueue? &&
        Do(k, Send(port, d1, d2, d3)).0.slots[q].events ==
          k.slots[q].events + (if |k.slots[q].events| < CAP then [Event(k.slots[port].name, d1, d2, d3)] else []))
  {
    var q := Route(k, port);
    if q != 0 {
      assert k.slots[q].events + [] == k.slots[q].events;
    }
  }

  predicate Unconnected(k: State, id: word) {
    LivePort(k, id) ==> k.slots[id].queueId == 0
  }

  predicate NeverConnects(calls: seq<Call>, id: word) {
    forall i :: 0 <= i < |calls| && calls[i].Connect? ==> calls[i].port != id
  }

  lemma {:induction false} StaysUnconnected(k: State, calls: seq<Call>, id: word)
    requires Ok(k) && AllWellTyped(calls) && NeverConnects(calls, id) && Unconnected(k, id)
    ensures Unconnected(After(k, calls), id)
    decreases |calls|
  {
    if calls != [] {
      DoKeepsOk(k, calls[0]);
      StaysUnconnected(Do(k, calls[0]).0, calls[1..], id);
    }
  }

  /** A port just created is silent until it is connected, even if its slot was a connected
  port before, and even if it is destroyed and its identifier granted again meanwhile. */
  lemma {:induction false} NewPortIsSilent(k: State, name: dword, calls: seq<Call>, d1: dword, d2: dword, d3: dword)
    requires Ok(k) && Granted(k) != 0 && AllWellTyped(calls) && NeverConnects(calls, Granted(k))
    ensures var k1 := Alloc(k, EventPort(0, name));
      Ok(k1) && LivePort(k1, Granted(k)) &&
      var k2 := After(k1, calls); Do(k2, Send(Granted(k), d1, d2, d3)) == (k2, Nothing)
  {
    var k1 := Alloc(k, EventPort(0, name));
    AllocKeepsOk(k, EventPort(0, name));
    StaysUnconnected(k1, calls, Granted(k));
  }

  predicate NeverDestroys(calls: seq<Call>, q: word) {
    forall i :: 0 <= i < |calls| ==>
      !(calls[i].DestroyQueue? && calls[i].id == q) && !(calls[i].Destroy? && calls[i].id == q)
  }

  /** The events one call puts into queue `q`, and those it takes out. */
  function Entering(k: State, c: Call, q: word): seq<Event>
    requires Ok(k)
  {
    var o := Do(k, c).1;
    if o.Accepted? && o.queue == q then [o.ev] else []
  }

  function Leaving(k: State, c: Call, q: word): seq<Event>
    requires Ok(k)
  {
    var o := Do(k, c).1;
    if o.Received? && c.TryReceive? && c.queue == q then [o.ev] else []
  }

  function Entered(k: State, calls: seq<Call>, q: word): seq<Event>
    requires Ok(k) && AllWellTyped(calls)
    decreases |calls|
  {
    if calls == [] then [] else
      DoKeepsOk(k, calls[0]);
      Entering(k, calls[0], q) + Entered(Do(k, calls[0]).0, calls[1..], q)
  }

  function Left(k: State, calls: seq<Call>, q: word): seq<Event>
    requires Ok(k) && AllWellTyped(calls)
    decreases |calls|
  {
    if calls == [] then [] else
      DoKeepsOk(k, calls[0]);
      Leaving(k, calls[0], q) + Left(Do(k, calls[0]).0, calls[1..], q)
  }

  lemma OneCallConserves(k: State, c: Call, q: word)
    requires Ok(k) && WellTyped(c) && LiveQueue(k, q) && NeverDestroys([c], q)
    ensures LiveQueue(Do(k, c).0, q)
    ensures k.slots[q].events + Entering(k, c, q) == Leaving(k, c, q) + Do(k, c).0.slots[q].events
  {
    assert [c][0] == c;
    var es := k.slots[q].events;
    if c.TryReceive? && c.queue == q && es != [] {
      assert es == [es[0]] + es[1..];
    }
  }

  /** Whatever else happens to the pool, a queue that is not destroyed neither loses, nor
  duplicates, nor reorders an event: what was queued, followed by what entered, is what left
  followed by what is still queued. */
  lemma {:induction false} QueueConserves(k: State, calls: seq<Call>, q: word)
    requires Ok(k) && AllWellTyped(calls) && LiveQueue(k, q) && NeverDestroys(calls, q)
    ensures LiveQueue(After(k, calls), q)
    ensures k.slots[q].events + Entered(k, calls, q) == Left(k, calls, q) + After(k, calls).slots[q].events
    decreases |calls|
  {
    if calls != [] {
      var c := calls[0];
      DoKeepsOk(k, c);
      OneCallConserves(k, c, q);
      var k' := Do(k, c).0;
      QueueConserves(k', calls[1..], q);
      hide Do, Entering, Leaving, Ok;
      Reassociate(k.slots[q].events, Entering(k, c, q), Leaving(k, c, q), k'.slots[q].events,
                  Entered(k', calls[1..], q), Left(k', calls[1..], q), After(k', calls[1..]).slots[q].events);
    }
  }

  lemma Reassociate(q0: seq<Event>, i0: seq<Event>, o0: seq<Event>, q1: seq<Event>,
                    i: seq<Event>, o: seq<Event>, q2: seq<Event>)
    requires q0 + i0 == o0 + q1 && q1 + i == o + q2
    ensures q0 + (i0 + i) == (o0 + o) + q2
  {
    assert q0 + (i0 + i) == (q0 + i0) + i;
    assert (o0 + q1) + i == o0 + (q1 + i);
    assert o0 + (o + q2) == (o0 + o) + q2;
  }
}
