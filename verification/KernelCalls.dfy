/** What the event calls do for their callers: connections, sends and receives, alone and over
runs of other calls. */
module KernelCalls {
  import opened Bits
  import opened EventQueue
  import opened Kernel

  // ----- One call -----

  /** Destroying frees the slot named, and only it; an identifier outside 1 to 511 names none. */
  lemma DestroyFrees(k: State, id: word)
    requires Ok(k)
    ensures Do(k, Destroy(id)) == Do(k, DestroyQueue(id))
    ensures var k' := Do(k, Destroy(id)).0;
      k'.cursor == k.cursor && |k'.slots| == 512 &&
      forall i :: 0 <= i < 512 ==> k'.slots[i] == if i == id && 1 <= i <= 511 then Free else k.slots[i]
  {
  }

  /** A creation takes the next free slot going up from the cursor and round past 511, puts the
  object there and leaves the cursor after it; with no slot free it does nothing. */
  lemma CreateFills(k: State, o: Obj, id: nat)
    requires Ok(k) && 1 <= id <= 511 && k.slots[id].Free?
    requires forall i :: 1 <= i <= 511 && k.slots[i].Free? ==> (id - k.cursor) % 511 <= (i - k.cursor) % 511
    ensures Do(k, Create(o)) == (State(k.slots[id := o], if id == 511 then 1 else id + 1), Id(id))
  {
    GrantIsNearest(k);
    var g := Granted(k);
    hide Granted, FirstFree, Ahead;
    assert k.slots[g].Free? && g != 0;
    SameDistance(k.cursor, id, g);
  }

  lemma SameDistance(cursor: nat, id: nat, g: nat)
    requires 1 <= cursor <= 511 && 1 <= id <= 511 && 1 <= g <= 511
    requires Ahead(cursor, g) <= Ahead(cursor, id) && (id - cursor) % 511 <= (g - cursor) % 511
    ensures id == g
  {
    Distance(cursor, id);
    Distance(cursor, g);
  }

  lemma Distance(cursor: nat, id: nat)
    requires 1 <= cursor <= 511 && 1 <= id <= 511
    ensures (id - cursor) % 511 == Ahead(cursor, id) == if id >= cursor then id - cursor else id - cursor + 511
  {
  }

  lemma CreateFails(k: State, o: Obj)
    requires Ok(k) && forall i :: 1 <= i <= 511 ==> !k.slots[i].Free?
    ensures Do(k, Create(o)) == (k, Id(0))
  {
    GrantIsNearest(k);
    hide FirstFree, Granted;
  }

  /** A receive that does not wait takes the oldest event of a live queue. */
  lemma ReceiveTakesOldest(k: State, q: word)
    requires Ok(k)
    ensures var live := 1 <= q <= 511 && k.slots[q].EventQueue? && |k.slots[q].events| > 0;
      if !live then Do(k, TryReceive(q)) == (k, Nothing)
      else
        var r, es := Do(k, TryReceive(q)), k.slots[q].events;
        r.1 == Received(es[0]) && r.0.cursor == k.cursor && r.0.slots[q].EventQueue? &&
        [es[0]] + r.0.slots[q].events == es && forall i :: 0 <= i < 512 && i != q ==> r.0.slots[i] == k.slots[i]
  {
  }

  // ----- Connect and send -----

  predicate IsPort(k: State, p: word) {
    1 <= p <= 511 && k.slots[p].EventPort?
  }

  predicate IsQueue(k: State, q: word) {
    1 <= q <= 511 && k.slots[q].EventQueue?
  }

  /** The slots other than `p` and `q` are as before. */
  predicate OthersKept(k: State, k': State, p: word, q: word) {
    k'.cursor == k.cursor && forall i :: 0 <= i < 512 && i != p && i != q ==> k'.slots[i] == k.slots[i]
  }

  /** A port, once connected to a queue with room, sends there under its name. */
  lemma ConnectedSends(k: State, p: word, q: word, d1: dword, d2: dword, d3: dword)
    requires Ok(k) && IsPort(k, p) && IsQueue(k, q) && |k.slots[q].events| < 128
    ensures var k1 := Do(k, Connect(p, q)).0;
      Ok(k1) && var r, ev := Do(k1, Send(p, d1, d2, d3)), Event(k.slots[p].name, d1, d2, d3);
      r.1 == Accepted(q, ev) && r.0.slots[q] == EventQueue(k.slots[q].events + [ev]) &&
      r.0.slots[p] == EventPort(q, k.slots[p].name) && OthersKept(k, r.0, p, q)
  {
    DoKeepsOk(k, Connect(p, q));
  }

  /** Calls that leave a connection alone. */
  predicate Spares(c: Call, p: word, q: word) {
    (c.Destroy? ==> c.id != p && c.id != q) && (c.DestroyQueue? ==> c.id != p && c.id != q) &&
    (c.Connect? ==> c.port != p)
  }

  predicate AllSpare(calls: seq<Call>, p: word, q: word) {
    forall i :: 0 <= i < |calls| ==> Spares(calls[i], p, q)
  }

  /** Port `p` is connected to the live queue `q` under the name `n`. */
  predicate Connected(k: State, p: word, q: word, n: dword) {
    1 <= p <= 511 && k.slots[p] == EventPort(q, n) && IsQueue(k, q)
  }

  lemma OneCallSpares(k: State, c: Call, p: word, q: word, n: dword)
    requires Ok(k) && WellTyped(c) && Spares(c, p, q) && Connected(k, p, q, n)
    ensures Connected(Do(k, c).0, p, q, n)
  {
    if c.Create? {
      GrantIsNearest(k);
      hide FirstFree, Granted;
    }
  }

  lemma {:induction false} StaysConnected(k: State, calls: seq<Call>, p: word, q: word, n: dword)
    requires Ok(k) && AllWellTyped(calls) && AllSpare(calls, p, q) && Connected(k, p, q, n)
    ensures Connected(After(k, calls), p, q, n)
    decreases |calls|
  {
    hide Connected, Spares, WellTyped;
    if calls != [] {
      DoKeepsOk(k, calls[0]);
      OneCallSpares(k, calls[0], p, q, n);
      StaysConnected(Do(k, calls[0]).0, calls[1..], p, q, n);
    }
  }

  /** After any calls that spare the connection, every send on the port enters the queue, unless
  the queue holds 128 events; then nothing happens. */
  lemma {:induction false} ConnectedForLong(k: State, calls: seq<Call>, p: word, q: word,
                                            d1: dword, d2: dword, d3: dword)
    requires Ok(k) && IsPort(k, p) && IsQueue(k, q)
    requires AllWellTyped(calls) && AllSpare(calls, p, q) && Ok(Do(k, Connect(p, q)).0)
    ensures var k' := After(Do(k, Connect(p, q)).0, calls);
      var r, ev := Do(k', Send(p, d1, d2, d3)), Event(k.slots[p].name, d1, d2, d3);
      IsQueue(k', q) &&
      if |k'.slots[q].events| == 128 then r == (k', Nothing)
      else r.1 == Accepted(q, ev) && r.0.slots[q] == EventQueue(k'.slots[q].events + [ev]) && OthersKept(k', r.0, q, q)
  {
    var k1 := Do(k, Connect(p, q)).0;
    StaysConnected(k1, calls, p, q, k.slots[p].name);
    SendGoes(After(k1, calls), p, q, k.slots[p].name, d1, d2, d3);
    hide After, Do, Ok, AllSpare, OthersKept;
  }

  lemma SendGoes(k: State, p: word, q: word, n: dword, d1: dword, d2: dword, d3: dword)
    requires Ok(k) && Connected(k, p, q, n)
    ensures var r, ev := Do(k, Send(p, d1, d2, d3)), Event(n, d1, d2, d3);
      if |k.slots[q].events| == 128 then r == (k, Nothing)
      else r.1 == Accepted(q, ev) && r.0.slots[q] == EventQueue(k.slots[q].events + [ev]) && OthersKept(k, r.0, q, q)
  {
  }

  // ----- Where a send can go -----

  /** The queue that the last Connect of port `p` named; `q0` if there was none. */
  function LastNamed(calls: seq<Call>, p: word, q0: word): word {
    if calls == [] then q0
    else
      var c := calls[|calls| - 1];
      if c.Connect? && c.port == p then c.queue else LastNamed(calls[..|calls| - 1], p, q0)
  }

  /** The port, if it is one, is unconnected or connected to `q`. */
  predicate OnlyTo(k: State, p: word, q: word) {
    IsPort(k, p) ==> k.slots[p].queueId == 0 || k.slots[p].queueId == q
  }

  lemma OneCallNames(k: State, c: Call, p: word, q: word)
    requires Ok(k) && WellTyped(c) && OnlyTo(k, p, q)
    ensures OnlyTo(Do(k, c).0, p, if c.Connect? && c.port == p then c.queue else q)
  {
    hide FirstFree;
  }

  lemma {:induction false} LastNamedFirst(c: Call, rest: seq<Call>, p: word, q0: word)
    ensures LastNamed([c] + rest, p, q0) == LastNamed(rest, p, if c.Connect? && c.port == p then c.queue else q0)
  {
    var calls := [c] + rest;
    if rest != [] {
      var d := rest[|rest| - 1];
      assert calls[|calls| - 1] == d && calls[..|calls| - 1] == [c] + rest[..|rest| - 1];
      LastNamedFirst(c, rest[..|rest| - 1], p, q0);
    } else {
      assert calls == [c] && calls[..0] == [];
      assert LastNamed([], p, q0) == q0;
    }
  }

  lemma {:induction false} RunNames(k: State, calls: seq<Call>, p: word, q0: word)
    requires Ok(k) && AllWellTyped(calls) && OnlyTo(k, p, q0)
    ensures OnlyTo(After(k, calls), p, LastNamed(calls, p, q0))
    decreases |calls|
  {
    hide OnlyTo, WellTyped;
    if calls != [] {
      var c, rest := calls[0], calls[1..];
      DoKeepsOk(k, c);
      OneCallNames(k, c, p, q0);
      assert calls == [c] + rest;
      LastNamedFirst(c, rest, p, q0);
      RunNames(Do(k, c).0, rest, p, if c.Connect? && c.port == p then c.queue else q0);
    }
  }

  /** A send enters a queue only if the last Connect of its port, or the connection it had at
  first, named that queue, whatever became of the identifiers meanwhile. */
  lemma {:induction false} SendFollowsConnect(k: State, calls: seq<Call>, p: word, d1: dword, d2: dword, d3: dword)
    requires Ok(k) && AllWellTyped(calls)
    ensures var q0 := if IsPort(k, p) then k.slots[p].queueId else 0;
      var r := Do(After(k, calls), Send(p, d1, d2, d3)).1;
      r.Accepted? ==> r.queue == LastNamed(calls, p, q0)
  {
    hide After, LastNamed;
    RunNames(k, calls, p, if IsPort(k, p) then k.slots[p].queueId else 0);
  }
}
