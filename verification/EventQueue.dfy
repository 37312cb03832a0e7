/** The LV2 event queue: a 128-entry ring under a lock, with a separate counting semaphore
(`runtime_glue.cpp`). */
module EventQueue {
  import opened Bits

  const CAP: nat := 128
  const TOKEN_LIMIT: nat := 512

  datatype Event = Event(source: dword, data1: dword, data2: dword, data3: dword)

  // ----- The ring as a value -----

  /** `buf`, `head`, `tail` and `cnt`; nothing stops `cnt` from going below zero but the protocol. */
  datatype Ring = Ring(buf: seq<Event>, head: nat, tail: nat, cnt: int)

  predicate RingOk(r: Ring) {
    |r.buf| == CAP && r.head < CAP && 0 <= r.cnt <= CAP && r.tail == (r.head + r.cnt) % CAP
  }

  /** Queued events, oldest first. */
  function Contents(r: Ring): (s: seq<Event>)
    requires RingOk(r)
    ensures |s| == r.cnt
  {
    seq(r.cnt, i requires 0 <= i < r.cnt => r.buf[Place(r.head, i)])
  }

  /** Buffer position of the `i`-th entry after `head`. */
  function Place(head: nat, i: nat): (p: nat)
    requires head < CAP && i <= CAP
    ensures p == (head + i) % CAP && p < CAP
  {
    if head + i < CAP then head + i else head + i - CAP
  }

  function Push(r: Ring, ev: Event): Ring
    requires |r.buf| == CAP && r.tail < CAP
  {
    r.(buf := r.buf[r.tail := ev], tail := (r.tail + 1) % CAP, cnt := r.cnt + 1)
  }

  /** Takes whatever lies at `head`, as the code does, without looking at `cnt`. */
  function Pop(r: Ring): (Ring, Event)
    requires |r.buf| == CAP && r.head < CAP
  {
    (r.(head := (r.head + 1) % CAP, cnt := r.cnt - 1), r.buf[r.head])
  }

  function EmptyRing(): Ring {
    Ring(seq(CAP, _ => Event(0, 0, 0, 0)), 0, 0, 0)
  }

  lemma PushAppends(r: Ring, ev: Event)
    requires RingOk(r) && r.cnt < CAP
    ensures RingOk(Push(r, ev)) && Contents(Push(r, ev)) == Contents(r) + [ev]
  {
    var r' := Push(r, ev);
    assert r.tail == Place(r.head, r.cnt);
    assert r'.tail == Place(r.head, r.cnt + 1);
    var c, c' := Contents(r), Contents(r');
    forall i | 0 <= i < r.cnt
      ensures c'[i] == c[i]
    {
      assert Place(r.head, i) != r.tail;
    }
    assert c' == c + [ev];
  }

  lemma PopRemoves(r: Ring)
    requires RingOk(r) && r.cnt > 0
    ensures var p := Pop(r); RingOk(p.0) && p.1 == Contents(r)[0] && Contents(p.0) == Contents(r)[1..]
  {
    var r' := Pop(r).0;
    assert r'.head == Place(r.head, 1);
    var c, c' := Contents(r), Contents(r');
    forall i | 0 <= i < r.cnt - 1
      ensures c'[i] == c[i + 1]
    {
      assert Place(r'.head, i) == Place(r.head, i + 1);
    }
    assert r'.tail == Place(r'.head, r'.cnt);
    assert c' == c[1..];
  }

  // ----- The locked parts of a call -----

  datatype StoreResult = StoreResult(ring: Ring, tokens: nat, accepted: bool)

  /** The locked part of a send: unless the ring is full, the event enters and a token is released. */
  function Stored(r: Ring, tokens: nat, ev: Event): StoreResult
    requires |r.buf| == CAP && r.tail < CAP
  {
    if r.cnt < CAP then StoreResult(Push(r, ev), Release(tokens), true) else StoreResult(r, tokens, false)
  }

  /** The wait: whether a token was left, and how many remain. */
  function TokenTaken(tokens: nat): (bool, nat) {
    if tokens > 0 then (true, tokens - 1) else (false, tokens)
  }

  // ----- The object -----

  class Queue {
    const buf: array<Event>
    var head: nat
    var tail: nat
    var cnt: int
    var tokens: nat

    ghost function AsRing(): Ring
      reads this, buf
    {
      Ring(buf[..], head, tail, cnt)
    }

    /** The ring is sound, and at rest there is one token for every queued event. */
    ghost predicate Valid()
      reads this, buf
    {
      RingOk(AsRing()) && tokens == cnt
    }

    constructor ()
      ensures Valid() && fresh(buf) && Contents(AsRing()) == [] && AsRing() == EmptyRing()
    {
      buf := new Event[CAP](_ => Event(0, 0, 0, 0));
      head, tail, cnt, tokens := 0, 0, 0, 0;
      new;
      assert buf[..] == seq(CAP, _ => Event(0, 0, 0, 0));
    }

    /** The locked part of a send: the event enters unless the ring is full. */
    method Store(ev: Event) returns (accepted: bool)
      requires buf.Length == CAP && tail < CAP
      modifies this`tail, this`cnt, this`tokens, buf
      ensures StoreResult(AsRing(), tokens, accepted) == old(Stored(AsRing(), tokens, ev))
    {
      accepted := cnt < CAP;
      if accepted {
        buf[tail] := ev;
        tail := (tail + 1) % CAP;
        cnt := cnt + 1;
        tokens := Release(tokens);
      }
    }

    /** The wait: takes a token if there is one. */
    method TakeToken() returns (ok: bool)
      modifies this`tokens
      ensures (ok, tokens) == old(TokenTaken(tokens))
    {
      ok := tokens > 0;
      if ok {
        tokens := tokens - 1;
      }
    }

    /** The locked part of a receive. */
    method Remove() returns (ev: Event)
      requires buf.Length == CAP && head < CAP
      modifies this`head, this`cnt
      ensures (AsRing(), ev) == Pop(old(AsRing()))
    {
      ev := buf[head];
      head := (head + 1) % CAP;
      cnt := cnt - 1;
    }

    /** A whole send, undisturbed. */
    method Send(ev: Event) returns (accepted: bool)
      requires Valid()
      modifies this`tail, this`cnt, this`tokens, buf
      ensures Valid()
      ensures accepted <==> |old(Contents(AsRing()))| < CAP
      ensures Contents(AsRing()) == if accepted then old(Contents(AsRing())) + [ev] else old(Contents(AsRing()))
    {
      ghost var r := AsRing();
      if r.cnt < CAP {
        PushAppends(r, ev);
      }
      accepted := Store(ev);
    }

    /** A whole receive that does not wait, undisturbed. */
    method TryReceive() returns (ok: bool, ev: Event)
      requires Valid()
      modifies this`head, this`cnt, this`tokens
      ensures Valid()
      ensures ok <==> old(Contents(AsRing())) != []
      ensures ok ==> ev == old(Contents(AsRing()))[0] && Contents(AsRing()) == old(Contents(AsRing()))[1..]
      ensures !ok ==> Contents(AsRing()) == old(Contents(AsRing()))
    {
      ghost var r := AsRing();
      ok := TakeToken();
      if ok {
        PopRemoves(r);
        ev := Remove();
      } else {
        ev := Event(0, 0, 0, 0);
      }
    }
  }

  /** `ReleaseSemaphore(avail, 1)`: fails, and changes nothing, at the limit. */
  function Release(tokens: nat): nat {
    if tokens < TOKEN_LIMIT then tokens + 1 else tokens
  }
}
