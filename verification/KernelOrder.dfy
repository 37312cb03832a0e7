/** Events of one port to one queue are received in the order in which they were sent. */
module KernelOrder {
  import opened Bits
  import opened EventQueue
  import opened Kernel

  // ----- By the port that sent them -----

  /** The events that sends on `port` put into queue `q`, in the order of the sends. */
  function SentOn(k: State, calls: seq<Call>, port: word, q: word): seq<Event>
    requires Ok(k) && AllWellTyped(calls)
    decreases |calls|
  {
    if calls == [] then [] else
      DoKeepsOk(k, calls[0]);
      (if calls[0].Send? && calls[0].port == port then Entering(k, calls[0], q) else []) +
      SentOn(Do(k, calls[0]).0, calls[1..], port, q)
  }

  /** The port from which each event that enters `q` was sent. */
  function Senders(k: State, calls: seq<Call>, q: word): (ps: seq<word>)
    requires Ok(k) && AllWellTyped(calls)
    ensures |ps| == |Entered(k, calls, q)|
    decreases |calls|
  {
    if calls == [] then [] else
      DoKeepsOk(k, calls[0]);
      (if Entering(k, calls[0], q) != [] then [calls[0].port] else []) +
      Senders(Do(k, calls[0]).0, calls[1..], q)
  }

  /** The events whose sender is `port`, in order. */
  function Pick(port: word, ps: seq<word>, es: seq<Event>): seq<Event>
    requires |ps| == |es|
  {
    if ps == [] then [] else (if ps[0] == port then [es[0]] else []) + Pick(port, ps[1..], es[1..])
  }

  lemma {:induction false} PickNone(port: word, ps: seq<word>, es: seq<Event>)
    requires ps == [] && es == []
    ensures Pick(port, ps, es) == []
  {
  }

  lemma {:induction false} PickCons(port: word, ps: seq<word>, es: seq<Event>)
    requires |ps| == |es| > 0
    ensures Pick(port, ps, es) == (if ps[0] == port then [es[0]] else []) + Pick(port, ps[1..], es[1..])
  {
  }

  lemma {:induction false} PickConcat(port: word, ps: seq<word>, es: seq<Event>, ps': seq<word>, es': seq<Event>)
    requires |ps| == |es| && |ps'| == |es'|
    ensures Pick(port, ps + ps', es + es') == Pick(port, ps, es) + Pick(port, ps', es')
  {
    hide Pick;
    if ps == [] {
      assert ps + ps' == ps' && es + es' == es';
      PickNone(port, ps, es);
    } else {
      var qs, fs := ps + ps', es + es';
      assert qs[0] == ps[0] && qs[1..] == ps[1..] + ps' && fs[0] == es[0] && fs[1..] == es[1..] + es';
      PickConcat(port, ps[1..], es[1..], ps', es');
      PickCons(port, ps, es);
      PickCons(port, qs, fs);
    }
  }

  /** What entered the queue and was sent on `port` is what sends on `port` put there. */
  lemma {:induction false} PickedAreSent(k: State, calls: seq<Call>, port: word, q: word)
    requires Ok(k) && AllWellTyped(calls)
    ensures Pick(port, Senders(k, calls, q), Entered(k, calls, q)) == SentOn(k, calls, port, q)
    decreases |calls|
  {
    if calls != [] {
      var c := calls[0];
      DoKeepsOk(k, c);
      var k', rest := Do(k, c).0, calls[1..];
      PickedAreSent(k', rest, port, q);
      var e := Entering(k, c, q);
      var ps := if e != [] then [c.port] else [];
      hide Do, Entering, Pick;
      PickConcat(port, ps, e, Senders(k', rest, q), Entered(k', rest, q));
      PickOne(port, ps, e);
    }
  }

  lemma {:induction false} PickOne(port: word, ps: seq<word>, es: seq<Event>)
    requires |ps| == |es| <= 1
    ensures Pick(port, ps, es) == if ps == [port] then es else []
  {
    if |ps| == 1 {
      assert Pick(port, ps[1..], es[1..]) == [];
    }
  }

  /** How many of the events received so far entered during the run. */
  function Arrived(k: State, calls: seq<Call>, q: word): nat
    requires Ok(k) && AllWellTyped(calls) && LiveQueue(k, q)
  {
    var got, queued := |Left(k, calls, q)|, |k.slots[q].events|;
    if got <= queued then 0 else got - queued
  }

  /** Whatever the names, and however often identifiers are destroyed and granted again: of the
  events received, those queued before the run come first, and of the rest those sent on `port`
  are the first of those sent on `port`, in the order of the sends. */
  lemma {:induction false} PortOrder(k: State, calls: seq<Call>, port: word, q: word)
    requires Ok(k) && AllWellTyped(calls) && LiveQueue(k, q) && NeverDestroys(calls, q)
    ensures var left, n := Left(k, calls, q), Arrived(k, calls, q);
      n <= |left| && n <= |Senders(k, calls, q)| &&
      left[..|left| - n] <= k.slots[q].events &&
      Pick(port, Senders(k, calls, q)[..n], left[|left| - n..]) <= SentOn(k, calls, port, q)
  {
    hide Do, Left, Entered, Senders, Pick, SentOn, After, NeverDestroys, AllWellTyped;
    QueueConserves(k, calls, q);
    PickedAreSent(k, calls, port, q);
    var n := Arrived(k, calls, q);
    ReceivedSplit(k.slots[q].events, Entered(k, calls, q), Left(k, calls, q), After(k, calls).slots[q].events);
    hide Arrived;
    PickPrefix(port, Senders(k, calls, q), Entered(k, calls, q), n);
  }

  lemma {:induction false} PickPrefix(port: word, ps: seq<word>, es: seq<Event>, n: nat)
    requires |ps| == |es| && n <= |es|
    ensures Pick(port, ps[..n], es[..n]) <= Pick(port, ps, es)
  {
    hide Pick;
    assert ps == ps[..n] + ps[n..] && es == es[..n] + es[n..];
    PickConcat(port, ps[..n], es[..n], ps[n..], es[n..]);
  }

  /** The received events are those queued before, then the first of those that entered. */
  lemma ReceivedSplit(queued: seq<Event>, entered: seq<Event>, left: seq<Event>, still: seq<Event>)
    requires queued + entered == left + still
    ensures var n: nat := if |left| <= |queued| then 0 else |left| - |queued|;
      n <= |entered| && n <= |left| && left[..|left| - n] <= queued && left[|left| - n..] == entered[..n]
  {
    var all := queued + entered;
    assert left == all[..|left|];
  }

  // ----- By the name they carry -----

  /** The events with source `name`, in order. */
  function FromSource(name: dword, es: seq<Event>): seq<Event> {
    if es == [] then [] else Named(name, es[0]) + FromSource(name, es[1..])
  }

  function Named(name: dword, ev: Event): seq<Event> {
    if ev.source == name then [ev] else []
  }

  lemma {:induction false} FromSourceNone(name: dword, es: seq<Event>)
    requires es == []
    ensures FromSource(name, es) == []
  {
  }

  lemma {:induction false} FromSourceCons(name: dword, es: seq<Event>)
    requires es != []
    ensures FromSource(name, es) == Named(name, es[0]) + FromSource(name, es[1..])
  {
  }

  lemma {:induction false} FromSourceConcat(name: dword, a: seq<Event>, b: seq<Event>)
    ensures FromSource(name, a + b) == FromSource(name, a) + FromSource(name, b)
  {
    hide FromSource, Named;
    if a == [] {
      assert a + b == b;
      FromSourceNone(name, a);
    } else {
      FromSourceConcat(name, a[1..], b);
      FromSourceCons(name, a);
      FromSourceCons(name, a + b);
      assert (a + b)[1..] == a[1..] + b;
    }
  }

  /** In the table, `port` is a live port named `name`, and the only one of that name. */
  predicate OwnsName(k: State, port: word, name: dword) {
    LivePort(k, port) && k.slots[port].name == name &&
    forall id :: 1 <= id <= SLOTS && id != port && k.slots[id].EventPort? ==> k.slots[id].name != name
  }

  /** The calls neither destroy `port` nor create another port named `name`. */
  predicate LeavesName(calls: seq<Call>, port: word, name: dword) {
    NeverDestroys(calls, port) &&
    forall i :: 0 <= i < |calls| && calls[i].Create? && calls[i].o.EventPort? ==> calls[i].o.name != name
  }

  lemma {:induction false} OneCallLeavesName(k: State, c: Call, port: word, name: dword, q: word)
    requires Ok(k) && WellTyped(c) && OwnsName(k, port, name) && LeavesName([c], port, name)
    ensures OwnsName(Do(k, c).0, port, name)
    ensures FromSource(name, Entering(k, c, q)) == if c.Send? && c.port == port then Entering(k, c, q) else []
  {
    assert [c][0] == c;
    if c.Create? {
      GrantIsNearest(k);
    }
    var e := Entering(k, c, q);
    if e != [] {
      assert e == [Event(k.slots[c.port].name, c.d1, c.d2, c.d3)];
    }
  }

  lemma {:induction false} NamedAreSent(k: State, calls: seq<Call>, port: word, name: dword, q: word)
    requires Ok(k) && AllWellTyped(calls) && OwnsName(k, port, name) && LeavesName(calls, port, name)
    ensures FromSource(name, Entered(k, calls, q)) == SentOn(k, calls, port, q)
    decreases |calls|
  {
    if calls != [] {
      var c := calls[0];
      DoKeepsOk(k, c);
      OneCallLeavesName(k, c, port, name, q);
      hide Do, Entering, FromSource;
      var k' := Do(k, c).0;
      NamedAreSent(k', calls[1..], port, name, q);
      FromSourceConcat(name, Entering(k, c, q), Entered(k', calls[1..], q));
    } else {
      FromSourceNone(name, []);
    }
  }

  /** A receiver that knows ports by name sees the same order, while the name is the port's alone. */
  lemma {:induction false} PortOrderByName(k: State, calls: seq<Call>, port: word, name: dword, q: word)
    requires Ok(k) && AllWellTyped(calls) && LiveQueue(k, q) && NeverDestroys(calls, q)
    requires OwnsName(k, port, name) && LeavesName(calls, port, name)
    ensures FromSource(name, Left(k, calls, q)) <= FromSource(name, k.slots[q].events) + SentOn(k, calls, port, q)
  {
    QueueConserves(k, calls, q);
    NamedAreSent(k, calls, port, name, q);
    FromSourceConcat(name, k.slots[q].events, Entered(k, calls, q));
    FromSourceConcat(name, Left(k, calls, q), After(k, calls).slots[q].events);
  }
}
