/** The object pool and event-port calls in the form of their source: a fixed slot array, a
cursor, and event queues on the heap (`runtime_glue.cpp`). */
module KernelContext {
  import opened Bits
  import opened EventQueue
  import opened Kernel

  datatype Kind = KFree | KSemaphore | KMutex | KCondition | KQueue | KPort

  /** `Lv2Obj` without the queue pointer, which `queues` holds. */
  datatype Slot = Slot(kind: Kind, queueId: word, name: dword)

  function EmptyObj(kind: Kind): (o: Obj)
    ensures Fresh(o) <==> kind != KFree
  {
    match kind
    case KFree => Free
    case KSemaphore => Semaphore
    case KMutex => Mutex
    case KCondition => Condition
    case KQueue => Obj.EventQueue([])
    case KPort => EventPort(0, 0)
  }

  /** No two live queues are the same object or share a buffer. */
  ghost predicate Distinct(ss: seq<Slot>, qs: seq<Queue?>)
    requires |ss| == |qs|
  {
    forall i, j :: 0 <= i < j < |ss| && ss[i].kind == KQueue && ss[j].kind == KQueue ==> Apart(qs[i], qs[j])
  }

  predicate Apart(p: Queue?, q: Queue?) {
    p != null && q != null && p != q && p.buf != q.buf
  }

  lemma DistinctWithout(ss: seq<Slot>, qs: seq<Queue?>, id: nat, s: Slot, q: Queue?)
    requires |ss| == |qs| && id < |ss| && Distinct(ss, qs) && s.kind != KQueue
    ensures Distinct(ss[id := s], qs[id := q])
  {
    hide Apart;
  }

  lemma DistinctWith(ss: seq<Slot>, qs: seq<Queue?>, id: nat, s: Slot, q: Queue?)
    requires |ss| == |qs| && id < |ss| && Distinct(ss, qs)
    requires forall i :: 0 <= i < |ss| && i != id && ss[i].kind == KQueue ==> Apart(qs[i], q) && Apart(q, qs[i])
    ensures Distinct(ss[id := s], qs[id := q])
  {
    hide Apart;
  }

  class Pool {
    const slots: array<Slot>
    const queues: array<Queue?>
    var cursor: nat
    ghost var Repr: set<object>

    ghost predicate Valid()
      reads this, Repr
      ensures Valid() ==> this in Repr
    {
      this in Repr && slots in Repr && queues in Repr &&
      slots.Length == SLOTS + 1 && queues.Length == SLOTS + 1 &&
      1 <= cursor <= SLOTS && slots[0].kind == KFree &&
      (forall i :: 0 <= i <= SLOTS && slots[i].kind == KQueue ==> ValidQueue(i)) &&
      Distinct(slots[..], queues[..])
    }

    ghost predicate ValidQueue(i: nat)
      requires queues.Length == SLOTS + 1 && i <= SLOTS
      reads this, queues, Repr
    {
      queues[i] != null && queues[i] in Repr && queues[i].buf in Repr && queues[i].Valid()
    }

    /** What slot `i` means. */
    ghost function View(i: nat): Obj
      requires Valid() && i <= SLOTS
      reads this, Repr
    {
      var s := slots[i];
      match s.kind
      case KQueue => Obj.EventQueue(Contents(queues[i].AsRing()))
      case KPort => EventPort(s.queueId, s.name)
      case _ => EmptyObj(s.kind)
    }

    ghost function Abs(): (k: State)
      requires Valid()
      reads this, Repr
      ensures Ok(k)
    {
      State(seq(SLOTS + 1, i requires 0 <= i <= SLOTS && Valid() reads this, Repr => View(i)), cursor)
    }

    constructor ()
      ensures Valid() && fresh(Repr)
      ensures Abs() == State(AllFree(SLOTS + 1), 1)
    {
      slots := new Slot[SLOTS + 1](_ => Slot(KFree, 0, 0));
      queues := new Queue?[SLOTS + 1](_ => null);
      cursor := 1;
      new;
      Repr := {this, slots, queues};
    }

    /** The scan of an allocation: the first round that meets a free slot. */
    method Scan() returns (i: nat)
      requires Valid()
      ensures i == FirstFree(Abs(), 0)
    {
      hide ValidQueue, Probe;
      ghost var k := Abs();
      i := 0;
      while i < SLOTS
        invariant 0 <= i <= SLOTS
        invariant FirstFree(k, 0) == FirstFree(k, i)
      {
        var id := Probe(cursor, i);
        assert k.slots[id] == View(id);
        if slots[id].kind == KFree {
          return;
        }
        i := i + 1;
      }
    }

    /** Next fit from the cursor. The granted slot is cleared and given its kind. */
    method PoolAlloc(kind: Kind) returns (id: nat)
      requires Valid() && kind != KFree
      modifies this`cursor, slots, queues
      ensures id == old(Granted(Abs()))
      ensures id == 0 ==> cursor == old(cursor) && slots[..] == old(slots[..]) && queues[..] == old(queues[..])
      ensures id != 0 ==> cursor == id % SLOTS + 1
      ensures id != 0 ==> slots[..] == old(slots[..])[id := Slot(kind, 0, 0)]
      ensures id != 0 ==> queues[..] == old(queues[..])[id := null]
    {
      hide FirstFree, View, ValidQueue;
      ghost var k := Abs();
      var i := Scan();
      if i == SLOTS {
        return 0;
      }
      hide Valid, Abs;
      id := Probe(cursor, i);
      assert id == Granted(k);
      slots[id] := Slot(kind, 0, 0);
      queues[id] := null;
      cursor := id % SLOTS + 1;
    }

    /** `sys_semaphore_create`, `sys_mutex_create`, `sys_cond_create` and `sys_event_port_create`. */
    method CreateObject(kind: Kind, name: dword) returns (id: nat)
      requires Valid() && kind != KFree && kind != KQueue
      modifies this`cursor, slots, queues
      ensures Valid() && id == old(Granted(Abs()))
      ensures Abs() == old(Alloc(Abs(), if kind == KPort then EventPort(0, name) else EmptyObj(kind)))
    {
      hide FirstFree, Granted, Alloc, Fresh, Distinct;
      ghost var k := Abs();
      ghost var o := if kind == KPort then EventPort(0, name) else EmptyObj(kind);
      ghost var ss, qs := slots[..], queues[..];
      id := PoolAlloc(kind);
      if id != 0 && kind == KPort {
        slots[id] := slots[id].(queueId := 0, name := name);
      }
      if id != 0 {
        assert slots[..] == ss[id := slots[id]] && queues[..] == qs[id := null];
        DistinctWithout(ss, qs, id, slots[id], null);
      }
      assert Valid();
      hide Valid;
      assert id != 0 ==> View(id) == o;
      SlotReplaced(k, id, o);
    }

    /** `sys_event_queue_create` */
    method CreateQueue() returns (id: nat)
      requires Valid()
      modifies this, slots, queues
      ensures Valid() && fresh(Repr - old(Repr)) && id == old(Granted(Abs()))
      ensures Abs() == old(Alloc(Abs(), Obj.EventQueue([])))
    {
      hide FirstFree, Granted, Alloc, Distinct;
      ghost var k := Abs();
      ghost var ss, qs := slots[..], queues[..];
      id := PoolAlloc(KQueue);
      if id == 0 {
        SlotReplaced(k, id, Obj.EventQueue([]));
        return;
      }
      var q := new Queue();
      queues[id] := q;
      Repr := Repr + {q, q.buf};
      assert slots[..] == ss[id := slots[id]] && queues[..] == qs[id := q];
      DistinctWith(ss, qs, id, slots[id], q);
      assert ValidQueue(id);
      hide ValidQueue;
      assert Valid();
      hide Valid;
      assert View(id) == Obj.EventQueue([]);
      SlotReplaced(k, id, Obj.EventQueue([]));
    }

    /** `sys_event_queue_destroy`; other kinds are destroyed by freeing their slot alone. */
    method DestroyAny(id: word, isQueueCall: bool)
      requires Valid()
      modifies slots, queues
      ensures Valid() && Abs() == old(FreeSlot(Abs(), id))
    {
      hide Distinct;
      ghost var k := Abs();
      ghost var ss, qs := slots[..], queues[..];
      if 1 <= id <= SLOTS {
        if isQueueCall && slots[id].kind == KQueue {
          queues[id] := null;
        }
        slots[id] := slots[id].(kind := KFree);
        assert slots[..] == ss[id := slots[id]] && queues[..] == qs[id := queues[id]];
        DistinctWithout(ss, qs, id, slots[id], queues[id]);
      }
      assert Valid();
      assert Abs().slots == FreeSlot(k, id).slots;
    }

    /** `sys_event_port_connect_local` */
    method ConnectPort(port: word, queue: word)
      requires Valid()
      modifies slots
      ensures Valid() && Abs() == old(Do(Abs(), Connect(port, queue))).0
    {
      hide Distinct;
      ghost var k := Abs();
      ghost var ss, qs := slots[..], queues[..];
      if 1 <= port <= SLOTS && slots[port].kind == KPort {
        assert k.slots[port] == View(port);
        slots[port] := slots[port].(queueId := queue);
        assert slots[..] == ss[port := slots[port]] && queues[..] == qs[port := queues[port]];
        DistinctWithout(ss, qs, port, slots[port], queues[port]);
      }
      assert Valid();
      assert Abs().slots == Do(k, Connect(port, queue)).0.slots;
    }

    /** `sys_event_port_send` */
    method SendOn(port: word, d1: dword, d2: dword, d3: dword)
      requires Valid()
      modifies Repr
      ensures Valid() && Repr == old(Repr)
      ensures Abs() == old(Do(Abs(), Send(port, d1, d2, d3))).0
    {
      hide FirstFree, Granted, Alloc, Distinct;
      ghost var k := Abs();
      ghost var ss, qs := slots[..], queues[..];
      if 1 <= port <= SLOTS && slots[port].kind == KPort {
        assert k.slots[port] == View(port);
        var q := slots[port].queueId;
        if 1 <= q <= SLOTS && slots[q].kind == KQueue {
          assert k.slots[q] == View(q);
          OthersApart(q);
          var accepted := queues[q].Send(Event(slots[port].name, d1, d2, d3));
          assert slots[..] == ss && queues[..] == qs;
          assert Valid();
          QueueReplaced(k, q);
          hide Valid;
          assert Abs().slots[q].events == View(q).events;
          return;
        }
      }
    }

    /** The unhurried part of `sys_event_queue_receive` and all of `sys_event_queue_tryreceive`. */
    method ReceiveFrom(queue: word) returns (ok: bool, ev: Event)
      requires Valid()
      modifies Repr
      ensures Valid() && Repr == old(Repr)
      ensures Abs() == old(Do(Abs(), TryReceive(queue))).0
      ensures old(Do(Abs(), TryReceive(queue))).1 == if ok then Received(ev) else Nothing
    {
      hide FirstFree, Granted, Alloc, Distinct;
      ghost var k := Abs();
      ghost var ss, qs := slots[..], queues[..];
      ok, ev := false, Event(0, 0, 0, 0);
      if 1 <= queue <= SLOTS && slots[queue].kind == KQueue {
        assert k.slots[queue] == View(queue);
        OthersApart(queue);
        ok, ev := queues[queue].TryReceive();
        assert slots[..] == ss && queues[..] == qs;
        assert Valid();
        QueueReplaced(k, queue);
      }
    }

    lemma OthersApart(q: nat)
      requires Valid() && 1 <= q <= SLOTS && slots[q].kind == KQueue
      ensures forall i :: 0 <= i <= SLOTS && i != q && slots[i].kind == KQueue ==> Apart(queues[i], queues[q])
    {
      var ss, qs := slots[..], queues[..];
      forall i | 0 <= i <= SLOTS && i != q && slots[i].kind == KQueue
        ensures Apart(queues[i], queues[q])
      {
        assert Distinct(ss, qs) && ss[i].kind == KQueue && ss[q].kind == KQueue;
        assert if i < q then Apart(qs[i], qs[q]) else Apart(qs[q], qs[i]);
      }
    }

    /** When only the granted slot differs from `k`, the abstract state is that of the allocation. */
    lemma SlotReplaced(k: State, id: nat, o: Obj)
      requires Valid() && Ok(k) && id == Granted(k) && cursor == (if id == 0 then k.cursor else id % SLOTS + 1)
      requires forall i :: 0 <= i <= SLOTS && (id == 0 || i != id) ==> View(i) == k.slots[i]
      requires id != 0 ==> View(id) == o
      ensures Abs() == Alloc(k, o)
    {
      assert Abs().slots == if id == 0 then k.slots else k.slots[id := o];
    }

    /** When only queue `q` differs from `k`, the abstract state differs in that slot alone. */
    lemma QueueReplaced(k: State, q: nat)
      requires Valid() && Ok(k) && 1 <= q <= SLOTS && slots[q].kind == KQueue && k.cursor == cursor
      requires forall i :: 0 <= i <= SLOTS && i != q ==> View(i) == k.slots[i]
      ensures Abs() == k.(slots := k.slots[q := Obj.EventQueue(Contents(queues[q].AsRing()))])
    {
      assert View(q) == Obj.EventQueue(Contents(queues[q].AsRing()));
      assert Abs().slots == k.slots[q := View(q)];
    }
  }
}
