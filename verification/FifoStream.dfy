/** Command streams: what the parser makes of an encoded stream, flushing it in pieces, and
the draws it leads to. */
module FifoStream {
  import opened Bits
  import opened Draw
  import opened Fifo

  // ----- Encoding -----

  /** A NOP, or a command writing `args` to consecutive registers, or all to the same one. */
  datatype Item = Nop | Command(reg: nat, args: seq<word>, fixed: bool)

  predicate ItemOk(i: Item) {
    i.Command? ==> i.reg < 0x4_0000 && 1 <= |i.args| < 0x800
  }

  predicate ItemsOk(items: seq<Item>) {
    forall k :: 0 <= k < |items| ==> ItemOk(items[k])
  }

  function Header(i: Item): word
    requires ItemOk(i)
  {
    if i.Nop? then 0 else i.reg + |i.args| * 0x4_0000 + (if i.fixed then 0x4000_0000 else 0)
  }

  function ItemWords(i: Item): (ws: seq<word>)
    requires ItemOk(i)
    ensures |ws| >= 1
  {
    if i.Nop? then [0] else [Header(i)] + i.args
  }

  function ItemWrites(i: Item): seq<Write> {
    if i.Nop? then [] else
      seq(|i.args|, k requires 0 <= k < |i.args| => Write(if i.fixed then i.reg else i.reg + k * 4, i.args[k]))
  }

  function Encode(items: seq<Item>): seq<word>
    requires ItemsOk(items)
  {
    if items == [] then [] else ItemWords(items[0]) + Encode(items[1..])
  }

  /** The register writes a stream stands for, in order. */
  function StreamWrites(items: seq<Item>): seq<Write> {
    if items == [] then [] else ItemWrites(items[0]) + StreamWrites(items[1..])
  }

  /** The words lie in guest memory from `p` on, inside the command buffer's end. */
  ghost predicate Placed(vm: Memory, p: nat, ws: seq<word>) {
    p + 4 * |ws| <= CMD_BUF_END && forall k :: 0 <= k < |ws| ==> Read32(vm, p + 4 * k) == ws[k]
  }

  lemma HeaderFields(i: Item)
    requires ItemOk(i) && i.Command?
    ensures var h := Header(i);
      h != 0 && !IsJump(h) && Method(h) == i.reg && Count(h) == |i.args| && (NonIncrementing(h) <==> i.fixed)
  {
    var h, c, f := Header(i), |i.args|, if i.fixed then 1 else 0;
    assert h == (f * 0x1000 + c) * 0x4_0000 + i.reg;
    DivUnique(h, 0x4_0000, f * 0x1000 + c, i.reg);
    DivUnique(f * 0x1000 + c, 0x800, f * 2, c);
    DivUnique(h, JUMP, f * 2, c * 0x4_0000 + i.reg);
    DivUnique(h, 0x4000_0000, f, c * 0x4_0000 + i.reg);
  }

  lemma PlacedSplit(vm: Memory, p: nat, a: seq<word>, b: seq<word>)
    requires Placed(vm, p, a + b)
    ensures Placed(vm, p, a) && Placed(vm, p + 4 * |a|, b)
  {
    hide Read32;
    forall k | 0 <= k < |a|
      ensures Read32(vm, p + 4 * k) == a[k]
    {
      assert (a + b)[k] == a[k];
    }
    forall k | 0 <= k < |b|
      ensures Read32(vm, p + 4 * |a| + 4 * k) == b[k]
    {
      assert (a + b)[|a| + k] == b[k];
      assert p + 4 * (|a| + k) == p + 4 * |a| + 4 * k;
    }
  }

  // ----- Parsing -----

  /** One item is read in one round. */
  lemma ParseItem(vm: Memory, put: word, p: word, i: Item)
    requires ItemOk(i) && Placed(vm, p, ItemWords(i)) && p + 4 * |ItemWords(i)| <= put
    ensures Move(vm, put, p) == At(p + 4 * |ItemWords(i)|) && Dispatched(vm, put, p) == ItemWrites(i)
  {
    hide Read32, Header;
    var ws := ItemWords(i);
    assert Read32(vm, p + 4 * 0) == ws[0];
    if i.Command? {
      HeaderFields(i);
      hide Method, Count, NonIncrementing, IsJump;
      forall k | 0 <= k < |i.args|
        ensures Read32(vm, p + 4 + k * 4) == i.args[k]
      {
        assert ws[k + 1] == i.args[k];
        assert p + 4 * (k + 1) == p + 4 + k * 4;
      }
      assert CommandWrites(vm, ws[0], p) == ItemWrites(i);
    }
  }

  /** A stream is read in as many rounds as it has items, whatever comes after it. */
  lemma {:induction false} ParseStream(vm: Memory, put: word, p: word, items: seq<Item>)
    requires ItemsOk(items) && Placed(vm, p, Encode(items)) && p + 4 * |Encode(items)| <= put
    ensures After(vm, put, p, |items|) == At(p + 4 * |Encode(items)|)
    ensures Writes(vm, put, p, |items|) == StreamWrites(items)
    decreases |items|
  {
    hide Move, Dispatched, Placed, ItemOk, ItemWords, ItemWrites;
    if items != [] {
      var i, rest := items[0], items[1..];
      PlacedSplit(vm, p, ItemWords(i), Encode(rest));
      ParseItem(vm, put, p, i);
      ParseStream(vm, put, p + 4 * |ItemWords(i)|, rest);
    }
  }

  /** Round trip: with PUT at the end of the stream, processing ends and has dispatched exactly
  the encoded register writes, in order. */
  lemma {:induction false} StreamRoundTrip(vm: Memory, put: word, p: word, items: seq<Item>)
    requires ItemsOk(items) && Placed(vm, p, Encode(items)) && put == p + 4 * |Encode(items)|
    ensures Halts(vm, put, p) && Program(vm, put, p) == StreamWrites(items)
  {
    hide *;
    var n := |items|;
    ParseStream(vm, put, p, items);
    WritesAdd(vm, put, p, n);
    ProgramIs(vm, put, p, n + 1);
  }

  /** The round after a finished stream dispatches nothing. */
  lemma {:induction false} WritesAdd(vm: Memory, put: word, p: word, n: nat)
    requires After(vm, put, p, n) == At(put)
    ensures After(vm, put, p, n + 1).Ended? && Writes(vm, put, p, n + 1) == Writes(vm, put, p, n)
    decreases n
  {
    hide Read32, CommandWrites;
    if n == 0 {
      assert !Live(put, put);
    } else {
      WritesAdd(vm, put, Move(vm, put, p).ptr, n - 1);
    }
  }

  // ----- Flushing -----

  /** The FIFO between two calls: the GET value as last stored, and the register state. */
  datatype Queue = Queue(get: word, regs: State)

  ghost predicate CanFlush(vm: Memory, f: Queue, put: word) {
    IoToEa(put) <= IoToEa(f.get) || Halts(vm, IoToEa(put), IoToEa(f.get))
  }

  /** What one call of the FIFO processor does. */
  ghost function Flush(vm: Memory, f: Queue, put: word): Queue
    requires CanFlush(vm, f, put)
  {
    if IoToEa(put) <= IoToEa(f.get) then f.(get := put)
    else Queue(put, HandleAll(f.regs, Program(vm, IoToEa(put), IoToEa(f.get))))
  }

  /** Flushing exactly a stream: the register state is that of its writes, and GET is PUT. */
  lemma {:induction false} FlushStream(vm: Memory, f: Queue, put: word, items: seq<Item>)
    requires ItemsOk(items) && Placed(vm, IoToEa(f.get), Encode(items))
    requires IoToEa(put) == IoToEa(f.get) + 4 * |Encode(items)|
    ensures CanFlush(vm, f, put) && Flush(vm, f, put) == Queue(put, HandleAll(f.regs, StreamWrites(items)))
  {
    hide Placed, HandleAll, IoToEa, Halts, Program;
    if items != [] {
      StreamRoundTrip(vm, IoToEa(put), IoToEa(f.get), items);
    } else {
      assert StreamWrites([]) == [];
      NoWrites(f.regs);
    }
  }

  lemma {:induction false} NoWrites(s: State)
    ensures HandleAll(s, []) == s
  {
  }

  /** Flushing at each of a series of PUT values. */
  ghost predicate CanFlushAll(vm: Memory, f: Queue, puts: seq<word>)
    decreases |puts|
  {
    puts == [] || (CanFlush(vm, f, puts[0]) && CanFlushAll(vm, Flush(vm, f, puts[0]), puts[1..]))
  }

  ghost function FlushAll(vm: Memory, f: Queue, puts: seq<word>): Queue
    requires CanFlushAll(vm, f, puts)
    decreases |puts|
  {
    if puts == [] then f else FlushAll(vm, Flush(vm, f, puts[0]), puts[1..])
  }

  function Concat(parts: seq<seq<Item>>): seq<Item> {
    if parts == [] then [] else parts[0] + Concat(parts[1..])
  }

  predicate PartsOk(parts: seq<seq<Item>>) {
    forall k :: 0 <= k < |parts| ==> ItemsOk(parts[k])
  }

  /** Each PUT value is the command boundary at the end of its part. */
  predicate AtBoundaries(get: nat, parts: seq<seq<Item>>, puts: seq<word>)
    requires PartsOk(parts) && |puts| == |parts|
    decreases |parts|
  {
    parts == [] ||
    (IoToEa(puts[0]) == get + 4 * |Encode(parts[0])| && AtBoundaries(IoToEa(puts[0]), parts[1..], puts[1..]))
  }

  lemma {:induction false} EncodeConcat(a: seq<Item>, b: seq<Item>)
    requires ItemsOk(a) && ItemsOk(b)
    ensures ItemsOk(a + b) && Encode(a + b) == Encode(a) + Encode(b)
    ensures StreamWrites(a + b) == StreamWrites(a) + StreamWrites(b)
  {
    hide ItemWords, ItemWrites;
    forall k | 0 <= k < |a + b|
      ensures ItemOk((a + b)[k])
    {
      assert (a + b)[k] == if k < |a| then a[k] else b[k - |a|];
    }
    hide ItemOk;
    if a == [] {
      assert a + b == b;
    } else {
      var c := a + b;
      assert c[0] == a[0] && c[1..] == a[1..] + b;
      EncodeConcat(a[1..], b);
      assert Encode(c) == ItemWords(a[0]) + (Encode(a[1..]) + Encode(b));
      assert StreamWrites(c) == ItemWrites(a[0]) + (StreamWrites(a[1..]) + StreamWrites(b));
    }
  }

  /** Batching is transparent: flushing a jump-free stream at any ascending series of command
  boundaries leaves the same GET, register state and output as one flush at the last of them. */
  lemma {:induction false} FlushingInPieces(vm: Memory, f: Queue, parts: seq<seq<Item>>, puts: seq<word>)
    requires PartsOk(parts) && |puts| == |parts| > 0 && AtBoundaries(IoToEa(f.get), parts, puts)
    requires ItemsOk(Concat(parts)) && Placed(vm, IoToEa(f.get), Encode(Concat(parts)))
    ensures CanFlushAll(vm, f, puts) && CanFlush(vm, f, puts[|puts| - 1])
    ensures FlushAll(vm, f, puts) == Flush(vm, f, puts[|puts| - 1])
    ensures FlushAll(vm, f, puts) == Queue(puts[|puts| - 1], HandleAll(f.regs, StreamWrites(Concat(parts))))
    decreases |parts|
  {
    hide Placed, HandleAll, CanFlush, Flush, IoToEa, ItemOk;
    var a, rest := parts[0], Concat(parts[1..]);
    SuffixOk(a, rest);
    EncodeConcat(a, rest);
    PlacedSplit(vm, IoToEa(f.get), Encode(a), Encode(rest));
    FlushStream(vm, f, puts[0], a);
    var f1 := Flush(vm, f, puts[0]);
    if |parts| > 1 {
      FlushingInPieces(vm, f1, parts[1..], puts[1..]);
    } else {
      assert rest == [] && a + rest == a;
      assert FlushAll(vm, f1, []) == f1;
    }
    HandleAllConcat(f.regs, StreamWrites(a), StreamWrites(rest));
    NoWrites(f1.regs);
    BoundariesSum(IoToEa(f.get), parts, puts);
    FlushStream(vm, f, puts[|puts| - 1], Concat(parts));
  }

  lemma SuffixOk(a: seq<Item>, b: seq<Item>)
    requires ItemsOk(a + b)
    ensures ItemsOk(b)
  {
    forall k | 0 <= k < |b|
      ensures ItemOk(b[k])
    {
      assert (a + b)[|a| + k] == b[k];
    }
  }

  lemma {:induction false} BoundariesSum(get: nat, parts: seq<seq<Item>>, puts: seq<word>)
    requires PartsOk(parts) && |puts| == |parts| > 0 && AtBoundaries(get, parts, puts) && ItemsOk(Concat(parts))
    ensures IoToEa(puts[|puts| - 1]) == get + 4 * |Encode(Concat(parts))|
    decreases |parts|
  {
    hide IoToEa, ItemOk;
    var a, rest := parts[0], Concat(parts[1..]);
    SuffixOk(a, rest);
    EncodeConcat(a, rest);
    if |parts| > 1 {
      BoundariesSum(IoToEa(puts[0]), parts[1..], puts[1..]);
    } else {
      assert rest == [] && Encode([]) == [];
    }
  }
}
