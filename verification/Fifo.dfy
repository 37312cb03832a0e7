/** The RSX command FIFO: NOPs, jumps, and incrementing and non-incrementing commands
(`rsx_process_fifo` in `runtime_glue.cpp`). */
module Fifo {
  import opened Bits
  import opened Quad
  import opened Draw

  /** Guest memory, which the handlers only read. */
  type Memory = word -> byte

  function Read32(vm: Memory, ea: word): word {
    Be32(vm(ea), vm((ea + 1) % TWO32), vm((ea + 2) % TWO32), vm((ea + 3) % TWO32))
  }

  // ----- One header -----

  const JUMP: word := 0x2000_0000

  predicate IsJump(hdr: word) { hdr / JUMP % 2 == 1 }

  function JumpTarget(hdr: word): word
    requires IsJump(hdr)
  {
    IoToEa(hdr - JUMP)
  }

  function Method(hdr: word): nat { hdr % 0x4_0000 }

  function Count(hdr: word): nat { hdr / 0x4_0000 % 0x800 }

  predicate NonIncrementing(hdr: word) { hdr / 0x4000_0000 % 2 == 1 }

  /** The fields of a header, as the C code masks them. */
  lemma {:induction false} HeaderIsMasked(hdr: word)
    ensures Method(hdr) == And(hdr, 0x3_FFFF) && Count(hdr) == And(Shr(hdr, 18), 0x7FF)
    ensures IsJump(hdr) <==> And(hdr, JUMP) != 0
    ensures NonIncrementing(hdr) <==> And(hdr, 0x4000_0000) != 0
  {
    HeaderPowers();
    TopBits(hdr);
    hide Pow2, And, Shr, Bit;
    AndLowMask(hdr, 18);
    AndLowMask(Shr(hdr, 18), 11);
    AndOneBit(hdr, 29);
    AndOneBit(hdr, 30);
  }

  lemma HeaderPowers()
    ensures Pow2(11) == 0x800 && Pow2(18) == 0x4_0000 && Pow2(29) == JUMP && Pow2(30) == 0x4000_0000
  {
    assert Pow2(11) == 0x800 && Pow2(7) == 0x80;
    hide Pow2;
    Pow2Add(11, 7);
    Pow2Add(18, 11);
    Pow2Add(29, 1);
    PowerOfOne();
  }

  lemma PowerOfOne()
    ensures Pow2(1) == 2
  {
  }

  lemma {:induction false} TopBits(hdr: word)
    ensures Shr(hdr, 18) == hdr / 0x4_0000
    ensures Bit(29, hdr) <==> hdr / JUMP % 2 == 1
    ensures Bit(30, hdr) <==> hdr / 0x4000_0000 % 2 == 1
  {
    HeaderPowers();
    BitShr(0, hdr, 29);
    BitShr(0, hdr, 30);
    hide Pow2;
  }

  /** The loop reads a header at `ptr`. */
  predicate Live(ptr: word, put: word) {
    ptr < CMD_BUF_END && ptr + 4 <= put
  }

  /** The header at `ptr` starts a command whose arguments end within the buffer. */
  predicate IsCommand(hdr: word, ptr: word) {
    hdr != 0 && !IsJump(hdr) && Count(hdr) != 0 && ptr + 4 + Count(hdr) * 4 <= CMD_BUF_END
  }

  datatype Position = Ended | At(ptr: word)

  /** Where the loop goes from `ptr`: past a NOP, a broken header or a command, to a jump
  target inside the buffer, or out of the loop. */
  function Move(vm: Memory, put: word, ptr: word): Position {
    if !Live(ptr, put) then Ended
    else
      var hdr := Read32(vm, ptr);
      if hdr == 0 then At(ptr + 4)
      else if IsJump(hdr) then
        if CMD_BUF <= JumpTarget(hdr) < CMD_BUF_END then At(JumpTarget(hdr)) else Ended
      else if IsCommand(hdr, ptr) then At(ptr + 4 + Count(hdr) * 4)
      else At(ptr + 4)
  }

  function CommandWrites(vm: Memory, hdr: word, ptr: word): seq<Write>
    requires IsCommand(hdr, ptr)
  {
    seq(Count(hdr), i requires 0 <= i < Count(hdr) =>
      Write(if NonIncrementing(hdr) then Method(hdr) else Method(hdr) + i * 4, Read32(vm, ptr + 4 + i * 4)))
  }

  /** The register writes dispatched at `ptr`. */
  function Dispatched(vm: Memory, put: word, ptr: word): seq<Write> {
    if Live(ptr, put) && IsCommand(Read32(vm, ptr), ptr) then CommandWrites(vm, Read32(vm, ptr), ptr) else []
  }

  // ----- The loop -----

  /** The read position after `n` rounds. */
  function After(vm: Memory, put: word, ptr: word, n: nat): Position
    decreases n
  {
    if n == 0 then At(ptr)
    else match Move(vm, put, ptr)
      case Ended => Ended
      case At(p) => After(vm, put, p, n - 1)
  }

  ghost predicate Halts(vm: Memory, put: word, ptr: word) {
    exists n: nat :: After(vm, put, ptr, n).Ended?
  }

  /** All register writes of the first `n` rounds. */
  function Writes(vm: Memory, put: word, ptr: word, n: nat): seq<Write>
    decreases n
  {
    if n == 0 then [] else
      Dispatched(vm, put, ptr) +
      match Move(vm, put, ptr)
      case Ended => []
      case At(p) => Writes(vm, put, p, n - 1)
  }

  lemma {:induction false} AfterAdd(vm: Memory, put: word, ptr: word, m: nat, n: nat)
    ensures After(vm, put, ptr, m + n) ==
      match After(vm, put, ptr, m) { case Ended => Ended case At(p) => After(vm, put, p, n) }
    decreases m
  {
    hide Move;
    if m > 0 {
      match Move(vm, put, ptr) {
        case Ended =>
        case At(p) => AfterAdd(vm, put, p, m - 1, n);
      }
      assert m + n - 1 == (m - 1) + n;
    }
  }

  /** Once the loop has ended, more rounds change nothing. */
  lemma {:induction false} WritesSettle(vm: Memory, put: word, ptr: word, m: nat, n: nat)
    requires After(vm, put, ptr, m).Ended? && m <= n
    ensures After(vm, put, ptr, n).Ended? && Writes(vm, put, ptr, n) == Writes(vm, put, ptr, m)
    decreases m
  {
    hide Move, Dispatched;
    match Move(vm, put, ptr) {
      case Ended =>
      case At(p) => WritesSettle(vm, put, p, m - 1, n - 1);
    }
  }

  /** The register writes of a halting run, in order. */
  ghost function Program(vm: Memory, put: word, ptr: word): (ws: seq<Write>)
    requires Halts(vm, put, ptr)
  {
    var n: nat :| After(vm, put, ptr, n).Ended?;
    Writes(vm, put, ptr, n)
  }

  lemma {:induction false} ProgramIs(vm: Memory, put: word, ptr: word, n: nat)
    requires After(vm, put, ptr, n).Ended?
    ensures Halts(vm, put, ptr) && Program(vm, put, ptr) == Writes(vm, put, ptr, n)
  {
    var m: nat :| After(vm, put, ptr, m).Ended? && Program(vm, put, ptr) == Writes(vm, put, ptr, m);
    if m <= n {
      WritesSettle(vm, put, ptr, m, n);
    } else {
      WritesSettle(vm, put, ptr, n, m);
    }
  }

  // ----- Termination -----

  /** Two different rounds read at the same position. */
  ghost predicate Revisits(vm: Memory, put: word, ptr: word) {
    exists i: nat, j: nat :: i < j && Same(After(vm, put, ptr, i), After(vm, put, ptr, j))
  }

  predicate Same(p: Position, q: Position) {
    p.At? && p == q
  }

  /** A loop that is back where it was `d` rounds ago never ends. */
  lemma {:induction false} CycleNeverEnds(vm: Memory, put: word, q: word, d: nat, n: nat)
    requires d > 0 && After(vm, put, q, d) == At(q)
    ensures After(vm, put, q, n).At?
    decreases n
  {
    hide After;
    if n < d {
      AfterAdd(vm, put, q, n, d - n);
      assert n + (d - n) == d;
    } else {
      CycleNeverEnds(vm, put, q, d, n - d);
      AfterAdd(vm, put, q, d, n - d);
      assert d + (n - d) == n;
    }
  }

  lemma {:induction false} RevisitNeverEnds(vm: Memory, put: word, ptr: word, i: nat, j: nat, n: nat)
    requires i < j && Same(After(vm, put, ptr, i), After(vm, put, ptr, j))
    ensures After(vm, put, ptr, n).At?
  {
    hide After;
    var q := After(vm, put, ptr, i).ptr;
    AfterAdd(vm, put, ptr, i, j - i);
    assert i + (j - i) == j;
    if n < i {
      AfterAdd(vm, put, ptr, n, i - n);
      assert n + (i - n) == i;
    } else {
      CycleNeverEnds(vm, put, q, j - i, n - i);
      AfterAdd(vm, put, ptr, i, n - i);
      assert i + (n - i) == n;
    }
  }

  /** The lowest position the loop can read at. */
  function Lowest(ptr: word): nat {
    if ptr < CMD_BUF then ptr else CMD_BUF
  }

  /** Every position the loop moves on from lies between its start, or the buffer, and the buffer's end. */
  lemma {:induction false} PositionsBounded(vm: Memory, put: word, ptr: word, n: nat)
    requires After(vm, put, ptr, n).At?
    ensures Lowest(ptr) <= After(vm, put, ptr, n).ptr
    decreases n
  {
    if n > 0 {
      hide Read32;
      var p := Move(vm, put, ptr).ptr;
      assert Lowest(ptr) <= Lowest(p);
      PositionsBounded(vm, put, p, n - 1);
    }
  }

  /** Rounds at which the loop is still going read at live positions. */
  lemma LiveBefore(vm: Memory, put: word, ptr: word, n: nat)
    requires After(vm, put, ptr, n + 1).At?
    ensures After(vm, put, ptr, n).At? && After(vm, put, ptr, n).ptr < CMD_BUF_END
  {
    AfterAdd(vm, put, ptr, n, 1);
    hide Read32;
  }

  /** The positions of the first `n` rounds. */
  ghost function Visited(vm: Memory, put: word, ptr: word, n: nat): set<int> {
    set i: nat | i < n && After(vm, put, ptr, i).At? :: After(vm, put, ptr, i).ptr as int
  }

  lemma VisitedStep(vm: Memory, put: word, ptr: word, n: nat)
    requires After(vm, put, ptr, n).At?
    ensures Visited(vm, put, ptr, n + 1) == Visited(vm, put, ptr, n) + {After(vm, put, ptr, n).ptr as int}
  {
    hide After;
  }

  lemma {:induction false} VisitedNew(vm: Memory, put: word, ptr: word, n: nat)
    requires !Revisits(vm, put, ptr) && After(vm, put, ptr, n).At?
    ensures After(vm, put, ptr, n).ptr as int !in Visited(vm, put, ptr, n)
  {
    hide After;
    forall i: nat | i < n && After(vm, put, ptr, i).At?
      ensures After(vm, put, ptr, i).ptr != After(vm, put, ptr, n).ptr
    {
      assert !Same(After(vm, put, ptr, i), After(vm, put, ptr, n));
    }
  }

  /** Without a revisit, every round reads at a new position. */
  lemma {:induction false} VisitedGrows(vm: Memory, put: word, ptr: word, n: nat)
    requires !Revisits(vm, put, ptr) && After(vm, put, ptr, n).At?
    ensures |Visited(vm, put, ptr, n)| == n
    ensures forall p :: p in Visited(vm, put, ptr, n) ==> Lowest(ptr) <= p < CMD_BUF_END
  {
    hide After, Revisits;
    if n == 0 {
      assert Visited(vm, put, ptr, 0) == {};
    } else {
      hide Visited;
      LiveBefore(vm, put, ptr, n - 1);
      VisitedGrows(vm, put, ptr, n - 1);
      PositionsBounded(vm, put, ptr, n - 1);
      VisitedStep(vm, put, ptr, n - 1);
      VisitedNew(vm, put, ptr, n - 1);
    }
  }

  lemma {:induction false} IntervalSize(s: set<int>, lo: int, hi: int)
    requires lo <= hi && forall x :: x in s ==> lo <= x < hi
    ensures |s| <= hi - lo
    decreases hi - lo
  {
    if lo == hi {
      assert s == {};
    } else {
      IntervalSize(s - {hi - 1}, lo, hi - 1);
    }
  }

  /** A run that never revisits a read position ends within the number of positions. */
  lemma {:induction false} EndsWithinPositions(vm: Memory, put: word, ptr: word)
    requires !Revisits(vm, put, ptr)
    ensures After(vm, put, ptr, CMD_BUF_END - Lowest(ptr) + 1).Ended?
  {
    var bound := CMD_BUF_END - Lowest(ptr);
    if After(vm, put, ptr, bound + 1).At? {
      VisitedGrows(vm, put, ptr, bound + 1);
      IntervalSize(Visited(vm, put, ptr, bound + 1), Lowest(ptr), CMD_BUF_END);
      assert false;
    }
  }

  /** Processing ends exactly when no read position is visited twice. */
  lemma HaltsIffNoRevisit(vm: Memory, put: word, ptr: word)
    ensures Halts(vm, put, ptr) <==> !Revisits(vm, put, ptr)
  {
    if !Revisits(vm, put, ptr) {
      EndsWithinPositions(vm, put, ptr);
    } else {
      var i: nat, j: nat :| i < j && Same(After(vm, put, ptr, i), After(vm, put, ptr, j));
      forall n: nat
        ensures After(vm, put, ptr, n).At?
      {
        RevisitNeverEnds(vm, put, ptr, i, j, n);
      }
    }
  }
}
