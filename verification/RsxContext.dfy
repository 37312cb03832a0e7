/** The command processor in the form of its source: register state updated in place by two
nested loops over guest memory (`rsx_handle` and `rsx_process_fifo` in `runtime_glue.cpp`). */
module RsxContext {
  import opened Bits
  import opened Draw
  import opened Fifo
  import FifoStream

  class Rsx {
    var get: word
    var clearColor: word
    var surface: word
    const vtxOffset: array<word>
    const vtxFormat: array<word>
    var start: word
    var total: word
    var output: seq<Output>

    ghost predicate Valid() {
      vtxOffset.Length == 16 && vtxFormat.Length == 16 && vtxOffset != vtxFormat
    }

    ghost function Regs(): State
      requires Valid()
      reads this, vtxOffset, vtxFormat
    {
      State(clearColor, surface, vtxOffset[..], vtxFormat[..], start, total, output)
    }

    ghost function Abs(): FifoStream.Queue
      requires Valid()
      reads this, vtxOffset, vtxFormat
    {
      FifoStream.Queue(get, Regs())
    }

    constructor ()
      ensures Valid() && fresh(vtxOffset) && fresh(vtxFormat)
      ensures get == 0 && start == NO_START && total == 0 && output == []
    {
      get, clearColor, surface := 0, 0, 0;
      vtxOffset := new word[16](_ => 0);
      vtxFormat := new word[16](_ => 0);
      start, total, output := NO_START, 0, [];
    }

    /** `rsx_handle` */
    method HandleWrite(w: Write)
      requires Valid()
      modifies this`clearColor, this`surface, this`start, this`total, this`output, vtxOffset, vtxFormat
      ensures Regs() == old(Handle(Regs(), w))
    {
      var m := w.reg % 0x1_0000;
      if m == CLEAR_COLOR {
        clearColor := w.arg;
      } else if m == SURFACE_OFFSET {
        surface := Add32(0xD000_0000, w.arg);
      } else if m == CLEAR_SURFACE {
        if w.arg / 0x10 % 0x10 != 0 {
          output := output + [Cleared(Bgra(clearColor))];
        }
      } else if m == BEGIN_END {
        if w.arg == 0 {
          if total >= 3 && vtxOffset[0] != 0 {
            output := output + [Drawn(Add32(IoToEa(vtxOffset[0]), start * 16), total)];
          }
        }
        start, total := NO_START, 0;
      } else if m == DRAW_ARRAYS {
        if start == NO_START {
          start := FirstVertex(w.arg);
        }
        total := Add32(total, VertexCount(w.arg));
      } else if VERTEX_OFFSET <= m < VERTEX_OFFSET + 0x40 {
        vtxOffset[(m - VERTEX_OFFSET) / 4] := w.arg;
      } else if VERTEX_FORMAT <= m < VERTEX_FORMAT + 0x40 {
        vtxFormat[(m - VERTEX_FORMAT) / 4] := w.arg;
      }
    }

    /** The argument loop of one command. */
    method DispatchCommand(vm: Memory, hdr: word, ptr: word)
      requires Valid() && IsCommand(hdr, ptr)
      modifies this`clearColor, this`surface, this`start, this`total, this`output, vtxOffset, vtxFormat
      ensures Regs() == old(HandleAll(Regs(), CommandWrites(vm, hdr, ptr)))
    {
      hide Handle, Read32, HandleAll, NonIncrementing, Method, Count, IsCommand, CommandWrites;
      ghost var s := Regs();
      FifoStream.NoWrites(s);
      CommandWritesAt(vm, hdr, ptr);
      for i := 0 to Count(hdr)
        invariant Regs() == HandleAll(s, CommandWrites(vm, hdr, ptr)[..i])
      {
        var arg := Read32(vm, ptr + 4 + i * 4);
        var reg := if NonIncrementing(hdr) then Method(hdr) else Method(hdr) + i * 4;
        HandleOneMore(s, CommandWrites(vm, hdr, ptr), i);
        HandleWrite(Write(reg, arg));
      }
    }

    /** One round of the command loop: dispatches at `ptr` and says where the loop goes next. */
    method Round(vm: Memory, putEa: word, ptr: word) returns (next: Position)
      requires Valid() && Live(ptr, putEa)
      modifies this`clearColor, this`surface, this`start, this`total, this`output, vtxOffset, vtxFormat
      ensures next == Move(vm, putEa, ptr)
      ensures Regs() == old(HandleAll(Regs(), Dispatched(vm, putEa, ptr)))
    {
      hide HandleAll, Read32, IsCommand, CommandWrites, IsJump, JumpTarget, Count;
      FifoStream.NoWrites(Regs());
      var hdr := Read32(vm, ptr);
      NoCommand(hdr, ptr);
      if hdr == 0 {
        next := At(ptr + 4);
      } else if IsJump(hdr) {
        var jmp := JumpTarget(hdr);
        next := if jmp < CMD_BUF || jmp >= CMD_BUF_END then Ended else At(jmp);
      } else if !IsCommand(hdr, ptr) {
        next := At(ptr + 4);
      } else {
        DispatchCommand(vm, hdr, ptr);
        CommandEnds(hdr, ptr);
        next := At(ptr + 4 + Count(hdr) * 4);
      }
    }

    /** `rsx_process_fifo`, on every input on which it returns. */
    method ProcessFifo(vm: Memory, put: word)
      requires Valid() && FifoStream.CanFlush(vm, Abs(), put)
      modifies this, vtxOffset, vtxFormat
      ensures Abs() == FifoStream.Flush(vm, old(Abs()), put)
    {
      hide HandleAll, IoToEa, Dispatched, After, Writes, Move, Live;
      var getEa := IoToEa(get);
      var putEa := IoToEa(put);
      if putEa <= getEa {
        get := put;
        return;
      }
      ghost var s := Regs();
      ghost var n: nat :| After(vm, putEa, getEa, n).Ended?;
      ghost var all := Writes(vm, putEa, getEa, n);
      ghost var done: seq<Write> := [];
      ProgramIs(vm, putEa, getEa, n);
      FifoStream.NoWrites(s);
      var ptr := getEa;
      while Live(ptr, putEa)
        invariant After(vm, putEa, ptr, n).Ended?
        invariant all == done + Writes(vm, putEa, ptr, n)
        invariant Regs() == HandleAll(s, done) && get == old(get)
        decreases n
      {
        ghost var d := Dispatched(vm, putEa, ptr);
        WritesUnfold(vm, putEa, ptr, n);
        HandleAllConcat(s, done, d);
        var next := Round(vm, putEa, ptr);
        done, n := done + d, n - 1;
        if next.Ended? {
          get := put;
          return;
        }
        ptr := next.ptr;
      }
      NothingLeft(vm, putEa, ptr, n);
      assert done + [] == done;
      get := put;
    }
  }

  lemma CommandWritesAt(vm: Memory, hdr: word, ptr: word)
    requires IsCommand(hdr, ptr)
    ensures ptr + 4 + Count(hdr) * 4 <= CMD_BUF_END
    ensures var ws := CommandWrites(vm, hdr, ptr);
      |ws| == Count(hdr) && ws[..0] == [] && ws[..|ws|] == ws &&
      forall i :: 0 <= i < |ws| ==>
        ws[i] == Write(if NonIncrementing(hdr) then Method(hdr) else Method(hdr) + i * 4, Read32(vm, ptr + 4 + i * 4))
  {
    hide Method, NonIncrementing, Read32;
  }

  lemma {:induction false} HandleOneMore(s: State, ws: seq<Write>, i: nat)
    requires i < |ws|
    ensures HandleAll(s, ws[..i + 1]) == Handle(HandleAll(s, ws[..i]), ws[i])
  {
    hide Handle, HandleAll;
    assert ws[..i + 1] == ws[..i] + [ws[i]];
    HandleAllConcat(s, ws[..i], [ws[i]]);
    OneWrite(HandleAll(s, ws[..i]), ws[i]);
  }

  lemma WritesUnfold(vm: Memory, put: word, ptr: word, n: nat)
    requires After(vm, put, ptr, n).Ended?
    ensures n > 0
    ensures Move(vm, put, ptr).Ended? ==> Writes(vm, put, ptr, n) == Dispatched(vm, put, ptr)
    ensures Move(vm, put, ptr).At? ==>
      After(vm, put, Move(vm, put, ptr).ptr, n - 1).Ended? &&
      Writes(vm, put, ptr, n) == Dispatched(vm, put, ptr) + Writes(vm, put, Move(vm, put, ptr).ptr, n - 1)
  {
    hide Move, Dispatched;
    assert Dispatched(vm, put, ptr) + [] == Dispatched(vm, put, ptr);
  }

  lemma {:induction false} NothingLeft(vm: Memory, put: word, ptr: word, n: nat)
    ensures !Live(ptr, put) ==> Writes(vm, put, ptr, n) == []
  {
  }

  lemma NoCommand(hdr: word, ptr: word)
    ensures hdr == 0 || IsJump(hdr) ==> !IsCommand(hdr, ptr)
  {
  }

  lemma CommandEnds(hdr: word, ptr: word)
    requires IsCommand(hdr, ptr)
    ensures ptr + 4 + Count(hdr) * 4 <= CMD_BUF_END
  {
  }
}
