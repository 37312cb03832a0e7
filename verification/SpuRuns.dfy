/** What every step and every run of the SPU keeps. */
module SpuRuns {
  import opened Bits
  import opened Quad
  import opened Lanes
  import opened Spu
  import opened SpuDma
  import SpuCode
  import SpuDecode

  // ----- What one instruction can change -----

  predicate HasTarget(i: Instr) {
    Pure(i) || i.Load? || (i.Branch? && i.link) || i.LinkOnly? || i.ReadChannel? || i.CountChannel? || i.Float?
  }

  predicate TouchesStore(i: Instr) {
    i.Store? || (i.WriteChannel? && i.ch == 21)
  }

  /** An instruction writes no register but RT, no local store unless it stores or issues a DMA
  command, and no control state but the program counter unless it is a channel or stop instruction. */
  lemma ExecFrame(h: Host, i: Instr, pc: word, s: State)
    requires WellFormed(i)
    ensures forall r: Reg :: HasTarget(i) && r != i.rt ==> Exec(h, i, pc, s).gpr[r] == s.gpr[r]
    ensures !HasTarget(i) ==> Exec(h, i, pc, s).gpr == s.gpr
    ensures !TouchesStore(i) ==> Exec(h, i, pc, s).ls == s.ls
    ensures !i.Branch? && !(i.WriteChannel? && i.ch == 14) ==> Exec(h, i, pc, s).pc == s.pc
    ensures !i.Stop? && !i.Halt? && !i.ReadChannel? ==> Exec(h, i, pc, s).running == s.running
    ensures !s.running ==> !Exec(h, i, pc, s).running
    ensures Exec(h, i, pc, s).insnCount == s.insnCount && Exec(h, i, pc, s).id == s.id
  {
    hide Exec;
    ExecRegisters(h, i, pc, s);
    ExecControl(h, i, pc, s);
  }

  lemma ExecRegisters(h: Host, i: Instr, pc: word, s: State)
    requires WellFormed(i)
    ensures forall r: Reg :: HasTarget(i) && r != i.rt ==> Exec(h, i, pc, s).gpr[r] == s.gpr[r]
    ensures !HasTarget(i) ==> Exec(h, i, pc, s).gpr == s.gpr
    ensures !TouchesStore(i) ==> Exec(h, i, pc, s).ls == s.ls
  {
    hide Compute, Preferred, Taken, Destination, Effective, Write128, CountCh, Dma, GetW;
  }

  lemma ExecControl(h: Host, i: Instr, pc: word, s: State)
    requires WellFormed(i)
    ensures !i.Branch? && !(i.WriteChannel? && i.ch == 14) ==> Exec(h, i, pc, s).pc == s.pc
    ensures !i.Stop? && !i.Halt? && !i.ReadChannel? ==> Exec(h, i, pc, s).running == s.running
    ensures !s.running ==> !Exec(h, i, pc, s).running
    ensures Exec(h, i, pc, s).insnCount == s.insnCount && Exec(h, i, pc, s).id == s.id
  {
    hide Compute, Preferred, Taken, Destination, Effective, Write128, CountCh, Dma, GetW;
  }

  // ----- The program counter -----

  predicate AlignedPc(pc: word) {
    pc % 4 == 0 && pc < LS_SIZE
  }

  predicate AlignedTarget(i: Instr) {
    i.Branch? ==>
      (i.target.ToAddress? ==> i.target.a % 4 == 0) && (i.target.ToOffset? ==> i.target.offset % 4 == 0)
  }

  /** Every branch the decoder produces goes by whole instructions. */
  lemma DecodeAligned(insn: word)
    ensures AlignedTarget(Decode(insn))
  {
    hide DecodeRRR, DecodeRI18, DecodeRI16, DecodeRI10, DecodeRR, AlignedTarget;
    RI16Aligned(insn);
    NoBranch(insn);
    RRAligned(insn);
  }

  lemma RI16Aligned(insn: word)
    ensures DecodeRI16(insn).Found? ==> AlignedTarget(DecodeRI16(insn).i)
  {
    var off := Wrap32(FieldI16(insn) * 4);
    assert off % 4 == 0;
    hide FieldI16, Wrap32;
  }

  lemma RRAligned(insn: word)
    ensures AlignedTarget(DecodeRR(insn))
  {
    hide RegisterW, RegisterH, RegisterB, ShiftImmW, ShiftImmH, QuadReg, QuadImm, FloatOp;
  }

  lemma NoBranch(insn: word)
    ensures AlignedTarget(DecodeRRR(insn))
    ensures DecodeRI18(insn).Found? ==> AlignedTarget(DecodeRI18(insn).i)
    ensures DecodeRI10(insn).Found? ==> AlignedTarget(DecodeRI10(insn).i)
  {
    hide ImmediateW, ImmediateH, ImmediateB;
  }

  /** The one instruction that can move the program counter off an instruction boundary. */
  predicate StraySrr0(i: Instr, s: State) {
    i.WriteChannel? && i.ch == 14 && !AlignedPc(GetW(s.gpr[i.rt], 0))
  }

  lemma ExecAligned(h: Host, i: Instr, pc: word, s: State)
    requires WellFormed(i) && AlignedTarget(i) && AlignedPc(pc) && AlignedPc(s.pc)
    ensures AlignedPc(Exec(h, i, pc, s).pc) <==> !StraySrr0(i, s)
  {
    if i.Branch? {
      DestinationAligned(s.gpr, pc, i.target);
      hide Compute, Preferred, Taken, Destination;
      assert Exec(h, i, pc, s) == DoBranch(s, pc, i.cond, i.link, i.rt, i.target);
    } else if i.WriteChannel? {
      hide Compute, GetW, AlignedPc;
      assert Exec(h, i, pc, s) == WriteCh(h, s, i.ch, GetW(s.gpr[i.rt], 0));
    } else {
      ExecFrame(h, i, pc, s);
      hide Exec, AlignedPc;
    }
  }

  lemma DestinationAligned(g: RegFile, pc: word, t: Target)
    requires AlignedPc(pc)
    requires (t.ToAddress? ==> t.a % 4 == 0) && (t.ToOffset? ==> t.offset % 4 == 0)
    ensures AlignedPc(Destination(g, pc, t))
  {
    hide GetW;
    match t {
      case ToAddress(a) => InStoreAligned(a);
      case ToOffset(off) => OffsetAligned(pc, off);
      case ToRegister(ra) =>
    }
  }

  lemma InStoreAligned(a: word)
    ensures a % LS_SIZE % 4 == a % 4
  {
    var q, r := a / LS_SIZE, a % LS_SIZE;
    assert a == q * LS_SIZE + r;
    var k := r / 4;
    assert r == k * 4 + r % 4;
    DivUnique(a, 4, q * 0x1_0000 + k, r % 4);
  }

  lemma OffsetAligned(pc: word, off: word)
    requires pc % 4 == 0 && off % 4 == 0
    ensures Wrap32(pc + off) % LS_SIZE % 4 == 0
  {
    var x, y := pc + off, Wrap32(pc + off);
    assert x == y || x == y + 1 * TWO32;
    DivUnique(x, 4, pc / 4 + off / 4, 0);
    ModTurn(y, 4, 0x4000_0000);
    hide Wrap32;
    InStoreAligned(y);
  }

  /** The instruction the next step will execute. */
  function Next(s: State): (i: Instr)
    ensures WellFormed(i)
  {
    var pc := s.pc % LS_SIZE;
    Decode(Read32(EdgeFixup(s, pc).ls, pc))
  }

  /** The state it executes in. */
  function Fetched(s: State): State {
    var pc := s.pc % LS_SIZE;
    EdgeFixup(s, pc).(pc := (pc + 4) % LS_SIZE)
  }

  lemma StepIsExec(h: Host, s: State)
    ensures Step(h, s) == Exec(h, Next(s), s.pc % LS_SIZE, Fetched(s))
    ensures Fetched(s).insnCount == s.insnCount && Fetched(s).running == s.running && Fetched(s).id == s.id
  {
    hide Exec, Decode, Read32;
  }

  /** From an aligned program counter, a step leaves an aligned one inside local store
  exactly when it does not write a stray address to channel SRR0. */
  lemma StepAligned(h: Host, s: State)
    requires AlignedPc(s.pc)
    ensures AlignedPc(Step(h, s).pc) <==> !StraySrr0(Next(s), Fetched(s))
  {
    StepIsExec(h, s);
    DecodeAligned(Read32(EdgeFixup(s, s.pc).ls, s.pc));
    hide Exec, Decode, Step, EdgeFixup, Read32, StraySrr0;
    ExecAligned(h, Next(s), s.pc, Fetched(s));
  }

  /** No step of the run writes a stray address to SRR0. */
  predicate Srr0Safe(h: Host, s: State, max: nat)
    decreases max
  {
    !s.running || max == 0 ||
    (!StraySrr0(Next(s), Fetched(s)) && Srr0Safe(h, Counted(Step(h, s)), max - 1))
  }

  /** The state after at most `n` instructions. */
  function After(h: Host, s: State, n: nat): State {
    Run(h, s, n).0
  }

  /** Over whole runs: every state a run passes through has an aligned program counter
  inside local store exactly when the run never writes a stray address to SRR0. */
  lemma {:induction false} RunAligned(h: Host, s: State, max: nat)
    requires AlignedPc(s.pc)
    ensures (forall n: nat :: n <= max ==> AlignedPc(After(h, s, n).pc)) <==> Srr0Safe(h, s, max)
    decreases max
  {
    hide Step, Next, Fetched, StraySrr0;
    if s.running && max > 0 {
      var s' := Counted(Step(h, s));
      StepAligned(h, s);
      assert After(h, s, 1) == s' by { assert Run(h, s', 0) == (s', 0); }
      assert forall n: nat :: n > 0 ==> After(h, s, n) == After(h, s', n - 1);
      if AlignedPc(s'.pc) {
        RunAligned(h, s', max - 1);
        if forall n: nat :: n <= max ==> AlignedPc(After(h, s, n).pc) {
          forall n: nat | n <= max - 1
            ensures AlignedPc(After(h, s', n).pc)
          {
            assert After(h, s, n + 1) == After(h, s', n);
          }
        }
      }
    } else {
      forall n: nat | n <= max
        ensures After(h, s, n) == s
      {
      }
    }
  }

  /** `s` with a `wrch` of the value 2 to channel SRR0 at address 0, about to be executed. */
  function Straying(s: State): State {
    s.(pc := 0, ls := Spliced(s.ls, 0, [0x21, 0xA0, 0x07, 0x00]), gpr := s.gpr[0 := Preferred(2)])
  }

  /** Such a write does move the program counter off an instruction boundary. */
  lemma StrayingStrays(h: Host, s: State)
    ensures AlignedPc(Straying(s).pc) && Step(h, Straying(s)).pc == 2
  {
    var s0 := Straying(s);
    StrayingFetches(s);
    hide Exec, Decode, Read32, Straying, WriteCh;
    assert Step(h, s0) == Exec(h, WriteChannel(0, 14), 0, s0.(pc := 4));
    StrayingWrites(h, s);
  }

  lemma StrayingFetches(s: State)
    ensures Straying(s).pc == 0 && Decode(Read32(Straying(s).ls, 0)) == WriteChannel(0, 14)
  {
    var ls := Straying(s).ls;
    assert ls[0] == 0x21 && ls[1] == 0xA0 && ls[2] == 0x07 && ls[3] == 0x00;
    hide Decode, SpuCode.Assembles;
    assert Read32(ls, 0) == 0x21A0_0700;
    assert SpuCode.EncodeRR(0x10D, 0, 14, 0) == 0x21A0_0700;
    SpuDecode.DecodeChannels(0, 14);
  }

  lemma StrayingWrites(h: Host, s: State)
    ensures Exec(h, WriteChannel(0, 14), 0, Straying(s).(pc := 4)).pc == 2
  {
    GetSetW(Zeros(16), 0, 2, 0);
    assert Straying(s).(pc := 4).gpr[0] == Preferred(2);
    hide GetW, SetW, Exec;
    WriteSrr0(h, Straying(s).(pc := 4));
  }

  lemma WriteSrr0(h: Host, s: State)
    ensures Exec(h, WriteChannel(0, 14), 0, s).pc == GetW(s.gpr[0], 0)
  {
    hide GetW, Compute, Dma;
  }

  // ----- Counting and composition -----

  lemma StepKeepsCount(h: Host, s: State)
    ensures Step(h, s).insnCount == s.insnCount
    ensures !s.running ==> !Step(h, s).running
  {
    StepIsExec(h, s);
    hide Exec, Step, Next, Fetched;
    ExecFrame(h, Next(s), s.pc % LS_SIZE, Fetched(s));
  }

  /** `spu_run` returns the growth of the instruction counter, never more than it was
  allowed, and stops early only when the SPU has stopped. */
  lemma {:induction false} RunCounts(h: Host, s: State, max: nat)
    ensures var r := Run(h, s, max);
      r.1 <= max && (r.1 < max ==> !r.0.running) && r.0.insnCount == (s.insnCount + r.1) % TWO64
    decreases max
  {
    hide Step;
    if s.running && max > 0 {
      StepKeepsCount(h, s);
      RunCounts(h, Counted(Step(h, s)), max - 1);
      CountOneMore(s.insnCount, Run(h, Counted(Step(h, s)), max - 1).1);
    }
  }

  lemma CountOneMore(c: nat, n: nat)
    ensures ((c + 1) % TWO64 + n) % TWO64 == (c + (n + 1)) % TWO64
  {
  }

  /** A run may be interrupted and resumed at any point without changing its outcome. */
  lemma {:induction false} RunCompose(h: Host, s: State, m: nat, n: nat)
    ensures Run(h, s, m + n).0 == Run(h, Run(h, s, m).0, n).0
    ensures Run(h, s, m + n).1 == Run(h, s, m).1 + Run(h, Run(h, s, m).0, n).1
    decreases m
  {
    hide Step;
    if s.running && m > 0 {
      RunCompose(h, Counted(Step(h, s)), m - 1, n);
      assert m + n - 1 == (m - 1) + n;
    }
  }
}
