/** Runs of straight-line code that lies in local store as instruction words. */
module SpuPrograms {
  import opened Bits
  import opened Quad
  import opened Lanes
  import opened Spu
  import opened SpuCode
  import opened SpuDma
  import opened SpuStraight
  import Wide
  import SpuDecode
  import SpuRuns
  import SpuIdioms
  import SpuInsert

  // ----- Straight-line runs -----

  predicate Assembled(code: seq<Instr>) {
    forall k :: 0 <= k < |code| ==> WellFormed(code[k]) && Assembles(code[k])
  }

  /** The next `n` instructions do not include the one that SPU 2 patches its registers before. */
  predicate Unpatched(s: State, n: nat) {
    s.id != 2 || s.pc > EDGE_FIXUP_PC || s.pc + 4 * n <= EDGE_FIXUP_PC
  }

  /** The assembled `code` lies in local store from the program counter on. */
  predicate Loaded(s: State, code: seq<Instr>) {
    Assembled(code) && SpuRuns.AlignedPc(s.pc) && s.pc + 4 * |code| <= LS_SIZE && Unpatched(s, |code|) &&
    WordsAt(s.ls, s.pc, code)
  }

  predicate WordsAt(ls: LocalStore, at: nat, code: seq<Instr>)
    requires Assembled(code) && at + 4 * |code| <= LS_SIZE
  {
    forall k :: 0 <= k < |code| ==> Read32(ls, at + 4 * k) == Assemble(code[k])
  }

  lemma LoadedCode(s: State, code: seq<Instr>)
    requires Loaded(s, code)
    ensures Assembled(code) && forall i | i in code :: WellFormed(i)
  {
    hide WellFormed, Assembles, WordsAt;
  }

  /** Instructions that always go on to the next one and leave local store to stores. */
  predicate FallsThrough(i: Instr) {
    !i.Branch? && !i.Stop? && !i.Halt? && !i.ReadChannel? && (i.WriteChannel? ==> i.ch != 14 && i.ch != 21)
  }

  /** Executed in `s`, the instruction does not store over the `n` instructions after it. */
  predicate Spares(s: State, i: Instr, n: nat) {
    n == 0 || !i.Store? ||
    (var p := Effective(s.gpr, s.pc, i.addr); p + 16 <= s.pc + 4 || s.pc + 4 + 4 * n <= p)
  }

  /** No store of the code, wherever it goes, changes an instruction still to come. */
  predicate SparesRest(h: Host, s: State, code: seq<Instr>)
    requires Assembled(code)
    decreases |code|
  {
    code == [] ||
    (Spares(s, code[0], |code| - 1) && SparesRest(h, Advance(h, s, code[0]), code[1..]))
  }

  lemma OneStep(h: Host, s: State, i: Instr)
    requires WellFormed(i) && Assembles(i) && SpuRuns.AlignedPc(s.pc) && (s.id != 2 || s.pc != EDGE_FIXUP_PC)
    requires Read32(s.ls, s.pc) == Assemble(i)
    ensures Counted(Step(h, s)) == Advance(h, s, i)
  {
    hide Exec, Decode, Read32, Assemble, Assembles, WellFormed;
    SpuDecode.DecodeAssemble(i);
  }

  lemma AdvanceFrame(h: Host, s: State, i: Instr)
    requires WellFormed(i) && FallsThrough(i)
    ensures var s' := Advance(h, s, i);
      s'.pc == (s.pc + 4) % LS_SIZE && s'.running == s.running && s'.id == s.id &&
      s'.ls == if i.Store? then Write128(s.ls, Effective(s.gpr, s.pc, i.addr), s.gpr[i.rt]) else s.ls
  {
    hide Exec, Effective, Write128, WellFormed;
    var s1 := s.(pc := (s.pc + 4) % LS_SIZE);
    if i.Store? { ExecStore(h, i, s.pc, s1); }
    SpuRuns.ExecFrame(h, i, s.pc, s1);
  }

  lemma ExecStore(h: Host, i: Instr, pc: word, s: State)
    requires WellFormed(i) && i.Store?
    ensures Exec(h, i, pc, s) == s.(ls := Write128(s.ls, Effective(s.gpr, pc, i.addr), s.gpr[i.rt]))
  {
    hide Effective, Write128, WellFormed;
  }

  /** A word outside the stored quadword reads as before. */
  lemma ReadAfterStore(ls: LocalStore, p: nat, q: Quad, a: word)
    requires p + 16 <= LS_SIZE && a % 4 == 0 && a + 4 <= LS_SIZE && (p + 16 <= a || a + 4 <= p)
    ensures Read32(Write128(ls, p, q), a) == Read32(ls, a)
  {
    var r := Write128(ls, p, q);
    assert AlignDown(a % LS_SIZE, 4) == a;
    assert forall k :: a <= k < a + 4 ==> r[k] == ls[k];
  }

  /** A word of the code after the instruction is still there once it has been executed. */
  lemma WordKept(h: Host, s: State, i: Instr, n: nat, k: nat)
    requires WellFormed(i) && FallsThrough(i) && Spares(s, i, n) && k < n
    requires SpuRuns.AlignedPc(s.pc) && s.pc + 4 + 4 * n <= LS_SIZE
    ensures Read32(Advance(h, s, i).ls, s.pc + 4 + 4 * k) == Read32(s.ls, s.pc + 4 + 4 * k)
  {
    hide Advance, Read32, Write128, Effective, FallsThrough, WellFormed;
    AdvanceFrame(h, s, i);
    if i.Store? {
      ReadAfterStore(s.ls, Effective(s.gpr, s.pc, i.addr), s.gpr[i.rt], s.pc + 4 + 4 * k);
    }
  }

  lemma RestAssembled(code: seq<Instr>)
    requires code != [] && Assembled(code)
    ensures WellFormed(code[0]) && Assembled(code[1..])
  {
    hide WellFormed, Assembles;
  }

  lemma RestAt(ls: LocalStore, ls': LocalStore, at: nat, code: seq<Instr>)
    requires code != [] && Assembled(code) && Assembled(code[1..])
    requires at + 4 * |code| <= LS_SIZE && WordsAt(ls, at, code)
    requires forall k: nat :: k < |code| - 1 ==> Read32(ls', at + 4 + 4 * k) == Read32(ls, at + 4 + 4 * k)
    ensures WordsAt(ls', at + 4, code[1..])
  {
    hide Read32, Assemble, WellFormed, Assembles;
    var rest := code[1..];
    forall k: nat | k < |rest|
      ensures Read32(ls', at + 4 + 4 * k) == Assemble(rest[k])
    {
      var next := k + 1;
      assert rest[k] == code[next] && at + 4 + 4 * k == at + 4 * next;
    }
  }

  lemma NextPc(h: Host, s: State, i: Instr)
    requires WellFormed(i) && FallsThrough(i) && s.pc + 4 < LS_SIZE
    ensures Advance(h, s, i).pc == s.pc + 4 && Advance(h, s, i).id == s.id
  {
    hide Advance, WellFormed, FallsThrough, Effective, Write128;
    AdvanceFrame(h, s, i);
  }

  lemma StaysLoaded(h: Host, s: State, code: seq<Instr>)
    requires |code| > 1 && Loaded(s, code) && FallsThrough(code[0]) && Spares(s, code[0], |code| - 1)
    ensures Loaded(Advance(h, s, code[0]), code[1..])
  {
    hide Read32, WordsAt, Assembled, Advance, WellFormed, Spares, FallsThrough, Assemble, Assembles, Effective;
    RestAssembled(code);
    NextPc(h, s, code[0]);
    forall k: nat | k < |code| - 1
      ensures Read32(Advance(h, s, code[0]).ls, s.pc + 4 + 4 * k) == Read32(s.ls, s.pc + 4 + 4 * k)
    {
      WordKept(h, s, code[0], |code| - 1, k);
    }
    RestAt(s.ls, Advance(h, s, code[0]).ls, s.pc, code);
  }

  /** Runs for as many instructions as `code` has. */
  function RunAll(h: Host, s: State, code: seq<Instr>): (State, nat) {
    Run(h, s, |code|)
  }

  /** Running loaded straight-line code executes its instructions one after the other, as long
  as it does not overwrite what it has still to execute. */
  lemma {:induction false} RunStraight(h: Host, s: State, code: seq<Instr>)
    requires Loaded(s, code) && s.running && SparesRest(h, s, code) && forall i | i in code :: FallsThrough(i)
    ensures RunAll(h, s, code) == (Straight(h, s, code), |code|)
    decreases |code|
  {
    hide Step, Exec, Decode, Assemble, Assembles, Advance, Counted, WellFormed, Spares, FallsThrough;
    if code != [] {
      var s' := Advance(h, s, code[0]);
      assert Read32(s.ls, s.pc + 4 * 0) == Assemble(code[0]);
      hide Read32;
      OneStep(h, s, code[0]);
      AdvanceFrame(h, s, code[0]);
      if |code| > 1 {
        StaysLoaded(h, s, code);
        hide Loaded;
        RunStraight(h, s', code[1..]);
      } else {
        assert code[1..] == [] && Run(h, s', 0) == (s', 0);
      }
    }
  }

  /** Register instructions act on the register file only. */
  lemma {:induction false} StraightRegs(h: Host, s: State, code: seq<Instr>)
    requires SpuIdioms.Registers(code)
    ensures Straight(h, s, code).gpr == SpuIdioms.Regs(s.gpr, code)
    ensures Straight(h, s, code).ls == s.ls
    decreases |code|
  {
    hide Compute;
    if code != [] {
      var i := code[|code| - 1];
      var init := code[..|code| - 1];
      StraightRegs(h, s, init);
      assert code == init + [i];
      StraightSnoc(h, s, init, i);
    }
  }

  lemma {:induction false} StraightSnoc(h: Host, s: State, code: seq<Instr>, i: Instr)
    requires forall j | j in code + [i] :: WellFormed(j)
    requires forall j | j in code :: WellFormed(j)
    requires WellFormed(i)
    ensures Straight(h, s, code + [i]) == Advance(h, Straight(h, s, code), i)
    decreases |code|
  {
    hide Advance, WellFormed;
    if code == [] {
      assert [i][1..] == [];
      assert code + [i] == [i];
    } else {
      assert (code + [i])[1..] == code[1..] + [i];
      StraightSnoc(h, Advance(h, s, code[0]), code[1..], i);
    }
  }

  lemma {:induction false} RegistersSpare(h: Host, s: State, code: seq<Instr>)
    requires SpuIdioms.Registers(code) && Assembled(code)
    ensures SparesRest(h, s, code) && forall i | i in code :: FallsThrough(i)
    decreases |code|
  {
    hide Advance, WellFormed, Assembles, Effective;
    if code != [] {
      assert code[0] in code && Pure(code[0]);
      RegistersSpare(h, Advance(h, s, code[0]), code[1..]);
    }
  }

  /** Loaded register code, run to its end, has the effect of its instructions in sequence. */
  lemma {:induction false} RunRegisters(h: Host, s: State, code: seq<Instr>)
    requires SpuIdioms.Registers(code) && Loaded(s, code) && s.running
    ensures var r := RunAll(h, s, code);
      r.1 == |code| && r.0.gpr == SpuIdioms.Regs(s.gpr, code) && r.0.ls == s.ls
  {
    assert Assembled(code);
    hide *;
    RegistersSpare(h, s, code);
    RunStraight(h, s, code);
    StraightRegs(h, s, code);
  }

  // ----- The idioms, as programs in local store -----

  lemma IdiomLengths(t: Reg, a: Reg, b: Reg, k: Reg)
    ensures |SpuIdioms.AddQuadword(t, a, b)| == 7 && |SpuIdioms.SubtractQuadword(t, a, b, k)| == 10
  {
  }

  lemma PairLength(byteOp: QuadOp, bitOp: QuadOp, t: Reg, a: Reg, c: Reg, c': Reg)
    ensures |SpuIdioms.ShiftPair(byteOp, bitOp, t, a, c, c')| == 2
    ensures SpuIdioms.Registers(SpuIdioms.ShiftPair(byteOp, bitOp, t, a, c, c'))
  {
  }

  lemma MultiplyLength(t: Reg, u: Reg, v: Reg, a: Reg, b: Reg)
    ensures |SpuIdioms.MultiplyWords(t, u, v, a, b)| == 5
  {
  }

  /** Seven instruction words that add two registers as 128-bit integers. */
  lemma AddQuadwordRuns(h: Host, s: State, t: Reg, a: Reg, b: Reg)
    requires a != t && b != t && s.running && Loaded(s, SpuIdioms.AddQuadword(t, a, b))
    ensures var r := RunAll(h, s, SpuIdioms.AddQuadword(t, a, b));
      r.1 == 7 && r.0.ls == s.ls &&
      Val(r.0.gpr[t]) == (Val(s.gpr[a]) + Val(s.gpr[b])) % TWO128 &&
      forall x: Reg :: x != t ==> r.0.gpr[x] == s.gpr[x]
  {
    hide *;
    var code := SpuIdioms.AddQuadword(t, a, b);
    IdiomLengths(t, a, b, t);
    RunRegisters(h, s, code);
    SpuIdioms.AddQuadwordAdds(s.gpr, t, a, b);
  }

  /** Ten instruction words that subtract one register from another. */
  lemma SubtractQuadwordRuns(h: Host, s: State, t: Reg, a: Reg, b: Reg, k: Reg)
    requires a != t && b != t && k != t && Words(s.gpr[k]) == [0, 0, 0, 1] && s.running
    requires Loaded(s, SpuIdioms.SubtractQuadword(t, a, b, k))
    ensures var r := RunAll(h, s, SpuIdioms.SubtractQuadword(t, a, b, k));
      r.1 == 10 && r.0.ls == s.ls &&
      Val(r.0.gpr[t]) == (Val(s.gpr[b]) - Val(s.gpr[a])) % TWO128 &&
      forall x: Reg :: x != t ==> r.0.gpr[x] == s.gpr[x]
  {
    hide *;
    var code := SpuIdioms.SubtractQuadword(t, a, b, k);
    IdiomLengths(t, a, b, k);
    RunRegisters(h, s, code);
    SpuIdioms.SubtractQuadwordSubtracts(s.gpr, t, a, b, k);
  }

  /** Two instruction words that shift a register left by up to 255 bits. */
  lemma ShiftLeftQuadwordRuns(h: Host, s: State, t: Reg, a: Reg, c: Reg)
    requires c != t && s.running && Loaded(s, SpuIdioms.ShiftPair(ShlByteBit, ShlBit, t, a, c, c))
    ensures var r := RunAll(h, s, SpuIdioms.ShiftPair(ShlByteBit, ShlBit, t, a, c, c));
      r.1 == 2 && r.0.ls == s.ls &&
      Val(r.0.gpr[t]) == Val(s.gpr[a]) * Pow2(GetW(s.gpr[c], 0) % 256) % TWO128 &&
      forall x: Reg :: x != t ==> r.0.gpr[x] == s.gpr[x]
  {
    hide *;
    PairLength(ShlByteBit, ShlBit, t, a, c, c);
    RunRegisters(h, s, SpuIdioms.ShiftPair(ShlByteBit, ShlBit, t, a, c, c));
    SpuIdioms.ShiftLeftQuadword(s.gpr, t, a, c);
  }

  /** Two instruction words that rotate a register by up to 127 bits. */
  lemma RotateQuadwordRuns(h: Host, s: State, t: Reg, a: Reg, c: Reg)
    requires c != t && s.running && Loaded(s, SpuIdioms.ShiftPair(RotByteBit, RotBit, t, a, c, c))
    ensures var r := RunAll(h, s, SpuIdioms.ShiftPair(RotByteBit, RotBit, t, a, c, c));
      r.1 == 2 && r.0.ls == s.ls &&
      Val(r.0.gpr[t]) == Wide.RotL(Val(s.gpr[a]), Pow2(GetW(s.gpr[c], 0) % 128), TWO128) &&
      forall x: Reg :: x != t ==> r.0.gpr[x] == s.gpr[x]
  {
    hide *;
    PairLength(RotByteBit, RotBit, t, a, c, c);
    RunRegisters(h, s, SpuIdioms.ShiftPair(RotByteBit, RotBit, t, a, c, c));
    SpuIdioms.RotateQuadword(s.gpr, t, a, c);
  }

  /** Two instruction words that shift a register right by up to 255 bits. */
  lemma {:induction false} ShiftRightQuadwordRuns(h: Host, s: State, t: Reg, a: Reg, c: Reg, c': Reg, n: word)
    requires c' != t && GetW(s.gpr[c], 0) == Wrap32(7 - n) && GetW(s.gpr[c'], 0) == Wrap32(-(n as int)) && s.running
    requires Loaded(s, SpuIdioms.ShiftPair(ShrByteBit, ShrBit, t, a, c, c'))
    ensures var r := RunAll(h, s, SpuIdioms.ShiftPair(ShrByteBit, ShrBit, t, a, c, c'));
      r.1 == 2 && r.0.ls == s.ls && Val(r.0.gpr[t]) == Val(s.gpr[a]) / Pow2(n % 256) &&
      forall x: Reg :: x != t ==> r.0.gpr[x] == s.gpr[x]
  {
    hide *;
    PairLength(ShrByteBit, ShrBit, t, a, c, c');
    RunRegisters(h, s, SpuIdioms.ShiftPair(ShrByteBit, ShrBit, t, a, c, c'));
    SpuIdioms.ShiftRightQuadword(s.gpr, t, a, c, c', n);
  }

  /** Five instruction words that multiply the four lanes of two registers. */
  lemma MultiplyWordsRuns(h: Host, s: State, t: Reg, u: Reg, v: Reg, a: Reg, b: Reg)
    requires t != u && t != v && u != v && a != t && a != u && b != t && b != u && s.running
    requires Loaded(s, SpuIdioms.MultiplyWords(t, u, v, a, b))
    ensures var r := RunAll(h, s, SpuIdioms.MultiplyWords(t, u, v, a, b));
      r.1 == 5 && r.0.ls == s.ls && (forall x: Reg :: x != t && x != u && x != v ==> r.0.gpr[x] == s.gpr[x]) &&
      forall i: nat :: i < 4 ==>
        GetW(r.0.gpr[t], i) == GetW(s.gpr[a], i) as int * GetW(s.gpr[b], i) as int % TWO32
  {
    hide RunAll, Loaded, GetW, SpuIdioms.Regs, SpuIdioms.MultiplyWords, SpuIdioms.Registers;
    var code := SpuIdioms.MultiplyWords(t, u, v, a, b);
    MultiplyLength(t, u, v, a, b);
    RunRegisters(h, s, code);
    forall i: nat | i < 4
      ensures GetW(SpuIdioms.Regs(s.gpr, code)[t], i) ==
        GetW(s.gpr[a], i) as int * GetW(s.gpr[b], i) as int % TWO32
    {
      SpuIdioms.MultiplyWordsMultiplies(s.gpr, t, u, v, a, b, i);
    }
    SpuIdioms.MultiplyWordsMultiplies(s.gpr, t, u, v, a, b, 0);
  }

  /** Four instruction words that store the leading bytes of a register into one element and
  leave every register but the two scratch registers alone. */
  lemma StoreElementAtRuns(h: Host, s: State, size: nat, src: Reg, t: Reg, c: Reg, q: Address, ra: Reg, b: Operand)
    requires ControlSize(size) && SpuInsert.ScratchApart(src, t, c, q, ra, b) && s.running
    requires Loaded(s, SpuInsert.StoreElementAt(size, src, t, c, q, ra, b))
    ensures var r := RunAll(h, s, SpuInsert.StoreElementAt(size, src, t, c, q, ra, b));
      var x := SpuInsert.ControlAddress(s.gpr, ra, b);
      var p := Effective(s.gpr, s.pc, q);
      var at := p + ElementStart(x, size);
      r.1 == 4 && at + size <= LS_SIZE && r.0.ls == Spliced(s.ls, at, s.gpr[src][..size]) &&
      (at == AlignDown(x % LS_SIZE, size) <==> p == QuadAddr(x)) &&
      forall r': Reg :: r' != t && r' != c ==> r.0.gpr[r'] == s.gpr[r']
  {
    hide *;
    var code := SpuInsert.StoreElementAt(size, src, t, c, q, ra, b);
    StoresLast(size, src, t, c, q, ra, b);
    LoadedCode(s, code);
    StoresLastSpares(h, s, code);
    RunStraight(h, s, code);
    SpuInsert.StoreElementAtStores(h, s, size, src, t, c, q, ra, b);
  }

  lemma StoresLast(size: nat, src: Reg, t: Reg, c: Reg, q: Address, ra: Reg, b: Operand)
    ensures var code := SpuInsert.StoreElementAt(size, src, t, c, q, ra, b);
      |code| == 4 && (forall k :: 0 <= k < |code| - 1 ==> !code[k].Store?) && forall i | i in code :: FallsThrough(i)
  {
  }

  /** With the indexed forms it is the addressed element. */
  lemma StoreElementRuns(h: Host, s: State, size: nat, src: Reg, t: Reg, c: Reg, ra: Reg, rb: Reg)
    requires ControlSize(size) && t != c && t !in {src, ra, rb} && c !in {src, ra, rb} && s.running
    requires Loaded(s, SpuInsert.StoreElement(size, src, t, c, ra, rb))
    ensures var r := RunAll(h, s, SpuInsert.StoreElement(size, src, t, c, ra, rb));
      var at := AlignDown(Wrap32(GetW(s.gpr[ra], 0) + GetW(s.gpr[rb], 0)) % LS_SIZE, size);
      r.1 == 4 && at + size <= LS_SIZE && r.0.ls == Spliced(s.ls, at, s.gpr[src][..size]) &&
      forall r': Reg :: r' != t && r' != c ==> r.0.gpr[r'] == s.gpr[r']
  {
    hide RunAll, Loaded, GetW, AlignDown, Wrap32, Spliced, ElementStart, QuadAddr;
    assert Effective(s.gpr, s.pc, Indexed(ra, rb)) == QuadAddr(SpuInsert.ControlAddress(s.gpr, ra, FromReg(rb)));
    StoreElementAtRuns(h, s, size, src, t, c, Indexed(ra, rb), ra, FromReg(rb));
  }

  /** With the displacement forms it is the element at displacement `i` from the base exactly
  when the quadword displacement matches. */
  lemma StoreElementDisplacedRuns(h: Host, s: State, size: nat, src: Reg, t: Reg, c: Reg, ra: Reg, d: word, i: word)
    requires ControlSize(size) && t != c && t !in {src, ra} && c !in {src, ra} && s.running
    requires Loaded(s, SpuInsert.StoreElementDisplaced(size, src, t, c, ra, d, i))
    ensures var r := RunAll(h, s, SpuInsert.StoreElementDisplaced(size, src, t, c, ra, d, i));
      var base := GetW(s.gpr[ra], 0);
      var at := QuadAddr(Wrap32(base + d)) + ElementStart(Wrap32(base + i), size);
      r.1 == 4 && at + size <= LS_SIZE && r.0.ls == Spliced(s.ls, at, s.gpr[src][..size]) &&
      (at == AlignDown(Wrap32(base + i) % LS_SIZE, size) <==> SpuInsert.Matches(base, d, i)) &&
      forall r': Reg :: r' != t && r' != c ==> r.0.gpr[r'] == s.gpr[r']
  {
    hide RunAll, GetW, AlignDown, Wrap32, Spliced, ElementStart, QuadAddr, SpuInsert.Matches;
    var code := SpuInsert.StoreElementDisplaced(size, src, t, c, ra, d, i);
    assert Assembles(code[0]) && Assembles(code[1]);
    assert DisplacementOk(d) && Signed(i, 0x80);
    hide Loaded, DisplacementOk, Signed;
    StoreElementAtRuns(h, s, size, src, t, c, Displaced(ra, d), ra, Immediate(i));
    SpuInsert.SameQuadwordIff(GetW(s.gpr[ra], 0), d, i);
  }

  /** Code whose only store is its last instruction cannot overwrite itself. */
  lemma {:induction false} StoresLastSpares(h: Host, s: State, code: seq<Instr>)
    requires Assembled(code) && forall k :: 0 <= k < |code| - 1 ==> !code[k].Store?
    ensures SparesRest(h, s, code)
    decreases |code|
  {
    hide Advance, WellFormed, Assembles, Effective;
    if code != [] {
      StoresLastSpares(h, Advance(h, s, code[0]), code[1..]);
    }
  }

  /** The four bytes of an instruction word. */
  function BytesOf(w: word): (bs: seq<byte>)
    ensures |bs| == 4
  {
    [WordByte(w, 0), WordByte(w, 1), WordByte(w, 2), WordByte(w, 3)]
  }

  /** Local store with the words of `code` written from `at` on. */
  function WithCode(ls: LocalStore, at: nat, code: seq<Instr>): LocalStore
    requires Assembled(code) && at + 4 * |code| <= LS_SIZE
    decreases |code|
  {
    if code == [] then ls else
      RestAssembled(code);
      Spliced(WithCode(ls, at + 4, code[1..]), at, BytesOf(Assemble(code[0])))
  }

  lemma {:induction false} WithCodeReads(ls: LocalStore, at: nat, code: seq<Instr>)
    requires Assembled(code) && at % 4 == 0 && at + 4 * |code| <= LS_SIZE
    ensures WordsAt(WithCode(ls, at, code), at, code)
    decreases |code|
  {
    hide Assemble, WellFormed, Assembles, Read32, BytesOf, Spliced;
    if code != [] {
      RestAssembled(code);
      var rest, w := WithCode(ls, at + 4, code[1..]), Assemble(code[0]);
      WithCodeReads(ls, at + 4, code[1..]);
      ReadWritten(rest, at, w);
      forall k: nat | k < |code|
        ensures Read32(WithCode(ls, at, code), at + 4 * k) == Assemble(code[k])
      {
        if k > 0 {
          var before := k - 1;
          assert code[1..][before] == code[k] && at + 4 + 4 * before == at + 4 * k;
          ReadBeside(rest, at, w, at + 4 * k);
        }
      }
    }
  }

  lemma ReadWritten(ls: LocalStore, at: nat, w: word)
    requires at % 4 == 0 && at + 4 <= LS_SIZE
    ensures Read32(Spliced(ls, at, BytesOf(w)), at) == w
  {
    var r := Spliced(ls, at, BytesOf(w));
    assert AlignDown(at % LS_SIZE, 4) == at;
    assert forall j :: 0 <= j < 4 ==> r[at + j] == BytesOf(w)[j];
    WordSplit(w);
  }

  lemma ReadBeside(ls: LocalStore, at: nat, w: word, a: nat)
    requires at % 4 == 0 && a % 4 == 0 && at + 4 <= a && a + 4 <= LS_SIZE
    ensures Read32(Spliced(ls, at, BytesOf(w)), a) == Read32(ls, a)
  {
    assert AlignDown(a % LS_SIZE, 4) == a;
  }

  /** Any code of the assembler can be loaded, wherever it fits. */
  lemma {:induction false} CodeLoads(s: State, code: seq<Instr>)
    requires Assembled(code) && SpuRuns.AlignedPc(s.pc) && s.pc + 4 * |code| <= LS_SIZE && Unpatched(s, |code|)
    ensures Loaded(s.(ls := WithCode(s.ls, s.pc, code)), code)
  {
    hide Assembled, WithCode, WordsAt;
    WithCodeReads(s.ls, s.pc, code);
  }

  /** Two halves of a quadword shift or rotate. */
  predicate Pairs(byteOp: QuadOp, bitOp: QuadOp) {
    (byteOp == ShlByteBit && bitOp == ShlBit) || (byteOp == RotByteBit && bitOp == RotBit) ||
    (byteOp == ShrByteBit && bitOp == ShrBit)
  }

  /** The idioms can be loaded, whatever registers they use. */
  lemma IdiomsLoad(s: State, t: Reg, u: Reg, v: Reg, a: Reg, b: Reg, k: Reg, byteOp: QuadOp, bitOp: QuadOp)
    requires Pairs(byteOp, bitOp) && SpuRuns.AlignedPc(s.pc) && s.pc + 40 <= LS_SIZE && Unpatched(s, 10)
    ensures forall code |
      code in {SpuIdioms.AddQuadword(t, a, b), SpuIdioms.SubtractQuadword(t, a, b, k),
               SpuIdioms.MultiplyWords(t, u, v, a, b), SpuIdioms.ShiftPair(byteOp, bitOp, t, a, b, k)} ::
      Assembled(code) && s.pc + 4 * |code| <= LS_SIZE && Loaded(s.(ls := WithCode(s.ls, s.pc, code)), code)
  {
    IdiomLengths(t, a, b, k);
    MultiplyLength(t, u, v, a, b);
    PairLength(byteOp, bitOp, t, a, b, k);
    IdiomsAssemble(t, u, v, a, b, k, byteOp, bitOp);
    hide Assembled, Loaded, WithCode;
    hide SpuIdioms.AddQuadword, SpuIdioms.SubtractQuadword, SpuIdioms.MultiplyWords, SpuIdioms.ShiftPair;
    CodeLoads(s, SpuIdioms.AddQuadword(t, a, b));
    CodeLoads(s, SpuIdioms.SubtractQuadword(t, a, b, k));
    CodeLoads(s, SpuIdioms.MultiplyWords(t, u, v, a, b));
    CodeLoads(s, SpuIdioms.ShiftPair(byteOp, bitOp, t, a, b, k));
  }

  /** The idioms have instruction words, whatever registers they use. */
  lemma IdiomsAssemble(t: Reg, u: Reg, v: Reg, a: Reg, b: Reg, k: Reg, byteOp: QuadOp, bitOp: QuadOp)
    requires Pairs(byteOp, bitOp)
    ensures Assembled(SpuIdioms.AddQuadword(t, a, b)) && Assembled(SpuIdioms.SubtractQuadword(t, a, b, k))
    ensures Assembled(SpuIdioms.MultiplyWords(t, u, v, a, b))
    ensures Assembled(SpuIdioms.ShiftPair(byteOp, bitOp, t, a, b, k))
  {
    hide Decode;
  }

  /** So can the store of an element, at any address that the instructions can hold. */
  lemma StoreElementLoads(s: State, size: nat, src: Reg, t: Reg, c: Reg, q: Address, ra: Reg, b: Operand)
    requires ControlSize(size) && AddressOk(q) && (b.Immediate? ==> Signed(b.v, 0x80))
    requires SpuRuns.AlignedPc(s.pc) && s.pc + 16 <= LS_SIZE && Unpatched(s, 4)
    ensures var code := SpuInsert.StoreElementAt(size, src, t, c, q, ra, b);
      Assembled(code) && s.pc + 4 * |code| <= LS_SIZE && Loaded(s.(ls := WithCode(s.ls, s.pc, code)), code)
  {
    var code := SpuInsert.StoreElementAt(size, src, t, c, q, ra, b);
    assert Assembled(code) && |code| == 4;
    hide Assembled, Loaded, WithCode, SpuInsert.StoreElementAt;
    CodeLoads(s, code);
  }
}
