/** Instruction idioms of SPU code: several opcodes whose joint effect is one operation on
128-bit or 32-bit integers, or on single bytes of a quadword. */
module SpuIdioms {
  import opened Bits
  import opened Quad
  import opened Lanes
  import opened Spu
  import Wide

  predicate Registers(code: seq<Instr>) {
    forall i | i in code :: WellFormed(i) && Pure(i)
  }

  /** The register file after a straight-line sequence of register instructions. */
  function Regs(g: RegFile, code: seq<Instr>): RegFile
    requires Registers(code)
  {
    if code == [] then g else
      assert code[|code| - 1] in code;
      Then(Regs(g, code[..|code| - 1]), code[|code| - 1])
  }

  function Then(g: RegFile, i: Instr): RegFile
    requires WellFormed(i) && Pure(i)
  {
    g[i.rt := Compute(i, g)]
  }

  lemma {:induction false} RegsThen(g: RegFile, code: seq<Instr>, i: Instr)
    requires Registers(code) && WellFormed(i) && Pure(i)
    ensures Registers(code + [i]) && Regs(g, code + [i]) == Then(Regs(g, code), i)
  {
    var js := code + [i];
    assert js[..|js| - 1] == code && js[|js| - 1] == i;
    hide Then;
  }

  // ----- Words of a result -----

  function Lanewise(op: WordOp, x: seq<word>, y: seq<word>, t: seq<word>): (r: seq<word>)
    requires |x| == 4 && |y| == 4 && |t| == 4
    ensures |r| == 4
  {
    [EvalW(op, x[0], y[0], t[0]), EvalW(op, x[1], y[1], t[1]), EvalW(op, x[2], y[2], t[2]), EvalW(op, x[3], y[3], t[3])]
  }

  lemma WordsOfResult(op: WordOp, g: RegFile, rt: Reg, ra: Reg, rb: Reg)
    ensures Words(Compute(WordLanes(op, rt, ra, FromReg(rb)), g)) ==
      Lanewise(op, Words(g[ra]), Words(g[rb]), Words(g[rt]))
  {
    hide EvalW, GetW, OfWords;
    WordsOfWords(Lanewise(op, Words(g[ra]), Words(g[rb]), Words(g[rt])));
  }

  /** `shlqbyi rt, ra, 4` moves every word one lane up. */
  lemma WordsShiftedUp(q: Quad)
    ensures Words(Shifts.ShlBytes(q, 4)) == [GetW(q, 1), GetW(q, 2), GetW(q, 3), 0]
  {
    var r := Shifts.ShlBytes(q, 4);
    assert r == q[4..] + Zeros(4);
    assert GetW(r, 0) == GetW(q, 1) && GetW(r, 1) == GetW(q, 2) && GetW(r, 2) == GetW(q, 3) && GetW(r, 3) == 0;
  }

  // ----- Carry chains -----

  function CarryOut(x: word, y: word, c: nat): (r: nat)
    requires c <= 1
    ensures r <= 1
  {
    (x + y + c) / TWO32
  }

  /** Adding lane by lane with the carry of the lane below is adding the 128-bit numbers. */
  lemma RippleCarry(x: seq<word>, y: seq<word>, c: nat, r: seq<word>)
    requires |x| == 4 && |y| == 4 && |r| == 4 && c <= 1
    requires var c3 := CarryOut(x[3], y[3], c); var c2 := CarryOut(x[2], y[2], c3); var c1 := CarryOut(x[1], y[1], c2);
      r == [Wrap32(x[0] + y[0] + c1), Wrap32(x[1] + y[1] + c2), Wrap32(x[2] + y[2] + c3), Wrap32(x[3] + y[3] + c)]
    ensures ValOfWords(r) == (ValOfWords(x) + ValOfWords(y) + c) % TWO128
  {
    var c3 := CarryOut(x[3], y[3], c);
    var c2 := CarryOut(x[2], y[2], c3);
    var c1 := CarryOut(x[1], y[1], c2);
    var c0 := CarryOut(x[0], y[0], c1);
    assert x[3] + y[3] + c == c3 * TWO32 + r[3];
    assert x[2] + y[2] + c3 == c2 * TWO32 + r[2];
    assert x[1] + y[1] + c2 == c1 * TWO32 + r[1];
    assert x[0] + y[0] + c1 == c0 * TWO32 + r[0];
    assert ValOfWords(x) + ValOfWords(y) + c == c0 * TWO128 + ValOfWords(r);
    assert 0 <= ValOfWords(r) < TWO128;
    hide *;
    DivUnique(ValOfWords(x) + ValOfWords(y) + c, TWO128, c0, ValOfWords(r));
  }

  function UpShift(t: Reg): Instr { ShiftQuad(ShlByte, t, t, Immediate(4)) }

  function RR(op: WordOp, rt: Reg, ra: Reg, rb: Reg): Instr { WordLanes(op, rt, ra, FromReg(rb)) }

  function OrRR(rt: Reg, ra: Reg, rb: Reg): Instr { ByteLanes(BOr, rt, ra, FromReg(rb)) }

  /** The words of `t` are `w`, and every other register is as in `g0`. */
  predicate Holds(g: RegFile, g0: RegFile, t: Reg, w: seq<word>) {
    Words(g[t]) == w && forall r: Reg :: r != t ==> g[r] == g0[r]
  }

  /** The words of a register moved one lane up, with `low` entering the last lane. */
  function Up(w: seq<word>, low: word): seq<word>
    requires |w| == 4
  {
    [w[1], w[2], w[3], low]
  }

  lemma ThenLanewise(op: WordOp, g: RegFile, g0: RegFile, t: Reg, a: Reg, b: Reg, w: seq<word>)
    requires a != t && b != t && |w| == 4 && Holds(g, g0, t, w)
    ensures Holds(Then(g, RR(op, t, a, b)), g0, t, Lanewise(op, Words(g0[a]), Words(g0[b]), w))
  {
    WordsOfResult(op, g, t, a, b);
    hide Compute, Words, Lanewise;
  }

  lemma ComputeUp(g: RegFile, t: Reg)
    ensures Compute(UpShift(t), g) == Shifts.ShlBytes(g[t], 4)
  {
    hide Shifts.ShlBytes, Shifts.ShrBytes, Shifts.RotBytes, Shifts.ShlBits, Shifts.ShrBits, Shifts.RotBits;
  }

  lemma ComputeOr(g: RegFile, rt: Reg, ra: Reg, rb: Reg, i: nat)
    requires i < 16
    ensures Compute(OrRR(rt, ra, rb), g)[i] == EvalB(BOr, g[ra][i], g[rb][i], 0)
  {
    hide EvalB;
  }

  lemma ThenUp(g: RegFile, g0: RegFile, t: Reg, w: seq<word>)
    requires |w| == 4 && Holds(g, g0, t, w)
    ensures Holds(Then(g, UpShift(t)), g0, t, Up(w, 0))
  {
    hide Compute, GetW, Shifts.ShlBytes;
    ComputeUp(g, t);
    WordsShiftedUp(g[t]);
    assert Up(w, 0) == [GetW(g[t], 1), GetW(g[t], 2), GetW(g[t], 3), 0] by { assert Words(g[t]) == w; }
    hide Words;
  }

  lemma ThenCarryIn(g: RegFile, g0: RegFile, t: Reg, k: Reg, w: seq<word>)
    requires k != t && |w| == 4 && w[3] == 0 && Holds(g, g0, t, w) && Words(g0[k]) == [0, 0, 0, 1]
    ensures Holds(Then(g, OrRR(t, t, k)), g0, t, w[3 := 1])
  {
    var q := Compute(OrRR(t, t, k), g);
    hide Compute, EvalB;
    forall i | 0 <= i < 16
      ensures q[i] == EvalB(BOr, g[t][i], g[k][i], 0)
    {
      ComputeOr(g, t, t, k, i);
    }
    assert GetW(g[t], 3) == 0 by { assert Words(g[t])[3] == 0; }
    hide Words;
    OrOne(g[t], g[k], q);
  }

  lemma OrZero(x: byte)
    ensures EvalB(BOr, x, 0, 0) == x && EvalB(BOr, 0, x, 0) == x
  {
  }

  /** Or-ing the integer 1 into a register whose last word is zero. */
  lemma OrOne(q: Quad, one: Quad, r: Quad)
    requires GetW(q, 3) == 0 && Words(one) == [0, 0, 0, 1]
    requires forall i :: 0 <= i < 16 ==> r[i] == EvalB(BOr, q[i], one[i], 0)
    ensures Words(r) == Words(q)[3 := 1]
  {
    hide *;
    BytesOfOne(one);
    BytesOfZero(q, 3);
    forall i | 0 <= i < 16
      ensures r[i] == if i == 15 then 1 else q[i]
    {
      OrZero(if i == 15 then one[i] else q[i]);
    }
    LastByteSet(q, r);
  }

  lemma BytesOfZero(q: Quad, k: nat)
    requires k < 4 && GetW(q, k) == 0
    ensures q[4 * k] == 0 && q[4 * k + 1] == 0 && q[4 * k + 2] == 0 && q[4 * k + 3] == 0
  {
  }

  lemma BytesOfOne(one: Quad)
    requires Words(one) == [0, 0, 0, 1]
    ensures forall i :: 0 <= i < 16 ==> one[i] == if i == 15 then 1 else 0
  {
    WordsAt(one);
    hide *;
    BytesOfZero(one, 0);
    BytesOfZero(one, 1);
    BytesOfZero(one, 2);
    LastByteOne(one);
  }

  lemma WordsAt(q: Quad)
    ensures forall i :: 0 <= i < 4 ==> GetW(q, i) == Words(q)[i]
  {
    hide GetW;
  }

  lemma LastByteOne(one: Quad)
    requires GetW(one, 3) == 1
    ensures one[12] == 0 && one[13] == 0 && one[14] == 0 && one[15] == 1
  {
  }

  lemma LastByteSet(q: Quad, r: Quad)
    requires q[12] == 0 && q[13] == 0 && q[14] == 0
    requires forall i :: 0 <= i < 16 ==> r[i] == if i == 15 then 1 else q[i]
    ensures Words(r) == Words(q)[3 := 1]
  {
    assert GetW(r, 0) == GetW(q, 0) && GetW(r, 1) == GetW(q, 1) && GetW(r, 2) == GetW(q, 2) && GetW(r, 3) == 1;
  }

  // ----- 128-bit addition -----

  /** shlqbyi t,t,4; op t,a,b */
  function Round(op: WordOp, t: Reg, a: Reg, b: Reg): seq<Instr> { [UpShift(t), RR(op, t, a, b)] }

  /** cg t,a,b; shlqbyi t,t,4; cgx t,a,b; shlqbyi t,t,4; cgx t,a,b; shlqbyi t,t,4; addx t,a,b */
  function AddQuadword(t: Reg, a: Reg, b: Reg): (code: seq<Instr>)
    ensures Registers(code)
  {
    [RR(WCarry, t, a, b)] + Round(WCgx, t, a, b) + Round(WCgx, t, a, b) + Round(WAddx, t, a, b)
  }

  lemma {:induction false} AfterUp(g0: RegFile, code: seq<Instr>, t: Reg, w: seq<word>)
    requires Registers(code) && |w| == 4 && Holds(Regs(g0, code), g0, t, w)
    ensures Registers(code + [UpShift(t)]) && Holds(Regs(g0, code + [UpShift(t)]), g0, t, Up(w, 0))
  {
    RegsThen(g0, code, UpShift(t));
    hide Regs, Then, Holds;
    ThenUp(Regs(g0, code), g0, t, w);
  }

  lemma {:induction false} AfterLanewise(g0: RegFile, code: seq<Instr>, op: WordOp, t: Reg, a: Reg, b: Reg,
                                         w: seq<word>)
    requires Registers(code) && a != t && b != t && |w| == 4 && Holds(Regs(g0, code), g0, t, w)
    ensures Registers(code + [RR(op, t, a, b)])
    ensures Holds(Regs(g0, code + [RR(op, t, a, b)]), g0, t, Lanewise(op, Words(g0[a]), Words(g0[b]), w))
  {
    RegsThen(g0, code, RR(op, t, a, b));
    hide Regs, Then, Holds, Lanewise, Words;
    ThenLanewise(op, Regs(g0, code), g0, t, a, b, w);
  }

  lemma {:induction false} AfterRound(g0: RegFile, code: seq<Instr>, op: WordOp, t: Reg, a: Reg, b: Reg, w: seq<word>)
    requires Registers(code) && a != t && b != t && |w| == 4 && Holds(Regs(g0, code), g0, t, w)
    ensures Registers(code + Round(op, t, a, b))
    ensures Holds(Regs(g0, code + Round(op, t, a, b)), g0, t, Lanewise(op, Words(g0[a]), Words(g0[b]), Up(w, 0)))
  {
    var shifted := code + [UpShift(t)];
    assert code + Round(op, t, a, b) == shifted + [RR(op, t, a, b)];
    hide *;
    AfterUp(g0, code, t, w);
    AfterLanewise(g0, shifted, op, t, a, b, Up(w, 0));
  }

  lemma {:induction false} AfterFirst(g0: RegFile, op: WordOp, t: Reg, a: Reg, b: Reg)
    requires a != t && b != t
    ensures Registers([RR(op, t, a, b)])
    ensures Holds(Regs(g0, [RR(op, t, a, b)]), g0, t, Lanewise(op, Words(g0[a]), Words(g0[b]), Words(g0[t])))
  {
    var i := RR(op, t, a, b);
    hide Then, Lanewise, Words;
    assert [] + [i] == [i];
    RegsThen(g0, [], i);
    assert Regs(g0, []) == g0;
    assert Holds(g0, g0, t, Words(g0[t]));
    hide Regs, Holds;
    ThenLanewise(op, g0, g0, t, a, b, Words(g0[t]));
  }

  /** The sequence adds two registers as 128-bit integers and changes nothing but its target. */
  lemma {:induction false} AddQuadwordAdds(g: RegFile, t: Reg, a: Reg, b: Reg)
    requires a != t && b != t
    ensures Val(Regs(g, AddQuadword(t, a, b))[t]) == (Val(g[a]) + Val(g[b])) % TWO128
    ensures forall r: Reg :: r != t ==> Regs(g, AddQuadword(t, a, b))[r] == g[r]
  {
    hide Lanewise, Val, Words, ValOfWords, Regs, AddQuadword;
    var x, y := Words(g[a]), Words(g[b]);
    var w0 := Lanewise(WCarry, x, y, Words(g[t]));
    var w1 := Lanewise(WCgx, x, y, Up(w0, 0));
    var w2 := Lanewise(WCgx, x, y, Up(w1, 0));
    var w3 := Lanewise(WAddx, x, y, Up(w2, 0));
    CarriesSettle(x, y, w0, w1, w2, w3, Words(g[t]));
    AddTrace(g, t, a, b, w0, w1, w2);
    ValByWords(g[a]);
    ValByWords(g[b]);
    ValByWords(Regs(g, AddQuadword(t, a, b))[t]);
  }

  lemma {:induction false} AddTrace(g: RegFile, t: Reg, a: Reg, b: Reg, w0: seq<word>, w1: seq<word>, w2: seq<word>)
    requires a != t && b != t
    requires w0 == Lanewise(WCarry, Words(g[a]), Words(g[b]), Words(g[t]))
    requires w1 == Lanewise(WCgx, Words(g[a]), Words(g[b]), Up(w0, 0))
    requires w2 == Lanewise(WCgx, Words(g[a]), Words(g[b]), Up(w1, 0))
    ensures Holds(Regs(g, AddQuadword(t, a, b)), g, t, Lanewise(WAddx, Words(g[a]), Words(g[b]), Up(w2, 0)))
  {
    hide Lanewise, Words, Regs, Holds, Round;
    var p0 := [RR(WCarry, t, a, b)];
    AfterFirst(g, WCarry, t, a, b);
    AfterRound(g, p0, WCgx, t, a, b, w0);
    AfterRound(g, p0 + Round(WCgx, t, a, b), WCgx, t, a, b, w1);
    AfterRound(g, p0 + Round(WCgx, t, a, b) + Round(WCgx, t, a, b), WAddx, t, a, b, w2);
  }

  /** `cg` ignores the third operand; `cgx` and `addx` take their carry-in from it. */
  lemma EvalCarry(x: word, y: word, t: word, c: nat)
    requires c <= 1
    ensures EvalW(WCarry, x, y, t) == CarryOut(x, y, 0)
    ensures t == c ==> EvalW(WCgx, x, y, t) == CarryOut(x, y, c) && EvalW(WAddx, x, y, t) == Wrap32(x + y + c)
  {
  }

  /** Two rounds of carry propagation are enough for four lanes. */
  lemma CarriesSettle(x: seq<word>, y: seq<word>,
                      w0: seq<word>, w1: seq<word>, w2: seq<word>, w3: seq<word>, t: seq<word>)
    requires |x| == 4 && |y| == 4 && |t| == 4
    requires w0 == Lanewise(WCarry, x, y, t) && w1 == Lanewise(WCgx, x, y, Up(w0, 0))
    requires w2 == Lanewise(WCgx, x, y, Up(w1, 0)) && w3 == Lanewise(WAddx, x, y, Up(w2, 0))
    ensures ValOfWords(w3) == (ValOfWords(x) + ValOfWords(y)) % TWO128
  {
    hide EvalW, CarryOut, ValOfWords;
    var c3 := CarryOut(x[3], y[3], 0);
    var c2 := CarryOut(x[2], y[2], c3);
    var c1 := CarryOut(x[1], y[1], c2);
    EvalCarry(x[3], y[3], t[3], 0);
    EvalCarry(x[2], y[2], w0[3], c3);
    EvalCarry(x[3], y[3], 0, 0);
    assert w0[3] == c3 && w1[3] == c3 && w2[3] == c3;
    assert w1[2] == c2 && w2[2] == c2;
    EvalCarry(x[1], y[1], c2, c2);
    assert w2[1] == c1;
    EvalCarry(x[0], y[0], c1, c1);
    EvalCarry(x[2], y[2], c3, c3);
    RippleCarry(x, y, 0, w3);
  }

  // ----- 128-bit subtraction -----

  /** shlqbyi t,t,4; or t,t,k; op t,a,b, where `k` holds the integer 1 */
  function BorrowRound(op: WordOp, t: Reg, a: Reg, b: Reg, k: Reg): seq<Instr> {
    [UpShift(t), OrRR(t, t, k), RR(op, t, a, b)]
  }

  /** bg t,a,b; two rounds of bgx; one of sfx */
  function SubtractQuadword(t: Reg, a: Reg, b: Reg, k: Reg): (code: seq<Instr>)
    ensures Registers(code)
  {
    [RR(WBorrow, t, a, b)] +
    BorrowRound(WBgx, t, a, b, k) + BorrowRound(WBgx, t, a, b, k) + BorrowRound(WSfx, t, a, b, k)
  }

  lemma {:induction false} AfterBorrowRound(g0: RegFile, code: seq<Instr>, op: WordOp, t: Reg, a: Reg, b: Reg,
                                            k: Reg, w: seq<word>)
    requires Registers(code) && a != t && b != t && k != t && |w| == 4 && Holds(Regs(g0, code), g0, t, w)
    requires Words(g0[k]) == [0, 0, 0, 1]
    ensures Registers(code + BorrowRound(op, t, a, b, k))
    ensures Holds(Regs(g0, code + BorrowRound(op, t, a, b, k)), g0, t,
                  Lanewise(op, Words(g0[a]), Words(g0[b]), Up(w, 1)))
  {
    var shifted := code + [UpShift(t)];
    var carried := shifted + [OrRR(t, t, k)];
    assert code + BorrowRound(op, t, a, b, k) == carried + [RR(op, t, a, b)];
    assert Up(w, 0)[3 := 1] == Up(w, 1) && Up(w, 0)[3] == 0;
    hide *;
    AfterUp(g0, code, t, w);
    AfterCarryIn(g0, shifted, t, k, Up(w, 0));
    AfterLanewise(g0, carried, op, t, a, b, Up(w, 1));
  }

  lemma {:induction false} AfterCarryIn(g0: RegFile, code: seq<Instr>, t: Reg, k: Reg, w: seq<word>)
    requires Registers(code) && k != t && |w| == 4 && w[3] == 0 && Holds(Regs(g0, code), g0, t, w)
    requires Words(g0[k]) == [0, 0, 0, 1]
    ensures Registers(code + [OrRR(t, t, k)]) && Holds(Regs(g0, code + [OrRR(t, t, k)]), g0, t, w[3 := 1])
  {
    RegsThen(g0, code, OrRR(t, t, k));
    hide Regs, Then, Holds, Words;
    ThenCarryIn(Regs(g0, code), g0, t, k, w);
  }

  /** The sequence subtracts RA from RB as 128-bit integers and changes nothing but its target. */
  lemma {:induction false} SubtractQuadwordSubtracts(g: RegFile, t: Reg, a: Reg, b: Reg, k: Reg)
    requires a != t && b != t && k != t && Words(g[k]) == [0, 0, 0, 1]
    ensures Val(Regs(g, SubtractQuadword(t, a, b, k))[t]) == (Val(g[b]) - Val(g[a])) % TWO128
    ensures forall r: Reg :: r != t ==> Regs(g, SubtractQuadword(t, a, b, k))[r] == g[r]
  {
    hide Lanewise, Val, Words, ValOfWords, Regs, SubtractQuadword;
    var x, y := Words(g[a]), Words(g[b]);
    var w0 := Lanewise(WBorrow, x, y, Words(g[t]));
    var w1 := Lanewise(WBgx, x, y, Up(w0, 1));
    var w2 := Lanewise(WBgx, x, y, Up(w1, 1));
    var w3 := Lanewise(WSfx, x, y, Up(w2, 1));
    BorrowsSettle(x, y, w0, w1, w2, w3, Words(g[t]));
    SubtractTrace(g, t, a, b, k, w0, w1, w2);
    ValByWords(g[a]);
    ValByWords(g[b]);
    ValByWords(Regs(g, SubtractQuadword(t, a, b, k))[t]);
  }

  lemma {:induction false} SubtractTrace(g: RegFile, t: Reg, a: Reg, b: Reg, k: Reg, w0: seq<word>,
                                         w1: seq<word>, w2: seq<word>)
    requires a != t && b != t && k != t && Words(g[k]) == [0, 0, 0, 1]
    requires w0 == Lanewise(WBorrow, Words(g[a]), Words(g[b]), Words(g[t]))
    requires w1 == Lanewise(WBgx, Words(g[a]), Words(g[b]), Up(w0, 1))
    requires w2 == Lanewise(WBgx, Words(g[a]), Words(g[b]), Up(w1, 1))
    ensures Holds(Regs(g, SubtractQuadword(t, a, b, k)), g, t, Lanewise(WSfx, Words(g[a]), Words(g[b]), Up(w2, 1)))
  {
    hide Lanewise, Words, Regs, Holds, BorrowRound;
    var p0 := [RR(WBorrow, t, a, b)];
    AfterFirst(g, WBorrow, t, a, b);
    AfterBorrowRound(g, p0, WBgx, t, a, b, k, w0);
    AfterBorrowRound(g, p0 + BorrowRound(WBgx, t, a, b, k), WBgx, t, a, b, k, w1);
    AfterBorrowRound(g, p0 + BorrowRound(WBgx, t, a, b, k) + BorrowRound(WBgx, t, a, b, k), WSfx, t, a, b, k, w2);
  }

  /** `bg`, `bgx` and `sfx` are the carry operations on RB and the complement of RA. */
  lemma EvalBorrow(x: word, y: word, t: word, c: nat)
    requires c <= 1
    ensures EvalW(WBorrow, x, y, t) == CarryOut(y, Not32(x), 1)
    ensures t == c ==> EvalW(WBgx, x, y, t) == CarryOut(y, Not32(x), c)
    ensures t == c ==> EvalW(WSfx, x, y, t) == Wrap32(y + Not32(x) + c)
  {
  }

  function Complement(x: seq<word>): (r: seq<word>)
    requires |x| == 4
    ensures |r| == 4
  {
    [Not32(x[0]), Not32(x[1]), Not32(x[2]), Not32(x[3])]
  }

  lemma ComplementVal(x: seq<word>)
    requires |x| == 4
    ensures ValOfWords(Complement(x)) == TWO128 - 1 - ValOfWords(x)
  {
  }

  lemma BorrowsSettle(x: seq<word>, y: seq<word>,
                      w0: seq<word>, w1: seq<word>, w2: seq<word>, w3: seq<word>, t: seq<word>)
    requires |x| == 4 && |y| == 4 && |t| == 4
    requires w0 == Lanewise(WBorrow, x, y, t) && w1 == Lanewise(WBgx, x, y, Up(w0, 1))
    requires w2 == Lanewise(WBgx, x, y, Up(w1, 1)) && w3 == Lanewise(WSfx, x, y, Up(w2, 1))
    ensures ValOfWords(w3) == (ValOfWords(y) - ValOfWords(x)) % TWO128
  {
    hide EvalW, CarryOut, ValOfWords, Not32;
    var n := Complement(x);
    var c3 := CarryOut(y[3], n[3], 1);
    var c2 := CarryOut(y[2], n[2], c3);
    var c1 := CarryOut(y[1], n[1], c2);
    EvalBorrow(x[3], y[3], t[3], 1);
    EvalBorrow(x[2], y[2], w0[3], c3);
    EvalBorrow(x[3], y[3], 1, 1);
    assert w0[3] == c3 && w1[3] == c3 && w2[3] == c3;
    assert w1[2] == c2 && w2[2] == c2;
    EvalBorrow(x[1], y[1], c2, c2);
    assert w2[1] == c1;
    EvalBorrow(x[0], y[0], c1, c1);
    EvalBorrow(x[2], y[2], c3, c3);
    RippleCarry(y, n, 1, w3);
    ComplementVal(x);
    ModShift(ValOfWords(y) - ValOfWords(x));
  }

  lemma ModShift(d: int)
    ensures (d + TWO128) % TWO128 == d % TWO128
  {
  }

  // ----- 128-bit shifts -----

  /** A byte shift and a bit shift of `a` into `t`, with counts taken from two registers. */
  function ShiftPair(byteOp: QuadOp, bitOp: QuadOp, t: Reg, a: Reg, c: Reg, c': Reg): (code: seq<Instr>)
    ensures Registers(code)
  {
    [ShiftQuad(byteOp, t, a, FromReg(c)), ShiftQuad(bitOp, t, t, FromReg(c'))]
  }

  lemma ComputeShift(op: QuadOp, g: RegFile, t: Reg, a: Reg, c: Reg)
    ensures Compute(ShiftQuad(op, t, a, FromReg(c)), g) == ShiftQ(op, g[a], GetW(g[c], 0))
  {
    hide ShiftQ, GetW;
  }

  lemma {:induction false} ShiftPairResult(byteOp: QuadOp, bitOp: QuadOp, g: RegFile, t: Reg, a: Reg, c: Reg, c': Reg)
    requires c' != t
    ensures var g' := Regs(g, ShiftPair(byteOp, bitOp, t, a, c, c'));
      g' == g[t := ShiftQ(bitOp, ShiftQ(byteOp, g[a], GetW(g[c], 0)), GetW(g[c'], 0))]
  {
    hide Compute, ShiftQ, GetW;
    var i, j := ShiftQuad(byteOp, t, a, FromReg(c)), ShiftQuad(bitOp, t, t, FromReg(c'));
    assert ShiftPair(byteOp, bitOp, t, a, c, c') == ([] + [i]) + [j];
    RegsThen(g, [], i);
    RegsThen(g, [] + [i], j);
    ComputeShift(byteOp, g, t, a, c);
    ComputeShift(bitOp, Then(g, i), t, t, c');
  }

  lemma CountParts(w: word)
    ensures w % 256 / 8 == w / 8 % 32 && w % 256 % 8 == w % 8
    ensures w % 128 / 8 == w / 8 % 16 && w % 128 % 8 == w % 8
  {
    var n, k := w / 8, w % 8;
    var hi, mid := n / 16, n % 16;
    var top, bit := hi / 2, hi % 2;
    assert w == top * 256 + (bit * 128 + mid * 8 + k);
    assert w == hi * 128 + (mid * 8 + k);
    DivUnique(w, 256, top, bit * 128 + mid * 8 + k);
    DivUnique(w, 128, hi, mid * 8 + k);
    DivUnique(n, 32, top, bit * 16 + mid);
  }

  /** shlqbybi t,a,c; shlqbi t,t,c */
  lemma {:induction false} ShiftLeftQuadword(g: RegFile, t: Reg, a: Reg, c: Reg)
    requires c != t
    ensures var w := GetW(g[c], 0) % 256;
      Val(Regs(g, ShiftPair(ShlByteBit, ShlBit, t, a, c, c))[t]) == Val(g[a]) * Pow2(w) % TWO128
    ensures forall r: Reg :: r != t ==> Regs(g, ShiftPair(ShlByteBit, ShlBit, t, a, c, c))[r] == g[r]
  {
    hide Regs, ShiftPair, ShiftQ, Val, GetW;
    ShiftPairResult(ShlByteBit, ShlBit, g, t, a, c, c);
    ShiftLeftValue(g[a], GetW(g[c], 0));
  }

  lemma {:induction false} ShiftLeftValue(q: Quad, w: word)
    ensures Val(ShiftQ(ShlBit, ShiftQ(ShlByteBit, q, w), w)) == Val(q) * Pow2(w % 256) % TWO128
  {
    hide Val, Pow2, Shifts.ShlBits, Shifts.ShlBytes;
    CountParts(w);
    Wide.ShlWide(q, w % 256);
  }

  /** rotqbybi t,a,c; rotqbi t,t,c */
  lemma {:induction false} RotateQuadword(g: RegFile, t: Reg, a: Reg, c: Reg)
    requires c != t
    ensures var w := GetW(g[c], 0) % 128;
      Val(Regs(g, ShiftPair(RotByteBit, RotBit, t, a, c, c))[t]) == Wide.RotL(Val(g[a]), Pow2(w), TWO128)
    ensures forall r: Reg :: r != t ==> Regs(g, ShiftPair(RotByteBit, RotBit, t, a, c, c))[r] == g[r]
  {
    hide Regs, ShiftPair, ShiftQ, Val, GetW, Wide.RotL;
    ShiftPairResult(RotByteBit, RotBit, g, t, a, c, c);
    RotateValue(g[a], GetW(g[c], 0));
  }

  lemma {:induction false} RotateValue(q: Quad, w: word)
    ensures Val(ShiftQ(RotBit, ShiftQ(RotByteBit, q, w), w)) == Wide.RotL(Val(q), Pow2(w % 128), TWO128)
  {
    hide Val, Pow2, Wide.RotL, Shifts.RotBits, Shifts.RotBytes;
    CountParts(w);
    Wide.RotWide(q, w % 128);
  }

  /** rotqmbybi t,a,c; rotqmbi t,t,c', where c holds 7 - n and c' holds -n */
  lemma {:induction false} ShiftRightQuadword(g: RegFile, t: Reg, a: Reg, c: Reg, c': Reg, n: word)
    requires c' != t && GetW(g[c], 0) == Wrap32(7 - n) && GetW(g[c'], 0) == Wrap32(-(n as int))
    ensures Val(Regs(g, ShiftPair(ShrByteBit, ShrBit, t, a, c, c'))[t]) == Val(g[a]) / Pow2(n % 256)
    ensures forall r: Reg :: r != t ==> Regs(g, ShiftPair(ShrByteBit, ShrBit, t, a, c, c'))[r] == g[r]
  {
    hide Regs, ShiftPair, ShiftQ, Val, GetW, Pow2;
    ShiftPairResult(ShrByteBit, ShrBit, g, t, a, c, c');
    ShiftRightValue(g[a], n);
  }

  lemma ShiftRightValue(q: Quad, n: word)
    ensures Val(ShiftQ(ShrBit, ShiftQ(ShrByteBit, q, Wrap32(7 - n)), Wrap32(-(n as int)))) == Val(q) / Pow2(n % 256)
  {
    hide Val, Pow2, Shifts.ShrBits, Shifts.ShrBytes, NegMod, Wrap32;
    CountParts(n);
    NegatedByteCount(n);
    NegatedBitCount(n);
    Wide.ShrWide(q, n % 256);
  }

  lemma NegatedByteCount(n: word)
    ensures NegMod(Wrap32(7 - n) / 8, 32) == n / 8 % 32
  {
    var q, r, c := n / 8, n % 8, Wrap32(7 - n);
    if n <= 7 {
      assert c == 7 - n && c / 8 == 0 && q == 0;
    } else {
      assert c == 7 - n + TWO32;
      hide Wrap32;
      DivUnique(c, 8, 0x2000_0000 - q, 7 - r);
      ModTurn(q, 32, -0x100_0000);
    }
  }

  lemma NegatedBitCount(n: word)
    ensures NegMod(Wrap32(-(n as int)), 8) == n % 8
  {
    var c := Wrap32(-(n as int));
    assert c == (if n == 0 then 0 else TWO32 - n);
  }

  // ----- 32-bit multiplication -----

  /** mpyh t,a,b; mpyh u,b,a; mpyu v,a,b; a t,t,u; a t,t,v */
  function MultiplyWords(t: Reg, u: Reg, v: Reg, a: Reg, b: Reg): (code: seq<Instr>)
    ensures Registers(code)
  {
    [RR(WMpyh, t, a, b), RR(WMpyh, u, b, a), RR(WMpyu, v, a, b), RR(WAdd, t, t, u), RR(WAdd, t, t, v)]
  }

  /** The sequence leaves in every word lane the product of the two operand lanes modulo 2^32. */
  lemma {:induction false} MultiplyWordsMultiplies(g: RegFile, t: Reg, u: Reg, v: Reg, a: Reg, b: Reg, i: nat)
    requires i < 4 && t != u && t != v && u != v && a != t && a != u && b != t && b != u
    ensures GetW(Regs(g, MultiplyWords(t, u, v, a, b))[t], i) == GetW(g[a], i) as int * GetW(g[b], i) as int % TWO32
    ensures forall r: Reg :: r != t && r != u && r != v ==> Regs(g, MultiplyWords(t, u, v, a, b))[r] == g[r]
  {
    hide *;
    MultiplyWordsLane(g, t, u, v, a, b, i);
    MultiplyWordsFrame(g, t, u, v, a, b);
  }

  lemma {:induction false} MultiplyWordsFrame(g: RegFile, t: Reg, u: Reg, v: Reg, a: Reg, b: Reg)
    ensures forall r: Reg :: r != t && r != u && r != v ==> Regs(g, MultiplyWords(t, u, v, a, b))[r] == g[r]
  {
    hide Compute, Regs, MultiplyWords;
    MultiplyTrace(g, t, u, v, a, b);
  }

  lemma {:induction false} MultiplyWordsLane(g: RegFile, t: Reg, u: Reg, v: Reg, a: Reg, b: Reg, i: nat)
    requires i < 4 && t != u && t != v && u != v && a != t && a != u && b != t && b != u
    ensures GetW(Regs(g, MultiplyWords(t, u, v, a, b))[t], i) == GetW(g[a], i) as int * GetW(g[b], i) as int % TWO32
  {
    hide Compute, GetW, Regs, MultiplyWords, EvalW;
    var g1 := Then(g, RR(WMpyh, t, a, b));
    var g2 := Then(g1, RR(WMpyh, u, b, a));
    var g3 := Then(g2, RR(WMpyu, v, a, b));
    var g4 := Then(g3, RR(WAdd, t, t, u));
    MultiplyTrace(g, t, u, v, a, b);
    LaneOfResult(WMpyh, g, t, a, b, i);
    LaneOfResult(WMpyh, g1, u, b, a, i);
    LaneOfResult(WMpyu, g2, v, a, b, i);
    LaneOfResult(WAdd, g3, t, t, u, i);
    LaneOfResult(WAdd, g4, t, t, v, i);
    EvalAdd(GetW(g3[t], i), GetW(g3[u], i), GetW(g3[t], i));
    EvalAdd(GetW(g4[t], i), GetW(g4[v], i), GetW(g4[t], i));
    ProductOfHalves(GetW(g[a], i), GetW(g[b], i), GetW(g[t], i), GetW(g1[u], i), GetW(g2[v], i));
  }

  lemma {:induction false} MultiplyTrace(g: RegFile, t: Reg, u: Reg, v: Reg, a: Reg, b: Reg)
    ensures Regs(g, MultiplyWords(t, u, v, a, b))
         == Then(Then(Then(Then(Then(g, RR(WMpyh, t, a, b)), RR(WMpyh, u, b, a)), RR(WMpyu, v, a, b)),
                      RR(WAdd, t, t, u)), RR(WAdd, t, t, v))
  {
    hide Then, Regs;
    var c1 := [RR(WMpyh, t, a, b)];
    var c2 := c1 + [RR(WMpyh, u, b, a)];
    var c3 := c2 + [RR(WMpyu, v, a, b)];
    var c4 := c3 + [RR(WAdd, t, t, u)];
    assert c1 == [] + c1;
    assert MultiplyWords(t, u, v, a, b) == c4 + [RR(WAdd, t, t, v)];
    RegsNone(g);
    RegsThen(g, [], RR(WMpyh, t, a, b));
    RegsThen(g, c1, RR(WMpyh, u, b, a));
    RegsThen(g, c2, RR(WMpyu, v, a, b));
    RegsThen(g, c3, RR(WAdd, t, t, u));
    RegsThen(g, c4, RR(WAdd, t, t, v));
  }

  lemma {:induction false} RegsNone(g: RegFile)
    ensures Regs(g, []) == g
  {
  }

  lemma EvalAdd(x: word, y: word, t: word)
    ensures EvalW(WAdd, x, y, t) == Wrap32(x + y)
  {
  }

  lemma LaneOfResult(op: WordOp, g: RegFile, rt: Reg, ra: Reg, rb: Reg, i: nat)
    requires i < 4
    ensures GetW(Compute(RR(op, rt, ra, rb), g), i) == EvalW(op, GetW(g[ra], i), GetW(g[rb], i), GetW(g[rt], i))
  {
    WordsOfResult(op, g, rt, ra, rb);
    hide Compute, GetW, EvalW;
    assert Words(Compute(RR(op, rt, ra, rb), g))[i] == Lanewise(op, Words(g[ra]), Words(g[rb]), Words(g[rt]))[i];
  }

  /** The 32-bit product modulo 2^32 from three 16-bit products, two of them signed. */
  lemma ProductOfHalves(a: word, b: word, t: word, u: word, v: word)
    ensures Wrap32(Wrap32(EvalW(WMpyh, a, b, t) + EvalW(WMpyh, b, a, u)) + EvalW(WMpyu, a, b, v)) ==
      a as int * b as int % TWO32
  {
    hide EvalW;
    var ah, al, bh, bl := a / 0x1_0000, a % 0x1_0000, b / 0x1_0000, b % 0x1_0000;
    var kx := EvalMpyh(a, b, t);
    var ky := EvalMpyh(b, a, u);
    EvalMpyu(a, b, v);
    HalvesExpand(ah, al, bh, bl);
    assert a == ah * 0x1_0000 + al && b == bh * 0x1_0000 + bl;
    SumOfThree(ah * bl, kx, bh * al, ky, al * bl, ah * bh);
  }

  lemma EvalMpyh(a: word, b: word, t: word) returns (k: int)
    ensures EvalW(WMpyh, a, b, t) == (a / 0x1_0000 * (b % 0x1_0000) + k * 0x1_0000) * 0x1_0000 % TWO32
  {
    k := HighProduct(a / 0x1_0000, b % 0x1_0000);
    assert EvalW(WMpyh, a, b, t) == Wrap32(S16(Hi(a)) * S16(Lo(b)) * 0x1_0000);
    hide EvalW, S16;
  }

  lemma EvalMpyu(a: word, b: word, t: word)
    ensures EvalW(WMpyu, a, b, t) == a % 0x1_0000 * (b % 0x1_0000)
  {
    assert EvalW(WMpyu, a, b, t) == Wrap32(Lo(a) as int * Lo(b));
    hide EvalW;
    Bounded(Lo(a), Lo(b));
  }

  lemma Bounded(a: half, b: half)
    ensures 0 <= a as int * b as int < 0x1_0000_0000
  {
    MulMono(a, 0xFFFF, b);
  }

  /** Reading the halves as signed changes their product by a multiple of 2^16. */
  lemma HighProduct(h: half, l: half) returns (k: int)
    ensures S16(h) * S16(l) == h as int * l as int + k * 0x1_0000
  {
    k := (if h < 0x8000 then 0 else -(l as int)) + (if l < 0x8000 then 0 else -(h as int)) +
      (if h >= 0x8000 && l >= 0x8000 then 0x1_0000 else 0);
  }

  lemma HalvesExpand(ah: nat, al: nat, bh: nat, bl: nat)
    ensures (ah * 0x1_0000 + al) * (bh * 0x1_0000 + bl) == ah * bh * TWO32 + (ah * bl + bh * al) * 0x1_0000 + al * bl
  {
    assert (ah * 0x1_0000 + al) * (bh * 0x1_0000 + bl) ==
      (ah * 0x1_0000) * (bh * 0x1_0000) + (ah * 0x1_0000) * bl + al * (bh * 0x1_0000) + al * bl;
  }

  lemma SumOfThree(p: int, kp: int, q: int, kq: int, z: int, r: int)
    ensures (((p + kp * 0x1_0000) * 0x1_0000 % 0x1_0000_0000 + (q + kq * 0x1_0000) * 0x1_0000 % 0x1_0000_0000)
             % 0x1_0000_0000 + z) % 0x1_0000_0000
         == (r * 0x1_0000_0000 + (p + q) * 0x1_0000 + z) % 0x1_0000_0000
  {
  }
}
