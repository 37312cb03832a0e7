/** A loop as two instruction words in local store, run to its end. */
module SpuLoops {
  import opened Bits
  import opened Quad
  import opened Spu
  import opened SpuFetch
  import opened SpuIsaControl
  import opened SpuReference
  import SpuIsaLanes
  import SpuIsaQuads

  /** ai r,r,-1; brnz r,-4 */
  predicate CountdownAt(ls: seq<byte>, pc: nat, r: Reg)
    requires |ls| == 0x4_0000
  {
    pc % 4 == 0 && pc + 8 <= 0x4_0000 &&
    Val(ls[pc..pc + 4]) == 0x1CFF_C000 + 0x81 * r && Val(ls[pc + 4..pc + 8]) == 0x217F_FF80 + r
  }

  /** The loop is about to begin, and no patch interferes. */
  predicate Counting(s: State, r: Reg) {
    s.running && CountdownAt(s.ls, s.pc, r) && !(s.id == 2 && s.pc <= 0x35FC < s.pc + 8)
  }

  /** Every word of the register is `n`. */
  predicate AllWords(q: Quad, n: word) {
    GetW(q, 0) == n && GetW(q, 1) == n && GetW(q, 2) == n && GetW(q, 3) == n
  }

  lemma DecrementFields(r: Reg)
    ensures var w := 0x1CFF_C000 + 0x81 * r;
      w / 0x100_0000 == 0x1C && FieldRt(w) == r && FieldRa(w) == r && FieldI10(w) == 0xFFFF_FFFF
  {
    var w := 0x1CFF_C000 + 0x81 * r;
    DivUnique(w, 0x80, 0x39_FF80 + r, r);
    DivUnique(0x39_FF80 + r, 0x80, 0x73FF, r);
    DivUnique(w, 0x4000, 0x73FF, 0x81 * r);
    DivUnique(w, 0x100_0000, 0x1C, 0xFF_C000 + 0x81 * r);
  }

  lemma BranchFields(r: Reg)
    ensures var w := 0x217F_FF80 + r;
      w / 0x80_0000 == 0x042 && FieldRt(w) == r && FieldI16U(w) == 0xFFFF && IsJump(w) && TestOf(w) == WordNotZero &&
      !Links(w)
  {
    var w := 0x217F_FF80 + r;
    DivUnique(w, 0x80, 0x42_FFFF, r);
    DivUnique(w, 0x80_0000, 0x42, 0x7F_FF80 + r);
    Prefixes(w);
  }

  /** The first instruction takes one from every word. */
  lemma Decrements(h: Host, s: State, r: Reg, n: word)
    requires Counting(s, r) && n > 0 && AllWords(s.gpr[r], n)
    ensures var s' := Step(h, s);
      s' == s.(pc := s.pc + 4, gpr := s.gpr[r := s'.gpr[r]]) && AllWords(s'.gpr[r], n - 1)
  {
    hide Step, GetW, FieldRt, FieldRa, FieldI10, Val, WordMeans;
    var w := 0x1CFF_C000 + 0x81 * r;
    DecrementFields(r);
    assert s.pc % 0x4_0000 == s.pc && s.pc / 4 * 4 == s.pc;
    assert WordForm(0x1C) == 0x0C0;
    SpuIsaLanes.WordImmediateInstructions(h, s, w);
    hide WordForm, Fetches;
    forall i: nat | i < 4
      ensures GetW(Step(h, s).gpr[r], i) == n - 1
    {
      OneLess(n, GetW(s.gpr[r], i), GetW(Step(h, s).gpr[r], i));
    }
  }

  lemma OneLess(n: word, t: word, r: word)
    requires n > 0 && WordMeans(0x0C0, n, 0xFFFF_FFFF, t, r)
    ensures r == n - 1
  {
    assert r == (n + 0xFFFF_FFFF) % TWO32;
    hide WordMeans;
    ModTurn(n - 1, TWO32, 1);
  }

  lemma BranchBack(s: State, r: Reg)
    requires 4 <= s.pc < 0x4_0000
    ensures TargetOf(s, 0x217F_FF80 + r) == s.pc - 4
  {
    hide GetW, FieldI16U, FieldRa;
    BranchFields(r);
    Prefixes(0x217F_FF80 + r);
  }

  lemma NonzeroPasses(q: Quad, n: word)
    requires AllWords(q, n)
    ensures Passes(WordNotZero, q) <==> n != 0
  {
    LowHalf(q);
    hide GetW;
  }

  /** The second goes back unless they are all zero. */
  lemma GoesBack(h: Host, s: State, pc: word, r: Reg, n: word)
    requires CountdownAt(s.ls, pc, r) && s.pc == pc + 4 && !(s.id == 2 && s.pc == 0x35FC) && AllWords(s.gpr[r], n)
    ensures Step(h, s) == s.(pc := if n == 0 then (pc + 8) % 0x4_0000 else pc)
  {
    hide Step, FieldRt, FieldI16U, Val, TestOf, IsJump, Links, TargetOf, Passes, GetW;
    var w := 0x217F_FF80 + r;
    BranchFields(r);
    NonzeroPasses(s.gpr[r], n);
    assert s.pc % 0x4_0000 == s.pc && s.pc / 4 * 4 == s.pc;
    BranchBack(s, r);
    BranchInstructions(h, s, w);
  }

  /** One round of the loop: two instructions. */
  lemma RoundRuns(h: Host, s: State, r: Reg, n: word)
    requires Counting(s, r) && n > 0 && AllWords(s.gpr[r], n)
    ensures var s2 := Counted(Step(h, Counted(Step(h, s))));
      AllWords(s2.gpr[r], n - 1) && Counted(Step(h, s)).running &&
      s2 == s.(pc := if n == 1 then (s.pc + 8) % 0x4_0000 else s.pc, gpr := s.gpr[r := s2.gpr[r]],
               insnCount := (s.insnCount + 2) % TWO64)
  {
    hide Step, GetW, Val, AllWords;
    Decrements(h, s, r, n);
    var s1 := Counted(Step(h, s));
    GoesBack(h, s1, s.pc, r, n - 1);
    CountTwice(s.insnCount);
  }

  lemma CountTwice(n: nat)
    ensures ((n + 1) % TWO64 + 1) % TWO64 == (n + 2) % TWO64
  {
    ModTurn((n + 1) % TWO64 + 1, TWO64, (n + 1) / TWO64);
  }

  lemma {:induction false} RunTwo(h: Host, s: State, max: nat)
    requires s.running && Counted(Step(h, s)).running
    ensures var r := Run(h, Counted(Step(h, Counted(Step(h, s)))), max); Run(h, s, max + 2) == (r.0, r.1 + 2)
  {
    hide Step;
    var s1 := Counted(Step(h, s));
    assert Run(h, s, max + 2) == (Run(h, s1, max + 1).0, Run(h, s1, max + 1).1 + 1);
    assert Run(h, s1, max + 1) == (Run(h, Counted(Step(h, s1)), max).0, Run(h, Counted(Step(h, s1)), max).1 + 1);
  }

  /** Started with every word equal to n > 0, the loop runs 2n instructions, leaves the register
  zero, falls through, and changes nothing else. */
  lemma {:induction false} CountdownRuns(h: Host, s: State, r: Reg, n: word)
    requires Counting(s, r) && n > 0 && AllWords(s.gpr[r], n)
    ensures Run(h, s, 2 * n) ==
      (s.(pc := (s.pc + 8) % 0x4_0000, gpr := s.gpr[r := Zeros(16)], insnCount := (s.insnCount + 2 * n) % TWO64), 2 * n)
    decreases n
  {
    hide Step, GetW, Val, AllWords, CountdownAt, Run;
    var s2 := Counted(Step(h, Counted(Step(h, s))));
    RoundRuns(h, s, r, n);
    RunTwo(h, s, 2 * (n - 1));
    if n == 1 {
      AllZero(s2.gpr[r]);
      RunNone(h, s2);
    } else {
      CountdownRuns(h, s2, r, n - 1);
      CountMore(s.insnCount, 2 * (n - 1));
      assert s2.gpr[r := Zeros(16)] == s.gpr[r := Zeros(16)];
    }
  }

  lemma CountMore(c: nat, k: nat)
    ensures ((c + 2) % TWO64 + k) % TWO64 == (c + 2 + k) % TWO64
  {
    ModTurn((c + 2) % TWO64 + k, TWO64, (c + 2) / TWO64);
  }

  lemma {:induction false} RunNone(h: Host, s: State)
    ensures Run(h, s, 0) == (s, 0)
  {
  }

  lemma AllZero(q: Quad)
    requires AllWords(q, 0)
    ensures q == Zeros(16)
  {
    hide GetW;
    SpuIsaQuads.ZeroWord(0);
    SpuIsaQuads.ZeroWord(1);
    SpuIsaQuads.ZeroWord(2);
    SpuIsaQuads.ZeroWord(3);
    WordsDetermine(q, Zeros(16));
  }

  /** Until then it stays in its two instructions. */
  lemma {:induction false} CountdownStays(h: Host, s: State, r: Reg, n: word, m: nat)
    requires Counting(s, r) && n > 0 && AllWords(s.gpr[r], n) && m < 2 * n
    ensures Run(h, s, m).1 == m && Run(h, s, m).0.pc == s.pc + 4 * (m % 2)
    decreases m
  {
    hide Step, GetW, Val, AllWords, CountdownAt;
    if m >= 2 {
      RoundRuns(h, s, r, n);
      RunTwo(h, s, m - 2);
      hide Run;
      CountdownStays(h, Counted(Step(h, Counted(Step(h, s)))), r, n - 1, m - 2);
    } else if m == 1 {
      Decrements(h, s, r, n);
      RunNone(h, Counted(Step(h, s)));
    }
  }
}
