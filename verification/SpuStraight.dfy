/** Straight-line code as a sequence of instructions, each executed at its own address. */
module SpuStraight {
  import opened Quad
  import opened Lanes
  import opened Spu
  import opened SpuDma

  /** State after executing `code` from `s`, each instruction at its own address. */
  function Straight(h: Host, s: State, code: seq<Instr>): State
    requires forall i | i in code :: WellFormed(i)
    decreases |code|
  {
    if code == [] then s else Straight(h, Advance(h, s, code[0]), code[1..])
  }

  /** One instruction of a straight-line sequence. */
  function Advance(h: Host, s: State, i: Instr): State
    requires WellFormed(i)
  {
    Counted(Exec(h, i, s.pc, s.(pc := (s.pc + 4) % LS_SIZE)))
  }

  lemma {:induction false} StraightFour(h: Host, s: State, i: Instr, j: Instr, k: Instr, l: Instr)
    requires WellFormed(i) && WellFormed(j) && WellFormed(k) && WellFormed(l)
    ensures Straight(h, s, [i, j, k, l]) == Advance(h, Advance(h, Advance(h, Advance(h, s, i), j), k), l)
  {
    hide Advance;
    assert [i, j, k, l][1..] == [j, k, l];
    assert [j, k, l][1..] == [k, l];
    assert [k, l][1..] == [l];
    assert [l][1..] == [];
    assert Straight(h, Advance(h, s, i), [j, k, l]) == Straight(h, Advance(h, Advance(h, s, i), j), [k, l]);
    var s2 := Advance(h, Advance(h, s, i), j);
    assert Straight(h, s2, [k, l]) == Straight(h, Advance(h, s2, k), [l]);
    assert Straight(h, Advance(h, s2, k), [l]) == Advance(h, Advance(h, s2, k), l);
  }

  lemma AdvanceLoad(h: Host, s: State, t: Reg, a: Address)
    ensures var p := Effective(s.gpr, s.pc, a);
      var s' := Advance(h, s, Load(t, a));
      s'.gpr == s.gpr[t := s.ls[p..p + 16]] && s'.ls == s.ls
  {
    hide Effective, Compute;
  }

  lemma AdvanceStore(h: Host, s: State, t: Reg, a: Address)
    ensures var s' := Advance(h, s, Store(t, a));
      s'.gpr == s.gpr && s'.ls == Write128(s.ls, Effective(s.gpr, s.pc, a), s.gpr[t])
  {
    hide Effective, Write128, Compute;
  }

  lemma AdvanceControls(h: Host, s: State, size: nat, c: Reg, ra: Reg, b: Operand)
    requires ControlSize(size)
    ensures var s' := Advance(h, s, Controls(size, c, ra, b));
      s'.gpr == s.gpr[c := ControlsQ(Wrap32(GetW(s.gpr[ra], 0) + OperandW(s.gpr, b, 0)), size)] && s'.ls == s.ls
  {
    hide GetW, OperandW, ControlsQ;
  }

  lemma AdvanceShuffle(h: Host, s: State, rt: Reg, ra: Reg, rb: Reg, rc: Reg)
    ensures var s' := Advance(h, s, Shuffle(rt, ra, rb, rc));
      s'.gpr == s.gpr[rt := ShuffleQ(s.gpr[ra], s.gpr[rb], s.gpr[rc])] && s'.ls == s.ls
  {
    hide ShuffleQ;
  }
}
