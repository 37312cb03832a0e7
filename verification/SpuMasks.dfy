/** The fields of an instruction word and the alignment of addresses, as the C code masks them. */
module SpuMasks {
  import opened Bits
  import opened Spu
  import opened SpuDma

  lemma Powers()
    ensures Pow2(2) == 4 && Pow2(4) == 0x10 && Pow2(5) == 0x20 && Pow2(7) == 0x80 && Pow2(10) == 0x400
    ensures Pow2(14) == 0x4000 && Pow2(16) == 0x1_0000 && Pow2(18) == 0x4_0000 && Pow2(21) == 0x20_0000
  {
    Shorter();
    hide Pow2;
    Pow2Add(7, 7);
    Pow2Add(14, 7);
  }

  lemma Shorter()
    ensures Pow2(2) == 4 && Pow2(4) == 0x10 && Pow2(5) == 0x20 && Pow2(7) == 0x80 && Pow2(8) == 0x100
    ensures Pow2(10) == 0x400 && Pow2(16) == 0x1_0000 && Pow2(18) == 0x4_0000
  {
    assert Pow2(2) == 4 && Pow2(4) == 0x10 && Pow2(5) == 0x20 && Pow2(7) == 0x80;
    assert Pow2(8) == 2 * Pow2(7);
    hide Pow2;
    Pow2Add(8, 2);
    Pow2Add(8, 8);
    Pow2Add(16, 2);
  }

  lemma OpcodePowers()
    ensures Pow2(4) == 0x10 && Pow2(7) == 0x80 && Pow2(8) == 0x100 && Pow2(9) == 0x200 && Pow2(11) == 0x800
    ensures Pow2(21) == 0x20_0000 && Pow2(23) == 0x80_0000 && Pow2(24) == 0x100_0000
    ensures Pow2(25) == 0x200_0000 && Pow2(28) == 0x1000_0000
  {
    Powers();
    Shorter();
    hide Pow2;
    Pow2Add(7, 2);
    Pow2Add(7, 4);
    Pow2Add(21, 2);
    Pow2Add(16, 8);
    Pow2Add(18, 7);
    Pow2Add(21, 7);
  }

  lemma {:induction false} ShrOf(x: nat, s: nat)
    ensures Shr(x, s) == x / Pow2(s)
  {
  }

  /** Every register, channel and unsigned immediate field is a shift and a mask of the word. */
  lemma {:induction false} FieldsAreMasked(insn: word)
    ensures FieldRt(insn) == And(insn, 0x7F) && FieldRa(insn) == And(Shr(insn, 7), 0x7F)
    ensures FieldRb(insn) == And(Shr(insn, 14), 0x7F) && FieldRc(insn) == And(Shr(insn, 21), 0x7F)
    ensures FieldI7(insn) == And(Shr(insn, 14), 0x7F) && FieldCh(insn) == And(Shr(insn, 7), 0x1F)
    ensures FieldI16U(insn) == And(Shr(insn, 7), 0xFFFF) && FieldI18(insn) == And(Shr(insn, 7), 0x3_FFFF)
  {
    Powers();
    hide Pow2, Shr, And;
    ShrOf(insn, 7);
    ShrOf(insn, 14);
    ShrOf(insn, 21);
    AndLowMask(insn, 7);
    AndLowMask(Shr(insn, 7), 7);
    AndLowMask(Shr(insn, 14), 7);
    AndLowMask(Shr(insn, 21), 7);
    AndLowMask(Shr(insn, 7), 5);
    AndLowMask(Shr(insn, 7), 16);
    AndLowMask(Shr(insn, 7), 18);
  }

  /** So is every opcode, although nothing is left above it to mask. */
  lemma OpcodesAreMasked(insn: word)
    ensures insn / 0x20_0000 == And(Shr(insn, 21), 0x7FF) && insn / 0x80_0000 == And(Shr(insn, 23), 0x1FF)
    ensures insn / 0x100_0000 == And(Shr(insn, 24), 0xFF) && insn / 0x200_0000 == And(Shr(insn, 25), 0x7F)
    ensures insn / 0x1000_0000 == And(Shr(insn, 28), 0xF)
  {
    OpcodePowers();
    hide Pow2, Shr, And;
    TopField(insn, 21, 11);
    TopField(insn, 23, 9);
    TopField(insn, 24, 8);
    TopField(insn, 25, 7);
    TopField(insn, 28, 4);
  }

  lemma {:induction false} TopField(insn: word, s: nat, w: nat)
    requires s + w == 32
    ensures insn / Pow2(s) == And(Shr(insn, s), Pow2(w) - 1)
  {
    ShrOf(insn, s);
    hide *;
    Word32();
    Pow2Add(s, w);
    QuotientBelow(insn, Pow2(s), Pow2(w));
    AndLowMask(insn / Pow2(s), w);
  }

  lemma QuotientBelow(n: nat, d: nat, e: nat)
    requires d > 0 && n < d * e
    ensures n / d < e && n / d % e == n / d
  {
    var q := n / d;
    assert q * d + n % d == n;
    if q >= e {
      MulMono(e, q, d);
      assert false;
    }
    hide *;
    DivUnique(q, e, 0, q);
  }

  /** `(v & bit) ? (v | high) : v` */
  function COrHigh(v: nat, bit: nat, high: nat): nat {
    if And(v, bit) != 0 then Or(v, high) else v
  }

  /** The sign extensions test one bit and set the ones above the field. */
  lemma SignsAreMasked(insn: word)
    ensures SignExtend(FieldI7(insn), 0x80) == COrHigh(And(Shr(insn, 14), 0x7F), 0x40, 0xFFFF_FF80)
    ensures FieldI10(insn) == COrHigh(And(Shr(insn, 14), 0x3FF), 0x200, 0xFFFF_FC00)
    ensures FieldI16(insn) == COrHigh(And(Shr(insn, 7), 0xFFFF), 0x8000, 0xFFFF_0000)
  {
    Powers();
    FieldsAreMasked(insn);
    var i10 := insn / 0x4000 % 0x400;
    assert i10 == And(Shr(insn, 14), 0x3FF) by {
      hide Pow2, Shr, And;
      ShrOf(insn, 14);
      AndLowMask(Shr(insn, 14), 10);
    }
    hide Pow2, Shr, And, Or, SignExtend, COrHigh;
    SignIsMasked(FieldI7(insn), 7);
    SignIsMasked(i10, 10);
    SignIsMasked(FieldI16U(insn), 16);
  }

  lemma SignIsMasked(v: word, w: nat)
    requires 0 < w < 32 && v < Pow2(w) < TWO32
    ensures SignExtend(v, Pow2(w)) == COrHigh(v, Pow2(w - 1), TWO32 - Pow2(w))
  {
    TopBitSet(v, w);
    AndOneBit(v, w - 1);
    HighOnes(v, w);
    hide And, Or, Bit, Pow2;
    assert Pow2(w) / 2 == Pow2(w - 1);
  }

  lemma TopBitSet(v: nat, w: nat)
    requires 0 < w && v < Pow2(w)
    ensures Bit(w - 1, v) <==> v >= Pow2(w - 1)
  {
    var p := Pow2(w - 1);
    BitShr(0, v, w - 1);
    assert Pow2(w) == 2 * p;
    var b := if v < p then 0 else 1;
    hide Pow2;
    DivUnique(v, p, b, v - b * p);
  }

  lemma HighOnes(v: nat, w: nat)
    requires w < 32 && v < Pow2(w)
    ensures Pow2(w) <= TWO32 && Or(v, TWO32 - Pow2(w)) == v + (TWO32 - Pow2(w))
  {
    hide Pow2, Or;
    var ones := Pow2(32 - w) - 1;
    Word32();
    Pow2Add(32 - w, w);
    OneLess(Pow2(32 - w), Pow2(w));
    OrDisjoint(ones, v, w);
    OrCommutes(v, ones * Pow2(w));
  }

  lemma OneLess(p: nat, q: nat)
    requires p > 0
    ensures (p - 1) * q == p * q - q >= 0
  {
    MulNonneg(p - 1, q);
  }

  /** Local-store addresses are masked to a word or a quadword inside local store. */
  lemma {:induction false} AddressesAreMasked(x: word)
    ensures AlignDown(x % LS_SIZE, 4) == And(x, 0x3_FFFC) && QuadAddr(x) == And(x, 0x3_FFF0)
  {
    Powers();
    hide Pow2, And;
    AndHighMask(x, 18, 2);
    AndHighMask(x, 18, 4);
    Aligned(x, 4);
    Aligned(x, 0x10);
  }

  lemma Aligned(x: nat, m: nat)
    requires m in {4, 0x10}
    ensures AlignDown(x % LS_SIZE, m) == x % LS_SIZE - x % m
  {
    var k, y := x / LS_SIZE, x % LS_SIZE;
    var q, r := y / m, y % m;
    assert x == k * LS_SIZE + y && y == q * m + r;
    if m == 4 {
      DivUnique(x, 4, k * 0x1_0000 + q, r);
    } else {
      DivUnique(x, 0x10, k * 0x4000 + q, r);
    }
  }
}
