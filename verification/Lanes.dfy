/** What one lane of each SPU integer instruction computes (`spu_step` in `spu_interp.cpp`).

An instruction with an immediate is the register form with a constant second operand. */
module Lanes {
  import opened Bits

  datatype WordOp =
    | WAdd | WSubFrom | WCarry | WBorrow | WAddx | WSfx | WCgx | WBgx
    | WAnd | WOr | WXor | WCopy | WOrInto
    | WClz | WXshw
    | WRot | WRotm | WRotma | WShl
    | WCeq | WCgt | WClgt
    | WMpy | WMpyu | WMpyh | WMpys | WMpyhh | WMpyhhu | WMpyhha | WMpyhhau | WMpya

  datatype HalfOp =
    | HAdd | HSubFrom | HAnd | HOr | HXor | HCopy | HXsbh
    | HRot | HRotm | HRotma | HShl
    | HCeq | HCgt | HClgt

  datatype ByteOp =
    | BAbsdb | BAvgb | BCntb
    | BAnd | BOr | BXor | BNand | BNor | BAndc | BOrc | BEqv | BSel
    | BCeq | BCgt | BClgt

  // ----- Two's complement readings of a lane -----

  function Wrap32(x: int): word { x % TWO32 }

  function Wrap16(x: int): half { x % 0x1_0000 }

  function S32(x: word): int { if x < 0x8000_0000 then x else x - TWO32 }

  function S16(x: half): int { if x < 0x8000 then x else x - 0x1_0000 }

  function S8(x: byte): int { if x < 0x80 then x else x - 0x100 }

  function Lo(x: word): half { x % 0x1_0000 }

  function Hi(x: word): half { x / 0x1_0000 }

  function Not32(x: word): word { 0xFFFF_FFFF - x }

  function Mask32(c: bool): word { if c then 0xFFFF_FFFF else 0 }

  function Mask16(c: bool): half { if c then 0xFFFF else 0 }

  function Mask8(c: bool): byte { if c then 0xFF else 0 }

  /** `(0u - b) & (m - 1)`, for a power of two `m`. */
  function NegMod(b: nat, m: nat): (r: nat)
    requires m > 0
    ensures r < m
  {
    (-(b as int)) % m
  }

  function Min(x: nat, y: nat): nat { if x < y then x else y }

  // ----- Word lanes: `a` is RA, `b` is RB or the immediate, `t` is the third operand -----

  function EvalW(op: WordOp, a: word, b: word, t: word): word {
    if op.WAdd? then Wrap32(a + b)
    else if op.WSubFrom? then Wrap32(b - a)
    else if op.WCarry? then Wrap32((a + b) / TWO32)
    else if op.WBorrow? then (if a <= b then 1 else 0)
    else if op.WAddx? then Wrap32(a + b + t % 2)
    else if op.WSfx? then Wrap32(b + Not32(a) + t % 2)
    else if op.WCgx? then Wrap32((a + b + t % 2) / TWO32)
    else if op.WBgx? then Wrap32((b + Not32(a) + t % 2) / TWO32)
    else if op.WAnd? then Wrap32(And(a, b))
    else if op.WOr? then Wrap32(Or(a, b))
    else if op.WXor? then Wrap32(Xor(a, b))
    else if op.WCopy? then b
    else if op.WOrInto? then Wrap32(Or(t, b))
    else if op.WClz? then Clz(a)
    else if op.WXshw? then Wrap32(S16(Lo(a)))
    else if op.WRot? then RotW(a, b % 32)
    else if op.WRotm? then ShrW(a, NegMod(b, 64))
    else if op.WRotma? then SarW(a, NegMod(b, 64))
    else if op.WShl? then ShlW(a, b % 64)
    else if op.WCeq? then Mask32(a == b)
    else if op.WCgt? then Mask32(S32(a) > S32(b))
    else if op.WClgt? then Mask32(a > b)
    else EvalMul(op, a, b, t)
  }

  function EvalMul(op: WordOp, a: word, b: word, t: word): word {
    if op.WMpy? then Wrap32(S16(Lo(a)) * S16(Lo(b)))
    else if op.WMpyu? then Wrap32(Lo(a) as int * Lo(b))
    else if op.WMpyh? then Wrap32(S16(Hi(a)) * S16(Lo(b)) * 0x1_0000)
    else if op.WMpys? then Wrap32(S16(Lo(a)) * S16(Lo(b)) / 0x1_0000)
    else if op.WMpyhh? then Wrap32(S16(Hi(a)) * S16(Hi(b)))
    else if op.WMpyhhu? then Wrap32(Hi(a) as int * Hi(b))
    else if op.WMpyhha? then Wrap32(t + S16(Hi(a)) * S16(Hi(b)))
    else if op.WMpyhhau? then Wrap32(t + Hi(a) as int * Hi(b))
    else if op.WMpya? then Wrap32(S16(Lo(a)) * S16(Lo(b)) + S32(t))
    else 0
  }

  /** `s ? (v << s) | (v >> (32 - s)) : v` */
  function RotW(v: word, s: nat): word
    requires s < 32
  {
    if s == 0 then v else Wrap32(Or(Wrap32(v * Pow2(s)), Shr(v, 32 - s)))
  }

  function ShrW(v: word, s: nat): word {
    if s < 32 then Wrap32(Shr(v, s)) else 0
  }

  /** Arithmetic shift, with the count clamped to 31. */
  function SarW(v: word, s: nat): word {
    Wrap32(S32(v) / Pow2(Min(s, 31)))
  }

  function ShlW(v: word, s: nat): word {
    if s < 32 then Wrap32(v * Pow2(s)) else 0
  }

  /** Leading zeros; 32 for zero. */
  function Clz(v: word): (n: word)
    ensures n <= 32
    ensures v == 0 <==> n == 32
    ensures v != 0 ==> Pow2(31 - n) <= v < Pow2(32 - n)
  {
    Clz32();
    if v == 0 then 32 else ClzFrom(v, 0)
  }

  lemma Clz32()
    ensures Pow2(31) == 0x8000_0000 && Pow2(32) == TWO32
  {
    assert Pow2(8) == 0x100;
    Pow2Add(8, 8);
    Pow2Add(16, 16);
    assert Pow2(32) == 2 * Pow2(31);
  }

  function ClzFrom(v: word, n: nat): (r: word)
    requires n <= 31 && 0 < v < Pow2(32 - n)
    ensures n <= r <= 31 && Pow2(31 - r) <= v < Pow2(32 - r)
    decreases 31 - n
  {
    if v >= Pow2(31 - n) then n else ClzFrom(v, n + 1)
  }

  // ----- Halfword lanes -----

  function EvalH(op: HalfOp, a: half, b: half): half {
    if op.HAdd? then Wrap16(a + b)
    else if op.HSubFrom? then Wrap16(b - a)
    else if op.HAnd? then Wrap16(And(a, b))
    else if op.HOr? then Wrap16(Or(a, b))
    else if op.HXor? then Wrap16(Xor(a, b))
    else if op.HCopy? then b
    else if op.HXsbh? then Wrap16(S8(a % 0x100))
    else if op.HRot? then RotH(a, b % 16)
    else if op.HRotm? then ShrH(a, NegMod(b, 32))
    else if op.HRotma? then Wrap16(S16(a) / Pow2(Min(NegMod(b, 32), 15)))
    else if op.HShl? then (if b % 32 < 16 then Wrap16(a * Pow2(b % 32)) else 0)
    else if op.HCeq? then Mask16(a == b)
    else if op.HCgt? then Mask16(S16(a) > S16(b))
    else Mask16(a > b)
  }

  function RotH(v: half, s: nat): half
    requires s < 16
  {
    if s == 0 then v else Wrap16(Or(v * Pow2(s), Shr(v, 16 - s)))
  }

  function ShrH(v: half, s: nat): half {
    if s < 16 then Wrap16(Shr(v, s)) else 0
  }

  // ----- Byte lanes: `c` is RC, read by `selb` only -----

  function EvalB(op: ByteOp, a: byte, b: byte, c: byte): byte {
    if op.BAbsdb? then (if a < b then b - a else a - b)
    else if op.BAvgb? then (a as int + b + 1) / 2
    else if op.BCntb? then PopCount(a)
    else if op.BAnd? then And(a, b) % 0x100
    else if op.BOr? then Or(a, b) % 0x100
    else if op.BXor? then Xor(a, b) % 0x100
    else if op.BNand? then 0xFF - And(a, b) % 0x100
    else if op.BNor? then 0xFF - Or(a, b) % 0x100
    else if op.BAndc? then And(a, 0xFF - b) % 0x100
    else if op.BOrc? then Or(a, 0xFF - b) % 0x100
    else if op.BEqv? then 0xFF - Xor(a, b) % 0x100
    else if op.BSel? then Or(And(c, b), And(0xFF - c, a)) % 0x100
    else if op.BCeq? then Mask8(a == b)
    else if op.BCgt? then Mask8(S8(a) > S8(b))
    else Mask8(a > b)
  }

  function PopCount(v: byte): (n: byte)
    ensures n <= v
  {
    if v == 0 then 0 else v % 2 + PopCount(v / 2)
  }
}
