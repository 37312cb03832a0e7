/** The unaligned vector load pair that `_apply_lvlx.py` emits for `lvlx` and `lvrx`.

Both instructions are copy loops from guest memory, addressed by 32-bit unsigned arithmetic,
into a zeroed 16-byte buffer that then becomes the vector register. Guest memory is a partial
map here, so a loop may only read what its contract says is there. */
module VectorLoad {
  import opened Bits

  /** The bytes of guest memory that can be read. */
  type Memory = map<word, byte>

  type Vector = v: seq<byte> | |v| == 16 witness [0, 0, 0, 0, 0, 0, 0, 0, 0, 0, 0, 0, 0, 0, 0, 0]

  /** First address of the 16-byte block of `a`. */
  function BlockStart(a: word): word {
    a - a % 16
  }

  /** The whole 16-byte block of `a` can be read. */
  predicate Readable(m: Memory, a: word) {
    forall k: word :: BlockStart(a) <= k < BlockStart(a) + 16 ==> k in m
  }

  // ----- What the instructions compute -----

  /** The bytes from `ea` to the end of its block, then zeros. */
  function LeftPart(m: Memory, ea: word): Vector
    requires Readable(m, ea)
  {
    seq(16, i requires 0 <= i < 16 => if i < 16 - ea % 16 then m[ea + i] else 0)
  }

  /** Zeros, then the bytes from the start of the block of `ea` up to `ea`; at the start of a
  block that is nothing at all. */
  function RightPart(m: Memory, ea: word): Vector
    requires ea % 16 == 0 || Readable(m, ea)
  {
    seq(16, i requires 0 <= i < 16 => if i >= 16 - ea % 16 then m[ea - 16 + i] else 0)
  }

  /** The blocks of the 16 bytes from `p` on: one if `p` is aligned, two otherwise. */
  predicate ReadableFrom(m: Memory, p: word) {
    Readable(m, p) && (p % 16 == 0 || Readable(m, (p + 15) % TWO32))
  }

  lemma SecondBlock(p: word)
    requires p % 16 > 0
    ensures (p + 16) % TWO32 % 16 == p % 16
    ensures BlockStart((p + 15) % TWO32) == BlockStart((p + 16) % TWO32)
  {
    var q, r := p / 16, p % 16;
    assert p == q * 16 + r;
    var e, last := (p + 16) % TWO32, (p + 15) % TWO32;
    if p + 16 < TWO32 {
      assert e == p + 16 && last == p + 15;
      hide *;
      BlockIs(e, q + 1, r);
      BlockIs(last, q + 1, r - 1);
    } else {
      assert e == r && last == r - 1;
      hide *;
      BlockIs(e, 0, r);
      BlockIs(last, 0, r - 1);
    }
  }

  lemma BlockIs(a: word, q: nat, r: nat)
    requires r < 16 && a == q * 16 + r
    ensures a % 16 == r && BlockStart(a) == q * 16
  {
    DivUnique(a, 16, q, r);
  }

  /** The 16 bytes from `p` on, aligned or not. */
  function Unaligned(m: Memory, p: word): Vector
    requires ReadableFrom(m, p)
  {
    seq(16, i requires 0 <= i < 16 => ByteFrom(m, p, i))
  }

  function ByteFrom(m: Memory, p: word, i: nat): byte
    requires ReadableFrom(m, p) && i < 16
  {
    if i < 16 - p % 16 then
      BlockEnd(p, i);
      m[(p + i) % TWO32]
    else
      SecondBlock(p);
      BlockNext(p, i);
      m[(p + i) % TWO32]
  }

  lemma BlockEnd(p: word, i: nat)
    requires i < 16 - p % 16
    ensures (p + i) % TWO32 == p + i && BlockStart(p) <= p + i < BlockStart(p) + 16
  {
  }

  lemma BlockNext(p: word, i: nat)
    requires 16 - p % 16 <= i < 16
    ensures var e := (p + 16) % TWO32;
      e % 16 == p % 16 && (p + i) % TWO32 == e - 16 + i && BlockStart(e) <= e - 16 + i < BlockStart(e) + 16
  {
    assert p + i >= TWO32 <==> p + 16 >= TWO32 + p % 16;
  }

  function OrBytes(a: byte, b: byte): byte {
    assert Or(a, b) < 0x100 by {
      assert Pow2(8) == 0x100;
      OrBound(a, b, 8);
    }
    Or(a, b)
  }

  /** `vor` */
  function OrVectors(a: Vector, b: Vector): Vector {
    seq(16, i requires 0 <= i < 16 => OrBytes(a[i], b[i]))
  }

  /** The pair loads the 16 bytes at any address, aligned or not, even across the end of memory,
  if the block of the first byte and that of the last can be read. */
  lemma PairLoadsUnaligned(m: Memory, p: word)
    requires ReadableFrom(m, p)
    ensures var e := (p + 16) % TWO32;
      (e % 16 == 0 || Readable(m, e)) && OrVectors(LeftPart(m, p), RightPart(m, e)) == Unaligned(m, p)
  {
    hide BlockStart;
    var e: word := (p + 16) % TWO32;
    SecondReadable(m, p);
    var left, right := LeftPart(m, p), RightPart(m, e);
    forall i | 0 <= i < 16
      ensures OrVectors(left, right)[i] == Unaligned(m, p)[i]
    {
      PairByte(m, p, i);
    }
  }

  lemma SecondReadable(m: Memory, p: word)
    requires ReadableFrom(m, p)
    ensures var e := (p + 16) % TWO32; e % 16 == p % 16 && (e % 16 == 0 || Readable(m, e))
  {
    if p % 16 > 0 { SecondBlock(p); }
  }

  lemma PairByte(m: Memory, p: word, i: nat)
    requires ReadableFrom(m, p) && i < 16
    requires var e := (p + 16) % TWO32; e % 16 == p % 16 && (e % 16 == 0 || Readable(m, e))
    ensures OrBytes(LeftPart(m, p)[i], RightPart(m, (p + 16) % TWO32)[i]) == ByteFrom(m, p, i)
  {
    hide BlockStart;
    if i < 16 - p % 16 {
      BlockEnd(p, i);
    } else {
      BlockNext(p, i);
    }
  }

  /** Guest memory of which only the block of `a` can be read. */
  function OnlyBlock(m: Memory, a: word): Memory {
    map k | k in m && BlockStart(a) <= k < BlockStart(a) + 16 :: m[k]
  }

  /** `lvlx` at `p` needs the block of its first byte and nothing else, and the matching `lvrx`
  the block of the last byte and nothing else; aligned, it needs nothing. */
  lemma EachReadsOneBlock(m: Memory, p: word)
    requires ReadableFrom(m, p)
    ensures Readable(OnlyBlock(m, p), p) && LeftPart(OnlyBlock(m, p), p) == LeftPart(m, p)
    ensures var e, last := (p + 16) % TWO32, (p + 15) % TWO32;
      if p % 16 == 0 then e % 16 == 0 && RightPart(map[], e) == RightPart(m, e)
      else Readable(m, e) && Readable(OnlyBlock(m, last), e) && RightPart(OnlyBlock(m, last), e) == RightPart(m, e)
  {
    if p % 16 > 0 { SecondBlock(p); }
  }

  // ----- The emitted code -----

  class Ppu {
    var mem: Memory
    const gpr: array<dword>
    const vr: array<Vector>

    ghost predicate Valid() {
      gpr.Length == 32 && vr.Length == 32
    }

    constructor (mem: Memory, gpr: array<dword>, vr: array<Vector>)
      requires gpr.Length == 32 && vr.Length == 32
      ensures Valid() && this.mem == mem && this.gpr == gpr && this.vr == vr
    {
      this.mem, this.gpr, this.vr := mem, gpr, vr;
    }

    /** `(rA|0) + rB` as a 32-bit address. */
    function Ea(ra: nat, rb: nat): word
      requires Valid() && ra < 32 && rb < 32
      reads gpr
    {
      if ra == 0 then gpr[rb] % TWO32 else (gpr[ra] % TWO32 + gpr[rb] % TWO32) % TWO32
    }

    /** The sum of the two 64-bit registers modulo 2^32, where rA names no register if it is 0. */
    lemma EaMeans(ra: nat, rb: nat)
      requires Valid() && ra < 32 && rb < 32
      ensures Ea(ra, rb) == ((if ra == 0 then 0 else gpr[ra] as int) + gpr[rb]) % 0x1_0000_0000
    {
      var a, b := gpr[ra], gpr[rb];
      ModTurn(a + b, TWO32, -(a / TWO32) - b / TWO32);
    }

    /** The bytes from `ea` to the end of its block, copied one by one. */
    method CopyLeft(ea: word) returns (v: Vector)
      requires Readable(mem, ea)
      ensures v == LeftPart(mem, ea)
    {
      var eb := ea % 16;
      var t := new byte[16](_ => 0);
      var i := 0;
      while i < 16 - eb
        invariant 0 <= i <= 16 - eb
        invariant forall k :: 0 <= k < i ==> t[k] == mem[ea + k]
        invariant forall k :: i <= k < 16 ==> t[k] == 0
      {
        t[i] := mem[(ea + i) % TWO32];
        i := i + 1;
      }
      v := t[..];
    }

    /** `lvlx vD, rA, rB` */
    method Lvlx(d: nat, ra: nat, rb: nat)
      requires Valid() && d < 32 && ra < 32 && rb < 32
      requires Readable(mem, ((if ra == 0 then 0 else gpr[ra] as int) + gpr[rb]) % 0x1_0000_0000)
      modifies vr
      ensures vr[..] ==
        old(vr[..])[d := LeftPart(mem, ((if ra == 0 then 0 else gpr[ra] as int) + gpr[rb]) % 0x1_0000_0000)]
    {
      hide Ea, Readable, LeftPart;
      EaMeans(ra, rb);
      var v := CopyLeft(Ea(ra, rb));
      vr[d] := v;
    }

    /** The bytes from the start of the block up to `ea`, copied one by one. */
    method CopyRight(ea: word) returns (v: Vector)
      requires ea % 16 == 0 || Readable(mem, ea)
      ensures v == RightPart(mem, ea)
    {
      var eb := ea % 16;
      var t := new byte[16](_ => 0);
      var i := 0;
      while i < eb
        invariant 0 <= i <= eb
        invariant forall k :: 0 <= k < 16 - eb || 16 - eb + i <= k < 16 ==> t[k] == 0
        invariant forall k :: 16 - eb <= k < 16 - eb + i ==> t[k] == mem[ea - 16 + k]
      {
        t[16 - eb + i] := mem[(ea - eb + i) % TWO32];
        i := i + 1;
      }
      v := t[..];
    }

    /** `lvrx vD, rA, rB` */
    method Lvrx(d: nat, ra: nat, rb: nat)
      requires Valid() && d < 32 && ra < 32 && rb < 32
      requires var ea := ((if ra == 0 then 0 else gpr[ra] as int) + gpr[rb]) % 0x1_0000_0000;
        ea % 16 == 0 || Readable(mem, ea)
      modifies vr
      ensures vr[..] ==
        old(vr[..])[d := RightPart(mem, ((if ra == 0 then 0 else gpr[ra] as int) + gpr[rb]) % 0x1_0000_0000)]
    {
      hide Ea, Readable, RightPart;
      EaMeans(ra, rb);
      var v := CopyRight(Ea(ra, rb));
      vr[d] := v;
    }
  }
}
