/** The 128-bit SPU register: sixteen bytes, most significant first, seen as four words,
eight halfwords, or one 128-bit integer (`spu_interp.h`). */
module Quad {
  import opened Bits

  type Quad = q: seq<byte> | |q| == 16 witness seq(16, _ => 0)

  const TWO128: nat := 0x1_0000_0000_0000_0000_0000_0000_0000_0000

  /** `n` zero bytes, as `memset` leaves them. */
  function Zeros(n: nat): (s: seq<byte>)
    ensures |s| == n
  {
    seq(n, _ => 0)
  }

  function ZeroQuads(n: nat): (s: seq<Quad>)
    ensures |s| == n
  {
    if n == 0 then [] else ZeroQuads(n - 1) + [Zeros(16)]
  }

  // ----- Element accessors -----

  function GetW(q: Quad, i: nat): (v: word)
    requires i < 4
  {
    Be32(q[4 * i], q[4 * i + 1], q[4 * i + 2], q[4 * i + 3])
  }

  function Be32(a: byte, b: byte, c: byte, d: byte): word {
    a as int * 0x100_0000 + b as int * 0x1_0000 + c as int * 0x100 + d
  }

  function SetW(q: Quad, i: nat, v: word): (r: Quad)
    requires i < 4
  {
    q[4 * i := WordByte(v, 0)][4 * i + 1 := WordByte(v, 1)][4 * i + 2 := WordByte(v, 2)][4 * i + 3 := WordByte(v, 3)]
  }

  function WordByte(v: word, k: nat): byte
    requires k < 4
  {
    if k == 0 then v / 0x100_0000
    else if k == 1 then v / 0x1_0000 % 0x100
    else if k == 2 then v / 0x100 % 0x100
    else v % 0x100
  }

  function GetH(q: Quad, i: nat): (v: half)
    requires i < 8
  {
    q[2 * i] as int * 0x100 + q[2 * i + 1]
  }

  function SetH(q: Quad, i: nat, v: half): (r: Quad)
    requires i < 8
  {
    q[2 * i := v / 0x100][2 * i + 1 := v % 0x100]
  }

  lemma GetSetW(q: Quad, i: nat, v: word, j: nat)
    requires i < 4 && j < 4
    ensures GetW(SetW(q, i, v), j) == if i == j then v else GetW(q, j)
  {
    hide WordByte, Be32;
    if i == j {
      var r := SetW(q, i, v);
      assert r[4 * i] == WordByte(v, 0) && r[4 * i + 1] == WordByte(v, 1);
      assert r[4 * i + 2] == WordByte(v, 2) && r[4 * i + 3] == WordByte(v, 3);
      WordSplit(v);
    }
  }

  lemma GetSetH(q: Quad, i: nat, v: half, j: nat)
    requires i < 8 && j < 8
    ensures GetH(SetH(q, i, v), j) == if i == j then v else GetH(q, j)
  {
  }

  // ----- Whole-register views -----

  function Words(q: Quad): (ws: seq<word>)
    ensures |ws| == 4
  {
    [GetW(q, 0), GetW(q, 1), GetW(q, 2), GetW(q, 3)]
  }

  function Halves(q: Quad): (hs: seq<half>)
    ensures |hs| == 8
  {
    [GetH(q, 0), GetH(q, 1), GetH(q, 2), GetH(q, 3), GetH(q, 4), GetH(q, 5), GetH(q, 6), GetH(q, 7)]
  }

  function OfWords(ws: seq<word>): (q: Quad)
    requires |ws| == 4
  {
    [WordByte(ws[0], 0), WordByte(ws[0], 1), WordByte(ws[0], 2), WordByte(ws[0], 3),
     WordByte(ws[1], 0), WordByte(ws[1], 1), WordByte(ws[1], 2), WordByte(ws[1], 3),
     WordByte(ws[2], 0), WordByte(ws[2], 1), WordByte(ws[2], 2), WordByte(ws[2], 3),
     WordByte(ws[3], 0), WordByte(ws[3], 1), WordByte(ws[3], 2), WordByte(ws[3], 3)]
  }

  function OfHalves(hs: seq<half>): (q: Quad)
    requires |hs| == 8
  {
    seq(16, k requires 0 <= k < 16 => if k % 2 == 0 then hs[k / 2] / 0x100 else hs[k / 2] % 0x100)
  }

  lemma WordSplit(v: word)
    ensures Be32(WordByte(v, 0), WordByte(v, 1), WordByte(v, 2), WordByte(v, 3)) == v
  {
    var abc, ab, a := v / 0x100, v / 0x1_0000, v / 0x100_0000;
    DivUnique(v, 0x1_0000, abc / 0x100, abc % 0x100 * 0x100 + v % 0x100);
    DivUnique(v, 0x100_0000, ab / 0x100, ab % 0x100 * 0x1_0000 + v % 0x1_0000);
  }

  lemma WordsOfWords(ws: seq<word>)
    requires |ws| == 4
    ensures Words(OfWords(ws)) == ws
  {
    var q := OfWords(ws);
    WordSplit(ws[0]); WordSplit(ws[1]); WordSplit(ws[2]); WordSplit(ws[3]);
    assert GetW(q, 0) == ws[0] && GetW(q, 1) == ws[1];
    assert GetW(q, 2) == ws[2] && GetW(q, 3) == ws[3];
  }

  lemma HalvesOfHalves(hs: seq<half>)
    requires |hs| == 8
    ensures Halves(OfHalves(hs)) == hs
  {
    var q := OfHalves(hs);
    forall i | 0 <= i < 8
      ensures Halves(q)[i] == hs[i]
    {
      assert q[2 * i] == hs[i] / 0x100 && q[2 * i + 1] == hs[i] % 0x100;
      assert GetH(q, i) == hs[i];
      hide *;
      HalvesAt(q, i);
    }
  }

  lemma HalvesAt(q: Quad, i: nat)
    requires i < 8
    ensures Halves(q)[i] == GetH(q, i)
  {
  }

  /** A register is determined by its four words. */
  lemma WordsDetermine(p: Quad, q: Quad)
    requires Words(p) == Words(q)
    ensures p == q
  {
    forall i | 0 <= i < 4
      ensures forall k :: 4 * i <= k < 4 * i + 4 ==> p[k] == q[k]
    {
      assert Words(p)[i] == Words(q)[i];
      assert GetW(p, i) == GetW(q, i);
      FourBytes(p[4 * i], p[4 * i + 1], p[4 * i + 2], p[4 * i + 3], q[4 * i], q[4 * i + 1], q[4 * i + 2], q[4 * i + 3]);
    }
    assert forall k :: 0 <= k < 16 ==> 4 * (k / 4) <= k < 4 * (k / 4) + 4;
  }

  lemma FourBytes(a: byte, b: byte, c: byte, d: byte, a': byte, b': byte, c': byte, d': byte)
    requires Be32(a, b, c, d) == Be32(a', b', c', d')
    ensures a == a' && b == b' && c == c' && d == d'
  {
  }

  lemma HalvesDetermine(p: Quad, q: Quad)
    requires Halves(p) == Halves(q)
    ensures p == q
  {
    forall i | 0 <= i < 8
      ensures p[2 * i] == q[2 * i] && p[2 * i + 1] == q[2 * i + 1]
    {
      assert Halves(p)[i] == Halves(q)[i];
      assert GetH(p, i) == GetH(q, i);
    }
    assert forall k :: 0 <= k < 16 ==> k == 2 * (k / 2) || k == 2 * (k / 2) + 1;
  }

  // ----- The 128-bit integer -----

  /** The big-endian value of a byte string. */
  function Val(s: seq<byte>): nat {
    if s == [] then 0 else Val(s[..|s| - 1]) * 0x100 + s[|s| - 1]
  }

  function Pow256(n: nat): (p: nat)
    ensures p >= 1
  {
    if n == 0 then 1 else 0x100 * Pow256(n - 1)
  }

  lemma {:induction false} ValBound(s: seq<byte>)
    ensures Val(s) < Pow256(|s|)
  {
    if s != [] { ValBound(s[..|s| - 1]); }
  }

  lemma {:induction false} ValConcat(s: seq<byte>, t: seq<byte>)
    ensures Val(s + t) == Val(s) * Pow256(|t|) + Val(t)
  {
    if t == [] {
      assert s + t == s;
    } else {
      var t' := t[..|t| - 1];
      assert (s + t)[..|s + t| - 1] == s + t';
      ValConcat(s, t');
      MulShuffle(Val(s), Pow256(|t'|));
    }
  }

  lemma MulShuffle(x: nat, p: nat)
    ensures (x * p) * 0x100 == x * (0x100 * p)
  {
  }

  lemma {:induction false} Pow256IsPow2(n: nat)
    ensures Pow256(n) == Pow2(8 * n)
  {
    if n > 0 {
      Pow256IsPow2(n - 1);
      Pow2Add(8 * (n - 1), 8);
      assert Pow2(8) == 0x100;
      assert 8 * n == 8 * (n - 1) + 8;
    }
  }

  lemma Pow256At16()
    ensures Pow256(16) == TWO128
  {
    assert Pow256(4) == TWO32;
    assert Pow256(8) == TWO32 * TWO32;
    assert Pow256(12) == TWO32 * TWO32 * TWO32;
  }

  lemma {:induction false} ValOfFour(s: seq<byte>)
    requires |s| == 4
    ensures Val(s) == Be32(s[0], s[1], s[2], s[3])
  {
    assert s[..3][..2] == s[..2] && s[..2][..1] == s[..1] && s[..1][..0] == [];
    assert Val(s[..1]) == s[0] && Val(s[..2]) == s[0] as int * 0x100 + s[1];
    assert Val(s[..3]) == Val(s[..2]) * 0x100 + s[2];
  }

  /** A word is its two halfwords, the more significant first. */
  lemma WordOfHalves(q: Quad, i: nat)
    requires i < 4
    ensures GetW(q, i) == GetH(q, 2 * i) * 0x1_0000 + GetH(q, 2 * i + 1)
  {
  }

  function ValOfWords(ws: seq<word>): nat
    requires |ws| == 4
  {
    ((ws[0] * TWO32 + ws[1]) * TWO32 + ws[2]) * TWO32 + ws[3]
  }

  /** The 128-bit value is the base-2^32 value of the four word elements. */
  lemma {:induction false} ValByWords(q: Quad)
    ensures Val(q) == ValOfWords(Words(q)) < TWO128
  {
    var a, b, c, d := q[..4], q[4..8], q[8..12], q[12..];
    assert q == ((a + b) + c) + d;
    ValConcat((a + b) + c, d);
    ValConcat(a + b, c);
    ValConcat(a, b);
    ValOfFour(a); ValOfFour(b); ValOfFour(c); ValOfFour(d);
    assert Pow256(4) == TWO32;
  }
}
