/** The vertices the rasterizer fetches for a draw (`edge_rasterize_triangles` in
`runtime_glue.cpp`), against those that the batch's DRAW_ARRAYS chunks name. */
module DrawFetch {
  import opened Bits
  import opened Draw

  /** The one count for which the triangle loop's unsigned `tri + 2` wraps before it ends. */
  const WRAPPING_COUNT: nat := 0xFFFF_FFFF

  // ----- The fetch loop -----

  /** Address of vertex `i` of a draw, sixteen bytes each. */
  function VertexAt(d: Output, i: nat): word
    requires d.Drawn?
  {
    Add32(d.vertexEa, i * 16)
  }

  /** `tri` before round `n` of the loop. */
  function Tri(n: nat): word {
    3 * n % TWO32
  }

  predicate Going(tri: word, count: word) {
    (tri + 2) % TWO32 < count
  }

  /** What one round fetches. */
  function Corners(d: Output, tri: word): (r: seq<word>)
    requires d.Drawn?
    ensures |r| == 3
  {
    [VertexAt(d, tri), VertexAt(d, tri + 1), VertexAt(d, tri + 2)]
  }

  /** What the rounds from `n` on fetch. The loop has come round to its end by round 2^32 - 1. */
  function FetchedFrom(d: Output, n: nat): seq<word>
    requires d.Drawn? && n < TWO32
    decreases TWO32 - n
  {
    if n < TWO32 - 1 && Going(Tri(n), d.count) then
      Corners(d, Tri(n)) + FetchedFrom(d, n + 1)
    else []
  }

  /** The addresses of all vertices fetched for a draw, in order. */
  function Fetched(d: Output): seq<word>
    requires d.Drawn?
  {
    FetchedFrom(d, 0)
  }

  lemma LastRound(count: word)
    ensures !Going(Tri(TWO32 - 1), count)
  {
  }

  lemma RoundGoes(d: Output, n: nat)
    requires d.Drawn? && n < TWO32 && Going(Tri(n), d.count)
    ensures n < TWO32 - 1 && FetchedFrom(d, n) == Corners(d, Tri(n)) + FetchedFrom(d, n + 1)
  {
    hide Going, Tri;
    LastRound(d.count);
  }

  lemma {:induction false} RoundStops(d: Output, n: nat)
    requires d.Drawn? && n < TWO32 && !Going(Tri(n), d.count)
    ensures FetchedFrom(d, n) == []
  {
    hide Going, Tri;
  }

  /** The triangle loop. */
  method FetchVertices(d: Output) returns (fetched: seq<word>)
    requires d.Drawn?
    ensures fetched == Fetched(d)
  {
    hide VertexAt, Going, Tri, FetchedFrom;
    fetched := [];
    var tri: word := 0;
    ghost var n: nat := 0;
    TriStarts();
    while Going(tri, d.count)
      invariant n < TWO32 && tri == Tri(n)
      invariant Fetched(d) == fetched + FetchedFrom(d, n)
      decreases TWO32 - n
    {
      RoundGoes(d, n);
      ghost var before := fetched;
      fetched := FetchTriangle(d, tri, fetched);
      assert before + (Corners(d, tri) + FetchedFrom(d, n + 1)) == fetched + FetchedFrom(d, n + 1);
      TriSteps(n);
      tri := (tri + 3) % TWO32;
      n := n + 1;
    }
    RoundStops(d, n);
    assert fetched + [] == fetched;
  }

  /** The inner loop: the three vertices of one triangle. */
  method FetchTriangle(d: Output, tri: word, before: seq<word>) returns (fetched: seq<word>)
    requires d.Drawn?
    ensures fetched == before + Corners(d, tri)
  {
    hide VertexAt;
    fetched := before;
    for i := 0 to 3
      invariant fetched == before + Corners(d, tri)[..i]
    {
      fetched := fetched + [VertexAt(d, tri + i)];
    }
  }

  lemma TriStarts()
    ensures Tri(0) == 0
  {
  }

  lemma TriSteps(n: nat)
    ensures Tri(n + 1) == (Tri(n) + 3) % TWO32
  {
  }

  /** The first `m` vertices of a draw. */
  function FirstVertices(d: Output, m: nat): (r: seq<word>)
    requires d.Drawn?
    ensures |r| == m
  {
    seq(m, i requires 0 <= i < m => VertexAt(d, i))
  }

  /** The vertices of whole triangles among `count`. */
  function Whole(count: nat): (n: nat)
    ensures n <= count < n + 3 && n % 3 == 0
  {
    count / 3 * 3
  }

  /** For every count but the largest, the loop fetches the vertices of the whole triangles. */
  lemma {:induction false} FetchedFromRound(d: Output, n: nat)
    requires d.Drawn? && d.count != WRAPPING_COUNT && 3 * n <= Whole(d.count)
    ensures FetchedFrom(d, n) == FirstVertices(d, Whole(d.count))[3 * n..]
    decreases d.count - 3 * n
  {
    NotWrapped(d.count, n);
    hide VertexAt, Going, Tri, FetchedFrom, Whole;
    var all := FirstVertices(d, Whole(d.count));
    if 3 * n < Whole(d.count) {
      RoundGoes(d, n);
      FetchedFromRound(d, n + 1);
      assert all[3 * n..] == Corners(d, 3 * n) + all[3 * n + 3..];
    } else {
      RoundStops(d, n);
    }
  }

  lemma NotWrapped(count: word, n: nat)
    requires count != WRAPPING_COUNT && 3 * n <= Whole(count)
    ensures n < TWO32 - 1 && Tri(n) == 3 * n && (Going(Tri(n), count) <==> 3 * n < Whole(count))
    ensures 3 * n < Whole(count) ==> 3 * (n + 1) <= Whole(count)
  {
    hide Whole;
  }

  /** For the largest count the loop runs three times round the address space. */
  lemma {:induction false} WrappingFetch(d: Output, n: nat)
    requires d.Drawn? && d.count == WRAPPING_COUNT && n < TWO32
    ensures |FetchedFrom(d, n)| == 3 * (TWO32 - 1 - n)
    decreases TWO32 - n
  {
    hide VertexAt, Going, Tri;
    if n < TWO32 - 1 {
      WrappingGoes(n);
      WrappingFetch(d, n + 1);
    }
  }

  lemma WrappingGoes(n: nat)
    requires n < TWO32 - 1
    ensures Going(Tri(n), WRAPPING_COUNT)
  {
    var k, r := 3 * n / TWO32, 3 * n % TWO32;
    assert 3 * n == k * TWO32 + r && k <= 2;
  }

  lemma FetchedIs(d: Output)
    requires d.Drawn?
    ensures d.count != WRAPPING_COUNT ==> Fetched(d) == FirstVertices(d, Whole(d.count))
    ensures d.count == WRAPPING_COUNT ==> |Fetched(d)| > d.count
  {
    hide FetchedFrom, FirstVertices;
    if d.count != WRAPPING_COUNT {
      FetchedFromRound(d, 0);
    } else {
      WrappingFetch(d, 0);
    }
  }

  // ----- The vertices a batch names -----

  /** Address of a vertex of attribute 0, from the attribute's offset on. */
  function VertexAddress(s: State, v: nat): word {
    Add32(IoToEa(s.vtxOffset[0]), v * 16)
  }

  function VertexAddresses(s: State, vs: seq<nat>): (r: seq<word>)
    ensures |r| == |vs|
  {
    seq(|vs|, i requires 0 <= i < |vs| => VertexAddress(s, vs[i]))
  }

  /** The vertices of a batch's whole triangles. */
  function TriangleVertices(cs: seq<Chunk>): (vs: seq<nat>)
    ensures |vs| == Whole(Total(cs))
  {
    Vertices(cs)[..Whole(Total(cs))]
  }

  lemma Add32Twice(a: nat, b: nat, c: nat)
    ensures Add32(Add32(a, b), c) == Add32(a, b + c)
  {
  }

  /** Vertex `i` of a batch's draw is the vertex `i` places after the batch's first start. */
  lemma {:induction false} DrawnVertex(s: State, cs: seq<Chunk>, i: nat)
    requires cs != [] && Total(cs) < TWO32
    ensures VertexAt(Drawn(DrawAddress(s, cs), Total(cs)), i) == VertexAddress(s, cs[0].first + i)
  {
    hide Total, IoToEa, Add32;
    Add32Twice(IoToEa(s.vtxOffset[0]), cs[0].first * 16, i * 16);
  }

  /** Vertex indices are too small for two of them, or the one after one, to share an address. */
  lemma SameAddress(s: State, x: nat, y: nat)
    requires x < 0x1000_0000 && y < 0x1000_0000 && VertexAddress(s, x) == VertexAddress(s, y)
    ensures x == y
  {
    SameAdd32(IoToEa(s.vtxOffset[0]), x, y);
  }

  lemma SameAdd32(base: word, x: nat, y: nat)
    requires x < 0x1000_0000 && y < 0x1000_0000 && Add32(base, x * 16) == Add32(base, y * 16)
    ensures x == y
  {
    hide Add32;
    WrappedOnce(base, x * 16);
    WrappedOnce(base, y * 16);
  }

  lemma WrappedOnce(base: word, b: nat)
    requires b < TWO32
    ensures Add32(base, b) == base + b || Add32(base, b) == base + b - TWO32
  {
  }

  /** Vertex indices that chunks can name. */
  const INDEX_LIMIT: nat := 0x100_0100

  lemma {:induction false} IndicesBounded(cs: seq<Chunk>)
    requires ChunksOk(cs)
    ensures forall i :: 0 <= i < |Vertices(cs)| ==> Vertices(cs)[i] < INDEX_LIMIT
  {
    if cs != [] {
      var f, c := cs[..|cs| - 1], cs[|cs| - 1];
      assert ChunkOk(c);
      IndicesBounded(f);
      VerticesSplit(cs);
      hide Vertices, Total;
    }
  }

  lemma {:induction false} FirstIndex(cs: seq<Chunk>)
    requires cs != [] && ChunksOk(cs)
    ensures Total(cs) > 0 && Vertices(cs)[0] == cs[0].first
  {
    FirstIndexOf(cs);
  }

  lemma {:induction false} FirstIndexOf(cs: seq<Chunk>)
    requires cs != [] && ChunksOk(cs)
    ensures Total(cs) > 0 && Vertices(cs)[0] == cs[0].first
  {
    assert ChunkOk(cs[|cs| - 1]);
    VerticesSplit(cs);
    if |cs| > 1 {
      FirstIndexOf(cs[..|cs| - 1]);
    } else {
      TotalOfNone(cs[..0]);
    }
  }

  /** The addresses of the first `m` vertices are those of a range exactly when the indices are. */
  lemma {:induction false} AddressesTell(s: State, vs: seq<nat>, start: nat, m: nat)
    requires m <= |vs| && start < INDEX_LIMIT && (|vs| > 0 ==> vs[0] == start)
    requires forall i :: 0 <= i < |vs| ==> vs[i] < INDEX_LIMIT
    requires forall i :: 0 <= i < m ==> VertexAddress(s, vs[i]) == VertexAddress(s, start + i)
    ensures Consecutive(vs[..m], start)
  {
    hide VertexAddress;
    if m > 0 {
      AddressesTell(s, vs, start, m - 1);
      var last := m - 1;
      if last > 0 {
        assert vs[..last][last - 1] == start + (last - 1);
        SameAddress(s, vs[last], start + last);
      }
    }
  }

  // ----- What is fetched, exactly -----

  /** The chunks of a batch name consecutive vertices as far as whole triangles go. */
  predicate TrianglesCondition(cs: seq<Chunk>) {
    cs != [] && Consecutive(TriangleVertices(cs), cs[0].first) && Total(cs) != WRAPPING_COUNT
  }

  /** The chunks are contiguous and make whole triangles. */
  predicate BatchCondition(cs: seq<Chunk>) {
    Contiguous(cs) && Total(cs) % 3 == 0 && Total(cs) != WRAPPING_COUNT
  }

  lemma {:induction false} PrefixIff(s: State, cs: seq<Chunk>, n: nat)
    requires cs != [] && ChunksOk(cs) && Total(cs) < TWO32 && n <= Total(cs)
    ensures FirstVertices(Drawn(DrawAddress(s, cs), Total(cs)), n) == VertexAddresses(s, Vertices(cs)[..n]) <==>
      Consecutive(Vertices(cs)[..n], cs[0].first)
  {
    var d, vs, start := Drawn(DrawAddress(s, cs), Total(cs)), Vertices(cs), cs[0].first;
    FirstIndex(cs);
    IndicesBounded(cs);
    hide Vertices, Total, VertexAt, VertexAddress, DrawAddress, ChunksOk;
    forall i: nat
      ensures VertexAt(d, i) == VertexAddress(s, start + i)
    {
      DrawnVertex(s, cs, i);
    }
    hide *;
    RangeIff(s, d, vs, start, n);
  }

  lemma RangeIff(s: State, d: Output, vs: seq<nat>, start: nat, n: nat)
    requires d.Drawn? && n <= |vs| && start < INDEX_LIMIT && (|vs| > 0 ==> vs[0] == start)
    requires forall i :: 0 <= i < |vs| ==> vs[i] < INDEX_LIMIT
    requires forall i: nat :: VertexAt(d, i) == VertexAddress(s, start + i)
    ensures FirstVertices(d, n) == VertexAddresses(s, vs[..n]) <==> Consecutive(vs[..n], start)
  {
    hide VertexAt, VertexAddress;
    var got, wanted := FirstVertices(d, n), VertexAddresses(s, vs[..n]);
    if got == wanted {
      forall i | 0 <= i < n
        ensures VertexAddress(s, vs[i]) == VertexAddress(s, start + i)
      {
        assert got[i] == wanted[i];
      }
      AddressesTell(s, vs, start, n);
    }
  }

  /** The rasterizer fetches exactly the vertices of the batch's whole triangles if and only if
  these are consecutive (and their number is not the one that wraps the loop). */
  lemma {:induction false} FetchesTrianglesIff(s: State, cs: seq<Chunk>)
    requires cs != [] && ChunksOk(cs) && Total(cs) < TWO32
    ensures Fetched(Drawn(DrawAddress(s, cs), Total(cs))) == VertexAddresses(s, TriangleVertices(cs)) <==>
      TrianglesCondition(cs)
  {
    hide Fetched, FirstVertices, VertexAddresses, Vertices, Total, Consecutive, Whole, DrawAddress;
    FetchedIs(Drawn(DrawAddress(s, cs), Total(cs)));
    PrefixIff(s, cs, Whole(Total(cs)));
  }

  /** The rasterizer fetches exactly the vertices the batch names if and only if its chunks are
  contiguous and make whole triangles. */
  lemma {:induction false} FetchesBatchIff(s: State, cs: seq<Chunk>)
    requires cs != [] && ChunksOk(cs) && Total(cs) < TWO32
    ensures Fetched(Drawn(DrawAddress(s, cs), Total(cs))) == VertexAddresses(s, Vertices(cs)) <==> BatchCondition(cs)
  {
    ContiguousRange(cs);
    hide Fetched, FirstVertices, VertexAddresses, Vertices, Total, Consecutive, Contiguous, DrawAddress;
    FetchedIs(Drawn(DrawAddress(s, cs), Total(cs)));
    PrefixIff(s, cs, Whole(Total(cs)));
    assert Total(cs) % 3 == 0 ==> Vertices(cs)[..Total(cs)] == Vertices(cs);
  }

  /** The range a draw stands for, all of it, is the batch's vertices if and only if the chunks
  are contiguous. */
  lemma {:induction false} DrawNamesVerticesIff(s: State, cs: seq<Chunk>)
    requires cs != [] && ChunksOk(cs) && Total(cs) < TWO32
    ensures FirstVertices(Drawn(DrawAddress(s, cs), Total(cs)), Total(cs)) == VertexAddresses(s, Vertices(cs)) <==>
      Contiguous(cs)
  {
    ContiguousRange(cs);
    hide FirstVertices, VertexAddresses, Vertices, Total, Consecutive, Contiguous, DrawAddress;
    PrefixIff(s, cs, Total(cs));
    assert Vertices(cs)[..Total(cs)] == Vertices(cs);
  }

  /** For contiguous chunks of whole triangles: one address per vertex, sixteen bytes apart, from the
  first vertex of the attribute's array on. */
  lemma {:induction false} ContiguousFetch(s: State, cs: seq<Chunk>)
    requires cs != [] && ChunksOk(cs) && Total(cs) < TWO32 && BatchCondition(cs)
    ensures var f, off := Fetched(Drawn(DrawAddress(s, cs), Total(cs))), s.vtxOffset[0];
      |f| == Total(cs) && forall i :: 0 <= i < |f| ==>
        f[i] == ((if off < 0x100_0000 then 0xD010_0000 + off else off) + 16 * (cs[0].first + i)) % 0x1_0000_0000
  {
    FetchesBatchIff(s, cs);
    ContiguousRange(cs);
    hide Fetched, Vertices, Total, DrawAddress;
  }

  // ----- Batches that are not fetched as they say -----

  /** Two triangles far apart: vertices 3, 4 and 5 are fetched instead of 100, 101 and 102. */
  lemma ScatteredTriangles(s: State)
    ensures var cs := [Chunk(0, 3), Chunk(100, 3)];
      Total(cs) == 6 && Fetched(Drawn(DrawAddress(s, cs), Total(cs))) != VertexAddresses(s, TriangleVertices(cs))
  {
    var cs := [Chunk(0, 3), Chunk(100, 3)];
    TwoChunks(Chunk(0, 3), Chunk(100, 3));
    assert TriangleVertices(cs)[3] == 100;
    hide Fetched, Vertices, VertexAddresses, Total;
    FetchesTrianglesIff(s, cs);
  }

  /** One chunk of four: the fourth vertex is never fetched. */
  lemma FourthVertexDropped(s: State)
    ensures var cs := [Chunk(0, 4)];
      Contiguous(cs) && Total(cs) == 4 &&
      Fetched(Drawn(DrawAddress(s, cs), Total(cs))) != VertexAddresses(s, Vertices(cs))
  {
    var cs := [Chunk(0, 4)];
    OneChunk(Chunk(0, 4));
    hide Fetched, Vertices, VertexAddresses, Total;
    FetchesBatchIff(s, cs);
  }

  /** A stray fourth vertex does no harm: the one whole triangle is fetched as named. */
  lemma StrayVertexHarmless(s: State)
    ensures var cs := [Chunk(0, 3), Chunk(100, 1)];
      !Contiguous(cs) && Total(cs) == 4 &&
      Fetched(Drawn(DrawAddress(s, cs), Total(cs))) == VertexAddresses(s, TriangleVertices(cs))
  {
    var cs := [Chunk(0, 3), Chunk(100, 1)];
    TwoChunks(Chunk(0, 3), Chunk(100, 1));
    hide Fetched, Vertices, VertexAddresses, Total;
    FetchesTrianglesIff(s, cs);
    assert cs[1].first != cs[0].first + cs[0].count;
  }

  lemma OneChunk(c: Chunk)
    ensures Total([c]) == c.count && Vertices([c]) == ChunkVertices(c)
  {
    assert [c][..0] == [];
    assert Total([]) == 0 && Vertices([]) == [];
    assert [] + ChunkVertices(c) == ChunkVertices(c);
  }

  lemma TwoChunks(b: Chunk, c: Chunk)
    ensures Total([b, c]) == b.count + c.count && Vertices([b, c]) == ChunkVertices(b) + ChunkVertices(c)
  {
    assert [b, c][..1] == [b];
    OneChunk(b);
  }
}
