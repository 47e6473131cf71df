/**
 * The retrieval helpers of backend/rag_service.py: the mock embedding, nearest-source
 * selection and fixed-size text chunking.
 *
 * The random draws of the mock embedding are a parameter `noise`, where `noise(i)` is
 * the i-th value `random.random()` would return. pgvector's L2 distance is an abstract
 * `metric` on vectors.
 */
module RagService {
  import opened Wrappers
  import opened Seqs
  import opened Models

  /** Length of the vector the mock embedding returns. */
  const MockEmbeddingDim: nat := 1536

  /** Number of sources `search_sources` keeps when the caller names no limit. */
  const DefaultSearchLimit: nat := 3

  /** Slice length `chunk_text` uses when the caller names none. */
  const DefaultChunkSize: int := 500

  // ---------------------------------------------------------------------------
  // Embeddings
  // ---------------------------------------------------------------------------

  /** `dim` components, each `random.uniform(-1, 1)`, i.e. `-1 + 2 * random()`. */
  function UniformVector(dim: nat, noise: nat -> real): (v: seq<real>)
    ensures |v| == dim
  {
    seq(dim, i requires 0 <= i => -1.0 + 2.0 * noise(i))
  }

  lemma UniformVectorInRange(dim: nat, noise: nat -> real)
    requires forall i: nat :: 0.0 <= noise(i) < 1.0
    ensures forall j :: 0 <= j < dim ==> -1.0 <= UniformVector(dim, noise)[j] < 1.0
  {
    forall j | 0 <= j < dim ensures -1.0 <= UniformVector(dim, noise)[j] < 1.0 {
      assert 0.0 <= noise(j) < 1.0;
    }
  }

  /** The mock `get_embedding` as written: 1536 random components whatever the text. */
  function GetEmbedding(text: string, noise: nat -> real): (v: seq<real>)
    ensures |v| == MockEmbeddingDim
  {
    UniformVector(MockEmbeddingDim, noise)
  }

  /** No vector the mock returns can be stored in, or compared with, the 768-wide column. */
  lemma MockEmbeddingMissesColumn(text: string, noise: nat -> real)
    ensures !FitsEmbeddingColumn(GetEmbedding(text, noise))
  {
  }

  /** The mock embedding sized to the column it feeds; used by ingestion and search. */
  function Embed(text: string, noise: nat -> real): (v: seq<real>)
    ensures FitsEmbeddingColumn(v)
  {
    UniformVector(EmbeddingDim, noise)
  }

  // ---------------------------------------------------------------------------
  // Nearest-source search
  // ---------------------------------------------------------------------------

  function Distance(s: AcademicSource, query: seq<real>, metric: (seq<real>, seq<real>) -> real): (d: real)
  {
    metric(s.embedding, query)
  }

  predicate SortedByDistance(ss: seq<AcademicSource>, query: seq<real>, metric: (seq<real>, seq<real>) -> real)
  {
    forall i, j :: 0 <= i < j < |ss| ==> Distance(ss[i], query, metric) <= Distance(ss[j], query, metric)
  }

  function InsertByDistance(
    x: AcademicSource, ss: seq<AcademicSource>,
    query: seq<real>, metric: (seq<real>, seq<real>) -> real): (r: seq<AcademicSource>)
    requires SortedByDistance(ss, query, metric)
    ensures SortedByDistance(r, query, metric)
    ensures multiset(r) == multiset(ss) + multiset{x}
  {
    if ss == [] then [x]
    else if Distance(x, query, metric) <= Distance(ss[0], query, metric) then [x] + ss
    else
      var rest := InsertByDistance(x, ss[1..], query, metric);
      assert ss == [ss[0]] + ss[1..];
      FirstIsNearest(ss[0], x, ss[1..], rest, query, metric);
      [ss[0]] + rest
  }

  lemma FirstIsNearest(
    head: AcademicSource, x: AcademicSource, tail: seq<AcademicSource>, rest: seq<AcademicSource>,
    query: seq<real>, metric: (seq<real>, seq<real>) -> real)
    requires SortedByDistance([head] + tail, query, metric)
    requires Distance(head, query, metric) <= Distance(x, query, metric)
    requires SortedByDistance(rest, query, metric)
    requires multiset(rest) == multiset(tail) + multiset{x}
    ensures SortedByDistance([head] + rest, query, metric)
  {
    forall y | y in rest ensures Distance(head, query, metric) <= Distance(y, query, metric) {
      assert y in multiset(rest);
      if y != x {
        assert y in multiset(tail);
        var k :| 0 <= k < |tail| && tail[k] == y;
        assert ([head] + tail)[0] == head && ([head] + tail)[k + 1] == y;
      }
    }
    var s := [head] + rest;
    forall i, j | 0 <= i < j < |s| ensures Distance(s[i], query, metric) <= Distance(s[j], query, metric) {
      if i == 0 {
        assert s[j] == rest[j - 1];
      } else {
        assert s[i] == rest[i - 1] && s[j] == rest[j - 1];
      }
    }
  }

  /** The stored sources in non-decreasing order of distance to `query` (SQL `ORDER BY`). */
  function SortByDistance(ss: seq<AcademicSource>, query: seq<real>, metric: (seq<real>, seq<real>) -> real): (r: seq<AcademicSource>)
    ensures SortedByDistance(r, query, metric)
    ensures multiset(r) == multiset(ss)
  {
    if ss == [] then []
    else
      assert ss == [ss[0]] + ss[1..];
      InsertByDistance(ss[0], SortByDistance(ss[1..], query, metric), query, metric)
  }

  /**
   * The first `limit` stored sources in distance order (`ORDER BY ... LIMIT`): as many as
   * there are up to `limit`, sorted, drawn from the store, and none left out is nearer
   * than one kept.
   */
  function NearestSources(
    stored: seq<AcademicSource>, query: seq<real>, limit: nat,
    metric: (seq<real>, seq<real>) -> real): (r: seq<AcademicSource>)
    ensures |r| == Min(limit, |stored|)
    ensures SortedByDistance(r, query, metric)
    ensures multiset(r) <= multiset(stored)
    ensures forall x, y :: x in r && y in multiset(stored) - multiset(r) ==>
      Distance(x, query, metric) <= Distance(y, query, metric)
  {
    var sorted := SortByDistance(stored, query, metric);
    var k := Min(limit, |sorted|);
    SortedPrefixIsNearest(sorted, k, query, metric);
    sorted[..k]
  }

  /** The first k of a distance-sorted list are as near as any of the rest. */
  lemma SortedPrefixIsNearest(sorted: seq<AcademicSource>, k: nat, query: seq<real>, metric: (seq<real>, seq<real>) -> real)
    requires SortedByDistance(sorted, query, metric) && k <= |sorted|
    ensures multiset(sorted) == multiset(sorted[..k]) + multiset(sorted[k..])
    ensures forall x, y :: x in sorted[..k] && y in multiset(sorted) - multiset(sorted[..k]) ==>
      Distance(x, query, metric) <= Distance(y, query, metric)
  {
    assert sorted == sorted[..k] + sorted[k..];
    forall x, y | x in sorted[..k] && y in multiset(sorted) - multiset(sorted[..k])
      ensures Distance(x, query, metric) <= Distance(y, query, metric)
    {
      assert y in multiset(sorted[k..]);
      var a :| 0 <= a < k && sorted[a] == x;
      var b :| 0 <= b < |sorted| - k && sorted[k..][b] == y;
      assert sorted[k + b] == y;
    }
  }

  /**
   * `search_sources`: embed the query text, then keep the `limit` nearest stored sources.
   */
  function SearchSources(
    stored: seq<AcademicSource>, queryText: string, limit: nat,
    noise: nat -> real, metric: (seq<real>, seq<real>) -> real): (r: seq<AcademicSource>)
    ensures |r| <= limit
    ensures forall s :: s in r ==> s in stored
    ensures SortedByDistance(r, Embed(queryText, noise), metric)
  {
    var found := NearestSources(stored, Embed(queryText, noise), limit, metric);
    assert forall s :: s in found ==> s in multiset(stored);
    found
  }

  // ---------------------------------------------------------------------------
  // Chunking
  // ---------------------------------------------------------------------------

  datatype ChunkError = ZeroStep

  /** `len(range(0, n, size))` for a positive step: the ceiling of n / size. */
  function ChunkCount(n: nat, size: nat): (count: nat)
    requires size > 0
  {
    (n + size - 1) / size
  }

  lemma ChunkStartInText(n: nat, size: nat, i: nat)
    requires size > 0 && i < ChunkCount(n, size)
    ensures i * size < n
  {
    var x := n + size - 1;
    var c, m := x / size, x % size;
    assert x == c * size + m && m >= 0;
    MulMonotone(i, c - 1, size);
    assert (c - 1) * size == c * size - size;
  }

  lemma DivOfSmall(x: nat, d: nat)
    requires x < d
    ensures x / d == 0
  {
    var q := x / d;
    assert x == q * d + x % d && x % d >= 0;
    if q >= 1 {
      MulMonotone(1, q, d);
    }
  }

  lemma MulMonotone(a: nat, b: nat, k: nat)
    requires a <= b
    ensures a * k <= b * k
  {
    assert b * k == a * k + (b - a) * k;
  }

  /** `text[i*size : i*size+size]`, the slice the comprehension yields for `i`. */
  function ChunkAt(text: string, size: nat, i: nat): (chunk: string)
    requires size > 0 && i < ChunkCount(|text|, size)
    ensures 0 < |chunk| <= size
  {
    ChunkStartInText(|text|, size, i);
    text[i * size .. Min(i * size + size, |text|)]
  }

  /** `[text[i:i+size] for i in range(0, len(text), size)]` for a positive `size`. */
  function Chunks(text: string, size: nat): (chunks: seq<string>)
    requires size > 0
  {
    seq(ChunkCount(|text|, size), i requires 0 <= i < ChunkCount(|text|, size) => ChunkAt(text, size, i))
  }

  /**
   * `chunk_text`: a zero step makes `range` raise; a negative step gives an empty range.
   */
  function ChunkText(text: string, size: int := DefaultChunkSize): (r: Result<seq<string>, ChunkError>)
    ensures r.Err? <==> size == 0
    ensures size < 0 ==> r == Ok([])
    ensures size > 0 ==> r == Ok(Chunks(text, size))
  {
    if size == 0 then Err(ZeroStep)
    else if size < 0 then Ok([])
    else Ok(Chunks(text, size))
  }

  lemma DivStep(x: nat, d: nat)
    requires d > 0
    ensures (x + d) / d == x / d + 1
  {
    var q, m := x / d, x % d;
    var q', m' := (x + d) / d, (x + d) % d;
    assert x == q * d + m && 0 <= m < d;
    assert x + d == q' * d + m' && 0 <= m' < d;
    var k := q' - q - 1;
    assert k * d == m - m' by {
      assert q' * d - (q + 1) * d == m - m';
      assert (q' - (q + 1)) * d == q' * d - (q + 1) * d;
    }
    assert k == 0;
  }

  /** A text longer than `size` has one chunk more than the text after its first `size` characters. */
  lemma ChunkCountStep(n: nat, size: nat)
    requires size > 0 && n > size
    ensures ChunkCount(n, size) == 1 + ChunkCount(n - size, size)
  {
    DivStep(n - 1, size);
  }

  /** Chunk i + 1 of the text is chunk i of the text after its first `size` characters. */
  lemma ChunkAtShift(text: string, size: nat, i: nat)
    requires size > 0 && |text| > size && i < ChunkCount(|text| - size, size)
    ensures ChunkCount(|text|, size) == 1 + ChunkCount(|text| - size, size)
    ensures ChunkAt(text, size, i + 1) == ChunkAt(text[size..], size, i)
  {
    ChunkCountStep(|text|, size);
    ChunkStartInText(|text| - size, size, i);
    assert (i + 1) * size == size + i * size;
  }

  /** A text no longer than `size` is a single chunk. */
  lemma ChunksOfShortText(text: string, size: nat)
    requires size > 0 && 0 < |text| <= size
    ensures Chunks(text, size) == [text]
  {
    var n, r := |text|, Chunks(text, size);
    DivStep(n - 1, size);
    DivOfSmall(n - 1, size);
    assert |r| == 1;
    assert r[0] == text[..n] == text;
    assert r == [text];
  }

  /** A text longer than `size` is its first `size` characters followed by the chunks of the rest. */
  lemma ChunksOfLongText(text: string, size: nat)
    requires size > 0 && |text| > size
    ensures Chunks(text, size) == [text[..size]] + Chunks(text[size..], size)
  {
    var r, rt := Chunks(text, size), Chunks(text[size..], size);
    var expected := [text[..size]] + rt;
    ChunkCountStep(|text|, size);
    assert |r| == |expected|;
    forall i | 0 <= i < |r| ensures r[i] == expected[i] {
      if i > 0 {
        ChunkAtShift(text, size, i - 1);
      }
    }
  }

  /** The chunks built front to back: the first slice, then the chunks of what follows it. */
  function ChunkList(text: string, size: nat): (chunks: seq<string>)
    requires size > 0
    decreases |text|
  {
    if |text| == 0 then []
    else
      var k := Min(size, |text|);
      [text[..k]] + ChunkList(text[k..], size)
  }

  /** The comprehension `chunk_text` evaluates yields the same list as `ChunkList`. */
  lemma {:induction false} ChunksAreChunkList(text: string, size: nat)
    requires size > 0
    ensures Chunks(text, size) == ChunkList(text, size)
    decreases |text|
  {
    if |text| == 0 {
      assert ChunkCount(0, size) == 0;
    } else if |text| <= size {
      ChunksOfShortText(text, size);
      assert text[|text|..] == [];
    } else {
      ChunksOfLongText(text, size);
      ChunksAreChunkList(text[size..], size);
    }
  }

  lemma {:induction false} ChunkListConcat(text: string, size: nat)
    requires size > 0
    ensures Concat(ChunkList(text, size)) == text
    decreases |text|
  {
    if |text| > 0 {
      var k := Min(size, |text|);
      ChunkListConcat(text[k..], size);
      ConcatCons(text[..k], ChunkList(text[k..], size));
      assert text == text[..k] + text[k..];
    }
  }

  /** Joining the chunks in order gives back the text exactly. */
  lemma ChunksConcat(text: string, size: nat)
    requires size > 0
    ensures Concat(Chunks(text, size)) == text
  {
    ChunksAreChunkList(text, size);
    ChunkListConcat(text, size);
  }

  /**
   * Chunk i is the text from offset i * size on; it is non-empty and at most `size`
   * long, and every chunk but the last is exactly `size` long.
   */
  lemma ChunkShape(text: string, size: nat)
    requires size > 0
    ensures forall i :: 0 <= i < |Chunks(text, size)| ==>
      && i * size + |Chunks(text, size)[i]| <= |text|
      && Chunks(text, size)[i] == text[i * size .. i * size + |Chunks(text, size)[i]|]
      && 0 < |Chunks(text, size)[i]| <= size
      && (i < |Chunks(text, size)| - 1 ==> |Chunks(text, size)[i]| == size)
  {
    var r := Chunks(text, size);
    forall i | 0 <= i < |r|
      ensures i * size + |r[i]| <= |text| && r[i] == text[i * size .. i * size + |r[i]|]
      ensures 0 < |r[i]| <= size && (i < |r| - 1 ==> |r[i]| == size)
    {
      ChunkStartInText(|text|, size, i);
      if i < |r| - 1 {
        ChunkStartInText(|text|, size, i + 1);
        assert (i + 1) * size == i * size + size;
      }
    }
  }

  /** There are ceil(|text| / size) chunks: enough to cover the text, with no chunk to spare. */
  lemma ChunkCountIsCeiling(text: string, size: nat)
    requires size > 0
    ensures |Chunks(text, size)| * size >= |text|
    ensures |text| > 0 ==> (|Chunks(text, size)| - 1) * size < |text|
    ensures text == [] <==> Chunks(text, size) == []
  {
    var n, c := |text|, ChunkCount(|text|, size);
    var m := (n + size - 1) % size;
    assert n + size - 1 == c * size + m && m < size;
    if n > 0 {
      DivStep(n - 1, size);
      assert c >= 1;
      ChunkStartInText(n, size, c - 1);
    }
  }
}
