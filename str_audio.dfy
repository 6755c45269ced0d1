/** De-interleaving of STR audio (core/grim/src/audio/str.rs). The data is a run of chunks of
  * 1024 bytes (the last one may be shorter); the first half of a chunk holds the left channel and
  * the second half the right channel, and the output of a chunk alternates two left bytes and two
  * right bytes. A scratch buffer of 1024 bytes, kept from chunk to chunk, holds the rearranged
  * chunk before it is copied back. */
module StrAudio {
  import opened Ints

  /** `STR_INTERLEAVE_SIZE * STR_CHANNELS`. */
  const CHUNK_SIZE: nat := 1024

  /** Where left byte `i` of a chunk goes: `((i >> 1) * 4) + (i & 1)`. */
  function LeftTarget(i: nat): nat {
    (i / 2) * 4 + i % 2
  }

  /** Where right byte `i` of a chunk goes: two after the left byte of the same number. */
  function RightTarget(i: nat): nat {
    LeftTarget(i) + 2
  }

  /** The channel byte number that output position `p` receives: positions `p % 4 < 2` take left
    * bytes, the others right bytes. */
  function Source(p: nat): nat {
    2 * (p / 4) + p % 2
  }

  /** Division by four is determined by quotient and remainder. */
  lemma QuotRem4(a: nat, q: nat, r: nat)
    requires a == 4 * q + r && r < 4
    ensures a / 4 == q && a % 4 == r
  {
  }

  /** Division by two is determined by quotient and remainder. */
  lemma QuotRem2(a: nat, q: nat, r: nat)
    requires a == 2 * q + r && r < 2
    ensures a / 2 == q && a % 2 == r
  {
  }

  lemma TargetFacts(i: nat)
    ensures LeftTarget(i) % 4 == i % 2 && Source(LeftTarget(i)) == i
    ensures RightTarget(i) % 4 == 2 + i % 2 && Source(RightTarget(i)) == i
  {
    var q, r := i / 2, i % 2;
    QuotRem2(i, q, r);
    QuotRem4(LeftTarget(i), q, r);
    QuotRem4(RightTarget(i), q, r + 2);
    QuotRem2(LeftTarget(i), 2 * q, r);
    QuotRem2(RightTarget(i), 2 * q + 1, r);
  }

  lemma SourceFacts(p: nat)
    ensures p % 4 < 2 ==> LeftTarget(Source(p)) == p
    ensures p % 4 >= 2 ==> RightTarget(Source(p)) == p
  {
    var q, r := p / 4, p % 4;
    QuotRem4(p, q, r);
    QuotRem2(p, 2 * q + r / 2, r % 2);
    QuotRem2(Source(p), q, p % 2);
  }

  /** Targets below 1024 for channel bytes below 512. */
  lemma TargetBounds(i: nat)
    requires i < CHUNK_SIZE / 2
    ensures RightTarget(i) < CHUNK_SIZE
  {
  }

  /** The scratch buffer after the left loop has written bytes `0 .. nl` of the chunk and the right
    * loop bytes `0 .. nr` of the second half; the other positions keep `buf`. */
  function Written(buf: seq<U8>, chunk: seq<U8>, nl: nat, nr: nat): (r: seq<U8>)
    requires |buf| == CHUNK_SIZE && |chunk| <= CHUNK_SIZE
    requires nl <= |chunk| / 2 && nr <= |chunk| - |chunk| / 2
    ensures |r| == CHUNK_SIZE
  {
    seq(CHUNK_SIZE, p requires 0 <= p < CHUNK_SIZE =>
      if p % 4 < 2 then (if Source(p) < nl then chunk[Source(p)] else buf[p])
      else (if Source(p) < nr then chunk[|chunk| / 2 + Source(p)] else buf[p]))
  }

  lemma WrittenNothing(buf: seq<U8>, chunk: seq<U8>)
    requires |buf| == CHUNK_SIZE && |chunk| <= CHUNK_SIZE
    ensures Written(buf, chunk, 0, 0) == buf
  {
  }

  /** The scratch buffer after both loops over `chunk`. */
  function Scattered(buf: seq<U8>, chunk: seq<U8>): (r: seq<U8>)
    requires |buf| == CHUNK_SIZE && |chunk| <= CHUNK_SIZE
    ensures |r| == CHUNK_SIZE
  {
    Written(buf, chunk, |chunk| / 2, |chunk| - |chunk| / 2)
  }

  /** Left byte `i` lands at its left target; right byte `i` lands at its right target when it
    * fits in the buffer; every position no byte is sent to keeps the buffer's old byte. */
  lemma ScatteredPlaces(buf: seq<U8>, chunk: seq<U8>)
    requires |buf| == CHUNK_SIZE && |chunk| <= CHUNK_SIZE
    ensures forall i :: 0 <= i < |chunk| / 2 ==> Scattered(buf, chunk)[LeftTarget(i)] == chunk[i]
    ensures forall i :: 0 <= i < |chunk| - |chunk| / 2 && RightTarget(i) < CHUNK_SIZE ==>
      Scattered(buf, chunk)[RightTarget(i)] == chunk[|chunk| / 2 + i]
    ensures forall p :: 0 <= p < CHUNK_SIZE ==>
      (if p % 4 < 2 then Source(p) >= |chunk| / 2 else Source(p) >= |chunk| - |chunk| / 2) ==>
      Scattered(buf, chunk)[p] == buf[p]
  {
    forall i | 0 <= i < |chunk| / 2
      ensures LeftTarget(i) < CHUNK_SIZE && Scattered(buf, chunk)[LeftTarget(i)] == chunk[i]
    {
      LeftPlaced(buf, chunk, i);
    }
    forall i | 0 <= i < |chunk| - |chunk| / 2 && RightTarget(i) < CHUNK_SIZE
      ensures Scattered(buf, chunk)[RightTarget(i)] == chunk[|chunk| / 2 + i]
    {
      RightPlaced(buf, chunk, i);
    }
  }

  lemma LeftPlaced(buf: seq<U8>, chunk: seq<U8>, i: nat)
    requires |buf| == CHUNK_SIZE && |chunk| <= CHUNK_SIZE && i < |chunk| / 2
    ensures LeftTarget(i) < CHUNK_SIZE && Scattered(buf, chunk)[LeftTarget(i)] == chunk[i]
  {
    TargetBounds(i);
    var t := LeftTarget(i);
    assert t % 4 < 2 && Source(t) == i by { TargetFacts(i); }
  }

  lemma RightPlaced(buf: seq<U8>, chunk: seq<U8>, i: nat)
    requires |buf| == CHUNK_SIZE && |chunk| <= CHUNK_SIZE && i < |chunk| - |chunk| / 2
    requires RightTarget(i) < CHUNK_SIZE
    ensures Scattered(buf, chunk)[RightTarget(i)] == chunk[|chunk| / 2 + i]
  {
    var t := RightTarget(i);
    assert t % 4 >= 2 && Source(t) == i by { TargetFacts(i); }
  }

  lemma LeftStep(buf: seq<U8>, chunk: seq<U8>, i: nat)
    requires |buf| == CHUNK_SIZE && |chunk| <= CHUNK_SIZE && i < |chunk| / 2
    ensures LeftTarget(i) < CHUNK_SIZE
    ensures Written(buf, chunk, i + 1, 0) == Written(buf, chunk, i, 0)[LeftTarget(i) := chunk[i]]
  {
    TargetFacts(i);
    TargetBounds(i);
    var after := Written(buf, chunk, i + 1, 0);
    var update := Written(buf, chunk, i, 0)[LeftTarget(i) := chunk[i]];
    forall p | 0 <= p < CHUNK_SIZE
      ensures after[p] == update[p]
    {
      LeftStepAt(buf, chunk, i, p);
    }
  }

  /** One position of `LeftStep`. */
  lemma LeftStepAt(buf: seq<U8>, chunk: seq<U8>, i: nat, p: nat)
    requires |buf| == CHUNK_SIZE && |chunk| <= CHUNK_SIZE && i < |chunk| / 2
    requires p < CHUNK_SIZE && LeftTarget(i) < CHUNK_SIZE
    ensures Written(buf, chunk, i + 1, 0)[p] == Written(buf, chunk, i, 0)[LeftTarget(i) := chunk[i]][p]
  {
    var a, b := Written(buf, chunk, i + 1, 0), Written(buf, chunk, i, 0);
    var u := b[LeftTarget(i) := chunk[i]];
    if p == LeftTarget(i) {
      assert a[p] == chunk[i] by { TargetFacts(i); }
      assert u[p] == chunk[i];
    } else {
      assert u[p] == b[p];
      assert a[p] == b[p] by {
        SourceFacts(p);
        if p % 4 < 2 {
          assert Source(p) != i;
        }
      }
    }
  }

  lemma RightStep(buf: seq<U8>, chunk: seq<U8>, i: nat)
    requires |buf| == CHUNK_SIZE && |chunk| <= CHUNK_SIZE && i < |chunk| - |chunk| / 2
    ensures RightTarget(i) < CHUNK_SIZE
    ensures Written(buf, chunk, |chunk| / 2, i + 1)
      == Written(buf, chunk, |chunk| / 2, i)[RightTarget(i) := chunk[|chunk| / 2 + i]]
  {
    TargetFacts(i);
    TargetBounds(i);
    var after := Written(buf, chunk, |chunk| / 2, i + 1);
    var update := Written(buf, chunk, |chunk| / 2, i)[RightTarget(i) := chunk[|chunk| / 2 + i]];
    forall p | 0 <= p < CHUNK_SIZE
      ensures after[p] == update[p]
    {
      RightStepAt(buf, chunk, i, p);
    }
  }

  /** One position of `RightStep`. */
  lemma RightStepAt(buf: seq<U8>, chunk: seq<U8>, i: nat, p: nat)
    requires |buf| == CHUNK_SIZE && |chunk| <= CHUNK_SIZE && i < |chunk| - |chunk| / 2
    requires p < CHUNK_SIZE && RightTarget(i) < CHUNK_SIZE
    ensures Written(buf, chunk, |chunk| / 2, i + 1)[p]
      == Written(buf, chunk, |chunk| / 2, i)[RightTarget(i) := chunk[|chunk| / 2 + i]][p]
  {
    var h := |chunk| / 2;
    var a, b := Written(buf, chunk, h, i + 1), Written(buf, chunk, h, i);
    var u := b[RightTarget(i) := chunk[h + i]];
    if p == RightTarget(i) {
      assert a[p] == chunk[h + i] by { TargetFacts(i); }
      assert u[p] == chunk[h + i];
    } else {
      assert u[p] == b[p];
      assert a[p] == b[p] by {
        SourceFacts(p);
        if p % 4 >= 2 {
          assert Source(p) != i;
        }
      }
    }
  }

  /** `deinterleave_str` over the data from a buffer state `buf`: each chunk is replaced by the front
    * of the scattered buffer, which is carried to the next chunk. */
  function DeinterleaveFrom(buf: seq<U8>, data: seq<U8>): (r: seq<U8>)
    requires |buf| == CHUNK_SIZE
    ensures |r| == |data|
    decreases |data|
  {
    if data == [] then []
    else
      var n := if |data| < CHUNK_SIZE then |data| else CHUNK_SIZE;
      var next := Scattered(buf, data[..n]);
      next[..n] + DeinterleaveFrom(next, data[n..])
  }

  lemma ChunkStep(buf: seq<U8>, data: seq<U8>, n: nat)
    requires |buf| == CHUNK_SIZE && data != [] && n == if |data| < CHUNK_SIZE then |data| else CHUNK_SIZE
    ensures DeinterleaveFrom(buf, data)
      == Scattered(buf, data[..n])[..n] + DeinterleaveFrom(Scattered(buf, data[..n]), data[n..])
  {
  }

  /** A zeroed buffer, as `vec![0u8; …]` makes. */
  function Zeros(n: nat): (z: seq<U8>)
    ensures |z| == n && forall i :: 0 <= i < n ==> z[i] == 0
  {
    seq(n, _ => 0)
  }

  /** The whole of `deinterleave_str`. */
  function Deinterleave(data: seq<U8>): (r: seq<U8>)
    ensures |r| == |data|
  {
    DeinterleaveFrom(Zeros(CHUNK_SIZE), data)
  }

  // ---- Chunks whose length is a multiple of four ----

  /** The rearranged form of a chunk whose length is a multiple of four. */
  function DeinterleaveBlock(c: seq<U8>): (r: seq<U8>)
    requires |c| % 4 == 0
    ensures |r| == |c|
  {
    seq(|c|, p requires 0 <= p < |c| =>
      if p % 4 < 2 then c[Source(p)] else c[|c| / 2 + Source(p)])
  }

  /** Its inverse: left bytes gathered back from their targets, then right bytes. */
  function InterleaveBlock(c: seq<U8>): (r: seq<U8>)
    requires |c| % 4 == 0
    ensures |r| == |c|
  {
    seq(|c|, i requires 0 <= i < |c| =>
      if i < |c| / 2 then c[LeftTarget(i)] else c[RightTarget(i - |c| / 2)])
  }

  lemma BlockSourceBound(n: nat, p: nat)
    requires n % 4 == 0 && p < n
    ensures Source(p) < n / 2
  {
    var k := n / 4;
    assert n == 4 * k;
    QuotRem2(n, 2 * k, 0);
    var q := p / 4;
    assert 4 * q <= p;
    assert q < k;
    assert p % 2 < 2;
  }

  lemma BlockTargetBound(n: nat, i: nat)
    requires n % 4 == 0 && i < n / 2
    ensures RightTarget(i) < n
  {
    var k := n / 4;
    assert n == 4 * k;
    QuotRem2(n, 2 * k, 0);
    var a := i / 2;
    assert 2 * a <= i;
    assert a < k;
    assert i % 2 < 2;
  }

  /** Left byte `i` of a rearranged block is gathered back from its left target. */
  lemma GatherLeft(c: seq<U8>, i: nat)
    requires |c| % 4 == 0 && i < |c| / 2
    ensures InterleaveBlock(DeinterleaveBlock(c))[i] == c[i]
  {
    BlockTargetBound(|c|, i);
    TargetFacts(i);
    var t := LeftTarget(i);
    assert DeinterleaveBlock(c)[t] == c[i];
  }

  /** Right byte `j` of a rearranged block is gathered back from its right target. */
  lemma GatherRight(c: seq<U8>, j: nat)
    requires |c| % 4 == 0 && j < |c| - |c| / 2
    ensures InterleaveBlock(DeinterleaveBlock(c))[|c| / 2 + j] == c[|c| / 2 + j]
  {
    var h, d := |c| / 2, DeinterleaveBlock(c);
    BlockTargetBound(|c|, j);
    TargetFacts(j);
    var t := RightTarget(j);
    assert t < |c| && t % 4 >= 2 && Source(t) == j;
    assert d[t] == c[h + j];
    InterleaveRight(d, j);
  }

  /** Gathering reads the second half from the right targets. */
  lemma InterleaveRight(d: seq<U8>, j: nat)
    requires |d| % 4 == 0 && j < |d| - |d| / 2
    ensures RightTarget(j) < |d| && InterleaveBlock(d)[|d| / 2 + j] == d[RightTarget(j)]
  {
    BlockTargetBound(|d|, j);
  }

  /** Rearranging and then gathering gives the chunk back. */
  lemma InterleaveUndoesDeinterleave(c: seq<U8>)
    requires |c| % 4 == 0
    ensures InterleaveBlock(DeinterleaveBlock(c)) == c
  {
    var g := InterleaveBlock(DeinterleaveBlock(c));
    forall i | 0 <= i < |c|
      ensures g[i] == c[i]
    {
      if i < |c| / 2 {
        GatherLeft(c, i);
      } else {
        GatherRight(c, i - |c| / 2);
      }
    }
  }

  /** Gathering and then rearranging gives the chunk back: with the lemma above, the
    * rearrangement is a permutation of the chunk's bytes. */
  lemma DeinterleaveUndoesInterleave(c: seq<U8>)
    requires |c| % 4 == 0
    ensures DeinterleaveBlock(InterleaveBlock(c)) == c
  {
    var g := InterleaveBlock(c);
    forall p | 0 <= p < |c|
      ensures DeinterleaveBlock(g)[p] == c[p]
    {
      BlockSourceBound(|c|, p);
      SourceFacts(p);
    }
  }

  /** A chunk whose length is a multiple of four fills the front of the buffer entirely, so what
    * it becomes does not depend on the earlier chunks. */
  lemma AlignedChunk(buf: seq<U8>, c: seq<U8>)
    requires |buf| == CHUNK_SIZE && |c| <= CHUNK_SIZE && |c| % 4 == 0
    ensures Scattered(buf, c)[..|c|] == DeinterleaveBlock(c)
  {
    forall p | 0 <= p < |c|
      ensures Scattered(buf, c)[p] == DeinterleaveBlock(c)[p]
    {
      BlockSourceBound(|c|, p);
    }
  }

  /** The rearranged chunks, one after another. */
  function Blocks(data: seq<U8>): (r: seq<U8>)
    requires |data| % 4 == 0
    ensures |r| == |data|
    decreases |data|
  {
    if data == [] then []
    else
      var n := if |data| < CHUNK_SIZE then |data| else CHUNK_SIZE;
      DeinterleaveBlock(data[..n]) + Blocks(data[n..])
  }

  /** When the length is a multiple of four, every chunk is rearranged on its own: each output
    * chunk is a permutation of the same input chunk and nothing crosses chunks. */
  lemma {:induction false} AlignedData(buf: seq<U8>, data: seq<U8>)
    requires |buf| == CHUNK_SIZE && |data| % 4 == 0
    ensures DeinterleaveFrom(buf, data) == Blocks(data)
    decreases |data|
  {
    if data != [] {
      var n := if |data| < CHUNK_SIZE then |data| else CHUNK_SIZE;
      AlignedChunk(buf, data[..n]);
      AlignedData(Scattered(buf, data[..n]), data[n..]);
    }
  }

  /** A two-byte last chunk keeps its left byte, loses its right byte (sent past the chunk) and
    * takes the buffer's stale second byte instead. */
  lemma ShortChunk(buf: seq<U8>, a: U8, b: U8)
    requires |buf| == CHUNK_SIZE
    ensures Scattered(buf, [a, b])[..2] == [a, buf[1]]
    ensures Scattered(buf, [a, b])[2] == b
  {
  }

  /** `deinterleave_str`, in place. */
  method DeinterleaveStr(data: array<U8>)
    modifies data
    ensures data[..] == Deinterleave(old(data[..]))
  {
    var buffer := new U8[CHUNK_SIZE](_ => 0);
    assert buffer[..] == Zeros(CHUNK_SIZE);
    ghost var target := Deinterleave(data[..]);
    assert data[..0] + DeinterleaveFrom(buffer[..], data[0..]) == target by {
      assert data[0..] == data[..];
    }
    var start := 0;
    while start < data.Length
      invariant 0 <= start <= data.Length && buffer.Length == CHUNK_SIZE
      invariant data[..start] + DeinterleaveFrom(buffer[..], data[start..]) == target
      decreases data.Length - start
    {
      start := NextChunk(data, start, buffer);
    }
    assert data[..] == data[..start] + [];
  }

  /** One pass of the chunk loop of `deinterleave_str`: the chunk at `start` is rearranged through
    * the buffer and copied back, and the next chunk starts after it. */
  method NextChunk(data: array<U8>, start: nat, buffer: array<U8>) returns (next: nat)
    requires data != buffer && buffer.Length == CHUNK_SIZE && start < data.Length
    modifies data, buffer
    ensures start < next <= data.Length
    ensures next == start + (if data.Length - start < CHUNK_SIZE then data.Length - start else CHUNK_SIZE)
    ensures data[..next] + DeinterleaveFrom(buffer[..], data[next..])
      == old(data[..start]) + DeinterleaveFrom(old(buffer[..]), old(data[start..]))
  {
    var n := if data.Length - start < CHUNK_SIZE then data.Length - start else CHUNK_SIZE;
    ghost var rest := data[start..];
    ghost var done := data[..start];
    ghost var before := buffer[..];
    assert data[start..start + n] == rest[..n];
    ScatterChunk(data, start, n, buffer);
    CopyBack(data, start, n, buffer);
    ChunkStep(before, rest, n);
    assert data[start + n..] == rest[n..];
    assert data[..start + n] == done + buffer[..n];
    assert done + buffer[..n] + DeinterleaveFrom(buffer[..], rest[n..])
      == done + (buffer[..n] + DeinterleaveFrom(buffer[..], rest[n..]));
    next := start + n;
  }

  /** The two loops over one chunk of `deinterleave_str`: left bytes, then right bytes, into the
    * scratch buffer. */
  method ScatterChunk(data: array<U8>, start: nat, n: nat, buffer: array<U8>)
    requires data != buffer && buffer.Length == CHUNK_SIZE
    requires start + n <= data.Length && n <= CHUNK_SIZE
    modifies buffer
    ensures buffer[..] == Scattered(old(buffer[..]), data[start..start + n])
  {
    ghost var before := buffer[..];
    ghost var chunk := data[start..start + n];
    WrittenNothing(before, chunk);
    ScatterLeft(data, start, n, buffer, before);
    ScatterRight(data, start, n, buffer, before);
  }

  /** The first loop: left bytes to their targets. */
  method ScatterLeft(data: array<U8>, start: nat, n: nat, buffer: array<U8>, ghost before: seq<U8>)
    requires data != buffer && buffer.Length == CHUNK_SIZE && |before| == CHUNK_SIZE
    requires start + n <= data.Length && n <= CHUNK_SIZE
    requires buffer[..] == Written(before, data[start..start + n], 0, 0)
    modifies buffer
    ensures buffer[..] == Written(before, data[start..start + n], n / 2, 0)
  {
    ghost var chunk := data[start..start + n];
    for i := 0 to n / 2
      invariant buffer[..] == Written(before, chunk, i, 0)
    {
      LeftStep(before, chunk, i);
      assert chunk[i] == data[start + i];
      buffer[LeftTarget(i)] := data[start + i];
    }
  }

  /** The second loop: right bytes to their targets. */
  method ScatterRight(data: array<U8>, start: nat, n: nat, buffer: array<U8>, ghost before: seq<U8>)
    requires data != buffer && buffer.Length == CHUNK_SIZE && |before| == CHUNK_SIZE
    requires start + n <= data.Length && n <= CHUNK_SIZE
    requires buffer[..] == Written(before, data[start..start + n], n / 2, 0)
    modifies buffer
    ensures buffer[..] == Written(before, data[start..start + n], n / 2, n - n / 2)
  {
    ghost var chunk := data[start..start + n];
    var half := n / 2;
    for i := 0 to n - half
      invariant buffer[..] == Written(before, chunk, half, i)
    {
      RightStep(before, chunk, i);
      assert chunk[half + i] == data[start + half + i];
      buffer[RightTarget(i)] := data[start + half + i];
    }
  }

  /** `chunk.copy_from_slice(&buffer[..chunk.len()])`. */
  method CopyBack(data: array<U8>, start: nat, n: nat, buffer: array<U8>)
    requires data != buffer && start + n <= data.Length && n <= buffer.Length
    modifies data
    ensures data[start..start + n] == buffer[..n]
    ensures data[..start] == old(data[..start]) && data[start + n..] == old(data[start + n..])
  {
    forall k | 0 <= k < n {
      data[start + k] := buffer[k];
    }
  }
}
