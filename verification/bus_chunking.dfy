/** Splitting an oversized payload into size-bounded chunks, and the preview's prediction of it. */
module BusChunking {
  import opened Prelude

  type Bytes = seq<bv8>

  datatype ChunkInfo = ChunkInfo(index: nat, size: nat, isLast: bool)

  datatype ChunkResult = ChunkResult(chunks: seq<Bytes>, info: seq<ChunkInfo>)

  datatype ChunkingInfo = ChunkingInfo(chunkCount: nat, maxPayload: int, chunkSizes: seq<nat>)

  /** How many bytes n chunks hold. */
  function Capacity(max: nat, n: nat): nat {
    n * max
  }

  lemma CapacityStep(max: nat, n: nat)
    ensures Capacity(max, 0) == 0
    ensures Capacity(max, n + 1) == Capacity(max, n) + max
    ensures Capacity(max + 1, n) == Capacity(max, n) + n
  {
  }

  lemma CapacityMonotone(max: nat, m: nat, n: nat)
    requires m <= n
    ensures Capacity(max, m) <= Capacity(max, n)
    ensures Capacity(m, max) <= Capacity(n, max)
  {
  }

  /** math.Ceil of the quotient. */
  function CeilDiv(size: nat, max: nat): (n: nat)
    requires max > 0
    ensures size > 0 ==> n >= 1
  {
    (size + max - 1) / max
  }

  lemma CeilDivBounds(size: nat, max: nat)
    requires max > 0
    ensures Capacity(max, CeilDiv(size, max)) >= size
    ensures size > 0 ==> Capacity(max, CeilDiv(size, max) - 1) < size
  {
    var n, r := (size + max - 1) / max, (size + max - 1) % max;
    assert Capacity(max, n) + r == size + max - 1;
    if size > 0 {
      CapacityStep(max, n - 1);
    }
  }

  /** EstimateChunkCount. */
  function EstimateChunkCount(max: nat, payloadSize: nat): (n: nat)
    requires max > 0
    ensures n >= 1
  {
    if payloadSize <= max then 1 else CeilDiv(payloadSize, max)
  }

  /** The estimate suffices, and no smaller positive number of chunks would. */
  lemma EstimateIsLeast(max: nat, payloadSize: nat, m: nat)
    requires max > 0 && m >= 1
    ensures Capacity(max, m) >= payloadSize <==> m >= EstimateChunkCount(max, payloadSize)
  {
    hide Capacity, CeilDiv;
    CeilDivBounds(payloadSize, max);
    CapacityStep(max, 0);
    var n := EstimateChunkCount(max, payloadSize);
    if m < n {
      CapacityMonotone(max, m, n - 1);
    } else {
      CapacityMonotone(max, n, m);
    }
  }

  function Concat(chunks: seq<Bytes>): Bytes {
    if chunks == [] then [] else Concat(chunks[..|chunks| - 1]) + chunks[|chunks| - 1]
  }

  function Sum(sizes: seq<nat>): nat {
    if sizes == [] then 0 else Sum(sizes[..|sizes| - 1]) + sizes[|sizes| - 1]
  }

  /** Where chunk i starts, cut off at the payload's end. */
  function Boundary(max: nat, size: nat, i: nat): (b: nat)
    ensures b <= size
  {
    Min(Capacity(max, i), size)
  }

  lemma BoundaryMonotone(max: nat, size: nat, i: nat)
    ensures Boundary(max, size, 0) == 0
    ensures Boundary(max, size, i) <= Boundary(max, size, i + 1) <= Boundary(max, size, i) + max
  {
    hide Capacity;
    CapacityStep(max, i);
  }

  /** Chunk i is the i-th block of max bytes of the payload. */
  function Chunk(max: nat, payload: Bytes, i: nat): (c: Bytes)
    ensures |c| <= max
  {
    BoundaryMonotone(max, |payload|, i);
    payload[Boundary(max, |payload|, i)..Boundary(max, |payload|, i + 1)]
  }

  function Chunks(max: nat, payload: Bytes): (cs: seq<Bytes>)
    requires max > 0
    ensures |cs| == EstimateChunkCount(max, |payload|)
  {
    seq(EstimateChunkCount(max, |payload|), i requires i >= 0 => Chunk(max, payload, i))
  }

  lemma {:induction false} ConcatPrefix(max: nat, payload: Bytes, k: nat)
    requires max > 0 && k <= |Chunks(max, payload)|
    ensures Concat(Chunks(max, payload)[..k]) == payload[..Boundary(max, |payload|, k)]
  {
    hide Boundary;
    var cs := Chunks(max, payload);
    if k == 0 {
      BoundaryMonotone(max, |payload|, 0);
    } else {
      ConcatPrefix(max, payload, k - 1);
      assert cs[..k][..k - 1] == cs[..k - 1];
      BoundaryMonotone(max, |payload|, k - 1);
    }
  }

  /** The chunks concatenate to the payload, none exceeds the limit, only an empty payload has an
      empty chunk, and there are no more of them than the limit makes necessary. */
  lemma ChunksPartitionPayload(max: nat, payload: Bytes)
    requires max > 0
    ensures var cs := Chunks(max, payload);
      && Concat(cs) == payload
      && (forall i :: 0 <= i < |cs| ==> |cs[i]| <= max)
      && (payload != [] ==> forall i :: 0 <= i < |cs| ==> cs[i] != [])
      && (payload != [] ==> Capacity(max, |cs| - 1) < |payload|)
  {
    hide Capacity, CeilDiv, Concat, Boundary;
    var cs, size := Chunks(max, payload), |payload|;
    var n := |cs|;
    ConcatPrefix(max, payload, n);
    assert cs[..n] == cs;
    BoundaryOfEstimate(max, size);
    if payload != [] {
      forall i | 0 <= i < n ensures cs[i] != [] {
        BoundariesIncrease(max, size, i);
      }
    }
  }

  lemma BoundaryOfEstimate(max: nat, size: nat)
    requires max > 0
    ensures var n := EstimateChunkCount(max, size);
      Boundary(max, size, n) == size && (size > 0 ==> Capacity(max, n - 1) < size)
  {
    hide Capacity, CeilDiv;
    CeilDivBounds(size, max);
    CapacityStep(max, 0);
  }

  lemma BoundariesIncrease(max: nat, size: nat, i: nat)
    requires max > 0 && size > 0 && i < EstimateChunkCount(max, size)
    ensures Capacity(max, i) < size && Boundary(max, size, i) < Boundary(max, size, i + 1)
  {
    hide Capacity, CeilDiv;
    BoundaryOfEstimate(max, size);
    CapacityMonotone(max, i, EstimateChunkCount(max, size) - 1);
    CapacityStep(max, i);
  }

  /** The bounds the chunking loop computes are those of the chunk. */
  lemma ChunkSlice(max: nat, payload: Bytes, i: nat, start: nat)
    requires 0 < max < |payload| && i < CeilDiv(|payload|, max) && start == i * max
    ensures start < |payload|
    ensures Chunk(max, payload, i) == payload[start..Min(start + max, |payload|)]
  {
    assert start == Capacity(max, i);
    hide Capacity, CeilDiv;
    BoundariesIncrease(max, |payload|, i);
    CapacityStep(max, i);
  }

  /** GetChunkingInfo predicts ChunkPayload: the same number of chunks, sizes that add up to the
      payload, each within the limit, and no two apart by more than one byte. */
  ghost predicate Predicts(info: ChunkingInfo, max: nat, payloadSize: nat)
    requires max > 0
  {
    && info.chunkCount == |info.chunkSizes| == EstimateChunkCount(max, payloadSize) >= 1
    && info.maxPayload == max
    && Sum(info.chunkSizes) == payloadSize
    && (forall i :: 0 <= i < |info.chunkSizes| ==> info.chunkSizes[i] <= max)
    && (forall i, j :: 0 <= i < j < |info.chunkSizes| ==> info.chunkSizes[j] <= info.chunkSizes[i] <= info.chunkSizes[j] + 1)
  }

  /** Part k of an even split of `size` bytes into n parts. */
  function EvenPart(size: nat, n: nat, k: nat): nat
    requires n > 0
  {
    if k < size % n then size / n + 1 else size / n
  }

  function EvenParts(size: nat, n: nat): (parts: seq<nat>)
    requires n > 0
    ensures |parts| == n
  {
    seq(n, k requires k >= 0 => EvenPart(size, n, k))
  }

  lemma {:induction false} SumOfEvenParts(size: nat, n: nat, k: nat)
    requires 0 < n && k <= n
    ensures Sum(EvenParts(size, n)[..k]) == Capacity(size / n, k) + Min(k, size % n)
  {
    hide Capacity;
    if k == 0 {
      CapacityStep(size / n, 0);
    } else {
      SumOfEvenParts(size, n, k - 1);
      var parts := EvenParts(size, n);
      assert parts[..k][..k - 1] == parts[..k - 1];
      CapacityStep(size / n, k - 1);
    }
  }

  lemma Division(size: nat, n: nat)
    requires n > 0
    ensures size == Capacity(size / n, n) + size % n && size % n < n
  {
  }

  /** When n parts suffice for the limit, no part of the even split exceeds it. */
  lemma EvenPartFits(max: nat, size: nat, n: nat, k: nat)
    requires n >= 1 && Capacity(max, n) >= size && k < n
    ensures EvenPart(size, n, k) <= max
  {
    hide Capacity;
    Division(size, n);
    if EvenPart(size, n, k) > max {
      if k < size % n {
        CapacityMonotone(n, max, size / n);
      } else {
        CapacityMonotone(n, max + 1, size / n);
        CapacityStep(max, n);
      }
    }
  }

  lemma EvenPartsPredict(max: nat, size: nat)
    requires max > 0
    ensures var n := EstimateChunkCount(max, size);
      Predicts(ChunkingInfo(n, max, EvenParts(size, n)), max, size)
  {
    hide Capacity, CeilDiv, Sum;
    var n := EstimateChunkCount(max, size);
    var parts := EvenParts(size, n);
    assert parts[..n] == parts;
    SumOfEvenParts(size, n, n);
    Division(size, n);
    EstimateIsLeast(max, size, n);
    forall k | 0 <= k < n ensures parts[k] <= max {
      EvenPartFits(max, size, n, k);
    }
  }

  function Sizes(chunks: seq<Bytes>): seq<nat> {
    seq(|chunks|, i requires 0 <= i < |chunks| => |chunks[i]|)
  }

  /** Every chunk but the last is full. */
  lemma AllButLastAreFull(max: nat, payload: Bytes, i: nat)
    requires max > 0 && i < |Chunks(max, payload)| - 1
    ensures |Chunks(max, payload)[i]| == max
  {
    hide Capacity, CeilDiv;
    BoundariesIncrease(max, |payload|, i);
    BoundariesIncrease(max, |payload|, i + 1);
    CapacityStep(max, i);
  }

  lemma LastChunk(max: nat, payload: Bytes)
    requires max > 0 && payload != []
    ensures var cs := Chunks(max, payload); |payload| == Capacity(max, |cs| - 1) + |cs[|cs| - 1]|
  {
    hide Capacity, CeilDiv;
    BoundaryOfEstimate(max, |payload|);
  }

  /** The previewed sizes, a split as even as can be, are those of the real chunks, all but the last of
      them full, if and only if there is one chunk or the last one lacks at most one byte. */
  lemma PreviewIsExact(max: nat, payload: Bytes)
    requires max > 0
    ensures var n := |Chunks(max, payload)|;
      EvenParts(|payload|, n) == Sizes(Chunks(max, payload)) <==> n == 1 || |payload| + 1 >= Capacity(max, n)
  {
    hide Capacity, CeilDiv, Chunk, EvenPart;
    var cs, size := Chunks(max, payload), |payload|;
    var n := |cs|;
    var parts, sizes := EvenParts(size, n), Sizes(cs);
    if n == 1 {
      SinglePart(max, payload);
    } else {
      LastChunk(max, payload);
      CapacityStep(max, n - 1);
      AllButLastAreFull(max, payload, 0);
      EvenPartsWithinOne(size, n);
      assert sizes[0] == max && sizes[n - 1] == size - Capacity(max, n - 1);
      if size + 1 >= Capacity(max, n) {
        ChunksPartitionPayload(max, payload);
        assert |cs[n - 1]| <= max;
        AlmostFull(max, size, n);
        forall i | 0 <= i < n ensures parts[i] == sizes[i] {
          if i < n - 1 {
            AllButLastAreFull(max, payload, i);
          }
        }
      }
    }
  }

  lemma SinglePart(max: nat, payload: Bytes)
    requires max > 0 && |Chunks(max, payload)| == 1
    ensures EvenParts(|payload|, 1) == Sizes(Chunks(max, payload)) == [|payload|]
  {
    hide Capacity, CeilDiv;
    CapacityStep(max, 0);
    BoundaryOfEstimate(max, |payload|);
  }

  lemma EvenPartsWithinOne(size: nat, n: nat)
    requires n > 0
    ensures EvenParts(size, n)[0] <= EvenParts(size, n)[n - 1] + 1
  {
  }

  /** A split with at most one byte missing is full up to its last part. */
  lemma AlmostFull(max: nat, size: nat, n: nat)
    requires n >= 2 && max > 0 && Capacity(max, n) - 1 <= size <= Capacity(max, n)
    ensures forall k :: 0 <= k < n - 1 ==> EvenPart(size, n, k) == max
    ensures EvenPart(size, n, n - 1) == max - (Capacity(max, n) - size)
  {
    var missing := Capacity(max, n) - size;
    Division(size, n);
    if missing == 0 {
      QuotientIs(size, n, max, 0);
    } else {
      assert size == Capacity(n, max - 1) + (n - 1);
      QuotientIs(size, n, max - 1, n - 1);
    }
  }

  lemma QuotientIs(size: nat, n: nat, q: nat, r: nat)
    requires size == Capacity(n, q) + r && r < n
    ensures size / n == q && size % n == r
  {
    var q' := size / n;
    assert size == Capacity(n, q') + size % n;
    hide Capacity;
    CapacityStep(n, q);
    CapacityStep(n, q');
    if q < q' {
      CapacityMonotone(n, q + 1, q');
    } else if q' < q {
      CapacityMonotone(n, q' + 1, q);
    }
  }

  class ChunkingStrategy {
    const maxPayloadBytes: nat

    constructor (maxPayloadBytes: nat)
      ensures this.maxPayloadBytes == maxPayloadBytes
    {
      this.maxPayloadBytes := maxPayloadBytes;
    }

    method ChunkPayload(payload: Bytes) returns (r: ChunkResult)
      requires maxPayloadBytes > 0
      ensures r.chunks == Chunks(maxPayloadBytes, payload)
      ensures |r.info| == |r.chunks|
      ensures forall i :: 0 <= i < |r.info| ==> r.info[i] == ChunkInfo(i, |r.chunks[i]|, i == |r.chunks| - 1)
    {
      if |payload| <= maxPayloadBytes {
        assert Chunks(maxPayloadBytes, payload)[0] == payload;
        return ChunkResult([payload], [ChunkInfo(0, |payload|, true)]);
      }
      hide Chunk, CeilDiv;
      var numChunks := CeilDiv(|payload|, maxPayloadBytes);
      var chunks := new Bytes[numChunks];
      var info := new ChunkInfo[numChunks](i requires i >= 0 => ChunkInfo(0, 0, false));
      var i := 0;
      while i < numChunks
        invariant 0 <= i <= numChunks
        invariant forall k :: 0 <= k < i ==> chunks[k] == Chunk(maxPayloadBytes, payload, k)
        invariant forall k :: 0 <= k < i ==> info[k] == ChunkInfo(k, |Chunk(maxPayloadBytes, payload, k)|, k == numChunks - 1)
      {
        chunks[i] := Slice(payload, i);
        info[i] := ChunkInfo(i, |chunks[i]|, i == numChunks - 1);
        i := i + 1;
      }
      r := ChunkResult(chunks[..], info[..]);
    }

    /** The slice the loop takes for chunk i. */
    method Slice(payload: Bytes, i: nat) returns (chunk: Bytes)
      requires 0 < maxPayloadBytes < |payload| && i < CeilDiv(|payload|, maxPayloadBytes)
      ensures chunk == Chunk(maxPayloadBytes, payload, i)
    {
      hide Chunk, CeilDiv;
      var start := i * maxPayloadBytes;
      ChunkSlice(maxPayloadBytes, payload, i, start);
      var end := start + maxPayloadBytes;
      if end > |payload| {
        end := |payload|;
      }
      chunk := payload[start..end];
    }

    method GetChunkingInfo(payloadSize: nat) returns (r: ChunkingInfo)
      requires maxPayloadBytes > 0
      ensures Predicts(r, maxPayloadBytes, payloadSize)
      ensures r.chunkSizes == EvenParts(payloadSize, r.chunkCount)
    {
      var chunkCount := EstimateChunkCount(maxPayloadBytes, payloadSize);
      EvenPartsPredict(maxPayloadBytes, payloadSize);
      if chunkCount == 1 {
        assert EvenParts(payloadSize, 1) == [payloadSize];
        return ChunkingInfo(1, maxPayloadBytes, [payloadSize]);
      }
      var baseSize, remainder := payloadSize / chunkCount, payloadSize % chunkCount;
      var sizes := new nat[chunkCount];
      var i := 0;
      while i < chunkCount
        invariant 0 <= i <= chunkCount
        invariant forall k :: 0 <= k < i ==> sizes[k] == EvenPart(payloadSize, chunkCount, k)
      {
        sizes[i] := baseSize;
        if i < remainder {
          sizes[i] := sizes[i] + 1;
        }
        i := i + 1;
      }
      assert sizes[..] == EvenParts(payloadSize, chunkCount);
      r := ChunkingInfo(chunkCount, maxPayloadBytes, sizes[..]);
    }
  }
}
