/** The byte range of a file that each parallel stream carries, in 64-bit arithmetic. */
module ByteRanges {
  import opened Basics

  /** Offset and size of the range of one stream, each operation modulo 2^64. */
  function ByteRangeForStream(totalSize: U64, stream: nat, parallel: nat): (U64, U64)
    requires 0 < parallel
  {
    var base := totalSize / parallel;
    NatProduct(base, stream);
    var extra := totalSize % parallel;
    WrappedRange(base * stream, base, extra, stream)
  }

  function WrappedRange(before: nat, base: nat, extra: nat, stream: nat): (U64, U64) {
    var offset := (before % U64_MODULUS + Min(stream, extra)) % U64_MODULUS;
    var size := (base + if stream < extra then 1 else 0) % U64_MODULUS;
    (offset, size)
  }

  lemma {:induction false} NoWrap(before: nat, base: nat, extra: nat, stream: nat)
    requires before + Min(stream, extra) + base + (if stream < extra then 1 else 0) < U64_MODULUS
    ensures WrappedRange(before, base, extra, stream) ==
            (before + Min(stream, extra), base + if stream < extra then 1 else 0)
  {
  }

  /** The receiver's check that a range lies within the file, in the same arithmetic. */
  predicate ExceedsTotal(offset: U64, size: U64, totalSize: U64) {
    (offset + size) % U64_MODULUS > totalSize
  }

  /** A range that passes the check lies within the file if and only if its end does not wrap. */
  lemma {:induction false} CheckedRangeFitsIff(offset: U64, size: U64, totalSize: U64)
    requires !ExceedsTotal(offset, size, totalSize)
    ensures offset + size <= totalSize <==> offset + size < U64_MODULUS
  {
  }

  /** Where range `stream` starts, over the unbounded integers. */
  function Boundary(totalSize: nat, stream: nat, parallel: nat): nat
    requires 0 < parallel
  {
    totalSize / parallel * stream + Min(stream, totalSize % parallel)
  }

  lemma {:induction false} BoundaryStep(totalSize: nat, stream: nat, parallel: nat)
    requires 0 < parallel
    ensures Boundary(totalSize, stream + 1, parallel) ==
            Boundary(totalSize, stream, parallel) + totalSize / parallel +
            if stream < totalSize % parallel then 1 else 0
    ensures Boundary(totalSize, parallel, parallel) == totalSize
    ensures Boundary(totalSize, 0, parallel) == 0
  {
    var base := totalSize / parallel;
    assert base * (stream + 1) == base * stream + base;
    assert totalSize == base * parallel + totalSize % parallel;
    assert base * 0 == 0;
  }

  lemma {:induction false} BoundaryMonotone(totalSize: nat, s: nat, t: nat, parallel: nat)
    requires 0 < parallel && s <= t
    ensures Boundary(totalSize, s, parallel) <= Boundary(totalSize, t, parallel)
    decreases t - s
  {
    if s < t {
      BoundaryStep(totalSize, s, parallel);
      BoundaryMonotone(totalSize, s + 1, t, parallel);
    }
  }

  /** No operation wraps: each range runs from its boundary to the next, inside the file. */
  lemma {:induction false} RangeIsExact(totalSize: U64, stream: nat, parallel: nat)
    requires stream < parallel
    ensures var (offset, size) := ByteRangeForStream(totalSize, stream, parallel);
            && offset == Boundary(totalSize, stream, parallel)
            && offset + size == Boundary(totalSize, stream + 1, parallel) <= totalSize
            && !ExceedsTotal(offset, size, totalSize)
  {
    hide ByteRangeForStream, WrappedRange, Boundary;
    BoundaryStep(totalSize, stream, parallel);
    BoundaryMonotone(totalSize, stream + 1, parallel, parallel);
    BoundaryStep(totalSize, parallel, parallel);
    var start := Boundary(totalSize, stream, parallel);
    RangeFromBoundary(totalSize, stream, parallel, start, Boundary(totalSize, stream + 1, parallel));
  }

  lemma {:induction false} RangeFromBoundary(totalSize: U64, stream: nat, parallel: nat, start: nat, end: nat)
    requires 0 < parallel && start == Boundary(totalSize, stream, parallel) && end <= totalSize
    requires end == start + totalSize / parallel + if stream < totalSize % parallel then 1 else 0
    ensures ByteRangeForStream(totalSize, stream, parallel) == (start, end - start)
  {
    var base, extra := totalSize / parallel, totalSize % parallel;
    NatProduct(base, stream);
    hide WrappedRange;
    NoWrap(base * stream, base, extra, stream);
  }

  lemma {:induction false} NatProduct(x: nat, y: nat)
    ensures x * y >= 0
  {
  }

  /** The ranges tile the file: the first starts at 0, each starts where the one before ends, the
      last ends at the end of the file, and sizes differ by at most one. */
  lemma {:induction false} RangesTile(totalSize: U64, s: nat, t: nat, parallel: nat)
    requires s < parallel && t < parallel
    ensures ByteRangeForStream(totalSize, 0, parallel).0 == 0
    ensures s + 1 < parallel ==>
              var (offset, size) := ByteRangeForStream(totalSize, s, parallel);
              offset + size == ByteRangeForStream(totalSize, s + 1, parallel).0
    ensures var (offset, size) := ByteRangeForStream(totalSize, parallel - 1, parallel);
            offset + size == totalSize
    ensures ByteRangeForStream(totalSize, s, parallel).1 <= ByteRangeForStream(totalSize, t, parallel).1 + 1
    ensures s < t ==>
              var (offset, size) := ByteRangeForStream(totalSize, s, parallel);
              offset + size <= ByteRangeForStream(totalSize, t, parallel).0
  {
    RangeIsExact(totalSize, 0, parallel);
    RangeIsExact(totalSize, s, parallel);
    RangeIsExact(totalSize, t, parallel);
    RangeIsExact(totalSize, parallel - 1, parallel);
    BoundaryStep(totalSize, s, parallel);
    BoundaryStep(totalSize, t, parallel);
    if s + 1 < parallel {
      RangeIsExact(totalSize, s + 1, parallel);
    }
    if s < t {
      BoundaryMonotone(totalSize, s + 1, t, parallel);
    }
  }

  /** Every byte of the file belongs to some range. */
  lemma {:induction false} RangeOf(totalSize: nat, x: nat, parallel: nat, k: nat) returns (s: nat)
    requires 0 < parallel && k <= parallel && x < Boundary(totalSize, k, parallel)
    ensures s < k && Boundary(totalSize, s, parallel) <= x < Boundary(totalSize, s + 1, parallel)
  {
    BoundaryStep(totalSize, 0, parallel);
    if Boundary(totalSize, k - 1, parallel) <= x {
      return k - 1;
    }
    s := RangeOf(totalSize, x, parallel, k - 1);
  }
}
