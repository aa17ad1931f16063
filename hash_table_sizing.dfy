/** How BuildSpatialHashTable sizes the per-batch hash tables and lays them
    out: the per-batch size, the unsigned 32-bit prefix sums of the sizes
    (hash_table_splits) and the signed 32-bit view in which they are returned. */
module HashTableSizing {

  /** 2^32: the modulus of uint32_t arithmetic. */
  const U32: int := 0x1_0000_0000
  /** The bounds of int32_t: [I32Min, I32Limit). */
  const I32Min: int := -0x8000_0000
  const I32Limit: int := 0x8000_0000

  function Min(a: int, b: int): int { if a <= b then a else b }
  function Max(a: int, b: int): int { if a >= b then a else b }

  /** Conversion of a floating-point value to an integer: truncation toward zero. */
  function TruncToInt(x: real): (t: int)
    ensures 0.0 <= x ==> 0 <= t && t as real <= x < t as real + 1.0
    ensures x < 0.0 ==> t <= 0 && t as real - 1.0 < x <= t as real
  {
    if x >= 0.0 then x.Floor else -((-x).Floor)
  }

  /** The hash table size of a batch of numPoints points:
      trunc(factor * numPoints) raised to at least 1, then capped at maxSize. */
  function TableSize(numPoints: int, factor: real, maxSize: int): (s: int)
    ensures s <= maxSize
    ensures maxSize >= 1 ==> 1 <= s
  {
    Min(Max(TruncToInt(factor * numPoints as real), 1), maxSize)
  }

  /** The table size is the truncated scaled count when that lies in
      [1, maxSize], 1 when it is below 1, and maxSize when it is above
      maxSize or when maxSize is below 1. */
  lemma TableSizeCases(numPoints: int, factor: real, maxSize: int)
    ensures var t := TruncToInt(factor * numPoints as real);
      var s := TableSize(numPoints, factor, maxSize);
      && (1 <= t <= maxSize ==> s == t)
      && (t < 1 <= maxSize ==> s == 1)
      && (maxSize < t || maxSize < 1 ==> s == maxSize)
  {
  }

  /** A batch with no points still gets a table of one cell. */
  lemma EmptyBatchTableSize(factor: real, maxSize: int)
    requires maxSize >= 1
    ensures TableSize(0, factor, maxSize) == 1
  {
  }

  /** The table size of every batch delimited by a row-splits sequence. */
  function BatchTableSizes(rowSplits: seq<int>, factor: real, maxSize: int): (sizes: seq<int>)
    requires |rowSplits| >= 1
    ensures |sizes| == |rowSplits| - 1
    ensures forall i :: 0 <= i < |sizes| ==> sizes[i] == TableSize(rowSplits[i + 1] - rowSplits[i], factor, maxSize)
    ensures maxSize >= 1 ==> forall i :: 0 <= i < |sizes| ==> 1 <= sizes[i] <= maxSize
    decreases |rowSplits|
  {
    if |rowSplits| == 1 then []
    else
      var n := |rowSplits|;
      BatchTableSizes(rowSplits[..n - 1], factor, maxSize) + [TableSize(rowSplits[n - 1] - rowSplits[n - 2], factor, maxSize)]
  }

  /** Prefix sums of sizes kept modulo 2^32, as in a std::vector<uint32_t>
      filled by splits[i + 1] = splits[i] + sizes[i] from splits[0] = 0. */
  function PrefixSumsU32(sizes: seq<int>): (sums: seq<int>)
    ensures |sums| == |sizes| + 1
    ensures sums[0] == 0
    decreases |sizes|
  {
    if sizes == [] then [0]
    else
      var n := |sizes|;
      var prev := PrefixSumsU32(sizes[..n - 1]);
      prev + [(prev[n - 1] + sizes[n - 1]) % U32]
  }

  /** The sum of a sequence of sizes, in unbounded arithmetic. */
  function Sum(sizes: seq<int>): int
    decreases |sizes|
  {
    if sizes == [] then 0 else Sum(sizes[..|sizes| - 1]) + sizes[|sizes| - 1]
  }

  /** hash_table_splits of a row-splits sequence. */
  function HashTableSplits(rowSplits: seq<int>, factor: real, maxSize: int): (splits: seq<int>)
    requires |rowSplits| >= 1
    ensures |splits| == |rowSplits|
    ensures splits[0] == 0
  {
    PrefixSumsU32(BatchTableSizes(rowSplits, factor, maxSize))
  }

  /** Each prefix sum is the previous one plus the size between them, modulo 2^32. */
  lemma {:induction false} PrefixSumsStep(sizes: seq<int>, i: nat)
    requires i < |sizes|
    ensures var sums := PrefixSumsU32(sizes);
      sums[i + 1] == (sums[i] + sizes[i]) % U32
    decreases |sizes|
  {
    var n := |sizes|;
    var front := sizes[..n - 1];
    if i < n - 1 {
      PrefixSumsStep(front, i);
      assert front[i] == sizes[i];
    }
  }

  /** hash_table_splits has one entry per row split, starts at 0, and each
      entry is the previous one plus the table size of the batch between
      them, modulo 2^32. */
  lemma HashTableSplitsStep(rowSplits: seq<int>, factor: real, maxSize: int)
    requires |rowSplits| >= 1
    ensures var splits := HashTableSplits(rowSplits, factor, maxSize);
      && |splits| == |rowSplits| && splits[0] == 0
      && (forall k :: 0 <= k < |splits| ==> 0 <= splits[k] < U32)
      && forall i :: 0 <= i < |splits| - 1 ==>
           splits[i + 1] == (splits[i] + TableSize(rowSplits[i + 1] - rowSplits[i], factor, maxSize)) % U32
  {
    var sizes := BatchTableSizes(rowSplits, factor, maxSize);
    PrefixSumsInRange(sizes);
    forall i | 0 <= i < |sizes|
      ensures PrefixSumsU32(sizes)[i + 1] == (PrefixSumsU32(sizes)[i] + sizes[i]) % U32
    {
      PrefixSumsStep(sizes, i);
    }
  }

  /** Every prefix sum is a uint32_t value. */
  lemma PrefixSumsInRange(sizes: seq<int>)
    ensures forall k :: 0 <= k < |sizes| + 1 ==> 0 <= PrefixSumsU32(sizes)[k] < U32
  {
    forall k | 0 < k < |sizes| + 1
      ensures 0 <= PrefixSumsU32(sizes)[k] < U32
    {
      PrefixSumsStep(sizes, k - 1);
    }
  }

  /** Adding a multiple of 2^32 does not change a value modulo 2^32. */
  lemma {:induction false} ModMultiple(x: int, q: int)
    ensures (x + q * U32) % U32 == x % U32
    decreases if q < 0 then -q else q
  {
    if q > 0 {
      ModMultiple(x, q - 1);
      assert x + q * U32 == (x + (q - 1) * U32) + U32;
    } else if q < 0 {
      ModMultiple(x, q + 1);
      assert x + q * U32 == (x + (q + 1) * U32) - U32;
    }
  }

  /** Reducing a summand modulo 2^32 first does not change the sum modulo 2^32. */
  lemma ModAdd(a: int, s: int)
    ensures (a % U32 + s) % U32 == (a + s) % U32
  {
    var q := a / U32;
    assert a == q * U32 + a % U32;
    ModMultiple(a % U32 + s, q);
  }

  lemma SumStep(sizes: seq<int>, i: nat)
    requires i < |sizes|
    ensures Sum(sizes[..i + 1]) == Sum(sizes[..i]) + sizes[i]
  {
    var head := sizes[..i + 1];
    assert head[..i] == sizes[..i];
  }

  /** Whatever the sizes, prefix sum k is the exact sum of the first k sizes modulo 2^32. */
  lemma {:induction false} PrefixSumsAreWrappedSums(sizes: seq<int>, k: nat)
    requires k <= |sizes|
    ensures PrefixSumsU32(sizes)[k] == Sum(sizes[..k]) % U32
  {
    if k > 0 {
      PrefixSumsAreWrappedSums(sizes, k - 1);
      PrefixSumsStep(sizes, k - 1);
      SumStep(sizes, k - 1);
      ModAdd(Sum(sizes[..k - 1]), sizes[k - 1]);
    } else {
      assert sizes[..0] == [];
    }
  }

  predicate AllPositive(sizes: seq<int>)
  {
    forall i :: 0 <= i < |sizes| ==> 1 <= sizes[i]
  }

  /** With positive sizes, the sum grows by at least one per size. */
  lemma {:induction false} PartialSumsIncrease(sizes: seq<int>, i: nat, j: nat)
    requires AllPositive(sizes)
    requires i <= j <= |sizes|
    ensures Sum(sizes[..i]) + (j - i) <= Sum(sizes[..j])
    decreases j - i
  {
    if i < j {
      SumStep(sizes, j - 1);
      PartialSumsIncrease(sizes, i, j - 1);
    }
  }

  /** With sizes in [1, maxSize], the sum of k sizes lies in [k, k * maxSize]. */
  lemma {:induction false} SumBounds(sizes: seq<int>, maxSize: int)
    requires forall i :: 0 <= i < |sizes| ==> 1 <= sizes[i] <= maxSize
    ensures |sizes| <= Sum(sizes) <= |sizes| * maxSize
    decreases |sizes|
  {
    if sizes != [] {
      var n := |sizes|;
      SumBounds(sizes[..n - 1], maxSize);
      assert (n - 1) * maxSize + maxSize == n * maxSize;
    }
  }

  /** Without wrap-around, prefix sum k is the exact sum of the first k sizes. */
  lemma NoWrapAt(sizes: seq<int>, k: nat)
    requires k <= |sizes|
    requires AllPositive(sizes)
    requires Sum(sizes) < U32
    ensures PrefixSumsU32(sizes)[k] == Sum(sizes[..k])
  {
    var partial := Sum(sizes[..k]);
    PartialSumsIncrease(sizes, 0, k);
    assert sizes[..0] == [];
    PartialSumsIncrease(sizes, k, |sizes|);
    assert sizes[..|sizes|] == sizes;
    assert 0 <= partial < U32;
    PrefixSumsAreWrappedSums(sizes, k);
  }

  /** When the sizes are positive and their sum fits in 32 bits, nothing
      wraps: prefix sum k is the exact sum of the first k sizes, consecutive
      sums differ by exactly the size between them, the sums are strictly
      increasing and the last one is the total. */
  lemma NoWrapPrefixSums(sizes: seq<int>)
    requires AllPositive(sizes)
    requires Sum(sizes) < U32
    ensures var sums := PrefixSumsU32(sizes);
      && (forall k :: 0 <= k < |sums| ==> sums[k] == Sum(sizes[..k]))
      && sums[|sizes|] == Sum(sizes)
      && (forall i :: 0 <= i < |sizes| ==> sums[i + 1] - sums[i] == sizes[i])
      && (forall i, j :: 0 <= i < j < |sums| ==> sums[i] < sums[j])
  {
    var sums := PrefixSumsU32(sizes);
    forall k | 0 <= k < |sums|
      ensures sums[k] == Sum(sizes[..k])
    {
      NoWrapAt(sizes, k);
    }
    assert sizes[..|sizes|] == sizes;
    forall i | 0 <= i < |sizes|
      ensures sums[i + 1] - sums[i] == sizes[i]
    {
      SumStep(sizes, i);
    }
    forall i, j | 0 <= i < j < |sums|
      ensures sums[i] < sums[j]
    {
      PartialSumsIncrease(sizes, i, j);
    }
  }

  /** With maxSize >= 1, the total size of all tables lies between the batch
      count and the batch count times maxSize; so a worst-case bound on
      batch_size * maxSize bounds the total. */
  lemma TotalTableSizeBounds(rowSplits: seq<int>, factor: real, maxSize: int)
    requires |rowSplits| >= 1
    requires maxSize >= 1
    ensures var total := Sum(BatchTableSizes(rowSplits, factor, maxSize));
      |rowSplits| - 1 <= total <= (|rowSplits| - 1) * maxSize
  {
    var sizes := BatchTableSizes(rowSplits, factor, maxSize);
    assert forall i :: 0 <= i < |sizes| ==> 1 <= sizes[i] <= maxSize;
    SumBounds(sizes, maxSize);
    var batchSize := |rowSplits| - 1;
    assert batchSize == |sizes|;
    assert Sum(sizes) <= batchSize * maxSize;
  }

  /** For hash_table_splits: with maxSize >= 1 and a total table size below
      2^32, entry 0 is 0, entry i+1 exceeds entry i by exactly the table size
      of batch i, the entries strictly increase, and the last one is the total
      size of all tables. */
  lemma HashTableSplitsNoWrap(rowSplits: seq<int>, factor: real, maxSize: int)
    requires |rowSplits| >= 1
    requires maxSize >= 1
    requires Sum(BatchTableSizes(rowSplits, factor, maxSize)) < U32
    ensures var splits := HashTableSplits(rowSplits, factor, maxSize);
      var total := Sum(BatchTableSizes(rowSplits, factor, maxSize));
      && |splits| == |rowSplits| && splits[0] == 0
      && (forall i :: 0 <= i < |splits| - 1 ==>
            splits[i + 1] - splits[i] == TableSize(rowSplits[i + 1] - rowSplits[i], factor, maxSize))
      && (forall i, j :: 0 <= i < j < |splits| ==> splits[i] < splits[j])
      && splits[|splits| - 1] == total
  {
    var sizes := BatchTableSizes(rowSplits, factor, maxSize);
    var splits := PrefixSumsU32(sizes);
    NoWrapPrefixSums(sizes);
    forall i | 0 <= i < |splits| - 1
      ensures splits[i + 1] - splits[i] == TableSize(rowSplits[i + 1] - rowSplits[i], factor, maxSize)
    {
      assert splits[i + 1] - splits[i] == sizes[i];
    }
  }

  /** The same under the worst-case bound batch_size * maxSize < 2^32, which
      holds whatever the row splits are. */
  lemma HashTableSplitsNoWrapWorstCase(rowSplits: seq<int>, factor: real, maxSize: int)
    requires |rowSplits| >= 1
    requires maxSize >= 1
    requires (|rowSplits| - 1) * maxSize < U32
    ensures var splits := HashTableSplits(rowSplits, factor, maxSize);
      && (forall i, j :: 0 <= i < j < |splits| ==> splits[i] < splits[j])
      && splits[|splits| - 1] == Sum(BatchTableSizes(rowSplits, factor, maxSize))
  {
    TotalTableSizeBounds(rowSplits, factor, maxSize);
    HashTableSplitsNoWrap(rowSplits, factor, maxSize);
  }

  /** The int32_t value with the same low 32 bits as u (the conversion of an
      unsigned value to int32_t). */
  function ToInt32(u: int): (r: int)
    ensures I32Min <= r < I32Limit
    ensures (u - r) % U32 == 0
    ensures 0 <= u < I32Limit ==> r == u
  {
    var low := u % U32;
    if low < I32Limit then low else low - U32
  }

  /** The length of hash_table_cell_splits: the last split plus one, in uint32_t arithmetic. */
  function CellSplitsLength(splits: seq<int>): (len: int)
    requires |splits| >= 1
    ensures 0 <= len < U32
    ensures 0 <= splits[|splits| - 1] && splits[|splits| - 1] + 1 < U32 ==> len == splits[|splits| - 1] + 1
    ensures splits[|splits| - 1] + 1 == U32 ==> len == 0
  {
    (splits[|splits| - 1] + 1) % U32
  }

  /** When the total table size plus one fits in 32 bits,
      hash_table_cell_splits has one entry per cell of all tables together,
      plus one. */
  lemma CellSplitsCountCells(rowSplits: seq<int>, factor: real, maxSize: int)
    requires |rowSplits| >= 1
    requires maxSize >= 1
    requires Sum(BatchTableSizes(rowSplits, factor, maxSize)) + 1 < U32
    ensures CellSplitsLength(HashTableSplits(rowSplits, factor, maxSize)) == Sum(BatchTableSizes(rowSplits, factor, maxSize)) + 1
  {
    HashTableSplitsNoWrap(rowSplits, factor, maxSize);
  }

  /** When the total table size stays below 2^31, the int32 splits the
      caller receives are the exact partial sums of the table sizes. */
  lemma Int32SplitsAreExactSums(rowSplits: seq<int>, factor: real, maxSize: int)
    requires |rowSplits| >= 1
    requires maxSize >= 1
    requires Sum(BatchTableSizes(rowSplits, factor, maxSize)) < I32Limit
    ensures var splits := HashTableSplits(rowSplits, factor, maxSize);
      var sizes := BatchTableSizes(rowSplits, factor, maxSize);
      forall k :: 0 <= k < |rowSplits| ==> ToInt32(splits[k]) == Sum(sizes[..k])
  {
    var sizes := BatchTableSizes(rowSplits, factor, maxSize);
    var splits := PrefixSumsU32(sizes);
    forall k | 0 <= k < |rowSplits|
      ensures ToInt32(splits[k]) == Sum(sizes[..k])
    {
      NoWrapAt(sizes, k);
      PartialSumsIncrease(sizes, 0, k);
      assert sizes[..0] == [];
      PartialSumsIncrease(sizes, k, |sizes|);
      assert sizes[..|sizes|] == sizes;
      assert 0 <= Sum(sizes[..k]) <= Sum(sizes);
    }
  }

  /** The same under the worst-case bound batch_size * maxSize < 2^31: the
      int32 splits are exact, and so is the cell-splits length. */
  lemma Int32SplitsExactWorstCase(rowSplits: seq<int>, factor: real, maxSize: int)
    requires |rowSplits| >= 1
    requires maxSize >= 1
    requires (|rowSplits| - 1) * maxSize < I32Limit
    ensures var splits := HashTableSplits(rowSplits, factor, maxSize);
      var sizes := BatchTableSizes(rowSplits, factor, maxSize);
      && (forall k :: 0 <= k < |rowSplits| ==> ToInt32(splits[k]) == Sum(sizes[..k]))
      && CellSplitsLength(splits) == Sum(sizes) + 1
  {
    TotalTableSizeBounds(rowSplits, factor, maxSize);
    Int32SplitsAreExactSums(rowSplits, factor, maxSize);
    CellSplitsCountCells(rowSplits, factor, maxSize);
  }
}
