/** How one part lies on the disks (internal/erasure/set.go, internal/erasure/xlmeta.go): cut into
    stripes, each stripe coded into one shard per disk, each shard preceded in the disk's file by
    its 32-byte bitrot hash. Only the last stripe may be short. */
module Stripes {
  import opened Basics
  import opened Options
  import opened ErasureCode

  const HASH_SIZE: nat := 32

  datatype Layout = Layout(codec: Codec, blockSize: nat, hash: Bytes -> Bytes) {
    ghost predicate Valid() {
      && IsCode(codec)
      && blockSize > 0
      && forall b :: |hash(b)| == HASH_SIZE
    }

    predicate Sized() {
      codec.k > 0 && blockSize > 0
    }

    function StripeLen(): (n: nat)
      requires Sized()
      ensures n > 0
    {
      TimesIsProduct(blockSize, codec.k);
      Times(blockSize, codec.k)
    }

    /** Bytes of a full stripe in one shard file, hash included. */
    function Stride(): nat {
      blockSize + HASH_SIZE
    }

    /** Where stripe i starts in the part. */
    function Start(i: nat): nat
      requires Sized()
    {
      Times(StripeLen(), i)
    }

    /** Where the block of stripe i starts in a shard file. */
    function Offset(i: nat): nat {
      Times(Stride(), i)
    }
  }

  /** a * b, by repeated addition: callers see a plain number, not a product. */
  function Times(a: nat, b: nat): nat {
    if b == 0 then 0 else Times(a, b - 1) + a
  }

  lemma {:induction false} TimesIsProduct(a: nat, b: nat)
    ensures Times(a, b) == a * b
    ensures a > 0 && b > 0 ==> Times(a, b) > 0
  {
    if b > 0 {
      TimesIsProduct(a, b - 1);
      assert a * (b - 1) + a == a * b;
    }
  }

  lemma {:induction false} TimesMonotone(a: nat, i: nat, j: nat)
    requires i <= j
    ensures Times(a, i) <= Times(a, j)
    ensures i < j ==> Times(a, i) + a <= Times(a, j)
  {
    if i < j {
      TimesMonotone(a, i, j - 1);
    }
  }

  function NumStripes(l: Layout, size: nat): nat
    requires l.Sized()
  {
    CeilDiv(size, l.StripeLen())
  }

  /** Data bytes in stripe i of a part. */
  function StripeSize(l: Layout, size: nat, i: nat): nat
    requires l.Sized() && l.Start(i) <= size
  {
    Min(l.StripeLen(), size - l.Start(i))
  }

  function ShardLen(l: Layout, size: nat, i: nat): nat
    requires l.Sized() && l.Start(i) <= size
  {
    CeilDiv(StripeSize(l, size, i), l.codec.k)
  }

  function StripeData(l: Layout, content: Bytes, i: nat): (d: Bytes)
    requires l.Sized() && l.Start(i) <= |content|
    ensures |d| == StripeSize(l, |content|, i)
  {
    content[l.Start(i)..l.Start(i) + StripeSize(l, |content|, i)]
  }

  lemma DivFloor(a: nat, b: nat)
    requires b > 0
    ensures b * (a / b) <= a < b * (a / b) + b
  {
  }

  lemma StripeCount(l: Layout, size: nat, i: nat)
    requires l.Sized()
    ensures i < NumStripes(l, size) <==> l.Start(i) < size
  {
    var n, m := l.StripeLen(), NumStripes(l, size);
    CeilDivBounds(size, n);
    TimesIsProduct(n, m);
    if i < m {
      TimesMonotone(n, i, m);
      TimesMonotone(n, i + 1, m);
    } else {
      TimesMonotone(n, m, i);
    }
  }

  lemma FullStripe(l: Layout, size: nat, i: nat)
    requires l.Sized() && l.Start(i) <= size
    ensures l.Start(i + 1) <= size ==> ShardLen(l, size, i) == l.blockSize
    ensures ShardLen(l, size, i) <= l.blockSize
  {
    TimesIsProduct(l.blockSize, l.codec.k);
    CeilDivOfMultiple(l.blockSize, l.codec.k);
    CeilDivMonotone(StripeSize(l, size, i), l.StripeLen(), l.codec.k);
  }

  lemma CeilDivOfMultiple(b: nat, k: nat)
    requires k > 0
    ensures CeilDiv(b * k, k) == b
  {
    CeilDivBounds(b * k, k);
    var q := CeilDiv(b * k, k);
    assert (q + 1) * k == q * k + k && (b + 1) * k == b * k + k;
    if q < b {
      MulMonotone(q + 1, b, k);
    } else if q > b {
      MulMonotone(b + 1, q, k);
    }
  }

  lemma CeilDivMonotone(a: nat, b: nat, k: nat)
    requires k > 0 && a <= b
    ensures CeilDiv(a, k) <= CeilDiv(b, k)
  {
    CeilDivBounds(a, k);
    CeilDivBounds(b, k);
    var qa, qb := CeilDiv(a, k), CeilDiv(b, k);
    assert (qb + 1) * k == qb * k + k && k * qa == qa * k;
    if qa > qb {
      MulMonotone(qb + 1, qa, k);
    }
  }

  // ----- one shard file

  /** The shard the write put on the disk that holds shard j. */
  function Original(l: Layout, content: Bytes, i: nat, j: nat): Bytes
    requires l.Sized() && l.Start(i) <= |content|
  {
    var shards := Encode(l.codec, StripeData(l, content, i));
    if j < |shards| then shards[j] else []
  }

  lemma OriginalShape(l: Layout, content: Bytes, i: nat)
    requires l.Valid() && l.Start(i) <= |content|
    ensures |Encode(l.codec, StripeData(l, content, i))| == l.codec.n
    ensures forall j :: 0 <= j < l.codec.n ==> Original(l, content, i, j) == Encode(l.codec, StripeData(l, content, i))[j]
    ensures forall j :: 0 <= j < l.codec.n ==>
              |Encode(l.codec, StripeData(l, content, i))[j]| == ShardLen(l, |content|, i)
  {
    EncodeShape(l.codec, StripeData(l, content, i));
  }

  /** The block at `off` is there in full and passes its hash. */
  predicate BlockPasses(l: Layout, file: Bytes, off: nat, len: nat) {
    && off + HASH_SIZE + len <= |file|
    && file[off..off + HASH_SIZE] == l.hash(file[off + HASH_SIZE..off + HASH_SIZE + len])
  }

  predicate Intact(l: Layout, file: Option<Bytes>, size: nat, i: nat)
    requires l.Sized() && l.Start(i) <= size
  {
    file.Some? && BlockPasses(l, file.value, l.Offset(i), ShardLen(l, size, i))
  }

  function BlockAt(l: Layout, file: Bytes, size: nat, i: nat): Bytes
    requires l.Sized() && l.Start(i) <= size
    requires l.Offset(i) + HASH_SIZE + ShardLen(l, size, i) <= |file|
  {
    file[l.Offset(i) + HASH_SIZE..l.Offset(i) + HASH_SIZE + ShardLen(l, size, i)]
  }

  /** The fault model: a file may be missing, cut short or damaged anywhere, but a block that still
      passes its hash is the block the write put there. */
  ghost predicate Faithful(l: Layout, file: Option<Bytes>, content: Bytes, j: nat)
    requires l.Valid() && j < l.codec.n
  {
    forall i: nat :: l.Start(i) < |content| && Intact(l, file, |content|, i) ==>
      BlockAt(l, file.value, |content|, i) == Original(l, content, i, j)
  }

  /** Every stripe's block is there. */
  ghost predicate Whole(l: Layout, file: Option<Bytes>, size: nat)
    requires l.Sized()
  {
    forall i: nat :: l.Start(i) < size ==> Intact(l, file, size, i)
  }

  /** The file serves the original shard in every stripe. */
  ghost predicate Serves(l: Layout, file: Option<Bytes>, content: Bytes, j: nat)
    requires l.Valid() && j < l.codec.n
  {
    file.Some? && Whole(l, file, |content|) && Faithful(l, file, content, j)
  }

  // ----- building a shard file stripe by stripe

  /** The file holds the first m stripes of the part and nothing else. */
  ghost predicate HoldsStripes(l: Layout, file: Bytes, content: Bytes, j: nat, m: nat)
    requires l.Valid() && j < l.codec.n
  {
    && (m == 0 ==> file == [])
    && (m > 0 ==> l.Start(m - 1) <= |content|
                  && |file| == l.Offset(m - 1) + HASH_SIZE + ShardLen(l, |content|, m - 1))
    && forall i: nat :: i < m && l.Start(i) < |content| ==>
         Intact(l, Some(file), |content|, i) && BlockAt(l, file, |content|, i) == Original(l, content, i, j)
  }

  lemma ExtendKeepsBlock(l: Layout, file: Bytes, more: Bytes, size: nat, i: nat)
    requires l.Sized() && l.Start(i) <= size && Intact(l, Some(file), size, i)
    ensures Intact(l, Some(file + more), size, i)
    ensures BlockAt(l, file + more, size, i) == BlockAt(l, file, size, i)
  {
    var off, len := l.Offset(i), ShardLen(l, size, i);
    assert (file + more)[off..off + HASH_SIZE] == file[off..off + HASH_SIZE];
    assert (file + more)[off + HASH_SIZE..off + HASH_SIZE + len] == file[off + HASH_SIZE..off + HASH_SIZE + len];
  }

  lemma AppendedBlock(l: Layout, file: Bytes, shard: Bytes, size: nat, i: nat)
    requires l.Valid() && l.Start(i) <= size
    requires |file| == l.Offset(i) && |shard| == ShardLen(l, size, i)
    ensures Intact(l, Some(file + l.hash(shard) + shard), size, i)
    ensures BlockAt(l, file + l.hash(shard) + shard, size, i) == shard
  {
    var file', off := file + l.hash(shard) + shard, |file|;
    assert file'[off..off + HASH_SIZE] == l.hash(shard);
    assert file'[off + HASH_SIZE..off + HASH_SIZE + |shard|] == shard;
  }

  lemma HeldLength(l: Layout, file: Bytes, content: Bytes, j: nat, m: nat)
    requires l.Valid() && j < l.codec.n && l.Start(m) < |content| && HoldsStripes(l, file, content, j, m)
    ensures |file| == l.Offset(m)
  {
    if m > 0 {
      FullStripe(l, |content|, m - 1);
    }
  }

  lemma AppendStripe(l: Layout, file: Bytes, content: Bytes, j: nat, m: nat, shard: Bytes)
    requires l.Valid() && j < l.codec.n && l.Start(m) < |content|
    requires HoldsStripes(l, file, content, j, m)
    requires shard == Original(l, content, m, j)
    ensures HoldsStripes(l, file + l.hash(shard) + shard, content, j, m + 1)
  {
    OriginalShape(l, content, m);
    var file', size := file + l.hash(shard) + shard, |content|;
    HeldLength(l, file, content, j, m);
    AppendedBlock(l, file, shard, size, m);
    forall i: nat | i < m + 1 && l.Start(i) < size
      ensures Intact(l, Some(file'), size, i) && BlockAt(l, file', size, i) == Original(l, content, i, j)
    {
      if i < m {
        ExtendKeepsBlock(l, file, l.hash(shard) + shard, size, i);
        assert file' == file + (l.hash(shard) + shard);
      }
    }
  }

  lemma HoldsAllServes(l: Layout, file: Bytes, content: Bytes, j: nat, m: nat)
    requires l.Valid() && j < l.codec.n && HoldsStripes(l, file, content, j, m)
    requires l.Start(m) >= |content|
    ensures Serves(l, Some(file), content, j)
  {
    forall i: nat | l.Start(i) < |content| ensures i < m {
      if i >= m {
        TimesMonotone(l.StripeLen(), m, i);
      }
    }
  }
}
