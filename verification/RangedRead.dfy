/** Reading a byte range back (internal/erasure/set.go, internal/erasure/pool.go): per stripe, read
    one block from every disk, drop those that fail their hash, decode from the rest, and emit the
    wanted slice. */
module RangedRead {
  import opened Basics
  import opened Options
  import opened ErasureCode
  import opened Stripes
  import opened Placement

  // ----- one shard file read front to back

  function DropUpTo(f: Bytes, n: nat): Bytes {
    if n <= |f| then f[n..] else []
  }

  /** Read hash and block from the front of a stream: the block if it passes its hash, and the rest
      of the stream, which is lost for good once it runs short. */
  function ReadBlock(l: Layout, rd: Option<Bytes>, len: nat): (Option<Bytes>, Option<Bytes>) {
    if rd.None? || |rd.value| < HASH_SIZE + len then (None, None)
    else
      var buf := rd.value[HASH_SIZE..HASH_SIZE + len];
      (if rd.value[..HASH_SIZE] == l.hash(buf) then Some(buf) else None, Some(rd.value[HASH_SIZE + len..]))
  }

  /** The stream of a file when stripe i is next. */
  ghost predicate ReaderAt(l: Layout, file: Option<Bytes>, rd: Option<Bytes>, size: nat, i: nat)
    requires l.Sized()
  {
    l.Start(i) < size ==>
      && (rd.Some? ==> file.Some? && rd.value == DropUpTo(file.value, l.Offset(i)))
      && (rd.None? ==> forall i': nat :: i <= i' && l.Start(i') < size ==> !Intact(l, file, size, i'))
  }

  function BlockOf(l: Layout, file: Option<Bytes>, size: nat, i: nat): Option<Bytes>
    requires l.Sized() && l.Start(i) <= size
  {
    if Intact(l, file, size, i) then Some(BlockAt(l, file.value, size, i)) else None
  }

  /** A file too short for stripe i is too short for every later one. */
  lemma ShortStaysShort(l: Layout, file: Bytes, size: nat, i: nat, i': nat)
    requires l.Sized() && i <= i' && l.Start(i') < size && l.Start(i) < size
    requires |file| < l.Offset(i) + HASH_SIZE + ShardLen(l, size, i)
    ensures !Intact(l, Some(file), size, i')
  {
    if i < i' {
      FullStripe(l, size, i);
      TimesMonotone(l.Stride(), i, i');
    }
  }

  lemma ReadBlockReads(l: Layout, file: Option<Bytes>, rd: Option<Bytes>, size: nat, i: nat)
    requires l.Sized() && l.Start(i) < size && ReaderAt(l, file, rd, size, i)
    ensures var (shard, rd') := ReadBlock(l, rd, ShardLen(l, size, i));
            shard == BlockOf(l, file, size, i) && ReaderAt(l, file, rd', size, i + 1)
  {
    var len, off := ShardLen(l, size, i), l.Offset(i);
    var (shard, rd') := ReadBlock(l, rd, len);
    if rd.Some? && |rd.value| < HASH_SIZE + len {
      forall i': nat | i <= i' && l.Start(i') < size ensures !Intact(l, file, size, i') {
        ShortStaysShort(l, file.value, size, i, i');
      }
    } else if rd.Some? {
      var f := file.value;
      assert rd.value == f[off..];
      assert rd.value[HASH_SIZE..HASH_SIZE + len] == f[off + HASH_SIZE..off + HASH_SIZE + len];
      assert rd.value[..HASH_SIZE] == f[off..off + HASH_SIZE];
      FullStripe(l, size, i);
      if l.Start(i + 1) < size {
        assert rd'.value == f[off + HASH_SIZE + len..];
      }
    }
  }

  // ----- one stripe across the disks

  predicate DiskFiles(l: Layout, dist: seq<nat>, files: seq<Option<Bytes>>) {
    ValidDist(dist, l.codec.n) && |files| == l.codec.n
  }

  /** The good shards of stripe i, in shard order. */
  function StripeShards(l: Layout, dist: seq<nat>, files: seq<Option<Bytes>>, size: nat, i: nat): (s: seq<Option<Bytes>>)
    requires l.Sized() && l.Start(i) <= size && DiskFiles(l, dist, files)
    ensures |s| == l.codec.n
    ensures forall j :: 0 <= j < l.codec.n ==> s[j] == BlockOf(l, files[dist[j]], size, i)
  {
    seq(l.codec.n, j requires 0 <= j < l.codec.n => BlockOf(l, files[dist[j]], size, i))
  }

  ghost predicate AllFaithful(l: Layout, dist: seq<nat>, files: seq<Option<Bytes>>, content: Bytes)
    requires l.Valid()
  {
    DiskFiles(l, dist, files) && forall j :: 0 <= j < l.codec.n ==> Faithful(l, files[dist[j]], content, j)
  }

  lemma StripeDecodes(l: Layout, dist: seq<nat>, files: seq<Option<Bytes>>, content: Bytes, i: nat)
    requires l.Valid() && AllFaithful(l, dist, files, content) && l.Start(i) < |content|
    requires Present(StripeShards(l, dist, files, |content|, i)) >= l.codec.k
    ensures DecodeData(l.codec, StripeShards(l, dist, files, |content|, i), StripeSize(l, |content|, i))
         == Some(StripeData(l, content, i))
  {
    var got, all := StripeShards(l, dist, files, |content|, i), Encode(l.codec, StripeData(l, content, i));
    OriginalShape(l, content, i);
    forall j | 0 <= j < |got| && got[j].Some? ensures got[j].value == all[j] {
      assert Faithful(l, files[dist[j]], content, j);
    }
    DecodeEncode(l.codec, StripeData(l, content, i), got);
  }

  ghost predicate ReadersAt(l: Layout, files: seq<Option<Bytes>>, readers: seq<Option<Bytes>>, size: nat, i: nat)
    requires l.Sized()
  {
    |readers| == |files| == l.codec.n && forall d :: 0 <= d < l.codec.n ==> ReaderAt(l, files[d], readers[d], size, i)
  }

  method ReadStripe(l: Layout, dist: seq<nat>, readers: seq<Option<Bytes>>, size: nat, i: nat,
                    ghost files: seq<Option<Bytes>>)
    returns (shards: seq<Option<Bytes>>, readers': seq<Option<Bytes>>)
    requires l.Sized() && l.Start(i) < size && DiskFiles(l, dist, files) && |readers| == l.codec.n
    requires ReadersAt(l, files, readers, size, i)
    ensures shards == StripeShards(l, dist, files, size, i)
    ensures ReadersAt(l, files, readers', size, i + 1)
  {
    var n, len := l.codec.n, ShardLen(l, size, i);
    shards, readers' := [], readers;
    for j := 0 to n
      invariant |readers'| == n && |shards| == j
      invariant forall j' :: 0 <= j' < j ==> shards[j'] == BlockOf(l, files[dist[j']], size, i)
      invariant forall j' :: 0 <= j' < j ==> ReaderAt(l, files[dist[j']], readers'[dist[j']], size, i + 1)
      invariant forall j' :: j <= j' < n ==> readers'[dist[j']] == readers[dist[j']]
    {
      var di := dist[j];
      ReadBlockReads(l, files[di], readers'[di], size, i);
      var (shard, rd) := ReadBlock(l, readers'[di], len);
      readers' := readers'[di := rd];
      shards := shards + [shard];
    }
    forall d: nat | d < n ensures ReaderAt(l, files[d], readers'[d], size, i + 1) {
      assert d in dist;
    }
  }

  // ----- one part

  datatype PartMeta = PartMeta(size: nat, etag: string, verifiable: bool)

  datatype ReadError = ReadQuorumLost | ObjectMismatch

  /** How many good shards stripe i has. */
  function GoodCount(l: Layout, dist: seq<nat>, files: seq<Option<Bytes>>, size: nat, i: nat): nat
    requires l.Sized() && DiskFiles(l, dist, files)
  {
    if l.Start(i) <= size then Present(StripeShards(l, dist, files, size, i)) else 0
  }

  /** Stripe i overlaps the bytes [lo, hi) of the part. */
  predicate Touches(l: Layout, lo: nat, hi: nat, i: nat)
    requires l.Sized()
  {
    lo < l.Start(i + 1) && l.Start(i) < hi
  }

  /** Every stripe touched by [lo, hi) has at least k good shards. */
  ghost predicate Readable(l: Layout, dist: seq<nat>, files: seq<Option<Bytes>>, size: nat, lo: nat, hi: nat)
    requires l.Sized() && DiskFiles(l, dist, files)
  {
    forall i: nat :: Touches(l, lo, hi, i) ==> GoodCount(l, dist, files, size, i) >= l.codec.k
  }

  /** Some touched stripe has a shard missing. */
  ghost predicate Degraded(l: Layout, dist: seq<nat>, files: seq<Option<Bytes>>, size: nat, lo: nat, hi: nat)
    requires l.Sized() && DiskFiles(l, dist, files)
  {
    exists i: nat :: Touches(l, lo, hi, i) && GoodCount(l, dist, files, size, i) < l.codec.n
  }

  /** Where the output stands when the next stripe starts at `pos`. */
  function Emitted(lo: nat, hi: nat, pos: nat): nat
    requires lo <= hi
  {
    if pos <= lo then lo else Min(pos, hi)
  }

  lemma SliceOfSlice(s: Bytes, start: nat, end: nat, a: nat, b: nat)
    requires start <= a <= b <= end <= |s|
    ensures s[start..end][a - start..b - start] == s[a..b]
  {
    forall k | 0 <= k < b - a ensures s[start..end][a - start..b - start][k] == s[a..b][k] {
      assert s[start..end][a - start + k] == s[a + k];
    }
  }

  lemma CutJoins(s: Bytes, start: nat, end: nat, lo: nat, a: nat, b: nat)
    requires start <= a <= b <= end <= |s| && lo <= a
    ensures s[lo..a] + s[start..end][a - start..b - start] == s[lo..b]
  {
    SliceOfSlice(s, start, end, a, b);
    assert s[lo..a] + s[a..b] == s[lo..b];
  }

  /** Cut a decoded stripe down: drop what comes before the range, then what comes after it. */
  function Trim(stripe: Bytes, intraSkip: nat, remaining: nat): Bytes {
    var data := if intraSkip >= |stripe| then [] else stripe[intraSkip..];
    if |data| > remaining then data[..remaining] else data
  }

  /** What is left to skip after a stripe. */
  function SkipLeft(stripe: Bytes, intraSkip: nat): nat {
    if intraSkip >= |stripe| then intraSkip - |stripe| else 0
  }

  lemma EmittedBounds(lo: nat, hi: nat, start: nat, len: nat)
    requires lo <= hi && start < hi && lo < start + len
    ensures start <= Emitted(lo, hi, start) <= Emitted(lo, hi, start + len) <= start + len
    ensures lo <= Emitted(lo, hi, start) && Emitted(lo, hi, start + len) <= hi
  {
  }

  lemma EmitStripe(content: Bytes, lo: nat, hi: nat, start: nat, len: nat)
    requires lo <= hi <= |content| && start + len <= |content| && start < hi && lo < start + len
    ensures var a, b := Emitted(lo, hi, start), Emitted(lo, hi, start + len);
            && start <= a <= b <= start + len
            && content[lo..a] + content[start..start + len][a - start..b - start] == content[lo..b]
  {
    EmittedBounds(lo, hi, start, len);
    CutJoins(content, start, start + len, lo, Emitted(lo, hi, start), Emitted(lo, hi, start + len));
  }

  /** What has been written of [lo, hi) when the next stripe starts at pos. */
  ghost predicate OutSoFar(content: Bytes, lo: nat, hi: nat, pos: nat, out: Bytes, intraSkip: nat, remaining: nat) {
    && lo < hi == Min(|content|, lo + |out| + remaining)
    && intraSkip == (if pos <= lo then lo - pos else 0)
    && out == content[lo..Emitted(lo, hi, pos)]
  }

  /** Append one decoded stripe's share of the range to the output. */
  method Emit(stripe: Bytes, out: Bytes, intraSkip: nat, remaining: nat,
              ghost content: Bytes, ghost lo: nat, ghost hi: nat, ghost pos: nat, ghost n: nat)
    returns (out': Bytes, intraSkip': nat, remaining': nat)
    requires OutSoFar(content, lo, hi, pos, out, intraSkip, remaining)
    requires n > 0 && pos < hi && lo < pos + n && |stripe| == Min(n, |content| - pos)
    requires stripe == content[pos..pos + |stripe|]
    ensures OutSoFar(content, lo, hi, pos + n, out', intraSkip', remaining')
  {
    EmitStripe(content, lo, hi, pos, |stripe|);
    assert Emitted(lo, hi, pos + |stripe|) == Emitted(lo, hi, pos + n);
    ghost var a, b := Emitted(lo, hi, pos), Emitted(lo, hi, pos + |stripe|);
    assert Trim(stripe, intraSkip, remaining) == stripe[a - pos..b - pos];
    var data := Trim(stripe, intraSkip, remaining);
    intraSkip' := SkipLeft(stripe, intraSkip);
    out', remaining' := out + data, remaining - |data|;
  }

  /** The stripes touched by [lo, hi) run from the one holding lo up to the first that starts at or
      past hi. */
  lemma TouchedRange(l: Layout, lo: nat, hi: nat, first: nat, i: nat, j: nat)
    requires l.Sized() && first < i
    requires l.Start(first) <= lo < l.Start(first + 1)
    requires l.Start(i - 1) < hi <= l.Start(i)
    ensures Touches(l, lo, hi, j) <==> first <= j < i
  {
    var n := l.StripeLen();
    if j < first {
      TimesMonotone(n, j + 1, first);
    } else {
      TimesMonotone(n, first + 1, j + 1);
      if j < i {
        TimesMonotone(n, j, i - 1);
      } else {
        TimesMonotone(n, i, j);
      }
    }
  }

  /** `good` tabulates the good shards of every stripe. */
  ghost predicate Tabulates(good: seq<nat>, l: Layout, dist: seq<nat>, files: seq<Option<Bytes>>, size: nat)
    requires l.Sized() && DiskFiles(l, dist, files)
  {
    && |good| == NumStripes(l, size)
    && forall i: nat {:trigger GoodCount(l, dist, files, size, i)} :: i < |good| ==>
         good[i] == GoodCount(l, dist, files, size, i)
  }

  lemma Tabulate(l: Layout, dist: seq<nat>, files: seq<Option<Bytes>>, size: nat) returns (good: seq<nat>)
    requires l.Sized() && DiskFiles(l, dist, files)
    ensures Tabulates(good, l, dist, files, size)
  {
    good := seq(NumStripes(l, size), i requires 0 <= i => GoodCount(l, dist, files, size, i));
  }

  ghost predicate AtLeast(good: seq<nat>, k: nat, from: nat, to: nat) {
    forall j :: from <= j < to && j < |good| ==> good[j] >= k
  }

  lemma TableCovers(l: Layout, size: nat, lo: nat, hi: nat, first: nat, i: nat, j: nat)
    requires l.Sized() && first < i && lo < hi <= size
    requires l.Start(first) <= lo < l.Start(first + 1)
    requires l.Start(i) - l.StripeLen() < hi <= l.Start(i)
    ensures Touches(l, lo, hi, j) <==> first <= j < i
    ensures first <= j < i ==> j < NumStripes(l, size)
  {
    assert l.Start(i - 1) == l.Start(i) - l.StripeLen();
    TouchedRange(l, lo, hi, first, i, j);
    StripeCount(l, size, j);
  }

  lemma WholeRangeRead(good: seq<nat>, l: Layout, dist: seq<nat>, files: seq<Option<Bytes>>, size: nat,
                       lo: nat, hi: nat, first: nat, i: nat)
    requires l.Sized() && DiskFiles(l, dist, files) && Tabulates(good, l, dist, files, size)
    requires first < i && lo < hi <= size
    requires l.Start(first) <= lo < l.Start(first + 1)
    requires l.Start(i) - l.StripeLen() < hi <= l.Start(i)
    requires AtLeast(good, l.codec.k, first, i)
    ensures Readable(l, dist, files, size, lo, hi)
    ensures Degraded(l, dist, files, size, lo, hi) <==> !AtLeast(good, l.codec.n, first, i)
  {
    forall j: nat
      ensures Touches(l, lo, hi, j) <==> first <= j < i
      ensures first <= j < i ==> j < |good| && good[j] == GoodCount(l, dist, files, size, j)
    {
      TableCovers(l, size, lo, hi, first, i, j);
    }
    if Degraded(l, dist, files, size, lo, hi) {
      var j: nat :| Touches(l, lo, hi, j) && GoodCount(l, dist, files, size, j) < l.codec.n;
      assert good[j] < l.codec.n;
    } else {
      forall j | first <= j < i && j < |good| ensures good[j] >= l.codec.n {
        assert Touches(l, lo, hi, j);
      }
    }
  }

  /** One stripe: read it from every disk, count the good shards, decode. */
  method DecodeStripe(l: Layout, dist: seq<nat>, readers: seq<Option<Bytes>>, size: nat, i: nat, len: nat,
                      ghost files: seq<Option<Bytes>>, ghost content: Bytes, ghost good: seq<nat>, ghost pos: nat)
    returns (have: nat, stripe: Bytes, readers': seq<Option<Bytes>>)
    requires l.Valid() && AllFaithful(l, dist, files, content) && size == |content|
    requires pos == l.Start(i) < size && len == Min(l.StripeLen(), size - pos)
    requires Tabulates(good, l, dist, files, size) && ReadersAt(l, files, readers, size, i)
    ensures i < |good| && have == good[i]
    ensures have >= l.codec.k ==> stripe == content[pos..pos + len]
    ensures ReadersAt(l, files, readers', size, i + 1)
  {
    var shards;
    shards, readers' := ReadStripe(l, dist, readers, size, i, files);
    StripeCount(l, size, i);
    assert good[i] == GoodCount(l, dist, files, size, i);
    have, stripe := Present(shards), [];
    if have >= l.codec.k {
      StripeDecodes(l, dist, files, content, i);
      stripe := DecodeData(l.codec, shards, len).value;
    }
  }

  lemma ExtendTable(good: seq<nat>, k: nat, from: nat, i: nat)
    requires from <= i < |good|
    ensures AtLeast(good, k, from, i + 1) <==> AtLeast(good, k, from, i) && good[i] >= k
  {
  }

  /** Open every shard file at the first wanted stripe. */
  function OpenShards(l: Layout, files: seq<Option<Bytes>>, size: nat, first: nat): (readers: seq<Option<Bytes>>)
    requires l.Sized() && |files| == l.codec.n
    ensures ReadersAt(l, files, readers, size, first)
  {
    seq(l.codec.n, d requires 0 <= d < l.codec.n =>
      if files[d].Some? then Some(DropUpTo(files[d].value, l.Offset(first))) else None)
  }

  lemma NextStart(l: Layout, lo: nat, hi: nat, first: nat, i: nat, pos: nat)
    requires l.Sized() && first <= i && pos == l.Start(i)
    requires lo < l.Start(first + 1)
    ensures l.Start(i + 1) == pos + l.StripeLen()
    ensures lo < pos + l.StripeLen()
    ensures pos < hi ==> Touches(l, lo, hi, i)
  {
    TimesMonotone(l.StripeLen(), first + 1, i + 1);
  }

  lemma OutIsPrefix(content: Bytes, lo: nat, hi: nat, pos: nat, out: Bytes, intraSkip: nat, remaining: nat)
    requires OutSoFar(content, lo, hi, pos, out, intraSkip, remaining)
    ensures hi <= |content| && out <= content[lo..hi]
    ensures pos >= hi ==> out == content[lo..hi]
    ensures remaining == 0 && pos > lo ==> pos >= hi
  {
    SliceOfSlice(content, lo, hi, lo, Emitted(lo, hi, pos));
  }

  /** What the loop over the stripes keeps when stripe i, at pos, is next. */
  ghost predicate Reading(l: Layout, files: seq<Option<Bytes>>, readers: seq<Option<Bytes>>, content: Bytes,
                          good: seq<nat>, lo: nat, hi: nat, first: nat, i: nat, pos: nat,
                          out: Bytes, intraSkip: nat, remaining: nat, degraded: bool)
    requires l.Sized()
  {
    && ReadersAt(l, files, readers, |content|, i)
    && OutSoFar(content, lo, hi, pos, out, intraSkip, remaining)
    && pos == l.Start(i)
    && first <= i && (if i == first then pos <= lo else lo < pos < hi + l.StripeLen())
    && AtLeast(good, l.codec.k, first, i)
    && (degraded <==> !AtLeast(good, l.codec.n, first, i))
  }

  /** One round: decode stripe i, stop if it has too few good shards, emit its share of the range. */
  method StripeStep(l: Layout, dist: seq<nat>, readers: seq<Option<Bytes>>, size: nat, i: nat, len: nat, out: Bytes,
                    intraSkip: nat, remaining: nat, degraded: bool, ghost files: seq<Option<Bytes>>,
                    ghost content: Bytes, ghost good: seq<nat>, ghost lo: nat, ghost hi: nat, ghost first: nat, ghost pos: nat)
    returns (ok: bool, readers': seq<Option<Bytes>>, out': Bytes, intraSkip': nat, remaining': nat, degraded': bool)
    requires l.Valid() && AllFaithful(l, dist, files, content) && size == |content|
    requires Tabulates(good, l, dist, files, size) && lo < l.Start(first + 1)
    requires Reading(l, files, readers, content, good, lo, hi, first, i, pos, out, intraSkip, remaining, degraded)
    requires pos < hi && len == Min(l.StripeLen(), size - pos)
    ensures ok ==> Reading(l, files, readers', content, good, lo, hi, first, i + 1, pos + l.StripeLen(),
                           out', intraSkip', remaining', degraded')
    ensures !ok ==> Touches(l, lo, hi, i) && i < |good| && good[i] < l.codec.k && out' == out
  {
    NextStart(l, lo, hi, first, i, pos);
    ok, out', intraSkip', remaining', degraded' := true, out, intraSkip, remaining, degraded;
    var have, stripe;
    have, stripe, readers' := DecodeStripe(l, dist, readers, size, i, len, files, content, good, pos);
    if have < l.codec.k {
      ok := false;
    } else {
      ExtendTable(good, l.codec.k, first, i);
      ExtendTable(good, l.codec.n, first, i);
      degraded' := degraded || have < l.codec.n;
      out', intraSkip', remaining' := Emit(stripe, out, intraSkip, remaining, content, lo, hi, pos, l.StripeLen());
    }
  }

  /** The loop over the stripes of a part, from stripe `first` on. It stops at stripe i: past the
      range, or short of good shards. */
  method ReadStripes(l: Layout, dist: seq<nat>, files: seq<Option<Bytes>>, size: nat, first: nat, skip: nat,
                     remaining0: nat, ghost content: Bytes, ghost hi: nat, ghost good: seq<nat>)
    returns (ok: bool, out: Bytes, degraded: bool, i: nat)
    requires l.Valid() && AllFaithful(l, dist, files, content) && size == |content|
    requires skip < size && remaining0 > 0 && hi == Min(size, skip + remaining0)
    requires l.Start(first) <= skip < l.Start(first + 1)
    requires Tabulates(good, l, dist, files, size)
    ensures ok ==> first < i && l.Start(i) - l.StripeLen() < hi <= l.Start(i)
    ensures ok ==> AtLeast(good, l.codec.k, first, i) && (degraded <==> !AtLeast(good, l.codec.n, first, i))
    ensures ok ==> out == content[skip..hi]
    ensures !ok ==> Touches(l, skip, hi, i) && i < |good| && good[i] < l.codec.k
    ensures !ok ==> out <= content[skip..hi]
  {
    var n := l.StripeLen();
    var readers := OpenShards(l, files, size, first);
    ghost var pos: nat := l.Start(first);
    var intraSkip: nat, partRemaining: nat, remaining: nat := skip - l.Start(first), size - l.Start(first), remaining0;
    out, degraded, ok, i := [], false, true, first;
    while partRemaining > 0 && remaining > 0
      invariant Reading(l, files, readers, content, good, skip, hi, first, i, pos, out, intraSkip, remaining, degraded)
      invariant partRemaining == if pos <= size then size - pos else 0
      decreases partRemaining
    {
      OutIsPrefix(content, skip, hi, pos, out, intraSkip, remaining);
      var len := Min(n, partRemaining);
      ok, readers, out, intraSkip, remaining, degraded :=
        StripeStep(l, dist, readers, size, i, len, out, intraSkip, remaining, degraded, files, content, good, skip, hi, first, pos);
      if !ok {
        return;
      }
      partRemaining := partRemaining - len;
      i, pos := i + 1, pos + n;
    }
    OutIsPrefix(content, skip, hi, pos, out, intraSkip, remaining);
  }

  method FirstStripe(l: Layout, skip: nat) returns (first: nat)
    requires l.Sized()
    ensures l.Start(first) <= skip < l.Start(first + 1)
  {
    DivFloor(skip, l.StripeLen());
    first := skip / l.StripeLen();
    TimesIsProduct(l.StripeLen(), first);
  }

  /** The stripes of one part: which failures stop the read, what it emits, and whether it had to
      work around a missing shard. */
  method ReadWanted(l: Layout, dist: seq<nat>, files: seq<Option<Bytes>>, size: nat, skip: nat, remaining: nat,
                    ghost content: Bytes, ghost hi: nat)
    returns (ok: bool, out: Bytes, degraded: bool)
    requires l.Valid() && AllFaithful(l, dist, files, content) && size == |content|
    requires skip < size && remaining > 0 && hi == Min(size, skip + remaining)
    ensures ok <==> Readable(l, dist, files, size, skip, hi)
    ensures ok ==> out == content[skip..hi]
    ensures ok ==> (degraded <==> Degraded(l, dist, files, size, skip, hi))
    ensures !ok ==> out <= content[skip..hi]
  {
    var first := FirstStripe(l, skip);
    ghost var good := Tabulate(l, dist, files, size);
    var i;
    ok, out, degraded, i := ReadStripes(l, dist, files, size, first, skip, remaining, content, hi, good);
    if ok {
      WholeRangeRead(good, l, dist, files, size, skip, hi, first, i);
    } else {
      assert good[i] == GoodCount(l, dist, files, size, i);
    }
  }

  /** One part. A part read whole is also checked against its etag, which it always matches. */
  method ReadPart(l: Layout, dist: seq<nat>, files: seq<Option<Bytes>>, pm: PartMeta, md5: Bytes -> string,
                  skip: nat, remaining: nat, ghost content: Bytes, ghost hi: nat)
    returns (err: Option<ReadError>, out: Bytes, degraded: bool)
    requires l.Valid() && AllFaithful(l, dist, files, content) && pm.size == |content|
    requires pm.verifiable ==> pm.etag == md5(content)
    requires skip < pm.size && remaining > 0 && hi == Min(pm.size, skip + remaining)
    ensures err.None? <==> Readable(l, dist, files, pm.size, skip, hi)
    ensures err.None? ==> out == content[skip..hi]
    ensures err.None? ==> (degraded <==> Degraded(l, dist, files, pm.size, skip, hi))
    ensures err.Some? ==> err == Some(ReadQuorumLost) && out <= content[skip..hi]
  {
    var ok;
    ok, out, degraded := ReadWanted(l, dist, files, pm.size, skip, remaining, content, hi);
    assert content[0..|content|] == content;
    if !ok {
      err := Some(ReadQuorumLost);
    } else if skip == 0 && remaining >= pm.size && pm.verifiable && md5(out) != pm.etag {
      err := Some(ObjectMismatch);
    } else {
      err := None;
    }
  }
}
