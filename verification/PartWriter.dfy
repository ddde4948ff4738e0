/** Shard placement (internal/erasure/xlmeta.go). */
module Placement {

  /** dist[j] is the disk that holds shard j: a permutation of the disks. */
  predicate ValidDist(dist: seq<nat>, n: nat) {
    && |dist| == n
    && (forall j :: 0 <= j < n ==> dist[j] < n)
    && (forall j, j' :: 0 <= j < j' < n ==> dist[j] != dist[j'])
    && (forall d: nat :: d < n ==> d in dist)
  }

  lemma ModSmall(a: nat, n: nat)
    requires 0 < n && a < 2 * n
    ensures a % n == if a < n then a else a - n
  {
    if a >= n {
      assert a == n * 1 + (a - n);
    }
  }

  /** The identity rotated by the hash of the key. */
  method BuildDistribution(keyHash: nat, n: nat) returns (dist: seq<nat>)
    requires n > 0
    ensures ValidDist(dist, n)
    ensures dist[0] == keyHash % n
    ensures forall j :: 0 <= j < n - 1 ==> dist[j + 1] == if dist[j] == n - 1 then 0 else dist[j] + 1
  {
    var rot := keyHash % n;
    dist := [];
    for j := 0 to n
      invariant |dist| == j
      invariant forall k :: 0 <= k < j ==> dist[k] == if k + rot < n then k + rot else k + rot - n
    {
      ModSmall(j + rot, n);
      dist := dist + [(j + rot) % n];
    }
    forall d: nat | d < n ensures d in dist {
      assert dist[if d >= rot then d - rot else d + n - rot] == d;
    }
  }

  /** Which shard a disk holds, or -1. */
  method ShardForDisk(dist: seq<nat>, disk: nat) returns (j: int)
    ensures -1 <= j < |dist|
    ensures j == -1 <==> disk !in dist
    ensures j >= 0 ==> dist[j] == disk
  {
    for k := 0 to |dist|
      invariant disk !in dist[..k]
    {
      if dist[k] == disk {
        return k;
      }
    }
    assert dist[..|dist|] == dist;
    j := -1;
  }
}

/** Writing one part (internal/erasure/set.go): read a stripe, code it, append hash and shard to
    every disk's file. */
module PartWriter {
  import opened Basics
  import opened Options
  import opened ErasureCode
  import opened Stripes
  import opened Placement

  datatype EncodeResult =
    | Encoded(files: seq<Option<Bytes>>, total: nat, full: bool)
    | ReadFailed
    | DiskFailed
    | NoWriteQuorum

  datatype Fault = NoFault | ReadFault | DiskFault

  /** The loop comes to writing stripe m of a content of this size. The stripe in which a broken
      reader ends is not written. */
  predicate Reaches(l: Layout, size: nat, broken: bool, m: nat)
    requires l.Sized()
  {
    if broken then l.Start(m + 1) <= size else l.Start(m) < size
  }

  /** Some disk fails on a stripe the loop comes to. */
  predicate Interrupted(l: Layout, size: nat, broken: bool, fails: map<nat, nat>)
    requires l.Sized()
  {
    exists d :: d in fails && Reaches(l, size, broken, fails[d])
  }

  /** The disks that fail after the last stripe. */
  function FailAtClose(l: Layout, size: nat, fails: map<nat, nat>): set<nat>
    requires l.Sized()
  {
    set d | d in fails && fails[d] == NumStripes(l, size)
  }

  /** Every disk outside `failed` serves its shard of the content. */
  ghost predicate StoredAs(l: Layout, dist: seq<nat>, files: seq<Option<Bytes>>, content: Bytes, failed: set<nat>)
    requires l.Valid() && ValidDist(dist, l.codec.n)
  {
    && |files| == l.codec.n
    && forall j :: 0 <= j < l.codec.n ==>
         if dist[j] in failed then files[dist[j]].None? else Serves(l, files[dist[j]], content, j)
  }

  ghost predicate StripesWritten(l: Layout, dist: seq<nat>, files: seq<Bytes>, content: Bytes, m: nat)
    requires l.Valid() && ValidDist(dist, l.codec.n)
  {
    |files| == l.codec.n && forall j :: 0 <= j < l.codec.n ==> HoldsStripes(l, files[dist[j]], content, j, m)
  }

  method EncodeChunk(l: Layout, chunk: Bytes, ghost content: Bytes, ghost m: nat) returns (shards: seq<Bytes>)
    requires l.Valid() && l.Start(m) < |content| && chunk == StripeData(l, content, m)
    ensures |shards| == l.codec.n
    ensures forall j :: 0 <= j < l.codec.n ==> shards[j] == Original(l, content, m, j)
  {
    OriginalShape(l, content, m);
    shards := Encode(l.codec, chunk);
  }

  /** Append one stripe's shards to the files, each to the disk the placement names. */
  method AppendShards(l: Layout, dist: seq<nat>, files: seq<Bytes>, shards: seq<Bytes>) returns (files': seq<Bytes>)
    requires ValidDist(dist, l.codec.n) && |files| == |shards| == l.codec.n
    ensures |files'| == l.codec.n
    ensures forall j :: 0 <= j < l.codec.n ==> files'[dist[j]] == files[dist[j]] + l.hash(shards[j]) + shards[j]
  {
    files' := files;
    for j := 0 to l.codec.n
      invariant |files'| == l.codec.n
      invariant forall j' :: 0 <= j' < j ==> files'[dist[j']] == files[dist[j']] + l.hash(shards[j']) + shards[j']
      invariant forall j' :: j <= j' < l.codec.n ==> files'[dist[j']] == files[dist[j']]
    {
      var di := dist[j];
      files' := files'[di := files'[di] + l.hash(shards[j]) + shards[j]];
    }
  }

  /** Append stripe m to every file. */
  method WriteStripe(l: Layout, dist: seq<nat>, files: seq<Bytes>, chunk: Bytes, ghost content: Bytes, ghost m: nat)
    returns (files': seq<Bytes>)
    requires l.Valid() && ValidDist(dist, l.codec.n)
    requires l.Start(m) < |content| && chunk == StripeData(l, content, m)
    requires StripesWritten(l, dist, files, content, m)
    ensures StripesWritten(l, dist, files', content, m + 1)
  {
    var shards := EncodeChunk(l, chunk, content, m);
    files' := AppendShards(l, dist, files, shards);
    forall j | 0 <= j < l.codec.n ensures HoldsStripes(l, files'[dist[j]], content, j, m + 1) {
      AppendStripe(l, files[dist[j]], content, j, m, shards[j]);
    }
  }

  function EmptyFiles(l: Layout, dist: seq<nat>, ghost content: Bytes): (files: seq<Bytes>)
    requires l.Valid() && ValidDist(dist, l.codec.n)
    ensures StripesWritten(l, dist, files, content, 0)
  {
    seq(l.codec.n, _ => [])
  }

  /** Where the encoder stands after m stripes, `total` bytes into the content; no disk has failed. */
  ghost predicate Encoding(l: Layout, dist: seq<nat>, files: seq<Bytes>, content: Bytes, fails: map<nat, nat>,
                           m: nat, total: nat, eof: bool)
    requires l.Valid() && ValidDist(dist, l.codec.n)
  {
    && StripesWritten(l, dist, files, content, m)
    && (m > 0 ==> l.Start(m - 1) < |content|)
    && (forall d :: d in fails ==> fails[d] >= m)
    && if eof then total == |content| <= l.Start(m) else total == l.Start(m) <= |content|
  }

  /** What a read of up to a stripe gets after m stripes. */
  lemma NextChunk(l: Layout, content: Bytes, m: nat, nr: nat)
    requires l.Valid() && l.Start(m) < |content| && nr == Min(l.StripeLen(), |content| - l.Start(m))
    ensures content[l.Start(m)..l.Start(m) + nr] == StripeData(l, content, m)
    ensures nr < l.StripeLen() ==> l.Start(m) + nr == |content| <= l.Start(m + 1)
    ensures nr == l.StripeLen() ==> l.Start(m) + nr == l.Start(m + 1) <= |content|
  {
  }

  lemma EncodingNext(l: Layout, dist: seq<nat>, files: seq<Bytes>, content: Bytes, fails: map<nat, nat>, m: nat, nr: nat)
    requires l.Valid() && ValidDist(dist, l.codec.n) && StripesWritten(l, dist, files, content, m + 1)
    requires l.Start(m) < |content| && nr == Min(l.StripeLen(), |content| - l.Start(m))
    requires forall d :: d in fails ==> fails[d] > m
    ensures Encoding(l, dist, files, content, fails, m + 1, l.Start(m) + nr, nr < l.StripeLen())
  {
    NextChunk(l, content, m, nr);
  }

  lemma EncodingBounds(l: Layout, dist: seq<nat>, files: seq<Bytes>, content: Bytes, fails: map<nat, nat>, m: nat, total: nat)
    requires l.Valid() && ValidDist(dist, l.codec.n) && Encoding(l, dist, files, content, fails, m, total, false)
    ensures total <= |content|
    ensures total == |content| ==> Encoding(l, dist, files, content, fails, m, total, true)
  {
  }

  /** With no disk failed before stripe m and the loop not coming to it, none interrupts. */
  lemma NotInterrupted(l: Layout, size: nat, broken: bool, fails: map<nat, nat>, m: nat)
    requires l.Sized() && !Reaches(l, size, broken, m)
    requires forall d :: d in fails ==> fails[d] >= m
    ensures !Interrupted(l, size, broken, fails)
  {
    forall d | d in fails ensures !Reaches(l, size, broken, fails[d]) {
      TimesMonotone(l.StripeLen(), m, fails[d]);
      TimesMonotone(l.StripeLen(), m + 1, fails[d] + 1);
    }
  }

  /** Write what a read of up to one stripe got; a short read is the last. */
  method EncodeChunkAt(l: Layout, dist: seq<nat>, files: seq<Bytes>, content: Bytes, ghost fails: map<nat, nat>,
                       total: nat, nr: nat, ghost m: nat)
    returns (files': seq<Bytes>, total': nat, eof: bool)
    requires l.Valid() && ValidDist(dist, l.codec.n) && Encoding(l, dist, files, content, fails, m, total, false)
    requires total < |content| && nr == Min(l.StripeLen(), |content| - total)
    requires forall d :: d in fails ==> fails[d] > m
    ensures Encoding(l, dist, files', content, fails, m + 1, total', eof) && total' > total
    ensures eof <==> nr < l.StripeLen()
  {
    NextChunk(l, content, m, nr);
    files' := WriteStripe(l, dist, files, content[total..total + nr], content, m);
    EncodingNext(l, dist, files', content, fails, m, nr);
    total', eof := total + nr, nr < l.StripeLen();
  }

  /** What stops the loop before stripe m, when no disk has failed yet. */
  ghost predicate Stopped(l: Layout, size: nat, broken: bool, fails: map<nat, nat>, m: nat, fault: Fault)
    requires l.Sized()
  {
    match fault
    case NoFault => true
    case ReadFault => broken && !Reaches(l, size, broken, m) && forall d :: d in fails ==> fails[d] >= m
    case DiskFault => m in fails.Values && Reaches(l, size, broken, m)
  }

  /** The loop stops for a disk if and only if one fails on a stripe it comes to. */
  lemma StoppedIs(l: Layout, size: nat, broken: bool, fails: map<nat, nat>, m: nat, fault: Fault)
    requires l.Sized() && Stopped(l, size, broken, fails, m, fault)
    ensures fault.DiskFault? ==> Interrupted(l, size, broken, fails)
    ensures fault.ReadFault? ==> broken && !Interrupted(l, size, broken, fails)
  {
    if fault.ReadFault? {
      NotInterrupted(l, size, broken, fails, m);
    }
  }

  /** What becomes of a read of up to a stripe. */
  method Turn(l: Layout, size: nat, broken: bool, fails: map<nat, nat>, total: nat, nr: nat, m: nat) returns (fault: Fault)
    requires l.Sized() && total == l.Start(m) <= size && nr == Min(l.StripeLen(), size - total)
    requires forall d :: d in fails ==> fails[d] >= m
    ensures Stopped(l, size, broken, fails, m, fault)
    ensures fault.NoFault? ==> (nr > 0 ==> forall d :: d in fails ==> fails[d] > m) && (broken ==> nr == l.StripeLen())
  {
    if broken && nr < l.StripeLen() {
      return ReadFault;
    }
    if nr > 0 && m in fails.Values {
      return DiskFault;
    }
    return NoFault;
  }

  /** One turn of the encoder: read up to a stripe, then write it. */
  method EncodeNext(l: Layout, dist: seq<nat>, files: seq<Bytes>, content: Bytes, broken: bool, fails: map<nat, nat>,
                    total: nat, m: nat)
    returns (fault: Fault, files': seq<Bytes>, total': nat, eof: bool, m': nat)
    requires l.Valid() && ValidDist(dist, l.codec.n) && Encoding(l, dist, files, content, fails, m, total, false)
    ensures Stopped(l, |content|, broken, fails, m', fault)
    ensures fault.NoFault? ==> Encoding(l, dist, files', content, fails, m', total', eof)
    ensures fault.NoFault? ==> (eof || total' > total) && (broken ==> !eof)
  {
    EncodingBounds(l, dist, files, content, fails, m, total);
    files', total', eof, m' := files, total, true, m;
    var nr := Min(l.StripeLen(), |content| - total);
    fault := Turn(l, |content|, broken, fails, total, nr, m);
    if fault.NoFault? && nr > 0 {
      m' := m + 1;
      files', total', eof := EncodeChunkAt(l, dist, files, content, fails, total, nr, m);
    }
  }

  lemma AllWritten(l: Layout, dist: seq<nat>, files: seq<Bytes>, content: Bytes, fails: map<nat, nat>, m: nat, total: nat)
    requires l.Valid() && ValidDist(dist, l.codec.n) && Encoding(l, dist, files, content, fails, m, total, true)
    ensures m == NumStripes(l, |content|)
    ensures !Interrupted(l, |content|, false, fails)
  {
    StripeCount(l, |content|, m);
    if m > 0 {
      StripeCount(l, |content|, m - 1);
    }
    NotInterrupted(l, |content|, false, fails, m);
  }

  method EncodeStripes(l: Layout, dist: seq<nat>, content: Bytes, broken: bool, fails: map<nat, nat>)
    returns (fault: Fault, files: seq<Bytes>, total: nat, m: nat)
    requires l.Valid() && ValidDist(dist, l.codec.n)
    ensures fault.DiskFault? <==> Interrupted(l, |content|, broken, fails)
    ensures fault.ReadFault? <==> broken && !fault.DiskFault?
    ensures fault.NoFault? ==> StripesWritten(l, dist, files, content, m)
    ensures fault.NoFault? ==> l.Start(m) >= |content| == total && m == NumStripes(l, |content|)
  {
    files := EmptyFiles(l, dist, content);
    fault, total, m := NoFault, 0, 0;
    var eof := false;
    while fault.NoFault? && !eof
      invariant fault.NoFault? ==> Encoding(l, dist, files, content, fails, m, total, eof) && (broken ==> !eof)
      invariant Stopped(l, |content|, broken, fails, m, fault)
      decreases fault.NoFault?, |content| - total, !eof
    {
      fault, files, total, eof, m := EncodeNext(l, dist, files, content, broken, fails, total, m);
    }
    StoppedIs(l, |content|, broken, fails, m, fault);
    if fault.NoFault? {
      AllWritten(l, dist, files, content, fails, m, total);
    }
  }

  /** A broken reader gives as many stripes as it has read in full. */
  lemma FullStripes(l: Layout, size: nat, m: nat)
    requires l.Sized()
    ensures l.Start(m + 1) <= size <==> m < size / l.StripeLen()
  {
    var n, q := l.StripeLen(), size / l.StripeLen();
    DivFloor(size, n);
    TimesIsProduct(n, q);
    TimesIsProduct(n, m + 1);
    if m < q {
      TimesMonotone(n, m + 1, q);
    } else {
      TimesMonotone(n, q + 1, m + 1);
    }
  }

  lemma InterruptedIs(l: Layout, size: nat, broken: bool, fails: map<nat, nat>)
    requires l.Sized()
    ensures Interrupted(l, size, broken, fails) <==>
              exists d :: d in fails && fails[d] < if broken then size / l.StripeLen() else NumStripes(l, size)
  {
    forall d | d in fails
      ensures Reaches(l, size, broken, fails[d]) <==> fails[d] < if broken then size / l.StripeLen() else NumStripes(l, size)
    {
      StripeCount(l, size, fails[d]);
      FullStripes(l, size, fails[d]);
    }
  }

  /** Encode one part. `broken` says that the reader ends in an error after the content, and fails[d]
      how many stripes disk d takes before it reports one: 0 when it refuses the stream, all of them
      when it fails on closing the file. */
  method EncodePart(l: Layout, dist: seq<nat>, content: Bytes, broken: bool, writeQuorum: nat, fails: map<nat, nat>)
    returns (r: EncodeResult)
    requires l.Valid() && ValidDist(dist, l.codec.n)
    requires forall d :: d in fails ==> d < l.codec.n
    ensures r.DiskFailed? <==> Interrupted(l, |content|, broken, fails)
    ensures r.DiskFailed? <==>
              exists d :: d in fails && fails[d] < if broken then |content| / l.StripeLen() else NumStripes(l, |content|)
    ensures r.ReadFailed? <==> broken && !r.DiskFailed?
    ensures r.NoWriteQuorum? <==>
              !r.DiskFailed? && !r.ReadFailed? && l.codec.n < writeQuorum + |FailAtClose(l, |content|, fails)|
    ensures r.Encoded? ==> StoredAs(l, dist, r.files, content, FailAtClose(l, |content|, fails))
    ensures r.Encoded? ==> |r.files| == l.codec.n && forall d :: 0 <= d < l.codec.n ==>
              (r.files[d].None? <==> d in fails && fails[d] == NumStripes(l, |content|))
    ensures r.Encoded? ==> r.total == |content| && (r.full <==> FailAtClose(l, |content|, fails) == {})
  {
    InterruptedIs(l, |content|, broken, fails);
    var fault, files, total, m := EncodeStripes(l, dist, content, broken, fails);
    if fault.DiskFault? {
      return DiskFailed;
    }
    if fault.ReadFault? {
      return ReadFailed;
    }
    var n, bad := l.codec.n, FailAtClose(l, |content|, fails);
    if n < writeQuorum + |bad| {
      return NoWriteQuorum;
    }
    forall j | 0 <= j < n ensures Serves(l, Some(files[dist[j]]), content, j) {
      HoldsAllServes(l, files[dist[j]], content, j, m);
    }
    var kept := seq(n, d requires 0 <= d < n => if d in bad then None else Some(files[d]));
    r := Encoded(kept, total, |bad| == 0);
  }
}
