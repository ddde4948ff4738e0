/** Reading a range of a whole object (internal/erasure/set.go, internal/erasure/pool.go): resolve
    the requested range, walk the parts, and read the wanted slice of each. */
module ObjectRead {
  import opened Basics
  import opened Options
  import opened ErasureCode
  import opened Stripes
  import opened Placement
  import opened PartWriter
  import opened RangedRead
  import NodeSets

  /** An object's bytes lie in its parts' shard files, or inside its metadata when it is small. */
  datatype ObjectMeta = ObjectMeta(parts: seq<PartMeta>, size: nat, inlined: Option<Bytes>, etag: string, verifiable: bool)

  /** Where part p starts in the object. */
  function PartStart(parts: seq<PartMeta>, p: nat): nat
    requires p <= |parts|
  {
    if p == 0 then 0 else PartStart(parts, p - 1) + parts[p - 1].size
  }

  ghost predicate Describes(meta: ObjectMeta, contents: seq<Bytes>, md5: Bytes -> string) {
    && |meta.parts| == |contents|
    && (forall p :: 0 <= p < |contents| ==> meta.parts[p].size == |contents[p]|)
    && (forall p :: 0 <= p < |contents| && meta.parts[p].verifiable ==> meta.parts[p].etag == md5(contents[p]))
    && meta.size == |Concat(contents)|
    && (meta.inlined.Some? ==> meta.inlined.value == Concat(contents))
    && (meta.verifiable && meta.inlined.Some? ==> meta.etag == md5(Concat(contents)))
  }

  lemma {:induction false} PartInWhole(parts: seq<PartMeta>, contents: seq<Bytes>, p: nat)
    requires |parts| == |contents| && p <= |parts|
    requires forall q :: 0 <= q < |parts| ==> parts[q].size == |contents[q]|
    ensures PartStart(parts, p) == |Concat(contents[..p])| <= |Concat(contents)|
    ensures Concat(contents[..p]) == Concat(contents)[..PartStart(parts, p)]
    ensures p < |parts| ==> PartStart(parts, p) + parts[p].size <= |Concat(contents)|
    ensures p < |parts| ==> contents[p] == Concat(contents)[PartStart(parts, p)..PartStart(parts, p) + parts[p].size]
    decreases |parts| - p
  {
    if p == |parts| {
      assert contents[..p] == contents;
      PartStartIs(parts, contents, p);
    } else {
      PartInWhole(parts, contents, p + 1);
      PartStartIs(parts, contents, p);
      assert contents[..p + 1][..p] == contents[..p];
      assert Concat(contents[..p + 1]) == Concat(contents[..p]) + contents[p];
      var whole, a, b := Concat(contents), PartStart(parts, p), PartStart(parts, p + 1);
      assert whole[..b][..a] == whole[..a];
      assert whole[..b][a..b] == whole[a..b];
    }
  }

  lemma {:induction false} PartStartIs(parts: seq<PartMeta>, contents: seq<Bytes>, p: nat)
    requires |parts| == |contents| && p <= |parts|
    requires forall q :: 0 <= q < |parts| ==> parts[q].size == |contents[q]|
    ensures PartStart(parts, p) == |Concat(contents[..p])|
  {
    if p > 0 {
      PartStartIs(parts, contents, p - 1);
      assert contents[..p][..p - 1] == contents[..p - 1];
    }
  }

  /** The bytes of part p that [lo, hi) asks for, relative to the part. */
  function LocalLo(start: nat, lo: nat): nat {
    if start <= lo then lo - start else 0
  }

  function LocalHi(start: nat, size: nat, hi: nat): nat {
    if hi <= start then 0 else Min(size, hi - start)
  }

  ghost predicate PartReadable(l: Layout, dist: seq<nat>, files: seq<Option<Bytes>>, start: nat, size: nat, lo: nat, hi: nat)
    requires l.Sized() && DiskFiles(l, dist, files)
  {
    LocalLo(start, lo) < LocalHi(start, size, hi) ==>
      Readable(l, dist, files, size, LocalLo(start, lo), LocalHi(start, size, hi))
  }

  ghost predicate PartsFiled(l: Layout, dist: seq<nat>, files: seq<seq<Option<Bytes>>>, parts: seq<PartMeta>) {
    |files| == |parts| && forall p :: 0 <= p < |parts| ==> DiskFiles(l, dist, files[p])
  }

  /** The first m parts are readable as far as [lo, hi) touches them. */
  ghost predicate ReadableUpTo(l: Layout, dist: seq<nat>, files: seq<seq<Option<Bytes>>>, parts: seq<PartMeta>,
                               lo: nat, hi: nat, m: nat)
    requires l.Sized() && PartsFiled(l, dist, files, parts) && m <= |parts|
  {
    m == 0 || (ReadableUpTo(l, dist, files, parts, lo, hi, m - 1) &&
               PartReadable(l, dist, files[m - 1], PartStart(parts, m - 1), parts[m - 1].size, lo, hi))
  }

  /** Every stripe of every part that [lo, hi) touches has enough good shards. */
  ghost predicate ObjectReadable(l: Layout, dist: seq<nat>, files: seq<seq<Option<Bytes>>>, parts: seq<PartMeta>, lo: nat, hi: nat)
    requires l.Sized() && PartsFiled(l, dist, files, parts)
  {
    ReadableUpTo(l, dist, files, parts, lo, hi, |parts|)
  }

  lemma ReadableNext(l: Layout, dist: seq<nat>, files: seq<seq<Option<Bytes>>>, parts: seq<PartMeta>, lo: nat, hi: nat, p: nat)
    requires l.Sized() && PartsFiled(l, dist, files, parts) && p < |parts|
    ensures ReadableUpTo(l, dist, files, parts, lo, hi, p + 1) <==>
            (ReadableUpTo(l, dist, files, parts, lo, hi, p) &&
             PartReadable(l, dist, files[p], PartStart(parts, p), parts[p].size, lo, hi))
  {
  }

  /** One unreadable part makes the object unreadable; parts past the range change nothing. */
  lemma {:induction false} ReadableRest(l: Layout, dist: seq<nat>, files: seq<seq<Option<Bytes>>>, parts: seq<PartMeta>,
                                        lo: nat, hi: nat, p: nat, m: nat)
    requires l.Sized() && PartsFiled(l, dist, files, parts) && p <= m <= |parts|
    ensures !ReadableUpTo(l, dist, files, parts, lo, hi, p) ==> !ReadableUpTo(l, dist, files, parts, lo, hi, m)
    ensures ReadableUpTo(l, dist, files, parts, lo, hi, p) &&
            (forall q :: p <= q < m ==> LocalHi(PartStart(parts, q), parts[q].size, hi) == 0) ==>
            ReadableUpTo(l, dist, files, parts, lo, hi, m)
  {
    if p < m {
      ReadableRest(l, dist, files, parts, lo, hi, p, m - 1);
    }
  }

  ghost predicate FilesFaithful(l: Layout, dist: seq<nat>, files: seq<seq<Option<Bytes>>>, contents: seq<Bytes>)
    requires l.Valid()
  {
    && |files| == |contents|
    && forall p {:trigger AllFaithful(l, dist, files[p], contents[p])} ::
         0 <= p < |contents| ==> AllFaithful(l, dist, files[p], contents[p])
  }

  lemma Adjoin(s: Bytes, a: nat, b: nat, c: nat, d: nat)
    requires a <= b <= c <= d <= |s|
    ensures s[a..b] + s[b..c] == s[a..c] <= s[a..d]
  {
    SliceOfSlice(s, a, d, a, c);
  }

  /** A part that the range wants bytes of. */
  lemma PartWanted(whole: Bytes, content: Bytes, start: nat, lo: nat, hi: nat, out: Bytes)
    requires lo < hi <= |whole| && start + |content| <= |whole| && content == whole[start..start + |content|]
    requires out == whole[lo..Emitted(lo, hi, start)]
    requires LocalLo(start, lo) < LocalHi(start, |content|, hi)
    ensures var more := content[LocalLo(start, lo)..LocalHi(start, |content|, hi)];
            out + more == whole[lo..Emitted(lo, hi, start + |content|)] <= whole[lo..hi]
  {
    var a, b := LocalLo(start, lo), LocalHi(start, |content|, hi);
    WantedAt(start, |content|, lo, hi);
    CutJoins(whole, start, start + |content|, lo, start + a, start + b);
    Adjoin(whole, lo, start + a, start + b, hi);
  }

  lemma WantedAt(start: nat, size: nat, lo: nat, hi: nat)
    requires lo < hi && LocalLo(start, lo) < LocalHi(start, size, hi)
    ensures lo <= start + LocalLo(start, lo) && start + LocalHi(start, size, hi) <= hi && LocalHi(start, size, hi) <= size
    ensures Emitted(lo, hi, start) == start + LocalLo(start, lo)
    ensures Emitted(lo, hi, start + size) == start + LocalHi(start, size, hi)
  {
  }

  lemma PartStep(whole: Bytes, content: Bytes, start: nat, lo: nat, hi: nat, out: Bytes)
    requires lo < hi <= |whole| && start + |content| <= |whole| && content == whole[start..start + |content|]
    requires out == whole[lo..Emitted(lo, hi, start)]
    ensures var a, b := LocalLo(start, lo), LocalHi(start, |content|, hi);
            && (a < b ==> out + content[a..b] == whole[lo..Emitted(lo, hi, start + |content|)])
            && (a >= b ==> out == whole[lo..Emitted(lo, hi, start + |content|)])
            && (a < b ==> out + content[a..b] <= whole[lo..hi])
  {
    if LocalLo(start, lo) < LocalHi(start, |content|, hi) {
      PartWanted(whole, content, start, lo, hi, out);
    }
  }

  lemma PrefixStays(whole: Bytes, lo: nat, hi: nat, out: Bytes, more: Bytes, next: Bytes)
    requires lo <= hi <= |whole| && more <= next && out + next <= whole[lo..hi]
    ensures out + more <= whole[lo..hi]
  {
    assert out + next == (out + more) + next[|more|..];
  }

  /** Part p, as far as the range wants it: it may lie wholly before what is still wanted. */
  method ReadOnePart(l: Layout, dist: seq<nat>, files: seq<Option<Bytes>>, pm: PartMeta, md5: Bytes -> string,
                     skip: nat, remaining: nat, out: Bytes, ghost content: Bytes, ghost whole: Bytes,
                     ghost start: nat, ghost lo: nat, ghost hi: nat)
    returns (err: Option<ReadError>, out': Bytes, skip': nat, remaining': nat)
    requires l.Valid() && AllFaithful(l, dist, files, content) && pm.size == |content|
    requires pm.verifiable ==> pm.etag == md5(content)
    requires lo < hi <= |whole| && start + |content| <= |whole| && content == whole[start..start + |content|]
    requires start < hi && skip == LocalLo(start, lo) && remaining == hi - Emitted(lo, hi, start) > 0
    requires out == whole[lo..Emitted(lo, hi, start)]
    ensures err.None? <==> PartReadable(l, dist, files, start, pm.size, lo, hi)
    ensures err.None? ==> out' == whole[lo..Emitted(lo, hi, start + pm.size)]
    ensures err.None? ==> skip' == LocalLo(start + pm.size, lo) && remaining' == hi - Emitted(lo, hi, start + pm.size)
    ensures err.Some? ==> err == Some(ReadQuorumLost) && out' <= whole[lo..hi]
  {
    PartStep(whole, content, start, lo, hi, out);
    err, out', skip', remaining' := None, out, skip, remaining;
    if skip >= pm.size {
      skip' := skip - pm.size;
    } else {
      ghost var b := LocalHi(start, pm.size, hi);
      var data, degraded;
      err, data, degraded := ReadPart(l, dist, files, pm, md5, skip, remaining, content, b);
      if err.Some? {
        PrefixStays(whole, lo, hi, out, data, content[skip..b]);
      }
      out' := out + data;
      skip' := 0;
      if err.None? {
        remaining' := remaining - |data|;
      }
    }
  }

  lemma {:induction false} LaterStart(parts: seq<PartMeta>, p: nat, q: nat)
    requires p <= q <= |parts|
    ensures PartStart(parts, p) <= PartStart(parts, q)
  {
    if p < q {
      LaterStart(parts, p, q - 1);
    }
  }

  lemma RestUntouched(parts: seq<PartMeta>, p: nat, lo: nat, hi: nat)
    requires p <= |parts| && hi <= PartStart(parts, p)
    ensures forall q :: p <= q < |parts| ==> LocalHi(PartStart(parts, q), parts[q].size, hi) == 0
  {
    forall q | p <= q < |parts| ensures LocalHi(PartStart(parts, q), parts[q].size, hi) == 0 {
      LaterStart(parts, p, q);
    }
  }

  /** What the walk keeps before part p. */
  ghost predicate WalkedTo(whole: Bytes, parts: seq<PartMeta>, lo: nat, hi: nat, p: nat, out: Bytes, skip: nat, remaining: nat)
    requires p <= |parts|
  {
    && lo < hi <= |whole|
    && out == whole[lo..Emitted(lo, hi, PartStart(parts, p))]
    && remaining == hi - Emitted(lo, hi, PartStart(parts, p))
    && skip == LocalLo(PartStart(parts, p), lo)
  }

  /** The walk is over: nothing is left to read, or there are no parts left. */
  lemma WalkEnds(whole: Bytes, parts: seq<PartMeta>, contents: seq<Bytes>, lo: nat, hi: nat, p: nat, out: Bytes,
                 skip: nat, remaining: nat)
    requires |parts| == |contents| && forall q :: 0 <= q < |parts| ==> parts[q].size == |contents[q]|
    requires whole == Concat(contents) && p <= |parts| && WalkedTo(whole, parts, lo, hi, p, out, skip, remaining)
    requires p == |parts| || remaining == 0
    ensures out == whole[lo..hi]
    ensures forall q :: p <= q < |parts| ==> LocalHi(PartStart(parts, q), parts[q].size, hi) == 0
  {
    PartInWhole(parts, contents, p);
    assert contents[..|contents|] == contents;
    RestUntouched(parts, p, lo, hi);
  }

  /** Where the walk stands before part p, or how it failed in the part before. */
  ghost predicate Walk(l: Layout, dist: seq<nat>, files: seq<seq<Option<Bytes>>>, parts: seq<PartMeta>, whole: Bytes,
                       lo: nat, hi: nat, p: nat, err: Option<ReadError>, out: Bytes, skip: nat, remaining: nat)
    requires l.Sized() && PartsFiled(l, dist, files, parts)
  {
    && p <= |parts| && lo < hi <= |whole|
    && (err.None? <==> ReadableUpTo(l, dist, files, parts, lo, hi, p))
    && (if err.None? then WalkedTo(whole, parts, lo, hi, p, out, skip, remaining)
        else err == Some(ReadQuorumLost) && out <= whole[lo..hi])
  }

  /** The next part of the walk. */
  method WalkNext(l: Layout, dist: seq<nat>, files: seq<seq<Option<Bytes>>>, parts: seq<PartMeta>, md5: Bytes -> string,
                  i: nat, skip: nat, remaining: nat, out: Bytes,
                  ghost meta: ObjectMeta, ghost contents: seq<Bytes>, ghost lo: nat, ghost hi: nat)
    returns (err: Option<ReadError>, out': Bytes, skip': nat, remaining': nat)
    requires l.Valid() && FilesFaithful(l, dist, files, contents) && Describes(meta, contents, md5) && parts == meta.parts
    requires PartsFiled(l, dist, files, parts) && i < |parts| && remaining > 0
    requires Walk(l, dist, files, parts, Concat(contents), lo, hi, i, None, out, skip, remaining)
    ensures Walk(l, dist, files, parts, Concat(contents), lo, hi, i + 1, err, out', skip', remaining')
  {
    PartInWhole(parts, contents, i);
    ReadableNext(l, dist, files, parts, lo, hi, i);
    assert AllFaithful(l, dist, files[i], contents[i]);
    err, out', skip', remaining' := ReadOnePart(l, dist, files[i], parts[i], md5, skip, remaining, out, contents[i],
                                                Concat(contents), PartStart(parts, i), lo, hi);
  }

  /** The walk over the parts, until nothing is left to read or a part cannot be read. */
  method WalkParts(l: Layout, dist: seq<nat>, files: seq<seq<Option<Bytes>>>, parts: seq<PartMeta>, md5: Bytes -> string,
                   lo: nat, length: nat, ghost meta: ObjectMeta, ghost contents: seq<Bytes>, ghost hi: nat)
    returns (err: Option<ReadError>, out: Bytes, ghost p: nat, ghost skip: nat, ghost remaining: nat)
    requires l.Valid() && FilesFaithful(l, dist, files, contents) && Describes(meta, contents, md5) && parts == meta.parts
    requires PartsFiled(l, dist, files, parts) && length > 0 && hi == lo + length <= meta.size
    ensures Walk(l, dist, files, parts, Concat(contents), lo, hi, p, err, out, skip, remaining)
    ensures err.None? ==> p == |parts| || remaining == 0
  {
    var left, toSkip, i := length, lo, 0;
    err, out := None, [];
    p, skip, remaining := 0, lo, length;
    while err.None? && i < |parts| && left > 0
      invariant p == i <= |parts| && skip == toSkip && remaining == left
      invariant Walk(l, dist, files, parts, Concat(contents), lo, hi, p, err, out, skip, remaining)
      decreases |parts| - i
    {
      err, out, toSkip, left := WalkNext(l, dist, files, parts, md5, i, toSkip, left, out, meta, contents, lo, hi);
      i := i + 1;
      p, skip, remaining := i, toSkip, left;
    }
  }

  /** All parts, from byte lo for `length` bytes. */
  method ReadParts(l: Layout, dist: seq<nat>, files: seq<seq<Option<Bytes>>>, meta: ObjectMeta, md5: Bytes -> string,
                   lo: nat, length: nat, ghost contents: seq<Bytes>, ghost hi: nat)
    returns (err: Option<ReadError>, out: Bytes)
    requires l.Valid() && FilesFaithful(l, dist, files, contents) && Describes(meta, contents, md5)
    requires PartsFiled(l, dist, files, meta.parts)
    requires length > 0 && hi == lo + length <= meta.size
    ensures err.None? <==> ObjectReadable(l, dist, files, meta.parts, lo, hi)
    ensures err.None? ==> out == Concat(contents)[lo..hi]
    ensures err.Some? ==> err == Some(ReadQuorumLost) && out <= Concat(contents)[lo..hi]
  {
    ghost var p, skip, remaining;
    err, out, p, skip, remaining := WalkParts(l, dist, files, meta.parts, md5, lo, length, meta, contents, hi);
    ReadableRest(l, dist, files, meta.parts, lo, hi, p, |meta.parts|);
    if err.None? {
      WalkEnds(Concat(contents), meta.parts, contents, lo, hi, p, out, skip, remaining);
    }
  }

  /** The range a caller gets: a negative offset starts at zero, a negative or too long length runs
      to the end. */
  function ClipLo(off: int): nat {
    if off < 0 then 0 else off
  }

  function ClipHi(off: int, length: int, size: nat): int {
    if length < 0 || ClipLo(off) + length > size then size else ClipLo(off) + length
  }

  /** The clipped range holds the positions of the object from the offset on and within the length, if there
      is one. */
  lemma ClipIs(off: int, length: int, size: nat, pos: nat)
    ensures ClipLo(off) <= pos < ClipHi(off, length, size) <==>
              pos < size && off <= pos && (length < 0 || pos < (if off < 0 then 0 else off) + length)
  {
  }

  /** A small object comes straight out of its metadata, checked when it is read whole. */
  method ReadInline(meta: ObjectMeta, md5: Bytes -> string, lo: nat, length: nat, ghost contents: seq<Bytes>)
    returns (err: Option<ReadError>, out: Bytes)
    requires Describes(meta, contents, md5) && meta.inlined.Some? && length > 0 && lo + length <= meta.size
    ensures err.None? && out == Concat(contents)[lo..lo + length]
  {
    var bytes := meta.inlined.value;
    out := bytes[lo..Min(lo + length, |bytes|)];
    assert bytes[0..|bytes|] == bytes;
    if lo == 0 && |out| == meta.size && meta.verifiable && md5(out) != meta.etag {
      return Some(ObjectMismatch), out;
    }
    err := None;
  }

  /** Stream [off, off + length) of an object. The read succeeds exactly when the object is inline
      or every stripe it touches still has enough good shards, and then gives exactly the bytes that
      were put. */
  method GetObject(l: Layout, dist: seq<nat>, files: seq<seq<Option<Bytes>>>, meta: ObjectMeta, md5: Bytes -> string,
                   off: int, length: int, ghost contents: seq<Bytes>, ghost lo: nat, ghost hi: int)
    returns (err: Option<ReadError>, out: Bytes)
    requires l.Valid() && FilesFaithful(l, dist, files, contents) && Describes(meta, contents, md5)
    requires PartsFiled(l, dist, files, meta.parts)
    requires lo == ClipLo(off) && hi == ClipHi(off, length, meta.size)
    ensures lo >= hi ==> err.None? && out == []
    ensures lo < hi && meta.inlined.Some? ==> err.None?
    ensures lo < hi && meta.inlined.None? ==> (err.None? <==> ObjectReadable(l, dist, files, meta.parts, lo, hi))
    ensures lo < hi && err.None? ==> out == Concat(contents)[lo..hi]
    ensures lo < hi && err.Some? ==> err == Some(ReadQuorumLost) && out <= Concat(contents)[lo..hi]
  {
    var from := if off < 0 then 0 else off;
    var len := length;
    if len < 0 || from + len > meta.size {
      len := meta.size - from;
    }
    if len <= 0 {
      return None, [];
    }
    if meta.inlined.Some? {
      err, out := ReadInline(meta, md5, from, len, contents);
    } else {
      err, out := ReadParts(l, dist, files, meta, md5, from, len, contents, from + len);
    }
  }

  // ----- requested ranges (section 2.1 of RFC 7233)

  /** `first-last` with last negative for "to the end", or the last n bytes with start == -n. */
  datatype RangeSpec = RangeSpec(isSuffix: bool, start: int, end: int)

  datatype Resolved = Range(off: nat, length: nat) | InvalidRange

  function ResolveRange(rs: RangeSpec, size: nat): Resolved {
    if rs.isSuffix then
      var n := -rs.start;
      if n <= 0 then InvalidRange
      else if n > size then Range(0, size)
      else Range(size - n, n)
    else if rs.start < 0 || rs.start >= size then InvalidRange
    else
      var end := if rs.end < 0 || rs.end >= size then size - 1 else rs.end;
      if end < rs.start then InvalidRange else Range(rs.start, end - rs.start + 1)
  }

  /** The positions a range names: the last n, or those from start through end. */
  predicate Names(rs: RangeSpec, size: nat, pos: nat) {
    pos < size &&
    if rs.isSuffix then size + rs.start <= pos
    else rs.start <= pos && (rs.end < 0 || pos <= rs.end)
  }

  /** The resolved range holds exactly the named positions, and a range is refused exactly when it
      is a suffix of no bytes, starts at a negative position or names no position. */
  lemma ResolveNames(rs: RangeSpec, size: nat)
    ensures var r := ResolveRange(rs, size);
            && (r.Range? ==> r.off + r.length <= size)
            && (r.Range? ==> forall pos: nat :: Names(rs, size, pos) <==> r.off <= pos < r.off + r.length)
            && (r.InvalidRange? <==>
                  if rs.isSuffix then rs.start >= 0
                  else rs.start < 0 || forall pos: nat :: !Names(rs, size, pos))
  {
    if !rs.isSuffix && 0 <= rs.start && ResolveRange(rs, size).Range? {
      var pos: nat := rs.start;
      assert Names(rs, size, pos);
    }
  }

  /** A ranged get of a plain object emits exactly the bytes at the named positions, in order. */
  method GetRange(l: Layout, dist: seq<nat>, files: seq<seq<Option<Bytes>>>, meta: ObjectMeta, md5: Bytes -> string,
                  rs: RangeSpec, ghost contents: seq<Bytes>)
    returns (refused: bool, err: Option<ReadError>, out: Bytes)
    requires l.Valid() && FilesFaithful(l, dist, files, contents) && Describes(meta, contents, md5)
    requires PartsFiled(l, dist, files, meta.parts)
    ensures refused <==> ResolveRange(rs, meta.size).InvalidRange?
    ensures !refused && err.None? ==> var r := ResolveRange(rs, meta.size);
              out == Concat(contents)[r.off..r.off + r.length]
    ensures !refused && err.Some? ==> meta.inlined.None?
    ensures !refused && err.Some? ==> var r := ResolveRange(rs, meta.size);
              !ObjectReadable(l, dist, files, meta.parts, r.off, r.off + r.length)
  {
    ResolveNames(rs, meta.size);
    var r := ResolveRange(rs, meta.size);
    if r.InvalidRange? {
      return true, None, [];
    }
    refused := false;
    err, out := GetObject(l, dist, files, meta, md5, r.off, r.length, contents, r.off, r.off + r.length);
  }

  // ----- losing disks

  lemma {:induction false} InjectiveImage(dist: seq<nat>, js: set<nat>, disks: set<nat>)
    requires forall j :: j in js ==> j < |dist| && dist[j] in disks
    requires forall j, j' :: 0 <= j < j' < |dist| ==> dist[j] != dist[j']
    ensures |js| <= |disks|
  {
    if js != {} {
      var j :| j in js;
      InjectiveImage(dist, js - {j}, disks - {dist[j]});
    }
  }

  /** A part freshly encoded onto all but `lost` disks reads back over any range as long as no more
      than n - k disks are lost. */
  lemma SurvivesLostDisks(l: Layout, dist: seq<nat>, files: seq<Option<Bytes>>, content: Bytes, lost: set<nat>,
                          lo: nat, hi: nat)
    requires l.Valid() && ValidDist(dist, l.codec.n) && StoredAs(l, dist, files, content, lost)
    requires |lost| + l.codec.k <= l.codec.n && hi <= |content|
    ensures AllFaithful(l, dist, files, content)
    ensures Readable(l, dist, files, |content|, lo, hi)
  {
    forall i: nat | Touches(l, lo, hi, i) ensures GoodCount(l, dist, files, |content|, i) >= l.codec.k {
      KeptShards(l, dist, files, content, lost, i);
    }
  }

  lemma KeptShards(l: Layout, dist: seq<nat>, files: seq<Option<Bytes>>, content: Bytes, lost: set<nat>, i: nat)
    requires l.Valid() && ValidDist(dist, l.codec.n) && StoredAs(l, dist, files, content, lost)
    requires l.Start(i) < |content|
    ensures GoodCount(l, dist, files, |content|, i) + |lost| >= l.codec.n
  {
    var n := l.codec.n;
    var all := NodeSets.Nodes(n);
    var kept := set j | j in all && dist[j] !in lost;
    forall j | j in kept ensures Intact(l, files[dist[j]], |content|, i) {
      assert Serves(l, files[dist[j]], content, j);
    }
    PresentAtLeast(StripeShards(l, dist, files, |content|, i), kept);
    InjectiveImage(dist, all - kept, lost);
    NodeSets.NodeCount(n);
    assert |all - kept| == |all| - |kept|;
  }
}
