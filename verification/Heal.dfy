/** Healing one object (internal/erasure/heal.go): bring every disk's metadata copy to the majority
    version, then rebuild every shard file that is not whole from those that are. */
module Heal {
  import opened Basics
  import opened Options
  import opened ErasureCode
  import opened Stripes
  import opened Placement
  import opened PartWriter
  import opened RangedRead
  import opened NodeSets
  import ObjectRead
  import QuorumMeta

  /** Read a shard file front to back: is every block there and passing its hash? */
  method ShardIntact(l: Layout, file: Option<Bytes>, size: nat) returns (ok: bool)
    requires l.Sized()
    ensures ok <==> file.Some? && Whole(l, file, size)
  {
    if file.None? {
      return false;
    }
    var rd, remaining := file, size;
    ghost var i: nat := 0;
    while remaining > 0
      invariant ReaderAt(l, file, rd, size, i)
      invariant remaining == if l.Start(i) <= size then size - l.Start(i) else 0
      invariant forall j: nat :: j < i && l.Start(j) < size ==> Intact(l, file, size, j)
    {
      var logical := Min(l.StripeLen(), remaining);
      var (shard, rest) := ReadBlock(l, rd, CeilDiv(logical, l.codec.k));
      ReadBlockReads(l, file, rd, size, i);
      if shard.None? {
        return false;
      }
      rd, remaining := rest, remaining - logical;
      i := i + 1;
    }
    AllStripesDone(l, size, i);
    ok := true;
  }

  /** Every stripe still has k good shards in these files. */
  ghost predicate Rebuildable(l: Layout, dist: seq<nat>, files: seq<Option<Bytes>>, size: nat)
    requires l.Sized() && DiskFiles(l, dist, files)
  {
    forall i: nat :: l.Start(i) < size ==> GoodCount(l, dist, files, size, i) >= l.codec.k
  }

  lemma StripeRebuilds(l: Layout, dist: seq<nat>, files: seq<Option<Bytes>>, content: Bytes, i: nat, j: nat)
    requires l.Valid() && AllFaithful(l, dist, files, content) && l.Start(i) < |content| && j < l.codec.n
    requires GoodCount(l, dist, files, |content|, i) >= l.codec.k
    ensures var all := Reconstruct(l.codec, StripeShards(l, dist, files, |content|, i));
            all.Some? && j < |all.value| && all.value[j] == Original(l, content, i, j)
  {
    var got, all := StripeShards(l, dist, files, |content|, i), Encode(l.codec, StripeData(l, content, i));
    OriginalShape(l, content, i);
    forall m | 0 <= m < |got| && got[m].Some? ensures got[m].value == all[m] {
      assert Faithful(l, files[dist[m]], content, m);
    }
    ReconstructStripe(l.codec, StripeData(l, content, i), got);
  }

  /** One stripe's block of the rebuilt file, if the stripe has k good shards. */
  method RebuildBlock(l: Layout, dist: seq<nat>, readers: seq<Option<Bytes>>, size: nat, i: nat, j: nat,
                      ghost files: seq<Option<Bytes>>, ghost content: Bytes)
    returns (block: Option<Bytes>, readers': seq<Option<Bytes>>)
    requires l.Valid() && AllFaithful(l, dist, files, content) && size == |content| && l.Start(i) < size
    requires j < l.codec.n && ReadersAt(l, files, readers, size, i)
    ensures block == if GoodCount(l, dist, files, size, i) >= l.codec.k then Some(Original(l, content, i, j)) else None
    ensures ReadersAt(l, files, readers', size, i + 1)
  {
    var shards;
    shards, readers' := ReadStripe(l, dist, readers, size, i, files);
    var have := Present(shards);
    if have < l.codec.k {
      return None, readers';
    }
    StripeRebuilds(l, dist, files, content, i, j);
    block := Some(Reconstruct(l.codec, shards).value[j]);
  }

  /** The rebuild stands before stripe i: all stripes before had k good shards. */
  ghost predicate Rebuilding(l: Layout, dist: seq<nat>, files: seq<Option<Bytes>>, readers: seq<Option<Bytes>>, content: Bytes,
                             j: nat, i: nat, file: Bytes, remaining: nat)
    requires l.Valid() && j < l.codec.n && DiskFiles(l, dist, files)
  {
    && ReadersAt(l, files, readers, |content|, i)
    && remaining == (if l.Start(i) <= |content| then |content| - l.Start(i) else 0)
    && HoldsStripes(l, file, content, j, i) && GoodUpTo(l, dist, files, |content|, i)
  }

  ghost predicate GoodUpTo(l: Layout, dist: seq<nat>, files: seq<Option<Bytes>>, size: nat, i: nat)
    requires l.Sized() && DiskFiles(l, dist, files)
  {
    forall x: nat :: x < i && l.Start(x) < size ==> GoodCount(l, dist, files, size, x) >= l.codec.k
  }

  lemma GoodUpToNext(l: Layout, dist: seq<nat>, files: seq<Option<Bytes>>, size: nat, i: nat)
    requires l.Sized() && DiskFiles(l, dist, files) && GoodUpTo(l, dist, files, size, i)
    requires GoodCount(l, dist, files, size, i) >= l.codec.k
    ensures GoodUpTo(l, dist, files, size, i + 1)
  {
  }

  lemma RemainingNext(l: Layout, size: nat, i: nat)
    requires l.Sized() && l.Start(i) < size
    ensures size - l.Start(i) - Min(l.StripeLen(), size - l.Start(i)) ==
              if l.Start(i + 1) <= size then size - l.Start(i + 1) else 0
  {
  }

  lemma RebuildStarts(l: Layout, dist: seq<nat>, files: seq<Option<Bytes>>, readers: seq<Option<Bytes>>, content: Bytes, j: nat)
    requires l.Valid() && j < l.codec.n && DiskFiles(l, dist, files) && ReadersAt(l, files, readers, |content|, 0)
    ensures Rebuilding(l, dist, files, readers, content, j, 0, [], |content|)
  {
  }

  lemma RebuildStep(l: Layout, dist: seq<nat>, files: seq<Option<Bytes>>, readers: seq<Option<Bytes>>,
                    readers': seq<Option<Bytes>>, content: Bytes, j: nat, i: nat, file: Bytes, remaining: nat)
    requires l.Valid() && j < l.codec.n && DiskFiles(l, dist, files) && l.Start(i) < |content|
    requires Rebuilding(l, dist, files, readers, content, j, i, file, remaining)
    requires ReadersAt(l, files, readers', |content|, i + 1) && GoodCount(l, dist, files, |content|, i) >= l.codec.k
    ensures var block := Original(l, content, i, j);
            Rebuilding(l, dist, files, readers', content, j, i + 1, file + l.hash(block) + block,
                       remaining - Min(l.StripeLen(), remaining))
  {
    AppendStripe(l, file, content, j, i, Original(l, content, i, j));
    GoodUpToNext(l, dist, files, |content|, i);
    RemainingNext(l, |content|, i);
  }

  method RebuildNext(l: Layout, dist: seq<nat>, readers: seq<Option<Bytes>>, size: nat, i: nat, j: nat, file: Bytes,
                     remaining: nat, ghost files: seq<Option<Bytes>>, ghost content: Bytes)
    returns (ok: bool, readers': seq<Option<Bytes>>, file': Bytes, remaining': nat)
    requires l.Valid() && AllFaithful(l, dist, files, content) && size == |content| && j < l.codec.n
    requires Rebuilding(l, dist, files, readers, content, j, i, file, remaining) && remaining > 0
    ensures ok ==> Rebuilding(l, dist, files, readers', content, j, i + 1, file', remaining') && remaining' < remaining
    ensures !ok ==> !Rebuildable(l, dist, files, size)
  {
    var block;
    block, readers' := RebuildBlock(l, dist, readers, size, i, j, files, content);
    ok, file', remaining' := true, file, remaining;
    if block.None? {
      return false, readers', file, remaining;
    }
    RebuildStep(l, dist, files, readers, readers', content, j, i, file, remaining);
    file' := file + l.hash(block.value) + block.value;
    remaining' := remaining - Min(l.StripeLen(), remaining);
  }

  /** Past the last stripe, no stripe is left out. */
  lemma AllStripesDone(l: Layout, size: nat, i: nat)
    requires l.Sized() && l.Start(i) >= size
    ensures forall x: nat :: l.Start(x) < size ==> x < i
  {
    forall x: nat | l.Start(x) < size ensures x < i {
      if x >= i {
        TimesMonotone(l.StripeLen(), i, x);
      }
    }
  }

  lemma RebuildEnds(l: Layout, dist: seq<nat>, files: seq<Option<Bytes>>, readers: seq<Option<Bytes>>, content: Bytes,
                    j: nat, i: nat, file: Bytes)
    requires l.Valid() && j < l.codec.n && DiskFiles(l, dist, files)
    requires Rebuilding(l, dist, files, readers, content, j, i, file, 0)
    ensures Rebuildable(l, dist, files, |content|) && Serves(l, Some(file), content, j)
  {
    AllStripesDone(l, |content|, i);
    HoldsAllServes(l, file, content, j, i);
  }

  /** Rebuild the file of shard j from these files, the ones of the other disks. It fails on the first
      stripe that has fewer than k good shards there. */
  method RebuildShard(l: Layout, dist: seq<nat>, files: seq<Option<Bytes>>, size: nat, j: nat, ghost content: Bytes)
    returns (file: Option<Bytes>)
    requires l.Valid() && AllFaithful(l, dist, files, content) && size == |content| && j < l.codec.n
    ensures file.Some? <==> Rebuildable(l, dist, files, size)
    ensures file.Some? ==> Serves(l, file, content, j)
  {
    var readers := OpenShards(l, files, size, 0);
    RebuildStarts(l, dist, files, readers, content, j);
    var remaining, i, out: Bytes := size, 0, [];
    while remaining > 0
      invariant Rebuilding(l, dist, files, readers, content, j, i, out, remaining)
    {
      var ok;
      ok, readers, out, remaining := RebuildNext(l, dist, readers, size, i, j, out, remaining, files, content);
      if !ok {
        return None;
      }
      i := i + 1;
    }
    RebuildEnds(l, dist, files, readers, content, j, i, out);
    file := Some(out);
  }

  // ----- one part

  /** The disks whose shard file is whole. */
  ghost function WholeDisks(l: Layout, files: seq<Option<Bytes>>, size: nat): set<nat>
    requires l.Sized()
  {
    set d | d in Nodes(|files|) && files[d].Some? && Whole(l, files[d], size)
  }

  /** The shards that lie on given disks: as many as there are disks. */
  lemma {:induction false} ShardsOf(dist: seq<nat>, n: nat, disks: set<nat>) returns (js: set<nat>)
    requires ValidDist(dist, n) && disks <= Nodes(n)
    ensures |js| == |disks|
    ensures forall j :: j in js ==> j < n && dist[j] in disks
  {
    js := {};
    if disks != {} {
      var d :| d in disks;
      var rest := ShardsOf(dist, n, disks - {d});
      assert d in dist;
      var j: nat :| j < n && dist[j] == d;
      js := rest + {j};
    }
  }

  lemma WholeDisksSuffice(l: Layout, dist: seq<nat>, files: seq<Option<Bytes>>, size: nat, whole: set<nat>)
    requires l.Sized() && DiskFiles(l, dist, files) && whole <= Nodes(l.codec.n) && |whole| >= l.codec.k
    requires forall d :: d in whole ==> files[d].Some? && Whole(l, files[d], size)
    ensures Rebuildable(l, dist, files, size)
  {
    var js := ShardsOf(dist, l.codec.n, whole);
    forall i: nat | l.Start(i) < size ensures GoodCount(l, dist, files, size, i) >= l.codec.k {
      PresentAtLeast(StripeShards(l, dist, files, size, i), js);
    }
  }

  method FindBad(l: Layout, files: seq<Option<Bytes>>, size: nat) returns (bad: seq<nat>)
    requires l.Sized()
    ensures forall d: nat :: d in bad <==> d < |files| && d !in WholeDisks(l, files, size)
    ensures |bad| + |WholeDisks(l, files, size)| == |files|
  {
    bad := [];
    ghost var good: set<nat> := {};
    for d := 0 to |files|
      invariant forall x: nat :: x in bad <==> x < d && x !in WholeDisks(l, files, size)
      invariant forall x: nat :: x in good <==> x < d && x in WholeDisks(l, files, size)
      invariant |bad| + |good| == d
    {
      var ok := ShardIntact(l, files[d], size);
      if !ok {
        bad := bad + [d];
      } else {
        good := good + {d};
      }
    }
    assert good == WholeDisks(l, files, size);
  }

  /** Every disk serves its shard of the part. */
  ghost predicate AllServe(l: Layout, dist: seq<nat>, files: seq<Option<Bytes>>, content: Bytes)
    requires l.Valid()
  {
    DiskFiles(l, dist, files) && forall j :: 0 <= j < l.codec.n ==> Serves(l, files[dist[j]], content, j)
  }

  lemma ReplaceFile(l: Layout, dist: seq<nat>, files: seq<Option<Bytes>>, content: Bytes, j: nat, file: Option<Bytes>)
    requires l.Valid() && AllFaithful(l, dist, files, content) && j < l.codec.n && Faithful(l, file, content, j)
    ensures AllFaithful(l, dist, files[dist[j] := file], content)
  {
    forall m | 0 <= m < l.codec.n ensures Faithful(l, files[dist[j] := file][dist[m]], content, m) {
      assert Faithful(l, files[dist[m]], content, m);
    }
  }

  /** Rebuild one bad disk's file out of the others'. */
  method HealDisk(l: Layout, dist: seq<nat>, files: seq<Option<Bytes>>, size: nat, di: nat, ghost content: Bytes,
                  ghost whole: set<nat>)
    returns (files': seq<Option<Bytes>>)
    requires l.Valid() && AllFaithful(l, dist, files, content) && size == |content| && di < l.codec.n
    requires whole <= WholeDisks(l, files, size) - {di} && |whole| >= l.codec.k
    ensures AllFaithful(l, dist, files', content) && di in WholeDisks(l, files', size)
    ensures forall d :: 0 <= d < |files| && d != di ==> files'[d] == files[d]
  {
    var j := ShardForDisk(dist, di);
    var others := files[di := None];
    ReplaceFile(l, dist, files, content, j, None);
    WholeDisksSuffice(l, dist, others, size, whole);
    var file := RebuildShard(l, dist, others, size, j, content);
    ReplaceFile(l, dist, files, content, j, file);
    files' := files[di := file];
  }

  /** The files that were whole are as they were. */
  ghost predicate WholeKept(l: Layout, before: seq<Option<Bytes>>, after: seq<Option<Bytes>>, size: nat)
    requires l.Sized()
  {
    |after| == |before| && forall d :: d in WholeDisks(l, before, size) ==> after[d] == before[d]
  }

  /** Rebuild every bad disk's file; the whole ones stay as they are. */
  method RebuildAll(l: Layout, dist: seq<nat>, files: seq<Option<Bytes>>, size: nat, bad: seq<nat>, ghost content: Bytes)
    returns (files': seq<Option<Bytes>>)
    requires l.Valid() && AllFaithful(l, dist, files, content) && size == |content|
    requires forall d: nat :: d in bad <==> d < |files| && d !in WholeDisks(l, files, size)
    requires |WholeDisks(l, files, size)| >= l.codec.k
    ensures AllServe(l, dist, files', content)
    ensures WholeKept(l, files, files', size)
  {
    ghost var whole := WholeDisks(l, files, size);
    files' := files;
    for b := 0 to |bad|
      invariant AllFaithful(l, dist, files', content)
      invariant forall d :: d in whole ==> files'[d] == files[d]
      invariant forall x :: 0 <= x < b ==> bad[x] in WholeDisks(l, files', size)
      invariant whole <= WholeDisks(l, files', size)
    {
      assert bad[b] in bad;
      files' := HealDisk(l, dist, files', size, bad[b], content, whole);
    }
    forall j | 0 <= j < l.codec.n ensures Serves(l, files'[dist[j]], content, j) {
      assert dist[j] in bad || dist[j] in whole;
    }
  }

  /** A healed part is whole on every disk, so a second pass finds nothing to do. */
  lemma HealedIsWhole(l: Layout, dist: seq<nat>, files: seq<Option<Bytes>>, content: Bytes)
    requires l.Valid() && AllServe(l, dist, files, content)
    ensures WholeDisks(l, files, |content|) == Nodes(l.codec.n)
    ensures AllFaithful(l, dist, files, content)
    ensures forall i: nat :: l.Start(i) < |content| ==> GoodCount(l, dist, files, |content|, i) == l.codec.n
  {
    forall d: nat | d < l.codec.n ensures d in WholeDisks(l, files, |content|) {
      assert d in dist;
      var j: nat :| j < l.codec.n && dist[j] == d;
      assert Serves(l, files[dist[j]], content, j);
    }
    NodeCount(l.codec.n);
    forall i: nat | l.Start(i) < |content| ensures GoodCount(l, dist, files, |content|, i) == l.codec.n {
      var js := ShardsOf(dist, l.codec.n, Nodes(l.codec.n));
      PresentAtLeast(StripeShards(l, dist, files, |content|, i), js);
    }
  }

  // ----- metadata copies

  lemma {:induction false} UniformCount(view: QuorumMeta.Copies, m: QuorumMeta.Meta, q: nat)
    requires forall i :: 0 <= i < |view| ==> view[i] == if i < q then Some(m) else None
    requires q <= |view|
    ensures QuorumMeta.Count(view, m.identity) == q
    ensures forall id :: id != m.identity ==> QuorumMeta.Count(view, id) == 0
    ensures q > 0 ==> QuorumMeta.Sample(view, m.identity) == Some(m)
  {
    if view != [] {
      UniformCount(view[..|view| - 1], m, if q == |view| then q - 1 else q);
    }
  }

  /** When every disk holds the same copy, that copy is all a read can return. */
  lemma UniformRead(disks: QuorumMeta.Copies, m: QuorumMeta.Meta, r: QuorumMeta.ReadResult)
    requires |disks| >= 2 && forall i :: 0 <= i < |disks| ==> disks[i] == Some(m)
    requires QuorumMeta.CanRead(disks, Nodes(|disks|), r)
    ensures r == QuorumMeta.Found(m)
  {
    var q := QuorumMeta.ReadQuorum(|disks|);
    var v := QuorumMeta.View(disks, Nodes(|disks|), q);
    UniformCount(v, m, q);
    assert QuorumMeta.Wins(v, m);
    QuorumMeta.WinnerDecides(v, m, q);
    QuorumMeta.WinnersTie(v, r.meta, m);
  }

  /** Two reads of the same disks agree on the revision, whatever order their tallies were taken in. */
  lemma SameRevision(disks: QuorumMeta.Copies, answers: set<nat>, m: QuorumMeta.Meta, m': QuorumMeta.Meta)
    requires QuorumMeta.CanRead(disks, answers, QuorumMeta.Found(m)) && QuorumMeta.CanRead(disks, answers, QuorumMeta.Found(m'))
    ensures m.revision == m'.revision
  {
    var q := QuorumMeta.ReadQuorum(|disks|);
    var v1, v2 := QuorumMeta.View(disks, answers, q), QuorumMeta.View(disks, answers, |disks|);
    QuorumMeta.WinnersTie(if QuorumMeta.Decisive(v1, q) then v1 else v2, m, m');
  }

  /** Overwrite every copy that differs. */
  method HealMeta(disks: array<Option<QuorumMeta.Meta>>, m: QuorumMeta.Meta) returns (fixed: nat)
    modifies disks
    ensures forall i :: 0 <= i < disks.Length ==> disks[i] == Some(m)
    ensures fixed == 0 <==> forall i :: 0 <= i < disks.Length ==> old(disks[i]) == Some(m)
  {
    fixed := 0;
    for i := 0 to disks.Length
      invariant forall k :: 0 <= k < i ==> disks[k] == Some(m)
      invariant forall k :: i <= k < disks.Length ==> disks[k] == old(disks[k])
      invariant fixed == 0 <==> forall k :: 0 <= k < i ==> old(disks[k]) == Some(m)
    {
      if disks[i] != Some(m) {
        disks[i] := Some(m);
        fixed := fixed + 1;
      }
    }
  }

  // ----- the whole object

  datatype HealResult = Healed | Unreadable | ChangedUnderUs | TooFewShards

  ghost predicate PartsMatch(m: QuorumMeta.Meta, contents: seq<Bytes>) {
    && |m.identity.parts| == |contents|
    && forall p :: 0 <= p < |contents| ==> m.identity.parts[p].size == |contents[p]|
  }

  /** A part can be healed: k of its shard files are whole. */
  ghost predicate Healable(l: Layout, files: seq<Option<Bytes>>, content: Bytes)
    requires l.Sized()
  {
    |WholeDisks(l, files, |content|)| >= l.codec.k
  }

  /** A written part can be healed, and then every disk serves it again, after the loss of any n - k disks. */
  lemma LostDisksHealable(l: Layout, dist: seq<nat>, files: seq<Option<Bytes>>, content: Bytes, lost: set<nat>)
    requires l.Valid() && ValidDist(dist, l.codec.n) && StoredAs(l, dist, files, content, lost)
    requires lost <= Nodes(l.codec.n) && |lost| + l.codec.k <= l.codec.n
    ensures Healable(l, files, content)
  {
    var kept := Nodes(l.codec.n) - lost;
    NodeCount(l.codec.n);
    assert |kept| == l.codec.n - |lost|;
    forall d | d in kept ensures d in WholeDisks(l, files, |content|) {
      assert d in dist;
      var j :| 0 <= j < l.codec.n && dist[j] == d;
      assert Serves(l, files[dist[j]], content, j);
    }
    SubsetSize(kept, WholeDisks(l, files, |content|));
  }

  /** One object as it lies on a set: a metadata copy per disk, and per part a shard file per disk.
      Every disk answers and no writer runs. */
  class StoredObject {
    const l: Layout
    const dist: seq<nat>
    const metas: array<Option<QuorumMeta.Meta>>
    var files: seq<seq<Option<Bytes>>>

    constructor (l: Layout, dist: seq<nat>, metas: array<Option<QuorumMeta.Meta>>, files: seq<seq<Option<Bytes>>>)
      ensures this.l == l && this.dist == dist && this.metas == metas && this.files == files
    {
      this.l, this.dist, this.metas, this.files := l, dist, metas, files;
    }

    ghost predicate Uniform(m: QuorumMeta.Meta)
      reads metas
    {
      forall i :: 0 <= i < metas.Length ==> metas[i] == Some(m)
    }

    ghost predicate CanDecide(m: QuorumMeta.Meta)
      reads metas
    {
      QuorumMeta.CanRead(metas[..], Nodes(metas.Length), QuorumMeta.Found(m))
    }

    /** Any version a read can return describes these contents, and damage has left no wrong block
        that passes its hash. */
    ghost predicate Valid(contents: seq<Bytes>)
      reads this, metas
    {
      && l.Valid() && metas.Length >= 2
      && ObjectRead.FilesFaithful(l, dist, files, contents)
      && forall m :: CanDecide(m) ==> PartsMatch(m, contents)
    }

    /** Has the object moved away from the revision of m, which an earlier read returned? Without a
        writer it has not. */
    method Changed(m: QuorumMeta.Meta) returns (changed: bool)
      requires metas.Length >= 2 && (CanDecide(m) || Uniform(m))
      ensures !changed
    {
      var cur := QuorumMeta.ReadMeta(metas[..], Nodes(metas.Length));
      changed := cur.Found? && cur.meta.revision != m.revision;
      if cur.Found? {
        if Uniform(m) {
          UniformRead(metas[..], m, cur);
        } else {
          SameRevision(metas[..], Nodes(metas.Length), m, cur.meta);
        }
      }
    }

    /** One part: leave it if it is whole, give up if fewer than k files are, rebuild otherwise. */
    method HealPart(m: QuorumMeta.Meta, p: nat, ghost contents: seq<Bytes>) returns (r: HealResult, fixed: nat)
      requires l.Valid() && metas.Length >= 2 && Uniform(m)
      requires ObjectRead.FilesFaithful(l, dist, files, contents) && PartsMatch(m, contents) && p < |contents|
      modifies this`files
      ensures r == if old(Healable(l, files[p], contents[p])) then Healed else TooFewShards
      ensures ObjectRead.FilesFaithful(l, dist, files, contents)
      ensures forall q :: 0 <= q < |contents| && q != p ==> files[q] == old(files[q])
      ensures WholeKept(l, old(files[p]), files[p], |contents[p]|)
      ensures r.Healed? ==> AllServe(l, dist, files[p], contents[p])
      ensures fixed == if r.Healed? then l.codec.n - |WholeDisks(l, old(files[p]), |contents[p]|)| else 0
      ensures fixed == 0 ==> files == old(files)
    {
      r, fixed := Healed, 0;
      var size := m.identity.parts[p].size;
      assert AllFaithful(l, dist, files[p], contents[p]);
      var bad := FindBad(l, files[p], size);
      if bad == [] {
        WholeServes(l, dist, files[p], contents[p]);
        return;
      }
      if l.codec.n < |bad| + l.codec.k {
        r := TooFewShards;
        return;
      }
      var changed := Changed(m);
      if changed {
        r := ChangedUnderUs;
        return;
      }
      var healed := RebuildAll(l, dist, files[p], size, bad, contents[p]);
      HealedIsWhole(l, dist, healed, contents[p]);
      files := files[p := healed];
      forall q | 0 <= q < |contents| ensures AllFaithful(l, dist, files[q], contents[q]) {
        assert q != p ==> AllFaithful(l, dist, old(files)[q], contents[q]);
      }
      fixed := |bad|;
    }

    /** Heal the object. It never takes itself for a writer. It fails when the metadata cannot be
        read or some part has fewer than k whole shard files, and exactly then; afterwards every disk
        holds the same metadata, and on success serves its shard of every stripe. No shard file that was
        whole is rewritten, and no metadata copy when all were the same. */
    method HealObject(ghost contents: seq<Bytes>)
      returns (r: HealResult, m: Option<QuorumMeta.Meta>, metaFixed: nat, shardFixed: nat)
      requires Valid(contents)
      modifies this`files, metas
      ensures m.None? <==> r.Unreadable?
      ensures m.None? ==> exists x: QuorumMeta.ReadResult :: !x.Found? && old(QuorumMeta.CanRead(metas[..], Nodes(metas.Length), x))
      ensures m.None? ==> metas[..] == old(metas[..]) && files == old(files) && metaFixed == shardFixed == 0
      ensures m.Some? ==> old(CanDecide(m.value)) && Uniform(m.value) && PartsMatch(m.value, contents)
      ensures m.Some? ==> (metaFixed == 0 <==> old(Uniform(m.value)))
      ensures ObjectRead.FilesFaithful(l, dist, files, contents)
      ensures m.Some? && m.value.identity.inlined != [] ==> r.Healed? && files == old(files) && shardFixed == 0
      ensures m.Some? && m.value.identity.inlined == [] ==>
                r == if forall p :: 0 <= p < |contents| ==> old(Healable(l, files[p], contents[p])) then Healed else TooFewShards
      ensures r.Healed? && m.value.identity.inlined == [] ==>
                forall p :: 0 <= p < |contents| ==> AllServe(l, dist, files[p], contents[p])
      ensures |files| == |contents| && forall p :: 0 <= p < |contents| ==> WholeKept(l, old(files)[p], files[p], |contents[p]|)
      ensures shardFixed == 0 ==> files == old(files)
      ensures (forall p :: 0 <= p < |contents| ==> old(AllServe(l, dist, files[p], contents[p]))) ==> shardFixed == 0
    {
      metaFixed, shardFixed, m, r := 0, 0, None, Unreadable;
      var first := QuorumMeta.ReadMeta(metas[..], Nodes(metas.Length));
      if !first.Found? {
        return;
      }
      var meta := first.meta;
      m := Some(meta);
      var changed := Changed(meta);
      if changed {
        r := ChangedUnderUs;
        return;
      }
      metaFixed := HealMeta(metas, meta);
      r := Healed;
      if meta.identity.inlined != [] {
        return;
      }
      r, shardFixed := HealParts(meta, contents);
    }

    /** The loop over the parts, up to the first that cannot be healed. */
    method HealParts(meta: QuorumMeta.Meta, ghost contents: seq<Bytes>) returns (r: HealResult, shardFixed: nat)
      requires l.Valid() && metas.Length >= 2 && Uniform(meta)
      requires ObjectRead.FilesFaithful(l, dist, files, contents) && PartsMatch(meta, contents)
      modifies this`files
      ensures ObjectRead.FilesFaithful(l, dist, files, contents)
      ensures r == if forall p :: 0 <= p < |contents| ==> old(Healable(l, files[p], contents[p])) then Healed else TooFewShards
      ensures r.Healed? ==> forall p :: 0 <= p < |contents| ==> AllServe(l, dist, files[p], contents[p])
      ensures |files| == |contents| && forall p :: 0 <= p < |contents| ==> WholeKept(l, old(files)[p], files[p], |contents[p]|)
      ensures shardFixed == 0 ==> files == old(files)
      ensures (forall p :: 0 <= p < |contents| ==> old(AllServe(l, dist, files[p], contents[p]))) ==> shardFixed == 0
    {
      shardFixed, r := 0, Healed;
      var p := 0;
      while p < |meta.identity.parts| && r.Healed?
        invariant 0 <= p <= |contents| == |files|
        invariant ObjectRead.FilesFaithful(l, dist, files, contents) && Uniform(meta)
        invariant forall q :: p <= q < |contents| ==> files[q] == old(files[q])
        invariant forall q :: 0 <= q < |contents| ==> WholeKept(l, old(files)[q], files[q], |contents[q]|)
        invariant r.Healed? || r.TooFewShards?
        invariant r.Healed? ==> forall q :: 0 <= q < p ==> old(Healable(l, files[q], contents[q])) && AllServe(l, dist, files[q], contents[q])
        invariant r.TooFewShards? ==> exists q :: 0 <= q < p && !old(Healable(l, files[q], contents[q]))
        invariant shardFixed == 0 ==> files == old(files)
        invariant (forall q :: 0 <= q < |contents| ==> old(AllServe(l, dist, files[q], contents[q]))) ==> shardFixed == 0
        decreases |meta.identity.parts| - p
      {
        if old(AllServe(l, dist, files[p], contents[p])) {
          HealedIsWhole(l, dist, old(files)[p], contents[p]);
          NodeCount(l.codec.n);
        }
        var fixed;
        r, fixed := HealPart(meta, p, contents);
        shardFixed := shardFixed + fixed;
        p := p + 1;
      }
    }

    /** What a successful heal leaves behind. */
    ghost predicate InOrder(m: QuorumMeta.Meta, contents: seq<Bytes>)
      reads this, metas
    {
      && l.Valid() && metas.Length >= 2 && Uniform(m) && PartsMatch(m, contents)
      && ObjectRead.FilesFaithful(l, dist, files, contents)
      && (m.identity.inlined == [] ==> forall p :: 0 <= p < |contents| ==> AllServe(l, dist, files[p], contents[p]))
    }

    lemma InOrderIsValid(m: QuorumMeta.Meta, contents: seq<Bytes>)
      requires InOrder(m, contents)
      ensures Valid(contents)
      ensures forall x :: QuorumMeta.CanRead(metas[..], Nodes(metas.Length), x) ==> x == QuorumMeta.Found(m)
      ensures m.identity.inlined == [] ==> forall p :: 0 <= p < |contents| ==> Healable(l, files[p], contents[p])
    {
      UniformDecides(m);
      if m.identity.inlined == [] {
        forall p | 0 <= p < |contents| ensures Healable(l, files[p], contents[p]) {
          HealedIsWhole(l, dist, files[p], contents[p]);
          NodeCount(l.codec.n);
        }
      }
    }

    /** Healing an object that is in order succeeds and rewrites nothing. */
    method HealAgain(ghost m: QuorumMeta.Meta, ghost contents: seq<Bytes>)
      returns (r: HealResult, metaFixed: nat, shardFixed: nat)
      requires InOrder(m, contents)
      modifies this`files, metas
      ensures r.Healed? && metaFixed == 0 && shardFixed == 0
    {
      InOrderIsValid(m, contents);
      var m2;
      r, m2, metaFixed, shardFixed := HealObject(contents);
    }

    /** A second pass rewrites nothing. */
    method HealTwice(ghost contents: seq<Bytes>) returns (r1: HealResult, r2: HealResult, metaFixed: nat, shardFixed: nat)
      requires Valid(contents)
      modifies this`files, metas
      ensures r1.Healed? ==> r2.Healed? && metaFixed == 0 && shardFixed == 0
    {
      var m, a, b;
      r1, m, a, b := HealObject(contents);
      r2, metaFixed, shardFixed := r1, 0, 0;
      if r1.Healed? {
        assert InOrder(m.value, contents);
        r2, metaFixed, shardFixed := HealAgain(m.value, contents);
      }
    }

    lemma UniformDecides(m: QuorumMeta.Meta)
      requires Uniform(m) && metas.Length >= 2
      ensures CanDecide(m)
      ensures forall r :: QuorumMeta.CanRead(metas[..], Nodes(metas.Length), r) ==> r == QuorumMeta.Found(m)
    {
      var n := metas.Length;
      var q := QuorumMeta.ReadQuorum(n);
      var v := QuorumMeta.View(metas[..], Nodes(n), q);
      UniformCount(v, m, q);
      assert QuorumMeta.Wins(v, m);
      QuorumMeta.WinnerDecides(v, m, q);
      forall r | QuorumMeta.CanRead(metas[..], Nodes(n), r) ensures r == QuorumMeta.Found(m) {
        UniformRead(metas[..], m, r);
      }
    }
  }

  /** A healed object reads back over any range. */
  lemma {:induction false} HealedReadable(l: Layout, dist: seq<nat>, files: seq<seq<Option<Bytes>>>, parts: seq<PartMeta>,
                                          contents: seq<Bytes>, lo: nat, hi: nat, m: nat)
    requires l.Valid() && ObjectRead.PartsFiled(l, dist, files, parts) && |parts| == |contents| && m <= |parts|
    requires forall p :: 0 <= p < |parts| ==> parts[p].size == |contents[p]|
    requires forall p :: 0 <= p < |parts| ==> AllServe(l, dist, files[p], contents[p])
    ensures ObjectRead.ReadableUpTo(l, dist, files, parts, lo, hi, m)
  {
    if m > 0 {
      HealedReadable(l, dist, files, parts, contents, lo, hi, m - 1);
      HealedIsWhole(l, dist, files[m - 1], contents[m - 1]);
    }
  }

  /** An object without bytes has no shard files: nothing is lost and every read of it succeeds, yet
      its only part counts as having no whole file, so healing it reports too few shards. */
  lemma EmptyPartNotHealable(l: Layout, dist: seq<nat>, files: seq<Option<Bytes>>, lo: nat, hi: nat)
    requires l.Valid() && DiskFiles(l, dist, files) && forall d :: 0 <= d < |files| ==> files[d].None?
    ensures AllFaithful(l, dist, files, []) && ObjectRead.PartReadable(l, dist, files, 0, 0, lo, hi)
    ensures !Healable(l, files, [])
  {
    assert WholeDisks(l, files, 0) == {};
  }

  // ----- readable, and still not healable

  /** A file whose stored hash of stripe i was damaged in its first byte. */
  function BadHash(l: Layout, file: Bytes, i: nat): (f: Bytes)
    requires l.Offset(i) < |file|
    ensures |f| == |file|
  {
    file[l.Offset(i) := file[l.Offset(i)] ^ 1]
  }

  /** Blocks lie one after the other. */
  lemma BlocksApart(l: Layout, size: nat, i: nat, x: nat)
    requires l.Sized() && i < x && l.Start(x) <= size
    ensures l.Start(i) <= size && l.Offset(i) + HASH_SIZE + ShardLen(l, size, i) <= l.Offset(x)
  {
    TimesMonotone(l.StripeLen(), i, x);
    TimesMonotone(l.Stride(), i, x);
    FullStripe(l, size, i);
  }

  /** The damage costs stripe i and no other. */
  lemma BadHashCosts(l: Layout, file: Bytes, content: Bytes, j: nat, i: nat)
    requires l.Valid() && j < l.codec.n && Serves(l, Some(file), content, j) && l.Start(i) < |content|
    ensures l.Offset(i) < |file| && Faithful(l, Some(BadHash(l, file, i)), content, j)
    ensures forall x: nat :: l.Start(x) < |content| ==> (Intact(l, Some(BadHash(l, file, i)), |content|, x) <==> x != i)
  {
    assert Intact(l, Some(file), |content|, i);
    var bad := BadHash(l, file, i);
    forall x: nat | l.Start(x) < |content|
      ensures Intact(l, Some(bad), |content|, x) <==> x != i
      ensures x != i ==> BlockAt(l, bad, |content|, x) == BlockAt(l, file, |content|, x)
    {
      assert Intact(l, Some(file), |content|, x);
      BadHashAt(l, file, |content|, i, x);
    }
  }

  lemma BadHashAt(l: Layout, file: Bytes, size: nat, i: nat, x: nat)
    requires l.Valid() && l.Start(i) <= size && l.Start(x) <= size
    requires Intact(l, Some(file), size, i) && Intact(l, Some(file), size, x)
    ensures Intact(l, Some(BadHash(l, file, i)), size, x) <==> x != i
    ensures x != i ==> BlockAt(l, BadHash(l, file, i), size, x) == BlockAt(l, file, size, x)
  {
    var bad, at, off, len := BadHash(l, file, i), l.Offset(i), l.Offset(x), ShardLen(l, size, x);
    if x < i {
      BlocksApart(l, size, x, i);
    } else if i < x {
      BlocksApart(l, size, i, x);
    }
    assert bad[off + HASH_SIZE..off + HASH_SIZE + len] == file[off + HASH_SIZE..off + HASH_SIZE + len];
    if x != i {
      assert bad[off..off + HASH_SIZE] == file[off..off + HASH_SIZE];
    } else {
      assert bad[off..off + HASH_SIZE][0] == file[at] ^ 1 != file[off..off + HASH_SIZE][0];
    }
  }

  /** Four disks, two data shards: the hash of stripe 0 is damaged on two disks and that of stripe 1 on a
      third. */
  function Damaged(l: Layout, dist: seq<nat>, files: seq<Option<Bytes>>): seq<Option<Bytes>>
    requires DiskFiles(l, dist, files) && l.codec.n == 4
    requires forall d :: 0 <= d < 4 ==> files[d].Some?
    requires l.Offset(0) < |files[dist[0]].value| && l.Offset(0) < |files[dist[1]].value| && l.Offset(1) < |files[dist[2]].value|
  {
    files[dist[0] := Some(BadHash(l, files[dist[0]].value, 0))]
         [dist[1] := Some(BadHash(l, files[dist[1]].value, 0))]
         [dist[2] := Some(BadHash(l, files[dist[2]].value, 1))]
  }

  /** Which file is what. */
  lemma DamagedAt(l: Layout, dist: seq<nat>, files: seq<Option<Bytes>>)
    requires DiskFiles(l, dist, files) && l.codec.n == 4
    requires forall d :: 0 <= d < 4 ==> files[d].Some?
    requires l.Offset(0) < |files[dist[0]].value| && l.Offset(0) < |files[dist[1]].value| && l.Offset(1) < |files[dist[2]].value|
    ensures var bad := Damaged(l, dist, files);
            && DiskFiles(l, dist, bad) && bad[dist[0]] == Some(BadHash(l, files[dist[0]].value, 0))
            && bad[dist[1]] == Some(BadHash(l, files[dist[1]].value, 0))
            && bad[dist[2]] == Some(BadHash(l, files[dist[2]].value, 1)) && bad[dist[3]] == files[dist[3]]
  {
  }

  /** Shards 0 and 1 have lost stripe 0, shard 2 has lost stripe 1. */
  ghost predicate Hurt(l: Layout, dist: seq<nat>, bad: seq<Option<Bytes>>, size: nat)
    requires l.Sized() && DiskFiles(l, dist, bad) && l.codec.n == 4
  {
    forall x: nat :: l.Start(x) < size ==>
      && (Intact(l, bad[dist[0]], size, x) <==> x != 0) && (Intact(l, bad[dist[1]], size, x) <==> x != 0)
      && (Intact(l, bad[dist[2]], size, x) <==> x != 1) && Intact(l, bad[dist[3]], size, x)
  }

  lemma FourFaithful(l: Layout, dist: seq<nat>, bad: seq<Option<Bytes>>, content: Bytes)
    requires l.Valid() && DiskFiles(l, dist, bad) && l.codec.n == 4
    requires Faithful(l, bad[dist[0]], content, 0) && Faithful(l, bad[dist[1]], content, 1)
    requires Faithful(l, bad[dist[2]], content, 2) && Faithful(l, bad[dist[3]], content, 3)
    ensures AllFaithful(l, dist, bad, content)
  {
    forall j | 0 <= j < 4 ensures Faithful(l, bad[dist[j]], content, j) {
      assert j == 0 || j == 1 || j == 2 || j == 3;
    }
  }

  lemma DamagedIsHurt(l: Layout, dist: seq<nat>, files: seq<Option<Bytes>>, content: Bytes)
    returns (bad: seq<Option<Bytes>>)
    requires l.Valid() && l.codec.n == 4 && AllServe(l, dist, files, content) && l.Start(1) < |content|
    ensures AllFaithful(l, dist, bad, content) && Hurt(l, dist, bad, |content|)
  {
    TimesMonotone(l.StripeLen(), 0, 1);
    forall d: nat | d < 4 ensures files[d].Some? {
      assert d in dist;
      var j: nat :| j < 4 && dist[j] == d;
      assert Serves(l, files[dist[j]], content, j);
    }
    BadHashCosts(l, files[dist[0]].value, content, 0, 0);
    BadHashCosts(l, files[dist[1]].value, content, 1, 0);
    BadHashCosts(l, files[dist[2]].value, content, 2, 1);
    DamagedAt(l, dist, files);
    bad := Damaged(l, dist, files);
    FourFaithful(l, dist, bad, content);
  }

  /** Every stripe keeps two good shards, so any range of the part reads; but only one file is whole, so
      heal gives up. Such damage there is, to any part of two stripes or more. */
  lemma ReadableNotHealable(l: Layout, dist: seq<nat>, files: seq<Option<Bytes>>, content: Bytes)
    returns (bad: seq<Option<Bytes>>)
    requires l.Valid() && l.codec.k == 2 && l.codec.n == 4 && AllServe(l, dist, files, content) && l.Start(1) < |content|
    ensures AllFaithful(l, dist, bad, content)
    ensures forall lo, hi :: ObjectRead.PartReadable(l, dist, bad, 0, |content|, lo, hi)
    ensures !Healable(l, bad, content)
  {
    TimesMonotone(l.StripeLen(), 0, 1);
    bad := DamagedIsHurt(l, dist, files, content);
    DamagedReads(l, dist, bad, content);
    DamagedIsNotWhole(l, dist, bad, content);
  }

  lemma DamagedReads(l: Layout, dist: seq<nat>, bad: seq<Option<Bytes>>, content: Bytes)
    requires l.Valid() && l.codec.k == 2 && l.codec.n == 4 && DiskFiles(l, dist, bad) && Hurt(l, dist, bad, |content|)
    ensures Rebuildable(l, dist, bad, |content|)
  {
    forall x: nat | l.Start(x) < |content| ensures GoodCount(l, dist, bad, |content|, x) >= 2 {
      if x == 0 {
        GoodAt(l, dist, bad, |content|, x, 2, 3);
      } else {
        GoodAt(l, dist, bad, |content|, x, 0, 1);
      }
    }
  }

  lemma GoodAt(l: Layout, dist: seq<nat>, files: seq<Option<Bytes>>, size: nat, x: nat, a: nat, b: nat)
    requires l.Sized() && DiskFiles(l, dist, files) && l.Start(x) < size && a < b < l.codec.n
    requires Intact(l, files[dist[a]], size, x) && Intact(l, files[dist[b]], size, x)
    ensures GoodCount(l, dist, files, size, x) >= 2
  {
    PresentAtLeast(StripeShards(l, dist, files, size, x), {a, b});
  }

  lemma DamagedIsNotWhole(l: Layout, dist: seq<nat>, bad: seq<Option<Bytes>>, content: Bytes)
    requires l.Valid() && l.codec.k == 2 && l.codec.n == 4 && DiskFiles(l, dist, bad) && Hurt(l, dist, bad, |content|)
    requires l.Start(0) < l.Start(1) < |content|
    ensures !Healable(l, bad, content)
  {
    assert !Intact(l, bad[dist[0]], |content|, 0) && !Intact(l, bad[dist[1]], |content|, 0);
    assert !Intact(l, bad[dist[2]], |content|, 1);
    forall d | d in WholeDisks(l, bad, |content|) ensures d == dist[3] {
      assert d in dist;
    }
    SubsetSize(WholeDisks(l, bad, |content|), {dist[3]});
  }

  lemma WholeServes(l: Layout, dist: seq<nat>, files: seq<Option<Bytes>>, content: Bytes)
    requires l.Valid() && AllFaithful(l, dist, files, content)
    requires forall d :: 0 <= d < |files| ==> d in WholeDisks(l, files, |content|)
    ensures AllServe(l, dist, files, content)
  {
    forall j | 0 <= j < l.codec.n ensures Serves(l, files[dist[j]], content, j) {
      assert dist[j] in WholeDisks(l, files, |content|);
    }
  }
}
