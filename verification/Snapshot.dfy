/** Bucket snapshots and restore to a point in time (internal/api/handlers_snapshot.go), built on the
    version listing of internal/erasure/versioning.go. */
module Snapshot {
  import opened Basics
  import opened Options
  import opened VersionStore

  type Name = string

  /** A bucket: each key's store. A key nobody has written is an empty store. */
  type Bucket = map<Name, Store>

  function At(b: Bucket, n: Name): Store {
    if n in b then b[n] else EMPTY_STORE
  }

  ghost predicate Good(b: Bucket) {
    forall n :: n in b ==> Inv(b[n])
  }

  const PAGE_LIMIT: nat := 1000
  const MAX_ENTRIES: nat := 200_000

  datatype Listed = Listed(name: Name, id: nat, latest: bool, marker: bool)

  datatype SnapEntry = SnapEntry(name: Name, id: nat)

  /** The t newest versions of a key, newest first. */
  function Newest(n: Name, log: seq<Entry>, t: nat): (l: seq<Listed>)
    requires t <= |log|
    ensures |l| == t
  {
    seq(t, j requires 0 <= j < t =>
      Listed(n, log[|log| - 1 - j].id, j == 0, log[|log| - 1 - j].marker))
  }

  /** Every version of every key, key by key in listing order. */
  function Versions(order: seq<Name>, b: Bucket): seq<Listed> {
    if order == [] then []
    else
      var n := order[|order| - 1];
      Versions(order[..|order| - 1], b) + Newest(n, At(b, n).k.log, |At(b, n).k.log|)
  }

  lemma {:induction false} VersionsPrefix(order: seq<Name>, b: Bucket, i: nat)
    requires i <= |order|
    ensures Versions(order[..i], b) <= Versions(order, b)
    decreases |order| - i
  {
    if i == |order| {
      assert order[..i] == order;
    } else {
      VersionsPrefix(order, b, i + 1);
      assert order[..i + 1][..i] == order[..i];
    }
  }

  lemma NewestStep(n: Name, log: seq<Entry>, t: nat)
    requires t < |log|
    ensures Newest(n, log, t + 1) ==
              Newest(n, log, t) + [Listed(n, log[|log| - 1 - t].id, t == 0, log[|log| - 1 - t].marker)]
  {
  }

  /** A sequence cut off when it reaches the page limit. */
  function Cut(all: seq<Listed>): seq<Listed> {
    if |all| >= PAGE_LIMIT then all[..PAGE_LIMIT] else all
  }

  /** Adds one key's versions to the page, newest first, stopping when the page is full. */
  method ListKey(before: seq<Listed>, n: Name, log: seq<Entry>) returns (objs: seq<Listed>, truncated: bool)
    requires |before| < PAGE_LIMIT
    ensures truncated <==> |before| + |log| >= PAGE_LIMIT
    ensures objs == Cut(before + Newest(n, log, |log|))
  {
    objs, truncated := before, false;
    var j := |log|;
    while j > 0
      invariant 0 <= j <= |log| && |objs| < PAGE_LIMIT && !truncated
      invariant objs == before + Newest(n, log, |log| - j)
    {
      NewestStep(n, log, |log| - j);
      j := j - 1;
      objs := objs + [Listed(n, log[j].id, j == |log| - 1, log[j].marker)];
      if |objs| >= PAGE_LIMIT {
        assert Newest(n, log, |log| - j) == Newest(n, log, |log|)[..|log| - j];
        return objs, true;
      }
    }
  }

  /** One page of versions, key by key, cut at the page limit. The listing takes no notice of where an
      earlier page stopped. */
  method ListVersions(order: seq<Name>, b: Bucket) returns (objs: seq<Listed>, truncated: bool)
    ensures truncated <==> |Versions(order, b)| >= PAGE_LIMIT
    ensures objs == Cut(Versions(order, b))
  {
    objs, truncated := [], false;
    for i := 0 to |order|
      invariant objs == Versions(order[..i], b) && |objs| < PAGE_LIMIT && !truncated
    {
      assert order[..i + 1][..i] == order[..i];
      objs, truncated := ListKey(objs, order[i], At(b, order[i]).k.log);
      if truncated {
        VersionsPrefix(order, b, i + 1);
        return;
      }
    }
    assert order[..|order|] == order;
  }

  /** The id of the version a plain read finds. */
  function Latest(k: Key): Option<nat> {
    if k.log == [] || k.log[|k.log| - 1].marker then None else Some(k.log[|k.log| - 1].id)
  }

  /** The snapshot: every live key with its newest version. */
  function LiveEntries(order: seq<Name>, b: Bucket): seq<SnapEntry> {
    if order == [] then []
    else LiveEntries(order[..|order| - 1], b) + LiveEntry(order[|order| - 1], Latest(At(b, order[|order| - 1]).k))
  }

  function LiveEntry(n: Name, latest: Option<nat>): seq<SnapEntry> {
    if latest.Some? then [SnapEntry(n, latest.value)] else []
  }

  /** What a walk over listed versions keeps for the snapshot. */
  function Picked(objs: seq<Listed>): (p: seq<SnapEntry>)
    ensures |p| <= |objs|
  {
    if objs == [] then [] else Picked(objs[..|objs| - 1]) + Pick(objs[|objs| - 1])
  }

  function Pick(o: Listed): (p: seq<SnapEntry>)
    ensures |p| <= 1
  {
    if o.latest && !o.marker then [SnapEntry(o.name, o.id)] else []
  }

  lemma PickedSnoc(objs: seq<Listed>, o: Listed)
    ensures Picked(objs + [o]) == Picked(objs) + Pick(o)
  {
    assert (objs + [o])[..|objs|] == objs;
  }

  lemma AddNothing(p: seq<SnapEntry>)
    ensures p + [] == p
  {
  }

  lemma AppendStep(a: seq<Listed>, n: Name, log: seq<Entry>, t: nat)
    requires 0 < t <= |log|
    ensures a + Newest(n, log, t) == a + Newest(n, log, t - 1) + [Newest(n, log, t)[t - 1]]
    ensures Newest(n, log, t)[t - 1].latest <==> t == 1
    ensures t > 1 ==> Newest(n, log, t)[0] == Newest(n, log, t - 1)[0]
  {
    NewestStep(n, log, t - 1);
  }

  /** The newest version of a key is picked, unless it is a marker; older ones never are. */
  lemma {:induction false} PickedAppend(a: seq<Listed>, n: Name, log: seq<Entry>, t: nat)
    requires t <= |log|
    ensures Picked(a + Newest(n, log, t)) == Picked(a) + if t > 0 then Pick(Newest(n, log, t)[0]) else []
  {
    if t == 0 {
      assert a + Newest(n, log, t) == a;
      AddNothing(Picked(a));
    } else {
      PickedAppend(a, n, log, t - 1);
      AppendStep(a, n, log, t);
      var before, o := a + Newest(n, log, t - 1), Newest(n, log, t)[t - 1];
      PickedSnoc(before, o);
      AddNothing(Picked(before));
      AddNothing(Picked(a));
    }
  }

  lemma {:induction false} PickedVersions(order: seq<Name>, b: Bucket)
    ensures Picked(Versions(order, b)) == LiveEntries(order, b)
  {
    if order != [] {
      var n := order[|order| - 1];
      var log := At(b, n).k.log;
      PickedVersions(order[..|order| - 1], b);
      PickedAppend(Versions(order[..|order| - 1], b), n, log, |log|);
      assert (if |log| > 0 then Pick(Newest(n, log, |log|)[0]) else []) == LiveEntry(n, Latest(At(b, n).k));
    }
  }

  /** What a walk over listed versions remembers as each key's newest; None for a delete marker. */
  function Tops(objs: seq<Listed>): map<Name, Option<nat>> {
    if objs == [] then map[] else Noted(Tops(objs[..|objs| - 1]), objs[|objs| - 1])
  }

  function Noted(cur: map<Name, Option<nat>>, o: Listed): map<Name, Option<nat>> {
    if o.latest then cur[o.name := if o.marker then None else Some(o.id)] else cur
  }

  lemma TopsSnoc(objs: seq<Listed>, o: Listed)
    ensures Tops(objs + [o]) == Noted(Tops(objs), o)
  {
    assert (objs + [o])[..|objs|] == objs;
  }

  lemma {:induction false} TopsAppend(a: seq<Listed>, n: Name, log: seq<Entry>, t: nat)
    requires t <= |log|
    ensures Tops(a + Newest(n, log, t)) == if t > 0 then Noted(Tops(a), Newest(n, log, t)[0]) else Tops(a)
  {
    if t == 0 {
      assert a + Newest(n, log, t) == a;
    } else {
      TopsAppend(a, n, log, t - 1);
      AppendStep(a, n, log, t);
      var o := Newest(n, log, t)[t - 1];
      TopsSnoc(a + Newest(n, log, t - 1), o);
    }
  }

  /** A complete listing tells every key's newest version. */
  lemma {:induction false} TopsAreLatest(order: seq<Name>, b: Bucket, n: Name)
    ensures n in Tops(Versions(order, b)) <==> n in order && At(b, n).k.log != []
    ensures n in Tops(Versions(order, b)) ==> Tops(Versions(order, b))[n] == Latest(At(b, n).k)
  {
    if order != [] {
      var last := order[|order| - 1];
      TopsAreLatest(order[..|order| - 1], b, n);
      TopsAppend(Versions(order[..|order| - 1], b), last, At(b, last).k.log, |At(b, last).k.log|);
      NotedIsLatest(Tops(Versions(order[..|order| - 1], b)), last, At(b, last).k);
      assert order == order[..|order| - 1] + [last];
    }
  }

  lemma NotedIsLatest(cur: map<Name, Option<nat>>, n: Name, k: Key)
    ensures k.log != [] ==> Noted(cur, Newest(n, k.log, |k.log|)[0]) == cur[n := Latest(k)]
  {
  }

  /** How many pages a walk asks for before it gives up waiting for the last one. */
  type Budget = nat

  /** Notes the newest versions of a page. */
  method NoteAll(before: map<Name, Option<nat>>, objs: seq<Listed>) returns (cur: map<Name, Option<nat>>)
    ensures before == map[] ==> cur == Tops(objs)
  {
    cur := before;
    for i := 0 to |objs|
      invariant before == map[] ==> cur == Tops(objs[..i])
    {
      assert objs[..i + 1][..i] == objs[..i];
      if objs[i].latest {
        cur := cur[objs[i].name := if objs[i].marker then None else Some(objs[i].id)];
      }
    }
    assert objs[..|objs|] == objs;
  }

  /** The listing loop of the restore. It follows the truncated flag, and since every page is the
      first page it ends if and only if the bucket holds fewer versions than a page. */
  method CurrentLatest(order: seq<Name>, b: Bucket, pages: Budget) returns (cur: map<Name, Option<nat>>, done: bool)
    ensures done <==> pages > 0 && |Versions(order, b)| < PAGE_LIMIT
    ensures done ==> cur == Tops(Versions(order, b))
  {
    cur, done := map[], false;
    var page := 0;
    while page < pages
      invariant !done && page <= pages && (page > 0 ==> |Versions(order, b)| >= PAGE_LIMIT)
      invariant page == 0 ==> cur == map[]
    {
      var objs, truncated := ListVersions(order, b);
      cur := NoteAll(cur, objs);
      page := page + 1;
      if !truncated {
        return cur, true;
      }
    }
  }

  /** A page's entries, n times over. */
  function Repeated(page: seq<SnapEntry>, n: nat): seq<SnapEntry> {
    if n == 0 then [] else Repeated(page, n - 1) + page
  }

  function UpToCap(entries: seq<SnapEntry>): seq<SnapEntry> {
    if |entries| > MAX_ENTRIES then entries[..MAX_ENTRIES] else entries
  }

  lemma {:induction false} RepeatedPrefix(page: seq<SnapEntry>, m: nat, n: nat)
    requires m <= n
    ensures Repeated(page, m) <= Repeated(page, n)
    decreases n
  {
    if m < n {
      RepeatedPrefix(page, m, n - 1);
    }
  }

  /** A page that picks anything reaches the cap. */
  lemma {:induction false} RepeatedIsLong(page: seq<SnapEntry>, n: nat)
    requires page != []
    ensures |Repeated(page, n)| >= n
  {
    if n > 0 {
      RepeatedIsLong(page, n - 1);
    }
  }

  /** Taking a snapshot. A bucket with fewer versions than a page is recorded in full. In a larger one every
      page is the first page, and the walk only ends by filling the manifest to its cap with it. */
  method CreateSnapshot(order: seq<Name>, b: Bucket, pages: Budget)
    returns (entries: seq<SnapEntry>, capped: bool, done: bool)
    ensures |Versions(order, b)| < PAGE_LIMIT && pages > 0 ==>
              done && !capped && entries == LiveEntries(order, b)
    ensures |Versions(order, b)| >= PAGE_LIMIT ==>
              var all := Repeated(Picked(Cut(Versions(order, b))), pages);
              entries == UpToCap(all) && (done <==> capped) && (capped <==> |all| > MAX_ENTRIES)
  {
    entries, capped, done := [], false, false;
    ghost var all := Versions(order, b);
    PickedVersions(order, b);
    var page := 0;
    while page < pages
      invariant page <= pages && !capped && !done && |entries| <= MAX_ENTRIES
      invariant entries == Repeated(Picked(Cut(all)), page)
      invariant page > 0 ==> |all| >= PAGE_LIMIT
    {
      var objs, truncated := ListVersions(order, b);
      entries, capped := AddPage(entries, objs);
      page := page + 1;
      if capped || !truncated {
        RepeatedPrefix(Picked(Cut(all)), page, pages);
        return entries, capped, true;
      }
    }
  }

  /** From 1000 versions on the snapshot ends if and only if its first page shows a live key, given enough
      pages; and then it is not the bucket's live keys: it names some key twice. */
  lemma LargeBucketSnapshot(order: seq<Name>, b: Bucket, pages: Budget)
    requires forall i, j :: 0 <= i < j < |order| ==> order[i] != order[j]
    requires |Versions(order, b)| >= PAGE_LIMIT && pages > MAX_ENTRIES
    ensures var page := Picked(Cut(Versions(order, b)));
            && (|Repeated(page, pages)| > MAX_ENTRIES <==> page != [])
            && (page != [] ==> UpToCap(Repeated(page, pages)) != LiveEntries(order, b))
  {
    var page := Picked(Cut(Versions(order, b)));
    if page == [] {
      RepeatedNothing(pages);
    } else {
      RepeatedIsLong(page, pages);
      RepeatedTwice(page, pages);
      var all := Repeated(page, pages);
      assert UpToCap(all)[0] == page[0] == UpToCap(all)[|page|];
      EntriesAreLive(order, b);
    }
  }

  lemma {:induction false} RepeatedTwice(page: seq<SnapEntry>, n: nat)
    requires n >= 2
    ensures page + page <= Repeated(page, n)
  {
    if n > 2 {
      RepeatedTwice(page, n - 1);
    } else {
      var before := Repeated(page, n - 2);
      assert before == [] && before + page == page;
      assert Repeated(page, n - 1) == page && Repeated(page, n) == page + page;
    }
  }

  lemma {:induction false} RepeatedNothing(n: nat)
    ensures Repeated([], n) == []
  {
    if n > 0 {
      RepeatedNothing(n - 1);
    }
  }

  /** The entries a page adds, until the manifest is full. */
  method AddPage(before: seq<SnapEntry>, objs: seq<Listed>) returns (entries: seq<SnapEntry>, capped: bool)
    requires |before| <= MAX_ENTRIES
    ensures capped <==> |before| + |Picked(objs)| > MAX_ENTRIES
    ensures entries == (before + Picked(objs))[..if capped then MAX_ENTRIES else |before| + |Picked(objs)|]
  {
    entries, capped := before, false;
    for i := 0 to |objs|
      invariant !capped && entries == before + Picked(objs[..i]) && |entries| <= MAX_ENTRIES
    {
      assert objs[..i + 1][..i] == objs[..i];
      PickedGrows(objs, i + 1);
      if objs[i].latest && !objs[i].marker {
        if |entries| >= MAX_ENTRIES {
          return entries, true;
        }
        entries := entries + [SnapEntry(objs[i].name, objs[i].id)];
      }
    }
    assert objs[..|objs|] == objs;
  }

  lemma {:induction false} PickedGrows(objs: seq<Listed>, i: nat)
    requires i <= |objs|
    ensures Picked(objs[..i]) <= Picked(objs)
    decreases |objs| - i
  {
    if i == |objs| {
      assert objs[..i] == objs;
    } else {
      PickedGrows(objs, i + 1);
      assert objs[..i + 1][..i] == objs[..i];
    }
  }

  // ----- restore

  /** The key already shows the recorded version. */
  predicate UpToDate(cur: map<Name, Option<nat>>, e: SnapEntry) {
    e.name in cur && cur[e.name] == Some(e.id)
  }

  /** A copy of an old version on top: a put of its bytes with no lock. */
  function CopyOver(s: Store, id: nat, now: nat): Store
    requires Get(s.k, id).Some?
  {
    Next(s, Put(Get(s.k, id).value.data, Unlocked, 0, false), now)
  }

  /** The bucket after the entries have been rolled back, up to the first whose version is gone. */
  function RollBack(b: Bucket, cur: map<Name, Option<nat>>, entries: seq<SnapEntry>, now: nat): (Bucket, bool) {
    if entries == [] then (b, true)
    else
      var (mid, ok) := RollBack(b, cur, entries[..|entries| - 1], now);
      var e := entries[|entries| - 1];
      if !ok then (mid, false)
      else if UpToDate(cur, e) then (mid, true)
      else if Get(At(mid, e.name).k, e.id).None? then (mid, false)
      else (mid[e.name := CopyOver(At(mid, e.name), e.id, now)], true)
  }

  function Names(entries: seq<SnapEntry>): set<Name> {
    set e | e in entries :: e.name
  }

  /** Keys live now that the snapshot does not know. */
  function Extra(cur: map<Name, Option<nat>>, entries: seq<SnapEntry>): set<Name> {
    set n | n in cur && cur[n].Some? && n !in Names(entries)
  }

  /** The bucket with a delete marker on each of these keys. */
  function Marked(b: Bucket, dead: set<Name>, now: nat): Bucket {
    map n | n in b.Keys + dead :: if n in dead then Next(At(b, n), Delete, now) else At(b, n)
  }

  /** One more delete marker. */
  lemma MarkOne(b: Bucket, dead: set<Name>, n: Name, now: nat)
    requires n !in dead
    ensures Marked(b, dead, now)[n := Next(At(Marked(b, dead, now), n), Delete, now)] == Marked(b, dead + {n}, now)
  {
  }

  /** How many of the entries already show their recorded version. */
  function Unchanged(cur: map<Name, Option<nat>>, entries: seq<SnapEntry>): (c: nat)
    ensures c <= |entries|
  {
    if entries == [] then 0
    else Unchanged(cur, entries[..|entries| - 1]) + if UpToDate(cur, entries[|entries| - 1]) then 1 else 0
  }

  datatype Report = Report(restored: nat, removed: nat, same: nat)

  /** A rollback that got through all entries got through every shorter list. */
  lemma {:induction false} RollBackPrefix(b: Bucket, cur: map<Name, Option<nat>>, entries: seq<SnapEntry>, i: nat, now: nat)
    requires i <= |entries| && !RollBack(b, cur, entries[..i], now).1
    ensures RollBack(b, cur, entries, now) == RollBack(b, cur, entries[..i], now)
    decreases |entries| - i
  {
    if i == |entries| {
      assert entries[..i] == entries;
    } else {
      assert entries[..i + 1][..i] == entries[..i];
      RollBackPrefix(b, cur, entries, i + 1, now);
    }
  }

  class BucketAdmin {
    var stores: Bucket

    constructor ()
      ensures stores == map[]
    {
      stores := map[];
    }

    /** Rolls every snapshot entry back to its recorded version, in manifest order. */
    method RollEntries(cur: map<Name, Option<nat>>, entries: seq<SnapEntry>, dryRun: bool, now: nat)
      returns (restored: nat, same: nat, ok: bool)
      modifies this
      ensures dryRun ==> ok && stores == old(stores)
      ensures !dryRun ==> (stores, ok) == RollBack(old(stores), cur, entries, now)
      ensures ok ==> same == Unchanged(cur, entries) && restored + same == |entries|
    {
      restored, same, ok := 0, 0, true;
      for i := 0 to |entries|
        invariant dryRun ==> stores == old(stores)
        invariant !dryRun ==> (stores, true) == RollBack(old(stores), cur, entries[..i], now)
        invariant ok && same == Unchanged(cur, entries[..i]) && restored + same == i
      {
        var e := entries[i];
        assert entries[..i + 1][..i] == entries[..i];
        if UpToDate(cur, e) {
          same := same + 1;
        } else {
          restored := restored + 1;
          if !dryRun {
            if Get(At(stores, e.name).k, e.id).None? {
              RollBackPrefix(old(stores), cur, entries, i + 1, now);
              return restored, same, false;
            }
            stores := stores[e.name := CopyOver(At(stores, e.name), e.id, now)];
          }
        }
      }
      assert entries[..|entries|] == entries;
    }

    /** Puts a delete marker on every key that is live now and not in the snapshot, in any order. */
    method RemoveExtra(cur: map<Name, Option<nat>>, entries: seq<SnapEntry>, dryRun: bool, now: nat)
      returns (removed: nat)
      modifies this
      ensures removed == |Extra(cur, entries)|
      ensures stores == if dryRun then old(stores) else Marked(old(stores), Extra(cur, entries), now)
    {
      removed := 0;
      var todo, want := cur.Keys, Names(entries);
      ghost var dead: set<Name> := {};
      ghost var extra := Extra(cur, entries);
      while todo != {}
        invariant forall n :: n in todo ==> n in cur
        invariant forall n :: n in dead <==> n in extra && n !in todo
        invariant removed == |dead|
        invariant stores == if dryRun then old(stores) else Marked(old(stores), dead, now)
        decreases todo
      {
        var n :| n in todo;
        todo := todo - {n};
        if cur[n].Some? && n !in want {
          MarkOne(old(stores), dead, n, now);
          dead := dead + {n};
          removed := removed + 1;
          if !dryRun {
            stores := stores[n := Next(At(stores, n), Delete, now)];
          }
        }
      }
      assert dead == extra;
    }

    /** The whole restore. It fails on the first entry whose recorded version is gone; a dry run only
        counts; the listing has to end (see CurrentLatest). */
    method Restore(order: seq<Name>, entries: seq<SnapEntry>, dryRun: bool, pages: Budget, now: nat)
      returns (r: Report, ok: bool)
      modifies this
      ensures dryRun ==> stores == old(stores)
      ensures pages == 0 || |Versions(order, old(stores))| >= PAGE_LIMIT ==> !ok && stores == old(stores)
      ensures pages > 0 && |Versions(order, old(stores))| < PAGE_LIMIT ==>
                var cur := Tops(Versions(order, old(stores)));
                var rolled := RollBack(old(stores), cur, entries, now);
                && (ok <==> dryRun || rolled.1)
                && (ok ==> r == Report(|entries| - Unchanged(cur, entries), |Extra(cur, entries)|, Unchanged(cur, entries)))
                && (!dryRun ==> stores == if ok then Marked(rolled.0, Extra(cur, entries), now) else rolled.0)
    {
      r, ok := Report(0, 0, 0), false;
      var cur, done := CurrentLatest(order, stores, pages);
      if !done {
        return;
      }
      var restored, same, rolled := RollEntries(cur, entries, dryRun, now);
      if !rolled {
        return;
      }
      var removed := RemoveExtra(cur, entries, dryRun, now);
      r, ok := Report(restored, removed, same), true;
    }
  }

  // ----- time travel

  datatype BucketOp = BucketOp(name: Name, op: Timed)

  function RunBucket(b: Bucket, ops: seq<BucketOp>): Bucket {
    if ops == [] then b
    else
      var before, last := RunBucket(b, ops[..|ops| - 1]), ops[|ops| - 1];
      before[last.name := Next(At(before, last.name), last.op.op, last.op.now)]
  }

  /** What readers see: the live keys and their bytes. */
  function Visible(b: Bucket): map<Name, Bytes> {
    map n | n in b && b[n].k.live.Some? :: b[n].k.live.value.data
  }

  /** Keys stay well formed, no key is forgotten, and what was written under an id stays. */
  ghost predicate Later(b: Bucket, b': Bucket) {
    && Good(b') && b.Keys <= b'.Keys
    && forall n, id :: n in b && id in b[n].written ==> id in b'[n].written && b'[n].written[id] == b[n].written[id]
  }

  lemma StepIsLater(b: Bucket, n: Name, op: Op, now: nat)
    requires Good(b)
    ensures Later(b, b[n := Next(At(b, n), op, now)])
  {
    StepKeepsInv(At(b, n), op, now);
    forall id | id in At(b, n).written
      ensures id in Next(At(b, n), op, now).written && Next(At(b, n), op, now).written[id] == At(b, n).written[id]
    {
      WrittenStays(At(b, n), op, now, id);
    }
  }

  lemma LaterStill(a: Bucket, b: Bucket, c: Bucket)
    requires Later(a, b) && Later(b, c)
    ensures Later(a, c)
  {
  }

  lemma {:induction false} RunIsLater(b: Bucket, ops: seq<BucketOp>)
    requires Good(b)
    ensures Later(b, RunBucket(b, ops))
  {
    if ops != [] {
      var before, last := RunBucket(b, ops[..|ops| - 1]), ops[|ops| - 1];
      RunIsLater(b, ops[..|ops| - 1]);
      StepIsLater(before, last.name, last.op.op, last.op.now);
      LaterStill(b, before, RunBucket(b, ops));
    }
  }

  /** The listing covers the bucket, each key once. */
  ghost predicate Lists(order: seq<Name>, b: Bucket) {
    (forall n :: n in b <==> n in order) && forall i, j :: 0 <= i < j < |order| ==> order[i] != order[j]
  }

  /** The snapshot names each live key once, with its newest version. */
  lemma {:induction false} EntriesAreLive(order: seq<Name>, b: Bucket)
    requires forall i, j :: 0 <= i < j < |order| ==> order[i] != order[j]
    ensures forall e :: e in LiveEntries(order, b) <==> e.name in order && Latest(At(b, e.name).k) == Some(e.id)
    ensures Distinct(LiveEntries(order, b))
  {
    if order != [] {
      EntriesAreLive(order[..|order| - 1], b);
      assert order == order[..|order| - 1] + [order[|order| - 1]];
    }
  }

  predicate Distinct(entries: seq<SnapEntry>) {
    forall i, j :: 0 <= i < j < |entries| ==> entries[i].name != entries[j].name
  }

  /** What the rollback does to one key. */
  function RolledKey(s: Store, cur: map<Name, Option<nat>>, e: SnapEntry, now: nat): Store
    requires Get(s.k, e.id).Some?
  {
    if UpToDate(cur, e) then s else CopyOver(s, e.id, now)
  }

  predicate RecordedThere(b: Bucket, entries: seq<SnapEntry>) {
    forall e :: e in entries ==> e.name in b && Get(b[e.name].k, e.id).Some?
  }

  /** m is b with each recorded key rolled back and every other key as it was. */
  ghost predicate RolledBack(b: Bucket, m: Bucket, cur: map<Name, Option<nat>>, entries: seq<SnapEntry>, now: nat)
    requires RecordedThere(b, entries)
  {
    && m.Keys == b.Keys
    && (forall e :: e in entries ==> m[e.name] == RolledKey(b[e.name], cur, e, now))
    && (forall n :: n in b && n !in Names(entries) ==> m[n] == b[n])
  }

  lemma NamesSnoc(before: seq<SnapEntry>, last: SnapEntry)
    ensures forall n :: n in Names(before + [last]) <==> n in Names(before) || n == last.name
  {
    forall n ensures n in Names(before + [last]) <==> n in Names(before) || n == last.name {
      if n in Names(before) {
        var e :| e in before && e.name == n;
        assert e in before + [last];
      }
      assert last in before + [last];
    }
  }

  lemma RolledBackSnoc(b: Bucket, m: Bucket, cur: map<Name, Option<nat>>, before: seq<SnapEntry>, last: SnapEntry, now: nat)
    requires RecordedThere(b, before + [last]) && RecordedThere(b, before) && RolledBack(b, m, cur, before, now)
    requires last.name !in Names(before)
    ensures last.name in m && m[last.name] == b[last.name]
    ensures RolledBack(b, m[last.name := RolledKey(b[last.name], cur, last, now)], cur, before + [last], now)
  {
    assert last in before + [last];
    NamesSnoc(before, last);
  }

  lemma DistinctSnoc(before: seq<SnapEntry>, last: SnapEntry)
    requires Distinct(before + [last])
    ensures Distinct(before) && last.name !in Names(before)
  {
    var all := before + [last];
    forall i, j | 0 <= i < j < |before| ensures before[i].name != before[j].name {
      assert all[i].name != all[j].name;
    }
    forall i | 0 <= i < |before| ensures before[i].name != last.name {
      assert all[i].name != all[|before|].name;
    }
  }

  /** With distinct keys and every recorded version there, the rollback touches each recorded key
      once and no other. */
  lemma {:induction false} RollBackByKey(b: Bucket, cur: map<Name, Option<nat>>, entries: seq<SnapEntry>, now: nat)
    requires Distinct(entries) && RecordedThere(b, entries)
    ensures RollBack(b, cur, entries, now).1
    ensures RolledBack(b, RollBack(b, cur, entries, now).0, cur, entries, now)
  {
    if entries != [] {
      var before, last := entries[..|entries| - 1], entries[|entries| - 1];
      assert entries == before + [last];
      DistinctSnoc(before, last);
      RollBackByKey(b, cur, before, now);
      var m := RollBack(b, cur, before, now).0;
      RolledBackSnoc(b, m, cur, before, last, now);
      assert m[last.name := m[last.name]] == m;
    }
  }

  /** A recorded version that is still there holds the bytes the key showed when it was recorded. */
  lemma RecordedBytes(b: Bucket, b': Bucket, order: seq<Name>, e: SnapEntry)
    requires Good(b) && Later(b, b') && Lists(order, b) && e in LiveEntries(order, b)
    requires FindId(At(b', e.name).k.log, e.id) >= 0
    ensures e.name in b && b[e.name].k.live.Some?
    ensures e.name in b' && Get(b'[e.name].k, e.id) == Some(Object(e.id, b[e.name].k.live.value.data))
  {
    EntriesAreLive(order, b);
    LiveIsNewest(b[e.name]);
    var s := b'[e.name];
    ReadsBack(s, e.id);
    assert Backed(s, FindId(s.k.log, e.id));
  }

  /** The entries still have their recorded versions in the bucket. */
  ghost predicate Kept(b: Bucket, entries: seq<SnapEntry>) {
    forall e :: e in entries ==> FindId(At(b, e.name).k.log, e.id) >= 0
  }

  /** The bucket a complete, successful restore leaves. */
  function AfterRestore(b: Bucket, order: seq<Name>, entries: seq<SnapEntry>, now: nat): Bucket {
    var cur := Tops(Versions(order, b));
    Marked(RollBack(b, cur, entries, now).0, Extra(cur, entries), now)
  }

  /** A recorded key after a restore whose recorded versions are all there. */
  lemma AfterRestoreEntry(b: Bucket, order: seq<Name>, entries: seq<SnapEntry>, now: nat, e: SnapEntry)
    requires Lists(order, b) && Distinct(entries) && RecordedThere(b, entries) && e in entries
    ensures e.name in AfterRestore(b, order, entries, now)
    ensures AfterRestore(b, order, entries, now)[e.name] ==
              if Latest(b[e.name].k) == Some(e.id) then b[e.name] else CopyOver(b[e.name], e.id, now)
  {
    RollBackByKey(b, Tops(Versions(order, b)), entries, now);
    TopsAreLatest(order, b, e.name);
  }

  /** Any other key. */
  lemma AfterRestoreOther(b: Bucket, order: seq<Name>, entries: seq<SnapEntry>, now: nat, n: Name)
    requires Lists(order, b) && Distinct(entries) && RecordedThere(b, entries) && n in b && n !in Names(entries)
    ensures n in AfterRestore(b, order, entries, now)
    ensures AfterRestore(b, order, entries, now)[n] ==
              if Latest(b[n].k).Some? then Next(b[n], Delete, now) else b[n]
  {
    RollBackByKey(b, Tops(Versions(order, b)), entries, now);
    TopsAreLatest(order, b, n);
  }

  /** A key that was live when the snapshot was taken shows the same bytes again. */
  lemma RestoredLive(b0: Bucket, b1: Bucket, order0: seq<Name>, order1: seq<Name>, now: nat, n: Name)
    requires Good(b0) && Later(b0, b1) && Lists(order0, b0) && Lists(order1, b1)
    requires RecordedThere(b1, LiveEntries(order0, b0)) && n in b0 && b0[n].k.live.Some?
    ensures n in b1 && n in AfterRestore(b1, order1, LiveEntries(order0, b0), now)
    ensures var s := AfterRestore(b1, order1, LiveEntries(order0, b0), now)[n];
            s.k.live.Some? && s.k.live.value.data == b0[n].k.live.value.data && Extends(b1[n], s)
  {
    LiveIsNewest(b0[n]);
    EntriesAreLive(order0, b0);
    var e := SnapEntry(n, Latest(b0[n].k).value);
    assert e in LiveEntries(order0, b0);
    RecordedBytes(b0, b1, order0, e);
    AfterRestoreEntry(b1, order1, LiveEntries(order0, b0), now, e);
    ShowsAgain(b1[n], e.id, now);
  }

  /** A version that is there, as the newest or copied over, is what a key shows. */
  lemma ShowsAgain(s: Store, id: nat, now: nat)
    requires Inv(s) && Get(s.k, id).Some?
    ensures var s' := if Latest(s.k) == Some(id) then s else CopyOver(s, id, now);
            s'.k.live.Some? && s'.k.live.value.data == Get(s.k, id).value.data && Extends(s, s')
  {
    LiveIsNewest(s);
  }

  /** A key that was not live then is not live after the restore. */
  lemma RestoredDead(b0: Bucket, b1: Bucket, order0: seq<Name>, order1: seq<Name>, now: nat, n: Name)
    requires Good(b0) && Later(b0, b1) && Lists(order0, b0) && Lists(order1, b1)
    requires RecordedThere(b1, LiveEntries(order0, b0)) && n in b1 && At(b0, n).k.live.None?
    ensures n in AfterRestore(b1, order1, LiveEntries(order0, b0), now)
    ensures var s := AfterRestore(b1, order1, LiveEntries(order0, b0), now)[n];
            s.k.live.None? && Extends(b1[n], s)
  {
    LiveIsNewest(At(b0, n));
    EntriesAreLive(order0, b0);
    assert n !in Names(LiveEntries(order0, b0));
    AfterRestoreOther(b1, order1, LiveEntries(order0, b0), now, n);
    LiveIsNewest(b1[n]);
  }

  /** The log is what it was, or that with one entry on top, without a lock. */
  predicate Extends(s: Store, s': Store) {
    && s.k.log <= s'.k.log && |s'.k.log| <= |s.k.log| + 1
    && (|s'.k.log| > |s.k.log| ==> s'.k.log[|s.k.log|].mode == Unlocked && !s'.k.log[|s.k.log|].hold)
  }

  lemma KeptIsThere(b0: Bucket, b1: Bucket, order0: seq<Name>)
    requires Good(b0) && Later(b0, b1) && Lists(order0, b0) && Kept(b1, LiveEntries(order0, b0))
    ensures RecordedThere(b1, LiveEntries(order0, b0))
  {
    forall e | e in LiveEntries(order0, b0) ensures e.name in b1 && Get(b1[e.name].k, e.id).Some? {
      RecordedBytes(b0, b1, order0, e);
    }
  }

  /** The rollback gets through and the bucket keeps its keys. */
  lemma RestoreKeys(b: Bucket, order: seq<Name>, entries: seq<SnapEntry>, now: nat)
    requires Lists(order, b) && Distinct(entries) && RecordedThere(b, entries)
    ensures RollBack(b, Tops(Versions(order, b)), entries, now).1
    ensures AfterRestore(b, order, entries, now).Keys == b.Keys
  {
    RollBackByKey(b, Tops(Versions(order, b)), entries, now);
    forall n | n in Extra(Tops(Versions(order, b)), entries) ensures n in b {
      TopsAreLatest(order, b, n);
    }
  }

  /** An entry whose version is gone stops the rollback. */
  lemma {:induction false} LostStopsRollBack(b: Bucket, cur: map<Name, Option<nat>>, entries: seq<SnapEntry>, e: SnapEntry, now: nat)
    requires Distinct(entries) && e in entries && !UpToDate(cur, e) && Get(At(b, e.name).k, e.id).None?
    ensures !RollBack(b, cur, entries, now).1
  {
    var before := entries[..|entries| - 1];
    assert entries == before + [entries[|entries| - 1]];
    if e in before {
      LostStopsRollBack(b, cur, before, e, now);
    } else {
      RollBackElsewhere(b, cur, before, e.name, now);
    }
  }

  lemma {:induction false} RollBackElsewhere(b: Bucket, cur: map<Name, Option<nat>>, entries: seq<SnapEntry>, n: Name, now: nat)
    requires forall e :: e in entries ==> e.name != n
    ensures At(RollBack(b, cur, entries, now).0, n) == At(b, n)
  {
    if entries != [] {
      RollBackElsewhere(b, cur, entries[..|entries| - 1], n, now);
    }
  }

  lemma LostFails(b: Bucket, order: seq<Name>, entries: seq<SnapEntry>, e: SnapEntry, now: nat)
    requires Good(b) && Distinct(entries) && e in entries && FindId(At(b, e.name).k.log, e.id) < 0
    ensures !RollBack(b, Tops(Versions(order, b)), entries, now).1
  {
    TopsAreLatest(order, b, e.name);
    ReadsBack(At(b, e.name), e.id);
    LostStopsRollBack(b, Tops(Versions(order, b)), entries, e, now);
  }

  /** A restore gets through if and only if every recorded version is still in its key's log. */
  lemma RestorableIff(b0: Bucket, ops: seq<BucketOp>, order0: seq<Name>, order1: seq<Name>, now: nat, b1: Bucket)
    requires Good(b0) && Lists(order0, b0)
    requires b1 == RunBucket(b0, ops) && Lists(order1, b1)
    ensures RollBack(b1, Tops(Versions(order1, b1)), LiveEntries(order0, b0), now).1 <==> Kept(b1, LiveEntries(order0, b0))
  {
    var entries, cur := LiveEntries(order0, b0), Tops(Versions(order1, b1));
    RunIsLater(b0, ops);
    EntriesAreLive(order0, b0);
    if Kept(b1, entries) {
      KeptIsThere(b0, b1, order0);
      RollBackByKey(b1, cur, entries, now);
    } else {
      var e :| e in entries && FindId(At(b1, e.name).k.log, e.id) < 0;
      LostFails(b1, order1, entries, e, now);
    }
  }

  /** What a restore to b0 owes a key: it shows what it showed then, and keeps its history. */
  predicate KeyRestored(b0: Bucket, s: Store, s': Store, n: Name) {
    && Extends(s, s')
    && (if n in b0 && b0[n].k.live.Some?
        then s'.k.live.Some? && s'.k.live.value.data == b0[n].k.live.value.data
        else s'.k.live.None?)
  }

  lemma KeysRestored(b0: Bucket, b1: Bucket, order0: seq<Name>, order1: seq<Name>, now: nat)
    requires Good(b0) && Later(b0, b1) && Lists(order0, b0) && Lists(order1, b1)
    requires RecordedThere(b1, LiveEntries(order0, b0))
    ensures forall n :: n in b1 ==> n in AfterRestore(b1, order1, LiveEntries(order0, b0), now)
    ensures forall n :: n in b1 ==> KeyRestored(b0, b1[n], AfterRestore(b1, order1, LiveEntries(order0, b0), now)[n], n)
  {
    var b2 := AfterRestore(b1, order1, LiveEntries(order0, b0), now);
    forall n | n in b1 ensures n in b2 && KeyRestored(b0, b1[n], b2[n], n) {
      if At(b0, n).k.live.Some? {
        RestoredLive(b0, b1, order0, order1, now, n);
      } else {
        RestoredDead(b0, b1, order0, order1, now, n);
      }
    }
  }

  lemma SameView(b0: Bucket, b1: Bucket, b2: Bucket)
    requires b0.Keys <= b1.Keys && b2.Keys == b1.Keys
    requires forall n :: n in b1 ==> KeyRestored(b0, b1[n], b2[n], n)
    ensures Visible(b2) == Visible(b0)
  {
    forall n ensures n in Visible(b2) <==> n in Visible(b0) {
      assert n in b1 ==> KeyRestored(b0, b1[n], b2[n], n);
    }
  }

  /** Time travel. Take a snapshot of a well-formed bucket, run any operations on any keys, then
      restore: as long as the recorded versions are still there the restore gets through, every
      reader sees exactly what was visible when the snapshot was taken, and no history is rewritten:
      each key's log is what it was, or that with one entry on top. */
  lemma TimeTravel(b0: Bucket, ops: seq<BucketOp>, order0: seq<Name>, order1: seq<Name>, now: nat, b1: Bucket, b2: Bucket)
    requires Good(b0) && Lists(order0, b0)
    requires b1 == RunBucket(b0, ops) && Lists(order1, b1) && Kept(b1, LiveEntries(order0, b0))
    requires b2 == AfterRestore(b1, order1, LiveEntries(order0, b0), now)
    ensures RollBack(b1, Tops(Versions(order1, b1)), LiveEntries(order0, b0), now).1
    ensures Visible(b2) == Visible(b0) && b2.Keys == b1.Keys
    ensures forall n :: n in b1 ==> Extends(b1[n], b2[n])
  {
    RunIsLater(b0, ops);
    KeptIsThere(b0, b1, order0);
    EntriesAreLive(order0, b0);
    RestoreKeys(b1, order1, LiveEntries(order0, b0), now);
    KeysRestored(b0, b1, order0, order1, now);
    SameView(b0, b1, b2);
  }
}
