/** The LRU cache of small objects (internal/api/objcache.go). The list holds keys, most recently used
    first; the entry of a key is kept once, in the map. */
module ObjectCache {
  import opened Basics
  import opened Options

  type Key = string
  datatype Entry = Entry(data: Bytes, stored: int)

  datatype Limits = Limits(max: int, obj: nat, ttl: nat)

  datatype Cache = Cache(order: seq<Key>, m: map<Key, Entry>, cur: int)

  const EMPTY := Cache([], map[], 0)

  predicate NoDup(order: seq<Key>) {
    forall i, j :: 0 <= i < j < |order| ==> order[i] != order[j]
  }

  /** The list without these keys. */
  function Removed(order: seq<Key>, dead: set<Key>): seq<Key> {
    if order == [] then []
    else Removed(order[..|order| - 1], dead) + Unless(order[|order| - 1], dead)
  }

  function Unless(k: Key, dead: set<Key>): seq<Key> {
    if k in dead then [] else [k]
  }

  function Size(m: map<Key, Entry>, k: Key): nat {
    if k in m then |m[k].data| else 0
  }

  /** Bytes held by the listed entries. */
  function Total(order: seq<Key>, m: map<Key, Entry>): nat {
    if order == [] then 0 else Total(order[..|order| - 1], m) + Size(m, order[|order| - 1])
  }

  ghost predicate SameKeys(order: seq<Key>, m: map<Key, Entry>) {
    forall k :: k in order <==> k in m
  }

  /** List and map hold the same entries, cur is what they hold and within the budget, and no entry is
      above the ceiling. */
  ghost predicate Inv(lim: Limits, c: Cache) {
    && NoDup(c.order) && SameKeys(c.order, c.m)
    && c.cur == Total(c.order, c.m) && (c.cur <= lim.max || c.order == [])
    && forall k :: k in c.m ==> |c.m[k].data| <= lim.obj
  }

  lemma RemovedSnoc(before: seq<Key>, last: Key, dead: set<Key>)
    ensures Removed(before + [last], dead) == Removed(before, dead) + Unless(last, dead)
  {
    assert (before + [last])[..|before|] == before;
  }

  lemma TotalSnoc(before: seq<Key>, last: Key, m: map<Key, Entry>)
    ensures Total(before + [last], m) == Total(before, m) + Size(m, last)
  {
    assert (before + [last])[..|before|] == before;
  }

  lemma {:induction false} TotalSame(order: seq<Key>, a: map<Key, Entry>, b: map<Key, Entry>)
    requires forall i :: 0 <= i < |order| ==> Size(a, order[i]) == Size(b, order[i])
    ensures Total(order, a) == Total(order, b)
  {
    if order != [] {
      TotalSame(order[..|order| - 1], a, b);
    }
  }

  lemma {:induction false} RemovedIs(order: seq<Key>, dead: set<Key>)
    ensures forall k :: k in Removed(order, dead) <==> k in order && k !in dead
  {
    if order != [] {
      RemovedIs(order[..|order| - 1], dead);
      assert order == order[..|order| - 1] + [order[|order| - 1]];
    }
  }

  lemma {:induction false} RemovedNoDup(order: seq<Key>, dead: set<Key>)
    requires NoDup(order)
    ensures NoDup(Removed(order, dead))
  {
    if order != [] {
      var before, last := order[..|order| - 1], order[|order| - 1];
      RemovedNoDup(before, dead);
      RemovedIs(before, dead);
      forall i | 0 <= i < |Removed(before, dead)| ensures Removed(before, dead)[i] != last {
        assert Removed(before, dead)[i] in Removed(before, dead);
      }
    }
  }

  lemma {:induction false} RemovedNothing(order: seq<Key>, dead: set<Key>)
    requires forall i :: 0 <= i < |order| ==> order[i] !in dead
    ensures Removed(order, dead) == order
  {
    if order != [] {
      RemovedNothing(order[..|order| - 1], dead);
      assert order == order[..|order| - 1] + [order[|order| - 1]];
    }
  }

  lemma {:induction false} RemovedMore(order: seq<Key>, dead: set<Key>, k: Key)
    ensures Removed(Removed(order, dead), {k}) == Removed(order, dead + {k})
  {
    if order != [] {
      var before, last := order[..|order| - 1], order[|order| - 1];
      RemovedMore(before, dead, k);
      if last in dead {
        assert Removed(order, dead) == Removed(before, dead);
      } else {
        RemovedSnoc(Removed(before, dead), last, {k});
      }
    }
  }

  /** Taking one key off the list takes its bytes off the total. */
  lemma {:induction false} RemovedTotal(order: seq<Key>, m: map<Key, Entry>, k: Key)
    requires NoDup(order) && k in order
    ensures Total(Removed(order, {k}), m) == Total(order, m) - Size(m, k)
  {
    var before, last := order[..|order| - 1], order[|order| - 1];
    if last == k {
      RemovedNothing(before, {k});
      assert Removed(order, {k}) == before;
    } else {
      assert order == before + [last];
      RemovedTotal(before, m, k);
      TotalSnoc(Removed(before, {k}), last, m);
    }
  }

  lemma {:induction false} RemovedTotalLess(order: seq<Key>, dead: set<Key>, m: map<Key, Entry>)
    ensures Total(Removed(order, dead), m) <= Total(order, m)
  {
    if order != [] {
      var before, last := order[..|order| - 1], order[|order| - 1];
      RemovedTotalLess(before, dead, m);
      if last in dead {
        assert Removed(order, dead) == Removed(before, dead);
      } else {
        TotalSnoc(Removed(before, dead), last, m);
      }
    }
  }

  lemma {:induction false} TotalFront(k: Key, order: seq<Key>, m: map<Key, Entry>)
    ensures Total([k] + order, m) == Size(m, k) + Total(order, m)
  {
    if order == [] {
      assert [k] + order == [] + [k];
      TotalSnoc([], k, m);
    } else {
      var before, last := order[..|order| - 1], order[|order| - 1];
      TotalFront(k, before, m);
      assert [k] + order == [k] + before + [last];
      TotalSnoc([k] + before, last, m);
    }
  }

  // ----- the operations as functions

  predicate Enabled(lim: Limits) {
    lim.max > 0
  }

  /** The cache without these keys. */
  function Without(c: Cache, dead: set<Key>): Cache
  {
    var m := map k | k in c.m && k !in dead :: c.m[k];
    Cache(Removed(c.order, dead), m, Total(Removed(c.order, dead), m))
  }

  predicate Fresh(lim: Limits, e: Entry, now: int) {
    !(now - e.stored > lim.ttl)
  }

  function Front(order: seq<Key>, k: Key): seq<Key> {
    [k] + Removed(order, {k})
  }

  function AfterGet(lim: Limits, c: Cache, k: Key, now: int): (Cache, Option<Entry>)
  {
    if !Enabled(lim) || k !in c.m then (c, None)
    else if !Fresh(lim, c.m[k], now) then (Without(c, {k}), None)
    else (c.(order := Front(c.order, k)), Some(c.m[k]))
  }

  /** The longest front part of the list that is within the budget. */
  function Fitting(order: seq<Key>, m: map<Key, Entry>, max: int): (n: nat)
    ensures n <= |order|
    ensures n == 0 || Total(order[..n], m) <= max
    ensures n < |order| ==> Total(order[..n + 1], m) > max
  {
    if order == [] then 0
    else if Total(order, m) <= max then assert order[..|order|] == order; |order|
    else
      var n := Fitting(order[..|order| - 1], m, max);
      assert order[..|order| - 1][..n] == order[..n];
      assert n < |order| - 1 ==> order[..|order| - 1][..n + 1] == order[..n + 1];
      assert n == |order| - 1 ==> order[..n + 1] == order;
      n
  }

  function Restricted(m: map<Key, Entry>, order: seq<Key>): map<Key, Entry> {
    map k | k in m && k in order :: m[k]
  }

  function AfterPut(lim: Limits, c: Cache, k: Key, data: Bytes, now: int): Cache
  {
    if !Enabled(lim) || |data| > lim.obj then c
    else
      var m := c.m[k := Entry(data, now)];
      var order := Front(c.order, k);
      var kept := order[..Fitting(order, m, lim.max)];
      Cache(kept, Restricted(m, kept), Total(kept, Restricted(m, kept)))
  }

  function CacheKey(bucket: string, key: string, version: string): Key {
    bucket + "\0" + key + "\0" + version
  }

  predicate EvictHits(k: Key, bucket: string, key: string, version: string) {
    k == CacheKey(bucket, key, version) || bucket + "\0" + key + "\0" <= k
  }

  function Evicted(c: Cache, bucket: string, key: string, version: string): set<Key> {
    set k | k in c.m && EvictHits(k, bucket, key, version)
  }

  function EvictedBucket(c: Cache, bucket: string): set<Key> {
    set k | k in c.m && bucket + "\0" <= k
  }

  // ----- the operations as they run

  class ObjCache {
    const lim: Limits
    var order: seq<Key>
    var m: map<Key, Entry>
    var cur: int
    var hits: nat
    var miss: nat

    function Abstract(): Cache
      reads this
    {
      Cache(order, m, cur)
    }

    ghost predicate Valid()
      reads this
    {
      Inv(lim, Abstract())
    }

    /** Everything but the budget, which a put may pass before it evicts. */
    ghost predicate Consistent()
      reads this
    {
      NoDup(order) && SameKeys(order, m) && cur == Total(order, m)
    }

    constructor (lim: Limits)
      ensures Valid() && Abstract() == EMPTY && this.lim == lim && hits == 0 && miss == 0
    {
      this.lim, order, m, cur, hits, miss := lim, [], map[], 0, 0, 0;
    }

    method RemoveLocked(k: Key)
      requires Consistent() && k in m
      modifies `order, `m, `cur
      ensures Consistent() && Abstract() == Without(old(Abstract()), {k})
    {
      WithoutOne(Abstract(), k);
      cur := cur - |m[k].data|;
      m := m - {k};
      order := Removed(order, {k});
    }

    method Get(k: Key, now: int) returns (e: Option<Entry>)
      requires Valid()
      modifies this
      ensures Valid() && (Abstract(), e) == AfterGet(lim, old(Abstract()), k, now)
      ensures hits + miss == old(hits) + old(miss) + (if Enabled(lim) then 1 else 0)
      ensures e.Some? <==> hits > old(hits)
    {
      GetKeepsInv(lim, Abstract(), k, now);
      if !Enabled(lim) {
        return None;
      }
      if k !in m {
        miss := miss + 1;
        return None;
      }
      if now - m[k].stored > lim.ttl {
        RemoveLocked(k);
        miss := miss + 1;
        return None;
      }
      hits := hits + 1;
      e := Some(m[k]);
      order := Front(order, k);
    }

    /** Takes least recently used entries off the back until the rest is within the budget. */
    method Trim()
      requires Consistent()
      modifies `order, `m, `cur
      ensures order == old(order)[..Fitting(old(order), old(m), lim.max)]
      ensures m == Restricted(old(m), order) && cur == Total(order, m)
    {
      ghost var all, was := order, m;
      TrimBegins(lim, Abstract());
      while cur > lim.max
        invariant Trimming(lim, Abstract(), all, was) && Consistent()
        decreases |order|
      {
        if |order| == 0 {
          break;
        }
        RemoveBack(all, was);
      }
      TrimEnds(lim, Abstract(), all, was);
    }

    method RemoveBack(ghost all: seq<Key>, ghost was: map<Key, Entry>)
      requires Consistent() && Trimming(lim, Abstract(), all, was) && cur > lim.max && order != []
      modifies `order, `m, `cur
      ensures Consistent() && Trimming(lim, Abstract(), all, was) && |order| < |old(order)|
    {
      ghost var next := Without(Abstract(), {order[|order| - 1]});
      BackRemoved(lim, Abstract(), all, was);
      assert Trimming(lim, next, all, was) && |next.order| < |order|;
      RemoveLocked(order[|order| - 1]);
      assert Abstract() == next;
    }

    /** Writes the entry of a key and moves or adds the key to the front. */
    method Insert(k: Key, e: Entry)
      requires Consistent()
      modifies `order, `m, `cur
      ensures Consistent() && order == Front(old(order), k) && m == old(m)[k := e]
    {
      FrontTotal(Abstract(), k, e);
      if k in m {
        cur := cur - |m[k].data|;
        m := m[k := e];
        cur := cur + |e.data|;
        order := Front(order, k);
      } else {
        m := m[k := e];
        RemovedNothing(order, {k});
        order := [k] + order;
        cur := cur + |e.data|;
      }
    }

    method Put(k: Key, data: Bytes, now: int)
      requires Valid()
      modifies this
      ensures Valid() && Abstract() == AfterPut(lim, old(Abstract()), k, data, now)
      ensures hits == old(hits) && miss == old(miss)
    {
      PutKeepsInv(lim, Abstract(), k, data, now);
      if !Enabled(lim) || |data| > lim.obj {
        return;
      }
      Insert(k, Entry(data, now));
      Trim();
    }

    /** Removes the entries of a set, in any order. */
    method RemoveAll(dead: set<Key>)
      requires Valid() && forall k :: k in dead ==> k in m
      modifies `order, `m, `cur
      ensures Valid() && Abstract() == Without(old(Abstract()), dead)
    {
      WithoutKeepsInv(lim, Abstract(), dead);
      WithoutNothing(Abstract());
      var todo := dead;
      ghost var gone: set<Key> := {};
      while todo != {}
        invariant forall k :: k in dead <==> k in gone || k in todo
        invariant forall k :: k in todo ==> k !in gone
        invariant Consistent() && Abstract() == Without(old(Abstract()), gone)
        decreases todo
      {
        var k :| k in todo;
        WithoutMore(old(Abstract()), gone, k);
        todo := todo - {k};
        gone := gone + {k};
        RemoveLocked(k);
      }
      assert gone == dead;
    }

    method Evict(bucket: string, key: string, version: string)
      requires Valid()
      modifies this
      ensures Valid() && hits == old(hits) && miss == old(miss)
      ensures Abstract() == if Enabled(lim) then Without(old(Abstract()), Evicted(old(Abstract()), bucket, key, version))
                            else old(Abstract())
    {
      if !Enabled(lim) {
        return;
      }
      var dead := set k | k in m && EvictHits(k, bucket, key, version);
      RemoveAll(dead);
    }

    method EvictBucket(bucket: string)
      requires Valid()
      modifies this
      ensures Valid() && hits == old(hits) && miss == old(miss)
      ensures Abstract() == if Enabled(lim) then Without(old(Abstract()), EvictedBucket(old(Abstract()), bucket))
                            else old(Abstract())
    {
      if !Enabled(lim) {
        return;
      }
      var dead := set k | k in m && bucket + "\0" <= k;
      RemoveAll(dead);
    }
  }

  // ----- what the operations keep

  lemma TrimStart(order: seq<Key>, m: map<Key, Entry>)
    requires SameKeys(order, m)
    ensures Restricted(m, order) == m
  {
  }

  /** Taking off the last key. */
  lemma TrimStep(order: seq<Key>, was: map<Key, Entry>)
    requires NoDup(order) && order != []
    ensures var last, before := order[|order| - 1], order[..|order| - 1];
            && Removed(order, {last}) == before
            && Restricted(was, order) - {last} == Restricted(was, before)
            && Total(before, Restricted(was, before)) == Total(before, was)
  {
    var last, before := order[|order| - 1], order[..|order| - 1];
    assert order == before + [last];
    TrimSnoc(before, last, was);
  }

  lemma TrimSnoc(before: seq<Key>, last: Key, was: map<Key, Entry>)
    requires forall i :: 0 <= i < |before| ==> before[i] != last
    ensures Removed(before + [last], {last}) == before
    ensures Restricted(was, before + [last]) - {last} == Restricted(was, before)
    ensures Total(before, Restricted(was, before)) == Total(before, was)
  {
    RemovedNothing(before, {last});
    RemovedSnoc(before, last, {last});
    assert before + [] == before;
    RestrictedStep(before, last, was);
    RestrictedTotal(before, was);
  }

  /** The list is the front of what it was, and nothing that fits has gone. */
  ghost predicate Trimming(lim: Limits, c: Cache, all: seq<Key>, was: map<Key, Entry>) {
    && NoDup(c.order) && SameKeys(c.order, c.m) && c.cur == Total(c.order, c.m)
    && c.order <= all && c.m == Restricted(was, c.order) && c.cur == Total(c.order, was)
    && Fitting(all, was, lim.max) == Fitting(c.order, was, lim.max)
  }

  lemma TrimBegins(lim: Limits, c: Cache)
    requires NoDup(c.order) && SameKeys(c.order, c.m) && c.cur == Total(c.order, c.m)
    ensures Trimming(lim, c, c.order, c.m)
  {
    TrimStart(c.order, c.m);
  }

  lemma TrimEnds(lim: Limits, c: Cache, all: seq<Key>, was: map<Key, Entry>)
    requires Trimming(lim, c, all, was) && (c.cur <= lim.max || c.order == [])
    ensures c.order == all[..Fitting(all, was, lim.max)] && c.m == Restricted(was, c.order) && c.cur == Total(c.order, c.m)
  {
  }

  lemma BackRemoved(lim: Limits, c: Cache, all: seq<Key>, was: map<Key, Entry>)
    requires Trimming(lim, c, all, was) && c.cur > lim.max && c.order != []
    ensures Trimming(lim, Without(c, {c.order[|c.order| - 1]}), all, was)
    ensures |Without(c, {c.order[|c.order| - 1]}).order| < |c.order| && c.order[|c.order| - 1] in c.m
  {
    TrimStep(c.order, was);
    WithoutOne(c, c.order[|c.order| - 1]);
  }

  lemma RestrictedStep(before: seq<Key>, last: Key, was: map<Key, Entry>)
    requires last !in before
    ensures Restricted(was, before + [last]) - {last} == Restricted(was, before)
  {
  }

  lemma RestrictedTotal(order: seq<Key>, was: map<Key, Entry>)
    ensures Total(order, Restricted(was, order)) == Total(order, was)
  {
    TotalSame(order, Restricted(was, order), was);
  }

  /** Moving a key with new bytes to the front swaps its old bytes for the new. */
  lemma FrontTotal(c: Cache, k: Key, e: Entry)
    requires NoDup(c.order) && SameKeys(c.order, c.m)
    ensures NoDup(Front(c.order, k)) && SameKeys(Front(c.order, k), c.m[k := e])
    ensures Total(Front(c.order, k), c.m[k := e]) == Total(c.order, c.m) - Size(c.m, k) + |e.data|
  {
    FrontKeys(c, k, e);
    TotalFront(k, Removed(c.order, {k}), c.m[k := e]);
    if k in c.m {
      RemovedTotal(c.order, c.m, k);
    } else {
      RemovedNothing(c.order, {k});
    }
  }

  lemma FrontKeys(c: Cache, k: Key, e: Entry)
    requires NoDup(c.order) && SameKeys(c.order, c.m)
    ensures NoDup(Front(c.order, k)) && SameKeys(Front(c.order, k), c.m[k := e])
    ensures Total(Removed(c.order, {k}), c.m[k := e]) == Total(Removed(c.order, {k}), c.m)
  {
    var rest := Removed(c.order, {k});
    RemovedIs(c.order, {k});
    RemovedNoDup(c.order, {k});
    ConsNoDup(k, rest);
    OthersSame(rest, c.m, k, e);
  }

  lemma ConsNoDup(k: Key, rest: seq<Key>)
    requires k !in rest && NoDup(rest)
    ensures NoDup([k] + rest)
  {
  }

  lemma OthersSame(rest: seq<Key>, m: map<Key, Entry>, k: Key, e: Entry)
    requires k !in rest
    ensures Total(rest, m[k := e]) == Total(rest, m)
  {
    TotalSame(rest, m[k := e], m);
  }

  /** Removing one entry, as the code does it. */
  lemma WithoutOne(c: Cache, k: Key)
    requires NoDup(c.order) && SameKeys(c.order, c.m) && k in c.m
    ensures var c' := Without(c, {k});
            && NoDup(c'.order) && SameKeys(c'.order, c'.m)
            && c'.m == c.m - {k} && c'.cur == Total(c.order, c.m) - |c.m[k].data|
  {
    RemovedIs(c.order, {k});
    RemovedNoDup(c.order, {k});
    RemovedTotal(c.order, c.m, k);
    WithoutTotal(c, {k});
  }

  lemma WithoutTotal(c: Cache, dead: set<Key>)
    ensures Without(c, dead).cur == Total(Removed(c.order, dead), c.m)
  {
    RemovedIs(c.order, dead);
    var order, m := Removed(c.order, dead), Without(c, dead).m;
    forall i | 0 <= i < |order| ensures Size(m, order[i]) == Size(c.m, order[i]) {
      assert order[i] in order;
    }
    TotalSame(order, c.m, m);
  }

  lemma WithoutNone(c: Cache)
    ensures Without(c, {}).m == c.m
  {
  }

  lemma WithoutNothing(c: Cache)
    requires SameKeys(c.order, c.m) && c.cur == Total(c.order, c.m)
    ensures Without(c, {}) == c
  {
    RemovedNothing(c.order, {});
    WithoutNone(c);
  }

  lemma WithoutMore(c: Cache, dead: set<Key>, k: Key)
    ensures Without(Without(c, dead), {k}) == Without(c, dead + {k})
  {
    RemovedMore(c.order, dead, k);
    assert Without(Without(c, dead), {k}).m == Without(c, dead + {k}).m;
  }

  lemma WithoutKeepsInv(lim: Limits, c: Cache, dead: set<Key>)
    requires Inv(lim, c)
    ensures Inv(lim, Without(c, dead))
  {
    RemovedIs(c.order, dead);
    RemovedNoDup(c.order, dead);
    RemovedTotalLess(c.order, dead, c.m);
    WithoutTotal(c, dead);
  }

  lemma GetKeepsInv(lim: Limits, c: Cache, k: Key, now: int)
    requires Inv(lim, c)
    ensures Inv(lim, AfterGet(lim, c, k, now).0)
  {
    if Enabled(lim) && k in c.m {
      if Fresh(lim, c.m[k], now) {
        assert c.m[k := c.m[k]] == c.m;
        FrontTotal(c, k, c.m[k]);
      } else {
        WithoutKeepsInv(lim, c, {k});
      }
    }
  }

  /** A get hits if and only if the key is cached and within its time to live. A hit returns the entry and keeps
      everything; a miss drops an entry that is too old, and nothing else. */
  lemma GetIs(lim: Limits, c: Cache, k: Key, now: int)
    requires Inv(lim, c)
    ensures var (c', e) := AfterGet(lim, c, k, now);
            && (e.Some? <==> lim.max > 0 && k in c.m && now - c.m[k].stored <= lim.ttl)
            && (e.Some? ==> e.value == c.m[k] && c'.m == c.m && c'.order[0] == k)
            && (e.None? ==> c'.m == if lim.max > 0 then c.m - {k} else c.m)
  {
    if lim.max > 0 && k !in c.m {
      assert c.m - {k} == c.m;
    } else if lim.max > 0 {
      WithoutOne(c, k);
    }
  }

  lemma PutKeepsInv(lim: Limits, c: Cache, k: Key, data: Bytes, now: int)
    requires Inv(lim, c)
    ensures Inv(lim, AfterPut(lim, c, k, data, now))
  {
    if Enabled(lim) && |data| <= lim.obj {
      var m, order := c.m[k := Entry(data, now)], Front(c.order, k);
      FrontTotal(c, k, Entry(data, now));
      var n := Fitting(order, m, lim.max);
      TotalSame(order[..n], m, AfterPut(lim, c, k, data, now).m);
    }
  }

  // ----- runs

  datatype Op =
    | Get(k: Key)
    | Put(k: Key, data: Bytes)
    | Evict(bucket: string, key: string, version: string)
    | EvictBucket(bucket: string)

  function Next(lim: Limits, c: Cache, op: Op, now: int): Cache {
    match op
    case Get(k) => AfterGet(lim, c, k, now).0
    case Put(k, data) => AfterPut(lim, c, k, data, now)
    case Evict(bucket, key, version) => if Enabled(lim) then Without(c, Evicted(c, bucket, key, version)) else c
    case EvictBucket(bucket) => if Enabled(lim) then Without(c, EvictedBucket(c, bucket)) else c
  }

  /** What the cache stands for: the last entry taken under each key that was not evicted since, and when
      each key was last used. A put above the ceiling is not taken, and does not touch what was. */
  datatype Ref = Ref(taken: map<Key, Entry>, used: map<Key, nat>, tick: nat)

  predicate Takes(lim: Limits, data: Bytes) {
    Enabled(lim) && |data| <= lim.obj
  }

  /** The call evicts this key. */
  predicate Drops(op: Op, k: Key) {
    match op
    case Evict(bucket, key, version) => EvictHits(k, bucket, key, version)
    case EvictBucket(bucket) => bucket + "\0" <= k
    case _ => false
  }

  function NextRef(lim: Limits, c: Cache, r: Ref, op: Op, now: int): Ref {
    match op
    case Get(k) =>
      if AfterGet(lim, c, k, now).1.Some? then Ref(r.taken, r.used[k := r.tick], r.tick + 1) else r
    case Put(k, data) =>
      if Takes(lim, data) then Ref(r.taken[k := Entry(data, now)], r.used[k := r.tick], r.tick + 1) else r
    case _ =>
      if !Enabled(lim) then r else r.(taken := map k | k in r.taken && !Drops(op, k) :: r.taken[k])
  }

  /** The list goes from the most to the least recently used key. */
  predicate ByRecency(order: seq<Key>, used: map<Key, nat>) {
    (forall i :: 0 <= i < |order| ==> order[i] in used) &&
    (forall i, j :: 0 <= i < j < |order| ==> used[order[i]] > used[order[j]])
  }

  ghost predicate Refines(c: Cache, r: Ref) {
    && (forall k :: k in c.m ==> k in r.taken && r.taken[k] == c.m[k])
    && ByRecency(c.order, r.used) && forall k :: k in r.used ==> r.used[k] < r.tick
  }

  lemma {:induction false} RemovedByRecency(order: seq<Key>, dead: set<Key>, used: map<Key, nat>)
    requires ByRecency(order, used)
    ensures ByRecency(Removed(order, dead), used)
  {
    if order != [] {
      var before, last := order[..|order| - 1], order[|order| - 1];
      RemovedIs(before, dead);
      RemovedByRecency(before, dead, used);
      forall k | k in before ensures used[k] > used[last] {
        var i :| 0 <= i < |before| && before[i] == k;
        assert order[i] == k;
      }
    }
  }

  lemma FrontByRecency(order: seq<Key>, k: Key, used: map<Key, nat>, tick: nat)
    requires ByRecency(order, used) && forall x :: x in used ==> used[x] < tick
    ensures ByRecency(Front(order, k), used[k := tick])
  {
    RemovedByRecency(order, {k}, used);
    var rest := Removed(order, {k});
    RemovedIs(order, {k});
    forall i | 0 <= i < |rest| ensures rest[i] != k {
      assert rest[i] in rest;
    }
  }

  lemma DropKeepsRefinement(lim: Limits, c: Cache, r: Ref, dead: set<Key>, taken: map<Key, Entry>)
    requires Inv(lim, c) && Refines(c, r)
    requires forall k :: k in c.m && k !in dead ==> k in taken && taken[k] == r.taken[k]
    ensures Inv(lim, Without(c, dead)) && Refines(Without(c, dead), r.(taken := taken))
  {
    WithoutKeepsInv(lim, c, dead);
    RemovedByRecency(c.order, dead, r.used);
  }

  lemma GetKeepsRefinement(lim: Limits, c: Cache, r: Ref, k: Key, now: int)
    requires Inv(lim, c) && Refines(c, r)
    ensures Inv(lim, AfterGet(lim, c, k, now).0) && Refines(AfterGet(lim, c, k, now).0, NextRef(lim, c, r, Get(k), now))
  {
    GetKeepsInv(lim, c, k, now);
    if Enabled(lim) && k in c.m && Fresh(lim, c.m[k], now) {
      FrontByRecency(c.order, k, r.used, r.tick);
    } else {
      DropKeepsRefinement(lim, c, r, {k}, r.taken);
    }
  }

  lemma PutKeepsRefinement(lim: Limits, c: Cache, r: Ref, k: Key, data: Bytes, now: int)
    requires Inv(lim, c) && Refines(c, r)
    ensures Inv(lim, AfterPut(lim, c, k, data, now))
    ensures Refines(AfterPut(lim, c, k, data, now), NextRef(lim, c, r, Put(k, data), now))
  {
    PutKeepsInv(lim, c, k, data, now);
    FrontByRecency(c.order, k, r.used, r.tick);
  }

  /** After every step list and map agree, the budget holds, the cache holds only the last entries
      it took, and the list is in order of use. */
  lemma StepKeepsRefinement(lim: Limits, c: Cache, r: Ref, op: Op, now: int)
    requires Inv(lim, c) && Refines(c, r)
    ensures Inv(lim, Next(lim, c, op, now)) && Refines(Next(lim, c, op, now), NextRef(lim, c, r, op, now))
  {
    var taken := NextRef(lim, c, r, op, now).taken;
    match op
    case Get(k) => GetKeepsRefinement(lim, c, r, k, now);
    case Put(k, data) => PutKeepsRefinement(lim, c, r, k, data, now);
    case Evict(bucket, key, version) =>
      if Enabled(lim) {
        DropKeepsRefinement(lim, c, r, Evicted(c, bucket, key, version), taken);
      }
    case EvictBucket(bucket) =>
      if Enabled(lim) {
        DropKeepsRefinement(lim, c, r, EvictedBucket(c, bucket), taken);
      }
  }

  datatype Timed = Timed(op: Op, now: int)

  ghost function Run(lim: Limits, ops: seq<Timed>): (s: (Cache, Ref))
    ensures Inv(lim, s.0) && Refines(s.0, s.1)
  {
    if ops == [] then (EMPTY, Ref(map[], map[], 0))
    else
      var (c, r) := Run(lim, ops[..|ops| - 1]);
      var last := ops[|ops| - 1];
      StepKeepsRefinement(lim, c, r, last.op, last.now);
      (Next(lim, c, last.op, last.now), NextRef(lim, c, r, last.op, last.now))
  }

  /** Call i of the run is a put of k. */
  predicate PutAt(ops: seq<Timed>, k: Key, i: int)
    requires i < |ops|
  {
    i >= 0 && ops[i].op.Put? && ops[i].op.k == k
  }

  /** The last put of k that no eviction of k followed, or -1: what a caller has put, whatever the cache
      did with it. */
  function LastPut(ops: seq<Timed>, k: Key): (i: int)
    ensures -1 <= i < |ops| && (i >= 0 ==> PutAt(ops, k, i))
    ensures i >= 0 ==> forall j :: i < j < |ops| ==> !PutAt(ops, k, j) && !Drops(ops[j].op, k)
  {
    if ops == [] then -1
    else
      var op := ops[|ops| - 1].op;
      if op.Put? && op.k == k then |ops| - 1 else if Drops(op, k) then -1 else LastPut(ops[..|ops| - 1], k)
  }

  /** The same, of the puts within the ceiling. */
  function LastTaken(lim: Limits, ops: seq<Timed>, k: Key): (i: int)
    ensures -1 <= i < |ops| && (i >= 0 ==> PutAt(ops, k, i) && Takes(lim, ops[i].op.data))
    ensures i >= 0 ==> forall j :: i < j < |ops| ==> !Drops(ops[j].op, k) && (PutAt(ops, k, j) ==> !Takes(lim, ops[j].op.data))
  {
    if ops == [] then -1
    else
      var op := ops[|ops| - 1].op;
      if op.Put? && op.k == k && Takes(lim, op.data) then |ops| - 1
      else if Drops(op, k) then -1
      else LastTaken(lim, ops[..|ops| - 1], k)
  }

  function PutEntry(ops: seq<Timed>, k: Key, i: int): Entry
    requires i < |ops| && PutAt(ops, k, i)
  {
    Entry(ops[i].op.data, ops[i].now)
  }

  /** The reference holds exactly the last put within the ceiling. */
  lemma {:induction false} TakenIsLastTaken(lim: Limits, ops: seq<Timed>, k: Key)
    requires Enabled(lim)
    ensures k in Run(lim, ops).1.taken <==> LastTaken(lim, ops, k) >= 0
    ensures LastTaken(lim, ops, k) >= 0 ==> Run(lim, ops).1.taken[k] == PutEntry(ops, k, LastTaken(lim, ops, k))
  {
    if ops != [] {
      TakenIsLastTaken(lim, ops[..|ops| - 1], k);
    }
  }

  /** A put of k above the ceiling came after call i. */
  ghost predicate BigPutAfter(lim: Limits, ops: seq<Timed>, k: Key, i: int)
    requires i < |ops|
  {
    exists j :: i < j < |ops| && PutAt(ops, k, j) && |ops[j].op.data| > lim.obj
  }

  /** The last put within the ceiling is the last put of all, unless one above the ceiling came after. */
  lemma {:induction false} LastTakenIsLastPutIff(lim: Limits, ops: seq<Timed>, k: Key)
    requires Enabled(lim) && LastTaken(lim, ops, k) >= 0
    ensures LastTaken(lim, ops, k) <= LastPut(ops, k)
    ensures LastTaken(lim, ops, k) == LastPut(ops, k) <==> !BigPutAfter(lim, ops, k, LastTaken(lim, ops, k))
    ensures LastTaken(lim, ops, k) != LastPut(ops, k) ==> |ops[LastPut(ops, k)].op.data| > lim.obj
  {
    var i := LastTaken(lim, ops, k);
    if i < |ops| - 1 {
      LastTakenIsLastPutIff(lim, ops[..|ops| - 1], k);
    }
    if BigPutAfter(lim, ops, k, i) {
      var j :| i < j < |ops| && PutAt(ops, k, j) && |ops[j].op.data| > lim.obj;
    } else {
      assert !PutAt(ops, k, |ops| - 1) || i == |ops| - 1;
    }
    if LastPut(ops, k) > i {
      assert PutAt(ops, k, LastPut(ops, k));
    }
  }

  /** A hit, after any run: it is within its time to live and is the last put within the ceiling that was
      not evicted since. It is the last put of its key not evicted since if and only if no put of the key
      above the ceiling came after the one it returns. */
  lemma HitIsLastPutIff(lim: Limits, ops: seq<Timed>, k: Key, now: int)
    requires AfterGet(lim, Run(lim, ops).0, k, now).1.Some?
    ensures 0 <= LastTaken(lim, ops, k) <= LastPut(ops, k)
    ensures var hit, i := AfterGet(lim, Run(lim, ops).0, k, now).1.value, LastTaken(lim, ops, k);
            && hit == PutEntry(ops, k, i) && now - hit.stored <= lim.ttl
            && (hit == PutEntry(ops, k, LastPut(ops, k)) <==> !BigPutAfter(lim, ops, k, i))
  {
    var (c, r) := Run(lim, ops);
    assert Refines(c, r);
    TakenIsLastTaken(lim, ops, k);
    LastTakenIsLastPutIff(lim, ops, k);
  }

  /** Bytes of all the puts the cache took. */
  function TakenBytes(lim: Limits, ops: seq<Timed>): nat {
    if ops == [] then 0
    else
      var op := ops[|ops| - 1].op;
      TakenBytes(lim, ops[..|ops| - 1]) + if op.Put? && Takes(lim, op.data) then |op.data| else 0
  }

  /** A put that leaves everything within the budget evicts nothing. */
  lemma PutWithinBudget(lim: Limits, c: Cache, k: Key, data: Bytes, now: int)
    requires Inv(lim, c) && Takes(lim, data) && c.cur + |data| <= lim.max
    ensures var c' := AfterPut(lim, c, k, data, now);
            c'.m == c.m[k := Entry(data, now)] && c'.cur <= c.cur + |data|
  {
    var m, order := c.m[k := Entry(data, now)], Front(c.order, k);
    FrontTotal(c, k, Entry(data, now));
    assert order[..|order|] == order;
    assert Restricted(m, order) == m;
  }

  lemma DropsLess(lim: Limits, c: Cache, dead: set<Key>)
    requires Inv(lim, c)
    ensures Without(c, dead).cur <= c.cur
  {
    WithoutTotal(c, dead);
    RemovedTotalLess(c.order, dead, c.m);
  }

  lemma StepGrows(lim: Limits, c: Cache, op: Op, now: int)
    requires Inv(lim, c) && Enabled(lim) && (op.Put? && Takes(lim, op.data) ==> c.cur + |op.data| <= lim.max)
    ensures Next(lim, c, op, now).cur <= c.cur + if op.Put? && Takes(lim, op.data) then |op.data| else 0
  {
    match op
    case Get(k) => DropsLess(lim, c, {k});
    case Put(k, data) => if Takes(lim, data) { PutWithinBudget(lim, c, k, data, now); }
    case Evict(bucket, key, version) => DropsLess(lim, c, Evicted(c, bucket, key, version));
    case EvictBucket(bucket) => DropsLess(lim, c, EvictedBucket(c, bucket));
  }

  lemma {:induction false} CurWithinTaken(lim: Limits, ops: seq<Timed>)
    requires Enabled(lim) && TakenBytes(lim, ops) <= lim.max
    ensures Run(lim, ops).0.cur <= TakenBytes(lim, ops)
  {
    if ops != [] {
      var before, last := ops[..|ops| - 1], ops[|ops| - 1];
      CurWithinTaken(lim, before);
      StepGrows(lim, Run(lim, before).0, last.op, last.now);
    }
  }

  /** What is cached and still fresh stays, unless it is evicted by name or pushed out by the budget. */
  lemma StepKeepsEntry(lim: Limits, c: Cache, op: Op, at: int, k: Key)
    requires Inv(lim, c) && Enabled(lim) && k in c.m && !Drops(op, k)
    requires op.Put? && Takes(lim, op.data) ==> op.k != k && c.cur + |op.data| <= lim.max
    requires op.Get? ==> at - c.m[k].stored <= lim.ttl
    ensures k in Next(lim, c, op, at).m
  {
    if op.Put? && Takes(lim, op.data) {
      PutWithinBudget(lim, c, op.k, op.data, at);
    }
  }

  lemma {:induction false} KeptWithinBudget(lim: Limits, ops: seq<Timed>, k: Key, now: int)
    requires Enabled(lim) && TakenBytes(lim, ops) <= lim.max
    requires forall i :: 0 <= i < |ops| ==> ops[i].now <= now
    requires LastTaken(lim, ops, k) >= 0 && now - ops[LastTaken(lim, ops, k)].now <= lim.ttl
    ensures k in Run(lim, ops).0.m
  {
    var before, last := ops[..|ops| - 1], ops[|ops| - 1];
    var c := Run(lim, before).0;
    CurWithinTaken(lim, before);
    if LastTaken(lim, ops, k) == |ops| - 1 {
      PutWithinBudget(lim, c, k, last.op.data, last.now);
    } else {
      KeptWithinBudget(lim, before, k, now);
      TakenIsLastTaken(lim, before, k);
      assert Refines(c, Run(lim, before).1);
      StepKeepsEntry(lim, c, last.op, last.now, k);
    }
  }

  /** The cache does cache: as long as all it took is within the budget, a get hits if and only if the key was
      taken, not evicted since, and is within its time to live. */
  lemma HitIffWithinBudget(lim: Limits, ops: seq<Timed>, k: Key, now: int)
    requires Enabled(lim) && TakenBytes(lim, ops) <= lim.max
    requires forall i :: 0 <= i < |ops| ==> ops[i].now <= now
    ensures AfterGet(lim, Run(lim, ops).0, k, now).1.Some? <==>
              LastTaken(lim, ops, k) >= 0 && now - ops[LastTaken(lim, ops, k)].now <= lim.ttl
  {
    var (c, r) := Run(lim, ops);
    TakenIsLastTaken(lim, ops, k);
    assert Refines(c, r);
    if LastTaken(lim, ops, k) >= 0 && now - ops[LastTaken(lim, ops, k)].now <= lim.ttl {
      KeptWithinBudget(lim, ops, k, now);
    }
  }

  /** The stale hit is real: after puts of one byte and then of two under a ceiling of one, a get within the
      time to live returns the first. */
  lemma StaleHit(a: bv8, b: bv8, c: bv8, k: Key)
    ensures var lim, ops := Limits(100, 1, 10), [Timed(Put(k, [a]), 0), Timed(Put(k, [b, c]), 1)];
            && LastPut(ops, k) == 1
            && AfterGet(lim, Run(lim, ops).0, k, 2).1 == Some(Entry([a], 0))
  {
    var lim := Limits(100, 1, 10);
    RunOfTwo(lim, Timed(Put(k, [a]), 0), Timed(Put(k, [b, c]), 1));
    PutThenGetIff(lim, EMPTY, k, [a], 0, 2);
    PutThenGetIff(lim, AfterPut(lim, EMPTY, k, [a], 0), k, [b, c], 1, 2);
  }

  lemma RunOfTwo(lim: Limits, x: Timed, y: Timed)
    ensures Run(lim, [x, y]).0 == Next(lim, Next(lim, EMPTY, x.op, x.now), y.op, y.now)
  {
    RunStep(lim, [], x);
    RunStep(lim, [x], y);
    assert [] + [x] == [x] && [x] + [y] == [x, y];
  }

  lemma RunStep(lim: Limits, ops: seq<Timed>, x: Timed)
    ensures Run(lim, ops + [x]).0 == Next(lim, Run(lim, ops).0, x.op, x.now)
  {
    assert (ops + [x])[..|ops|] == ops;
  }

  /** A put evicts from the least recently used end, and no more than it has to: every key it evicts was
      used before every key it keeps, and the last one it evicts would not have fitted. */
  lemma EvictsLeastRecentlyUsed(lim: Limits, c: Cache, r: Ref, k: Key, data: Bytes, now: int)
    requires Inv(lim, c) && Refines(c, r) && Enabled(lim) && |data| <= lim.obj
    ensures var c', r' := AfterPut(lim, c, k, data, now), NextRef(lim, c, r, Put(k, data), now);
            var all := Front(c.order, k);
            && ByRecency(all, r'.used) && c'.order <= all
            && (forall i, j :: 0 <= i < |c'.order| <= j < |all| ==> r'.used[all[i]] > r'.used[all[j]])
            && (|c'.order| < |all| ==> Total(all[..|c'.order| + 1], c.m[k := Entry(data, now)]) > lim.max)
  {
    FrontByRecency(c.order, k, r.used, r.tick);
  }

  /** The key at the front is kept if and only if it fits alone. */
  lemma FrontFits(k: Key, rest: seq<Key>, m: map<Key, Entry>, max: int)
    ensures Fitting([k] + rest, m, max) > 0 <==> Size(m, k) <= max
  {
    var order, n := [k] + rest, Fitting([k] + rest, m, max);
    if n == 0 {
      assert order[..1] == [] + [k];
      TotalSnoc([], k, m);
    } else {
      assert order[..n] == [k] + rest[..n - 1];
      TotalFront(k, rest[..n - 1], m);
    }
  }

  /** A put can be read back within its time to live if and only if it was within the ceiling and the
      budget. A put above the ceiling leaves what was cached before. */
  lemma PutThenGetIff(lim: Limits, c: Cache, k: Key, data: Bytes, t: int, now: int)
    requires Inv(lim, c) && Enabled(lim) && t <= now <= t + lim.ttl
    ensures AfterGet(lim, AfterPut(lim, c, k, data, t), k, now).1 == Some(Entry(data, t))
            <==> |data| <= lim.obj && |data| <= lim.max
    ensures |data| > lim.obj ==> AfterPut(lim, c, k, data, t) == c
  {
    if |data| <= lim.obj {
      var m, rest := c.m[k := Entry(data, t)], Removed(c.order, {k});
      FrontFits(k, rest, m, lim.max);
      var n := Fitting([k] + rest, m, lim.max);
      PutKeepsInv(lim, c, k, data, t);
      assert n > 0 ==> ([k] + rest)[..n][0] == k;
    }
  }

  // ----- names

  predicate NulFree(s: string) {
    forall i :: 0 <= i < |s| ==> s[i] != '\0'
  }

  /** A NUL-terminated name at the front of a string determines the name. */
  lemma NameAtFront(a: string, b: string, rest: string)
    requires NulFree(a) && NulFree(b)
    ensures a + "\0" <= b + "\0" + rest <==> a == b
  {
    var s := b + "\0" + rest;
    assert s[|b|] == '\0' && s[..|b|] == b;
    assert forall i :: 0 <= i < |b| ==> s[i] == b[i];
    if a + "\0" <= s {
      assert (a + "\0")[|a|] == s[|a|];
      assert forall i :: 0 <= i < |a| ==> a[i] == (a + "\0")[i] == s[i];
      assert |a| == |b|;
      assert a == s[..|a|];
    }
  }

  lemma PrefixParts(x: string, y: string, s: string, t: string)
    requires |x| == |s|
    ensures x + y <= s + t <==> x == s && y <= t
  {
    if x + y <= s + t {
      assert x == (x + y)[..|x|] == (s + t)[..|x|] == s;
      assert y == (x + y)[|x|..] == (s + t)[|x|..|x| + |y|] == t[..|y|];
    }
  }

  /** For names without NUL, evicting a key hits exactly the entries of that key, whatever version, and
      evicting a bucket hits exactly the entries of that bucket. */
  lemma EvictExact(bucket: string, key: string, version: string, b: string, k: string, v: string)
    requires NulFree(bucket) && NulFree(key) && NulFree(b) && NulFree(k)
    ensures EvictHits(CacheKey(b, k, v), bucket, key, version) <==> bucket == b && key == k
    ensures bucket + "\0" <= CacheKey(b, k, v) <==> bucket == b
  {
    var tail := k + "\0" + v;
    assert CacheKey(b, k, v) == b + "\0" + tail;
    NameAtFront(bucket, b, tail);
    var prefix := bucket + "\0" + key + "\0";
    assert CacheKey(bucket, key, version) == prefix + version;
    assert prefix == (bucket + "\0") + (key + "\0");
    if prefix <= CacheKey(b, k, v) {
      assert bucket + "\0" <= CacheKey(b, k, v);
    }
    if bucket == b {
      PrefixParts(bucket + "\0", key + "\0", b + "\0", tail);
      NameAtFront(key, k, v);
    }
  }
}
