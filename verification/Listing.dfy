/** Paged listing of an unversioned bucket without a delimiter (internal/erasure/list.go). */
module Listing {

  type Key = string

  const PAGE_LIMIT: nat := 1000

  /** Lexicographic order. */
  predicate Le(a: Key, b: Key) {
    a == "" || (b != "" && (a[0] < b[0] || (a[0] == b[0] && Le(a[1..], b[1..]))))
  }

  /** b goes on where a ends, or is larger where they first differ. */
  ghost predicate AgreeUpTo(a: Key, b: Key, i: int) {
    0 <= i <= |a| && i <= |b| && a[..i] == b[..i] && (i == |a| || (i < |b| && a[i] < b[i]))
  }

  lemma FirstDiffers(a: Key, b: Key, i: int)
    requires a != "" && (b == "" || a[0] > b[0])
    ensures !AgreeUpTo(a, b, i)
  {
    if 0 < i <= |a| && i <= |b| {
      assert a[..i][0] == a[0] && b[..i][0] == b[0];
    }
  }

  lemma SameFirst(a: Key, b: Key, i: int)
    requires a != "" && b != "" && a[0] == b[0]
    ensures AgreeUpTo(a, b, i + 1) <==> AgreeUpTo(a[1..], b[1..], i)
    ensures !AgreeUpTo(a, b, 0)
  {
    if 0 <= i < |a| && i < |b| {
      assert a[..i + 1] == [a[0]] + a[1..][..i] && b[..i + 1] == [b[0]] + b[1..][..i];
      assert a[1..][..i] == a[..i + 1][1..] && b[1..][..i] == b[..i + 1][1..];
    }
  }

  lemma {:induction false} LeIs(a: Key, b: Key)
    ensures Le(a, b) <==> exists i :: AgreeUpTo(a, b, i)
  {
    if a == "" {
      assert AgreeUpTo(a, b, 0);
    } else if b != "" && a[0] < b[0] {
      assert AgreeUpTo(a, b, 0);
    } else if b != "" && a[0] == b[0] {
      LeIs(a[1..], b[1..]);
      forall i | AgreeUpTo(a, b, i) ensures AgreeUpTo(a[1..], b[1..], i - 1) {
        SameFirst(a, b, i - 1);
      }
      if i :| AgreeUpTo(a[1..], b[1..], i) {
        SameFirst(a, b, i);
      }
    } else {
      forall i ensures !AgreeUpTo(a, b, i) {
        FirstDiffers(a, b, i);
      }
    }
  }

  lemma {:induction false} LeAntisymmetric(a: Key, b: Key)
    requires Le(a, b) && Le(b, a)
    ensures a == b
  {
    if a != "" && b != "" {
      LeAntisymmetric(a[1..], b[1..]);
      assert a == [a[0]] + a[1..] && b == [b[0]] + b[1..];
    }
  }

  lemma {:induction false} LeTransitive(a: Key, b: Key, c: Key)
    requires Le(a, b) && Le(b, c)
    ensures Le(a, c)
  {
    if a != "" && a[0] == b[0] == c[0] {
      LeTransitive(a[1..], b[1..], c[1..]);
    }
  }

  lemma {:induction false} LeReflexive(a: Key)
    ensures Le(a, a)
  {
    if a != "" {
      LeReflexive(a[1..]);
    }
  }

  /** Sorted, without repetitions. */
  ghost predicate Sorted(keys: seq<Key>) {
    forall i, j :: 0 <= i < j < |keys| ==> Le(keys[i], keys[j]) && keys[i] != keys[j]
  }

  predicate Matches(k: Key, prefix: Key, startAfter: Key) {
    prefix <= k && (startAfter == "" || !Le(k, startAfter))
  }

  /** All keys a listing still has to show, in order. */
  function Wanted(keys: seq<Key>, prefix: Key, startAfter: Key): (w: seq<Key>)
    ensures forall k :: k in w ==> k in keys
  {
    if keys == [] then []
    else
      var rest := Wanted(keys[..|keys| - 1], prefix, startAfter);
      if Matches(keys[|keys| - 1], prefix, startAfter) then rest + [keys[|keys| - 1]] else rest
  }

  function PageSize(maxKeys: int): (m: nat)
    ensures 1 <= m <= PAGE_LIMIT
    ensures 1 <= maxKeys <= PAGE_LIMIT ==> m == maxKeys
    ensures maxKeys <= 0 || maxKeys > PAGE_LIMIT ==> m == PAGE_LIMIT
  {
    if maxKeys <= 0 || maxKeys > PAGE_LIMIT then PAGE_LIMIT else maxKeys
  }

  /** The keys whose metadata can be read. */
  function Shown(keys: seq<Key>, stat: Key -> bool): seq<Key> {
    if keys == [] then []
    else Shown(keys[..|keys| - 1], stat) + if stat(keys[|keys| - 1]) then [keys[|keys| - 1]] else []
  }

  function Cut(w: seq<Key>, m: nat): seq<Key> {
    if |w| > m then w[..m] else w
  }

  lemma {:induction false} WantedPrefix(keys: seq<Key>, prefix: Key, startAfter: Key, i: nat)
    requires i <= |keys|
    ensures Wanted(keys[..i], prefix, startAfter) <= Wanted(keys, prefix, startAfter)
    decreases |keys| - i
  {
    if i == |keys| {
      assert keys[..i] == keys;
    } else {
      WantedPrefix(keys, prefix, startAfter, i + 1);
      assert keys[..i + 1][..i] == keys[..i];
    }
  }

  /** One page: the first keys that are still wanted, whether there are more, and where to go on. */
  method DoList(keys: seq<Key>, stat: Key -> bool, prefix: Key, startAfter: Key, maxKeys: int)
    returns (objects: seq<Key>, truncated: bool, nextMarker: Key)
    ensures var w := Wanted(keys, prefix, startAfter);
            && objects == Shown(Cut(w, PageSize(maxKeys)), stat)
            && (truncated <==> |w| > PageSize(maxKeys))
            && (truncated ==> nextMarker == w[PageSize(maxKeys) - 1])
  {
    var limit := maxKeys;
    if maxKeys <= 0 || maxKeys > PAGE_LIMIT {
      limit := PAGE_LIMIT;
    }
    var wantKeys: seq<Key>;
    wantKeys, truncated, nextMarker := Collect(keys, prefix, startAfter, limit);
    objects := [];
    for i := 0 to |wantKeys|
      invariant objects == Shown(wantKeys[..i], stat)
    {
      assert wantKeys[..i + 1][..i] == wantKeys[..i];
      if stat(wantKeys[i]) {
        objects := objects + [wantKeys[i]];
      }
    }
    assert wantKeys[..|wantKeys|] == wantKeys;
  }

  method Collect(keys: seq<Key>, prefix: Key, startAfter: Key, limit: nat)
    returns (wantKeys: seq<Key>, truncated: bool, nextMarker: Key)
    requires limit > 0
    ensures var w := Wanted(keys, prefix, startAfter);
            && wantKeys == Cut(w, limit) && (truncated <==> |w| > limit)
            && (wantKeys != [] ==> nextMarker == wantKeys[|wantKeys| - 1])
  {
    wantKeys, truncated, nextMarker := [], false, "";
    var count := 0;
    for i := 0 to |keys|
      invariant wantKeys == Wanted(keys[..i], prefix, startAfter) && count == |wantKeys| <= limit
      invariant wantKeys != [] ==> nextMarker == wantKeys[|wantKeys| - 1]
    {
      assert keys[..i + 1][..i] == keys[..i];
      var k := keys[i];
      if !(prefix <= k) {
        continue;
      }
      if startAfter != "" && Le(k, startAfter) {
        continue;
      }
      if count >= limit {
        WantedPrefix(keys, prefix, startAfter, i + 1);
        truncated := true;
        return;
      }
      wantKeys := wantKeys + [k];
      nextMarker := k;
      count := count + 1;
    }
    assert keys[..|keys|] == keys;
  }

  /** What is wanted is what has the prefix and comes after the marker, sorted and each once. */
  lemma {:induction false} WantedIs(keys: seq<Key>, prefix: Key, startAfter: Key)
    requires Sorted(keys)
    ensures Sorted(Wanted(keys, prefix, startAfter))
    ensures forall k :: k in Wanted(keys, prefix, startAfter) <==>
              k in keys && prefix <= k && (startAfter == "" || !Le(k, startAfter))
  {
    if keys != [] {
      var before, last := keys[..|keys| - 1], keys[|keys| - 1];
      assert keys == before + [last];
      WantedIs(before, prefix, startAfter);
      forall k | k in before ensures Le(k, last) && k != last {
        var i :| 0 <= i < |before| && before[i] == k;
        assert keys[i] == k;
      }
    }
  }

  /** Going on after the i-th wanted key leaves exactly the wanted keys after it. */
  lemma {:induction false} WantedAfter(keys: seq<Key>, prefix: Key, startAfter: Key, i: nat)
    requires Sorted(keys) && "" !in keys && i < |Wanted(keys, prefix, startAfter)|
    ensures Wanted(keys, prefix, Wanted(keys, prefix, startAfter)[i]) == Wanted(keys, prefix, startAfter)[i + 1..]
  {
    var before, last := keys[..|keys| - 1], keys[|keys| - 1];
    var w, mark := Wanted(keys, prefix, startAfter), Wanted(keys, prefix, startAfter)[i];
    assert keys == before + [last] && Sorted(before);
    assert mark in keys && mark != "";
    if i < |Wanted(before, prefix, startAfter)| {
      WantedAfter(before, prefix, startAfter, i);
      WantedIs(before, prefix, startAfter);
      assert mark == Wanted(before, prefix, startAfter)[i] && mark in before;
      AfterIsLarger(keys, prefix, startAfter, mark);
    } else {
      assert mark == last;
      NothingAfterLast(keys, prefix, |keys|);
      assert keys[..|keys|] == keys;
      assert w[i + 1..] == [];
    }
  }

  /** The last key, if it has the prefix, matches after the old marker and after an earlier wanted key
      alike. */
  lemma AfterIsLarger(keys: seq<Key>, prefix: Key, startAfter: Key, mark: Key)
    requires Sorted(keys) && keys != [] && mark in keys[..|keys| - 1] && Matches(mark, prefix, startAfter) && mark != ""
    ensures Matches(keys[|keys| - 1], prefix, startAfter) <==> Matches(keys[|keys| - 1], prefix, mark)
  {
    var last := keys[|keys| - 1];
    var i :| 0 <= i < |keys| - 1 && keys[i] == mark;
    assert Le(mark, last) && mark != last;
    if Le(last, mark) {
      LeAntisymmetric(last, mark);
    }
    if startAfter != "" && Le(last, startAfter) {
      LeTransitive(mark, last, startAfter);
    }
  }

  lemma {:induction false} NothingAfterLast(keys: seq<Key>, prefix: Key, n: nat)
    requires Sorted(keys) && keys != [] && n <= |keys| && keys[|keys| - 1] != ""
    ensures Wanted(keys[..n], prefix, keys[|keys| - 1]) == []
  {
    if n > 0 {
      NothingAfterLast(keys, prefix, n - 1);
      assert keys[..n][..n - 1] == keys[..n - 1];
      LeReflexive(keys[|keys| - 1]);
    }
    assert keys[..|keys|] == keys;
  }

  lemma {:induction false} ShownConcat(a: seq<Key>, b: seq<Key>, stat: Key -> bool)
    ensures Shown(a + b, stat) == Shown(a, stat) + Shown(b, stat)
  {
    if b == [] {
      assert a + b == a;
    } else {
      ShownConcat(a, b[..|b| - 1], stat);
      assert (a + b)[..|a + b| - 1] == a + b[..|b| - 1];
    }
  }

  /** A client that follows continuation tokens until the last page. On an unchanging bucket it sees
      every key with the prefix whose metadata can be read, in order, each exactly once, and there are
      just as many pages as the keys need. */
  method FollowTokens(keys: seq<Key>, stat: Key -> bool, prefix: Key, maxKeys: int) returns (all: seq<Key>, pages: nat)
    requires Sorted(keys) && "" !in keys
    ensures all == Shown(Wanted(keys, prefix, ""), stat)
    ensures pages == PagesFor(|Wanted(keys, prefix, "")|, PageSize(maxKeys))
  {
    all, pages := [], 0;
    ghost var w, m := Wanted(keys, prefix, ""), PageSize(maxKeys);
    ghost var seen := 0;
    var token: Key := "";
    while true
      invariant seen <= |w| && pages + PagesFor(|w| - seen, m) == PagesFor(|w|, m)
      invariant Wanted(keys, prefix, token) == w[seen..] && all == Shown(w[..seen], stat)
      decreases |w| - seen
    {
      var objects, truncated, next := DoList(keys, stat, prefix, token, maxKeys);
      PageSeen(w, seen, m, stat);
      all := all + objects;
      pages := pages + 1;
      if !truncated {
        return;
      }
      WantedAfter(keys, prefix, token, m - 1);
      seen := seen + m;
      token := next;
    }
  }

  /** Pages of m that n keys take; an empty listing is a page, too. */
  function PagesFor(n: nat, m: nat): nat
    requires m > 0
  {
    if n <= m then 1 else 1 + PagesFor(n - m, m)
  }

  /** What is shown grows by what the page shows. */
  lemma PageSeen(w: seq<Key>, seen: nat, m: nat, stat: Key -> bool)
    requires seen <= |w|
    ensures |w| - seen > m ==> w[seen..][m..] == w[seen + m..]
    ensures Shown(w[..seen], stat) + Shown(Cut(w[seen..], m), stat) ==
              if |w| - seen > m then Shown(w[..seen + m], stat) else Shown(w, stat)
  {
    ShownConcat(w[..seen], Cut(w[seen..], m), stat);
    if |w| - seen > m {
      Slices(w, seen, seen + m);
    } else {
      Slices(w, seen, |w|);
    }
  }

  lemma Slices(w: seq<Key>, a: nat, b: nat)
    requires a <= b <= |w|
    ensures w[a..][..b - a] == w[a..b] && w[a..][b - a..] == w[b..] && w[..a] + w[a..b] == w[..b]
    ensures w[a..|w|] == w[a..] && w[..|w|] == w
  {
  }

  /** In other words, for a bucket whose objects can all be read: a key is shown if and only if it has
      the prefix, and the shown keys are sorted without repetition. */
  lemma {:induction false} ShownAll(keys: seq<Key>, stat: Key -> bool)
    requires forall k :: k in keys ==> stat(k)
    ensures Shown(keys, stat) == keys
  {
    if keys != [] {
      ShownAll(keys[..|keys| - 1], stat);
    }
  }

  lemma EveryKeyOnce(keys: seq<Key>, stat: Key -> bool, prefix: Key)
    requires Sorted(keys) && "" !in keys && forall k :: k in keys ==> stat(k)
    ensures Sorted(Shown(Wanted(keys, prefix, ""), stat))
    ensures forall k :: k in Shown(Wanted(keys, prefix, ""), stat) <==> k in keys && prefix <= k
  {
    WantedIs(keys, prefix, "");
    ShownAll(Wanted(keys, prefix, ""), stat);
  }
}
