/** Online decommission of an erasure set (internal/erasure/decommission.go) and key-hashed placement
    (internal/erasure/pool.go). Each set is a map from keys to contents; a put, a read and the move of
    one key are single steps, since each runs under the key's namespace lock. */
module Decommission {
  import opened Basics

  type Key = string
  /** The 32-bit hash of a key. */
  type Hash = Key -> nat

  datatype Layout = Layout(sets: seq<map<Key, Bytes>>, draining: set<nat>) {
    ghost predicate Valid() {
      |sets| > 0 && forall i :: i in draining ==> i < |sets|
    }

    function At(i: nat): map<Key, Bytes>
      requires i < |sets|
    {
      sets[i]
    }
  }

  /** The first n sets that are not draining, in index order. */
  function Active(n: nat, draining: set<nat>): (a: seq<nat>)
    ensures forall i: nat :: i in a <==> i < n && i !in draining
  {
    if n == 0 then [] else Active(n - 1, draining) + if n - 1 in draining then [] else [n - 1]
  }

  /** Active and draining sets are all the sets there are. */
  lemma {:induction false} ActiveCount(n: nat, draining: set<nat>)
    requires forall i :: i in draining ==> i < n
    ensures |Active(n, draining)| + |draining| == n
  {
    if n == 0 {
      assert draining == {};
    } else {
      var last: nat := n - 1;
      ActiveCount(n - 1, draining - {last});
      ActiveSame(n - 1, draining, draining - {last});
    }
  }

  /** Only whether the first n sets are draining matters. */
  lemma {:induction false} ActiveSame(n: nat, a: set<nat>, b: set<nat>)
    requires forall i: nat :: i < n ==> (i in a <==> i in b)
    ensures Active(n, a) == Active(n, b)
  {
    if n > 0 {
      ActiveSame(n - 1, a, b);
    }
  }

  /** The set of a key's plain hash. */
  function Plain(hash: Hash, k: Key, n: nat): (i: nat)
    requires n > 0
    ensures i < n
  {
    hash(k) % n
  }

  function Pick(act: seq<nat>, hash: Hash, k: Key): (i: nat)
    requires act != []
    ensures i in act
  {
    assert 0 <= hash(k) % |act| < |act|;
    act[hash(k) % |act|]
  }

  /** The set new writes of a key go to. */
  function SetFor(l: Layout, hash: Hash, k: Key): (i: nat)
    requires l.Valid()
    ensures i < |l.sets|
  {
    var n := |l.sets|;
    var act := Active(n, l.draining);
    if n > 1 && l.draining != {} && act != [] then Pick(act, hash, k) else Plain(hash, k, n)
  }

  /** The first set other than s, from i on, that has the key; s when none has. */
  function Probe(l: Layout, k: Key, s: nat, i: nat): (j: nat)
    requires i <= |l.sets| && s < |l.sets|
    ensures j < |l.sets|
    ensures j != s ==> i <= j && k in l.At(j) && forall m :: i <= m < j && m != s ==> k !in l.At(m)
    ensures j == s ==> forall m :: i <= m < |l.sets| && m != s ==> k !in l.At(m)
    decreases |l.sets| - i
  {
    if i == |l.sets| then s
    else if i != s && k in l.At(i) then i
    else Probe(l, k, s, i + 1)
  }

  function Locate(l: Layout, hash: Hash, k: Key): (j: nat)
    requires l.Valid()
    ensures j < |l.sets|
  {
    var s := SetFor(l, hash, k);
    if l.draining == {} || k in l.At(s) then s else Probe(l, k, s, 0)
  }

  /** A read goes to where writes go; only while some set drains and the key is not there is it looked for, in
      index order, on the others. */
  lemma LocateIs(l: Layout, hash: Hash, k: Key)
    requires l.Valid()
    ensures var s, j := SetFor(l, hash, k), Locate(l, hash, k);
            && (l.draining == {} || k in l.At(s) ==> j == s)
            && (l.draining != {} && k !in l.At(s) ==>
                  if exists m :: 0 <= m < |l.sets| && k in l.At(m)
                  then k in l.At(j) && forall m :: 0 <= m < j ==> k !in l.At(m)
                  else j == s)
  {
  }

  function AfterPut(l: Layout, hash: Hash, k: Key, data: Bytes): Layout
    requires l.Valid()
  {
    var s := SetFor(l, hash, k);
    l.(sets := l.sets[s := l.At(s)[k := data]])
  }

  function AfterDelete(l: Layout, hash: Hash, k: Key): Layout
    requires l.Valid()
  {
    Dropped(l, k, Locate(l, hash, k))
  }

  function Dropped(l: Layout, k: Key, from: nat): Layout
    requires from < |l.sets|
  {
    l.(sets := l.sets[from := l.At(from) - {k}])
  }

  /** What may go wrong while a key is moved. */
  datatype Faults = Faults(copyOk: bool, deleteOk: bool)

  /** The move of one plain object: a copy already at the target wins, the source copy is dropped last. */
  function AfterMove(l: Layout, k: Key, from: nat, to: nat, f: Faults): (Layout, bool)
    requires from < |l.sets| && to < |l.sets|
  {
    if from == to then (l, true)
    else if k in l.At(to) then (if f.deleteOk then Dropped(l, k, from) else l, f.deleteOk)
    else if k !in l.At(from) || !f.copyOk then (l, false)
    else
      var copied := l.(sets := l.sets[to := l.At(to)[k := l.At(from)[k]]]);
      (if f.deleteOk then Dropped(copied, k, from) else copied, f.deleteOk)
  }

  function First(act: seq<nat>): (i: nat)
    requires act != []
    ensures i in act
  {
    act[0]
  }

  lemma SameTarget(l: Layout, l': Layout, hash: Hash, k: Key, src: nat)
    requires l.Valid() && l'.Valid() && |l.sets| == |l'.sets| && l.draining == l'.draining
    ensures Target(l, hash, k, src) == Target(l', hash, k, src)
  {
  }

  /** A move brings nothing to its source, and takes the key off it when it gets through. */
  lemma MoveLeaves(l: Layout, k: Key, from: nat, to: nat, f: Faults)
    requires from < |l.sets| && to < |l.sets|
    ensures forall x :: x in AfterMove(l, k, from, to, f).0.At(from) ==> x in l.At(from)
    ensures AfterMove(l, k, from, to, f).1 && from != to ==> k !in AfterMove(l, k, from, to, f).0.At(from)
  {
  }

  /** What a move comes to: it gets through if and only if there is a copy at the target in the end and the one
      at the source could be dropped. What the target had stays; else it gets what the source had. */
  lemma MoveIs(l: Layout, k: Key, from: nat, to: nat, f: Faults)
    requires from < |l.sets| && to < |l.sets|
    ensures var (l', ok) := AfterMove(l, k, from, to, f);
            && (ok <==> from == to || (f.deleteOk && (k in l.At(to) || (k in l.At(from) && f.copyOk))))
            && |l'.sets| == |l.sets| && l'.draining == l.draining
            && (forall i :: 0 <= i < |l.sets| ==> l'.At(i) - {k} == l.At(i) - {k})
            && (forall i :: 0 <= i < |l.sets| && i != from && i != to ==> l'.At(i) == l.At(i))
            && (from != to && k in l'.At(to) ==>
                  if k in l.At(to) then l'.At(to)[k] == l.At(to)[k] else k in l.At(from) && l'.At(to)[k] == l.At(from)[k])
            && (from != to && k in l.At(to) ==> k in l'.At(to))
            && (from != to && ok ==> k in l'.At(to) && k !in l'.At(from))
  {
  }

  /** During a drain each active set takes the keys whose hash is its place among the active sets, modulo
      their number; otherwise each set those whose hash is its index. */
  lemma SpreadIs(l: Layout, hash: Hash, k: Key, i: nat)
    requires l.Valid()
    ensures var act := Active(|l.sets|, l.draining);
            && (l.draining != {} && i < |act| && hash(k) % |act| == i ==> SetFor(l, hash, k) == act[i])
            && (l.draining == {} && i < |l.sets| && hash(k) % |l.sets| == i ==> SetFor(l, hash, k) == i)
  {
    ActiveCount(|l.sets|, l.draining);
    if l.draining != {} && |l.sets| == 1 {
      assert 0 in l.draining;
    }
  }

  /** Where the worker sends a key of the draining set. */
  function Target(l: Layout, hash: Hash, k: Key, src: nat): (to: nat)
    requires l.Valid()
    ensures to < |l.sets|
  {
    var to, act := SetFor(l, hash, k), Active(|l.sets|, l.draining);
    if to == src && act != [] then First(act) else to
  }

  datatype Answer = Started | OutOfRange | OnlySet | AlreadyRunning | AlreadyDraining | NoActiveLeft

  function AfterDecommission(l: Layout, running: bool, i: int): (Layout, Answer) {
    if i < 0 || i >= |l.sets| then (l, OutOfRange)
    else if |l.sets| < 2 then (l, OnlySet)
    else if running then (l, AlreadyRunning)
    else if i in l.draining then (l, AlreadyDraining)
    else if |l.sets| - |l.draining| - 1 < 1 then (l, NoActiveLeft)
    else (l.(draining := l.draining + {i}), Started)
  }

  datatype Step = Put(k: Key, data: Bytes) | Move(k: Key, faults: Faults)

  function Next(l: Layout, hash: Hash, src: nat, step: Step): (l': Layout)
    requires l.Valid() && src < |l.sets|
    ensures l'.Valid() && |l'.sets| == |l.sets| && l'.draining == l.draining
  {
    match step
    case Put(k, data) => AfterPut(l, hash, k, data)
    case Move(k, f) => AfterMove(l, k, src, Target(l, hash, k, src), f).0
  }

  function Run(l: Layout, hash: Hash, src: nat, steps: seq<Step>): (l': Layout)
    requires l.Valid() && src < |l.sets|
    ensures l'.Valid() && |l'.sets| == |l.sets| && l'.draining == l.draining
  {
    if steps == [] then l
    else Next(Run(l, hash, src, steps[..|steps| - 1]), hash, src, steps[|steps| - 1])
  }

  /** The steps of the worker for these keys. */
  function Moves(keys: seq<Key>, faults: Key -> Faults): seq<Step> {
    if keys == [] then [] else Moves(keys[..|keys| - 1], faults) + [Move(keys[|keys| - 1], faults(keys[|keys| - 1]))]
  }

  lemma RunMoves(l: Layout, hash: Hash, src: nat, keys: seq<Key>, i: nat, faults: Key -> Faults)
    requires l.Valid() && src < |l.sets| && i < |keys|
    ensures Run(l, hash, src, Moves(keys[..i + 1], faults)) ==
              Next(Run(l, hash, src, Moves(keys[..i], faults)), hash, src, Move(keys[i], faults(keys[i])))
  {
    assert keys[..i + 1][..i] == keys[..i];
    var before, step := Moves(keys[..i], faults), Move(keys[i], faults(keys[i]));
    assert Moves(keys[..i + 1], faults) == before + [step] && (before + [step])[..|before|] == before;
  }

  /** Of these keys none is left on src that the worker has somewhere to send to. */
  ghost predicate MovedOff(l: Layout, hash: Hash, src: nat, keys: seq<Key>)
    requires l.Valid() && src < |l.sets|
  {
    forall k :: k in keys && Target(l, hash, k, src) != src ==> k !in l.At(src)
  }

  /** The worker has moved these keys, with so many failures. */
  ghost predicate Worked(l0: Layout, l: Layout, hash: Hash, src: nat, keys: seq<Key>, faults: Key -> Faults, failed: nat)
    requires l0.Valid() && l.Valid() && src < |l0.sets| && src < |l.sets|
  {
    l == Run(l0, hash, src, Moves(keys, faults)) && (failed == 0 ==> MovedOff(l, hash, src, keys))
  }

  /** Each key from the i-th on is listed once, is still on src, and meets no fault. */
  ghost predicate Faultless(l: Layout, src: nat, keys: seq<Key>, i: nat, faults: Key -> Faults)
    requires src < |l.sets|
  {
    && (forall a, b :: 0 <= a < b < |keys| ==> keys[a] != keys[b])
    && (forall j :: i <= j < |keys| ==> faults(keys[j]) == Faults(true, true) && keys[j] in l.At(src))
  }

  lemma FaultlessNext(l: Layout, src: nat, to: nat, keys: seq<Key>, i: nat, faults: Key -> Faults)
    requires src < |l.sets| && to < |l.sets| && i < |keys| && Faultless(l, src, keys, i, faults)
    ensures var (l', ok) := AfterMove(l, keys[i], src, to, faults(keys[i]));
            ok && src < |l'.sets| && Faultless(l', src, keys, i + 1, faults)
  {
    var l' := AfterMove(l, keys[i], src, to, faults(keys[i])).0;
    MoveIs(l, keys[i], src, to, faults(keys[i]));
    forall j | i < j < |keys| ensures keys[j] in l'.At(src) {
      assert keys[j] in l.At(src) - {keys[i]};
    }
  }

  lemma MovedOffNext(l: Layout, hash: Hash, src: nat, keys: seq<Key>, i: nat, f: Faults)
    requires l.Valid() && src < |l.sets| && i < |keys| && MovedOff(l, hash, src, keys[..i])
    requires AfterMove(l, keys[i], src, Target(l, hash, keys[i], src), f).1
    ensures MovedOff(Next(l, hash, src, Move(keys[i], f)), hash, src, keys[..i + 1])
  {
    var l' := Next(l, hash, src, Move(keys[i], f));
    MoveLeaves(l, keys[i], src, Target(l, hash, keys[i], src), f);
    assert keys[..i + 1] == keys[..i] + [keys[i]];
    forall k | k in keys[..i + 1] && Target(l', hash, k, src) != src ensures k !in l'.At(src) {
      SameTarget(l, l', hash, k, src);
    }
  }

  lemma WorkNext(l0: Layout, l: Layout, hash: Hash, src: nat, keys: seq<Key>, i: nat, faults: Key -> Faults, failed: nat)
    requires l0.Valid() && l.Valid() && src < |l0.sets| && src < |l.sets| && i < |keys|
    requires Worked(l0, l, hash, src, keys[..i], faults, failed)
    ensures var (l', ok) := AfterMove(l, keys[i], src, Target(l, hash, keys[i], src), faults(keys[i]));
            l'.Valid() && src < |l'.sets| && Worked(l0, l', hash, src, keys[..i + 1], faults, if ok then failed else failed + 1)
  {
    RunMoves(l0, hash, src, keys, i, faults);
    assert Next(l, hash, src, Move(keys[i], faults(keys[i]))).Valid();
    if failed == 0 && AfterMove(l, keys[i], src, Target(l, hash, keys[i], src), faults(keys[i])).1 {
      MovedOffNext(l, hash, src, keys, i, faults(keys[i]));
    }
  }

  class Pool {
    var sets: seq<map<Key, Bytes>>
    var draining: set<nat>
    var running: bool

    function Abstract(): Layout
      reads this
    {
      Layout(sets, draining)
    }

    ghost predicate Valid()
      reads this
    {
      Abstract().Valid()
    }

    constructor (n: nat)
      requires n > 0
      ensures Valid() && Abstract() == Layout(seq(n, _ => map[]), {}) && !running
    {
      sets, draining, running := seq(n, _ => map[]), {}, false;
    }

    method ActiveSets() returns (out: seq<nat>)
      ensures out == Active(|sets|, draining)
    {
      out := [];
      for i := 0 to |sets|
        invariant out == Active(i, draining)
      {
        if i !in draining {
          out := out + [i];
        }
      }
    }

    method WriteTarget(hash: Hash, k: Key) returns (s: nat)
      requires Valid()
      ensures s == SetFor(Abstract(), hash, k)
    {
      if |sets| == 1 {
        return 0;
      }
      if draining != {} {
        var act := ActiveSets();
        if |act| > 0 {
          return Pick(act, hash, k);
        }
      }
      s := Plain(hash, k, |sets|);
    }

    method Find(hash: Hash, k: Key) returns (j: nat)
      requires Valid()
      ensures j == Locate(Abstract(), hash, k)
    {
      var s := WriteTarget(hash, k);
      if draining == {} || k in sets[s] {
        return s;
      }
      for i := 0 to |sets|
        invariant Probe(Abstract(), k, s, 0) == Probe(Abstract(), k, s, i)
      {
        if i != s && k in sets[i] {
          return i;
        }
      }
      j := s;
    }

    method PutObject(hash: Hash, k: Key, data: Bytes)
      requires Valid()
      modifies this
      ensures Valid() && Abstract() == AfterPut(old(Abstract()), hash, k, data) && running == old(running)
    {
      var s := WriteTarget(hash, k);
      sets := sets[s := sets[s][k := data]];
    }

    /** Starts draining a set, or says why not. */
    method Decommission(i: int) returns (r: Answer)
      requires Valid()
      modifies this
      ensures Valid() && (Abstract(), r) == AfterDecommission(old(Abstract()), old(running), i)
      ensures running == (old(running) || r.Started?)
      ensures r.Started? <==> 0 <= i < |old(sets)| && !old(running) && i !in old(draining) && |old(sets)| - |old(draining)| >= 2
      ensures sets == old(sets) && draining == if r.Started? then old(draining) + {i} else old(draining)
    {
      if i < 0 || i >= |sets| {
        return OutOfRange;
      }
      if |sets| < 2 {
        return OnlySet;
      }
      if running {
        return AlreadyRunning;
      }
      var activeCount := |sets| - |draining|;
      if i in draining {
        return AlreadyDraining;
      }
      if activeCount - 1 < 1 {
        return NoActiveLeft;
      }
      draining := draining + {i};
      running := true;
      r := Started;
    }

    method MoveObject(k: Key, from: nat, to: nat, f: Faults) returns (ok: bool)
      requires Valid() && from < |sets| && to < |sets|
      modifies this
      ensures Valid() && (Abstract(), ok) == AfterMove(old(Abstract()), k, from, to, f) && running == old(running)
    {
      if from == to {
        return true;
      }
      if k !in sets[to] {
        if k !in sets[from] || !f.copyOk {
          return false;
        }
        sets := sets[to := sets[to][k := sets[from][k]]];
      }
      if !f.deleteOk {
        return false;
      }
      sets := sets[from := sets[from] - {k}];
      ok := true;
    }

    /** A key that still hashes to the draining set is forced onto the first active one. */
    method MoveTarget(hash: Hash, k: Key, src: nat) returns (dst: nat)
      requires Valid()
      ensures dst == Target(Abstract(), hash, k, src)
    {
      dst := WriteTarget(hash, k);
      if dst == src {
        var act := ActiveSets();
        if |act| > 0 {
          dst := First(act);
        }
      }
    }

    /** The worker's move of one key. */
    method MoveAway(hash: Hash, src: nat, k: Key, f: Faults) returns (ok: bool)
      requires Valid() && src < |sets|
      modifies this
      ensures Valid() && (Abstract(), ok) == AfterMove(old(Abstract()), k, src, Target(old(Abstract()), hash, k, src), f)
    {
      var dst := MoveTarget(hash, k, src);
      ok := MoveObject(k, src, dst, f);
    }

    /** The worker: one move for each key listed on the draining set. */
    method RunDecommission(hash: Hash, src: nat, keys: seq<Key>, faults: Key -> Faults) returns (moved: nat, failed: nat)
      requires Valid() && src < |sets|
      modifies this
      ensures Valid() && !running
      ensures Abstract() == Run(old(Abstract()), hash, src, Moves(keys, faults))
      ensures moved + failed == |keys|
      ensures failed == 0 ==> MovedOff(Abstract(), hash, src, keys)
      ensures Faultless(old(Abstract()), src, keys, 0, faults) ==> failed == 0
    {
      moved, failed := 0, 0;
      ghost var l0 := Abstract();
      for i := 0 to |keys|
        invariant Valid() && src < |sets| && moved + failed == i
        invariant Worked(l0, Abstract(), hash, src, keys[..i], faults, failed)
        invariant Faultless(l0, src, keys, 0, faults) ==> failed == 0 && Faultless(Abstract(), src, keys, i, faults)
      {
        if Faultless(Abstract(), src, keys, i, faults) {
          FaultlessNext(Abstract(), src, Target(Abstract(), hash, keys[i], src), keys, i, faults);
        }
        WorkNext(l0, Abstract(), hash, src, keys, i, faults, failed);
        ghost var next := AfterMove(Abstract(), keys[i], src, Target(Abstract(), hash, keys[i], src), faults(keys[i]));
        var ok := MoveAway(hash, src, keys[i], faults(keys[i]));
        assert (Abstract(), ok) == next;
        if ok {
          moved := moved + 1;
        } else {
          failed := failed + 1;
        }
      }
      assert keys[..|keys|] == keys;
      running := false;
    }
  }

  // ----- safety

  /** However often sets are decommissioned, some set stays active. */
  lemma AlwaysOneActive(l: Layout, running: bool, i: int)
    requires l.Valid() && Active(|l.sets|, l.draining) != []
    ensures var l' := AfterDecommission(l, running, i).0;
            l'.Valid() && Active(|l'.sets|, l'.draining) != [] && l'.sets == l.sets
  {
    var l' := AfterDecommission(l, running, i).0;
    ActiveCount(|l.sets|, l.draining);
    if l' != l {
      assert |l'.draining| == |l.draining| + 1;
    }
    ActiveCount(|l'.sets|, l'.draining);
  }

  function Asked(l: Layout, asks: seq<(bool, int)>): Layout {
    if asks == [] then l
    else AfterDecommission(Asked(l, asks[..|asks| - 1]), asks[|asks| - 1].0, asks[|asks| - 1].1).0
  }

  lemma {:induction false} DecommissionsLeaveOneActive(l: Layout, asks: seq<(bool, int)>)
    requires l.Valid() && l.draining == {}
    ensures Asked(l, asks).Valid() && Active(|l.sets|, Asked(l, asks).draining) != [] && Asked(l, asks).sets == l.sets
  {
    if asks == [] {
      ActiveCount(|l.sets|, {});
    } else {
      DecommissionsLeaveOneActive(l, asks[..|asks| - 1]);
      AlwaysOneActive(Asked(l, asks[..|asks| - 1]), asks[|asks| - 1].0, asks[|asks| - 1].1);
    }
  }

  /** Where a key may be while set src drains: on the set of its plain hash, and on the set active
      writes go to. The active copy, when there is one, is the last put. */
  ghost predicate KeyPlaced(l: Layout, hash: Hash, last: map<Key, Bytes>, k: Key)
    requires l.Valid()
  {
    var plain, active := Plain(hash, k, |l.sets|), SetFor(l, hash, k);
    && (forall i :: 0 <= i < |l.sets| && k in l.At(i) ==> k in last && (i == plain || i == active))
    && (k in last ==>
          if k in l.At(active) then l.At(active)[k] == last[k]
          else k in l.At(plain) && l.At(plain)[k] == last[k])
  }

  ghost predicate Draining(l: Layout, hash: Hash, last: map<Key, Bytes>, src: nat) {
    l.Valid() && src < |l.sets| && |l.sets| >= 2 && l.draining == {src} && forall k :: KeyPlaced(l, hash, last, k)
  }

  /** Every key on the set of its plain hash. */
  ghost predicate PlainlyPlaced(l: Layout, hash: Hash, last: map<Key, Bytes>) {
    && l.Valid() && l.draining == {}
    && (forall i, k :: 0 <= i < |l.sets| && k in l.At(i) ==> i == Plain(hash, k, |l.sets|) && k in last && l.At(i)[k] == last[k])
    && (forall k :: k in last ==> k in l.At(Plain(hash, k, |l.sets|)))
  }

  lemma DrainTarget(l: Layout, hash: Hash, k: Key, src: nat)
    requires l.Valid() && src < |l.sets| && |l.sets| >= 2 && l.draining == {src}
    ensures SetFor(l, hash, k) != src && Target(l, hash, k, src) == SetFor(l, hash, k)
  {
    ActiveCount(|l.sets|, l.draining);
    var act := Active(|l.sets|, l.draining);
  }

  /** Marking the set as draining moves no data and loses no key. */
  lemma StartDrain(l: Layout, hash: Hash, last: map<Key, Bytes>, src: nat)
    requires PlainlyPlaced(l, hash, last) && AfterDecommission(l, false, src).1.Started?
    ensures Draining(AfterDecommission(l, false, src).0, hash, last, src)
  {
    var l' := AfterDecommission(l, false, src).0;
    assert forall i :: 0 <= i < |l.sets| ==> l'.At(i) == l.At(i);
    forall k ensures KeyPlaced(l', hash, last, k) {
      if k in last && k in l'.At(SetFor(l', hash, k)) {
        assert SetFor(l', hash, k) == Plain(hash, k, |l.sets|);
      }
    }
  }

  /** Nothing about key x changed. */
  ghost predicate SameKey(l: Layout, l': Layout, x: Key) {
    && |l'.sets| == |l.sets| && l'.draining == l.draining
    && forall i :: 0 <= i < |l.sets| ==>
         (x in l'.At(i) <==> x in l.At(i)) && (x in l.At(i) ==> l'.At(i)[x] == l.At(i)[x])
  }

  lemma SameKeyPlaced(l: Layout, l': Layout, hash: Hash, last: map<Key, Bytes>, last': map<Key, Bytes>, x: Key)
    requires l.Valid() && l'.Valid() && SameKey(l, l', x) && KeyPlaced(l, hash, last, x)
    requires (x in last' <==> x in last) && (x in last ==> last'[x] == last[x])
    ensures KeyPlaced(l', hash, last', x)
  {
  }

  lemma PutKeepsDraining(l: Layout, hash: Hash, last: map<Key, Bytes>, src: nat, k: Key, data: Bytes)
    requires Draining(l, hash, last, src)
    ensures Draining(AfterPut(l, hash, k, data), hash, last[k := data], src)
  {
    var l', last' := AfterPut(l, hash, k, data), last[k := data];
    assert KeyPlaced(l, hash, last, k);
    assert forall i :: 0 <= i < |l.sets| && i != SetFor(l, hash, k) ==> l'.At(i) == l.At(i);
    forall x | x != k ensures KeyPlaced(l', hash, last', x) {
      assert KeyPlaced(l, hash, last, x);
      SameKeyPlaced(l, l', hash, last, last', x);
    }
  }

  /** A move to the set active writes go to keeps the key placed, however far it gets. */
  lemma MoveKeepsKey(l: Layout, hash: Hash, last: map<Key, Bytes>, src: nat, k: Key, f: Faults)
    requires Draining(l, hash, last, src)
    ensures var l' := AfterMove(l, k, src, SetFor(l, hash, k), f).0;
            l'.Valid() && |l'.sets| == |l.sets| && l'.draining == l.draining && KeyPlaced(l', hash, last, k)
  {
    var to := SetFor(l, hash, k);
    var l' := AfterMove(l, k, src, to, f).0;
    DrainTarget(l, hash, k, src);
    assert KeyPlaced(l, hash, last, k);
    assert forall i :: 0 <= i < |l.sets| && i != src && i != to ==> l'.At(i) == l.At(i);
  }

  lemma MoveKeepsOthers(l: Layout, k: Key, from: nat, to: nat, f: Faults, x: Key)
    requires from < |l.sets| && to < |l.sets| && x != k
    ensures SameKey(l, AfterMove(l, k, from, to, f).0, x)
  {
  }

  lemma MoveKeepsDraining(l: Layout, hash: Hash, last: map<Key, Bytes>, src: nat, k: Key, f: Faults)
    requires Draining(l, hash, last, src)
    ensures Draining(Next(l, hash, src, Move(k, f)), hash, last, src)
  {
    var l' := Next(l, hash, src, Move(k, f));
    DrainTarget(l, hash, k, src);
    MoveKeepsKey(l, hash, last, src, k, f);
    forall x | x != k ensures KeyPlaced(l', hash, last, x) {
      assert KeyPlaced(l, hash, last, x);
      MoveKeepsOthers(l, k, src, SetFor(l, hash, k), f, x);
      SameKeyPlaced(l, l', hash, last, last, x);
    }
  }

  /** The last content put under each key. */
  function LastPuts(last: map<Key, Bytes>, steps: seq<Step>): map<Key, Bytes> {
    if steps == [] then last
    else
      var before, step := LastPuts(last, steps[..|steps| - 1]), steps[|steps| - 1];
      if step.Put? then before[step.k := step.data] else before
  }

  lemma {:induction false} RunKeepsDraining(l: Layout, hash: Hash, last: map<Key, Bytes>, src: nat, steps: seq<Step>)
    requires Draining(l, hash, last, src)
    ensures Draining(Run(l, hash, src, steps), hash, LastPuts(last, steps), src)
  {
    if steps != [] {
      var before, step := steps[..|steps| - 1], steps[|steps| - 1];
      RunKeepsDraining(l, hash, last, src, before);
      match step
      case Put(k, data) => PutKeepsDraining(Run(l, hash, src, before), hash, LastPuts(last, before), src, k, data);
      case Move(k, f) => MoveKeepsDraining(Run(l, hash, src, before), hash, LastPuts(last, before), src, k, f);
    }
  }

  /** A read finds a key exactly when it was ever put, and finds its last content. */
  ghost predicate ReadsLast(l: Layout, hash: Hash, last: map<Key, Bytes>, k: Key)
    requires l.Valid()
  {
    var at := l.At(Locate(l, hash, k));
    (k in at <==> k in last) && (k in last ==> at[k] == last[k])
  }

  lemma LocateFindsLast(l: Layout, hash: Hash, last: map<Key, Bytes>, src: nat, k: Key)
    requires Draining(l, hash, last, src)
    ensures ReadsLast(l, hash, last, k)
  {
    assert KeyPlaced(l, hash, last, k);
    var plain := Plain(hash, k, |l.sets|);
    assert k in l.At(plain) || k !in l.At(plain);
  }

  /** Every interleaving of puts, reads and moves, failing or not, during one decommission that starts
      with every key on the set of its plain hash: reads find the last put. */
  lemma DrainKeepsReads(l: Layout, hash: Hash, last: map<Key, Bytes>, src: nat, steps: seq<Step>, k: Key)
    requires PlainlyPlaced(l, hash, last) && AfterDecommission(l, false, src).1.Started?
    ensures ReadsLast(Run(AfterDecommission(l, false, src).0, hash, src, steps), hash, LastPuts(last, steps), k)
  {
    var started := AfterDecommission(l, false, src).0;
    StartDrain(l, hash, last, src);
    RunKeepsDraining(started, hash, last, src, steps);
    LocateFindsLast(Run(started, hash, src, steps), hash, LastPuts(last, steps), src, k);
  }

  lemma StepLeaves(l: Layout, hash: Hash, src: nat, step: Step, k: Key)
    requires l.Valid() && src < |l.sets| && |l.sets| >= 2 && l.draining == {src}
    requires k !in l.At(src) || step == Move(k, Faults(true, true))
    ensures k !in Next(l, hash, src, step).At(src)
  {
    DrainTarget(l, hash, step.k, src);
  }

  /** Some step moves the key without a fault. */
  ghost predicate Moved(steps: seq<Step>, k: Key) {
    exists i :: 0 <= i < |steps| && steps[i] == Move(k, Faults(true, true))
  }

  lemma MovedBefore(steps: seq<Step>, k: Key)
    requires Moved(steps, k) && steps[|steps| - 1] != Move(k, Faults(true, true))
    ensures Moved(steps[..|steps| - 1], k)
  {
    var i :| 0 <= i < |steps| && steps[i] == Move(k, Faults(true, true));
    assert steps[..|steps| - 1][i] == steps[i];
  }

  /** Nothing comes to the draining set, and a move without faults takes its key off it. */
  lemma {:induction false} MovedIsGone(l: Layout, hash: Hash, last: map<Key, Bytes>, src: nat, steps: seq<Step>, k: Key)
    requires Draining(l, hash, last, src)
    requires k !in l.At(src) || Moved(steps, k)
    ensures k !in Run(l, hash, src, steps).At(src)
  {
    if steps != [] {
      var before, step := steps[..|steps| - 1], steps[|steps| - 1];
      RunKeepsDraining(l, hash, last, src, before);
      if step != Move(k, Faults(true, true)) {
        if Moved(steps, k) {
          MovedBefore(steps, k);
        }
        MovedIsGone(l, hash, last, src, before, k);
      }
      StepLeaves(Run(l, hash, src, before), hash, src, step, k);
    }
  }

  /** A drain whose moves all get through empties the set, whatever clients put meanwhile. */
  lemma DrainEmpties(l: Layout, hash: Hash, last: map<Key, Bytes>, src: nat, steps: seq<Step>)
    requires Draining(l, hash, last, src)
    requires forall k :: k in l.At(src) ==> Moved(steps, k)
    ensures Run(l, hash, src, steps).At(src) == map[]
  {
    forall k ensures k !in Run(l, hash, src, steps).At(src) {
      MovedIsGone(l, hash, last, src, steps, k);
    }
  }

  /** The key has a copy where active writes go and another one on the set of its plain hash. */
  predicate TwoCopies(l: Layout, hash: Hash, k: Key)
    requires l.Valid()
  {
    var plain, active := Plain(hash, k, |l.sets|), SetFor(l, hash, k);
    plain != active && k in l.At(plain) && k in l.At(active)
  }

  /** A delete during a drain takes away the copy that locate finds. The key is gone if and only if there
      was no second one; otherwise the copy of the plain set shows. */
  lemma DeleteTakesIff(l: Layout, hash: Hash, last: map<Key, Bytes>, src: nat, k: Key)
    requires Draining(l, hash, last, src) && k in last
    ensures var l' := AfterDelete(l, hash, k);
            var at := l'.At(Locate(l', hash, k));
            && (k !in at <==> !TwoCopies(l, hash, k))
            && (TwoCopies(l, hash, k) ==> at[k] == l.At(Plain(hash, k, |l.sets|))[k])
  {
    var l' := AfterDelete(l, hash, k);
    LocateFindsLast(l, hash, last, src, k);
    assert KeyPlaced(l, hash, last, k);
    var plain, active := Plain(hash, k, |l.sets|), SetFor(l, hash, k);
    assert forall i :: 0 <= i < |l.sets| && i != Locate(l, hash, k) ==> l'.At(i) == l.At(i);
    assert k !in l'.At(Locate(l, hash, k));
    assert plain < |l.sets| && (k in l'.At(plain) <==> k in l'.At(Locate(l', hash, k)));
  }

  /** Two copies are two steps away: a key of the set that is being drained is put, and then deleted. What
      a reader finds afterwards is the content from before the put. */
  lemma DeletedShowsOld(l: Layout, hash: Hash, last: map<Key, Bytes>, src: nat, k: Key, data: Bytes)
    requires PlainlyPlaced(l, hash, last) && AfterDecommission(l, false, src).1.Started?
    requires k in last && Plain(hash, k, |l.sets|) == src
    ensures var started := AfterDecommission(l, false, src).0;
            var l' := AfterDelete(AfterPut(started, hash, k, data), hash, k);
            k in l'.At(Locate(l', hash, k)) && l'.At(Locate(l', hash, k))[k] == last[k]
  {
    var started := AfterDecommission(l, false, src).0;
    StartDrain(l, hash, last, src);
    DrainTarget(started, hash, k, src);
    PutKeepsDraining(started, hash, last, src, k, data);
    var put := AfterPut(started, hash, k, data);
    assert l.At(src) == started.At(src) == put.At(src);
    DeleteTakesIff(put, hash, last[k := data], src, k);
  }
}
