/** Versions of one key in a versioning-enabled bucket (internal/erasure/versioning.go,
    internal/erasure/lock.go): an ordered log, the live object, and an archive of older versions. */
module VersionStore {
  import opened Basics
  import opened Options

  /** "" , GOVERNANCE or COMPLIANCE. */
  datatype LockMode = Unlocked | Governance | Compliance

  /** Times are clock readings; a zero `until` is the zero time. */
  datatype Entry = Entry(id: nat, marker: bool, mode: LockMode, until: nat, hold: bool) {
    predicate Blocks(now: nat, bypass: bool) {
      hold || (until != 0 && now < until && (mode.Compliance? || (mode.Governance? && !bypass)))
    }
  }

  datatype Object = Object(id: nat, data: Bytes)

  datatype Key = Key(log: seq<Entry>, live: Option<Object>, archive: map<nat, Object>)

  datatype Outcome = Done | NotFound | NotVersioned | Locked

  /** Index of the entry with this id, or -1. */
  function FindId(log: seq<Entry>, id: nat): (i: int)
    ensures -1 <= i < |log|
    ensures i >= 0 ==> log[i].id == id && forall j :: 0 <= j < i ==> log[j].id != id
    ensures i < 0 ==> forall j :: 0 <= j < |log| ==> log[j].id != id
  {
    FindFrom(log, id, 0)
  }

  function FindFrom(log: seq<Entry>, id: nat, from: nat): (i: int)
    requires from <= |log| && forall j :: 0 <= j < from ==> log[j].id != id
    ensures -1 <= i < |log|
    ensures i >= 0 ==> log[i].id == id && forall j :: 0 <= j < i ==> log[j].id != id
    ensures i < 0 ==> forall j :: 0 <= j < |log| ==> log[j].id != id
    decreases |log| - from
  {
    if from == |log| then -1 else if log[from].id == id then from else FindFrom(log, id, from + 1)
  }

  /** The live object moves into the archive under its own id. */
  function Archived(k: Key): Key {
    if k.live.None? then k else k.(live := None, archive := k.archive[k.live.value.id := k.live.value])
  }

  function AfterPut(k: Key, e: Entry, data: Bytes): Key {
    var a := Archived(k);
    Key(a.log + [e], Some(Object(e.id, data)), a.archive)
  }

  function AfterMarker(k: Key, id: nat): Key {
    var a := Archived(k);
    a.(log := a.log + [Entry(id, true, Unlocked, 0, false)])
  }

  /** A version by id: the live object if it is that version, else the archived one. */
  function Get(k: Key, id: nat): Option<Object> {
    if k.live.Some? && k.live.value.id == id then k.live
    else if id in k.archive then Some(k.archive[id])
    else None
  }

  function WithoutObject(k: Key, id: nat): Key {
    if k.live.Some? && k.live.value.id == id then k.(live := None) else k.(archive := k.archive - {id})
  }

  /** When the newest version is gone and a real version is newest now, it becomes live again. */
  function Promoted(k: Key): Key
    requires k.log != []
  {
    var id := k.log[|k.log| - 1].id;
    if !k.log[|k.log| - 1].marker && k.live.None? && id in k.archive
    then k.(live := Some(k.archive[id]), archive := k.archive - {id})
    else k
  }

  function RemoveAt<T>(s: seq<T>, i: nat): seq<T>
    requires i < |s|
  {
    s[..i] + s[i + 1..]
  }

  function AfterDeleteVersion(k: Key, id: nat, now: nat, bypass: bool): (Key, Outcome) {
    var i := FindId(k.log, id);
    if i < 0 then (k, NotFound)
    else if k.log[i].Blocks(now, bypass) then (k, Locked)
    else
      var rest := WithoutObject(k, id).(log := RemoveAt(k.log, i));
      (if rest.log != [] && i == |k.log| - 1 then Promoted(rest) else rest, Done)
  }

  /** Entry i is the one that an id names. */
  predicate IsFirst(log: seq<Entry>, id: nat, i: int) {
    0 <= i < |log| && log[i].id == id && forall j :: 0 <= j < i ==> log[j].id != id
  }

  /** What protects a version: a legal hold, a running COMPLIANCE retention, or a running GOVERNANCE
      retention that the request does not bypass. */
  predicate IsLocked(e: Entry, now: nat, bypass: bool) {
    || e.hold
    || (e.mode == Compliance && now < e.until)
    || (e.mode == Governance && now < e.until && !bypass)
  }

  /** The outcome of a version delete, by the fields of the entry. */
  lemma DeleteOutcome(k: Key, id: nat, now: nat, bypass: bool)
    ensures var (k', r) := AfterDeleteVersion(k, id, now, bypass);
            && (r.NotFound? <==> forall i :: 0 <= i < |k.log| ==> k.log[i].id != id)
            && (r.Locked? <==> exists i :: IsFirst(k.log, id, i) && IsLocked(k.log[i], now, bypass))
            && (r.Done? <==> exists i :: IsFirst(k.log, id, i) && !IsLocked(k.log[i], now, bypass))
            && (!r.Done? ==> k' == k)
  {
    var i := FindId(k.log, id);
    if i >= 0 {
      assert IsFirst(k.log, id, i);
    }
  }

  /** The entry a retention or legal-hold request names: the newest when no id is given. */
  function Target(log: seq<Entry>, id: Option<nat>): (i: int)
    ensures -1 <= i < |log|
  {
    if id.None? then |log| - 1 else FindId(log, id.value)
  }

  /** A retention change is refused while it would weaken what is still running. */
  predicate RetentionRefused(cur: Entry, mode: LockMode, until: nat, now: nat, bypass: bool) {
    cur.until != 0 && now < cur.until &&
    ((cur.mode.Compliance? && (!mode.Compliance? || until < cur.until)) ||
     (cur.mode.Governance? && (mode.Unlocked? || until < cur.until) && !bypass))
  }

  function AfterRetention(k: Key, id: Option<nat>, mode: LockMode, until: nat, now: nat, bypass: bool): (Key, Outcome) {
    var i := Target(k.log, id);
    if k.log == [] then (k, NotVersioned)
    else if i < 0 then (k, NotFound)
    else if RetentionRefused(k.log[i], mode, until, now, bypass) then (k, Locked)
    else (k.(log := k.log[i := k.log[i].(mode := mode, until := until)]), Done)
  }

  function AfterHold(k: Key, id: Option<nat>, on: bool): (Key, Outcome) {
    var i := Target(k.log, id);
    if k.log == [] then (k, NotVersioned)
    else if i < 0 then (k, NotFound)
    else (k.(log := k.log[i := k.log[i].(hold := on)]), Done)
  }

  /** Entry i is the one that a request names: the first with its id, or the newest when it gives none. */
  predicate Targets(log: seq<Entry>, id: Option<nat>, i: int) {
    if id.None? then 0 <= i == |log| - 1 else IsFirst(log, id.value, i)
  }

  /** The change gives up something that is still running and that the request may not give up. */
  predicate Weakens(e: Entry, mode: LockMode, until: nat, now: nat, bypass: bool) {
    || (e.mode == Compliance && now < e.until && (mode != Compliance || until < e.until))
    || (e.mode == Governance && now < e.until && (mode == Unlocked || until < e.until) && !bypass)
  }

  /** The outcome of a retention request, by the fields of the entry it names. An accepted one is written. */
  lemma RetentionOutcome(k: Key, id: Option<nat>, mode: LockMode, until: nat, now: nat, bypass: bool)
    ensures var (k', r) := AfterRetention(k, id, mode, until, now, bypass);
            && (r.NotVersioned? <==> k.log == [])
            && (r.NotFound? <==> k.log != [] && forall i :: !Targets(k.log, id, i))
            && (r.Locked? <==> exists i :: Targets(k.log, id, i) && Weakens(k.log[i], mode, until, now, bypass))
            && (r.Done? ==> exists i :: Targets(k.log, id, i) &&
                              k' == k.(log := k.log[i := k.log[i].(mode := mode, until := until)]))
            && (!r.Done? ==> k' == k)
  {
    var i := Target(k.log, id);
    if i >= 0 {
      assert Targets(k.log, id, i);
    }
  }

  /** A legal-hold request sets the hold of the entry it names, to what it says, whenever there is one. */
  lemma HoldOutcome(k: Key, id: Option<nat>, on: bool)
    ensures var (k', r) := AfterHold(k, id, on);
            && (r.NotVersioned? <==> k.log == [])
            && (r.NotFound? <==> k.log != [] && forall i :: !Targets(k.log, id, i))
            && (r.Done? <==> exists i :: Targets(k.log, id, i) && k' == k.(log := k.log[i := k.log[i].(hold := on)]))
            && (!r.Done? ==> k' == k)
  {
    var i := Target(k.log, id);
    if i >= 0 {
      assert Targets(k.log, id, i);
    }
  }

  /** The operations as they run: each reads the log, works on the live slot and the archive, and
      writes the log back, under the key's namespace lock. */
  class VersionedKey {
    var log: seq<Entry>
    var live: Option<Object>
    var archive: map<nat, Object>

    function State(): Key
      reads this
    {
      Key(log, live, archive)
    }

    constructor ()
      ensures State() == Key([], None, map[])
    {
      log, live, archive := [], None, map[];
    }

    method ArchiveCurrent()
      modifies this
      ensures State() == Archived(old(State()))
    {
      if live.Some? {
        archive := archive[live.value.id := live.value];
        live := None;
      }
    }

    method PutVersion(e: Entry, data: Bytes)
      modifies this
      ensures State() == AfterPut(old(State()), e, data)
    {
      ArchiveCurrent();
      live := Some(Object(e.id, data));
      log := log + [e];
    }

    method DeleteLatest(id: nat)
      modifies this
      ensures State() == AfterMarker(old(State()), id)
    {
      ArchiveCurrent();
      log := log + [Entry(id, true, Unlocked, 0, false)];
    }

    method Search(id: nat) returns (i: int)
      ensures i == FindId(log, id)
    {
      for j := 0 to |log|
        invariant forall m :: 0 <= m < j ==> log[m].id != id
      {
        if log[j].id == id {
          return j;
        }
      }
      i := -1;
    }

    method DeleteVersion(id: nat, now: nat, bypass: bool) returns (r: Outcome)
      modifies this
      ensures (State(), r) == AfterDeleteVersion(old(State()), id, now, bypass)
      ensures r.NotFound? <==> forall i :: 0 <= i < |old(log)| ==> old(log)[i].id != id
      ensures r.Locked? <==> exists i :: IsFirst(old(log), id, i) && IsLocked(old(log)[i], now, bypass)
      ensures r.Done? <==> exists i :: IsFirst(old(log), id, i) && !IsLocked(old(log)[i], now, bypass)
      ensures !r.Done? ==> State() == old(State())
    {
      DeleteOutcome(State(), id, now, bypass);
      var i := Search(id);
      if i < 0 {
        return NotFound;
      }
      if log[i].Blocks(now, bypass) {
        return Locked;
      }
      var wasLatest := i == |log| - 1;
      if live.Some? && live.value.id == id {
        live := None;
      } else {
        archive := archive - {id};
      }
      log := log[..i] + log[i + 1..];
      r := Done;
      if log == [] {
        return;
      }
      var head := log[|log| - 1];
      if wasLatest && !head.marker && live.None? && head.id in archive {
        live := Some(archive[head.id]);
        archive := archive - {head.id};
      }
    }

    method PutRetention(id: Option<nat>, mode: LockMode, until: nat, now: nat, bypass: bool) returns (r: Outcome)
      modifies this
      ensures (State(), r) == AfterRetention(old(State()), id, mode, until, now, bypass)
      ensures r.Done? ==> exists i :: Targets(old(log), id, i) && log == old(log)[i := old(log)[i].(mode := mode, until := until)]
    {
      RetentionOutcome(State(), id, mode, until, now, bypass);
      if log == [] {
        return NotVersioned;
      }
      var i := |log| - 1;
      if id.Some? {
        i := Search(id.value);
      }
      if i < 0 {
        return NotFound;
      }
      var cur := log[i];
      if cur.mode.Compliance? && cur.until != 0 && now < cur.until {
        if !mode.Compliance? || until < cur.until {
          return Locked;
        }
      }
      if cur.mode.Governance? && cur.until != 0 && now < cur.until {
        if (mode.Unlocked? || until < cur.until) && !bypass {
          return Locked;
        }
      }
      log := log[i := cur.(mode := mode, until := until)];
      r := Done;
    }

    method PutLegalHold(id: Option<nat>, on: bool) returns (r: Outcome)
      modifies this
      ensures (State(), r) == AfterHold(old(State()), id, on)
      ensures r.Done? ==> exists i :: Targets(old(log), id, i) && log == old(log)[i := old(log)[i].(hold := on)]
    {
      HoldOutcome(State(), id, on);
      if log == [] {
        return NotVersioned;
      }
      var i := |log| - 1;
      if id.Some? {
        i := Search(id.value);
      }
      if i < 0 {
        return NotFound;
      }
      log := log[i := log[i].(hold := on)];
      r := Done;
    }
  }

  // ----- runs of operations on one key

  /** A key with what has happened to it: the next fresh version id and the bytes of every put. */
  datatype Store = Store(k: Key, next: nat, written: map<nat, Bytes>)

  const EMPTY_STORE := Store(Key([], None, map[]), 1, map[])

  datatype Op =
    | Put(data: Bytes, mode: LockMode, until: nat, hold: bool)
    | Delete
    | DeleteVersion(id: nat, bypass: bool)
    | Retain(target: Option<nat>, retainMode: LockMode, retainUntil: nat, bypass: bool)
    | LegalHold(target: Option<nat>, on: bool)

  function Next(s: Store, op: Op, now: nat): Store {
    match op
    case Put(data, mode, until, hold) =>
      Store(AfterPut(s.k, Entry(s.next, false, mode, until, hold), data), s.next + 1, s.written[s.next := data])
    case Delete => Store(AfterMarker(s.k, s.next), s.next + 1, s.written)
    case DeleteVersion(id, bypass) => s.(k := AfterDeleteVersion(s.k, id, now, bypass).0)
    case Retain(target, mode, until, bypass) => s.(k := AfterRetention(s.k, target, mode, until, now, bypass).0)
    case LegalHold(target, on) => s.(k := AfterHold(s.k, target, on).0)
  }

  datatype Timed = Timed(op: Op, now: nat)

  function RunFrom(s: Store, ops: seq<Timed>): Store {
    if ops == [] then s else Next(RunFrom(s, ops[..|ops| - 1]), ops[|ops| - 1].op, ops[|ops| - 1].now)
  }

  /** Entry i is backed by the object its put wrote: live when it is the newest, archived before. */
  predicate Backed(s: Store, i: nat)
    requires i < |s.k.log|
  {
    var e := s.k.log[i];
    if e.marker then e.id !in s.written
    else
      && e.id in s.written
      && (if i == |s.k.log| - 1 then s.k.live == Some(Object(e.id, s.written[e.id]))
          else e.id in s.k.archive && s.k.archive[e.id] == Object(e.id, s.written[e.id]))
  }

  /** The log lists distinct versions, each backed, and nothing is live without a newest version. */
  ghost predicate Logged(s: Store) {
    && (forall i, j :: 0 <= i < j < |s.k.log| ==> s.k.log[i].id != s.k.log[j].id)
    && (forall i :: 0 <= i < |s.k.log| ==> s.k.log[i].id < s.next && Backed(s, i))
    && (s.k.live.Some? ==> s.k.log != [] && !s.k.log[|s.k.log| - 1].marker)
    && (forall id :: id in s.written ==> id < s.next)
  }

  /** Entry i is an older version with this id. */
  predicate OlderVersion(log: seq<Entry>, id: nat, i: nat) {
    i + 1 < |log| && log[i].id == id && !log[i].marker
  }

  /** The archive holds older versions only. */
  ghost predicate NoStrays(k: Key) {
    forall id :: id in k.archive ==> exists i :: OlderVersion(k.log, id, i)
  }

  ghost predicate Inv(s: Store) {
    Logged(s) && NoStrays(s.k)
  }

  /** Archiving the live object and appending an entry keeps the archive to older versions. */
  lemma AppendKeepsNoStrays(s: Store, k': Key, e: Entry)
    requires Inv(s) && k'.log == s.k.log + [e] && k'.archive == Archived(s.k).archive
    ensures NoStrays(k')
  {
    forall id | id in k'.archive ensures exists i :: OlderVersion(k'.log, id, i) {
      if id in s.k.archive {
        var i: nat :| OlderVersion(s.k.log, id, i);
        assert OlderVersion(k'.log, id, i);
      } else {
        assert Backed(s, |s.k.log| - 1);
        assert OlderVersion(k'.log, id, |s.k.log| - 1);
      }
    }
  }

  lemma AppendKeepsLogged(s: Store, s': Store, e: Entry)
    requires Inv(s) && e.id == s.next && s'.next == s.next + 1 && s'.k.log == s.k.log + [e]
    requires s'.k.archive == Archived(s.k).archive
    requires e.marker ==> s'.k.live == None && s'.written == s.written
    requires !e.marker ==> exists data :: s'.k.live == Some(Object(e.id, data)) && s'.written == s.written[e.id := data]
    ensures Logged(s')
  {
    forall i | 0 <= i < |s'.k.log| ensures s'.k.log[i].id < s'.next && Backed(s', i) {
      if i < |s.k.log| {
        assert Backed(s, i);
      }
    }
  }

  lemma PutKeepsInv(s: Store, data: Bytes, mode: LockMode, until: nat, hold: bool, now: nat)
    requires Inv(s)
    ensures Inv(Next(s, Put(data, mode, until, hold), now))
  {
    var s', e := Next(s, Put(data, mode, until, hold), now), Entry(s.next, false, mode, until, hold);
    AppendKeepsLogged(s, s', e);
    AppendKeepsNoStrays(s, s'.k, e);
  }

  lemma DeleteKeepsInv(s: Store, now: nat)
    requires Inv(s)
    ensures Inv(Next(s, Delete, now))
  {
    var s', e := Next(s, Delete, now), Entry(s.next, true, Unlocked, 0, false);
    AppendKeepsLogged(s, s', e);
    AppendKeepsNoStrays(s, s'.k, e);
  }

  /** Where the entries of the log go when entry i is removed. */
  lemma RemovedLog(log: seq<Entry>, i: nat)
    requires i < |log|
    ensures |RemoveAt(log, i)| == |log| - 1
    ensures forall j :: 0 <= j < |log| - 1 ==> RemoveAt(log, i)[j] == log[if j < i then j else j + 1]
  {
  }

  predicate Deletes(k: Key, id: nat, now: nat, bypass: bool) {
    FindId(k.log, id) >= 0 && !k.log[FindId(k.log, id)].Blocks(now, bypass)
  }

  lemma RemovalLog(s: Store, id: nat, bypass: bool, now: nat)
    requires Deletes(s.k, id, now, bypass)
    ensures var s' := Next(s, DeleteVersion(id, bypass), now);
            s'.k.log == RemoveAt(s.k.log, FindId(s.k.log, id)) && s'.next == s.next && s'.written == s.written
  {
  }

  /** An older version goes: everything else stays where it is. */
  lemma RemoveOlder(s: Store, id: nat, bypass: bool, now: nat)
    requires Inv(s) && Deletes(s.k, id, now, bypass) && FindId(s.k.log, id) < |s.k.log| - 1
    ensures Next(s, DeleteVersion(id, bypass), now).k.live == s.k.live
    ensures Next(s, DeleteVersion(id, bypass), now).k.archive == s.k.archive - {id}
  {
    assert Backed(s, |s.k.log| - 1);
  }

  /** The newest version goes: the one beneath it, if it is a real version, moves from the archive
      to the live slot. */
  lemma RemoveNewest(s: Store, id: nat, bypass: bool, now: nat)
    requires Inv(s) && Deletes(s.k, id, now, bypass) && FindId(s.k.log, id) == |s.k.log| - 1
    ensures var k', n := Next(s, DeleteVersion(id, bypass), now).k, |s.k.log|;
            if n > 1 && !s.k.log[n - 2].marker
            then s.k.log[n - 2].id in s.k.archive && k'.live == Some(s.k.archive[s.k.log[n - 2].id])
                 && k'.archive == s.k.archive - {s.k.log[n - 2].id}
            else k'.live == None && k'.archive == s.k.archive
  {
    var n := |s.k.log|;
    assert Backed(s, n - 1);
    assert forall j: nat :: !OlderVersion(s.k.log, id, j);
    if n > 1 {
      assert Backed(s, n - 2);
      assert RemoveAt(s.k.log, n - 1)[n - 2] == s.k.log[n - 2];
    }
  }

  lemma RemovalKeepsLogged(s: Store, id: nat, bypass: bool, now: nat)
    requires Inv(s) && Deletes(s.k, id, now, bypass)
    ensures Logged(Next(s, DeleteVersion(id, bypass), now))
    ensures Next(s, DeleteVersion(id, bypass), now).k.log == RemoveAt(s.k.log, FindId(s.k.log, id))
  {
    var s', i, n := Next(s, DeleteVersion(id, bypass), now), FindId(s.k.log, id), |s.k.log|;
    RemovedLog(s.k.log, i);
    RemovalLog(s, id, bypass, now);
    if i < n - 1 {
      RemoveOlder(s, id, bypass, now);
    } else {
      RemoveNewest(s, id, bypass, now);
    }
    forall j | 0 <= j < |s'.k.log| ensures s'.k.log[j].id < s'.next && Backed(s', j) {
      assert Backed(s, if j < i then j else j + 1);
    }
  }

  lemma RemovalKeepsNoStrays(s: Store, id: nat, bypass: bool, now: nat)
    requires Inv(s) && Deletes(s.k, id, now, bypass)
    ensures NoStrays(Next(s, DeleteVersion(id, bypass), now).k)
  {
    var k', i, n := Next(s, DeleteVersion(id, bypass), now).k, FindId(s.k.log, id), |s.k.log|;
    RemovedLog(s.k.log, i);
    RemovalKeepsLogged(s, id, bypass, now);
    if i < n - 1 {
      RemoveOlder(s, id, bypass, now);
    } else {
      RemoveNewest(s, id, bypass, now);
    }
    forall x | x in k'.archive ensures exists j :: OlderVersion(k'.log, x, j) {
      var j: nat :| OlderVersion(s.k.log, x, j);
      assert Backed(s, j);
      assert x != id && k'.log[if j < i then j else j - 1] == s.k.log[j];
      assert i != n - 1 || j != n - 2;
      assert OlderVersion(k'.log, x, if j < i then j else j - 1);
    }
  }

  lemma RelabelKeepsInv(s: Store, i: nat, e: Entry)
    requires Inv(s) && i < |s.k.log| && e.id == s.k.log[i].id && e.marker == s.k.log[i].marker
    ensures Inv(s.(k := s.k.(log := s.k.log[i := e])))
  {
    var s' := s.(k := s.k.(log := s.k.log[i := e]));
    forall j | 0 <= j < |s'.k.log|
      ensures s'.k.log[j].id == s.k.log[j].id && s'.k.log[j].marker == s.k.log[j].marker
      ensures s'.k.log[j].id < s'.next && Backed(s', j)
    {
      assert Backed(s, j);
    }
    forall id | id in s'.k.archive ensures exists j :: OlderVersion(s'.k.log, id, j) {
      var j: nat :| OlderVersion(s.k.log, id, j);
      assert OlderVersion(s'.k.log, id, j);
    }
  }

  lemma StepKeepsInv(s: Store, op: Op, now: nat)
    requires Inv(s)
    ensures Inv(Next(s, op, now))
  {
    match op
    case Put(data, mode, until, hold) => PutKeepsInv(s, data, mode, until, hold, now);
    case Delete => DeleteKeepsInv(s, now);
    case DeleteVersion(id, bypass) =>
      if Deletes(s.k, id, now, bypass) {
        RemovalKeepsLogged(s, id, bypass, now);
        RemovalKeepsNoStrays(s, id, bypass, now);
      }
    case Retain(target, mode, until, bypass) =>
      var i := Target(s.k.log, target);
      if AfterRetention(s.k, target, mode, until, now, bypass).1.Done? {
        RelabelKeepsInv(s, i, s.k.log[i].(mode := mode, until := until));
      }
    case LegalHold(target, on) =>
      var i := Target(s.k.log, target);
      if AfterHold(s.k, target, on).1.Done? {
        RelabelKeepsInv(s, i, s.k.log[i].(hold := on));
      }
  }

  lemma {:induction false} RunKeepsInv(s: Store, ops: seq<Timed>)
    requires Inv(s)
    ensures Inv(RunFrom(s, ops))
  {
    if ops != [] {
      RunKeepsInv(s, ops[..|ops| - 1]);
      StepKeepsInv(RunFrom(s, ops[..|ops| - 1]), ops[|ops| - 1].op, ops[|ops| - 1].now);
    }
  }

  // ----- the store is a list of versions

  /** What a client sees: versions oldest first, each with its bytes, or None for a delete marker. */
  datatype Version = Version(id: nat, data: Option<Bytes>)

  function Seen(k: Key, e: Entry): Version {
    Version(e.id, if e.marker || Get(k, e.id).None? then None else Some(Get(k, e.id).value.data))
  }

  function History(k: Key): (h: seq<Version>)
    ensures |h| == |k.log|
    ensures forall i :: 0 <= i < |h| ==> h[i] == Seen(k, k.log[i])
  {
    seq(|k.log|, i requires 0 <= i < |k.log| => Seen(k, k.log[i]))
  }

  /** The list a list of versions would be after the operation; `refused` says the lock said no. */
  function ListAfter(h: seq<Version>, op: Op, newId: nat, at: int, refused: bool): seq<Version>
    requires at < |h|
  {
    match op
    case Put(data, _, _, _) => h + [Version(newId, Some(data))]
    case Delete => h + [Version(newId, None)]
    case DeleteVersion(_, _) => if at < 0 || refused then h else RemoveAt(h, at)
    case Retain(_, _, _, _) => h
    case LegalHold(_, _) => h
  }

  /** Every logged version is exactly what its put wrote, and nothing else is stored. */
  lemma ReadsBack(s: Store, id: nat)
    requires Inv(s)
    ensures forall i :: 0 <= i < |s.k.log| && s.k.log[i].id == id && !s.k.log[i].marker ==>
              id in s.written && Get(s.k, id) == Some(Object(id, s.written[id]))
    ensures (forall i :: 0 <= i < |s.k.log| && s.k.log[i].id == id ==> s.k.log[i].marker) ==> Get(s.k, id) == None
  {
    if s.k.live.Some? {
      assert Backed(s, |s.k.log| - 1);
    }
    forall i | 0 <= i < |s.k.log| && s.k.log[i].id == id && !s.k.log[i].marker
      ensures id in s.written && Get(s.k, id) == Some(Object(id, s.written[id]))
    {
      assert Backed(s, i);
    }
  }

  lemma SeenIs(s: Store, i: nat)
    requires Inv(s) && i < |s.k.log|
    ensures !s.k.log[i].marker ==> s.k.log[i].id in s.written
    ensures Seen(s.k, s.k.log[i]) ==
              Version(s.k.log[i].id, if s.k.log[i].marker then None else Some(s.written[s.k.log[i].id]))
  {
    ReadsBack(s, s.k.log[i].id);
  }

  /** The history, entry by entry, in terms of what was written. */
  ghost predicate HistoryIs(h: seq<Version>, log: seq<Entry>, written: map<nat, Bytes>) {
    && |h| == |log|
    && forall i :: 0 <= i < |h| ==>
         (!log[i].marker ==> log[i].id in written) &&
         h[i] == Version(log[i].id, if log[i].marker then None else Some(written[log[i].id]))
  }

  lemma HistoryWritten(s: Store)
    requires Inv(s)
    ensures HistoryIs(History(s.k), s.k.log, s.written)
  {
    forall i | 0 <= i < |s.k.log|
      ensures (!s.k.log[i].marker ==> s.k.log[i].id in s.written) && History(s.k)[i] ==
                Version(s.k.log[i].id, if s.k.log[i].marker then None else Some(s.written[s.k.log[i].id]))
    {
      SeenIs(s, i);
    }
  }

  lemma RefinesRemoval(s: Store, id: nat, bypass: bool, now: nat)
    requires Inv(s) && Deletes(s.k, id, now, bypass)
    ensures History(Next(s, DeleteVersion(id, bypass), now).k) == RemoveAt(History(s.k), FindId(s.k.log, id))
  {
    var s', at := Next(s, DeleteVersion(id, bypass), now), FindId(s.k.log, id);
    StepKeepsInv(s, DeleteVersion(id, bypass), now);
    RemovalKeepsLogged(s, id, bypass, now);
    HistoryWritten(s);
    HistoryWritten(s');
    RemovedLog(s.k.log, at);
  }

  lemma RefinesAppend(s: Store, op: Op, now: nat)
    requires Inv(s) && (op.Put? || op.Delete?)
    ensures History(Next(s, op, now).k) == History(s.k) + [Version(s.next, if op.Put? then Some(op.data) else None)]
  {
    StepKeepsInv(s, op, now);
    HistoryWritten(s);
    HistoryWritten(Next(s, op, now));
    forall i | 0 <= i < |s.k.log| && !s.k.log[i].marker ensures s.k.log[i].id != s.next {
      assert s.k.log[i].id < s.next;
    }
  }

  lemma RefinesRelabel(s: Store, op: Op, now: nat)
    requires Inv(s) && (op.Retain? || op.LegalHold?)
    ensures History(Next(s, op, now).k) == History(s.k)
  {
    StepKeepsInv(s, op, now);
    HistoryWritten(s);
    HistoryWritten(Next(s, op, now));
  }

  /** Refinement: in every reachable store each operation does to the visible history exactly what
      it does to a plain list: put and delete append, deleting a version removes it unless a lock
      refuses, nothing else changes it. */
  lemma RefinesList(s: Store, op: Op, now: nat)
    requires Inv(s)
    ensures History(Next(s, op, now).k) ==
      ListAfter(History(s.k), op, s.next, if op.DeleteVersion? then FindId(s.k.log, op.id) else -1,
                op.DeleteVersion? && !Deletes(s.k, op.id, now, op.bypass))
  {
    match op
    case Put(_, _, _, _) => RefinesAppend(s, op, now);
    case Delete => RefinesAppend(s, op, now);
    case DeleteVersion(id, bypass) =>
      if Deletes(s.k, id, now, bypass) {
        RefinesRemoval(s, id, bypass, now);
      }
    case Retain(_, _, _, _) => RefinesRelabel(s, op, now);
    case LegalHold(_, _) => RefinesRelabel(s, op, now);
  }

  /** There is a live object exactly when the newest entry is not a delete marker, and it is that
      entry's version. */
  lemma LiveIsNewest(s: Store)
    requires Inv(s)
    ensures s.k.live.Some? <==> s.k.log != [] && !s.k.log[|s.k.log| - 1].marker
    ensures s.k.live.Some? ==> var id := s.k.log[|s.k.log| - 1].id;
              id in s.written && s.k.live == Some(Object(id, s.written[id]))
  {
    if s.k.log != [] {
      assert Backed(s, |s.k.log| - 1);
    }
  }

  /** Deleting the newest version, marker or not, re-exposes the one beneath it. */
  lemma DeleteNewestExposes(s: Store, now: nat, bypass: bool)
    requires Inv(s) && s.k.log != [] && !s.k.log[|s.k.log| - 1].Blocks(now, bypass)
    ensures var n := |s.k.log|;
            var s' := Next(s, DeleteVersion(s.k.log[n - 1].id, bypass), now);
            && s'.k.log == s.k.log[..n - 1]
            && (n == 1 || s.k.log[n - 2].marker ==> s'.k.live == None)
            && (n > 1 && !s.k.log[n - 2].marker ==>
                  s.k.log[n - 2].id in s.written &&
                  s'.k.live == Some(Object(s.k.log[n - 2].id, s.written[s.k.log[n - 2].id])))
  {
    var n := |s.k.log|;
    var op := DeleteVersion(s.k.log[n - 1].id, bypass);
    StepKeepsInv(s, op, now);
    assert FindId(s.k.log, s.k.log[n - 1].id) == n - 1;
    assert RemoveAt(s.k.log, n - 1) == s.k.log[..n - 1];
    LiveIsNewest(Next(s, op, now));
  }

  // ----- write once, read many

  /** Version id is there, in one of the modes, retained to at least t. */
  predicate Retained(k: Key, id: nat, t: nat, governance: bool) {
    var i := FindId(k.log, id);
    i >= 0 && k.log[i].until >= t && (k.log[i].mode.Compliance? || (governance && k.log[i].mode.Governance?))
  }

  predicate Bypasses(op: Op) {
    (op.DeleteVersion? || op.Retain?) && op.bypass
  }

  lemma FoundAt(log: seq<Entry>, i: nat)
    requires i < |log| && forall a, b :: 0 <= a < b < |log| ==> log[a].id != log[b].id
    ensures FindId(log, log[i].id) == i
  {
  }

  lemma RemovalKeepsRetained(s: Store, dead: nat, bypass: bool, now: nat, id: nat, t: nat, governance: bool)
    requires Inv(s) && Retained(s.k, id, t, governance) && now < t && (governance ==> !bypass)
    requires Deletes(s.k, dead, now, bypass)
    ensures Retained(Next(s, DeleteVersion(dead, bypass), now).k, id, t, governance)
  {
    var k', i, at := Next(s, DeleteVersion(dead, bypass), now).k, FindId(s.k.log, id), FindId(s.k.log, dead);
    RemovalKeepsLogged(s, dead, bypass, now);
    RemovedLog(s.k.log, at);
    FoundAt(k'.log, if i < at then i else i - 1);
  }

  lemma RelabelKeepsRetained(s: Store, op: Op, now: nat, id: nat, t: nat, governance: bool)
    requires Inv(s) && Retained(s.k, id, t, governance) && now < t && (governance ==> !Bypasses(op))
    requires op.Retain? || op.LegalHold?
    ensures Retained(Next(s, op, now).k, id, t, governance)
  {
    StepKeepsInv(s, op, now);
    FoundAt(Next(s, op, now).k.log, FindId(s.k.log, id));
  }

  lemma AppendKeepsRetained(s: Store, op: Op, now: nat, id: nat, t: nat, governance: bool)
    requires Inv(s) && Retained(s.k, id, t, governance) && (op.Put? || op.Delete?)
    ensures Retained(Next(s, op, now).k, id, t, governance)
  {
    StepKeepsInv(s, op, now);
    FoundAt(Next(s, op, now).k.log, FindId(s.k.log, id));
  }

  /** No single operation before t weakens a retention that runs to t. */
  lemma StepKeepsRetained(s: Store, op: Op, now: nat, id: nat, t: nat, governance: bool)
    requires Inv(s) && Retained(s.k, id, t, governance) && now < t
    requires governance ==> !Bypasses(op)
    ensures Retained(Next(s, op, now).k, id, t, governance)
  {
    match op
    case Put(_, _, _, _) => AppendKeepsRetained(s, op, now, id, t, governance);
    case Delete => AppendKeepsRetained(s, op, now, id, t, governance);
    case DeleteVersion(dead, bypass) =>
      if Deletes(s.k, dead, now, bypass) {
        RemovalKeepsRetained(s, dead, bypass, now, id, t, governance);
      }
    case Retain(_, _, _, _) => RelabelKeepsRetained(s, op, now, id, t, governance);
    case LegalHold(_, _) => RelabelKeepsRetained(s, op, now, id, t, governance);
  }

  /** Write once, read many: once a version carries COMPLIANCE retention to t, whatever puts, deletes,
      version deletes with or without bypass, retention and legal-hold changes follow before t leave
      it there, readable with the same bytes, in COMPLIANCE mode and retained to at least t. With
      `governance`, the same for GOVERNANCE or stronger in runs without bypass. */
  lemma {:induction false} Worm(s: Store, ops: seq<Timed>, id: nat, t: nat, governance: bool)
    requires Inv(s) && Retained(s.k, id, t, governance)
    requires forall x :: 0 <= x < |ops| ==> ops[x].now < t && (governance ==> !Bypasses(ops[x].op))
    ensures Retained(RunFrom(s, ops).k, id, t, governance)
    ensures Get(s.k, id).Some? ==> Get(RunFrom(s, ops).k, id) == Get(s.k, id)
  {
    if ops != [] {
      var before := ops[..|ops| - 1];
      Worm(s, before, id, t, governance);
      var mid, last := RunFrom(s, before), ops[|ops| - 1];
      RunKeepsInv(s, before);
      StepKeepsRetained(mid, last.op, last.now, id, t, governance);
      if Get(s.k, id).Some? {
        StepKeepsBytes(mid, last.op, last.now, id);
      }
    }
  }

  /** What is written under an id never changes. */
  lemma WrittenStays(s: Store, op: Op, now: nat, id: nat)
    requires Inv(s) && id in s.written
    ensures id in Next(s, op, now).written && Next(s, op, now).written[id] == s.written[id]
  {
  }

  /** A version that stays in the log keeps its bytes. */
  lemma StepKeepsBytes(s: Store, op: Op, now: nat, id: nat)
    requires Inv(s) && Get(s.k, id).Some? && FindId(Next(s, op, now).k.log, id) >= 0
    ensures Get(Next(s, op, now).k, id) == Get(s.k, id)
  {
    var s' := Next(s, op, now);
    StepKeepsInv(s, op, now);
    ReadsBack(s, id);
    ReadsBack(s', id);
    var i :| 0 <= i < |s.k.log| && s.k.log[i].id == id && !s.k.log[i].marker;
    assert Backed(s, i) && Backed(s', FindId(s'.k.log, id));
    WrittenStays(s, op, now, id);
  }

  /** While it lasts the version can not be deleted. */
  lemma RetainedIsUndeletable(s: Store, id: nat, t: nat, governance: bool, now: nat, bypass: bool)
    requires Retained(s.k, id, t, governance) && now < t && (governance ==> !bypass)
    ensures AfterDeleteVersion(s.k, id, now, bypass) == (s.k, Locked)
  {
  }

  /** An accepted COMPLIANCE retention is one that the law above protects. */
  lemma RetentionTakes(s: Store, id: nat, until: nat, now: nat, bypass: bool)
    requires Inv(s) && AfterRetention(s.k, Some(id), Compliance, until, now, bypass).1.Done?
    ensures Retained(AfterRetention(s.k, Some(id), Compliance, until, now, bypass).0, id, until, false)
  {
    RetentionOutcome(s.k, Some(id), Compliance, until, now, bypass);
    var k' := AfterRetention(s.k, Some(id), Compliance, until, now, bypass).0;
    var i :| Targets(s.k.log, Some(id), i) && k' == s.k.(log := s.k.log[i := s.k.log[i].(mode := Compliance, until := until)]);
    FoundAt(k'.log, i);
  }

  // ----- legal hold

  /** Version id is there and under a legal hold. */
  predicate Held(k: Key, id: nat) {
    exists i :: 0 <= i < |k.log| && k.log[i].id == id && k.log[i].hold
  }

  /** The operation takes the legal hold off version id. */
  ghost predicate LiftsHold(k: Key, op: Op, id: nat) {
    op.LegalHold? && !op.on && exists i :: Targets(k.log, op.target, i) && k.log[i].id == id
  }

  lemma RemovalKeepsHeld(s: Store, dead: nat, bypass: bool, now: nat, id: nat)
    requires Inv(s) && Held(s.k, id) && Deletes(s.k, dead, now, bypass)
    ensures Held(Next(s, DeleteVersion(dead, bypass), now).k, id)
  {
    var i :| 0 <= i < |s.k.log| && s.k.log[i].id == id && s.k.log[i].hold;
    var k', at := Next(s, DeleteVersion(dead, bypass), now).k, FindId(s.k.log, dead);
    RemovalKeepsLogged(s, dead, bypass, now);
    RemovedLog(s.k.log, at);
    DeleteOutcome(s.k, dead, now, bypass);
    assert k'.log[if i < at then i else i - 1] == s.k.log[i];
  }

  lemma StepKeepsHeld(s: Store, op: Op, now: nat, id: nat)
    requires Inv(s) && Held(s.k, id) && !LiftsHold(s.k, op, id)
    ensures Held(Next(s, op, now).k, id)
  {
    var i :| 0 <= i < |s.k.log| && s.k.log[i].id == id && s.k.log[i].hold;
    var k' := Next(s, op, now).k;
    match op
    case Put(_, _, _, _) => assert k'.log[i] == s.k.log[i];
    case Delete => assert k'.log[i] == s.k.log[i];
    case DeleteVersion(dead, bypass) =>
      if Deletes(s.k, dead, now, bypass) {
        RemovalKeepsHeld(s, dead, bypass, now, id);
      }
    case Retain(target, mode, until, bypass) =>
      RetentionOutcome(s.k, target, mode, until, now, bypass);
      assert k'.log[i].id == id && k'.log[i].hold;
    case LegalHold(target, on) =>
      HoldOutcome(s.k, target, on);
      assert k'.log[i].id == id && k'.log[i].hold;
  }

  /** Once a version is under a legal hold it stays, in every run that does not lift that hold, readable with
      its bytes and held, whatever is put, deleted, bypassed or retained in it and however late. */
  lemma {:induction false} HeldStays(s: Store, ops: seq<Timed>, id: nat)
    requires Inv(s) && Held(s.k, id)
    requires forall x :: 0 <= x < |ops| ==> !LiftsHold(RunFrom(s, ops[..x]).k, ops[x].op, id)
    ensures Held(RunFrom(s, ops).k, id)
    ensures Get(s.k, id).Some? ==> Get(RunFrom(s, ops).k, id) == Get(s.k, id)
  {
    if ops != [] {
      var n := |ops| - 1;
      var before := ops[..n];
      forall x | 0 <= x < n ensures !LiftsHold(RunFrom(s, before[..x]).k, before[x].op, id) {
        assert before[..x] == ops[..x];
      }
      HeldStays(s, before, id);
      RunKeepsInv(s, before);
      StepKeepsHeld(RunFrom(s, before), ops[n].op, ops[n].now, id);
      if Get(s.k, id).Some? {
        StepKeepsBytes(RunFrom(s, before), ops[n].op, ops[n].now, id);
      }
    }
  }

  /** While it lasts no version delete gets through, with or without bypass, at any time. */
  lemma HeldIsUndeletable(s: Store, id: nat, now: nat, bypass: bool)
    requires Inv(s) && Held(s.k, id)
    ensures AfterDeleteVersion(s.k, id, now, bypass) == (s.k, Locked)
  {
    var i :| 0 <= i < |s.k.log| && s.k.log[i].id == id && s.k.log[i].hold;
    DeleteOutcome(s.k, id, now, bypass);
    assert IsFirst(s.k.log, id, i);
  }

  /** A version that nothing protects is deleted and gone: its retention has ended, or is a GOVERNANCE one
      that the request bypasses, and there is no hold. */
  lemma UnlockedGoes(s: Store, id: nat, now: nat, bypass: bool, i: nat)
    requires Inv(s) && i < |s.k.log| && s.k.log[i].id == id && !s.k.log[i].hold
    requires s.k.log[i].mode == Unlocked || s.k.log[i].until <= now || (s.k.log[i].mode == Governance && bypass)
    ensures var (k', r) := AfterDeleteVersion(s.k, id, now, bypass);
            r == Done && FindId(k'.log, id) < 0 && Get(k', id) == None
  {
    DeleteOutcome(s.k, id, now, bypass);
    assert IsFirst(s.k.log, id, i);
    FoundAt(s.k.log, i);
    var s' := Next(s, DeleteVersion(id, bypass), now);
    StepKeepsInv(s, DeleteVersion(id, bypass), now);
    RemovalKeepsLogged(s, id, bypass, now);
    RemovedLog(s.k.log, i);
    ReadsBack(s', id);
  }
}
