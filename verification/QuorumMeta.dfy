/** Object metadata on a set of disks (internal/erasure/set.go, internal/erasure/xlmeta.go): every
    disk keeps a full copy of xl.meta, writes need more than half of the disks, reads take the
    version that at least half of the disks agree on. */
module QuorumMeta {
  import opened NodeSets
  import opened Options

  datatype PartMeta = PartMeta(number: nat, size: nat, etag: string)

  /** The fields that contentHash covers; the hash is ideal, so they are the version's identity. */
  datatype Identity = Identity(size: nat, modTime: int, etag: string, parts: seq<PartMeta>, inlined: seq<bv8>)

  datatype Meta = Meta(identity: Identity, revision: nat)

  /** One entry per disk: the xl.meta it holds, or nothing. */
  type Copies = seq<Option<Meta>>

  predicate Has(c: Option<Meta>, id: Identity) {
    c.Some? && c.value.identity == id
  }

  function Count(view: Copies, id: Identity): (n: nat)
    ensures n <= |view|
  {
    if view == [] then 0
    else Count(view[..|view| - 1], id) + if Has(view[|view| - 1], id) then 1 else 0
  }

  /** The copy that stands for a version: the one on the highest-numbered disk that has it. */
  function Sample(view: Copies, id: Identity): (m: Option<Meta>)
    ensures m.Some? <==> Count(view, id) > 0
    ensures m.Some? ==> m.value.identity == id && m in view
  {
    if view == [] then None
    else if Has(view[|view| - 1], id) then view[|view| - 1]
    else Sample(view[..|view| - 1], id)
  }

  predicate NotAbove(c0: nat, r0: nat, c1: nat, r1: nat) {
    c0 < c1 || (c0 == c1 && r0 <= r1)
  }

  /** m is a largest version by number of copies, then by revision. */
  ghost predicate Wins(view: Copies, m: Meta) {
    && Sample(view, m.identity) == Some(m)
    && forall id :: Count(view, id) > 0 ==>
         NotAbove(Count(view, id), Sample(view, id).value.revision, Count(view, m.identity), m.revision)
  }

  /** Tally the copies disk by disk, keeping the last copy seen of each version. */
  method Tally(metas: Copies) returns (tally: map<Identity, nat>, sample: map<Identity, Meta>, have: nat)
    ensures have == Present(metas)
    ensures tally.Keys == sample.Keys
    ensures forall id :: id in tally <==> Count(metas, id) > 0
    ensures forall id :: id in tally ==> tally[id] == Count(metas, id) && Some(sample[id]) == Sample(metas, id)
  {
    tally, sample, have := map[], map[], 0;
    for i := 0 to |metas|
      invariant have == Present(metas[..i])
      invariant tally.Keys == sample.Keys
      invariant forall id :: id in tally <==> Count(metas[..i], id) > 0
      invariant forall id :: id in tally ==> tally[id] == Count(metas[..i], id) && Some(sample[id]) == Sample(metas[..i], id)
    {
      assert metas[..i + 1][..i] == metas[..i];
      if metas[i].Some? {
        var m := metas[i].value;
        have := have + 1;
        tally := tally[m.identity := (if m.identity in tally then tally[m.identity] else 0) + 1];
        sample := sample[m.identity := m];
      }
    }
    assert metas[..|metas|] == metas;
  }

  /** Pick the best tallied version. The versions come in any order, as a map yields them. */
  method Pick(tally: map<Identity, nat>, sample: map<Identity, Meta>) returns (winner: Option<Identity>, bestN: nat)
    requires tally.Keys == sample.Keys
    requires forall id :: id in tally ==> tally[id] > 0
    ensures winner.None? <==> tally == map[]
    ensures winner.None? ==> bestN == 0
    ensures winner.Some? ==> winner.value in tally && bestN == tally[winner.value]
    ensures winner.Some? ==> forall id :: id in tally ==>
              NotAbove(tally[id], sample[id].revision, bestN, sample[winner.value].revision)
  {
    winner, bestN := None, 0;
    var todo := tally.Keys;
    while todo != {}
      invariant todo <= tally.Keys
      invariant winner.None? ==> bestN == 0 && todo == tally.Keys
      invariant winner.Some? ==> winner.value in tally && winner.value !in todo && bestN == tally[winner.value]
      invariant winner.Some? ==> forall id :: id in tally && id !in todo ==>
                  NotAbove(tally[id], sample[id].revision, bestN, sample[winner.value].revision)
      decreases |todo|
    {
      var h :| h in todo;
      todo := todo - {h};
      var c := tally[h];
      if c > bestN {
        winner, bestN := Some(h), c;
      } else if c == bestN && winner.Some? && sample[h].revision > sample[winner.value].revision {
        winner := Some(h);
      }
    }
  }

  /** The majority decision: the winning version, its number of copies, and how many disks answered. */
  method Decide(metas: Copies) returns (winner: Option<Meta>, bestN: nat, have: nat)
    ensures have == Present(metas)
    ensures winner.None? <==> have == 0
    ensures winner.None? ==> bestN == 0
    ensures winner.Some? ==> Wins(metas, winner.value) && bestN == Count(metas, winner.value.identity)
  {
    var tally, sample;
    tally, sample, have := Tally(metas);
    var best;
    best, bestN := Pick(tally, sample);
    if best.Some? {
      winner := Some(sample[best.value]);
      CountOnlyPresent(metas, best.value);
    } else {
      winner := None;
      if have > 0 {
        var i :| 0 <= i < |metas| && metas[i].Some?;
        CountPositive(metas, i);
        assert false;
      }
    }
  }

  lemma {:induction false} CountPositive(view: Copies, i: nat)
    requires i < |view| && view[i].Some?
    ensures Count(view, view[i].value.identity) > 0
  {
    if i < |view| - 1 {
      CountPositive(view[..|view| - 1], i);
    }
  }

  lemma {:induction false} CountOnlyPresent(view: Copies, id: Identity)
    ensures Count(view, id) <= Present(view)
  {
    if view != [] {
      CountOnlyPresent(view[..|view| - 1], id);
    }
  }

  /** The decision does not depend on the order: two winners tie in copies and in revision, so
      versions that differ in either leave exactly one winner. */
  lemma WinnersTie(view: Copies, m: Meta, m': Meta)
    requires Wins(view, m) && Wins(view, m')
    ensures Count(view, m.identity) == Count(view, m'.identity) && m.revision == m'.revision
    ensures m.identity == m'.identity ==> m == m'
  {
    assert Count(view, m.identity) > 0 && Count(view, m'.identity) > 0;
  }

  // ----- reading

  datatype ReadResult = Found(meta: Meta) | NotFound | Corrupt

  function ReadQuorum(n: nat): nat {
    n / 2
  }

  function WriteQuorum(n: nat): nat {
    n / 2 + 1
  }

  /** What the reader sees of the first `upto` disks when only some answer. */
  function View(disks: Copies, answers: set<nat>, upto: nat): (v: Copies)
    ensures |v| == |disks|
    ensures forall i :: 0 <= i < |disks| ==> v[i] == if i < upto && i in answers then disks[i] else None
  {
    seq(|disks|, i requires 0 <= i < |disks| => if i < upto && i in answers then disks[i] else None)
  }

  ghost predicate Decisive(view: Copies, q: nat) {
    exists m :: Wins(view, m) && Count(view, m.identity) >= q
  }

  /** The results a read may give: a first decision over a read quorum of disks, then, if those do
      not agree, one over all of them. */
  ghost predicate CanRead(disks: Copies, answers: set<nat>, r: ReadResult) {
    var q := ReadQuorum(|disks|);
    var v1, v2 := View(disks, answers, q), View(disks, answers, |disks|);
    if Decisive(v1, q) then r.Found? && Wins(v1, r.meta)
    else if Decisive(v2, q) then r.Found? && Wins(v2, r.meta)
    else r == if Present(v2) == 0 then NotFound else Corrupt
  }

  lemma WinnerDecides(view: Copies, m: Meta, q: nat)
    requires Wins(view, m)
    ensures Decisive(view, q) <==> Count(view, m.identity) >= q
  {
    if Decisive(view, q) {
      var m' :| Wins(view, m') && Count(view, m'.identity) >= q;
      WinnersTie(view, m, m');
    }
  }

  method ReadMeta(disks: Copies, answers: set<nat>) returns (r: ReadResult)
    requires |disks| >= 2
    ensures CanRead(disks, answers, r)
    ensures r.NotFound? <==> forall i :: 0 <= i < |disks| && i in answers ==> disks[i].None?
    ensures r.Corrupt? <==>
              (exists i :: 0 <= i < |disks| && i in answers && disks[i].Some?) &&
              (forall id :: |Holders(disks, id) * answers| < |disks| / 2)
    ensures r.Found? ==> |Holders(disks, r.meta.identity) * answers| >= |disks| / 2
  {
    r := ReadTwice(disks, answers);
    ReadTells(disks, answers, r);
  }

  /** One decision over a read quorum of disks and, if they do not agree, one over all. */
  method ReadTwice(disks: Copies, answers: set<nat>) returns (r: ReadResult)
    requires |disks| >= 2
    ensures CanRead(disks, answers, r)
  {
    var n := |disks|;
    var q := ReadQuorum(n);
    var metas: Copies := seq(n, _ => None);
    for i := 0 to q
      invariant |metas| == n
      invariant forall k :: 0 <= k < n ==> metas[k] == if k < i && k in answers then disks[k] else None
    {
      if i in answers {
        metas := metas[i := disks[i]];
      }
    }
    assert metas == View(disks, answers, q);
    var m, bestN, have := Decide(metas);
    ghost var v1 := metas;
    if m.Some? {
      WinnerDecides(v1, m.value, q);
    } else {
      NoWinner(v1);
    }
    if bestN >= q {
      return Found(m.value);
    }
    for i := q to n
      invariant |metas| == n
      invariant forall k :: 0 <= k < n ==> metas[k] == if k < i && k in answers then disks[k] else None
    {
      if i in answers {
        metas := metas[i := disks[i]];
      }
    }
    assert metas == View(disks, answers, n);
    m, bestN, have := Decide(metas);
    if m.Some? {
      WinnerDecides(metas, m.value, q);
    } else {
      NoWinner(metas);
    }
    if bestN >= q {
      return Found(m.value);
    }
    r := if have == 0 then NotFound else Corrupt;
  }

  lemma NoWinner(view: Copies)
    requires Present(view) == 0
    ensures forall m :: !Wins(view, m)
  {
    forall m ensures !Wins(view, m) {
      CountOnlyPresent(view, m.identity);
    }
  }

  // ----- counting copies

  lemma {:induction false} CountMonotone(small: Copies, big: Copies, id: Identity)
    requires |small| == |big|
    requires forall i :: 0 <= i < |small| && Has(small[i], id) ==> Has(big[i], id)
    ensures Count(small, id) <= Count(big, id)
  {
    if small != [] {
      CountMonotone(small[..|small| - 1], big[..|big| - 1], id);
    }
  }

  /** A disk holds one version at a time. */
  lemma {:induction false} CountsShareDisks(view: Copies, a: Identity, b: Identity)
    requires a != b
    ensures Count(view, a) + Count(view, b) <= |view|
  {
    if view != [] {
      CountsShareDisks(view[..|view| - 1], a, b);
    }
  }

  lemma {:induction false} CountAtLeast(view: Copies, id: Identity, at: set<nat>)
    requires forall i: nat :: i in at ==> i < |view| && Has(view[i], id)
    ensures Count(view, id) >= |at|
  {
    if view == [] {
      assert at == {};
    } else {
      var last: nat := |view| - 1;
      CountAtLeast(view[..last], id, at - {last});
    }
  }

  lemma {:induction false} CountOutside(view: Copies, id: Identity, free: set<nat>)
    requires forall i: nat :: i in free ==> i < |view| && !Has(view[i], id)
    ensures Count(view, id) + |free| <= |view|
  {
    if view == [] {
      assert free == {};
    } else {
      var last: nat := |view| - 1;
      CountOutside(view[..last], id, free - {last});
    }
  }

  /** The disks whose entry of the view has this version. */
  function Holders(view: Copies, id: Identity): (h: set<nat>)
    ensures forall i: nat :: i in h <==> i < |view| && Has(view[i], id)
  {
    set i: nat | i in Nodes(|view|) && Has(view[i], id)
  }

  lemma CountHolders(view: Copies, id: Identity)
    ensures Count(view, id) == |Holders(view, id)|
  {
    var n := |view|;
    CountAtLeast(view, id, Holders(view, id));
    CountOutside(view, id, Nodes(n) - Holders(view, id));
    NodeCount(n);
    assert |Nodes(n) - Holders(view, id)| == n - |Holders(view, id)|;
  }

  // ----- what a read tells, disk by disk

  /** Among the versions of the first n disks there is a best one. */
  lemma {:induction false} BestOf(view: Copies, n: nat) returns (m: Meta)
    requires n <= |view| && exists i :: 0 <= i < n && view[i].Some?
    ensures Sample(view, m.identity) == Some(m)
    ensures forall j :: 0 <= j < n && view[j].Some? ==>
              var id := view[j].value.identity;
              Count(view, id) > 0 &&
              NotAbove(Count(view, id), Sample(view, id).value.revision, Count(view, m.identity), m.revision)
  {
    var last := view[n - 1];
    if exists i :: 0 <= i < n - 1 && view[i].Some? {
      m := BestOf(view, n - 1);
    } else {
      CountPositive(view, n - 1);
      m := Sample(view, last.value.identity).value;
    }
    if last.Some? {
      CountPositive(view, n - 1);
      var id := last.value.identity;
      var c := Sample(view, id).value;
      if !NotAbove(Count(view, id), c.revision, Count(view, m.identity), m.revision) {
        m := c;
      }
    }
  }

  lemma WinnerExists(view: Copies) returns (m: Meta)
    requires exists i :: 0 <= i < |view| && view[i].Some?
    ensures Wins(view, m)
  {
    m := BestOf(view, |view|);
    forall id | Count(view, id) > 0
      ensures NotAbove(Count(view, id), Sample(view, id).value.revision, Count(view, m.identity), m.revision)
    {
      var i :| 0 <= i < |view| && view[i] == Sample(view, id);
    }
  }

  lemma AnswersCount(disks: Copies, answers: set<nat>, id: Identity)
    ensures Count(View(disks, answers, |disks|), id) == |Holders(disks, id) * answers|
  {
    var v := View(disks, answers, |disks|);
    CountHolders(v, id);
    assert Holders(v, id) == Holders(disks, id) * answers;
  }

  /** No answering disk has a copy. */
  predicate NobodyHas(disks: Copies, answers: set<nat>) {
    forall i :: 0 <= i < |disks| && i in answers ==> disks[i].None?
  }

  lemma NobodySeen(disks: Copies, answers: set<nat>)
    ensures Present(View(disks, answers, |disks|)) == 0 <==> NobodyHas(disks, answers)
  {
    var v := View(disks, answers, |disks|);
    if i :| 0 <= i < |disks| && i in answers && disks[i].Some? {
      assert v[i].Some?;
    }
  }

  lemma ViewAgrees(disks: Copies, answers: set<nat>, q: nat)
    requires q > 0 && !NobodyHas(disks, answers)
    ensures Decisive(View(disks, answers, |disks|), q) <==> exists id :: |Holders(disks, id) * answers| >= q
  {
    var v := View(disks, answers, |disks|);
    var i :| 0 <= i < |disks| && i in answers && disks[i].Some?;
    assert v[i].Some?;
    var m := WinnerExists(v);
    WinnerDecides(v, m, q);
    AnswersCount(disks, answers, m.identity);
    forall id | |Holders(disks, id) * answers| >= q ensures Decisive(v, q) {
      AnswersCount(disks, answers, id);
    }
  }

  /** The first read over a read quorum finds nothing that the second would not find too. */
  lemma FirstIsEnough(disks: Copies, answers: set<nat>, q: nat)
    requires q > 0 && Decisive(View(disks, answers, q), q) && q <= |disks|
    ensures exists id :: |Holders(disks, id) * answers| >= q
  {
    var m :| Wins(View(disks, answers, q), m) && Count(View(disks, answers, q), m.identity) >= q;
    CountMonotone(View(disks, answers, q), View(disks, answers, |disks|), m.identity);
    AnswersCount(disks, answers, m.identity);
  }

  /** What a read tells: "not found" when no answering disk has a copy, "corrupt" when some have but no
      version is on half of the disks, and otherwise a version that is. */
  lemma ReadTells(disks: Copies, answers: set<nat>, r: ReadResult)
    requires |disks| >= 2 && CanRead(disks, answers, r)
    ensures r.NotFound? <==> forall i :: 0 <= i < |disks| && i in answers ==> disks[i].None?
    ensures r.Corrupt? <==>
              (exists i :: 0 <= i < |disks| && i in answers && disks[i].Some?) &&
              (forall id :: |Holders(disks, id) * answers| < |disks| / 2)
    ensures r.Found? ==> |Holders(disks, r.meta.identity) * answers| >= |disks| / 2
  {
    var q := ReadQuorum(|disks|);
    NobodySeen(disks, answers);
    if NobodyHas(disks, answers) {
      NoWinner(View(disks, answers, q));
      NoWinner(View(disks, answers, |disks|));
    } else {
      ViewAgrees(disks, answers, q);
      if Decisive(View(disks, answers, q), q) {
        FirstIsEnough(disks, answers, q);
      }
      if r.Found? {
        FoundAnswers(disks, answers, r.meta);
      }
    }
  }

  lemma FoundAnswers(disks: Copies, answers: set<nat>, m: Meta)
    requires CanRead(disks, answers, Found(m))
    ensures |Holders(disks, m.identity) * answers| >= ReadQuorum(|disks|)
  {
    var q := ReadQuorum(|disks|);
    var v := if Decisive(View(disks, answers, q), q) then View(disks, answers, q) else View(disks, answers, |disks|);
    WinnerDecides(v, m, q);
    CountMonotone(v, View(disks, answers, |disks|), m.identity);
    AnswersCount(disks, answers, m.identity);
  }

  // ----- runs of commits and deletes that reach some of the disks

  /** `issued` lists the versions of all commits so far, oldest first; the versions below `floor`
      were overwritten by a successful commit or removed by a successful delete. */
  datatype State = State(disks: Copies, issued: seq<Meta>, floor: nat)

  /** The disks an operation touches. `acked` reported success; `took` hold the new version (a disk
      may have taken it and still reported an error); `lost` dropped the copy they had; `cleaned`
      were emptied by the cleanup after a failed commit. A heal writes the version its read found onto
      the disks it repairs. */
  datatype Step =
    | Commit(identity: Identity, pre: ReadResult, answers: set<nat>,
             acked: set<nat>, took: set<nat>, lost: set<nat>, cleaned: set<nat>)
    | Delete(acked: set<nat>, gone: set<nat>)
    | Heal(found: Meta, answers: set<nat>, fixed: set<nat>)
    | LoseCopies(gone: set<nat>)

  predicate Succeeds(s: State, step: Step) {
    (step.Commit? || step.Delete?) && |step.acked| >= WriteQuorum(|s.disks|)
  }

  function NextRevision(pre: ReadResult): nat {
    (if pre.Found? then pre.meta.revision else 0) + 1
  }

  function NewMeta(step: Step): Meta
    requires step.Commit?
  {
    Meta(step.identity, NextRevision(step.pre))
  }

  function Written(disks: Copies, m: Meta, took: set<nat>, lost: set<nat>): (d: Copies)
    ensures |d| == |disks|
  {
    seq(|disks|, i requires 0 <= i < |disks| => if i in took then Some(m) else if i in lost then None else disks[i])
  }

  function Emptied(disks: Copies, gone: set<nat>): (d: Copies)
    ensures |d| == |disks|
  {
    seq(|disks|, i requires 0 <= i < |disks| => if i in gone then None else disks[i])
  }

  ghost predicate Enabled(s: State, step: Step) {
    match step
    case Commit(identity, pre, answers, acked, took, lost, cleaned) =>
      && CanRead(s.disks, answers, pre)
      && (forall m :: m in s.issued ==> m.identity != identity)
      && acked <= took <= Nodes(|s.disks|)
    case Delete(acked, gone) => acked <= gone <= Nodes(|s.disks|)
    case Heal(found, answers, fixed) => CanRead(s.disks, answers, Found(found))
    case LoseCopies(gone) => true
  }

  function Next(s: State, step: Step): State {
    match step
    case Commit(identity, pre, answers, acked, took, lost, cleaned) =>
      var m := NewMeta(step);
      var d := Written(s.disks, m, took, lost);
      if Succeeds(s, step) then State(d, s.issued + [m], |s.issued|)
      else State(Emptied(d, cleaned), s.issued + [m], s.floor)
    case Delete(acked, gone) =>
      State(Emptied(s.disks, gone), s.issued, if Succeeds(s, step) then |s.issued| else s.floor)
    case Heal(found, answers, fixed) => s.(disks := Written(s.disks, found, fixed, {}))
    case LoseCopies(gone) => s.(disks := Emptied(s.disks, gone))
  }

  predicate Init(s: State) {
    && |s.disks| >= 4 && |s.disks| % 2 == 0
    && (forall i :: 0 <= i < |s.disks| ==> s.disks[i].None?)
    && s.issued == [] && s.floor == 0
  }

  /** Versions below the floor stay on fewer disks than a read needs. */
  ghost predicate Inv(s: State) {
    && |s.disks| >= 4 && |s.disks| % 2 == 0
    && s.floor <= |s.issued|
    && (forall i :: 0 <= i < |s.disks| && s.disks[i].Some? ==> s.disks[i].value in s.issued)
    && (forall t, u :: 0 <= t < u < |s.issued| ==> s.issued[t].identity != s.issued[u].identity)
    && (forall t :: 0 <= t < s.floor ==> Count(s.disks, s.issued[t].identity) < ReadQuorum(|s.disks|))
  }

  lemma CommitBuriesTheRest(s: State, step: Step, id: Identity)
    requires Inv(s) && Enabled(s, step) && step.Commit? && Succeeds(s, step) && id != step.identity
    ensures Count(Next(s, step).disks, id) < ReadQuorum(|s.disks|)
  {
    CountOutside(Next(s, step).disks, id, step.acked);
  }

  lemma DeleteBuriesAll(s: State, step: Step, id: Identity)
    requires Inv(s) && Enabled(s, step) && step.Delete? && Succeeds(s, step)
    ensures Count(Next(s, step).disks, id) < ReadQuorum(|s.disks|)
  {
    CountOutside(Next(s, step).disks, id, step.acked);
  }

  /** What a step does to the ledger. */
  lemma LedgerStep(s: State, step: Step)
    ensures Next(s, step).issued == if step.Commit? then s.issued + [NewMeta(step)] else s.issued
    ensures Next(s, step).floor == if Succeeds(s, step) then |s.issued| else s.floor
    ensures |Next(s, step).disks| == |s.disks|
  {
  }

  /** No step puts a version that was overwritten or removed on another disk. */
  lemma OldVersionsDoNotSpread(s: State, step: Step, t: nat)
    requires Inv(s) && Enabled(s, step) && t < s.floor
    ensures Count(Next(s, step).disks, s.issued[t].identity) <= Count(s.disks, s.issued[t].identity)
  {
    var d, id := Next(s, step).disks, s.issued[t].identity;
    assert s.issued[t] in s.issued;
    if step.Heal? {
      var u := FoundAboveFloor(s, step.answers, Found(step.found));
    }
    forall i | 0 <= i < |d| && Has(d[i], id) ensures Has(s.disks[i], id) {
      CopyAfter(s, step, i);
    }
    CountMonotone(d, s.disks, id);
  }

  /** What a disk may hold after a step. */
  lemma CopyAfter(s: State, step: Step, i: nat)
    requires i < |s.disks|
    ensures var c := Next(s, step).disks[i];
            c.None? || c == s.disks[i] || (step.Commit? && c == Some(NewMeta(step))) || (step.Heal? && c == Some(step.found))
  {
  }

  lemma StepKeepsBuried(s: State, step: Step, t: nat)
    requires Inv(s) && Enabled(s, step) && t < Next(s, step).floor
    ensures t < |s.issued| && Count(Next(s, step).disks, s.issued[t].identity) < ReadQuorum(|s.disks|)
  {
    LedgerStep(s, step);
    var id := s.issued[t].identity;
    assert s.issued[t] in s.issued;
    if Succeeds(s, step) && step.Commit? {
      CommitBuriesTheRest(s, step, id);
    } else if Succeeds(s, step) {
      DeleteBuriesAll(s, step, id);
    } else {
      OldVersionsDoNotSpread(s, step, t);
    }
  }

  lemma StepKeepsInv(s: State, step: Step)
    requires Inv(s) && Enabled(s, step)
    ensures Inv(Next(s, step))
  {
    var s' := Next(s, step);
    LedgerStep(s, step);
    forall t | 0 <= t < s'.floor
      ensures Count(s'.disks, s'.issued[t].identity) < ReadQuorum(|s'.disks|)
    {
      StepKeepsBuried(s, step, t);
    }
    forall t, u | 0 <= t < u < |s'.issued| ensures s'.issued[t].identity != s'.issued[u].identity {
      assert s.issued[t] in s.issued;
    }
    forall i | 0 <= i < |s'.disks| && s'.disks[i].Some? ensures s'.disks[i].value in s'.issued {
      if step.Heal? {
        var u := FoundAboveFloor(s, step.answers, Found(step.found));
      }
      CopyAfter(s, step, i);
    }
  }

  ghost predicate Run(states: seq<State>, steps: seq<Step>) {
    && |states| == |steps| + 1
    && forall i :: 0 <= i < |steps| ==> Enabled(states[i], steps[i]) && states[i + 1] == Next(states[i], steps[i])
  }

  lemma {:induction false} RunKeepsInv(states: seq<State>, steps: seq<Step>, i: nat)
    requires Run(states, steps) && Init(states[0]) && i <= |steps|
    ensures Inv(states[i])
  {
    if i > 0 {
      RunKeepsInv(states, steps, i - 1);
      StepKeepsInv(states[i - 1], steps[i - 1]);
    }
  }

  lemma FloorStep(s: State, step: Step)
    requires Inv(s) && Enabled(s, step)
    ensures s.floor <= Next(s, step).floor <= |Next(s, step).issued|
    ensures Succeeds(s, step) ==> Next(s, step).floor == |s.issued|
  {
    LedgerStep(s, step);
  }

  lemma FloorAt(states: seq<State>, steps: seq<Step>, i: nat)
    requires Run(states, steps) && Init(states[0]) && i < |steps|
    ensures states[i].floor <= states[i + 1].floor <= |states[i + 1].issued|
    ensures Succeeds(states[i], steps[i]) ==> states[i + 1].floor == |states[i].issued|
  {
    RunKeepsInv(states, steps, i);
    RunAt(states, steps, i);
    FloorStep(states[i], steps[i]);
  }

  /** From a successful operation on, the floor covers everything issued before it. */
  lemma {:induction false} FloorRises(states: seq<State>, steps: seq<Step>, j: nat, k: nat)
    requires Run(states, steps) && Init(states[0]) && j < k <= |steps| && Succeeds(states[j], steps[j])
    ensures |states[j].issued| <= states[k].floor <= |states[k].issued|
    decreases k
  {
    FloorAt(states, steps, k - 1);
    if j < k - 1 {
      FloorRises(states, steps, j, k - 1);
    }
  }

  /** The winner of a decisive part of the disks has its copies on the disks. */
  lemma SeenHasQuorum(disks: Copies, v: Copies, m: Meta, q: nat)
    requires |v| == |disks| && Wins(v, m) && Decisive(v, q)
    requires forall i :: 0 <= i < |disks| && v[i].Some? ==> v[i] == disks[i]
    ensures Count(disks, m.identity) >= q && |disks| > 0 && Some(m) in disks
  {
    WinnerDecides(v, m, q);
    CountMonotone(v, disks, m.identity);
    assert Some(m) in v;
  }

  lemma FoundHasQuorum(disks: Copies, answers: set<nat>, r: ReadResult)
    requires CanRead(disks, answers, r) && r.Found?
    ensures Count(disks, r.meta.identity) >= ReadQuorum(|disks|)
    ensures |disks| > 0 && Some(r.meta) in disks
  {
    var q := ReadQuorum(|disks|);
    if Decisive(View(disks, answers, q), q) {
      SeenHasQuorum(disks, View(disks, answers, q), r.meta, q);
    } else {
      SeenHasQuorum(disks, View(disks, answers, |disks|), r.meta, q);
    }
  }

  lemma FoundAboveFloor(s: State, answers: set<nat>, r: ReadResult) returns (t: nat)
    requires Inv(s) && CanRead(s.disks, answers, r) && r.Found?
    ensures s.floor <= t < |s.issued| && s.issued[t] == r.meta
  {
    FoundHasQuorum(s.disks, answers, r);
    t :| 0 <= t < |s.issued| && s.issued[t] == r.meta;
  }

  /** No stale read: once a commit or a delete has succeeded, no later read, whichever disks answer
      it and whatever partial commits, partial deletes, cleanups and losses came between, returns a
      version that was issued before it. */
  lemma NoStaleRead(states: seq<State>, steps: seq<Step>, j: nat, k: nat, answers: set<nat>, r: ReadResult)
    requires Run(states, steps) && Init(states[0]) && j < k <= |steps| && Succeeds(states[j], steps[j])
    requires CanRead(states[k].disks, answers, r) && r.Found?
    ensures r.meta in states[k].issued && r.meta !in states[j].issued
  {
    var s := states[k];
    RunKeepsInv(states, steps, k);
    FloorRises(states, steps, j, k);
    var t := FoundAboveFloor(s, answers, r);
    IssuedGrows(states, steps, j, k);
    forall u | 0 <= u < |states[j].issued| ensures states[j].issued[u] != r.meta {
      assert states[j].issued[u] == s.issued[u];
    }
  }

  lemma {:induction false} IssuedGrows(states: seq<State>, steps: seq<Step>, j: nat, k: nat)
    requires Run(states, steps) && j <= k <= |steps|
    ensures states[j].issued <= states[k].issued
    decreases k
  {
    if j < k {
      IssuedGrows(states, steps, j, k - 1);
      LedgerStep(states[k - 1], steps[k - 1]);
    }
  }

  /** After a successful commit, exactly the answering disks that took it show it. */
  lemma CommittedCount(s: State, step: Step, answers: set<nat>)
    requires Inv(s) && Enabled(s, step) && step.Commit? && Succeeds(s, step)
    ensures Count(View(Next(s, step).disks, answers, |s.disks|), step.identity) == |step.took * answers|
  {
    var n := |s.disks|;
    var v, at := View(Next(s, step).disks, answers, n), step.took * answers;
    forall i | 0 <= i < n ensures Has(v[i], step.identity) <==> i in at {
      assert s.disks[i].Some? ==> s.disks[i].value in s.issued;
    }
    CountAtLeast(v, step.identity, at);
    CountOutside(v, step.identity, Nodes(n) - at);
    NodeCount(n);
    assert |Nodes(n) - at| == n - |at|;
  }

  lemma FoundIsCommitted(s: State, step: Step, answers: set<nat>, r: ReadResult)
    requires Inv(s) && Enabled(s, step) && step.Commit? && Succeeds(s, step)
    requires CanRead(Next(s, step).disks, answers, r) && r.Found?
    ensures r.meta == NewMeta(step)
    ensures Count(View(Next(s, step).disks, answers, |s.disks|), step.identity) >= ReadQuorum(|s.disks|)
  {
    var d, q := Next(s, step).disks, ReadQuorum(|s.disks|);
    StepKeepsInv(s, step);
    LedgerStep(s, step);
    var _ := FoundAboveFloor(Next(s, step), answers, r);
    var v1, v2 := View(d, answers, q), View(d, answers, |s.disks|);
    CountMonotone(v1, v2, step.identity);
    WinnerDecides(if Decisive(v1, q) then v1 else v2, r.meta, q);
  }

  /** Read your write: right after a successful commit a read returns exactly that version when at
      least a read quorum of the disks that took it answer, and reports an error otherwise. */
  lemma ReadAfterCommit(s: State, step: Step, answers: set<nat>, r: ReadResult)
    requires Inv(s) && Enabled(s, step) && step.Commit? && Succeeds(s, step)
    requires CanRead(Next(s, step).disks, answers, r)
    ensures r == Found(NewMeta(step)) <==> |step.took * answers| >= ReadQuorum(|s.disks|)
    ensures !r.Found? <==> |step.took * answers| < ReadQuorum(|s.disks|)
  {
    CommittedCount(s, step, answers);
    if r.Found? {
      FoundIsCommitted(s, step, answers, r);
    } else if |step.took * answers| >= ReadQuorum(|s.disks|) {
      CommittedWins(s, step, View(Next(s, step).disks, answers, |s.disks|), NewMeta(step));
      assert false;
    }
  }

  lemma CommittedWins(s: State, step: Step, v: Copies, m: Meta)
    requires Inv(s) && Enabled(s, step) && step.Commit? && Succeeds(s, step) && m == NewMeta(step)
    requires |v| == |s.disks| && Count(v, m.identity) >= ReadQuorum(|s.disks|)
    requires forall i :: 0 <= i < |v| && v[i].Some? ==> v[i] == Next(s, step).disks[i]
    ensures Wins(v, m)
  {
    forall id | Count(v, id) > 0 && id != m.identity
      ensures Count(v, id) < Count(v, m.identity)
    {
      CommitBuriesTheRest(s, step, id);
      CountMonotone(v, Next(s, step).disks, id);
    }
    var c := Sample(v, m.identity);
    var i :| 0 <= i < |v| && v[i] == c;
    assert s.disks[i].Some? ==> s.disks[i].value in s.issued;
    assert c == Some(m);
  }

  /** Right after a successful delete nothing is found. The read says so plainly if and only if no
      answering disk kept its copy; otherwise it reports corruption. */
  lemma ReadAfterDelete(s: State, step: Step, answers: set<nat>, r: ReadResult)
    requires Inv(s) && Enabled(s, step) && step.Delete? && Succeeds(s, step)
    requires CanRead(Next(s, step).disks, answers, r)
    ensures !r.Found?
    ensures r.NotFound? <==>
              forall i :: 0 <= i < |s.disks| && i in answers && i !in step.gone ==> s.disks[i].None?
  {
    var d := Next(s, step).disks;
    ReadTells(d, answers, r);
    if r.Found? {
      FoundHasQuorum(d, answers, r);
      DeleteBuriesAll(s, step, r.meta.identity);
      assert false;
    }
  }

  // ----- the operations themselves, against the steps

  datatype CommitResult = Committed(meta: Meta) | WriteConflict | NoWriteQuorum

  /** Write m to the disks that take it; disks that fail half-way lose what they had. */
  method RenameAll(disks: array<Option<Meta>>, m: Meta, took: set<nat>, lost: set<nat>)
    modifies disks
    ensures disks[..] == Written(old(disks[..]), m, took, lost)
  {
    for i := 0 to disks.Length
      invariant forall k :: i <= k < disks.Length ==> disks[k] == old(disks[k])
      invariant forall k :: 0 <= k < i ==>
        disks[k] == if k in took then Some(m) else if k in lost then None else old(disks[k])
    {
      if i in took {
        disks[i] := Some(m);
      } else if i in lost {
        disks[i] := None;
      }
    }
  }

  method RemoveAll(disks: array<Option<Meta>>, gone: set<nat>)
    modifies disks
    ensures disks[..] == Emptied(old(disks[..]), gone)
  {
    for i := 0 to disks.Length
      invariant forall k :: i <= k < disks.Length ==> disks[k] == old(disks[k])
      invariant forall k :: 0 <= k < i ==> disks[k] == if k in gone then None else old(disks[k])
    {
      if i in gone {
        disks[i] := None;
      }
    }
  }

  /** One commit. `pre` is what its own read of the current revision gave; a negative expectRev
      means the caller is not fenced. `staged` are the disks that wrote the staging copy. */
  method CommitMeta(disks: array<Option<Meta>>, identity: Identity, expectRev: int, answers: set<nat>, staged: set<nat>,
                    acked: set<nat>, took: set<nat>, lost: set<nat>, cleaned: set<nat>)
    returns (r: CommitResult, pre: ReadResult)
    requires disks.Length >= 2
    modifies disks
    ensures CanRead(old(disks[..]), answers, pre)
    ensures r.WriteConflict? <==> expectRev >= 0 && NextRevision(pre) != expectRev + 1
    ensures r.WriteConflict? || |staged| < WriteQuorum(disks.Length) ==> disks[..] == old(disks[..]) && !r.Committed?
    ensures r.Committed? <==>
              !r.WriteConflict? && |staged| >= disks.Length / 2 + 1 && |acked| >= disks.Length / 2 + 1
    ensures r.Committed? ==> r.meta == Meta(identity, if pre.Found? then pre.meta.revision + 1 else 1)
    ensures r.Committed? ==> forall i :: 0 <= i < disks.Length ==>
              disks[i] == if i in took then Some(r.meta) else if i in lost then None else old(disks[i])
    ensures !r.WriteConflict? && |staged| >= WriteQuorum(disks.Length) ==>
              var step := Commit(identity, pre, answers, acked, took, lost, cleaned);
              var s := State(old(disks[..]), [], 0);
              disks[..] == Next(s, step).disks && r == if Succeeds(s, step) then Committed(NewMeta(step)) else NoWriteQuorum
  {
    var n := disks.Length;
    pre := ReadMeta(disks[..], answers);
    var curRev := if pre.Found? then pre.meta.revision else 0;
    if expectRev >= 0 && curRev != expectRev {
      return WriteConflict, pre;
    }
    var m := Meta(identity, curRev + 1);
    if |staged| < WriteQuorum(n) {
      return NoWriteQuorum, pre;
    }
    RenameAll(disks, m, took, lost);
    if |acked| < WriteQuorum(n) {
      RemoveAll(disks, cleaned);
      return NoWriteQuorum, pre;
    }
    r := Committed(m);
  }

  /** One delete: remove the copies, succeed on a write quorum. */
  method DeleteObject(disks: array<Option<Meta>>, acked: set<nat>, gone: set<nat>) returns (ok: bool)
    modifies disks
    ensures disks[..] == Next(State(old(disks[..]), [], 0), Delete(acked, gone)).disks
    ensures ok <==> Succeeds(State(old(disks[..]), [], 0), Delete(acked, gone))
    ensures ok <==> |acked| >= disks.Length / 2 + 1
    ensures forall i :: 0 <= i < disks.Length ==> disks[i] == if i in gone then None else old(disks[i])
  {
    RemoveAll(disks, gone);
    ok := |acked| >= WriteQuorum(disks.Length);
  }

  // ----- revisions

  /** Revisions at and above the floor are no smaller than the last successful one. */
  ghost predicate RevisionInv(s: State, last: Meta) {
    && s.floor < |s.issued| && s.issued[s.floor] == last
    && forall t :: s.floor <= t < |s.issued| ==> s.issued[t].revision >= last.revision
  }

  lemma CommitBumps(s: State, step: Step, last: Meta)
    requires Inv(s) && Enabled(s, step) && RevisionInv(s, last) && step.Commit? && step.pre.Found?
    ensures NewMeta(step).revision > last.revision
  {
    var _ := FoundAboveFloor(s, step.answers, step.pre);
  }

  /** A commit outranks the last successful one exactly when its own first read found the object. */
  lemma RevisionGrowsIff(s: State, step: Step, last: Meta)
    requires Inv(s) && Enabled(s, step) && RevisionInv(s, last) && step.Commit? && last.revision >= 1
    ensures NewMeta(step).revision > last.revision <==> step.pre.Found?
  {
    if step.pre.Found? {
      CommitBumps(s, step, last);
    }
  }

  predicate PreReadsAnswer(steps: seq<Step>, from: nat, to: nat)
    requires from <= to <= |steps|
  {
    forall i :: from <= i < to ==> !steps[i].Delete? && (steps[i].Commit? ==> steps[i].pre.Found?)
  }

  predicate NoSuccess(states: seq<State>, steps: seq<Step>, from: nat, to: nat)
    requires from <= to <= |steps| < |states|
  {
    forall i :: from <= i < to ==> !Succeeds(states[i], steps[i])
  }

  lemma FailureKeepsRevisions(s: State, step: Step, last: Meta)
    requires Inv(s) && Enabled(s, step) && RevisionInv(s, last) && !Succeeds(s, step)
    requires step.Commit? ==> step.pre.Found?
    ensures RevisionInv(Next(s, step), last)
  {
    LedgerStep(s, step);
    if step.Commit? {
      CommitBumps(s, step, last);
    }
  }

  lemma RunAt(states: seq<State>, steps: seq<Step>, i: nat)
    requires Run(states, steps) && i < |steps|
    ensures Enabled(states[i], steps[i]) && states[i + 1] == Next(states[i], steps[i])
  {
  }

  lemma SuccessSetsRevision(s: State, step: Step)
    requires step.Commit? && Succeeds(s, step)
    ensures RevisionInv(Next(s, step), NewMeta(step))
  {
    LedgerStep(s, step);
  }

  lemma FailureAt(states: seq<State>, steps: seq<Step>, i: nat, from: nat, to: nat, last: Meta)
    requires Run(states, steps) && Init(states[0]) && from <= i < to <= |steps|
    requires PreReadsAnswer(steps, from, to) && NoSuccess(states, steps, from, to)
    requires RevisionInv(states[i], last)
    ensures RevisionInv(states[i + 1], last)
  {
    RunKeepsInv(states, steps, i);
    RunAt(states, steps, i);
    FailureKeepsRevisions(states[i], steps[i], last);
  }

  lemma {:induction false} FailuresKeepRevisions(states: seq<State>, steps: seq<Step>, j: nat, k: nat)
    requires Run(states, steps) && Init(states[0]) && j < k <= |steps|
    requires steps[j].Commit? && Succeeds(states[j], steps[j])
    requires PreReadsAnswer(steps, j + 1, k) && NoSuccess(states, steps, j + 1, k)
    ensures RevisionInv(states[k], NewMeta(steps[j]))
    decreases k
  {
    if j + 1 < k {
      var i: nat := k - 1;
      FailuresKeepRevisions(states, steps, j, i);
      FailureAt(states, steps, i, j + 1, k, NewMeta(steps[j]));
    } else {
      RunAt(states, steps, j);
      SuccessSetsRevision(states[j], steps[j]);
    }
  }

  /** Successive successful commits carry strictly increasing revisions, whatever failed, partly
      written and partly cleaned-up commits lie between them, as long as the object is not deleted
      and each commit's own read finds it. */
  lemma {:induction false} RevisionsIncrease(states: seq<State>, steps: seq<Step>, j: nat, k: nat)
    requires Run(states, steps) && Init(states[0]) && j < k < |steps|
    requires steps[j].Commit? && Succeeds(states[j], steps[j])
    requires steps[k].Commit? && Succeeds(states[k], steps[k])
    requires PreReadsAnswer(steps, j + 1, k + 1)
    ensures NewMeta(steps[j]).revision < NewMeta(steps[k]).revision
    decreases k - j
  {
    RunKeepsInv(states, steps, k);
    if NoSuccess(states, steps, j + 1, k) {
      FailuresKeepRevisions(states, steps, j, k);
      CommitBumps(states[k], steps[k], NewMeta(steps[j]));
    } else {
      var i :| j + 1 <= i < k && Succeeds(states[i], steps[i]);
      RevisionsIncrease(states, steps, j, i);
      RevisionsIncrease(states, steps, i, k);
    }
  }
}
