/** What a failed commit leaves behind (internal/erasure/set.go): its cleanup goes to every disk, also to
    those that still hold the version before it. */
module FailedCommit {
  import opened NodeSets
  import opened Options
  import opened QuorumMeta

  /** The commit falls short of its write quorum. */
  ghost predicate Fails(s: State, step: Step) {
    Enabled(s, step) && step.Commit? && !Succeeds(s, step)
  }

  // ----- a cleanup that gets through

  /** When the cleanup reaches every disk nothing is left, whatever was committed before. */
  lemma FullCleanupErases(s: State, step: Step, answers: set<nat>, r: ReadResult)
    requires Fails(s, step) && step.cleaned == Nodes(|s.disks|)
    requires CanRead(Next(s, step).disks, answers, r)
    ensures r == NotFound
  {
    var d := Next(s, step).disks;
    NoWinner(View(d, answers, ReadQuorum(|d|)));
    NoWinner(View(d, answers, |d|));
  }

  // ----- when the committed version is still found

  /** Copies of m that the failed commit did not touch, on disks that answer. */
  function Kept(s: State, step: Step, m: Meta, answers: set<nat>): set<nat>
    requires step.Commit?
  {
    Holders(s.disks, m.identity) * answers - step.took - step.lost - step.cleaned
  }

  /** Copies of the failed version that its cleanup missed, on disks that answer. */
  function Stray(s: State, step: Step, answers: set<nat>): set<nat>
    requires step.Commit?
  {
    step.took * answers - step.cleaned
  }

  /** No version but m is on a read quorum of disks, as it is after the commit of m. */
  ghost predicate OnlyCandidate(s: State, m: Meta) {
    m in s.issued && forall id :: id != m.identity ==> Count(s.disks, id) < ReadQuorum(|s.disks|)
  }

  /** Every read finds m, whatever order it tallies the versions in. */
  ghost predicate AlwaysFound(disks: Copies, answers: set<nat>, m: Meta) {
    forall r :: CanRead(disks, answers, r) ==> r == Found(m)
  }

  /** Enough copies are kept, and the failed version does not win a tie: it is on fewer than a read quorum
      of disks, or the first read already sees m, or m has the higher revision and the first read does not
      see the failed version. */
  predicate StillDecides(n: nat, kept: set<nat>, stray: set<nat>, revision: nat, failed: nat) {
    var q := ReadQuorum(n);
    |kept| >= q && (|stray| < q || Nodes(q) <= kept || (failed < revision && !(Nodes(q) <= stray)))
  }

  lemma CommitLeavesOnlyCandidate(s: State, step: Step)
    requires Inv(s) && Enabled(s, step) && step.Commit? && Succeeds(s, step)
    ensures OnlyCandidate(Next(s, step), NewMeta(step))
  {
    LedgerStep(s, step);
    forall id | id != step.identity ensures Count(Next(s, step).disks, id) < ReadQuorum(|s.disks|) {
      CommitBuriesTheRest(s, step, id);
    }
  }

  /** What the answering disks show of m and of the failed version, up to some disk. */
  lemma Shown(s: State, step: Step, m: Meta, answers: set<nat>, upto: nat)
    requires Inv(s) && Fails(s, step) && m in s.issued && upto <= |s.disks|
    ensures var v := View(Next(s, step).disks, answers, upto);
            && Holders(v, m.identity) == Kept(s, step, m, answers) * Nodes(upto)
            && Holders(v, step.identity) == Stray(s, step, answers) * Nodes(upto)
  {
    var v := View(Next(s, step).disks, answers, upto);
    assert m.identity != step.identity;
    forall i: nat ensures i in Holders(v, m.identity) <==> i in Kept(s, step, m, answers) * Nodes(upto) {
    }
    forall i: nat ensures i in Holders(v, step.identity) <==> i in Stray(s, step, answers) * Nodes(upto) {
      assert i < |s.disks| && s.disks[i].Some? ==> s.disks[i].value in s.issued;
    }
  }

  /** Other versions stay short of a read quorum. */
  lemma OthersShort(s: State, step: Step, m: Meta, answers: set<nat>, upto: nat, id: Identity)
    requires Inv(s) && Fails(s, step) && OnlyCandidate(s, m) && id != m.identity && id != step.identity
    ensures Count(View(Next(s, step).disks, answers, upto), id) < ReadQuorum(|s.disks|)
  {
    var v := View(Next(s, step).disks, answers, upto);
    forall i | 0 <= i < |v| && Has(v[i], id) ensures Has(s.disks[i], id) {
      CopyAfter(s, step, i);
    }
    CountMonotone(v, s.disks, id);
  }

  /** A copy in the view carries the revision it was issued with. */
  lemma SampleIs(s: State, step: Step, m: Meta, answers: set<nat>, upto: nat)
    requires Inv(s) && Fails(s, step) && (m in s.issued || m == NewMeta(step))
    ensures var v := View(Next(s, step).disks, answers, upto);
            Count(v, m.identity) > 0 ==> Sample(v, m.identity) == Some(m)
  {
    var v := View(Next(s, step).disks, answers, upto);
    if Count(v, m.identity) > 0 {
      var c := Sample(v, m.identity);
      var i: nat :| i < |v| && v[i] == c;
      CopyAfter(s, step, i);
      assert s.disks[i].Some? ==> s.disks[i].value in s.issued;
    }
  }

  /** Only these two versions can win with a read quorum. */
  lemma OneOfTwo(s: State, step: Step, m: Meta, answers: set<nat>, upto: nat, x: Meta)
    requires Inv(s) && Fails(s, step) && OnlyCandidate(s, m) && upto <= |s.disks|
    requires var v := View(Next(s, step).disks, answers, upto);
             Wins(v, x) && Count(v, x.identity) >= ReadQuorum(|s.disks|)
    ensures x == m || x == NewMeta(step)
    ensures x == m ==> |Kept(s, step, m, answers) * Nodes(upto)| >= ReadQuorum(|s.disks|)
    ensures x != m ==> |Stray(s, step, answers) * Nodes(upto)| >= ReadQuorum(|s.disks|)
  {
    var v := View(Next(s, step).disks, answers, upto);
    if x.identity != m.identity && x.identity != step.identity {
      OthersShort(s, step, m, answers, upto, x.identity);
    }
    SampleIs(s, step, m, answers, upto);
    SampleIs(s, step, NewMeta(step), answers, upto);
    Shown(s, step, m, answers, upto);
    CountHolders(v, x.identity);
  }

  /** q disks that all show one version make it the decision of a view of q disks. */
  lemma WholePrefixWins(view: Copies, q: nat, x: Meta)
    requires q <= |view| && q > 0 && Holders(view, x.identity) == Nodes(q) && Sample(view, x.identity) == Some(x)
    requires forall i :: q <= i < |view| ==> view[i].None?
    ensures Wins(view, x) && Count(view, x.identity) >= q
  {
    CountHolders(view, x.identity);
    NodeCount(q);
    forall id | id != x.identity ensures Count(view, id) == 0 {
      CountHolders(view, id);
      assert Holders(view, id) == {};
    }
  }

  /** When all disks of the first read show m, or all show the failed version, that one wins it. */
  lemma FirstReadWins(s: State, step: Step, m: Meta, answers: set<nat>)
    requires Inv(s) && Fails(s, step) && OnlyCandidate(s, m)
    ensures var q := ReadQuorum(|s.disks|);
            var v := View(Next(s, step).disks, answers, q);
            && (Nodes(q) <= Kept(s, step, m, answers) ==> Wins(v, m) && Count(v, m.identity) >= q)
            && (Nodes(q) <= Stray(s, step, answers) ==> Wins(v, NewMeta(step)) && Count(v, step.identity) >= q)
  {
    var q := ReadQuorum(|s.disks|);
    var v := View(Next(s, step).disks, answers, q);
    Shown(s, step, m, answers, q);
    if Nodes(q) <= Kept(s, step, m, answers) {
      assert Kept(s, step, m, answers) * Nodes(q) == Nodes(q);
      PrefixShows(s, step, answers, m, q);
    }
    if Nodes(q) <= Stray(s, step, answers) {
      assert Stray(s, step, answers) * Nodes(q) == Nodes(q);
      PrefixShows(s, step, answers, NewMeta(step), q);
    }
  }

  lemma PrefixShows(s: State, step: Step, answers: set<nat>, x: Meta, q: nat)
    requires Inv(s) && Fails(s, step) && (x in s.issued || x == NewMeta(step)) && 0 < q <= |s.disks|
    requires Holders(View(Next(s, step).disks, answers, q), x.identity) == Nodes(q)
    ensures var v := View(Next(s, step).disks, answers, q);
            Wins(v, x) && Count(v, x.identity) >= q
  {
    var v := View(Next(s, step).disks, answers, q);
    CountHolders(v, x.identity);
    NodeCount(q);
    SampleIs(s, step, x, answers, q);
    WholePrefixWins(v, q, x);
  }

  lemma FullSubset(a: set<nat>, q: nat)
    requires a <= Nodes(q)
    ensures |a| >= q ==> a == Nodes(q)
  {
    NodeCount(q);
    if |a| >= q {
      assert Nodes(q) == a + (Nodes(q) - a);
    }
  }

  /** The counts of the second read. */
  lemma SecondCounts(s: State, step: Step, m: Meta, answers: set<nat>)
    requires Inv(s) && Fails(s, step) && m in s.issued
    ensures var v, kept, stray := View(Next(s, step).disks, answers, |s.disks|), Kept(s, step, m, answers), Stray(s, step, answers);
            Count(v, m.identity) == |kept| && Count(v, step.identity) == |stray| && |kept| + |stray| <= |s.disks|
  {
    var n := |s.disks|;
    var v := View(Next(s, step).disks, answers, n);
    Shown(s, step, m, answers, n);
    assert Kept(s, step, m, answers) * Nodes(n) == Kept(s, step, m, answers);
    assert Stray(s, step, answers) * Nodes(n) == Stray(s, step, answers);
    CountHolders(v, m.identity);
    CountHolders(v, step.identity);
    CountsShareDisks(v, m.identity, step.identity);
  }

  /** The second read: with a read quorum of copies kept m wins unless the failed version is on as many
      disks with a higher revision, and when it is on as many with no lower one the failed version can win. */
  lemma SecondRead(s: State, step: Step, m: Meta, answers: set<nat>)
    requires Inv(s) && Fails(s, step) && OnlyCandidate(s, m)
    requires |Kept(s, step, m, answers)| >= ReadQuorum(|s.disks|)
    ensures var q, v, stray := ReadQuorum(|s.disks|), View(Next(s, step).disks, answers, |s.disks|), Stray(s, step, answers);
            && (|stray| < q || NewMeta(step).revision <= m.revision ==> Wins(v, m) && Count(v, m.identity) >= q)
            && (|stray| >= q && m.revision <= NewMeta(step).revision ==> Wins(v, NewMeta(step)) && Count(v, step.identity) >= q)
            && (Wins(v, NewMeta(step)) ==> |stray| >= q && m.revision <= NewMeta(step).revision)
  {
    var n, q := |s.disks|, ReadQuorum(|s.disks|);
    var v := View(Next(s, step).disks, answers, n);
    SecondCounts(s, step, m, answers);
    SampleIs(s, step, m, answers, n);
    SampleIs(s, step, NewMeta(step), answers, n);
    forall id | id != m.identity && id != step.identity ensures Count(v, id) < q {
      OthersShort(s, step, m, answers, n, id);
    }
    TwoCandidates(v, m, NewMeta(step), q);
  }

  /** Who wins a view in which only two versions can reach q copies. */
  lemma TwoCandidates(v: Copies, m: Meta, x: Meta, q: nat)
    requires m.identity != x.identity && q > 0 && Count(v, m.identity) >= q >= Count(v, x.identity)
    requires Count(v, m.identity) > q ==> Count(v, x.identity) < q
    requires Sample(v, m.identity) == Some(m) && (Count(v, x.identity) > 0 ==> Sample(v, x.identity) == Some(x))
    requires forall id :: id != m.identity && id != x.identity ==> Count(v, id) < q
    ensures Count(v, x.identity) < q || x.revision <= m.revision ==> Wins(v, m)
    ensures Count(v, x.identity) >= q && m.revision <= x.revision ==> Wins(v, x)
    ensures Wins(v, x) ==> Count(v, x.identity) >= q && m.revision <= x.revision
  {
  }

  lemma ReadExists(disks: Copies, answers: set<nat>) returns (r: ReadResult)
    ensures CanRead(disks, answers, r)
  {
    var q := ReadQuorum(|disks|);
    var v1, v2 := View(disks, answers, q), View(disks, answers, |disks|);
    if Decisive(v1, q) {
      var x :| Wins(v1, x);
      r := Found(x);
    } else if Decisive(v2, q) {
      var x :| Wins(v2, x);
      r := Found(x);
    } else {
      r := if Present(v2) == 0 then NotFound else Corrupt;
    }
  }

  /** Whichever of the two views decides a read, its result is a winner there with a read quorum. */
  lemma FoundWins(disks: Copies, answers: set<nat>, x: Meta)
    requires CanRead(disks, answers, Found(x))
    ensures var q := ReadQuorum(|disks|);
            var v1, v2 := View(disks, answers, q), View(disks, answers, |disks|);
            if Decisive(v1, q) then Wins(v1, x) && Count(v1, x.identity) >= q
            else Decisive(v2, q) && Wins(v2, x) && Count(v2, x.identity) >= q
  {
    var q := ReadQuorum(|disks|);
    var v := if Decisive(View(disks, answers, q), q) then View(disks, answers, q) else View(disks, answers, |disks|);
    WinnerDecides(v, x, q);
  }

  lemma NotBoth(q: nat, kept: set<nat>, stray: set<nat>)
    requires q > 0 && kept !! stray
    ensures !(Nodes(q) <= kept && Nodes(q) <= stray)
    ensures |stray| < q ==> !(Nodes(q) <= stray)
  {
    assert 0 in Nodes(q);
    NodeCount(q);
    if Nodes(q) <= stray {
      SubsetSize(Nodes(q), stray);
    }
  }

  lemma FoundWhen(s: State, step: Step, m: Meta, answers: set<nat>, r: ReadResult)
    requires Inv(s) && Fails(s, step) && OnlyCandidate(s, m) && CanRead(Next(s, step).disks, answers, r)
    requires StillDecides(|s.disks|, Kept(s, step, m, answers), Stray(s, step, answers), m.revision, NewMeta(step).revision)
    ensures r == Found(m)
  {
    var q, d := ReadQuorum(|s.disks|), Next(s, step).disks;
    var kept, stray := Kept(s, step, m, answers), Stray(s, step, answers);
    NotBoth(q, kept, stray);
    SecondRead(s, step, m, answers);
    FirstReadWins(s, step, m, answers);
    FoundWins(d, answers, r.meta);
    if Decisive(View(d, answers, q), q) {
      FullSubset(stray * Nodes(q), q);
      OneOfTwo(s, step, m, answers, q, r.meta);
    } else {
      OneOfTwo(s, step, m, answers, |s.disks|, r.meta);
    }
  }

  /** A read that does find m has a read quorum of kept copies; all of them on its first disks unless it
      took the second read. */
  lemma FoundNeeds(s: State, step: Step, m: Meta, answers: set<nat>)
    requires Inv(s) && Fails(s, step) && OnlyCandidate(s, m) && CanRead(Next(s, step).disks, answers, Found(m))
    ensures var q, kept := ReadQuorum(|s.disks|), Kept(s, step, m, answers);
            |kept| >= q && (Decisive(View(Next(s, step).disks, answers, q), q) ==> Nodes(q) <= kept)
  {
    var q, kept := ReadQuorum(|s.disks|), Kept(s, step, m, answers);
    var upto := if Decisive(View(Next(s, step).disks, answers, q), q) then q else |s.disks|;
    FoundWins(Next(s, step).disks, answers, m);
    OneOfTwo(s, step, m, answers, upto, m);
    SubsetSize(kept * Nodes(upto), kept);
    FullSubset(kept * Nodes(q), q);
  }

  lemma NotFoundWhen(s: State, step: Step, m: Meta, answers: set<nat>) returns (r: ReadResult)
    requires Inv(s) && Fails(s, step) && OnlyCandidate(s, m)
    requires !StillDecides(|s.disks|, Kept(s, step, m, answers), Stray(s, step, answers), m.revision, NewMeta(step).revision)
    ensures CanRead(Next(s, step).disks, answers, r) && r != Found(m)
  {
    r := ReadExists(Next(s, step).disks, answers);
    if r == Found(m) {
      FoundNeeds(s, step, m, answers);
      FirstReadWins(s, step, m, answers);
      SecondRead(s, step, m, answers);
      r := Found(NewMeta(step));
      assert m.identity != step.identity;
    }
  }

  /** Exactly when the last committed version outlives a failed commit: every read over these answers
      finds it if and only if enough of its copies were not touched, and the failed version does not win
      the tie. */
  lemma StillFoundIff(s: State, step: Step, m: Meta, answers: set<nat>)
    requires Inv(s) && Fails(s, step) && OnlyCandidate(s, m)
    ensures AlwaysFound(Next(s, step).disks, answers, m) <==>
              StillDecides(|s.disks|, Kept(s, step, m, answers), Stray(s, step, answers), m.revision, NewMeta(step).revision)
  {
    if StillDecides(|s.disks|, Kept(s, step, m, answers), Stray(s, step, answers), m.revision, NewMeta(step).revision) {
      forall r | CanRead(Next(s, step).disks, answers, r) ensures r == Found(m) {
        FoundWhen(s, step, m, answers, r);
      }
    } else {
      var r := NotFoundWhen(s, step, m, answers);
    }
  }

  // ----- runs

  lemma {:induction false} SoleSample(view: Copies, m: Meta)
    requires forall i :: 0 <= i < |view| && view[i].Some? ==> view[i].value == m
    ensures forall id :: Count(view, id) > 0 ==> id == m.identity
    ensures Count(view, m.identity) > 0 ==> Sample(view, m.identity) == Some(m)
  {
    if view != [] {
      SoleSample(view[..|view| - 1], m);
    }
  }

  /** A version that is alone among the answers wins. */
  lemma SoleVersionWins(view: Copies, m: Meta)
    requires Some(m) in view && forall i :: 0 <= i < |view| && view[i].Some? ==> view[i].value == m
    ensures Wins(view, m)
  {
    var i: nat :| i < |view| && view[i] == Some(m);
    CountAtLeast(view, m.identity, {i});
    SoleSample(view, m);
  }

  /** The first commit on four empty disks, acknowledged by three. */
  lemma FirstCommit(none: Copies, d: Copies, a: Identity)
    requires none == [None, None, None, None] && d == [Some(Meta(a, 1)), Some(Meta(a, 1)), Some(Meta(a, 1)), None]
    ensures var s, step := State(none, [], 0), Commit(a, NotFound, {}, {0, 1, 2}, {0, 1, 2}, {}, {});
            Init(s) && Enabled(s, step) && Succeeds(s, step) && Next(s, step) == State(d, [Meta(a, 1)], 0)
  {
    NobodyAnswers(none);
    assert |{0, 1, 2}| == 3;
    assert Written(none, Meta(a, 1), {0, 1, 2}, {}) == d;
    assert [] + [Meta(a, 1)] == [Meta(a, 1)];
  }

  lemma FirstReplaced(d: Copies, m: Meta, m': Meta)
    requires d == [Some(m), Some(m), Some(m), None]
    ensures Written(d, m', {0}, {}) == [Some(m'), Some(m), Some(m), None]
  {
  }

  /** A second one that reaches one disk and fails, with this cleanup. */
  lemma SecondCommitFails(d: Copies, m: Meta, b: Identity, cleaned: set<nat>)
    requires d == [Some(m), Some(m), Some(m), None] && m.identity != b && m.revision == 1
    ensures var s, step := State(d, [m], 0), Commit(b, Found(m), {0, 1}, {}, {0}, {}, cleaned);
            && Fails(s, step)
            && Next(s, step) == State(Emptied([Some(Meta(b, 2)), Some(m), Some(m), None], cleaned), [m, Meta(b, 2)], 0)
  {
    FullQuorumRead(d, m);
    FirstReplaced(d, m, Meta(b, 2));
    assert [m] + [Meta(b, 2)] == [m, Meta(b, 2)];
  }

  lemma TwoSteps(s0: State, s1: State, s2: State, first: Step, second: Step)
    requires Enabled(s0, first) && s1 == Next(s0, first) && Enabled(s1, second) && s2 == Next(s1, second)
    ensures Run([s0, s1, s2], [first, second])
  {
  }

  /** Two runs of two commits, the first acknowledged by three of four disks and the second failing: the
      states and steps for a given cleanup. */
  lemma FailingRun(a: Identity, b: Identity, cleaned: set<nat>) returns (states: seq<State>, steps: seq<Step>)
    requires a != b
    ensures Run(states, steps) && Init(states[0]) && |steps| == 2
    ensures steps[0].Commit? && steps[0].identity == a && Succeeds(states[0], steps[0]) && Fails(states[1], steps[1])
    ensures states[2].disks == Emptied([Some(Meta(b, 2)), Some(Meta(a, 1)), Some(Meta(a, 1)), None], cleaned)
    ensures |states[1].disks| == 4 && steps[1].cleaned == cleaned
  {
    var m, none: Copies := Meta(a, 1), [None, None, None, None];
    var d: Copies := [Some(m), Some(m), Some(m), None];
    var first, second := Commit(a, NotFound, {}, {0, 1, 2}, {0, 1, 2}, {}, {}), Commit(b, Found(m), {0, 1}, {}, {0}, {}, cleaned);
    var s0, s1 := State(none, [], 0), State(d, [m], 0);
    var s2 := Next(s1, second);
    FirstCommit(none, d, a);
    SecondCommitFails(d, m, b, cleaned);
    TwoSteps(s0, s1, s2, first, second);
    steps, states := [first, second], [s0, s1, s2];
    assert states[0] == s0 && steps[0] == first && states[1] == s1 && steps[1] == second && states[2] == s2;
  }

  /** If the cleanup reaches no disk, the version before is still read. */
  lemma FailedCommitIsNotRead(a: Identity, b: Identity) returns (states: seq<State>, steps: seq<Step>)
    requires a != b
    ensures Run(states, steps) && Init(states[0]) && |steps| == 2
    ensures Succeeds(states[0], steps[0]) && Fails(states[1], steps[1])
    ensures Some(Meta(b, 2)) in states[2].disks && CanRead(states[2].disks, {1, 2}, Found(Meta(a, 1)))
  {
    states, steps := FailingRun(a, b, {});
    assert states[2].disks[0] == Some(Meta(b, 2));
    PartQuorumRead(states[2].disks, Meta(a, 1));
  }

  /** If it gets through, as it does when all disks answer it, the committed object is gone: a write that
      was acknowledged is lost to a later one that was refused. */
  lemma FailedCommitLosesObject(a: Identity, b: Identity) returns (states: seq<State>, steps: seq<Step>)
    requires a != b
    ensures Run(states, steps) && Init(states[0]) && |steps| == 2
    ensures steps[0].Commit? && steps[0].identity == a && Succeeds(states[0], steps[0]) && Fails(states[1], steps[1])
    ensures forall answers, r :: CanRead(states[2].disks, answers, r) ==> r == NotFound
  {
    states, steps := FailingRun(a, b, Nodes(4));
    RunAt(states, steps, 1);
    forall answers, r | CanRead(states[2].disks, answers, r) ensures r == NotFound {
      FullCleanupErases(states[1], steps[1], answers, r);
    }
  }

  /** A commit whose own first read finds nothing, though the object is there, starts over at revision 1:
      two successful commits with the same revision. */
  lemma RevisionRestarts(a: Identity, b: Identity) returns (states: seq<State>, steps: seq<Step>)
    requires a != b
    ensures Run(states, steps) && Init(states[0]) && |steps| == 2
    ensures steps[0].Commit? && steps[1].Commit? && Succeeds(states[0], steps[0]) && Succeeds(states[1], steps[1])
    ensures NewMeta(steps[0]).revision == NewMeta(steps[1]).revision == 1
  {
    var m, none: Copies := Meta(a, 1), [None, None, None, None];
    var d: Copies := [Some(m), Some(m), Some(m), None];
    var first, second := Commit(a, NotFound, {}, {0, 1, 2}, {0, 1, 2}, {}, {}), Commit(b, NotFound, {}, {0, 1, 2}, {0, 1, 2}, {}, {});
    var s0, s1 := State(none, [], 0), State(d, [m], 0);
    FirstCommit(none, d, a);
    NobodyAnswers(d);
    assert |{0, 1, 2}| == 3;
    TwoSteps(s0, s1, Next(s1, second), first, second);
    steps, states := [first, second], [s0, s1, Next(s1, second)];
    assert states[0] == s0 && steps[0] == first && states[1] == s1 && steps[1] == second;
  }

  lemma NobodyAnswers(disks: Copies)
    ensures CanRead(disks, {}, NotFound)
  {
    NoWinner(View(disks, {}, ReadQuorum(|disks|)));
    NoWinner(View(disks, {}, |disks|));
  }

  lemma FullQuorumRead(disks: Copies, m: Meta)
    requires |disks| == 4 && disks[0] == disks[1] == Some(m)
    ensures CanRead(disks, {0, 1}, Found(m))
  {
    var v := View(disks, {0, 1}, 2);
    assert v[0] == Some(m);
    SoleVersionWins(v, m);
    CountAtLeast(v, m.identity, {0, 1});
    WinnerDecides(v, m, 2);
  }

  lemma PartQuorumRead(disks: Copies, m: Meta)
    requires |disks| == 4 && disks[1] == disks[2] == Some(m)
    ensures CanRead(disks, {1, 2}, Found(m))
  {
    var v1, v2 := View(disks, {1, 2}, 2), View(disks, {1, 2}, 4);
    assert v1[1] == Some(m) && v2[1] == Some(m);
    SoleVersionWins(v1, m);
    SoleVersionWins(v2, m);
    CountOutside(v1, m.identity, {0, 2, 3});
    CountAtLeast(v2, m.identity, {1, 2});
    WinnerDecides(v1, m, 2);
    WinnerDecides(v2, m, 2);
  }
}
