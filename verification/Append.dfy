/** Optimistic append (internal/api/handlers_append.go): stat, read, conditional put, by any number of
    clients whose steps interleave. The conditional put compares the stored ETag with the one of the
    stat under the key's lock (internal/erasure/pool.go). */
module Append {
  import opened Basics
  import opened Options

  /** ETag of a content. */
  type ETag = nat

  type Tagger = Bytes -> ETag

  ghost predicate Injective(etag: Tagger) {
    forall a, b :: etag(a) == etag(b) ==> a == b
  }

  /** Where one append request stands. */
  datatype Call =
    | Statted(off: nat, delta: Bytes, size: nat, want: ETag)
    | Creating(delta: Bytes)
    | Ready(off: nat, delta: Bytes, existing: Bytes, want: ETag)
    | Appended(off: nat, delta: Bytes)
    | WrongOffset
    | TooLarge
    | Failed

  datatype State = State(content: Option<Bytes>, calls: map<nat, Call>)

  /** The first half of the request: offset and size are judged against one stat. */
  function Judge(content: Option<Bytes>, off: nat, delta: Bytes, maxBytes: nat, etag: Tagger): Call {
    if content.None? then (if off != 0 then WrongOffset else Creating(delta))
    else if |content.value| != off then WrongOffset
    else if |content.value| + |delta| > maxBytes then TooLarge
    else Statted(off, delta, |content.value|, etag(content.value))
  }

  function AfterStat(s: State, c: nat, off: nat, delta: Bytes, maxBytes: nat, etag: Tagger): State {
    if c in s.calls then s else s.(calls := s.calls[c := Judge(s.content, off, delta, maxBytes, etag)])
  }

  /** The read is a second look at the object; only its length is compared with the stat. */
  function AfterRead(s: State, c: nat): State {
    if c !in s.calls || !s.calls[c].Statted? then s
    else
      var call := s.calls[c];
      s.(calls := s.calls[c :=
        if s.content.None? then Failed
        else if |s.content.value| != call.size then WrongOffset
        else Ready(call.off, call.delta, s.content.value, call.want)])
  }

  /** The conditional put, atomic under the key's lock. The precondition is only looked at while an
      object is there; a creating request has none. */
  function AfterPut(s: State, c: nat, etag: Tagger): State {
    if c !in s.calls then s
    else match s.calls[c]
      case Creating(delta) => State(Some(delta), s.calls[c := Appended(0, delta)])
      case Ready(off, delta, existing, want) =>
        if s.content.Some? && etag(s.content.value) != want then s.(calls := s.calls[c := WrongOffset])
        else State(Some(existing + delta), s.calls[c := Appended(off, delta)])
      case _ => s
  }

  /** A short body, a quota, a lost connection: the request ends without a put. */
  function AfterAbort(s: State, c: nat): State {
    if c in s.calls && (s.calls[c].Statted? || s.calls[c].Creating? || s.calls[c].Ready?)
    then s.(calls := s.calls[c := Failed]) else s
  }

  class AppendTarget {
    var content: Option<Bytes>
    var calls: map<nat, Call>

    function Abstract(): State
      reads this
    {
      State(content, calls)
    }

    constructor (initial: Option<Bytes>)
      ensures Abstract() == State(initial, map[])
    {
      content, calls := initial, map[];
    }

    method Stat(c: nat, off: nat, delta: Bytes, maxBytes: nat, etag: Tagger)
      modifies this
      ensures Abstract() == AfterStat(old(Abstract()), c, off, delta, maxBytes, etag)
      ensures c !in old(calls) ==> c in calls && content == old(content)
      ensures c !in old(calls) ==> (calls[c].WrongOffset? <==> off != if content.Some? then |content.value| else 0)
      ensures c !in old(calls) ==> (calls[c].TooLarge? <==>
                content.Some? && off == |content.value| && |content.value| + |delta| > maxBytes)
      ensures c !in old(calls) ==> calls[c].WrongOffset? || calls[c].TooLarge? || calls[c].Statted? || calls[c].Creating?
    {
      if c in calls {
        return;
      }
      var creating := content.None?;
      if creating {
        if off != 0 {
          calls := calls[c := WrongOffset];
          return;
        }
        calls := calls[c := Creating(delta)];
        return;
      }
      var size := |content.value|;
      if size != off {
        calls := calls[c := WrongOffset];
        return;
      }
      if size + |delta| > maxBytes {
        calls := calls[c := TooLarge];
        return;
      }
      calls := calls[c := Statted(off, delta, size, etag(content.value))];
    }

    method Read(c: nat)
      modifies this
      ensures Abstract() == AfterRead(old(Abstract()), c)
    {
      if c !in calls || !calls[c].Statted? {
        return;
      }
      if content.None? {
        calls := calls[c := Failed];
        return;
      }
      var existing := content.value;
      if |existing| != calls[c].size {
        calls := calls[c := WrongOffset];
        return;
      }
      calls := calls[c := Ready(calls[c].off, calls[c].delta, existing, calls[c].want)];
    }

    method Put(c: nat, etag: Tagger)
      modifies this
      ensures Abstract() == AfterPut(old(Abstract()), c, etag)
    {
      if c !in calls {
        return;
      }
      var call := calls[c];
      if call.Creating? {
        content := Some(call.delta);
        calls := calls[c := Appended(0, call.delta)];
      } else if call.Ready? {
        if content.Some? && etag(content.value) != call.want {
          calls := calls[c := WrongOffset];
          return;
        }
        content := Some(call.existing + call.delta);
        calls := calls[c := Appended(call.off, call.delta)];
      }
    }
  }

  // ----- runs

  datatype Step =
    | Stat(c: nat, off: nat, delta: Bytes)
    | Read(c: nat)
    | Put(c: nat)
    | Abort(c: nat)
    | Overwrite(data: Bytes)

  function Next(s: State, step: Step, maxBytes: nat, etag: Tagger): State {
    match step
    case Stat(c, off, delta) => AfterStat(s, c, off, delta, maxBytes, etag)
    case Read(c) => AfterRead(s, c)
    case Put(c) => AfterPut(s, c, etag)
    case Abort(c) => AfterAbort(s, c)
    case Overwrite(data) => s.(content := Some(data))
  }

  /** This step is the one that answers request c with success. */
  predicate Commits(s: State, step: Step, etag: Tagger) {
    step.Put? && step.c in s.calls && !s.calls[step.c].Appended? &&
    AfterPut(s, step.c, etag).calls[step.c].Appended?
  }

  datatype Commit = Commit(c: nat, off: nat, delta: Bytes)

  /** A run of steps: the state it ends in and its successful appends in commit order. */
  function Run(s: State, steps: seq<Step>, maxBytes: nat, etag: Tagger): (State, seq<Commit>) {
    if steps == [] then (s, [])
    else
      var (mid, done) := Run(s, steps[..|steps| - 1], maxBytes, etag);
      var step := steps[|steps| - 1];
      var s' := Next(mid, step, maxBytes, etag);
      (s', if Commits(mid, step, etag)
           then done + [Commit(step.c, s'.calls[step.c].off, s'.calls[step.c].delta)] else done)
  }

  /** The initial content and then the deltas, one after the other. */
  function Joined(initial: Bytes, done: seq<Commit>): Bytes {
    if done == [] then initial else Joined(initial, done[..|done| - 1]) + done[|done| - 1].delta
  }

  lemma {:induction false} JoinedPrefix(initial: Bytes, done: seq<Commit>, k: nat)
    requires k <= |done|
    ensures Joined(initial, done[..k]) <= Joined(initial, done)
    decreases |done| - k
  {
    if k == |done| {
      assert done[..k] == done;
    } else {
      JoinedPrefix(initial, done, k + 1);
      assert done[..k + 1][..k] == done[..k];
    }
  }

  /** The request saw the content after the first k appends. */
  ghost predicate Saw(initial: Bytes, done: seq<Commit>, seen: Bytes, k: nat) {
    k <= |done| && seen == Joined(initial, done[..k])
  }

  /** What a request in flight knows is the content at some earlier moment. */
  ghost predicate CallOk(call: Call, initial: Bytes, done: seq<Commit>, maxBytes: nat, etag: Tagger) {
    match call
    case Statted(off, delta, size, want) =>
      off == size && size + |delta| <= maxBytes &&
      exists seen, k: nat :: Saw(initial, done, seen, k) && want == etag(seen) && |seen| == size
    case Ready(off, delta, existing, want) =>
      off == |existing| && |existing| + |delta| <= maxBytes && want == etag(existing) &&
      exists k: nat :: Saw(initial, done, existing, k)
    case Creating(_) => false
    case _ => true
  }

  ghost predicate Inv(s: State, initial: Bytes, done: seq<Commit>, maxBytes: nat, etag: Tagger) {
    && s.content == Some(Joined(initial, done))
    && (forall c :: c in s.calls ==> CallOk(s.calls[c], initial, done, maxBytes, etag))
    && (forall i :: 0 <= i < |done| ==> done[i].off == |Joined(initial, done[..i])|)
    && (|initial| <= maxBytes ==> |Joined(initial, done)| <= maxBytes)
  }

  /** Appends only ever add to what requests have seen. */
  lemma CallOkGrows(call: Call, initial: Bytes, done: seq<Commit>, more: Commit, maxBytes: nat, etag: Tagger)
    requires CallOk(call, initial, done, maxBytes, etag)
    ensures CallOk(call, initial, done + [more], maxBytes, etag)
  {
    match call
    case Statted(off, delta, size, want) =>
      var seen, k: nat :| Saw(initial, done, seen, k) && want == etag(seen) && |seen| == size;
      assert (done + [more])[..k] == done[..k];
      assert Saw(initial, done + [more], seen, k);
    case Ready(off, delta, existing, want) =>
      var k: nat :| Saw(initial, done, existing, k);
      assert (done + [more])[..k] == done[..k];
      assert Saw(initial, done + [more], existing, k);
    case _ =>
  }

  /** A stat sees the content of this moment. */
  lemma StatKeepsInv(s: State, c: nat, off: nat, delta: Bytes, initial: Bytes, done: seq<Commit>, maxBytes: nat, etag: Tagger)
    requires Inv(s, initial, done, maxBytes, etag)
    ensures Inv(AfterStat(s, c, off, delta, maxBytes, etag), initial, done, maxBytes, etag)
  {
    assert done[..|done|] == done;
    assert Saw(initial, done, s.content.value, |done|);
  }

  /** A read that finds the length of the stat finds the bytes of the stat: the content only grows. */
  lemma ReadKeepsInv(s: State, c: nat, initial: Bytes, done: seq<Commit>, maxBytes: nat, etag: Tagger)
    requires Inv(s, initial, done, maxBytes, etag)
    ensures Inv(AfterRead(s, c), initial, done, maxBytes, etag)
  {
    if c in s.calls && s.calls[c].Statted? && |s.content.value| == s.calls[c].size {
      var call := s.calls[c];
      assert CallOk(call, initial, done, maxBytes, etag);
      var seen, k: nat :| Saw(initial, done, seen, k) && call.want == etag(seen) && |seen| == call.size;
      JoinedPrefix(initial, done, k);
      assert seen == s.content.value;
      assert Saw(initial, done, s.content.value, k);
    }
  }

  /** A put that passes its precondition adds its delta to the current content. */
  lemma CommitKeepsInv(s: State, c: nat, initial: Bytes, done: seq<Commit>, maxBytes: nat, etag: Tagger)
    requires Inv(s, initial, done, maxBytes, etag) && Injective(etag)
    requires Commits(s, Put(c), etag)
    ensures s.calls[c].Ready? && s.calls[c].existing == s.content.value
    ensures Inv(AfterPut(s, c, etag), initial, done + [Commit(c, s.calls[c].off, s.calls[c].delta)], maxBytes, etag)
  {
    var call := s.calls[c];
    assert CallOk(call, initial, done, maxBytes, etag);
    assert etag(s.content.value) == etag(call.existing);
    var done' := done + [Commit(c, call.off, call.delta)];
    assert done'[..|done|] == done;
    forall d | d in s.calls ensures CallOk(s.calls[d], initial, done', maxBytes, etag) {
      CallOkGrows(s.calls[d], initial, done, Commit(c, call.off, call.delta), maxBytes, etag);
    }
    forall i | 0 <= i < |done'| ensures done'[i].off == |Joined(initial, done'[..i])| {
      if i < |done| {
        assert done'[..i] == done[..i];
      }
    }
  }

  lemma StepKeepsInv(s: State, step: Step, initial: Bytes, done: seq<Commit>, maxBytes: nat, etag: Tagger)
    requires Inv(s, initial, done, maxBytes, etag) && Injective(etag) && !step.Overwrite?
    ensures var s' := Next(s, step, maxBytes, etag);
            Inv(s', initial,
              if Commits(s, step, etag) then done + [Commit(step.c, s'.calls[step.c].off, s'.calls[step.c].delta)] else done,
              maxBytes, etag)
  {
    match step
    case Stat(c, off, delta) => StatKeepsInv(s, c, off, delta, initial, done, maxBytes, etag);
    case Read(c) => ReadKeepsInv(s, c, initial, done, maxBytes, etag);
    case Put(c) =>
      if Commits(s, step, etag) {
        CommitKeepsInv(s, c, initial, done, maxBytes, etag);
      } else if c in s.calls {
        assert CallOk(s.calls[c], initial, done, maxBytes, etag);
      }
    case Abort(c) =>
  }

  predicate OnlyAppends(steps: seq<Step>) {
    forall i :: 0 <= i < |steps| ==> !steps[i].Overwrite?
  }

  /** Every interleaving of appends on an existing object leaves the initial content followed by the
      successful deltas in commit order, each at the offset it asked for, and the append limit is
      never passed. */
  lemma {:induction false} AppendsInOrder(initial: Bytes, steps: seq<Step>, maxBytes: nat, etag: Tagger)
    requires Injective(etag) && OnlyAppends(steps)
    ensures var (s, done) := Run(State(Some(initial), map[]), steps, maxBytes, etag);
            && Inv(s, initial, done, maxBytes, etag)
            && s.content == Some(Joined(initial, done))
            && (forall i :: 0 <= i < |done| ==> done[i].off == |Joined(initial, done[..i])|)
            && (|initial| <= maxBytes ==> |s.content.value| <= maxBytes)
  {
    if steps != [] {
      var before := steps[..|steps| - 1];
      AppendsInOrder(initial, before, maxBytes, etag);
      var (mid, done) := Run(State(Some(initial), map[]), before, maxBytes, etag);
      StepKeepsInv(mid, steps[|steps| - 1], initial, done, maxBytes, etag);
    }
  }

  /** Successes are never taken back. */
  lemma {:induction false} CommitsStay(s: State, steps: seq<Step>, k: nat, maxBytes: nat, etag: Tagger)
    requires k <= |steps|
    ensures Run(s, steps[..k], maxBytes, etag).1 <= Run(s, steps, maxBytes, etag).1
    decreases |steps| - k
  {
    if k == |steps| {
      assert steps[..k] == steps;
    } else {
      CommitsStay(s, steps, k + 1, maxBytes, etag);
      assert steps[..k + 1][..k] == steps[..k];
    }
  }

  /** The bytes of the i-th append are where its offset says. */
  lemma DeltaAt(initial: Bytes, done: seq<Commit>, i: nat)
    requires i < |done| && done[i].off == |Joined(initial, done[..i])|
    ensures var all := Joined(initial, done);
            done[i].off + |done[i].delta| <= |all| && all[done[i].off..done[i].off + |done[i].delta|] == done[i].delta
  {
    JoinedPrefix(initial, done, i + 1);
    assert done[..i + 1][..i] == done[..i];
    assert Joined(initial, done[..i + 1]) == Joined(initial, done[..i]) + done[i].delta;
  }

  /** A success at offset N with n bytes owns [N, N + n) from then on: at every later moment of the
      run those bytes are its delta. */
  lemma OwnsItsBytes(initial: Bytes, steps: seq<Step>, k: nat, i: nat, maxBytes: nat, etag: Tagger)
    requires Injective(etag) && OnlyAppends(steps) && k <= |steps|
    requires i < |Run(State(Some(initial), map[]), steps[..k], maxBytes, etag).1|
    ensures var commit := Run(State(Some(initial), map[]), steps[..k], maxBytes, etag).1[i];
            var later := Run(State(Some(initial), map[]), steps, maxBytes, etag).0.content;
            && later.Some? && commit.off + |commit.delta| <= |later.value|
            && later.value[commit.off..commit.off + |commit.delta|] == commit.delta
  {
    var start := State(Some(initial), map[]);
    var done := Run(start, steps, maxBytes, etag).1;
    CommitsStay(start, steps, k, maxBytes, etag);
    AppendsInOrder(initial, steps, maxBytes, etag);
    DeltaAt(initial, done, i);
  }

  /** A request that has read the object commits exactly while the content carries the ETag of its stat, or is
      gone altogether. */
  lemma CommitsIff(s: State, c: nat, etag: Tagger)
    requires c in s.calls && s.calls[c].Ready?
    ensures Commits(s, Put(c), etag) <==> s.content.None? || etag(s.content.value) == s.calls[c].want
    ensures Commits(s, Put(c), etag) ==>
              AfterPut(s, c, etag).calls[c] == Appended(s.calls[c].off, s.calls[c].delta)
    ensures !Commits(s, Put(c), etag) ==>
              AfterPut(s, c, etag).content == s.content && AfterPut(s, c, etag).calls[c] == WrongOffset
  {
  }

  /** A request that nobody gets between succeeds if and only if it names the end of the object and fits the
      limit, and then the object ends in its bytes. */
  lemma AloneSucceedsIff(s: State, c: nat, off: nat, delta: Bytes, maxBytes: nat, etag: Tagger)
    requires s.content.Some? && c !in s.calls
    ensures var end := Next(Next(Next(s, Stat(c, off, delta), maxBytes, etag), Read(c), maxBytes, etag), Put(c), maxBytes, etag);
            && c in end.calls
            && (end.calls[c] == Appended(off, delta) <==> off == |s.content.value| && off + |delta| <= maxBytes)
            && end.content == Some(s.content.value + if end.calls[c].Appended? then delta else [])
  {
    assert s.content.value + [] == s.content.value;
  }

  /** Where there is no object the same request creates it, at offset 0 only and whatever its size. */
  lemma CreatesIff(s: State, c: nat, off: nat, delta: Bytes, maxBytes: nat, etag: Tagger)
    requires s.content.None? && c !in s.calls
    ensures var end := Next(Next(s, Stat(c, off, delta), maxBytes, etag), Put(c), maxBytes, etag);
            && c in end.calls && end.calls[c] == (if off == 0 then Appended(0, delta) else WrongOffset)
            && end.content == if off == 0 then Some(delta) else None
  {
  }

  /** Of two requests that have read the same content one wins: once the first has put a byte the second is
      told that its offset is wrong, and changes nothing. */
  lemma OneWins(s: State, a: nat, b: nat, etag: Tagger)
    requires Injective(etag) && s.content.Some? && a != b && a in s.calls && b in s.calls
    requires s.calls[a].Ready? && s.calls[b].Ready? && s.calls[a].delta != []
    requires s.calls[a].existing == s.calls[b].existing == s.content.value
    requires s.calls[a].want == s.calls[b].want == etag(s.content.value)
    ensures Commits(s, Put(a), etag)
    ensures var s' := AfterPut(s, a, etag);
            !Commits(s', Put(b), etag) && AfterPut(s', b, etag).content == s'.content
            && AfterPut(s', b, etag).calls[b] == WrongOffset
  {
    var s' := AfterPut(s, a, etag);
    CommitsIff(s, a, etag);
    assert |s'.content.value| != |s.content.value|;
    CommitsIff(s', b, etag);
  }

  /** Whatever else writes the object: a put that passes its precondition extends the stored content
      if and only if the bytes it read carry the ETag of its stat. The code compares lengths only. */
  lemma ExtendsIff(s: State, c: nat, etag: Tagger)
    requires Injective(etag) && s.content.Some? && Commits(s, Put(c), etag) && s.calls[c].Ready?
    ensures AfterPut(s, c, etag).content == Some(s.content.value + s.calls[c].delta)
            <==> etag(s.calls[c].existing) == s.calls[c].want
  {
    var call := s.calls[c];
    assert etag(s.content.value) == call.want;
    if call.existing + call.delta == s.content.value + call.delta {
      assert |call.existing| == |s.content.value|;
      assert (call.existing + call.delta)[..|call.existing|] == call.existing;
      assert (s.content.value + call.delta)[..|call.existing|] == s.content.value;
    }
  }

  lemma RunStep(s: State, steps: seq<Step>, step: Step, maxBytes: nat, etag: Tagger)
    ensures var (mid, done) := Run(s, steps, maxBytes, etag);
            var s' := Next(mid, step, maxBytes, etag);
            Run(s, steps + [step], maxBytes, etag) ==
              (s', if Commits(mid, step, etag)
                   then done + [Commit(step.c, s'.calls[step.c].off, s'.calls[step.c].delta)] else done)
  {
    assert (steps + [step])[..|steps|] == steps;
  }

  /** Plain puts break it: between stat and read the object is replaced by other bytes of the same
      length, and put back before the conditional put. The append succeeds and the stored byte is
      gone. */
  lemma OverwriteBreaksAppend(a: bv8, b: bv8, d: bv8, etag: Tagger)
    requires a != b && Injective(etag)
    ensures var before := [Stat(1, 1, [d]), Overwrite([b]), Read(1), Overwrite([a])];
            && Run(State(Some([a]), map[]), before, 64, etag).0.content == Some([a])
            && Run(State(Some([a]), map[]), before + [Put(1)], 64, etag).0.content == Some([b, d])
            && Run(State(Some([a]), map[]), before + [Put(1)], 64, etag).1 == [Commit(1, 1, [d])]
  {
    var start := State(Some([a]), map[]);
    var s1: seq<Step> := [] + [Stat(1, 1, [d])];
    var s2, s3 := s1 + [Overwrite([b])], s1 + [Overwrite([b])] + [Read(1)];
    RunStep(start, [], Stat(1, 1, [d]), 64, etag);
    RunStep(start, s1, Overwrite([b]), 64, etag);
    RunStep(start, s2, Read(1), 64, etag);
    RunStep(start, s3, Overwrite([a]), 64, etag);
    assert s3 + [Overwrite([a])] == [Stat(1, 1, [d]), Overwrite([b]), Read(1), Overwrite([a])];
    RunStep(start, s3 + [Overwrite([a])], Put(1), 64, etag);
    assert [b] + [d] == [b, d];
  }
}
