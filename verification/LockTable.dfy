/** Lock tokens: "<sequence in base 36>-<random>" (internal/cluster/dsync.go). */
module Tokens {

  const MAX_UINT64: nat := 0xFFFF_FFFF_FFFF_FFFF

  function Digit(d: nat): char
    requires d < 36
  {
    if d < 10 then '0' + d as char else 'a' + (d - 10) as char
  }

  /** The value of a base-36 digit; 36 for a character that is not one. */
  function DigitValue(c: char): nat {
    if '0' <= c <= '9' then (c - '0') as nat
    else if 'a' <= c <= 'z' then (c - 'a') as nat + 10
    else if 'A' <= c <= 'Z' then (c - 'A') as nat + 10
    else 36
  }

  function Format36(n: nat): string {
    if n < 36 then [Digit(n)] else Format36(n / 36) + [Digit(n % 36)]
  }

  /** Unsigned parse with the error discarded: a syntax error reads as 0 and an overflow as the
      largest value, whichever is met first. */
  function Parse36(s: string, acc: nat): nat {
    if s == [] then acc
    else
      var d := DigitValue(s[0]);
      if d >= 36 then 0
      else if acc * 36 + d > MAX_UINT64 then MAX_UINT64
      else Parse36(s[1..], acc * 36 + d)
  }

  /** Index of the first '-' at or after i, or |s|. */
  function DashFrom(s: string, i: nat): (r: nat)
    requires i <= |s|
    ensures i <= r <= |s|
    ensures forall k :: i <= k < r ==> s[k] != '-'
    ensures r < |s| ==> s[r] == '-'
    decreases |s| - i
  {
    if i == |s| || s[i] == '-' then i else DashFrom(s, i + 1)
  }

  function TokenSeqOf(tok: string): nat {
    var i := DashFrom(tok, 0);
    if 0 < i < |tok| then Parse36(tok[..i], 0) else 0
  }

  function MakeToken(sequence: nat, random: string): string {
    Format36(sequence) + "-" + random
  }

  lemma {:induction false} FormatHasNoDash(n: nat)
    ensures |Format36(n)| > 0
    ensures forall k :: 0 <= k < |Format36(n)| ==> Format36(n)[k] != '-'
  {
    if n >= 36 {
      FormatHasNoDash(n / 36);
    }
  }

  lemma {:induction false} ParseFormat(n: nat, rest: string)
    requires n <= MAX_UINT64
    ensures Parse36(Format36(n) + rest, 0) == Parse36(rest, n)
  {
    if n < 36 {
      assert (Format36(n) + rest)[1..] == rest;
    } else {
      var tail := [Digit(n % 36)] + rest;
      ParseFormat(n / 36, tail);
      assert Format36(n) + rest == Format36(n / 36) + tail;
      assert tail[1..] == rest;
    }
  }

  /** The fencing order survives the trip through the token text: every issued token gives back
      the counter value it was made from. */
  lemma TokenRoundTrip(sequence: nat, random: string)
    requires sequence <= MAX_UINT64
    ensures TokenSeqOf(MakeToken(sequence, random)) == sequence
  {
    var f := Format36(sequence);
    var tok := MakeToken(sequence, random);
    FormatHasNoDash(sequence);
    assert tok[|f|] == '-';
    assert forall k :: 0 <= k < |f| ==> tok[k] == f[k];
    assert DashFrom(tok, 0) == |f|;
    assert tok[..|f|] == f == f + [];
    ParseFormat(sequence, []);
  }
}

/** One node's lock table (internal/cluster/dsync.go): holds with a time to live, shared and
    exclusive, and the per-resource fence. */
module LockTable {
  import opened Tokens

  /** 60 seconds in nanoseconds. */
  const LOCK_TTL: nat := 60_000_000_000

  datatype Hold = Hold(token: string, exclusive: bool, readers: set<string>, expiry: int)

  datatype Table = Table(m: map<string, Hold>, high: map<string, nat>) {
    /** The fence of a resource; an absent map entry reads as zero. */
    function High(res: string): nat {
      if res in high then high[res] else 0
    }

    predicate Expired(res: string, now: int)
      requires res in m
    {
      now > m[res].expiry
    }

    predicate ExclusivelyHeldBy(res: string, token: string) {
      res in m && m[res].exclusive && m[res].token == token
    }

    predicate SharedBy(res: string, token: string) {
      res in m && !m[res].exclusive && token in m[res].readers
    }
  }

  const EMPTY_TABLE := Table(map[], map[])

  function Fresh(token: string, exclusive: bool, now: int): Hold {
    Hold(token, exclusive, if exclusive then {} else {token}, now + LOCK_TTL)
  }

  function AfterAcquire(t: Table, res: string, token: string, exclusive: bool, now: int): (Table, bool) {
    if exclusive && TokenSeqOf(token) < t.High(res) then (t, false)
    else if res !in t.m || t.Expired(res, now) then
      var high := if exclusive && TokenSeqOf(token) > t.High(res)
                  then t.high[res := TokenSeqOf(token)] else t.high;
      (Table(t.m[res := Fresh(token, exclusive, now)], high), true)
    else if exclusive || t.m[res].exclusive then
      if exclusive && t.ExclusivelyHeldBy(res, token)
      then (t.(m := t.m[res := t.m[res].(expiry := now + LOCK_TTL)]), true)
      else (t, false)
    else
      var h := t.m[res];
      (t.(m := t.m[res := h.(readers := h.readers + {token}, expiry := now + LOCK_TTL)]), true)
  }

  function AfterRelease(t: Table, res: string, token: string, exclusive: bool): Table {
    if exclusive then
      if t.ExclusivelyHeldBy(res, token) then Table(t.m - {res}, t.high - {res}) else t
    else if t.SharedBy(res, token) then
      var left := t.m[res].readers - {token};
      t.(m := if left == {} then t.m - {res} else t.m[res := t.m[res].(readers := left)])
    else t
  }

  function AfterRefresh(t: Table, res: string, token: string, now: int): (Table, bool) {
    if t.ExclusivelyHeldBy(res, token) || t.SharedBy(res, token)
    then (t.(m := t.m[res := t.m[res].(expiry := now + LOCK_TTL)]), true)
    else (t, false)
  }

  class LockTableServer {
    var m: map<string, Hold>
    var high: map<string, nat>

    function State(): Table
      reads this
    {
      Table(m, high)
    }

    constructor ()
      ensures State() == EMPTY_TABLE
    {
      m := map[];
      high := map[];
    }

    method Acquire(res: string, token: string, exclusive: bool, now: int) returns (granted: bool)
      modifies this
      ensures (State(), granted) == AfterAcquire(old(State()), res, token, exclusive, now)
      ensures !exclusive ==> (granted <==> res !in old(m) || now > old(m)[res].expiry || !old(m)[res].exclusive)
      ensures exclusive ==> (granted <==>
                TokenSeqOf(token) >= (if res in old(high) then old(high)[res] else 0) &&
                (res !in old(m) || now > old(m)[res].expiry || (old(m)[res].exclusive && old(m)[res].token == token)))
      ensures granted ==> res in m && m[res].expiry == now + LOCK_TTL && m[res].exclusive == exclusive
      ensures granted ==> if exclusive then m[res].token == token else token in m[res].readers
    {
      if exclusive && TokenSeqOf(token) < State().High(res) {
        return false;
      }
      if res !in m || now > m[res].expiry {
        var seqNo := TokenSeqOf(token);
        if exclusive && seqNo > State().High(res) {
          high := high[res := seqNo];
        }
        m := m[res := Fresh(token, exclusive, now)];
        return true;
      }
      var h := m[res];
      if exclusive || h.exclusive {
        if exclusive && h.exclusive && h.token == token {
          m := m[res := h.(expiry := now + LOCK_TTL)];
          return true;
        }
        return false;
      }
      m := m[res := h.(readers := h.readers + {token}, expiry := now + LOCK_TTL)];
      return true;
    }

    method Release(res: string, token: string, exclusive: bool)
      modifies this
      ensures State() == AfterRelease(old(State()), res, token, exclusive)
    {
      if res !in m {
        return;
      }
      var h := m[res];
      if exclusive {
        if h.exclusive && h.token == token {
          m := m - {res};
          high := high - {res};
        }
        return;
      }
      if h.exclusive || token !in h.readers {
        return;
      }
      var left := h.readers - {token};
      if left == {} {
        m := m - {res};
      } else {
        m := m[res := h.(readers := left)];
      }
    }

    method Refresh(res: string, token: string, now: int) returns (kept: bool)
      modifies this
      ensures (State(), kept) == AfterRefresh(old(State()), res, token, now)
      ensures kept <==> res in old(m) && if old(m)[res].exclusive then old(m)[res].token == token else token in old(m)[res].readers
      ensures kept ==> m == old(m)[res := old(m)[res].(expiry := now + LOCK_TTL)]
      ensures !kept ==> m == old(m)
      ensures high == old(high)
    {
      if res !in m {
        return false;
      }
      var h := m[res];
      if h.exclusive {
        if h.token != token {
          return false;
        }
      } else if token !in h.readers {
        return false;
      }
      m := m[res := h.(expiry := now + LOCK_TTL)];
      return true;
    }
  }

  // ----- who can be granted, and what a release can free

  /** An exclusive request is granted exactly when its token is not fenced off and the resource is
      free, expired or already held by that very token. */
  lemma ExclusiveGrantIff(t: Table, res: string, token: string, now: int)
    ensures AfterAcquire(t, res, token, true, now).1 <==>
            (TokenSeqOf(token) >= t.High(res) &&
             (res !in t.m || t.Expired(res, now) || t.ExclusivelyHeldBy(res, token)))
  {
  }

  /** What any answer says about the table afterwards: a yes is a hold of the asker for a full time to live,
      a no changes nothing, and no other resource is touched. */
  lemma AnswerIs(t: Table, res: string, token: string, exclusive: bool, now: int)
    ensures var (t', yes) := AfterAcquire(t, res, token, exclusive, now);
            && (yes ==> res in t'.m && t'.m[res].expiry == now + LOCK_TTL)
            && (yes ==> if exclusive then t'.ExclusivelyHeldBy(res, token) else t'.SharedBy(res, token))
            && (!yes ==> t' == t)
            && t'.m - {res} == t.m - {res} && t'.high - {res} == t.high - {res}
            && (!exclusive ==> t'.high == t.high)
  {
  }

  /** Readers share: a shared request is granted if and only if the resource is free, expired or held by
      readers, and who reads already goes on reading. Only an expired hold is replaced. */
  lemma SharedGrantIff(t: Table, res: string, token: string, now: int)
    ensures var (t', yes) := AfterAcquire(t, res, token, false, now);
            && (yes <==> res !in t.m || now > t.m[res].expiry || !t.m[res].exclusive)
            && (yes && res in t.m && now <= t.m[res].expiry ==> t'.m[res].readers == t.m[res].readers + {token})
            && (yes && (res !in t.m || now > t.m[res].expiry) ==> t'.m[res].readers == {token})
  {
    AnswerIs(t, res, token, false, now);
  }

  /** A hold that is released is gone: the resource is free again if and only if its exclusive holder or its
      last reader let go. */
  lemma ReleasedIff(t: Table, res: string, token: string, exclusive: bool)
    requires res in t.m && (t.m[res].exclusive || t.m[res].readers != {})
    ensures var t' := AfterRelease(t, res, token, exclusive);
            && (res !in t'.m <==> if t.m[res].exclusive then exclusive && t.m[res].token == token
                                  else !exclusive && t.m[res].readers == {token})
            && (!exclusive ==> !t'.SharedBy(res, token))
            && t'.m - {res} == t.m - {res}
  {
  }

  /** A release frees only the grant it names: every other holder, exclusive or shared, on this or
      any other resource keeps its hold and its expiry. */
  lemma ReleaseFreesOnlyItsOwn(t: Table, res: string, token: string, exclusive: bool, r: string, other: string)
    requires other != token
    ensures var t' := AfterRelease(t, res, token, exclusive);
            && (t.ExclusivelyHeldBy(r, other) ==> t'.ExclusivelyHeldBy(r, other) && t'.m[r] == t.m[r])
            && (t.SharedBy(r, other) ==> t'.SharedBy(r, other) && t'.m[r].expiry == t.m[r].expiry)
  {
    if t.SharedBy(r, other) && res == r {
      assert other in t.m[r].readers - {token};
    }
  }

  // ----- runs of one table

  datatype Op =
    | OpAcquire(res: string, token: string, exclusive: bool, now: int)
    | OpRelease(res: string, token: string, exclusive: bool)
    | OpRefresh(res: string, token: string, now: int)

  function After(t: Table, op: Op): Table {
    match op
    case OpAcquire(res, token, exclusive, now) => AfterAcquire(t, res, token, exclusive, now).0
    case OpRelease(res, token, exclusive) => AfterRelease(t, res, token, exclusive)
    case OpRefresh(res, token, now) => AfterRefresh(t, res, token, now).0
  }

  function Replay(ops: seq<Op>): Table {
    if ops == [] then EMPTY_TABLE else After(Replay(ops[..|ops| - 1]), ops[|ops| - 1])
  }

  /** After every run a shared hold has a reader, so a resource whose readers have all let go is free. */
  lemma {:induction false} SharedHasReader(ops: seq<Op>, res: string)
    ensures var t := Replay(ops); res in t.m && !t.m[res].exclusive ==> t.m[res].readers != {}
  {
    if ops != [] {
      var t, op := Replay(ops[..|ops| - 1]), ops[|ops| - 1];
      SharedHasReader(ops[..|ops| - 1], res);
      if op.OpAcquire? && op.res == res {
        AnswerIs(t, res, op.token, op.exclusive, op.now);
      }
    }
  }

  // ----- fencing over every run of one table

  predicate GrantsExclusive(t: Table, op: Op, res: string) {
    op.OpAcquire? && op.exclusive && op.res == res
    && AfterAcquire(t, res, op.token, true, op.now).1
  }

  /** The exclusive release that names the current exclusive holder. */
  predicate MatchingRelease(t: Table, op: Op, res: string) {
    op.OpRelease? && op.exclusive && op.res == res && t.ExclusivelyHeldBy(res, op.token)
  }

  /** Sequence numbers of the exclusive grants of `res`, in order, since the last matching release. */
  function GrantedSince(ops: seq<Op>, res: string): seq<nat> {
    if ops == [] then []
    else
      var t, op := Replay(ops[..|ops| - 1]), ops[|ops| - 1];
      if MatchingRelease(t, op, res) then []
      else if GrantsExclusive(t, op, res) then GrantedSince(ops[..|ops| - 1], res) + [TokenSeqOf(op.token)]
      else GrantedSince(ops[..|ops| - 1], res)
  }

  predicate NonDecreasing(s: seq<nat>) {
    forall i, j :: 0 <= i < j < |s| ==> s[i] <= s[j]
  }

  predicate HolderAtFence(t: Table, res: string) {
    res in t.m && t.m[res].exclusive ==> TokenSeqOf(t.m[res].token) == t.High(res)
  }

  lemma FenceStep(t: Table, op: Op, res: string)
    requires HolderAtFence(t, res)
    ensures HolderAtFence(After(t, op), res)
    ensures MatchingRelease(t, op, res) ==> After(t, op).High(res) == 0
    ensures GrantsExclusive(t, op, res) ==> t.High(res) <= TokenSeqOf(op.token) == After(t, op).High(res)
    ensures !MatchingRelease(t, op, res) && !GrantsExclusive(t, op, res) ==> After(t, op).High(res) == t.High(res)
  {
  }

  /** Fencing: since the last matching release, exclusive grants go to tokens of non-decreasing
      sequence, the stored fence is the sequence of the last one, and an exclusive holder is
      always a token whose sequence is exactly the fence. */
  lemma {:induction false} Fencing(ops: seq<Op>, res: string)
    ensures var g, t := GrantedSince(ops, res), Replay(ops);
            && NonDecreasing(g)
            && t.High(res) == (if g == [] then 0 else g[|g| - 1])
            && HolderAtFence(t, res)
  {
    if ops != [] {
      var before := ops[..|ops| - 1];
      Fencing(before, res);
      FenceStep(Replay(before), ops[|ops| - 1], res);
    }
  }

  /** The fence does not outlive a matching release: a token older than one already granted is
      granted as soon as the newer holder has released. */
  lemma ReleaseDropsTheFence(t: Table, res: string, newer: string, older: string, now: int)
    requires t.ExclusivelyHeldBy(res, newer)
    requires TokenSeqOf(older) < TokenSeqOf(newer) == t.High(res)
    ensures !AfterAcquire(t, res, older, true, now).1
    ensures AfterAcquire(AfterRelease(t, res, newer, true), res, older, true, now).1
  {
  }
}
