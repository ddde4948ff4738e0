/** The client side of the cluster lock (internal/cluster/dsync.go): fan one request out to every
    peer, count the yes answers, and retry with a new token until a quorum says yes. */
module Coordinator {
  import opened LockTable
  import opened NodeSets
  import opened QuorumLock
  import Tokens

  /** What the network does to one request and its reply. */
  datatype Link = Link(requestArrives: bool, replyArrives: bool)

  datatype LockOp = Grab(exclusive: bool) | Undo(exclusive: bool) | KeepAlive

  function Answer(t: Table, op: LockOp, res: string, token: string, now: int): (Table, bool) {
    match op
    case Grab(exclusive) => AfterAcquire(t, res, token, exclusive, now)
    case Undo(exclusive) => (AfterRelease(t, res, token, exclusive), true)
    case KeepAlive => AfterRefresh(t, res, token, now)
  }

  /** The peers whose yes comes back. */
  ghost function YesSet(tables: seq<Table>, op: LockOp, res: string, token: string, now: int, net: seq<Link>): set<nat>
    requires |net| == |tables|
  {
    set i: nat | i in Nodes(|tables|) && net[i].requestArrives && net[i].replyArrives
                 && Answer(tables[i], op, res, token, now).1
  }

  /** Every table that was reached has answered; the others are untouched. */
  ghost predicate Answered(before: seq<Table>, after: seq<Table>, op: LockOp, res: string, token: string,
                           now: int, net: seq<Link>)
    requires |net| == |before| == |after|
  {
    forall i :: 0 <= i < |after| ==>
      after[i] == if net[i].requestArrives then Answer(before[i], op, res, token, now).0 else before[i]
  }

  /** One request over one link: the new table, and whether a yes came back. */
  function Exchange(t: Table, op: LockOp, res: string, token: string, now: int, link: Link): (Table, bool) {
    if link.requestArrives
    then (Answer(t, op, res, token, now).0, link.replyArrives && Answer(t, op, res, token, now).1)
    else (t, false)
  }

  /** The first peers, up to n, whose yes comes back. */
  ghost function YesBelow(tables: seq<Table>, op: LockOp, res: string, token: string, now: int, net: seq<Link>, n: nat): (yes: set<nat>)
    requires |net| == |tables| && n <= |tables|
    ensures forall k: nat :: k in yes <==> k < n && Exchange(tables[k], op, res, token, now, net[k]).1
  {
    set k: nat | k in Nodes(n) && Exchange(tables[k], op, res, token, now, net[k]).1
  }

  lemma YesNext(tables: seq<Table>, op: LockOp, res: string, token: string, now: int, net: seq<Link>, n: nat)
    requires |net| == |tables| && n < |tables|
    ensures |YesBelow(tables, op, res, token, now, net, n + 1)| ==
              |YesBelow(tables, op, res, token, now, net, n)| + if Exchange(tables[n], op, res, token, now, net[n]).1 then 1 else 0
  {
    var yes, before := Exchange(tables[n], op, res, token, now, net[n]).1, YesBelow(tables, op, res, token, now, net, n);
    assert YesBelow(tables, op, res, token, now, net, n + 1) == if yes then before + {n} else before;
  }

  /** Fan out: `tables[i]` is the lock table of peer i, local or remote. */
  method TryAll(tables: array<Table>, op: LockOp, res: string, token: string, now: int, net: seq<Link>)
    returns (grants: nat)
    requires |net| == tables.Length
    modifies tables
    ensures Answered(old(tables[..]), tables[..], op, res, token, now, net)
    ensures grants == |YesSet(old(tables[..]), op, res, token, now, net)|
  {
    grants := 0;
    ghost var before := tables[..];
    for i := 0 to tables.Length
      invariant forall k :: i <= k < tables.Length ==> tables[k] == before[k]
      invariant forall k :: 0 <= k < i ==> tables[k] == Exchange(before[k], op, res, token, now, net[k]).0
      invariant grants == |YesBelow(before, op, res, token, now, net, i)|
    {
      var (t, yes) := Exchange(tables[i], op, res, token, now, net[i]);
      tables[i] := t;
      YesNext(before, op, res, token, now, net, i);
      if yes {
        grants := grants + 1;
      }
    }
    assert YesBelow(before, op, res, token, now, net, tables.Length) == YesSet(before, op, res, token, now, net);
  }

  /** One attempt of the retry loop: its fresh token, and what the network does to it. */
  datatype Round = Round(token: string, now: int, ask: seq<Link>, undo: seq<Link>)

  predicate HeldBy(t: Table, res: string, exclusive: bool, token: string) {
    if exclusive then t.ExclusivelyHeldBy(res, token) else t.SharedBy(res, token)
  }

  ghost function Holders(tables: seq<Table>, res: string, exclusive: bool, token: string, until: int): set<nat> {
    set i: nat | i in Nodes(|tables|) && HeldBy(tables[i], res, exclusive, token) && tables[i].m[res].expiry == until
  }

  /** More than half of the tables hold the token of the round for a full time to live. */
  ghost predicate HeldByQuorum(tables: seq<Table>, res: string, exclusive: bool, r: Round) {
    |Holders(tables, res, exclusive, r.token, r.now + LOCK_TTL)| >= |tables| / 2 + 1
  }

  lemma YesMeansHeld(before: seq<Table>, after: seq<Table>, res: string, exclusive: bool, token: string,
                     now: int, net: seq<Link>)
    requires |net| == |before| == |after|
    requires Answered(before, after, Grab(exclusive), res, token, now, net)
    ensures |YesSet(before, Grab(exclusive), res, token, now, net)|
         <= |Holders(after, res, exclusive, token, now + LOCK_TTL)|
  {
    var yes, held := YesSet(before, Grab(exclusive), res, token, now, net),
                     Holders(after, res, exclusive, token, now + LOCK_TTL);
    forall i: nat | i in yes ensures i in held {
      assert after[i] == Answer(before[i], Grab(exclusive), res, token, now).0;
    }
    SubsetSize(yes, held);
  }

  ghost predicate NobodyHolds(tables: seq<Table>, res: string, exclusive: bool, token: string) {
    forall i :: 0 <= i < |tables| ==> !HeldBy(tables[i], res, exclusive, token)
  }

  /** The peers that confirm a refresh are those that are reached, hear back and hold the token, and each of
      them then holds it for a full time to live again. */
  lemma ConfirmedAreHolders(before: seq<Table>, after: seq<Table>, res: string, token: string, now: int, net: seq<Link>)
    requires |net| == |before| == |after| && Answered(before, after, KeepAlive, res, token, now, net)
    ensures forall i: nat :: i in YesSet(before, KeepAlive, res, token, now, net) <==>
              i < |before| && net[i] == Link(true, true) &&
              (HeldBy(before[i], res, true, token) || HeldBy(before[i], res, false, token))
    ensures forall i :: i in YesSet(before, KeepAlive, res, token, now, net) ==>
              res in after[i].m && after[i].m[res] == before[i].m[res].(expiry := now + LOCK_TTL)
  {
  }

  /** An attempt that is undone everywhere takes its token off every table and gives no table to
      any other token. */
  lemma UndoneRound(before: seq<Table>, asked: seq<Table>, after: seq<Table>, res: string, exclusive: bool,
                    r: Round, other: string)
    requires |r.ask| == |r.undo| == |before| == |asked| == |after|
    requires Answered(before, asked, Grab(exclusive), res, r.token, r.now, r.ask)
    requires Answered(asked, after, Undo(exclusive), res, r.token, r.now, r.undo)
    requires forall i :: 0 <= i < |before| ==> r.undo[i].requestArrives
    ensures NobodyHolds(after, res, exclusive, r.token)
    ensures NobodyHolds(before, res, exclusive, other) ==> NobodyHolds(after, res, exclusive, other)
  {
    forall i | 0 <= i < |after|
      ensures !HeldBy(after[i], res, exclusive, r.token)
      ensures !HeldBy(before[i], res, exclusive, other) ==> !HeldBy(after[i], res, exclusive, other)
    {
      assert after[i] == AfterRelease(asked[i], res, r.token, exclusive);
      if r.ask[i].requestArrives {
        assert asked[i] == AfterAcquire(before[i], res, r.token, exclusive, r.now).0;
      }
    }
  }

  datatype Outcome = Won(round: nat) | TimedOut

  predicate UndoArrives(rounds: seq<Round>) {
    forall r, i :: r in rounds && 0 <= i < |r.undo| ==> r.undo[i].requestArrives
  }

  predicate Sized(rounds: seq<Round>, n: nat) {
    forall r :: r in rounds ==> |r.ask| == |r.undo| == n
  }

  /** The tables after one request has gone out to all of them. */
  function FanOut(before: seq<Table>, op: LockOp, res: string, token: string, now: int, net: seq<Link>): (after: seq<Table>)
    requires |net| == |before|
    ensures |after| == |before| && Answered(before, after, op, res, token, now, net)
  {
    seq(|before|, i requires 0 <= i < |before| => Exchange(before[i], op, res, token, now, net[i]).0)
  }

  lemma AnsweredOnce(before: seq<Table>, after: seq<Table>, op: LockOp, res: string, token: string, now: int, net: seq<Link>)
    requires |net| == |before| == |after| && Answered(before, after, op, res, token, now, net)
    ensures after == FanOut(before, op, res, token, now, net)
  {
  }

  /** More than half of the peers say yes to the round. */
  ghost predicate Wins(tables: seq<Table>, res: string, exclusive: bool, r: Round)
    requires |r.ask| == |tables|
  {
    |YesSet(tables, Grab(exclusive), res, r.token, r.now, r.ask)| >= |tables| / 2 + 1
  }

  /** The tables after a round that was asked and taken back. */
  function Undone(tables: seq<Table>, res: string, exclusive: bool, r: Round): (after: seq<Table>)
    requires |r.ask| == |r.undo| == |tables|
    ensures |after| == |tables|
  {
    FanOut(FanOut(tables, Grab(exclusive), res, r.token, r.now, r.ask), Undo(exclusive), res, r.token, r.now, r.undo)
  }

  /** The tables that round k finds, when the rounds before it were asked and undone. */
  function Found(tables: seq<Table>, res: string, exclusive: bool, rounds: seq<Round>, k: nat): (found: seq<Table>)
    requires Sized(rounds, |tables|) && k <= |rounds|
    ensures |found| == |tables|
  {
    if k == 0 then tables
    else
      assert rounds[k - 1] in rounds;
      Undone(Found(tables, res, exclusive, rounds, k - 1), res, exclusive, rounds[k - 1])
  }

  /** Round k gets a yes from more than half of the peers. */
  ghost predicate WinsAt(tables: seq<Table>, res: string, exclusive: bool, rounds: seq<Round>, k: nat)
    requires Sized(rounds, |tables|) && k < |rounds|
  {
    assert rounds[k] in rounds;
    Wins(Found(tables, res, exclusive, rounds, k), res, exclusive, rounds[k])
  }

  /** No round before k wins. */
  ghost predicate NoneWins(tables: seq<Table>, res: string, exclusive: bool, rounds: seq<Round>, k: nat)
    requires Sized(rounds, |tables|) && k <= |rounds|
  {
    forall j :: 0 <= j < k ==> !WinsAt(tables, res, exclusive, rounds, j)
  }

  lemma NoneWinsNext(tables: seq<Table>, res: string, exclusive: bool, rounds: seq<Round>, k: nat)
    requires Sized(rounds, |tables|) && k < |rounds|
    requires NoneWins(tables, res, exclusive, rounds, k) && !WinsAt(tables, res, exclusive, rounds, k)
    ensures NoneWins(tables, res, exclusive, rounds, k + 1)
  {
  }

  /** A peer that is reached and hears back, whose table has the resource free or expired and no younger
      fence, says yes. So where that is so of more than half of the peers the first round wins. */
  lemma FreeQuorumWins(tables: seq<Table>, res: string, exclusive: bool, rounds: seq<Round>, free: set<nat>)
    requires Sized(rounds, |tables|) && rounds != [] && |free| >= |tables| / 2 + 1
    requires var r := rounds[0]; r in rounds && forall i :: i in free ==>
               && i < |tables| && r.ask[i] == Link(true, true)
               && (res !in tables[i].m || r.now > tables[i].m[res].expiry)
               && (exclusive ==> Tokens.TokenSeqOf(r.token) >= tables[i].High(res))
    ensures WinsAt(tables, res, exclusive, rounds, 0)
  {
    var r := rounds[0];
    forall i | i in free ensures i in YesSet(tables, Grab(exclusive), res, r.token, r.now, r.ask) {
      if exclusive {
        ExclusiveGrantIff(tables[i], res, r.token, r.now);
      } else {
        SharedGrantIff(tables[i], res, r.token, r.now);
      }
    }
    SubsetSize(free, YesSet(tables, Grab(exclusive), res, r.token, r.now, r.ask));
  }

  /** One attempt: ask every peer, and take it back from every peer unless a quorum says yes. */
  method TryRound(tables: array<Table>, res: string, exclusive: bool, r: Round) returns (won: bool)
    requires |r.ask| == |r.undo| == tables.Length
    modifies tables
    ensures won <==> Wins(old(tables[..]), res, exclusive, r)
    ensures won ==> HeldByQuorum(tables[..], res, exclusive, r)
    ensures !won ==> tables[..] == Undone(old(tables[..]), res, exclusive, r)
  {
    ghost var before := tables[..];
    var grants := TryAll(tables, Grab(exclusive), res, r.token, r.now, r.ask);
    ghost var asked := tables[..];
    YesMeansHeld(before, asked, res, exclusive, r.token, r.now, r.ask);
    won := grants >= Quorum(tables.Length);
    if won {
      return;
    }
    AnsweredOnce(before, asked, Grab(exclusive), res, r.token, r.now, r.ask);
    var _ := TryAll(tables, Undo(exclusive), res, r.token, r.now, r.undo);
    AnsweredOnce(asked, tables[..], Undo(exclusive), res, r.token, r.now, r.undo);
  }

  /** Round k, on the tables that it finds. */
  method TryNext(tables: array<Table>, res: string, exclusive: bool, rounds: seq<Round>, k: nat, ghost start: seq<Table>)
    returns (won: bool)
    requires |start| == tables.Length && Sized(rounds, |start|) && k < |rounds|
    requires tables[..] == Found(start, res, exclusive, rounds, k)
    modifies tables
    ensures won <==> WinsAt(start, res, exclusive, rounds, k)
    ensures won ==> HeldByQuorum(tables[..], res, exclusive, rounds[k])
    ensures !won ==> tables[..] == Found(start, res, exclusive, rounds, k + 1)
  {
    assert rounds[k] in rounds;
    won := TryRound(tables, res, exclusive, rounds[k]);
  }

  /** When every undo arrives nothing is left of the rounds that were taken back. */
  lemma {:induction false} NothingLeft(tables: seq<Table>, res: string, exclusive: bool, rounds: seq<Round>, k: nat, j: nat)
    requires Sized(rounds, |tables|) && UndoArrives(rounds) && j < k <= |rounds|
    ensures NobodyHolds(Found(tables, res, exclusive, rounds, k), res, exclusive, rounds[j].token)
  {
    var r := rounds[k - 1];
    assert r in rounds;
    var before := Found(tables, res, exclusive, rounds, k - 1);
    if j < k - 1 {
      NothingLeft(tables, res, exclusive, rounds, k - 1, j);
    }
    var asked := FanOut(before, Grab(exclusive), res, r.token, r.now, r.ask);
    UndoneRound(before, asked, Undone(before, res, exclusive, r), res, exclusive, r, rounds[j].token);
  }

  /** The retry loop; `rounds` runs until the deadline or the caller's context ends it. The call is won by
      the first round that gets a yes from more than half of the peers, and lost if and only if there is
      none. A win means a quorum of tables really holds the winner's token for a full time to live. A loss
      whose undo requests all arrive leaves none of the attempted tokens on any table. */
  method GrabLock(tables: array<Table>, res: string, exclusive: bool, rounds: seq<Round>) returns (out: Outcome)
    requires Sized(rounds, tables.Length)
    modifies tables
    ensures out.Won? ==> out.round < |rounds| && WinsAt(old(tables[..]), res, exclusive, rounds, out.round)
    ensures out.Won? ==> NoneWins(old(tables[..]), res, exclusive, rounds, out.round)
    ensures out.TimedOut? <==> NoneWins(old(tables[..]), res, exclusive, rounds, |rounds|)
    ensures out.Won? ==> HeldByQuorum(tables[..], res, exclusive, rounds[out.round])
    ensures out.TimedOut? && UndoArrives(rounds) ==>
      forall k :: 0 <= k < |rounds| ==> NobodyHolds(tables[..], res, exclusive, rounds[k].token)
  {
    var k := 0;
    ghost var start := tables[..];
    while k < |rounds|
      invariant 0 <= k <= |rounds|
      invariant tables[..] == Found(start, res, exclusive, rounds, k)
      invariant NoneWins(start, res, exclusive, rounds, k)
    {
      var won := TryNext(tables, res, exclusive, rounds, k, start);
      if won {
        return Won(k);
      }
      NoneWinsNext(start, res, exclusive, rounds, k);
      k := k + 1;
    }
    out := TimedOut;
    if UndoArrives(rounds) {
      forall j | 0 <= j < |rounds| ensures NobodyHolds(tables[..], res, exclusive, rounds[j].token) {
        NothingLeft(start, res, exclusive, rounds, |rounds|, j);
      }
    }
  }
}
