/** Finite subsets of the nodes 0..n-1. */
module NodeSets {

  function Nodes(n: nat): (r: set<nat>)
    ensures forall i: nat :: i in r <==> i < n
  {
    if n == 0 then {} else Nodes(n - 1) + {n - 1}
  }

  lemma {:induction false} NodeCount(n: nat)
    ensures |Nodes(n)| == n
  {
    if n > 0 {
      NodeCount(n - 1);
    }
  }

  lemma SubsetSize<T>(a: set<T>, b: set<T>)
    requires a <= b
    ensures |a| <= |b|
  {
    assert b == a + (b - a);
  }

  /** Two majorities of the same n nodes share a node. */
  lemma MajoritiesMeet(n: nat, a: set<nat>, b: set<nat>) returns (i: nat)
    requires a <= Nodes(n) && b <= Nodes(n)
    requires |a| + |b| > n
    ensures i in a && i in b
  {
    if a * b == {} {
      NodeCount(n);
      assert |a + b| == |a| + |b|;
      SubsetSize(a + b, Nodes(n));
      assert false;
    }
    i :| i in a * b;
  }
}

/** The cluster lock as a step system (internal/cluster/dsync.go): N lock tables, each with its own
    clock, and coordinators talking to them over a network that loses, delays, reorders and
    repeats requests and loses replies. */
module QuorumLock {
  import opened LockTable
  import opened NodeSets
  import Tokens

  /** What a token is for. A token is drawn afresh for every attempt and never reused. */
  datatype Claim = Claim(res: string, exclusive: bool)

  datatype Request =
    | Acquire(node: nat, token: string)
    | Release(node: nat, token: string)
    | Refresh(node: nat, token: string)

  /** A yes to an acquire or a refresh, stamped with the clock of the node that gave it. */
  datatype Grant = Grant(node: nat, token: string, at: int)

  /** `sent` keeps every request ever sent: delivering one any number of times, at any later
      moment, covers delay, reordering and repetition; never delivering it covers loss. `grants`
      keeps every yes, whether or not its reply reached the coordinator. */
  datatype State = State(
    tables: seq<Table>,
    clocks: seq<int>,
    claims: map<string, Claim>,
    dropped: set<string>,
    sent: set<Request>,
    grants: set<Grant>)

  function Quorum(n: nat): nat {
    n / 2 + 1
  }

  datatype Step =
    | Begin(token: string, claim: Claim)
    | SendRefresh(token: string)
    | Drop(token: string)
    | Deliver(req: Request)
    | Tick(node: nat, delta: nat)

  predicate Enabled(s: State, step: Step) {
    match step
    case Begin(token, _) => token !in s.claims
    case SendRefresh(token) => token in s.claims
    case Drop(token) => token in s.claims
    case Deliver(req) => req in s.sent && req.node < |s.tables| == |s.clocks| && req.token in s.claims
    case Tick(node, _) => node < |s.clocks|
  }

  function ToAll(n: nat, mk: nat -> Request): set<Request> {
    set i: nat | i in Nodes(n) :: mk(i)
  }

  /** The table after a request, and whether it answered yes to an acquire or a refresh. */
  function Serve(t: Table, req: Request, claim: Claim, now: int): (Table, bool) {
    match req
    case Acquire(_, token) => AfterAcquire(t, claim.res, token, claim.exclusive, now)
    case Release(_, token) => (AfterRelease(t, claim.res, token, claim.exclusive), false)
    case Refresh(_, token) => AfterRefresh(t, claim.res, token, now)
  }

  function Next(s: State, step: Step): State
    requires Enabled(s, step)
  {
    match step
    case Begin(token, claim) =>
      s.(claims := s.claims[token := claim],
         sent := s.sent + ToAll(|s.tables|, (i: nat) => Acquire(i, token)))
    case SendRefresh(token) =>
      s.(sent := s.sent + ToAll(|s.tables|, (i: nat) => Refresh(i, token)))
    case Drop(token) =>
      s.(dropped := s.dropped + {token},
         sent := s.sent + ToAll(|s.tables|, (i: nat) => Release(i, token)))
    case Deliver(req) =>
      var (t, yes) := Serve(s.tables[req.node], req, s.claims[req.token], s.clocks[req.node]);
      s.(tables := s.tables[req.node := t],
         grants := if yes then s.grants + {Grant(req.node, req.token, s.clocks[req.node])} else s.grants)
    case Tick(node, delta) =>
      s.(clocks := s.clocks[node := s.clocks[node] + delta])
  }

  predicate Init(s: State) {
    && |s.tables| == |s.clocks|
    && (forall i :: 0 <= i < |s.tables| ==> s.tables[i] == EMPTY_TABLE)
    && s.claims == map[] && s.dropped == {} && s.sent == {} && s.grants == {}
  }

  // ----- what every step keeps

  /** Table t backs a grant that runs to `until`: the hold is there, in the claimed mode, and
      lasts at least that long. */
  predicate Backs(t: Table, claim: Claim, token: string, until: int) {
    && (if claim.exclusive then t.ExclusivelyHeldBy(claim.res, token) else t.SharedBy(claim.res, token))
    && t.m[claim.res].expiry >= until
  }

  /** A grant is live while its holder has not dropped it and the granting node's clock has not
      run past its time to live. */
  predicate Live(s: State, g: Grant) {
    g in s.grants && g.node < |s.clocks| && g.token !in s.dropped && s.clocks[g.node] <= g.at + LOCK_TTL
  }

  /** Holds belong to the claims that asked for them and never outlive one time to live. */
  predicate TableSound(t: Table, claims: map<string, Claim>, now: int) {
    forall res :: res in t.m ==>
      && t.m[res].expiry <= now + LOCK_TTL
      && (t.m[res].exclusive ==> t.m[res].token in claims && claims[t.m[res].token] == Claim(res, true))
      && (!t.m[res].exclusive ==>
           forall r :: r in t.m[res].readers ==> r in claims && claims[r] == Claim(res, false))
  }

  predicate RequestSound(s: State, req: Request) {
    && req.node < |s.tables|
    && req.token in s.claims
    && (req.Release? ==> req.token in s.dropped)
  }

  predicate GrantSound(s: State, g: Grant)
    requires |s.tables| == |s.clocks|
  {
    && g.node < |s.tables|
    && g.token in s.claims
    && (Live(s, g) ==> Backs(s.tables[g.node], s.claims[g.token], g.token, g.at + LOCK_TTL))
  }

  ghost predicate Inv(s: State) {
    && |s.tables| == |s.clocks|
    && (forall i :: 0 <= i < |s.tables| ==> TableSound(s.tables[i], s.claims, s.clocks[i]))
    && (forall req :: req in s.sent ==> RequestSound(s, req))
    && (forall g :: g in s.grants ==> GrantSound(s, g))
  }

  lemma ServeKeepsSound(t: Table, req: Request, claims: map<string, Claim>, now: int)
    requires TableSound(t, claims, now) && req.token in claims
    ensures TableSound(Serve(t, req, claims[req.token], now).0, claims, now)
  {
  }

  /** The heart of the protocol: whatever one table is asked, in whatever order, a hold still
      within its time survives every request except its own release. */
  lemma ServeKeepsBacking(t: Table, req: Request, claims: map<string, Claim>, now: int, token: string, until: int)
    requires TableSound(t, claims, now) && req.token in claims && token in claims
    requires Backs(t, claims[token], token, until) && now <= until
    requires req.Release? ==> req.token != token
    ensures Backs(Serve(t, req, claims[req.token], now).0, claims[token], token, until)
  {
    var res := claims[req.token].res;
    if req.Release? {
      ReleaseFreesOnlyItsOwn(t, res, req.token, claims[req.token].exclusive, claims[token].res, token);
    }
  }

  lemma ServeBacksItsYes(t: Table, req: Request, claims: map<string, Claim>, now: int)
    requires TableSound(t, claims, now) && req.token in claims
    requires Serve(t, req, claims[req.token], now).1
    ensures Backs(Serve(t, req, claims[req.token], now).0, claims[req.token], req.token, now + LOCK_TTL)
  {
  }

  lemma DeliverKeepsInv(s: State, req: Request)
    requires Inv(s) && Enabled(s, Deliver(req))
    ensures Inv(Next(s, Deliver(req)))
  {
    var s' := Next(s, Deliver(req));
    var i, now := req.node, s.clocks[req.node];
    assert RequestSound(s, req);
    ServeKeepsSound(s.tables[i], req, s.claims, now);
    forall r | r in s'.sent ensures RequestSound(s', r) {
      assert RequestSound(s, r);
    }
    forall g | g in s'.grants ensures GrantSound(s', g) {
      if g in s.grants {
        assert GrantSound(s, g);
        if Live(s', g) && g.node == i {
          ServeKeepsBacking(s.tables[i], req, s.claims, now, g.token, g.at + LOCK_TTL);
        }
      } else {
        ServeBacksItsYes(s.tables[i], req, s.claims, now);
      }
    }
  }

  lemma BeginKeepsInv(s: State, token: string, claim: Claim)
    requires Inv(s) && Enabled(s, Begin(token, claim))
    ensures Inv(Next(s, Begin(token, claim)))
  {
    var s' := Next(s, Begin(token, claim));
    forall i | 0 <= i < |s'.tables| ensures TableSound(s'.tables[i], s'.claims, s'.clocks[i]) {
      assert TableSound(s.tables[i], s.claims, s.clocks[i]);
    }
    forall r | r in s'.sent ensures RequestSound(s', r) {
      assert r in s.sent ==> RequestSound(s, r);
    }
    forall g | g in s'.grants ensures GrantSound(s', g) {
      assert GrantSound(s, g);
      assert Live(s', g) ==> Live(s, g);
    }
  }

  lemma StepKeepsInv(s: State, step: Step)
    requires Inv(s) && Enabled(s, step)
    ensures Inv(Next(s, step))
  {
    match step
    case Begin(token, claim) => BeginKeepsInv(s, token, claim);
    case Deliver(req) => DeliverKeepsInv(s, req);
    case _ =>
      var s' := Next(s, step);
      forall i | 0 <= i < |s'.tables| ensures TableSound(s'.tables[i], s'.claims, s'.clocks[i]) {
        assert TableSound(s.tables[i], s.claims, s.clocks[i]);
      }
      forall r | r in s'.sent ensures RequestSound(s', r) {
        assert r in s.sent ==> RequestSound(s, r);
      }
      forall g | g in s'.grants ensures GrantSound(s', g) {
        assert GrantSound(s, g);
        assert Live(s', g) ==> Live(s, g);
      }
  }

  // ----- what gets a step further

  /** Beginning asks every node, refreshing and dropping tell every node. */
  lemma SentToAll(s: State, step: Step, i: nat)
    requires Enabled(s, step) && i < |s.tables|
    ensures step.Begin? ==> Acquire(i, step.token) in Next(s, step).sent && step.token in Next(s, step).claims
    ensures step.SendRefresh? ==> Refresh(i, step.token) in Next(s, step).sent
    ensures step.Drop? ==> Release(i, step.token) in Next(s, step).sent
    ensures s.sent <= Next(s, step).sent && s.grants <= Next(s, step).grants
  {
    assert i in Nodes(|s.tables|);
  }

  /** A node that has the resource free, expired or, for a reader, held by readers, and no younger fence, says
      yes to the request when it comes, and its yes is live. */
  lemma FreeNodeGrants(s: State, i: nat, token: string)
    requires Inv(s) && Enabled(s, Deliver(Acquire(i, token))) && token !in s.dropped
    requires var t, claim, now := s.tables[i], s.claims[token], s.clocks[i];
             && (claim.exclusive ==> Tokens.TokenSeqOf(token) >= t.High(claim.res))
             && (claim.res !in t.m || now > t.m[claim.res].expiry || (!claim.exclusive && !t.m[claim.res].exclusive))
    ensures Live(Next(s, Deliver(Acquire(i, token))), Grant(i, token, s.clocks[i]))
  {
    var claim := s.claims[token];
    if claim.exclusive {
      ExclusiveGrantIff(s.tables[i], claim.res, token, s.clocks[i]);
    } else {
      SharedGrantIff(s.tables[i], claim.res, token, s.clocks[i]);
    }
  }

  /** A node that holds a token for a quorum says yes to its refresh, and the time runs anew. */
  lemma LiveGrantRefreshes(s: State, g: Grant)
    requires Inv(s) && Live(s, g) && Refresh(g.node, g.token) in s.sent
    ensures Enabled(s, Deliver(Refresh(g.node, g.token)))
    ensures Live(Next(s, Deliver(Refresh(g.node, g.token))), Grant(g.node, g.token, s.clocks[g.node]))
  {
    assert GrantSound(s, g) && RequestSound(s, Refresh(g.node, g.token));
  }

  /** A release that arrives takes the token off the node. */
  lemma ReleaseFrees(s: State, i: nat, token: string)
    requires Enabled(s, Deliver(Release(i, token)))
    ensures var t, claim := Next(s, Deliver(Release(i, token))).tables[i], s.claims[token];
            if claim.exclusive then !t.ExclusivelyHeldBy(claim.res, token) else !t.SharedBy(claim.res, token)
  {
  }

  // ----- safety over whole runs

  /** A run: the states s[0], s[1], ... reached by taking the steps one by one. */
  ghost predicate Run(states: seq<State>, steps: seq<Step>) {
    && |states| == |steps| + 1
    && forall i :: 0 <= i < |steps| ==> Enabled(states[i], steps[i]) && states[i + 1] == Next(states[i], steps[i])
  }

  lemma {:induction false} RunKeepsInv(states: seq<State>, steps: seq<Step>, i: nat)
    requires Run(states, steps) && Inv(states[0]) && i <= |steps|
    ensures Inv(states[i]) && |states[i].tables| == |states[0].tables|
  {
    if i > 0 {
      RunKeepsInv(states, steps, i - 1);
      StepKeepsInv(states[i - 1], steps[i - 1]);
    }
  }

  lemma InitInv(s: State)
    requires Init(s)
    ensures Inv(s)
  {
  }

  /** The nodes whose yes to this token is still live. */
  ghost function Backers(s: State, token: string): set<nat> {
    set i: nat | i in Nodes(|s.tables|) && exists g :: Live(s, g) && g.node == i && g.token == token
  }

  ghost predicate HoldsQuorum(s: State, token: string, claim: Claim) {
    token in s.claims && s.claims[token] == claim && |Backers(s, token)| >= Quorum(|s.tables|)
  }

  lemma LiveGrantsApart(s: State, gx: Grant, gy: Grant)
    requires Inv(s) && Live(s, gx) && Live(s, gy) && gx.token != gy.token
    requires gx.token in s.claims && gy.token in s.claims
    requires s.claims[gx.token].exclusive && s.claims[gx.token].res == s.claims[gy.token].res
    ensures gx.node != gy.node
  {
    assert GrantSound(s, gx) && GrantSound(s, gy);
  }

  lemma BackersApart(s: State, x: string, y: string)
    requires Inv(s) && x != y && x in s.claims && y in s.claims
    requires s.claims[x].res == s.claims[y].res && s.claims[x].exclusive
    ensures Backers(s, x) !! Backers(s, y)
  {
    forall i | i in Backers(s, x) ensures i !in Backers(s, y) {
      if i in Backers(s, y) {
        var gx :| Live(s, gx) && gx.node == i && gx.token == x;
        var gy :| Live(s, gy) && gy.node == i && gy.token == y;
        LiveGrantsApart(s, gx, gy);
        assert false;
      }
    }
  }

  /** Mutual exclusion: in every reachable state, while a token has a live quorum for the exclusive
      lock on a resource, no other token has one, exclusive or shared. */
  lemma MutualExclusion(states: seq<State>, steps: seq<Step>, x: string, y: string, res: string, shared: bool)
    requires Run(states, steps) && Init(states[0]) && x != y
    requires HoldsQuorum(states[|steps|], x, Claim(res, true))
    ensures !HoldsQuorum(states[|steps|], y, Claim(res, !shared))
  {
    var s := states[|steps|];
    InitInv(states[0]);
    RunKeepsInv(states, steps, |steps|);
    if HoldsQuorum(s, y, Claim(res, !shared)) {
      BackersApart(s, x, y);
      var i := MajoritiesMeet(|s.tables|, Backers(s, x), Backers(s, y));
      assert false;
    }
  }

  /** Token x keeps the nodes q from state a to state b: at every point of the stretch it has a
      live yes from each of them, first grants or refreshes. */
  ghost predicate Keeps(states: seq<State>, a: nat, b: nat, x: string, q: set<nat>)
    requires a <= b < |states|
  {
    forall k :: a <= k <= b ==> q <= Backers(states[k], x)
  }

  /** The nodes that say yes to y somewhere in the stretch. */
  ghost function YesBetween(s: State, s': State, y: string): set<nat> {
    set i: nat | i in Nodes(|s'.tables|) && exists g :: g in s'.grants - s.grants && g.node == i && g.token == y
  }

  lemma LiveGrantRefuses(s: State, step: Step, gx: Grant, g: Grant)
    requires Inv(s) && Enabled(s, step) && Live(s, gx)
    requires g in Next(s, step).grants - s.grants && g.token != gx.token
    requires gx.token in s.claims && g.token in s.claims
    requires s.claims[gx.token].exclusive && s.claims[gx.token].res == s.claims[g.token].res
    ensures g.node != gx.node
  {
    assert GrantSound(s, gx);
    assert TableSound(s.tables[gx.node], s.claims, s.clocks[gx.node]);
  }

  lemma HeldNodeRefuses(s: State, step: Step, x: string, res: string, g: Grant)
    requires Inv(s) && Enabled(s, step)
    requires x in s.claims && s.claims[x] == Claim(res, true)
    requires g in Next(s, step).grants - s.grants && g.token != x
    requires g.token in s.claims && s.claims[g.token].res == res
    ensures g.node !in Backers(s, x)
  {
    if g.node in Backers(s, x) {
      var gx :| Live(s, gx) && gx.node == g.node && gx.token == x;
      LiveGrantRefuses(s, step, gx, g);
      assert false;
    }
  }

  lemma {:induction false} KeptNodesRefuse(states: seq<State>, steps: seq<Step>, a: nat, b: nat,
                                           x: string, y: string, res: string, q: set<nat>)
    requires Run(states, steps) && Init(states[0]) && a <= b <= |steps| && x != y
    requires x in states[a].claims && states[a].claims[x] == Claim(res, true)
    requires Keeps(states, a, b, x, q)
    requires y in states[b].claims && states[b].claims[y].res == res
    ensures x in states[b].claims && states[b].claims[x] == Claim(res, true)
    ensures YesBetween(states[a], states[b], y) !! q
    decreases b
  {
    if a < b {
      var s, step := states[b - 1], steps[b - 1];
      InitInv(states[0]);
      RunKeepsInv(states, steps, b - 1);
      if y in s.claims {
        KeptNodesRefuse(states, steps, a, b - 1, x, y, res, q);
        assert s.claims[y] == states[b].claims[y];
        forall i | i in YesBetween(states[a], states[b], y) ensures i !in q {
          var g :| g in states[b].grants - states[a].grants && g.node == i && g.token == y;
          if g in s.grants {
            assert i in YesBetween(states[a], s, y);
          } else {
            HeldNodeRefuses(s, step, x, res, g);
            assert q <= Backers(s, x);
          }
        }
      } else {
        ClaimStays(states, steps, a, b, x);
        forall g | g in states[b].grants ensures g.token != y {
          assert step.Begin?;
          assert GrantSound(s, g);
        }
      }
    }
  }

  lemma {:induction false} ClaimStays(states: seq<State>, steps: seq<Step>, a: nat, b: nat, x: string)
    requires Run(states, steps) && a <= b <= |steps| && x in states[a].claims
    ensures x in states[b].claims && states[b].claims[x] == states[a].claims[x]
    decreases b
  {
    if a < b {
      ClaimStays(states, steps, a, b - 1, x);
    }
  }

  /** Exclusion over a stretch of time: for as long as x keeps a quorum for the exclusive lock,
      any other token on that resource collects yes answers only from the minority outside it, so
      it never gathers a quorum, however its requests are timed and whatever else is in flight. */
  lemma NoQuorumWhileHeld(states: seq<State>, steps: seq<Step>, a: nat, b: nat,
                          x: string, y: string, res: string, q: set<nat>)
    requires Run(states, steps) && Init(states[0]) && a <= b <= |steps| && x != y
    requires x in states[a].claims && states[a].claims[x] == Claim(res, true)
    requires Keeps(states, a, b, x, q) && |q| >= Quorum(|states[a].tables|)
    requires y in states[b].claims && states[b].claims[y].res == res
    ensures |YesBetween(states[a], states[b], y)| < Quorum(|states[b].tables|)
  {
    InitInv(states[0]);
    RunKeepsInv(states, steps, a);
    RunKeepsInv(states, steps, b);
    KeptNodesRefuse(states, steps, a, b, x, y, res, q);
    var n, yes := |states[b].tables|, YesBetween(states[a], states[b], y);
    assert q <= Backers(states[a], x) <= Nodes(n);
    assert |q + yes| == |q| + |yes|;
    NodeCount(n);
    SubsetSize(q + yes, Nodes(n));
  }

  // ----- the holder's majority may change from one refresh to the next

  /** From s to s' no node's clock runs by more than one time to live. */
  predicate WithinTtl(s: State, s': State) {
    && |s.clocks| == |s'.clocks|
    && forall i :: 0 <= i < |s.clocks| ==> s'.clocks[i] <= s.clocks[i] + LOCK_TTL
  }

  lemma {:induction false} GivenSince(states: seq<State>, steps: seq<Step>, a: nat, b: nat, g: Grant)
    requires Run(states, steps) && Init(states[0]) && a <= b <= |steps|
    requires g in states[b].grants - states[a].grants
    ensures g.node < |states[a].clocks| == |states[b].clocks|
    ensures states[a].clocks[g.node] <= g.at
    decreases b
  {
    ClocksRun(states, steps, a, b);
    if a < b && g in states[b - 1].grants {
      GivenSince(states, steps, a, b - 1, g);
    } else {
      ClocksRun(states, steps, a, b - 1);
    }
  }

  lemma {:induction false} ClocksRun(states: seq<State>, steps: seq<Step>, a: nat, b: nat)
    requires Run(states, steps) && a <= b <= |steps|
    ensures |states[a].clocks| == |states[b].clocks|
    ensures forall i :: 0 <= i < |states[a].clocks| ==> states[a].clocks[i] <= states[b].clocks[i]
    decreases b
  {
    if a < b {
      ClocksRun(states, steps, a, b - 1);
    }
  }

  /** Yes answers collected within one time to live all still hold when the last one is in. */
  lemma CollectedIsLive(states: seq<State>, steps: seq<Step>, a: nat, b: nat, y: string)
    requires Run(states, steps) && Init(states[0]) && a <= b <= |steps|
    requires WithinTtl(states[a], states[b]) && y !in states[b].dropped
    ensures YesBetween(states[a], states[b], y) <= Backers(states[b], y)
  {
    forall i | i in YesBetween(states[a], states[b], y) ensures i in Backers(states[b], y) {
      var g :| g in states[b].grants - states[a].grants && g.node == i && g.token == y;
      GivenSince(states, steps, a, b, g);
      assert Live(states[b], g);
    }
  }

  /** A round is decisive: once y has gathered a quorum of yes answers within one time to live, no
      other token has a live quorum on the resource, unless both are readers. */
  lemma GatheredExcludes(states: seq<State>, steps: seq<Step>, a: nat, b: nat, x: string, y: string)
    requires Run(states, steps) && Init(states[0]) && a <= b <= |steps| && x != y
    requires WithinTtl(states[a], states[b]) && y !in states[b].dropped && y in states[b].claims
    requires |YesBetween(states[a], states[b], y)| >= Quorum(|states[b].tables|)
    ensures HoldsQuorum(states[b], y, states[b].claims[y])
    ensures forall claim: Claim |
              claim.res == states[b].claims[y].res && (claim.exclusive || states[b].claims[y].exclusive) ::
              !HoldsQuorum(states[b], x, claim)
  {
    var s := states[b];
    InitInv(states[0]);
    RunKeepsInv(states, steps, b);
    CollectedIsLive(states, steps, a, b, y);
    SubsetSize(YesBetween(states[a], s, y), Backers(s, y));
    forall claim: Claim | claim.res == s.claims[y].res && (claim.exclusive || s.claims[y].exclusive)
      ensures !HoldsQuorum(s, x, claim)
    {
      if HoldsQuorum(s, x, claim) {
        if claim.exclusive { BackersApart(s, x, y); } else { BackersApart(s, y, x); }
        var i := MajoritiesMeet(|s.tables|, Backers(s, x), Backers(s, y));
        assert false;
      }
    }
  }

  /** Exclusion over a stretch of time in which the holder's quorum is a different one at every
      moment: in no window of one time to live does another token that is still trying gather a
      quorum of yes answers. */
  lemma NoQuorumWhileAnyHeld(states: seq<State>, steps: seq<Step>, a: nat, b: nat, x: string, y: string, res: string)
    requires Run(states, steps) && Init(states[0]) && a <= b <= |steps| && x != y
    requires forall k :: a <= k <= b ==> HoldsQuorum(states[k], x, Claim(res, true))
    ensures forall c, d :: a <= c <= d <= b && WithinTtl(states[c], states[d])
              && y !in states[d].dropped && y in states[d].claims && states[d].claims[y].res == res
              ==> |YesBetween(states[c], states[d], y)| < Quorum(|states[d].tables|)
  {
    forall c, d | a <= c <= d <= b && WithinTtl(states[c], states[d])
      && y !in states[d].dropped && y in states[d].claims && states[d].claims[y].res == res
      ensures |YesBetween(states[c], states[d], y)| < Quorum(|states[d].tables|)
    {
      if |YesBetween(states[c], states[d], y)| >= Quorum(|states[d].tables|) {
        GatheredExcludes(states, steps, c, d, x, y);
        assert false;
      }
    }
  }

  lemma TwoBackers(s: State, g: Grant, h: Grant, claim: Claim)
    requires |s.tables| == 3 && Live(s, g) && Live(s, h) && g.token == h.token
    requires g.node < 3 && h.node < 3 && g.node != h.node
    requires g.token in s.claims && s.claims[g.token] == claim
    ensures HoldsQuorum(s, g.token, claim)
  {
    SubsetSize({g.node, h.node}, Backers(s, g.token));
  }

  lemma TwoYes(s: State, s': State, g: Grant, h: Grant)
    requires |s'.tables| == 3 && g.token == h.token
    requires g.node < 3 && h.node < 3 && g.node != h.node
    requires g in s'.grants - s.grants && h in s'.grants - s.grants
    ensures |YesBetween(s, s', g.token)| >= Quorum(3)
  {
    SubsetSize({g.node, h.node}, YesBetween(s, s', g.token));
  }

  lemma RunsJoin(first: seq<State>, begun: seq<Step>, rest: seq<State>, moved: seq<Step>)
      returns (states: seq<State>, steps: seq<Step>)
    requires Run(first, begun) && Run(rest, moved) && first[|begun|] == rest[0]
    ensures steps == begun + moved && Run(states, steps)
    ensures forall k :: 0 <= k <= |begun| ==> states[k] == first[k]
    ensures forall k :: |begun| <= k <= |steps| ==> states[k] == rest[k - |begun|]
  {
    states, steps := first[..|begun|] + rest, begun + moved;
  }

  /** x is granted nodes 0 and 1 of three at time 0. */
  lemma HolderComes(x: string, res: string) returns (states: seq<State>, steps: seq<Step>)
    ensures Run(states, steps) && Init(states[0]) && |steps| == 3
    ensures states[3].grants == {Grant(0, x, 0), Grant(1, x, 0)}
    ensures |states[3].tables| == 3 && states[3].clocks == [0, 0, 0] && states[3].dropped == {}
    ensures states[3].claims == map[x := Claim(res, true)] && Acquire(2, x) in states[3].sent
    ensures res in states[3].tables[0].m && states[3].tables[0].m[res].expiry == LOCK_TTL
    ensures states[3].tables[2] == EMPTY_TABLE
  {
    var s0 := State([EMPTY_TABLE, EMPTY_TABLE, EMPTY_TABLE], [0, 0, 0], map[], {}, {}, {});
    var s1 := Next(s0, Begin(x, Claim(res, true)));
    assert forall i: nat :: i < 3 ==> i in Nodes(3) && Acquire(i, x) in s1.sent;
    var s2 := Next(s1, Deliver(Acquire(0, x)));
    var s3 := Next(s2, Deliver(Acquire(1, x)));
    states := [s0, s1, s2, s3];
    steps := [Begin(x, Claim(res, true)), Deliver(Acquire(0, x)), Deliver(Acquire(1, x))];
  }

  /** The reader y is granted node 2 at time 0. */
  lemma ReaderComes(s: State, x: string, y: string, res: string) returns (states: seq<State>, steps: seq<Step>)
    requires |s.tables| == 3 && s.clocks == [0, 0, 0] && s.dropped == {} && x != y
    requires s.claims == map[x := Claim(res, true)] && s.tables[2] == EMPTY_TABLE
    ensures Run(states, steps) && |steps| == 2 && states[0] == s
    ensures states[1].grants == s.grants && states[2].grants == s.grants + {Grant(2, y, 0)}
    ensures forall k :: 0 <= k <= 2 ==> |states[k].tables| == 3 && states[k].clocks == s.clocks && states[k].dropped == {}
    ensures forall k :: 0 <= k <= 2 ==> x in states[k].claims && states[k].claims[x] == Claim(res, true)
    ensures y in states[2].claims && states[2].claims[y] == Claim(res, false)
    ensures s.sent <= states[2].sent && Acquire(0, y) in states[2].sent
    ensures states[2].tables[0] == s.tables[0] && states[2].tables[2].High(res) == 0
    ensures res in states[2].tables[2].m && states[2].tables[2].m[res].expiry == LOCK_TTL
  {
    var s1 := Next(s, Begin(y, Claim(res, false)));
    assert forall i: nat :: i < 3 ==> i in Nodes(3) && Acquire(i, y) in s1.sent;
    var s2 := Next(s1, Deliver(Acquire(2, y)));
    states := [s, s1, s2];
    steps := [Begin(y, Claim(res, false)), Deliver(Acquire(2, y))];
  }

  /** From there x moves to node 2 once y's time there is over, and y to node 0 once x's is. */
  lemma MajorityMoves(s: State, x: string, y: string, res: string) returns (states: seq<State>, steps: seq<Step>)
    requires |s.tables| == 3 && s.clocks == [0, 0, 0] && s.dropped == {}
    requires x in s.claims && s.claims[x] == Claim(res, true) && y in s.claims && s.claims[y] == Claim(res, false)
    requires Acquire(2, x) in s.sent && Acquire(0, y) in s.sent
    requires forall i :: i == 0 || i == 2 ==> res in s.tables[i].m && s.tables[i].m[res].expiry == LOCK_TTL
    requires s.tables[2].High(res) == 0
    ensures Run(states, steps) && |steps| == 4 && states[0] == s
    ensures forall k :: 0 <= k <= 4 ==>
              && states[k].claims == s.claims && states[k].dropped == {}
              && |states[k].tables| == 3 && |states[k].clocks| == 3 && states[k].clocks[1] == 0
              && s.grants <= states[k].grants
    ensures states[1].clocks == [0, 0, LOCK_TTL + 1]
    ensures states[2].clocks == [0, 0, LOCK_TTL + 1] && Grant(2, x, LOCK_TTL + 1) in states[2].grants
    ensures forall k :: 2 < k <= 4 ==>
              && states[k].clocks == [LOCK_TTL + 1, 0, LOCK_TTL + 1] && Grant(2, x, LOCK_TTL + 1) in states[k].grants
    ensures Grant(0, y, LOCK_TTL + 1) in states[4].grants
  {
    var late := LOCK_TTL + 1;
    var s1 := Next(s, Tick(2, late));
    var s2 := Next(s1, Deliver(Acquire(2, x)));
    var s3 := Next(s2, Tick(0, late));
    var s4 := Next(s3, Deliver(Acquire(0, y)));
    states := [s, s1, s2, s3, s4];
    steps := [Tick(2, late), Deliver(Acquire(2, x)), Tick(0, late), Deliver(Acquire(0, y))];
  }

  /** The window matters when the majority moves: on three nodes a reader collects two yes answers,
      one from each node the holder is not on at the time, while the holder has a live quorum
      throughout. */
  lemma MajorityMovesOn(x: string, y: string, res: string) returns (states: seq<State>, steps: seq<Step>)
    requires x != y
    ensures Run(states, steps) && Init(states[0]) && |steps| == 9
    ensures forall k :: 3 <= k <= 9 ==> HoldsQuorum(states[k], x, Claim(res, true))
    ensures y in states[9].claims && states[9].claims[y] == Claim(res, false) && y !in states[9].dropped
    ensures |YesBetween(states[3], states[9], y)| >= Quorum(3)
    ensures !WithinTtl(states[3], states[9])
  {
    var s1, t1 := HolderComes(x, res);
    var s2, t2 := ReaderComes(s1[3], x, y, res);
    var s3, t3 := MajorityMoves(s2[2], x, y, res);
    var s12, t12 := RunsJoin(s1, t1, s2, t2);
    states, steps := RunsJoin(s12, t12, s3, t3);
    assert states[0] == s1[0];
    forall k | 3 <= k <= 9 ensures HoldsQuorum(states[k], x, Claim(res, true)) {
      assert states[k] == if k < 5 then s2[k - 3] else s3[k - 5];
      TwoBackers(states[k], Grant(1, x, 0), if k < 7 then Grant(0, x, 0) else Grant(2, x, LOCK_TTL + 1), Claim(res, true));
    }
    assert states[3] == s2[0] && states[9] == s3[4];
    TwoYes(states[3], states[9], Grant(2, y, 0), Grant(0, y, LOCK_TTL + 1));
  }

  /** The time to live is what the guarantee rests on: one tick past it, a holder that has not let
      go is replaced, and its successor has the quorum while it still believes in its own. */
  lemma ExpiryLetsAnotherIn(x: string, y: string, res: string) returns (states: seq<State>, steps: seq<Step>)
    requires x != y && Tokens.TokenSeqOf(x) <= Tokens.TokenSeqOf(y)
    ensures Run(states, steps) && Init(states[0]) && |steps| == 5
    ensures HoldsQuorum(states[2], x, Claim(res, true))
    ensures x !in states[5].dropped && HoldsQuorum(states[5], y, Claim(res, true))
  {
    var claim := Claim(res, true);
    var s0 := State([EMPTY_TABLE], [0], map[], {}, {}, {});
    var s1 := Next(s0, Begin(x, claim));
    assert Acquire(0, x) in s1.sent by { assert 0 in Nodes(1); }
    var s2 := Next(s1, Deliver(Acquire(0, x)));
    var s3 := Next(s2, Tick(0, LOCK_TTL + 1));
    var s4 := Next(s3, Begin(y, claim));
    assert Acquire(0, y) in s4.sent by { assert 0 in Nodes(1); }
    var s5 := Next(s4, Deliver(Acquire(0, y)));
    states := [s0, s1, s2, s3, s4, s5];
    steps := [Begin(x, claim), Deliver(Acquire(0, x)), Tick(0, LOCK_TTL + 1), Begin(y, claim), Deliver(Acquire(0, y))];
    SoleBacker(s2, Grant(0, x, 0));
    SoleBacker(s5, Grant(0, y, LOCK_TTL + 1));
  }

  lemma SoleBacker(s: State, g: Grant)
    requires |s.tables| == 1 && g.node == 0 && Live(s, g)
    ensures |Backers(s, g.token)| == 1
  {
    assert 0 in Nodes(1);
    assert Backers(s, g.token) == {0};
  }
}
