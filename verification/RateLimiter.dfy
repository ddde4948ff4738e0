/** Per-identity token buckets (internal/api/ratelimit.go), over real time and real tokens. */
module RateLimiter {
  import opened NodeSets

  /** Identities, by number. */
  type Key = nat

  const IDLE: real := 600.0
  const SWEEP_EVERY: nat := 4096
  const SWEEP_SIZE: nat := 4096

  datatype Limits = Limits(rate: real, burst: real) {
    ghost predicate Valid() {
      rate > 0.0 && burst >= 5.0
    }
  }

  datatype Bucket = Bucket(tokens: real, last: real)

  type Buckets = map<Key, Bucket>

  datatype State = State(m: Buckets, calls: nat)

  const EMPTY := State(map[], 0)

  /** Rate and burst as configured: burst defaults to twice the rate and is at least 5; no limiter
      without a rate. */
  function Configured(rate: real, burst: real): (l: Limits)
    requires rate > 0.0
    ensures l.Valid() && l.rate == rate && l.burst >= 5.0
    ensures burst >= 5.0 ==> l.burst == burst
    ensures 0.0 < burst < 5.0 ==> l.burst == 5.0
    ensures burst <= 0.0 ==> l.burst >= rate + rate && (l.burst == rate + rate || l.burst == 5.0)
  {
    var b := if burst <= 0.0 then rate * 2.0 else burst;
    Limits(rate, if b < 5.0 then 5.0 else b)
  }

  /** Tokens that come in over a time. */
  function Earned(lim: Limits, time: real): real {
    time * lim.rate
  }

  /** The tokens an identity has at a time; an unknown one has a full bucket. */
  function Level(lim: Limits, m: Buckets, k: Key, now: real): real {
    if k !in m then lim.burst
    else
      var t := m[k].tokens + Earned(lim, now - m[k].last);
      if t > lim.burst then lim.burst else t
  }

  /** Without the buckets that have been idle for more than ten minutes. */
  function Swept(m: Buckets, now: real): Buckets {
    map k | k in m && !(now - m[k].last > IDLE) :: m[k]
  }

  predicate Sweeps(s: State) {
    (s.calls + 1) % SWEEP_EVERY == 0 && |s.m| > SWEEP_SIZE
  }

  /** One call. `sweeping` says whether the limiter ever sweeps; the code's always does. */
  function After(lim: Limits, s: State, k: Key, now: real, sweeping: bool): (State, bool) {
    var m := if sweeping && Sweeps(s) then Swept(s.m, now) else s.m;
    var t := Level(lim, m, k, now);
    if t < 1.0 then (State(m[k := Bucket(t, now)], s.calls + 1), false)
    else (State(m[k := Bucket(t - 1.0, now)], s.calls + 1), true)
  }

  lemma EarnedNothing(lim: Limits, now: real)
    ensures Earned(lim, now - now) == 0.0
  {
  }

  class RateLimiter {
    const lim: Limits
    var m: Buckets
    var calls: nat

    function Abstract(): State
      reads this
    {
      State(m, calls)
    }

    constructor (lim: Limits)
      ensures Abstract() == EMPTY && this.lim == lim
    {
      this.lim, m, calls := lim, map[], 0;
    }

    method Sweep(now: real)
      modifies `m
      ensures m == Swept(old(m), now)
    {
      var todo := m.Keys;
      while todo != {}
        invariant todo <= old(m).Keys
        invariant forall k :: k in m <==> k in old(m) && (k in todo || !(now - old(m)[k].last > IDLE))
        invariant forall k :: k in m ==> m[k] == old(m)[k]
        decreases todo
      {
        var k :| k in todo;
        todo := todo - {k};
        if now - m[k].last > IDLE {
          m := m - {k};
        }
      }
    }

    method Allow(k: Key, now: real) returns (ok: bool)
      modifies this
      ensures (Abstract(), ok) == After(lim, old(Abstract()), k, now, true)
    {
      calls := calls + 1;
      if calls % SWEEP_EVERY == 0 && |m| > SWEEP_SIZE {
        Sweep(now);
      }
      var b := Bucket(lim.burst, now);
      if k in m {
        b := m[k];
      }
      EarnedNothing(lim, now);
      b := b.(tokens := b.tokens + Earned(lim, now - b.last));
      if b.tokens > lim.burst {
        b := b.(tokens := lim.burst);
      }
      assert b.tokens == Level(lim, m, k, now);
      b := b.(last := now);
      if b.tokens < 1.0 {
        m := m[k := b];
        return false;
      }
      b := b.(tokens := b.tokens - 1.0);
      m := m[k := b];
      ok := true;
    }
  }

  // ----- runs

  datatype Call = Call(key: Key, now: real)

  function Run(lim: Limits, s: State, calls: seq<Call>, sweeping: bool): State {
    if calls == [] then s
    else
      var c := calls[|calls| - 1];
      After(lim, Run(lim, s, calls[..|calls| - 1], sweeping), c.key, c.now, sweeping).0
  }

  /** The answers the calls get. */
  function Answers(lim: Limits, s: State, calls: seq<Call>, sweeping: bool): (a: seq<bool>)
    ensures |a| == |calls|
  {
    if calls == [] then []
    else
      var c := calls[|calls| - 1];
      Answers(lim, s, calls[..|calls| - 1], sweeping) +
      [After(lim, Run(lim, s, calls[..|calls| - 1], sweeping), c.key, c.now, sweeping).1]
  }

  /** How many of k's calls were allowed. */
  function Granted(calls: seq<Call>, answers: seq<bool>, k: Key): nat
    requires |answers| == |calls|
  {
    if calls == [] then 0
    else
      Granted(calls[..|calls| - 1], answers[..|calls| - 1], k) +
      if calls[|calls| - 1].key == k && answers[|calls| - 1] then 1 else 0
  }

  function Allowed(lim: Limits, s: State, calls: seq<Call>, k: Key, sweeping: bool): nat {
    Granted(calls, Answers(lim, s, calls, sweeping), k)
  }

  /** Calls come at non-decreasing times, none before t. */
  predicate Ordered(calls: seq<Call>, t: real) {
    calls == [] || (Ordered(calls[..|calls| - 1], t) && LastTime(calls[..|calls| - 1], t) <= LastTime(calls, t))
  }

  function LastTime(calls: seq<Call>, t: real): real {
    if calls == [] then t else calls[|calls| - 1].now
  }

  /** Levels are between empty and full, and no bucket is from the future. */
  ghost predicate Good(lim: Limits, s: State, t: real) {
    forall k :: k in s.m ==> 0.0 <= s.m[k].tokens <= lim.burst && s.m[k].last <= t
  }

  lemma EarnedSum(lim: Limits, a: real, b: real)
    ensures Earned(lim, a) + Earned(lim, b) == Earned(lim, a + b)
  {
  }

  lemma EarnedGrows(lim: Limits, a: real, b: real)
    requires lim.Valid() && a <= b
    ensures Earned(lim, a) <= Earned(lim, b)
  {
  }

  lemma StepKeepsGood(lim: Limits, s: State, k: Key, now: real, t: real, sweeping: bool)
    requires lim.Valid() && Good(lim, s, t) && t <= now
    ensures Good(lim, After(lim, s, k, now, sweeping).0, now)
  {
    if k in s.m {
      EarnedGrows(lim, 0.0, now - s.m[k].last);
    }
  }

  lemma {:induction false} RunKeepsGood(lim: Limits, s: State, calls: seq<Call>, t: real, sweeping: bool)
    requires lim.Valid() && Good(lim, s, t) && Ordered(calls, t)
    ensures Good(lim, Run(lim, s, calls, sweeping), LastTime(calls, t))
  {
    if calls != [] {
      var before, c := calls[..|calls| - 1], calls[|calls| - 1];
      RunKeepsGood(lim, s, before, t, sweeping);
      StepKeepsGood(lim, Run(lim, s, before, sweeping), c.key, c.now, LastTime(before, t), sweeping);
    }
  }

  /** A level only depends on an earlier level and the time between. */
  lemma LevelLater(lim: Limits, m: Buckets, k: Key, t: real, now: real)
    requires lim.Valid() && t <= now
    ensures var l := Level(lim, m, k, t) + Earned(lim, now - t);
            Level(lim, m, k, now) == if l > lim.burst then lim.burst else l
    ensures Level(lim, m, k, now) <= Level(lim, m, k, t) + Earned(lim, now - t)
  {
    EarnedGrows(lim, 0.0, now - t);
    if k in m {
      EarnedSum(lim, t - m[k].last, now - t);
    }
  }

  lemma LevelInRange(lim: Limits, s: State, k: Key, t: real, now: real)
    requires lim.Valid() && Good(lim, s, t) && t <= now
    ensures 0.0 <= Level(lim, s.m, k, now) <= lim.burst
  {
    if k in s.m {
      EarnedGrows(lim, 0.0, now - s.m[k].last);
    }
  }

  /** What is idle for ten minutes is full again anyway, when ten minutes earn a whole burst. */
  lemma SweepKeepsLevel(lim: Limits, s: State, k: Key, now: real)
    requires lim.Valid() && Good(lim, s, now) && Earned(lim, IDLE) >= lim.burst
    ensures Level(lim, Swept(s.m, now), k, now) == Level(lim, s.m, k, now)
  {
    if k in s.m && now - s.m[k].last > IDLE {
      EarnedGrows(lim, IDLE, now - s.m[k].last);
    }
  }

  /** The tokens granted and left never exceed the tokens there were and those earned since. */
  lemma {:induction false} TokensBalance(lim: Limits, s: State, calls: seq<Call>, k: Key, t0: real, t: real, sweeping: bool)
    requires lim.Valid() && Good(lim, s, t0) && Ordered(calls, t0) && LastTime(calls, t0) <= t
    requires sweeping ==> Earned(lim, IDLE) >= lim.burst
    ensures Allowed(lim, s, calls, k, sweeping) as real + Level(lim, Run(lim, s, calls, sweeping).m, k, t)
            <= Level(lim, s.m, k, t0) + Earned(lim, t - t0)
  {
    if calls == [] {
      LevelLater(lim, s.m, k, t0, t);
    } else {
      var before, c := calls[..|calls| - 1], calls[|calls| - 1];
      var mid := Run(lim, s, before, sweeping);
      TokensBalance(lim, s, before, k, t0, c.now, sweeping);
      RunKeepsGood(lim, s, before, t0, sweeping);
      GrantedStep(lim, s, calls, k, sweeping);
      TokensStep(lim, mid, c.key, c.now, k, LastTime(before, t0), t, sweeping);
      EarnedSum(lim, c.now - t0, t - c.now);
    }
  }

  lemma GrantedStep(lim: Limits, s: State, calls: seq<Call>, k: Key, sweeping: bool)
    requires calls != []
    ensures var before, c := calls[..|calls| - 1], calls[|calls| - 1];
            Allowed(lim, s, calls, k, sweeping) == Allowed(lim, s, before, k, sweeping) +
              if c.key == k && After(lim, Run(lim, s, before, sweeping), c.key, c.now, sweeping).1 then 1 else 0
  {
    assert Answers(lim, s, calls, sweeping)[..|calls| - 1] == Answers(lim, s, calls[..|calls| - 1], sweeping);
  }

  lemma TokensStep(lim: Limits, s: State, key: Key, now: real, k: Key, t0: real, t: real, sweeping: bool)
    requires lim.Valid() && Good(lim, s, t0) && t0 <= now <= t
    requires sweeping ==> Earned(lim, IDLE) >= lim.burst
    ensures (if key == k && After(lim, s, key, now, sweeping).1 then 1.0 else 0.0)
              + Level(lim, After(lim, s, key, now, sweeping).0.m, k, t)
            <= Level(lim, s.m, k, now) + Earned(lim, t - now)
  {
    var m := if sweeping && Sweeps(s) then Swept(s.m, now) else s.m;
    var m' := After(lim, s, key, now, sweeping).0.m;
    if sweeping {
      SweepKeepsLevel(lim, s, k, now);
    }
    LevelLater(lim, m', k, now, t);
    if key == k {
      assert Earned(lim, now - now) == 0.0;
    }
  }

  function Capped(lim: Limits, tokens: real): real {
    if tokens > lim.burst then lim.burst else tokens
  }

  /** One call takes at most the token it is granted, from this identity only; a sweep takes nothing. */
  lemma StepTakesOne(lim: Limits, s: State, key: Key, now: real, k: Key, t0: real, sweeping: bool)
    requires lim.Valid() && Good(lim, s, t0) && t0 <= now
    ensures (if key == k && After(lim, s, key, now, sweeping).1 then 1.0 else 0.0)
              + Level(lim, After(lim, s, key, now, sweeping).0.m, k, now) >= Level(lim, s.m, k, now)
  {
    LevelInRange(lim, s, k, t0, now);
    EarnedNothing(lim, now);
  }

  /** Nothing is forfeited: tokens granted and left are at least those there were and those earned since, up to
      a full bucket, whatever was refused in between and whoever else called. */
  lemma {:induction false} TokensKept(lim: Limits, s: State, calls: seq<Call>, k: Key, t0: real, t: real, sweeping: bool)
    requires lim.Valid() && Good(lim, s, t0) && Ordered(calls, t0) && LastTime(calls, t0) <= t
    ensures Allowed(lim, s, calls, k, sweeping) as real + Level(lim, Run(lim, s, calls, sweeping).m, k, t)
            >= Capped(lim, Level(lim, s.m, k, t0) + Earned(lim, t - t0))
  {
    if calls == [] {
      LevelLater(lim, s.m, k, t0, t);
    } else {
      var before, c := calls[..|calls| - 1], calls[|calls| - 1];
      var mid := Run(lim, s, before, sweeping);
      TokensKept(lim, s, before, k, t0, c.now, sweeping);
      RunKeepsGood(lim, s, before, t0, sweeping);
      GrantedStep(lim, s, calls, k, sweeping);
      StepTakesOne(lim, mid, c.key, c.now, k, LastTime(before, t0), sweeping);
      LevelLater(lim, Run(lim, s, calls, sweeping).m, k, c.now, t);
      EarnedSum(lim, c.now - t0, t - c.now);
      EarnedGrows(lim, 0.0, t - c.now);
    }
  }

  lemma {:induction false} OrderedFrom(calls: seq<Call>, t: real)
    requires Ordered(calls, t)
    ensures t <= LastTime(calls, t)
  {
    if calls != [] {
      OrderedFrom(calls[..|calls| - 1], t);
    }
  }

  /** So a call is refused only to an identity that has used up its burst and what it has earned since. */
  lemma RefusedOnlyWhenSpent(lim: Limits, s: State, calls: seq<Call>, k: Key, t0: real, now: real, sweeping: bool)
    requires lim.Valid() && Good(lim, s, t0) && Ordered(calls, t0) && LastTime(calls, t0) <= now
    requires !After(lim, Run(lim, s, calls, sweeping), k, now, sweeping).1
    ensures Capped(lim, Level(lim, s.m, k, t0) + Earned(lim, now - t0)) < Allowed(lim, s, calls, k, sweeping) as real + 1.0
    ensures k !in s.m ==> lim.burst < Allowed(lim, s, calls, k, sweeping) as real + 1.0
  {
    OrderedFrom(calls, t0);
    EarnedGrows(lim, 0.0, now - t0);
    var mid := Run(lim, s, calls, sweeping);
    TokensKept(lim, s, calls, k, t0, now, sweeping);
    RunKeepsGood(lim, s, calls, t0, sweeping);
    StepTakesOne(lim, mid, k, now, k, LastTime(calls, t0), sweeping);
    EarnedNothing(lim, now);
  }

  lemma WindowFrom(lim: Limits, s: State, window: seq<Call>, k: Key, start: real, t: real, sweeping: bool)
    requires lim.Valid() && Good(lim, s, start) && Ordered(window, start) && LastTime(window, start) <= start + t
    requires sweeping ==> Earned(lim, IDLE) >= lim.burst
    ensures Allowed(lim, s, window, k, sweeping) as real <= lim.burst + Earned(lim, t)
  {
    var s', end := Run(lim, s, window, sweeping), LastTime(window, start);
    assert start + t - start == t;
    TokensBalance(lim, s, window, k, start, start + t, sweeping);
    RunKeepsGood(lim, s, window, start, sweeping);
    LevelInRange(lim, s', k, end, start + t);
    LevelInRange(lim, s, k, start, start);
  }

  /** The window bound: in any window of length t at most burst + rate * t calls are allowed. It holds
      for a limiter that never sweeps, and for one that does when ten minutes earn a burst. */
  lemma WindowBound(lim: Limits, before: seq<Call>, window: seq<Call>, k: Key, start: real, t: real, sweeping: bool)
    requires lim.Valid() && Ordered(before, 0.0) && LastTime(before, 0.0) <= start
    requires Ordered(window, start) && LastTime(window, start) <= start + t
    requires sweeping ==> Earned(lim, IDLE) >= lim.burst
    ensures Allowed(lim, Run(lim, EMPTY, before, sweeping), window, k, sweeping) as real <= lim.burst + Earned(lim, t)
  {
    RunKeepsGood(lim, EMPTY, before, 0.0, sweeping);
    WindowFrom(lim, Run(lim, EMPTY, before, sweeping), window, k, start, t, sweeping);
  }

  /** The two limiters have the same levels at time t. */
  ghost predicate SameLevels(lim: Limits, a: Buckets, b: Buckets, t: real) {
    forall k :: Level(lim, a, k, t) == Level(lim, b, k, t)
  }

  /** Two limiters with the same levels, one that sweeps and one that does not, answer alike. */
  lemma SameStep(lim: Limits, a: State, b: State, t: real, key: Key, now: real)
    requires lim.Valid() && Earned(lim, IDLE) >= lim.burst && t <= now
    requires Good(lim, a, t) && SameLevels(lim, a.m, b.m, t)
    ensures After(lim, a, key, now, true).1 == After(lim, b, key, now, false).1
    ensures SameLevels(lim, After(lim, a, key, now, true).0.m, After(lim, b, key, now, false).0.m, now)
  {
    var m := if Sweeps(a) then Swept(a.m, now) else a.m;
    forall k ensures Level(lim, m, k, now) == Level(lim, b.m, k, now) {
      assert Level(lim, a.m, k, t) == Level(lim, b.m, k, t);
      LevelLater(lim, a.m, k, t, now);
      LevelLater(lim, b.m, k, t, now);
      SweepKeepsLevel(lim, a, k, now);
    }
    assert Level(lim, m, key, now) == Level(lim, b.m, key, now);
    var m1, m2 := After(lim, a, key, now, true).0.m, After(lim, b, key, now, false).0.m;
    forall k ensures Level(lim, m1, k, now) == Level(lim, m2, k, now) {
      if k != key {
        assert Level(lim, m1, k, now) == Level(lim, m, k, now);
        assert Level(lim, m2, k, now) == Level(lim, b.m, k, now);
      }
    }
  }

  lemma {:induction false} SameAnswers(lim: Limits, calls: seq<Call>)
    requires lim.Valid() && Ordered(calls, 0.0) && Earned(lim, IDLE) >= lim.burst
    ensures Answers(lim, EMPTY, calls, true) == Answers(lim, EMPTY, calls, false)
    ensures SameLevels(lim, Run(lim, EMPTY, calls, true).m, Run(lim, EMPTY, calls, false).m, LastTime(calls, 0.0))
  {
    if calls != [] {
      var before, c := calls[..|calls| - 1], calls[|calls| - 1];
      SameAnswers(lim, before);
      RunKeepsGood(lim, EMPTY, before, 0.0, true);
      SameStep(lim, Run(lim, EMPTY, before, true), Run(lim, EMPTY, before, false), LastTime(before, 0.0), c.key, c.now);
    }
  }

  // ----- and exactly when

  lemma {:induction false} RunSplit(lim: Limits, s: State, a: seq<Call>, b: seq<Call>, sweeping: bool)
    ensures Run(lim, s, a + b, sweeping) == Run(lim, Run(lim, s, a, sweeping), b, sweeping)
  {
    if b == [] {
      assert a + b == a;
    } else {
      RunSplit(lim, s, a, b[..|b| - 1], sweeping);
      assert (a + b)[..|a + b| - 1] == a + b[..|b| - 1];
    }
  }

  lemma {:induction false} AllowedSplit(lim: Limits, s: State, a: seq<Call>, b: seq<Call>, k: Key, sweeping: bool)
    ensures Allowed(lim, s, a + b, k, sweeping) ==
              Allowed(lim, s, a, k, sweeping) + Allowed(lim, Run(lim, s, a, sweeping), b, k, sweeping)
  {
    if b == [] {
      assert a + b == a;
    } else {
      AllowedSplit(lim, s, a, b[..|b| - 1], k, sweeping);
      assert (a + b)[..|a + b| - 1] == a + b[..|b| - 1];
      RunSplit(lim, s, a, b[..|b| - 1], sweeping);
      GrantedStep(lim, s, a + b, k, sweeping);
      GrantedStep(lim, Run(lim, s, a, sweeping), b, k, sweeping);
    }
  }

  function Repeat(k: Key, now: real, n: nat): seq<Call> {
    if n == 0 then [] else Repeat(k, now, n - 1) + [Call(k, now)]
  }

  /** A sweep does not take a bucket used at this very moment, and no token comes in. */
  lemma TakeOne(lim: Limits, s: State, k: Key, now: real)
    requires k in s.m && s.m[k].last == now && 1.0 <= s.m[k].tokens <= lim.burst
    ensures var (s', ok) := After(lim, s, k, now, true);
            ok && s'.calls == s.calls + 1 && k in s'.m && s'.m[k] == Bucket(s.m[k].tokens - 1.0, now)
  {
    EarnedNothing(lim, now);
  }

  /** n calls at once of an identity that has n tokens are all allowed. */
  lemma {:induction false} TakeAll(lim: Limits, s: State, k: Key, now: real, n: nat)
    requires lim.Valid() && k in s.m && s.m[k].last == now && n as real <= s.m[k].tokens <= lim.burst
    ensures Allowed(lim, s, Repeat(k, now, n), k, true) == n
    ensures var s' := Run(lim, s, Repeat(k, now, n), true);
            s'.calls == s.calls + n && k in s'.m && s'.m[k] == Bucket(s.m[k].tokens - n as real, now)
  {
    if n > 0 {
      TakeAll(lim, s, k, now, n - 1);
      var calls := Repeat(k, now, n);
      assert calls[..|calls| - 1] == Repeat(k, now, n - 1);
      GrantedStep(lim, s, calls, k, true);
      TakeOne(lim, Run(lim, s, Repeat(k, now, n - 1), true), k, now);
    }
  }

  /** n other identities, one call each. */
  function Others(now: real, n: nat): (c: seq<Call>)
    ensures |c| == n
  {
    if n == 0 then [] else Others(now, n - 1) + [Call(n, now)]
  }

  ghost predicate AllAt(s: State, n: nat, now: real) {
    forall i :: 0 <= i <= n ==> i in s.m && s.m[i].last == now
  }

  lemma OtherStep(lim: Limits, s: State, now: real, n: nat)
    requires n > 0 && AllAt(s, n - 1, now)
    ensures var s' := After(lim, s, n, now, true).0;
            s'.calls == s.calls + 1 && AllAt(s', n, now) && s'.m[0] == s.m[0]
  {
  }

  /** They leave identity 0 alone and are all remembered. */
  lemma {:induction false} OthersStay(lim: Limits, s: State, now: real, n: nat)
    requires lim.Valid() && 0 in s.m && s.m[0].last == now
    ensures var s' := Run(lim, s, Others(now, n), true);
            s'.calls == s.calls + n && 0 in s'.m && s'.m[0] == s.m[0] && AllAt(s', n, now)
    ensures Allowed(lim, s, Others(now, n), 0, true) == 0
  {
    if n > 0 {
      OthersStay(lim, s, now, n - 1);
      var calls := Others(now, n);
      assert calls[..|calls| - 1] == Others(now, n - 1);
      GrantedStep(lim, s, calls, 0, true);
      OtherStep(lim, Run(lim, s, Others(now, n - 1), true), now, n);
    }
  }

  lemma ManyKeys(m: Buckets, n: nat)
    requires forall i :: 0 <= i <= n ==> i in m
    ensures |m| > n
  {
    NodeCount(n + 1);
    SubsetSize(Nodes(n + 1), m.Keys);
  }

  /** The next whole number. */
  function Ceiling(x: real): (c: nat)
    requires x >= 0.0
    ensures x <= c as real < x + 1.0
  {
    if x.Floor as real == x then x.Floor else x.Floor + 1
  }

  /** One call, then after a wait of `wait` the rest of c = Ceiling(burst): c calls that leave nothing. */
  function Exhaust(c: nat, start: real, wait: real): seq<Call>
    requires c > 1
  {
    [Call(0, start)] + Again(c, start + wait)
  }

  function Again(c: nat, now: real): seq<Call>
    requires c > 1
  {
    [Call(0, now)] + Repeat(0, now, c - 2)
  }

  /** A first call and the rest. */
  lemma FrontCall(lim: Limits, s: State, k: Key, now: real, rest: seq<Call>)
    ensures Run(lim, s, [Call(k, now)] + rest, true) == Run(lim, After(lim, s, k, now, true).0, rest, true)
    ensures Allowed(lim, s, [Call(k, now)] + rest, k, true) ==
              (if After(lim, s, k, now, true).1 then 1 else 0) + Allowed(lim, After(lim, s, k, now, true).0, rest, k, true)
  {
    assert [Call(k, now)][..0] == [];
    GrantedStep(lim, s, [Call(k, now)], k, true);
    AllowedSplit(lim, s, [Call(k, now)], rest, k, true);
    RunSplit(lim, s, [Call(k, now)], rest, true);
  }

  /** The first of the calls finds a full bucket, the second exactly c - 1 tokens. */
  lemma SecondFinds(lim: Limits, s: State, start: real, c: nat, wait: real)
    requires lim.Valid() && lim.burst <= c as real < lim.burst + 1.0 && Earned(lim, wait) == c as real - lim.burst && wait >= 0.0
    requires 0 in s.m && s.m[0] == Bucket(lim.burst - 1.0, start) && !Sweeps(s)
    ensures var (s', ok) := After(lim, s, 0, start + wait, true);
            && ok && s'.calls == s.calls + 1 && 0 in s'.m && s'.m[0] == Bucket((c - 2) as real, start + wait)
            && 3 <= c && (c - 2) as real <= lim.burst
  {
    assert start + wait - start == wait;
  }

  lemma FirstFinds(lim: Limits, s: State, start: real)
    requires lim.Valid() && Level(lim, if Sweeps(s) then Swept(s.m, start) else s.m, 0, start) == lim.burst
    requires (s.calls + 2) % SWEEP_EVERY != 0
    ensures var (s', ok) := After(lim, s, 0, start, true);
            ok && !Sweeps(s') && s'.calls == s.calls + 1 && 0 in s'.m && s'.m[0] == Bucket(lim.burst - 1.0, start)
  {
  }

  /** Identity 0 has no tokens. */
  predicate LeftWith(s: State, calls: nat, last: real) {
    s.calls == calls && 0 in s.m && s.m[0] == Bucket(0.0, last)
  }

  lemma TakeToZero(lim: Limits, s: State, now: real, n: nat)
    requires lim.Valid() && 0 in s.m && s.m[0] == Bucket(n as real, now) && n as real <= lim.burst
    ensures Allowed(lim, s, Repeat(0, now, n), 0, true) == n
    ensures LeftWith(Run(lim, s, Repeat(0, now, n), true), s.calls + n, now)
  {
    TakeAll(lim, s, 0, now, n);
  }

  /** The second call, and then all that is left. */
  lemma RestFrom(lim: Limits, s: State, s2: State, c: nat, now: real)
    requires lim.Valid() && c > 2 && (c - 2) as real <= lim.burst
    requires After(lim, s, 0, now, true) == (s2, true)
    requires s2.calls == s.calls + 1 && 0 in s2.m && s2.m[0] == Bucket((c - 2) as real, now)
    ensures Allowed(lim, s, Again(c, now), 0, true) == c - 1
    ensures LeftWith(Run(lim, s, Again(c, now), true), s.calls + c - 1, now)
  {
    FrontCall(lim, s, 0, now, Repeat(0, now, c - 2));
    TakeToZero(lim, s2, now, c - 2);
  }

  /** An identity with a full bucket gets c calls and is left with nothing. */
  lemma ExhaustAll(lim: Limits, s: State, start: real, c: nat, wait: real)
    requires lim.Valid() && lim.burst <= c as real < lim.burst + 1.0 && Earned(lim, wait) == c as real - lim.burst && wait >= 0.0
    requires Level(lim, if Sweeps(s) then Swept(s.m, start) else s.m, 0, start) == lim.burst
    requires (s.calls + 2) % SWEEP_EVERY != 0
    ensures Allowed(lim, s, Exhaust(c, start, wait), 0, true) == c
    ensures LeftWith(Run(lim, s, Exhaust(c, start, wait), true), s.calls + c, start + wait)
  {
    FirstFinds(lim, s, start);
    var s1 := After(lim, s, 0, start, true).0;
    SecondFinds(lim, s1, start, c, wait);
    RestFrom(lim, s1, After(lim, s1, 0, start + wait, true).0, c, start + wait);
    FrontCall(lim, s, 0, start, Again(c, start + wait));
  }

  /** How many other identities it takes so that the call after them is one that sweeps. */
  function Fill(c: nat): (n: nat)
    ensures n > SWEEP_SIZE && (c + n + 1) % SWEEP_EVERY == 0
  {
    var q := c / SWEEP_EVERY + 3;
    assert q * SWEEP_EVERY > c + SWEEP_SIZE + 1;
    q * SWEEP_EVERY - 1 - c
  }

  /** Identity 0 uses up its bucket, enough others call, it stays away for `idle`, and uses it up again. */
  function Abuse(c: nat, wait: real, idle: real): seq<Call>
    requires c > 1
  {
    Exhaust(c, 0.0, wait) + Others(wait, Fill(c)) + Exhaust(c, wait + idle, wait)
  }

  /** The first two parts leave identity 0 with nothing and the limiter about to sweep. */
  lemma AboutToSweep(lim: Limits, c: nat, wait: real)
    requires lim.Valid() && wait >= 0.0 && lim.burst <= c as real < lim.burst + 1.0 && Earned(lim, wait) == c as real - lim.burst
    ensures var calls := Exhaust(c, 0.0, wait) + Others(wait, Fill(c));
            var s := Run(lim, EMPTY, calls, true);
            && Allowed(lim, EMPTY, calls, 0, true) == c
            && s.calls == c + Fill(c) && |s.m| > SWEEP_SIZE && 0 in s.m && s.m[0] == Bucket(0.0, wait)
  {
    var a, b := Exhaust(c, 0.0, wait), Others(wait, Fill(c));
    ExhaustAll(lim, EMPTY, 0.0, c, wait);
    OthersStay(lim, Run(lim, EMPTY, a, true), wait, Fill(c));
    AllowedSplit(lim, EMPTY, a, b, 0, true);
    RunSplit(lim, EMPTY, a, b, true);
    ManyKeys(Run(lim, EMPTY, a + b, true).m, Fill(c));
  }

  /** When ten minutes earn less than a burst there is a run in which one identity gets more than
      burst + rate * t calls in a time t: its emptied bucket is swept away and comes back full. */
  lemma BoundBreaks(lim: Limits, wait: real, idle: real)
    requires lim.Valid() && wait >= 0.0 && Earned(lim, wait) == Ceiling(lim.burst) as real - lim.burst
    requires idle > IDLE && Earned(lim, idle) < lim.burst
    ensures Allowed(lim, EMPTY, Abuse(Ceiling(lim.burst), wait, idle), 0, true) as real
            > lim.burst + Earned(lim, wait + idle + wait)
  {
    var c := Ceiling(lim.burst);
    var ab, d := Exhaust(c, 0.0, wait) + Others(wait, Fill(c)), Exhaust(c, wait + idle, wait);
    AboutToSweep(lim, c, wait);
    var s := Run(lim, EMPTY, ab, true);
    SweptIsFull(lim, s, c, wait, wait + idle);
    ExhaustAll(lim, s, wait + idle, c, wait);
    AllowedSplit(lim, EMPTY, ab, d, 0, true);
    TwiceIsMore(lim, c, wait, idle);
  }

  lemma SweptIsFull(lim: Limits, s: State, c: nat, last: real, now: real)
    requires 0 in s.m && s.m[0].last == last && now - last > IDLE
    requires s.calls == c + Fill(c) && |s.m| > SWEEP_SIZE
    ensures Sweeps(s) && Level(lim, Swept(s.m, now), 0, now) == lim.burst
    ensures (s.calls + 2) % SWEEP_EVERY != 0
  {
    assert (s.calls + 1) % SWEEP_EVERY == 0;
  }

  lemma TwiceIsMore(lim: Limits, c: nat, wait: real, idle: real)
    requires Earned(lim, wait) == c as real - lim.burst && Earned(lim, idle) < lim.burst
    ensures (c + c) as real > lim.burst + Earned(lim, wait + idle + wait)
  {
    EarnedSum(lim, wait, idle);
    EarnedSum(lim, wait + idle, wait);
  }

  lemma {:induction false} OrderedSplit(a: seq<Call>, b: seq<Call>, t: real)
    requires Ordered(a, t) && Ordered(b, LastTime(a, t))
    ensures Ordered(a + b, t) && LastTime(a + b, t) == LastTime(b, LastTime(a, t))
  {
    if b == [] {
      assert a + b == a;
    } else {
      OrderedSplit(a, b[..|b| - 1], t);
      assert (a + b)[..|a + b| - 1] == a + b[..|b| - 1];
    }
  }

  lemma {:induction false} RepeatOrdered(k: Key, now: real, n: nat, t: real)
    requires t <= now
    ensures Ordered(Repeat(k, now, n), t) && LastTime(Repeat(k, now, n), t) == if n == 0 then t else now
  {
    if n > 0 {
      RepeatOrdered(k, now, n - 1, t);
      assert Repeat(k, now, n)[..|Repeat(k, now, n)| - 1] == Repeat(k, now, n - 1);
    }
  }

  lemma {:induction false} OthersOrdered(now: real, n: nat, t: real)
    requires t <= now
    ensures Ordered(Others(now, n), t) && LastTime(Others(now, n), t) == if n == 0 then t else now
  {
    if n > 0 {
      OthersOrdered(now, n - 1, t);
      assert Others(now, n)[..n - 1] == Others(now, n - 1);
    }
  }

  lemma AgainOrdered(c: nat, now: real, t: real)
    requires c > 1 && t <= now
    ensures Ordered(Again(c, now), t) && LastTime(Again(c, now), t) == now
  {
    var first := [Call(0, now)];
    assert first[..0] == [] && Ordered(first[..0], t);
    RepeatOrdered(0, now, c - 2, now);
    OrderedSplit(first, Repeat(0, now, c - 2), t);
  }

  lemma ExhaustOrdered(c: nat, start: real, wait: real, t: real)
    requires c > 1 && t <= start && wait >= 0.0
    ensures Ordered(Exhaust(c, start, wait), t) && LastTime(Exhaust(c, start, wait), t) == start + wait
  {
    var first := [Call(0, start)];
    assert first[..0] == [] && Ordered(first[..0], t);
    assert Ordered(first, t) && LastTime(first, t) == start;
    AgainOrdered(c, start + wait, start);
    OrderedSplit(first, Again(c, start + wait), t);
  }

  lemma AbuseOrdered(c: nat, wait: real, idle: real)
    requires c > 1 && wait >= 0.0 && idle >= 0.0
    ensures Ordered(Abuse(c, wait, idle), 0.0) && LastTime(Abuse(c, wait, idle), 0.0) == wait + idle + wait
  {
    ExhaustOrdered(c, 0.0, wait, 0.0);
    OthersOrdered(wait, Fill(c), wait);
    OrderedSplit(Exhaust(c, 0.0, wait), Others(wait, Fill(c)), 0.0);
    ExhaustOrdered(c, wait + idle, wait, wait);
    OrderedSplit(Exhaust(c, 0.0, wait) + Others(wait, Fill(c)), Exhaust(c, wait + idle, wait), 0.0);
  }

  /** The limiter as it is keeps to the window bound, from a start at time zero. */
  ghost predicate Bounded(lim: Limits) {
    forall calls, k :: Ordered(calls, 0.0) ==>
      Allowed(lim, EMPTY, calls, k, true) as real <= lim.burst + Earned(lim, LastTime(calls, 0.0))
  }

  /** No run can tell whether the limiter sweeps. */
  ghost predicate SweepingInvisible(lim: Limits) {
    forall calls :: Ordered(calls, 0.0) ==> Answers(lim, EMPTY, calls, true) == Answers(lim, EMPTY, calls, false)
  }

  /** A wait that tops up to a whole token and an idle time that is swept but earns less than a burst. */
  lemma Times(lim: Limits) returns (wait: real, idle: real)
    requires lim.Valid() && Earned(lim, IDLE) < lim.burst
    ensures wait >= 0.0 && Earned(lim, wait) == Ceiling(lim.burst) as real - lim.burst
    ensures idle > IDLE && Earned(lim, idle) < lim.burst
  {
    var d := Ceiling(lim.burst) as real - lim.burst;
    wait := d / lim.rate;
    var full := lim.burst / lim.rate;
    assert Earned(lim, full) == lim.burst;
    if full <= IDLE {
      EarnedGrows(lim, full, IDLE);
    }
    idle := (IDLE + full) / 2.0;
    assert Earned(lim, idle) < lim.burst by {
      EarnedSum(lim, IDLE, full);
      EarnedSum(lim, idle, idle);
    }
  }

  /** Both promises, the window bound and sweeping that nobody notices, hold exactly when ten minutes
      earn at least a burst. */
  lemma SweepingIff(lim: Limits)
    requires lim.Valid()
    ensures Bounded(lim) <==> Earned(lim, IDLE) >= lim.burst
    ensures SweepingInvisible(lim) <==> Earned(lim, IDLE) >= lim.burst
  {
    if Earned(lim, IDLE) >= lim.burst {
      forall calls, k | Ordered(calls, 0.0)
        ensures Allowed(lim, EMPTY, calls, k, true) as real <= lim.burst + Earned(lim, LastTime(calls, 0.0))
      {
        FromStart(lim, calls, k, true);
      }
      forall calls | Ordered(calls, 0.0) ensures Answers(lim, EMPTY, calls, true) == Answers(lim, EMPTY, calls, false) {
        SameAnswers(lim, calls);
      }
    } else {
      var wait, idle := Times(lim);
      var calls := Abuse(Ceiling(lim.burst), wait, idle);
      BoundBreaks(lim, wait, idle);
      AbuseOrdered(Ceiling(lim.burst), wait, idle);
      FromStart(lim, calls, 0, false);
      assert Allowed(lim, EMPTY, calls, 0, true) != Allowed(lim, EMPTY, calls, 0, false);
    }
  }

  lemma FromStart(lim: Limits, calls: seq<Call>, k: Key, sweeping: bool)
    requires lim.Valid() && Ordered(calls, 0.0) && (sweeping ==> Earned(lim, IDLE) >= lim.burst)
    ensures Allowed(lim, EMPTY, calls, k, sweeping) as real <= lim.burst + Earned(lim, LastTime(calls, 0.0))
  {
    WindowBound(lim, [], calls, k, 0.0, LastTime(calls, 0.0), sweeping);
  }
}
