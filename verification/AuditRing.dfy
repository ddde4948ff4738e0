/** The hash-chained audit ring (internal/api/audit.go). The hash is a function of the previous hash
    and of everything in the entry but its own hash. */
module AuditRing {
  import opened Basics

  type Hash = string

  /** Time, method, path, status, identity and so on, as one text. */
  type Body = string

  datatype Entry = Entry(seqNo: nat, body: Body, prevHash: Hash, hash: Hash)

  type Hasher = (Hash, nat, Body) -> Hash

  ghost predicate Injective(h: Hasher) {
    forall p, s, b, p', s', b' :: h(p, s, b) == h(p', s', b') ==> p == p' && s == s' && b == b'
  }

  const AUDIT_CAP: nat := 20000

  /** The entry is hashed over what it says. */
  predicate Hashed(h: Hasher, e: Entry) {
    e.hash == h(e.prevHash, e.seqNo, e.body)
  }

  /** Every entry is hashed and refers to the one before it; the first may refer to anything. */
  predicate Linked(h: Hasher, w: seq<Entry>) {
    && (forall i :: 0 <= i < |w| ==> Hashed(h, w[i]))
    && (forall i :: 0 < i < |w| ==> w[i].prevHash == w[i - 1].hash)
  }

  /** Where the i-th recorded entry is kept. */
  function Slot(i: nat): (s: nat)
    ensures s < AUDIT_CAP
  {
    if i < AUDIT_CAP then i else Slot(i - AUDIT_CAP)
  }

  /** The index of the i-th step of a walk over the last n entries. */
  function Walk(next: nat, n: nat, i: nat): (s: nat)
    requires n <= AUDIT_CAP
    ensures s < AUDIT_CAP
  {
    (next - n + i + AUDIT_CAP * 2) % AUDIT_CAP
  }

  lemma {:induction false} NextSlot(i: nat)
    ensures Slot(i + 1) == (Slot(i) + 1) % AUDIT_CAP
  {
    if i >= AUDIT_CAP {
      NextSlot(i - AUDIT_CAP);
    }
  }

  /** The slots of entries back from the newest, without division. */
  lemma {:induction false} SlotBack(total: nat, d: nat)
    requires d <= total && d <= AUDIT_CAP
    ensures Slot(total - d) == if d <= Slot(total) then Slot(total) - d else Slot(total) - d + AUDIT_CAP
  {
    if total >= AUDIT_CAP && total - d >= AUDIT_CAP {
      SlotBack(total - AUDIT_CAP, d);
    }
  }

  /** The walk's index arithmetic finds the slots of the last n entries. */
  lemma WalkIndex(total: nat, n: nat, i: nat)
    requires n <= total && n <= AUDIT_CAP && i < n
    ensures Walk(Slot(total), n, i) == Slot(total - n + i)
  {
    SlotBack(total, n - i);
  }

  /** Fewer than a capacity apart, different entries are in different slots. */
  lemma SlotsDiffer(i: nat, j: nat)
    requires i < j < i + AUDIT_CAP
    ensures Slot(i) != Slot(j)
  {
    SlotBack(j, j - i);
  }

  /** The entries are numbered on and chained from where the log started; prev and seqNo are those of
      the last one. */
  ghost predicate Chain(h: Hasher, prev0: Hash, seq0: nat, log: seq<Entry>, prev: Hash, seqNo: nat) {
    && Linked(h, log)
    && (forall i :: 0 <= i < |log| ==> log[i].seqNo == seq0 + i + 1)
    && seqNo == seq0 + |log|
    && prev == (if log == [] then prev0 else log[|log| - 1].hash)
    && (log != [] ==> log[0].prevHash == prev0)
  }

  lemma ChainGrows(h: Hasher, prev0: Hash, seq0: nat, log: seq<Entry>, prev: Hash, seqNo: nat, e: Entry)
    requires Chain(h, prev0, seq0, log, prev, seqNo)
    requires Hashed(h, e) && e.prevHash == prev && e.seqNo == seqNo + 1
    ensures Chain(h, prev0, seq0, log + [e], e.hash, seqNo + 1)
  {
  }

  class AuditLog {
    const h: Hasher
    const seq0: nat
    const prev0: Hash
    const buf: array<Entry>
    var next: nat
    var n: nat
    var seqNo: nat
    var prev: Hash
    /** Everything ever recorded. */
    ghost var recorded: seq<Entry>

    /** The ring holds n entries, found by the walk's arithmetic. */
    ghost predicate Shape()
      reads this, buf
    {
      buf.Length == AUDIT_CAP && next < AUDIT_CAP && n <= AUDIT_CAP
    }

    /** The entries the walk visits, in its order. */
    ghost function Window(): (w: seq<Entry>)
      reads this, buf
      requires Shape()
      ensures |w| == n
    {
      seq(n, i requires 0 <= i < n reads this, buf requires Shape() => buf[Walk(next, n, i)])
    }

    /** The ring holds the last entries, each in its slot. */
    ghost predicate Kept()
      reads this, buf
    {
      && Shape()
      && n == Min(|recorded|, AUDIT_CAP) && next == Slot(|recorded|)
      && (forall i :: |recorded| - n <= i < |recorded| ==> buf[Slot(i)] == recorded[i])
    }

    ghost predicate Chained()
      reads this
    {
      Chain(h, prev0, seq0, recorded, prev, seqNo)
    }

    ghost predicate Valid()
      reads this, buf
    {
      Kept() && Chained()
    }

    /** A new log, continuing the chain of a hash and number found on disk. */
    constructor (h: Hasher, prev0: Hash, seq0: nat, filler: Entry)
      ensures Valid() && fresh(buf) && recorded == []
      ensures this.h == h && this.prev0 == prev0 && this.seq0 == seq0
    {
      this.h, this.prev0, this.seq0 := h, prev0, seq0;
      buf := new Entry[AUDIT_CAP](_ => filler);
      next, n, seqNo, prev, recorded := 0, 0, seq0, prev0, [];
    }

    lemma WalkAt(i: nat)
      requires Kept() && i < n
      ensures n <= |recorded| && Window()[i] == recorded[|recorded| - n + i]
    {
      WalkIndex(|recorded|, n, i);
    }

    /** The walk visits exactly the last min(count, capacity) entries, in the order of recording. */
    lemma WalkVisitsLast()
      requires Kept()
      ensures n == Min(|recorded|, AUDIT_CAP) && Window() == recorded[|recorded| - n..]
    {
      forall i: nat | i < n ensures Window()[i] == recorded[|recorded| - n + i] {
        WalkAt(i);
      }
    }

    /** Puts an entry into the next slot of the ring. */
    method Store(e: Entry)
      requires Kept()
      modifies `next, `n, `recorded, buf
      ensures Kept() && recorded == old(recorded) + [e]
    {
      ghost var total := |recorded|;
      forall i: nat | total < i + AUDIT_CAP && i < total ensures Slot(i) != Slot(total) {
        SlotsDiffer(i, total);
      }
      NextSlot(total);
      buf[next] := e;
      next := (next + 1) % AUDIT_CAP;
      if n < AUDIT_CAP {
        n := n + 1;
      }
      recorded := recorded + [e];
    }

    method Record(body: Body)
      requires Valid()
      modifies this, buf
      ensures Valid()
      ensures recorded == old(recorded) + [Entry(old(seqNo) + 1, body, old(prev), h(old(prev), old(seqNo) + 1, body))]
    {
      ghost var no := seqNo;
      seqNo := seqNo + 1;
      var e := Entry(seqNo, body, prev, h(prev, seqNo, body));
      ChainGrows(h, prev0, seq0, recorded, prev, no, e);
      prev := e.hash;
      Store(e);
    }

    /** Walks the ring, whatever is in it, and reports the first entry that does not fit. */
    method Verify() returns (okCount: nat, brokenAt: nat)
      requires Shape()
      ensures (okCount, brokenAt) == Verdict(h, Window())
    {
      okCount, brokenAt := 0, 0;
      var prevHash := "";
      ghost var w := Window();
      for i := 0 to n
        invariant okCount == i
        invariant i > 0 ==> prevHash == w[i - 1].hash
        invariant Verdict(h, w) == VerdictFrom(h, w, i)
      {
        var e := buf[Walk(next, n, i)];
        assert e == w[i];
        if i == 0 {
          prevHash := e.prevHash;
        }
        if e.prevHash != prevHash || e.hash != h(prevHash, e.seqNo, e.body) {
          return okCount, e.seqNo;
        }
        prevHash := e.hash;
        okCount := okCount + 1;
      }
    }

    /** The entries numbered after `after`. */
    method Newer(after: nat) returns (out: seq<Entry>)
      requires Valid()
      ensures n <= |recorded|
      ensures out == recorded[|recorded| - Min(n, if seqNo > after then seqNo - after else 0)..]
    {
      WalkVisitsLast();
      ghost var skipped := n - Min(n, if seqNo > after then seqNo - after else 0);
      out := [];
      for i := 0 to n
        invariant out == if i <= skipped then [] else recorded[|recorded| - n + skipped..|recorded| - n + i]
      {
        var e := buf[Walk(next, n, i)];
        assert e == Window()[i] == recorded[|recorded| - n + i];
        if e.seqNo > after {
          out := out + [e];
        }
      }
    }

    /** The entries after a number, at most the last `limit` of them when there is a limit. */
    method Snapshot(limit: int, after: nat) returns (out: seq<Entry>)
      requires Valid()
      ensures n <= |recorded|
      ensures var newer := Min(n, if seqNo > after then seqNo - after else 0);
              var m := if limit > 0 then Min(newer, limit) else newer;
              out == recorded[|recorded| - m..]
    {
      out := Newer(after);
      if limit > 0 && |out| > limit {
        out := out[|out| - limit..];
      }
    }

    /** An untouched ring verifies, whatever was recorded. */
    lemma UntouchedVerifies()
      requires Valid()
      ensures Verdict(h, Window()) == (n, 0)
    {
      WalkVisitsLast();
      VerdictIs(h, Window());
    }

    /** Whatever replaces the entries of the ring, if there are as many, all of them verify, and the last
        hash is the one of the untouched ring, then nothing was changed. */
    lemma TamperingShows(w: seq<Entry>)
      requires Valid() && Injective(h) && n > 0
      requires |w| == n && Verdict(h, w).0 == n && w[n - 1].hash == prev
      ensures w == Window()
    {
      WalkVisitsLast();
      VerdictIs(h, w);
      SameEndSameChain(h, w, Window());
    }
  }

  /** Entry i fits: its hash is right and it refers to the one before it. */
  predicate Fits(h: Hasher, w: seq<Entry>, i: nat)
    requires i < |w|
  {
    Hashed(h, w[i]) && (i > 0 ==> w[i].prevHash == w[i - 1].hash)
  }

  /** How many entries fit from the start, and the number of the first that does not, or 0. */
  function VerdictFrom(h: Hasher, w: seq<Entry>, i: nat): (nat, nat)
    requires i <= |w|
    decreases |w| - i
  {
    if i == |w| then (i, 0) else if Fits(h, w, i) then VerdictFrom(h, w, i + 1) else (i, w[i].seqNo)
  }

  function Verdict(h: Hasher, w: seq<Entry>): (nat, nat) {
    VerdictFrom(h, w, 0)
  }

  lemma {:induction false} VerdictFromIs(h: Hasher, w: seq<Entry>, i: nat)
    requires i <= |w| && Linked(h, w[..i])
    ensures var (ok, at) := VerdictFrom(h, w, i);
            && i <= ok <= |w| && Linked(h, w[..ok])
            && (ok == |w| ==> at == 0)
            && (ok < |w| ==> !Fits(h, w, ok) && at == w[ok].seqNo)
    decreases |w| - i
  {
    if i < |w| && Fits(h, w, i) {
      VerdictFromIs(h, w, i + 1);
    }
  }

  /** The walk counts the whole window if and only if the window is linked. It reports 0, which the
      handler shows as intact, if and only if it is linked or the first entry that does not fit is
      numbered 0. */
  lemma VerdictIs(h: Hasher, w: seq<Entry>)
    ensures Verdict(h, w).0 == |w| <==> Linked(h, w)
    ensures Verdict(h, w).1 == 0 <==>
              Linked(h, w) || (Verdict(h, w).0 < |w| && w[Verdict(h, w).0].seqNo == 0)
  {
    VerdictFromIs(h, w, 0);
    assert w[..|w|] == w;
    var ok := Verdict(h, w).0;
    if ok < |w| {
      assert !Fits(h, w, ok);
    }
  }

  lemma {:induction false} VerdictStops(h: Hasher, w: seq<Entry>, i: nat, at: nat)
    requires i <= at < |w| && !Fits(h, w, at)
    requires forall j :: i <= j < at ==> Fits(h, w, j)
    ensures VerdictFrom(h, w, i) == (at, w[at].seqNo)
    decreases at - i
  {
    if i < at {
      VerdictStops(h, w, i + 1, at);
    }
  }

  /** An entry given another number breaks the chain, and the walk reports the number it was given: the
      change shows if and only if that number is not 0. */
  lemma RenumberingShowsIff(h: Hasher, w: seq<Entry>, i: nat, seqNo: nat)
    requires Injective(h) && Linked(h, w) && i < |w| && seqNo != w[i].seqNo
    ensures var t := w[i := w[i].(seqNo := seqNo)];
            && !Linked(h, t) && Verdict(h, t) == (i, seqNo)
            && (Verdict(h, t).1 != 0 <==> seqNo != 0)
  {
    var t := w[i := w[i].(seqNo := seqNo)];
    assert Hashed(h, w[i]) && !Hashed(h, t[i]);
    VerdictStops(h, t, 0, i);
  }

  /** Two linked windows of the same length with the same last hash are the same, entry by entry. */
  lemma {:induction false} SameEndSameChain(h: Hasher, a: seq<Entry>, b: seq<Entry>)
    requires Injective(h) && Linked(h, a) && Linked(h, b) && |a| == |b|
    requires |a| > 0 ==> a[|a| - 1].hash == b[|b| - 1].hash
    ensures a == b
  {
    if |a| > 0 {
      var m := |a| - 1;
      assert Hashed(h, a[m]) && Hashed(h, b[m]);
      assert a[m] == b[m];
      SameEndSameChain(h, a[..m], b[..m]);
      assert a == a[..m] + [a[m]] && b == b[..m] + [b[m]];
    }
  }
}
