/** The codec boundary (internal/erasure/erasure.go): splitting one stripe into data shards,
    joining them again, and a Reed-Solomon code taken at its defining property. */
module ErasureCode {
  import opened Basics
  import opened Options

  function CeilDiv(a: nat, b: nat): nat
    requires b > 0
  {
    (a + b - 1) / b
  }

  lemma CeilDivBounds(a: nat, b: nat)
    requires b > 0
    ensures a <= b * CeilDiv(a, b) < a + b
    ensures CeilDiv(a, b) == 0 <==> a == 0
  {
    var q := CeilDiv(a, b);
    assert a + b - 1 == b * q + (a + b - 1) % b;
    if q == 0 && a > 0 {
      assert false;
    }
  }

  lemma MulMonotone(a: nat, b: nat, c: nat)
    requires a <= b
    ensures a * c <= b * c
  {
  }

  function Zeros(n: nat): (z: Bytes)
    ensures |z| == n
  {
    seq(n, _ => 0)
  }

  function Padded(data: Bytes, k: nat): (p: Bytes)
    requires k > 0
    ensures |p| == k * CeilDiv(|data|, k)
    ensures data <= p
  {
    CeilDivBounds(|data|, k);
    data + Zeros(k * CeilDiv(|data|, k) - |data|)
  }

  /** k equal slices of the zero-padded stripe. */
  function Split(data: Bytes, k: nat): (shards: seq<Bytes>)
    requires k > 0
    ensures |shards| == k
    ensures forall j :: 0 <= j < k ==> |shards[j]| == CeilDiv(|data|, k)
  {
    var len := CeilDiv(|data|, k);
    seq(k, j requires 0 <= j < k => Slice(Padded(data, k), j, k, len))
  }

  function Slice(p: Bytes, j: nat, k: nat, len: nat): (s: Bytes)
    requires j < k && |p| == k * len
    ensures |s| == len
    ensures (j + 1) * len <= |p| && s == p[j * len..(j + 1) * len]
  {
    MulMonotone(j + 1, k, len);
    assert (j + 1) * len == j * len + len;
    p[j * len..(j + 1) * len]
  }

  function Concat(shards: seq<Bytes>): Bytes {
    if shards == [] then [] else Concat(shards[..|shards| - 1]) + shards[|shards| - 1]
  }

  /** The first n bytes of the data shards in order. */
  function Join(shards: seq<Bytes>, k: nat, n: nat): Bytes
    requires k <= |shards| && n <= |Concat(shards[..k])|
  {
    Concat(shards[..k])[..n]
  }

  lemma {:induction false} ConcatSplit(data: Bytes, k: nat, j: nat)
    requires k > 0 && j <= k
    ensures j * CeilDiv(|data|, k) <= |Padded(data, k)|
    ensures Concat(Split(data, k)[..j]) == Padded(data, k)[..j * CeilDiv(|data|, k)]
  {
    var len := CeilDiv(|data|, k);
    MulMonotone(j, k, len);
    if j > 0 {
      ConcatSplit(data, k, j - 1);
      assert Split(data, k)[..j][..j - 1] == Split(data, k)[..j - 1];
      assert (j - 1) * len + len == j * len;
    }
  }

  lemma JoinSplit(data: Bytes, k: nat, shards: seq<Bytes>)
    requires k > 0 && Split(data, k) <= shards
    ensures |data| <= |Concat(shards[..k])|
    ensures Join(shards, k, |data|) == data
  {
    ConcatSplit(data, k, k);
    assert shards[..k] == Split(data, k) == Split(data, k)[..k];
    assert Padded(data, k)[..k * CeilDiv(|data|, k)] == Padded(data, k);
  }

  /** An erasure code: parity shards computed from k data shards, and the reconstruction of all n
      shards from those that are there. */
  datatype Codec = Codec(
    k: nat,
    n: nat,
    parity: seq<Bytes> -> seq<Bytes>,
    rebuild: seq<Option<Bytes>> -> Option<seq<Bytes>>)

  predicate SameLength(shards: seq<Bytes>, len: nat) {
    forall j :: 0 <= j < |shards| ==> |shards[j]| == len
  }

  predicate Agrees(got: seq<Option<Bytes>>, all: seq<Bytes>) {
    && |got| == |all|
    && forall j :: 0 <= j < |got| && got[j].Some? ==> got[j].value == all[j]
  }

  ghost predicate ParityFits(c: Codec) {
    forall shards, len: nat {:trigger c.parity(shards), SameLength(shards, len)} ::
      |shards| == c.k && SameLength(shards, len) ==>
      |c.parity(shards)| == c.n - c.k && SameLength(c.parity(shards), len)
  }

  /** Any k shards of a stripe determine all n of them. */
  ghost predicate AnyKDetermine(c: Codec) {
    forall shards, len: nat, got {:trigger c.rebuild(got), c.parity(shards), SameLength(shards, len)} ::
      |shards| == c.k && SameLength(shards, len) ==>
      (Agrees(got, shards + c.parity(shards)) && Present(got) >= c.k ==>
       c.rebuild(got) == Some(shards + c.parity(shards)))
  }

  /** The Reed-Solomon property: any k of the n shards of a stripe determine all of them, and
      fewer than k are an error. */
  ghost predicate IsCode(c: Codec) {
    && 1 <= c.k <= c.n
    && ParityFits(c)
    && AnyKDetermine(c)
    && (forall got {:trigger c.rebuild(got)} :: |got| == c.n && Present(got) < c.k ==> c.rebuild(got).None?)
  }

  /** All shards of one stripe. */
  function Encode(c: Codec, data: Bytes): seq<Bytes>
    requires c.k > 0
  {
    var shards := Split(data, c.k);
    shards + c.parity(shards)
  }

  lemma EncodeShape(c: Codec, data: Bytes)
    requires IsCode(c)
    ensures |Encode(c, data)| == c.n && SameLength(Encode(c, data), CeilDiv(|data|, c.k))
  {
    var shards, len := Split(data, c.k), CeilDiv(|data|, c.k);
    assert SameLength(shards, len);
    assert |c.parity(shards)| == c.n - c.k && SameLength(c.parity(shards), len);
  }

  /** The values of shards that are all there. */
  function Values(got: seq<Option<Bytes>>): (v: seq<Bytes>)
    requires forall j :: 0 <= j < |got| ==> got[j].Some?
    ensures |v| == |got| && forall j :: 0 <= j < |got| ==> v[j] == got[j].value
  {
    seq(|got|, j requires 0 <= j < |got| => got[j].value)
  }

  /** Reconstruction leaves a complete set of shards alone. */
  function Reconstruct(c: Codec, got: seq<Option<Bytes>>): Option<seq<Bytes>> {
    if forall j :: 0 <= j < |got| ==> got[j].Some? then Some(Values(got)) else c.rebuild(got)
  }

  /** Decode one stripe of n data bytes; None when too few shards are there. */
  function DecodeData(c: Codec, got: seq<Option<Bytes>>, n: nat): Option<Bytes> {
    var all := Reconstruct(c, got);
    if all.Some? && c.k <= |all.value| && n <= |Concat(all.value[..c.k])|
    then Some(Join(all.value, c.k, n)) else None
  }

  lemma ReconstructStripe(c: Codec, data: Bytes, got: seq<Option<Bytes>>)
    requires IsCode(c) && Agrees(got, Encode(c, data)) && Present(got) >= c.k
    ensures Reconstruct(c, got) == Some(Encode(c, data))
  {
    var shards, len := Split(data, c.k), CeilDiv(|data|, c.k);
    assert SameLength(shards, len);
    assert Agrees(got, shards + c.parity(shards));
    if forall j :: 0 <= j < |got| ==> got[j].Some? {
      assert Values(got) == Encode(c, data);
    }
  }

  /** One stripe survives any loss that leaves k of its shards. */
  lemma DecodeEncode(c: Codec, data: Bytes, got: seq<Option<Bytes>>)
    requires IsCode(c) && Agrees(got, Encode(c, data)) && Present(got) >= c.k
    ensures DecodeData(c, got, |data|) == Some(data)
  {
    ReconstructStripe(c, data, got);
    JoinSplit(data, c.k, Encode(c, data));
  }

  // ----- a code for the smallest set: two data shards and two parity shards

  /** The two half-bytes (h, l) become (l, h xor l): multiplication by a generator of GF(4). */
  function Twist(b: bv8): bv8 {
    (b << 4) | ((b >> 4) ^ (b & 0x0F))
  }

  /** Any two of a, b, a xor b and a xor Twist(b) give back a and b. */
  lemma TwistSolves(a: bv8, b: bv8)
    ensures a ^ (a ^ b) == b && b ^ (a ^ b) == a && (a ^ b) ^ b == a
    ensures (a ^ Twist(b)) ^ Twist(b) == a
    ensures Twist(Twist(a ^ (a ^ Twist(b)))) == b
    ensures Twist((a ^ b) ^ (a ^ Twist(b))) == b
  {
  }

  function Xor(a: Bytes, b: Bytes): (x: Bytes)
    ensures |x| == |a|
  {
    seq(|a|, i requires 0 <= i < |a| => if i < |b| then a[i] ^ b[i] else a[i])
  }

  function MapAll(f: bv8 -> bv8, b: Bytes): (t: Bytes)
    ensures |t| == |b|
  {
    seq(|b|, i requires 0 <= i < |b| => f(b[i]))
  }

  function TwistAll(b: Bytes): (t: Bytes)
    ensures |t| == |b|
  {
    MapAll(Twist, b)
  }

  function PairParity(a: Bytes, b: Bytes): seq<Bytes> {
    [Xor(a, b), Xor(a, TwistAll(b))]
  }

  /** The data shards from any two shards. */
  function PairSolve(got: seq<Option<Bytes>>): Option<(Bytes, Bytes)>
    requires |got| == 4
  {
    match (got[0], got[1], got[2], got[3])
    case (Some(a), Some(b), _, _) => Some((a, b))
    case (Some(a), None, Some(p), _) => Some((a, Xor(a, p)))
    case (Some(a), None, None, Some(q)) => Some((a, TwistAll(TwistAll(Xor(a, q)))))
    case (None, Some(b), Some(p), _) => Some((Xor(b, p), b))
    case (None, Some(b), None, Some(q)) => Some((Xor(q, TwistAll(b)), b))
    case (None, None, Some(p), Some(q)) => Some((Xor(p, TwistAll(Xor(p, q))), TwistAll(Xor(p, q))))
    case _ => None
  }

  function PairRebuild(got: seq<Option<Bytes>>): Option<seq<Bytes>> {
    if |got| != 4 || PairSolve(got).None? then None
    else Some([PairSolve(got).value.0, PairSolve(got).value.1] + PairParity(PairSolve(got).value.0, PairSolve(got).value.1))
  }

  const PAIR_CODEC := Codec(2, 4, s => if |s| == 2 then PairParity(s[0], s[1]) else [], PairRebuild)

  lemma PresentOfFour(got: seq<Option<Bytes>>)
    requires |got| == 4
    ensures Present(got) == (if got[0].Some? then 1 else 0) + (if got[1].Some? then 1 else 0)
                            + (if got[2].Some? then 1 else 0) + (if got[3].Some? then 1 else 0)
  {
    assert got[..3][..2] == got[..2] && got[..2][..1] == got[..1];
    assert got[..1][..0] == [];
  }

  /** What each pair of shards solves to. */
  lemma PairIdentities(a: Bytes, b: Bytes)
    requires |a| == |b|
    ensures var p, q := Xor(a, b), Xor(a, TwistAll(b));
            && Xor(a, p) == b && Xor(b, p) == a && Xor(q, TwistAll(b)) == a
            && TwistAll(TwistAll(Xor(a, q))) == b && TwistAll(Xor(p, q)) == b && Xor(p, b) == a
  {
    var p, q := Xor(a, b), Xor(a, TwistAll(b));
    forall i | 0 <= i < |a|
      ensures Xor(a, p)[i] == b[i] && Xor(b, p)[i] == a[i] && Xor(p, b)[i] == a[i] && Xor(q, TwistAll(b))[i] == a[i]
      ensures TwistAll(TwistAll(Xor(a, q)))[i] == b[i] && TwistAll(Xor(p, q))[i] == b[i]
    {
      PlainPairAt(a, b, i);
      PlainPairAt(a, TwistAll(b), i);
      TwistSolves(a[i], b[i]);
      MappedPairAt(Twist, a, b, i);
    }
  }

  lemma PlainPairAt(a: Bytes, b: Bytes, i: nat)
    requires |a| == |b| && i < |a|
    ensures Xor(a, Xor(a, b))[i] == b[i] && Xor(b, Xor(a, b))[i] == a[i] && Xor(Xor(a, b), b)[i] == a[i]
  {
    TwistSolves(a[i], b[i]);
  }

  lemma MappedPairAt(f: bv8 -> bv8, a: Bytes, b: Bytes, i: nat)
    requires |a| == |b| && i < |a|
    requires f(f(a[i] ^ (a[i] ^ f(b[i])))) == b[i] && f((a[i] ^ b[i]) ^ (a[i] ^ f(b[i]))) == b[i]
    ensures MapAll(f, MapAll(f, Xor(a, Xor(a, MapAll(f, b)))))[i] == b[i]
    ensures MapAll(f, Xor(Xor(a, b), Xor(a, MapAll(f, b))))[i] == b[i]
  {
  }

  lemma PairRebuilds(shards: seq<Bytes>, len: nat, got: seq<Option<Bytes>>)
    requires |shards| == 2 && SameLength(shards, len) && Agrees(got, shards + PairParity(shards[0], shards[1]))
    requires Present(got) >= 2
    ensures PairRebuild(got) == Some(shards + PairParity(shards[0], shards[1]))
  {
    var a, b := shards[0], shards[1];
    var all := shards + PairParity(a, b);
    PresentOfFour(got);
    PairIdentities(a, b);
    assert all[0] == a && all[1] == b && all[2] == Xor(a, b) && all[3] == Xor(a, TwistAll(b));
    assert shards == [a, b];
    assert PairSolve(got) == Some((a, b));
  }

  /** The property asked of a code can be met: here by the code of a set of four disks, the smallest
      there is. */
  lemma PairIsCode()
    ensures IsCode(PAIR_CODEC)
  {
    var c := PAIR_CODEC;
    forall shards, len: nat {:trigger c.parity(shards), SameLength(shards, len)} | |shards| == 2 && SameLength(shards, len)
      ensures |c.parity(shards)| == 2 && SameLength(c.parity(shards), len)
    {
      assert |shards[0]| == len;
    }
    forall shards, len: nat, got {:trigger c.rebuild(got), c.parity(shards), SameLength(shards, len)} |
      |shards| == 2 && SameLength(shards, len) && Agrees(got, shards + c.parity(shards)) && Present(got) >= 2
      ensures c.rebuild(got) == Some(shards + c.parity(shards))
    {
      PairRebuilds(shards, len, got);
    }
    forall got {:trigger c.rebuild(got)} | |got| == 4 && Present(got) < 2 ensures c.rebuild(got).None? {
      PresentOfFour(got);
    }
  }
}
