/** The encrypted chunk stream (internal/sse/sse.go) and its range arithmetic
    (internal/erasure/encryption.go). The AEAD is a pair of functions. */
module SseStream {
  import Basics
  import opened Options

  type Byte = b: nat | b < 256 witness 0
  type Bytes = seq<Byte>

  const CHUNK_PLAIN: nat := 65536
  const TAG_LEN: nat := 16
  const TAG: Bytes := [0, 0, 0, 0, 0, 0, 0, 0, 0, 0, 0, 0, 0, 0, 0, 0]
  const CHUNK_CIPHER: nat := CHUNK_PLAIN + TAG_LEN
  const COUNTERS: nat := 0x1_0000_0000_0000_0000
  const MAX_INT64: nat := 0x7FFF_FFFF_FFFF_FFFF

  /** Sealing and opening under one key. */
  datatype Aead = Aead(seal: (Bytes, Bytes) -> Bytes, open: (Bytes, Bytes) -> Option<Bytes>)

  /** What section 7 of NIST SP 800-38D gives: a 16-byte tag, and opening undoes sealing. */
  ghost predicate Sound(g: Aead) {
    && (forall n, p {:trigger g.seal(n, p)} :: |g.seal(n, p)| == |p| + TAG_LEN)
    && (forall n, p {:trigger g.seal(n, p)} :: g.open(n, g.seal(n, p)) == Some(p))
  }

  /** There is such a pair: sealing that appends a tag and opening that takes it off. */
  lemma SoundIsPossible()
    ensures Sound(Aead((n, p) => p + TAG, (n, c: Bytes) => if |c| >= TAG_LEN then Some(c[..|c| - TAG_LEN]) else None))
  {
  }

  // ----- sizes

  function CipherSize(n: nat): nat {
    if n == 0 then 0
    else n / CHUNK_PLAIN * CHUNK_CIPHER + if n % CHUNK_PLAIN > 0 then n % CHUNK_PLAIN + TAG_LEN else 0
  }

  /** Of a size that no plaintext has, this may even be negative. */
  function PlainSize(n: nat): int {
    if n == 0 then 0
    else n / CHUNK_CIPHER * CHUNK_PLAIN + if n % CHUNK_CIPHER > 0 then n % CHUNK_CIPHER - TAG_LEN else 0
  }

  lemma PlainOfCipher(n: nat)
    ensures PlainSize(CipherSize(n)) == n
  {
    var full, rem := n / CHUNK_PLAIN, n % CHUNK_PLAIN;
    var tail := if rem > 0 then rem + TAG_LEN else 0;
    assert CipherSize(n) == full * CHUNK_CIPHER + tail && tail < CHUNK_CIPHER;
    assert CipherSize(n) / CHUNK_CIPHER == full && CipherSize(n) % CHUNK_CIPHER == tail;
  }

  /** A size is the size of some stream if and only if its last chunk is whole or holds more than a tag. */
  lemma CipherOfPlainIff(n: nat)
    ensures (PlainSize(n) >= 0 && CipherSize(PlainSize(n)) == n) <==>
            (n % CHUNK_CIPHER == 0 || n % CHUNK_CIPHER > TAG_LEN)
  {
    var full, rem := n / CHUNK_CIPHER, n % CHUNK_CIPHER;
    if rem > TAG_LEN || rem == 0 {
      var m: nat := PlainSize(n);
      assert m / CHUNK_PLAIN == full && m % CHUNK_PLAIN == if rem == 0 then 0 else rem - TAG_LEN;
    } else if PlainSize(n) >= 0 {
      PlainOfCipher(PlainSize(n));
      CipherModulo(PlainSize(n));
    }
  }

  lemma CipherModulo(n: nat)
    ensures CipherSize(n) % CHUNK_CIPHER == if n % CHUNK_PLAIN > 0 then n % CHUNK_PLAIN + TAG_LEN else 0
  {
  }

  /** Whole chunks in front add whole chunks to the stream. */
  lemma CipherSplit(m: nat, n: nat)
    ensures CipherSize(m * CHUNK_PLAIN + n) == m * CHUNK_CIPHER + CipherSize(n)
  {
    var whole := m * CHUNK_PLAIN + n;
    assert whole / CHUNK_PLAIN == m + n / CHUNK_PLAIN && whole % CHUNK_PLAIN == n % CHUNK_PLAIN;
  }

  // ----- nonces

  /** The w low bytes of c, most significant first. */
  function BigEndian(c: nat, w: nat): (b: Bytes)
    ensures |b| == w
  {
    if w == 0 then [] else BigEndian(c / 256, w - 1) + [c % 256]
  }

  function Pow256(w: nat): nat {
    if w == 0 then 1 else 256 * Pow256(w - 1)
  }

  lemma {:induction false} BigEndianInjective(c: nat, d: nat, w: nat)
    requires c < Pow256(w) && d < Pow256(w) && BigEndian(c, w) == BigEndian(d, w)
    ensures c == d
  {
    if w > 0 {
      var x, y := BigEndian(c / 256, w - 1), BigEndian(d / 256, w - 1);
      assert (x + [c % 256])[..w - 1] == x && (y + [d % 256])[..w - 1] == y;
      assert (x + [c % 256])[w - 1] == c % 256 && (y + [d % 256])[w - 1] == d % 256;
      BigEndianInjective(c / 256, d / 256, w - 1);
    }
  }

  /** A 4-byte prefix and an 8-byte counter. */
  function Nonce(prefix: Bytes, counter: nat): (n: Bytes)
    ensures |n| == |prefix| + 8
  {
    prefix + BigEndian(counter, 8)
  }

  /** The counter is an unsigned 64-bit integer. */
  function Inc(counter: nat): (c: nat)
    ensures c < COUNTERS
  {
    (counter + 1) % COUNTERS
  }

  lemma NonceInjective(prefix: Bytes, c: nat, d: nat)
    requires c < COUNTERS && d < COUNTERS && Nonce(prefix, c) == Nonce(prefix, d)
    ensures c == d
  {
    assert Nonce(prefix, c)[|prefix|..] == BigEndian(c, 8);
    assert Nonce(prefix, d)[|prefix|..] == BigEndian(d, 8);
    assert Pow256(8) == COUNTERS by {
      assert Pow256(4) == 0x1_0000_0000;
      assert Pow256(6) == 0x1_0000_0000_0000;
    }
    BigEndianInjective(c, d, 8);
  }

  // ----- the stream

  /** The sealed chunks of a plaintext, one after the other. */
  function Sealed(g: Aead, prefix: Bytes, plain: Bytes, counter: nat): Bytes
    decreases |plain|
  {
    if plain == [] then []
    else
      var n := if |plain| < CHUNK_PLAIN then |plain| else CHUNK_PLAIN;
      g.seal(Nonce(prefix, counter), plain[..n]) + Sealed(g, prefix, plain[n..], Inc(counter))
  }

  lemma {:induction false} SealedSize(g: Aead, prefix: Bytes, plain: Bytes, counter: nat)
    requires Sound(g)
    ensures |Sealed(g, prefix, plain, counter)| == CipherSize(|plain|)
    decreases |plain|
  {
    if plain != [] {
      var n := if |plain| < CHUNK_PLAIN then |plain| else CHUNK_PLAIN;
      SealedSize(g, prefix, plain[n..], Inc(counter));
      assert |g.seal(Nonce(prefix, counter), plain[..n])| == n + TAG_LEN;
      if n == CHUNK_PLAIN {
        CipherSplit(1, |plain| - CHUNK_PLAIN);
      }
    }
  }

  function Chunks(len: nat): nat {
    (len + CHUNK_PLAIN - 1) / CHUNK_PLAIN
  }

  datatype End = Clean | Broken | Truncated | Tampered

  /** What a ciphertext opens to: the plaintext of its leading good chunks, and how it ends. */
  function Opened(g: Aead, prefix: Bytes, src: Bytes, counter: nat, broken: bool): (Bytes, End)
    decreases |src|
  {
    if src == [] then ([], if broken then Broken else Clean)
    else
      var n := if |src| < CHUNK_CIPHER then |src| else CHUNK_CIPHER;
      if n < TAG_LEN + 1 then ([], Truncated)
      else
        var pt := g.open(Nonce(prefix, counter), src[..n]);
        if pt.None? then ([], Tampered)
        else
          var (more, end) := Opened(g, prefix, src[n..], Inc(counter), broken);
          (pt.value + more, end)
  }

  /** Opening undoes sealing. */
  lemma {:induction false} OpenSealed(g: Aead, prefix: Bytes, plain: Bytes, counter: nat)
    requires Sound(g)
    ensures Opened(g, prefix, Sealed(g, prefix, plain, counter), counter, false) == (plain, Clean)
    decreases |plain|
  {
    if plain != [] {
      var n := if |plain| < CHUNK_PLAIN then |plain| else CHUNK_PLAIN;
      var head, tail := g.seal(Nonce(prefix, counter), plain[..n]), Sealed(g, prefix, plain[n..], Inc(counter));
      OpenSealed(g, prefix, plain[n..], Inc(counter));
      assert n < CHUNK_PLAIN ==> tail == [];
      var m := if |head + tail| < CHUNK_CIPHER then |head + tail| else CHUNK_CIPHER;
      assert m == |head| && (head + tail)[..m] == head && (head + tail)[m..] == tail;
      assert plain[..n] + plain[n..] == plain;
    }
  }

  /** The counter of the m-th chunk after this one. */
  function Ahead(counter: nat, m: nat): nat
    decreases m
  {
    if m == 0 then counter else Ahead(Inc(counter), m - 1)
  }

  /** The stream of a plaintext cut at a chunk boundary is the two streams, one after the other. */
  lemma {:induction false} SealedSplit(g: Aead, prefix: Bytes, a: Bytes, b: Bytes, counter: nat, m: nat)
    requires |a| == m * CHUNK_PLAIN
    ensures Sealed(g, prefix, a + b, counter) ==
              Sealed(g, prefix, a, counter) + Sealed(g, prefix, b, Ahead(counter, m))
    decreases m
  {
    if m == 0 {
      assert a + b == b;
    } else {
      var n := CHUNK_PLAIN;
      SealedSplit(g, prefix, a[n..], b, Inc(counter), m - 1);
      assert (a + b)[..n] == a[..n] && (a + b)[n..] == a[n..] + b;
    }
  }

  lemma {:induction false} AheadOfZero(c: nat, m: nat)
    requires c + m < COUNTERS
    ensures Ahead(c, m) == c + m
    decreases m
  {
    if m > 0 {
      AheadOfZero(Inc(c), m - 1);
    }
  }

  // ----- streams that are not what was sealed

  /** A whole chunk that opens, and what follows it. */
  lemma OpenedNext(g: Aead, prefix: Bytes, chunk: Bytes, tail: Bytes, counter: nat, broken: bool)
    requires |chunk| == CHUNK_CIPHER && g.open(Nonce(prefix, counter), chunk).Some?
    ensures var (more, end) := Opened(g, prefix, tail, Inc(counter), broken);
            Opened(g, prefix, chunk + tail, counter, broken) == (g.open(Nonce(prefix, counter), chunk).value + more, end)
  {
    assert (chunk + tail)[..CHUNK_CIPHER] == chunk && (chunk + tail)[CHUNK_CIPHER..] == tail;
  }

  /** Behind whole sealed chunks a stream opens to their plaintext and then as its rest does. */
  lemma {:induction false} OpenedBehind(g: Aead, prefix: Bytes, plain: Bytes, tail: Bytes, counter: nat, m: nat, broken: bool)
    requires Sound(g) && |plain| == m * CHUNK_PLAIN
    ensures var (more, end) := Opened(g, prefix, tail, Ahead(counter, m), broken);
            Opened(g, prefix, Sealed(g, prefix, plain, counter) + tail, counter, broken) == (plain + more, end)
    decreases m
  {
    if m == 0 {
      assert Sealed(g, prefix, plain, counter) + tail == tail;
      assert plain + Opened(g, prefix, tail, counter, broken).0 == Opened(g, prefix, tail, counter, broken).0;
    } else {
      var n := CHUNK_PLAIN;
      var head, rest := g.seal(Nonce(prefix, counter), plain[..n]), Sealed(g, prefix, plain[n..], Inc(counter));
      OpenedBehind(g, prefix, plain[n..], tail, Inc(counter), m - 1, broken);
      OpenedNext(g, prefix, head, rest + tail, counter, broken);
      Assoc(head, rest, tail);
      assert Sealed(g, prefix, plain, counter) + tail == head + (rest + tail);
      assert plain[..n] + plain[n..] == plain;
      Assoc(plain[..n], plain[n..], Opened(g, prefix, tail, Ahead(counter, m), broken).0);
    }
  }

  /** A chunk that fails authentication ends the stream there, whatever follows it: what comes out is the
      plaintext before it, and the error. */
  lemma ForgedChunk(g: Aead, prefix: Bytes, plain: Bytes, bad: Bytes, rest: Bytes, counter: nat, m: nat, broken: bool)
    requires Sound(g) && |plain| == m * CHUNK_PLAIN && counter + m < COUNTERS
    requires TAG_LEN < |bad| <= CHUNK_CIPHER && (rest != [] ==> |bad| == CHUNK_CIPHER)
    requires g.open(Nonce(prefix, counter + m), bad) == None
    ensures Opened(g, prefix, Sealed(g, prefix, plain, counter) + (bad + rest), counter, broken) == (plain, Tampered)
  {
    OpenedBehind(g, prefix, plain, bad + rest, counter, m, broken);
    AheadOfZero(counter, m);
    assert (bad + rest)[..|bad|] == bad;
    assert plain + [] == plain;
  }

  /** So does a last piece of no more than a tag. */
  lemma ShortChunk(g: Aead, prefix: Bytes, plain: Bytes, bad: Bytes, counter: nat, m: nat, broken: bool)
    requires Sound(g) && |plain| == m * CHUNK_PLAIN && 1 <= |bad| <= TAG_LEN
    ensures Opened(g, prefix, Sealed(g, prefix, plain, counter) + bad, counter, broken) == (plain, Truncated)
  {
    OpenedBehind(g, prefix, plain, bad, counter, m, broken);
    assert plain + [] == plain;
  }

  // ----- any stream, chunk by chunk

  /** Chunk i of a stream; the last may be short. */
  function ChunkAt(src: Bytes, i: nat): Bytes
    requires i * CHUNK_CIPHER < |src|
  {
    src[i * CHUNK_CIPHER..Basics.Min((i + 1) * CHUNK_CIPHER, |src|)]
  }

  /** The nonce that chunk i is opened under, when the first has this counter. */
  function NonceAt(prefix: Bytes, counter: nat, i: nat): Bytes {
    Nonce(prefix, (counter + i) % COUNTERS)
  }

  /** Chunk i is there, holds more than a tag, and passes authentication. */
  predicate Opens(g: Aead, prefix: Bytes, src: Bytes, counter: nat, i: nat) {
    && i * CHUNK_CIPHER < |src|
    && |ChunkAt(src, i)| > TAG_LEN
    && g.open(NonceAt(prefix, counter, i), ChunkAt(src, i)).Some?
  }

  /** The plaintext of the first n chunks. */
  function Plains(g: Aead, prefix: Bytes, src: Bytes, counter: nat, n: nat): Bytes
    requires forall i :: 0 <= i < n ==> Opens(g, prefix, src, counter, i)
  {
    if n == 0 then []
    else
      assert Opens(g, prefix, src, counter, n - 1);
      Plains(g, prefix, src, counter, n - 1) + g.open(NonceAt(prefix, counter, n - 1), ChunkAt(src, n - 1)).value
  }

  /** How a stream ends behind its first n chunks. */
  predicate EndsAt(g: Aead, prefix: Bytes, src: Bytes, counter: nat, broken: bool, n: nat, end: End) {
    match end
    case Clean => n * CHUNK_CIPHER >= |src| && !broken
    case Broken => n * CHUNK_CIPHER >= |src| && broken
    case Truncated => n * CHUNK_CIPHER < |src| && |ChunkAt(src, n)| <= TAG_LEN
    case Tampered =>
      && n * CHUNK_CIPHER < |src| && |ChunkAt(src, n)| > TAG_LEN
      && g.open(NonceAt(prefix, counter, n), ChunkAt(src, n)).None?
  }

  /** The stream opens in exactly its first n chunks and then ends in this way. */
  predicate OpensUpTo(g: Aead, prefix: Bytes, src: Bytes, counter: nat, broken: bool, n: nat, end: End) {
    (forall i :: 0 <= i < n ==> Opens(g, prefix, src, counter, i)) && EndsAt(g, prefix, src, counter, broken, n, end)
  }

  lemma ChunkAfter(src: Bytes, i: nat)
    requires |src| > CHUNK_CIPHER
    ensures i * CHUNK_CIPHER < |src[CHUNK_CIPHER..]| <==> (i + 1) * CHUNK_CIPHER < |src|
    ensures (i + 1) * CHUNK_CIPHER < |src| ==> ChunkAt(src[CHUNK_CIPHER..], i) == ChunkAt(src, i + 1)
  {
    if (i + 1) * CHUNK_CIPHER < |src| {
      var from, to := i * CHUNK_CIPHER, Basics.Min((i + 1) * CHUNK_CIPHER, |src| - CHUNK_CIPHER);
      assert Basics.Min((i + 2) * CHUNK_CIPHER, |src|) == to + CHUNK_CIPHER;
      assert src[CHUNK_CIPHER..][from..to] == src[CHUNK_CIPHER + from..CHUNK_CIPHER + to];
    }
  }

  lemma CounterAfter(counter: nat, i: nat)
    ensures (Inc(counter) + i) % COUNTERS == (counter + (i + 1)) % COUNTERS
  {
    var q := (counter + 1) / COUNTERS;
    assert counter + 1 + i == q * COUNTERS + (Inc(counter) + i);
    ModMultiple(q, Inc(counter) + i);
  }

  lemma {:induction false} ModMultiple(q: nat, x: nat)
    ensures (q * COUNTERS + x) % COUNTERS == x % COUNTERS
  {
    if q > 0 {
      ModMultiple(q - 1, x);
      assert q * COUNTERS + x == ((q - 1) * COUNTERS + x) + COUNTERS;
    }
  }

  lemma OpensAfter(g: Aead, prefix: Bytes, src: Bytes, counter: nat, i: nat)
    requires |src| > CHUNK_CIPHER
    ensures Opens(g, prefix, src[CHUNK_CIPHER..], Inc(counter), i) <==> Opens(g, prefix, src, counter, i + 1)
    ensures NonceAt(prefix, Inc(counter), i) == NonceAt(prefix, counter, i + 1)
  {
    ChunkAfter(src, i);
    CounterAfter(counter, i);
    assert NonceAt(prefix, Inc(counter), i) == NonceAt(prefix, counter, i + 1);
  }

  lemma {:induction false} PlainsNext(g: Aead, prefix: Bytes, src: Bytes, counter: nat, n: nat)
    requires |src| > CHUNK_CIPHER && Opens(g, prefix, src, counter, 0)
    requires forall i :: 0 <= i < n ==> Opens(g, prefix, src[CHUNK_CIPHER..], Inc(counter), i)
    ensures forall i :: 0 <= i < n + 1 ==> Opens(g, prefix, src, counter, i)
    ensures Plains(g, prefix, src, counter, n + 1) ==
              g.open(NonceAt(prefix, counter, 0), ChunkAt(src, 0)).value +
              Plains(g, prefix, src[CHUNK_CIPHER..], Inc(counter), n)
  {
    var tail, first := src[CHUNK_CIPHER..], g.open(NonceAt(prefix, counter, 0), ChunkAt(src, 0)).value;
    forall i | 0 < i < n + 1 ensures Opens(g, prefix, src, counter, i) {
      OpensAfter(g, prefix, src, counter, i - 1);
    }
    if n == 0 {
      assert Plains(g, prefix, src, counter, 0) + first == first + [];
    } else {
      PlainsNext(g, prefix, src, counter, n - 1);
      OpensAfter(g, prefix, src, counter, n - 1);
      ChunkAfter(src, n - 1);
      assert Opens(g, prefix, tail, Inc(counter), n - 1);
      Assoc(first, Plains(g, prefix, tail, Inc(counter), n - 1),
            g.open(NonceAt(prefix, Inc(counter), n - 1), ChunkAt(tail, n - 1)).value);
    }
  }

  lemma EndsAfter(g: Aead, prefix: Bytes, src: Bytes, counter: nat, broken: bool, n: nat, end: End)
    requires |src| > CHUNK_CIPHER && EndsAt(g, prefix, src[CHUNK_CIPHER..], Inc(counter), broken, n, end)
    ensures EndsAt(g, prefix, src, counter, broken, n + 1, end)
  {
    ChunkAfter(src, n);
    OpensAfter(g, prefix, src, counter, n);
  }

  /** One chunk of a stream, opened, and the stream behind it. */
  lemma OpenedFirst(g: Aead, prefix: Bytes, src: Bytes, counter: nat, broken: bool)
    requires counter < COUNTERS && Opens(g, prefix, src, counter, 0)
    ensures var (more, end) := Opened(g, prefix, src[|ChunkAt(src, 0)|..], Inc(counter), broken);
            Opened(g, prefix, src, counter, broken) == (g.open(NonceAt(prefix, counter, 0), ChunkAt(src, 0)).value + more, end)
  {
    FirstChunk(prefix, src, counter);
  }

  lemma FirstChunk(prefix: Bytes, src: Bytes, counter: nat)
    requires counter < COUNTERS && src != []
    ensures ChunkAt(src, 0) == src[..if |src| < CHUNK_CIPHER then |src| else CHUNK_CIPHER]
    ensures NonceAt(prefix, counter, 0) == Nonce(prefix, counter)
  {
  }

  /** Every stream, whoever made it: what it opens to is the plaintext of its leading chunks that open, and
      the end tells why the next one did not, or that there is none. */
  lemma {:induction false} OpenedIs(g: Aead, prefix: Bytes, src: Bytes, counter: nat, broken: bool) returns (n: nat)
    requires counter < COUNTERS
    ensures OpensUpTo(g, prefix, src, counter, broken, n, Opened(g, prefix, src, counter, broken).1)
    ensures Opened(g, prefix, src, counter, broken).0 == Plains(g, prefix, src, counter, n)
    decreases |src|
  {
    n := 0;
    if !Opens(g, prefix, src, counter, 0) {
      StopsAtFirst(g, prefix, src, counter, broken);
    } else {
      OpenedFirst(g, prefix, src, counter, broken);
      var m := OpenedIs(g, prefix, src[|ChunkAt(src, 0)|..], Inc(counter), broken);
      OneMore(g, prefix, src, counter, broken, m);
      n := m + 1;
    }
  }

  lemma StopsAtFirst(g: Aead, prefix: Bytes, src: Bytes, counter: nat, broken: bool)
    requires counter < COUNTERS && !Opens(g, prefix, src, counter, 0)
    ensures EndsAt(g, prefix, src, counter, broken, 0, Opened(g, prefix, src, counter, broken).1)
    ensures Opened(g, prefix, src, counter, broken).0 == []
  {
    if src != [] {
      FirstChunk(prefix, src, counter);
    }
  }

  /** Behind a first chunk that opens come the chunks of the rest. */
  lemma OneMore(g: Aead, prefix: Bytes, src: Bytes, counter: nat, broken: bool, m: nat)
    requires counter < COUNTERS && Opens(g, prefix, src, counter, 0)
    requires var rest := src[|ChunkAt(src, 0)|..];
             && OpensUpTo(g, prefix, rest, Inc(counter), broken, m, Opened(g, prefix, rest, Inc(counter), broken).1)
    ensures var rest := src[|ChunkAt(src, 0)|..];
            && OpensUpTo(g, prefix, src, counter, broken, m + 1, Opened(g, prefix, rest, Inc(counter), broken).1)
            && Plains(g, prefix, src, counter, m + 1) ==
                 g.open(NonceAt(prefix, counter, 0), ChunkAt(src, 0)).value + Plains(g, prefix, rest, Inc(counter), m)
  {
    var rest := src[|ChunkAt(src, 0)|..];
    FirstChunk(prefix, src, counter);
    if |src| > CHUNK_CIPHER {
      PlainsNext(g, prefix, src, counter, m);
      EndsAfter(g, prefix, src, counter, broken, m, Opened(g, prefix, rest, Inc(counter), broken).1);
    } else {
      assert rest == [];
      LastChunk(g, prefix, src, counter, m);
    }
  }

  lemma LastChunk(g: Aead, prefix: Bytes, src: Bytes, counter: nat, m: nat)
    requires |src| <= CHUNK_CIPHER && Opens(g, prefix, src, counter, 0)
    requires m > 0 ==> Opens(g, prefix, [], Inc(counter), 0)
    ensures m == 0
    ensures Plains(g, prefix, src, counter, 1) == g.open(NonceAt(prefix, counter, 0), ChunkAt(src, 0)).value + []
  {
    assert Plains(g, prefix, src, counter, 0) == [];
  }

  // ----- one nonce a chunk

  lemma {:induction false} AheadIs(counter: nat, m: nat)
    requires counter < COUNTERS
    ensures Ahead(counter, m) == (counter + m) % COUNTERS
    decreases m
  {
    if m > 0 {
      AheadIs(Inc(counter), m - 1);
      CounterAfter(counter, m - 1);
    }
  }

  /** The plaintext that chunk i seals. */
  function PlainChunk(plain: Bytes, i: nat): Bytes
    requires i * CHUNK_PLAIN < |plain|
  {
    plain[i * CHUNK_PLAIN..Basics.Min((i + 1) * CHUNK_PLAIN, |plain|)]
  }

  lemma FirstSealed(g: Aead, prefix: Bytes, plain: Bytes, counter: nat)
    requires Sound(g) && plain != []
    ensures Sealed(g, prefix, plain, counter) != []
    ensures ChunkAt(Sealed(g, prefix, plain, counter), 0) == g.seal(Nonce(prefix, counter), PlainChunk(plain, 0))
  {
    var n := Basics.Min(CHUNK_PLAIN, |plain|);
    var head, rest := g.seal(Nonce(prefix, counter), plain[..n]), Sealed(g, prefix, plain[n..], Inc(counter));
    assert Sealed(g, prefix, plain, counter) == head + rest && |head| == n + TAG_LEN;
    assert n < CHUNK_PLAIN ==> rest == [];
    assert (head + rest)[..|head|] == head;
  }

  /** Chunk i of the stream of a plaintext seals piece i of it, under the nonce with counter i. */
  lemma SealedChunk(g: Aead, prefix: Bytes, plain: Bytes, counter: nat, i: nat)
    requires Sound(g) && counter < COUNTERS && i * CHUNK_PLAIN < |plain|
    ensures var stream := Sealed(g, prefix, plain, counter);
            && i * CHUNK_CIPHER < |stream|
            && ChunkAt(stream, i) == g.seal(NonceAt(prefix, counter, i), PlainChunk(plain, i))
  {
    var a, b := plain[..i * CHUNK_PLAIN], plain[i * CHUNK_PLAIN..];
    assert a + b == plain;
    SealedSplit(g, prefix, a, b, counter, i);
    SealedSize(g, prefix, a, counter);
    CipherSplit(i, 0);
    AheadIs(counter, i);
    FirstSealed(g, prefix, b, Ahead(counter, i));
    assert PlainChunk(b, 0) == PlainChunk(plain, i);
    ChunkBehind(Sealed(g, prefix, a, counter), Sealed(g, prefix, b, Ahead(counter, i)), i);
  }

  lemma ChunkBehind(a: Bytes, b: Bytes, i: nat)
    requires |a| == i * CHUNK_CIPHER && b != []
    ensures i * CHUNK_CIPHER < |a + b| && ChunkAt(a + b, i) == ChunkAt(b, 0)
  {
  }

  /** Within an object, whose length is an int64, no two chunks are sealed under the same nonce. */
  lemma NoNonceTwice(g: Aead, prefix: Bytes, plain: Bytes, i: nat, j: nat)
    requires Sound(g) && |plain| <= MAX_INT64 && i < j && j * CHUNK_PLAIN < |plain|
    ensures var stream := Sealed(g, prefix, plain, 0);
            && i * CHUNK_CIPHER < |stream| && j * CHUNK_CIPHER < |stream|
            && ChunkAt(stream, i) == g.seal(NonceAt(prefix, 0, i), PlainChunk(plain, i))
            && ChunkAt(stream, j) == g.seal(NonceAt(prefix, 0, j), PlainChunk(plain, j))
            && NonceAt(prefix, 0, i) != NonceAt(prefix, 0, j)
  {
    SealedChunk(g, prefix, plain, 0, i);
    SealedChunk(g, prefix, plain, 0, j);
    NoncesDiffer(prefix, i, j);
  }

  lemma NoncesDiffer(prefix: Bytes, i: nat, j: nat)
    requires i < j < COUNTERS
    ensures NonceAt(prefix, 0, i) != NonceAt(prefix, 0, j)
  {
    assert i % COUNTERS == i && j % COUNTERS == j;
    if Nonce(prefix, i) == Nonce(prefix, j) {
      NonceInjective(prefix, i, j);
    }
  }

  // ----- ranges

  /** First chunk, its offset in the stream, and how far into the chunk the plaintext offset is. */
  function CipherOffsetForPlain(off: nat): (nat, nat, nat) {
    (off / CHUNK_PLAIN, off / CHUNK_PLAIN * CHUNK_CIPHER, off % CHUNK_PLAIN)
  }

  /** The part of the stream to read for a plaintext range. */
  function CipherRange(off: nat, len: nat, total: nat): (nat, int) {
    var (_, co, intra) := CipherOffsetForPlain(off);
    var cl := (intra + len + CHUNK_PLAIN - 1) / CHUNK_PLAIN * CHUNK_CIPHER;
    (co, if co + cl > total then total - co else cl)
  }

  /** At most len bytes of s, from skip on. */
  function Clip(s: Bytes, skip: nat, len: nat): (c: Bytes)
    ensures |c| <= len
  {
    s[Basics.Min(skip, |s|)..Basics.Min(skip + len, |s|)]
  }

  /** A plaintext that does not fill its chunks is stored in no more than full chunks take. */
  lemma CipherGrows(n: nat, chunks: nat)
    requires n <= chunks * CHUNK_PLAIN
    ensures CipherSize(n) <= chunks * CHUNK_CIPHER
  {
  }

  /** The end of the last chunk a range touches. */
  function LastByte(off: nat, len: nat, total: nat): nat {
    Basics.Min((off / CHUNK_PLAIN + Chunks(off % CHUNK_PLAIN + len)) * CHUNK_PLAIN, total)
  }

  /** CipherRange cuts at chunk boundaries and covers the range. */
  lemma RangeSizes(off: nat, len: nat, total: nat)
    requires off + len <= total
    ensures var (fc, co, intra) := CipherOffsetForPlain(off);
            && fc * CHUNK_PLAIN + intra == off && co == CipherSize(fc * CHUNK_PLAIN)
            && off + len <= LastByte(off, len, total) && fc * CHUNK_PLAIN <= LastByte(off, len, total) <= total
            && CipherRange(off, len, CipherSize(total)) == (co, CipherSize(LastByte(off, len, total) - fc * CHUNK_PLAIN))
            && (LastByte(off, len, total) < total ==>
                  LastByte(off, len, total) - fc * CHUNK_PLAIN == Chunks(intra + len) * CHUNK_PLAIN)
  {
    var fc, chunks := off / CHUNK_PLAIN, Chunks(off % CHUNK_PLAIN + len);
    CipherSplit(fc, 0);
    CipherSplit(fc, total - fc * CHUNK_PLAIN);
    if (fc + chunks) * CHUNK_PLAIN <= total {
      CipherSplit(chunks, 0);
      CipherSplit(chunks, total - (fc + chunks) * CHUNK_PLAIN);
    } else {
      CipherGrows(total - fc * CHUNK_PLAIN, chunks);
    }
  }

  /** The same, by the first chunk, the last byte and the number of chunks. */
  lemma RangeIs(off: nat, len: nat, total: nat) returns (fc: nat, last: nat, chunks: nat)
    requires off + len <= total <= MAX_INT64
    ensures fc == off / CHUNK_PLAIN && last == LastByte(off, len, total)
    ensures fc * CHUNK_PLAIN <= last <= total && fc < COUNTERS
    ensures last < total ==> last == (fc + chunks) * CHUNK_PLAIN
    ensures CipherRange(off, len, CipherSize(total)) == (CipherSize(fc * CHUNK_PLAIN), CipherSize(last - fc * CHUNK_PLAIN))
  {
    fc, last, chunks := off / CHUNK_PLAIN, LastByte(off, len, total), Chunks(off % CHUNK_PLAIN + len);
    RangeSizes(off, len, total);
  }

  lemma TwoParts(g: Aead, prefix: Bytes, body: Bytes, tail: Bytes, counter: nat, chunks: nat) returns (rest: Bytes)
    requires tail != [] ==> |body| == chunks * CHUNK_PLAIN
    ensures Sealed(g, prefix, body + tail, counter) == Sealed(g, prefix, body, counter) + rest
  {
    if tail == [] {
      rest := [];
      assert body + tail == body;
    } else {
      rest := Sealed(g, prefix, tail, Ahead(counter, chunks));
      SealedSplit(g, prefix, body, tail, counter, chunks);
    }
  }

  /** The stream in three parts, when the middle starts at a chunk boundary and ends at one or at the
      end of the plaintext. */
  lemma ThreeParts(g: Aead, prefix: Bytes, plain: Bytes, fc: nat, last: nat, chunks: nat) returns (rest: Bytes)
    requires fc * CHUNK_PLAIN <= last <= |plain| && fc < COUNTERS
    requires last < |plain| ==> last == (fc + chunks) * CHUNK_PLAIN
    ensures Sealed(g, prefix, plain, 0) ==
              Sealed(g, prefix, plain[..fc * CHUNK_PLAIN], 0) + (Sealed(g, prefix, plain[fc * CHUNK_PLAIN..last], fc) + rest)
  {
    var head, body, tail := plain[..fc * CHUNK_PLAIN], plain[fc * CHUNK_PLAIN..last], plain[last..];
    assert head + (body + tail) == plain;
    SealedSplit(g, prefix, head, body + tail, 0, fc);
    AheadOfZero(0, fc);
    rest := TwoParts(g, prefix, body, tail, fc, chunks);
  }

  /** A slice of the stream that starts at a chunk boundary and ends at one or at the end is itself a stream. */
  lemma SliceAt(g: Aead, prefix: Bytes, plain: Bytes, fc: nat, last: nat, chunks: nat)
    requires Sound(g) && fc * CHUNK_PLAIN <= last <= |plain| && fc < COUNTERS
    requires last < |plain| ==> last == (fc + chunks) * CHUNK_PLAIN
    ensures var stream := Sealed(g, prefix, plain, 0);
            var (co, cl) := (CipherSize(fc * CHUNK_PLAIN), CipherSize(last - fc * CHUNK_PLAIN));
            && co + cl <= |stream| && stream[co..co + cl] == Sealed(g, prefix, plain[fc * CHUNK_PLAIN..last], fc)
  {
    var rest := ThreeParts(g, prefix, plain, fc, last, chunks);
    var head, body := plain[..fc * CHUNK_PLAIN], plain[fc * CHUNK_PLAIN..last];
    SealedSize(g, prefix, head, 0);
    SealedSize(g, prefix, body, fc);
    MiddleOf(Sealed(g, prefix, plain, 0), Sealed(g, prefix, head, 0), Sealed(g, prefix, body, fc), rest);
  }

  /** So the slice of the stream is itself the stream of the plaintext of the chunks it covers. */
  lemma RangeSlice(g: Aead, prefix: Bytes, plain: Bytes, off: nat, len: nat)
    requires Sound(g) && off + len <= |plain| <= MAX_INT64
    ensures off / CHUNK_PLAIN * CHUNK_PLAIN <= LastByte(off, len, |plain|) <= |plain|
    ensures var stream := Sealed(g, prefix, plain, 0);
            var (co, cl) := CipherRange(off, len, |stream|);
            && cl >= 0 && co + cl <= |stream|
            && stream[co..co + cl] ==
                 Sealed(g, prefix, plain[off / CHUNK_PLAIN * CHUNK_PLAIN..LastByte(off, len, |plain|)], off / CHUNK_PLAIN)
  {
    SealedSize(g, prefix, plain, 0);
    var fc, last, chunks := RangeIs(off, len, |plain|);
    SliceAt(g, prefix, plain, fc, last, chunks);
  }

  lemma MiddleOf(s: Bytes, a: Bytes, b: Bytes, c: Bytes)
    requires s == a + (b + c)
    ensures |a| + |b| <= |s| && s[|a|..|a| + |b|] == b
  {
  }

  /** Range decryption: for every plaintext and every range in it, opening just the slice of the stream
      that CipherRange names, from the chunk counter of its first chunk, and dropping what precedes the
      range, gives exactly those bytes. */
  lemma RangeDecrypts(g: Aead, prefix: Bytes, plain: Bytes, off: nat, len: nat)
    requires Sound(g) && off + len <= |plain| <= MAX_INT64
    ensures var stream := Sealed(g, prefix, plain, 0);
            var (co, cl) := CipherRange(off, len, |stream|);
            var (fc, _, intra) := CipherOffsetForPlain(off);
            && cl >= 0 && co + cl <= |stream|
            && Opened(g, prefix, stream[co..co + cl], fc, false).1 == Clean
            && Clip(Opened(g, prefix, stream[co..co + cl], fc, false).0, intra, len) == plain[off..off + len]
  {
    var fc, last := off / CHUNK_PLAIN, LastByte(off, len, |plain|);
    RangeSlice(g, prefix, plain, off, len);
    RangeSizes(off, len, |plain|);
    OpenSealed(g, prefix, plain[fc * CHUNK_PLAIN..last], fc);
    ClipSlice(plain, fc * CHUNK_PLAIN, last, off % CHUNK_PLAIN, len);
  }

  lemma ClipSlice(s: Bytes, from: nat, to: nat, skip: nat, len: nat)
    requires from + skip + len <= to <= |s|
    ensures Clip(s[from..to], skip, len) == s[from + skip..from + skip + len]
  {
    var t := s[from..to];
    assert Clip(t, skip, len) == t[skip..skip + len];
    assert t[skip..skip + len] == s[from + skip..from + skip + len];
  }

  // ----- the readers

  datatype ReadErr = Fine | Eof | Failed(end: End)

  /** What a read of up to n bytes from the front of src leaves. */
  method ReadFull(src: Bytes, n: nat) returns (data: Bytes, rest: Bytes, short: bool)
    ensures data + rest == src && |data| == Basics.Min(n, |src|)
    ensures short <==> |src| < n
  {
    var k := Basics.Min(n, |src|);
    data, rest, short := src[..k], src[k..], |src| < n;
  }

  /** The sealing reader. `src` is what its input still has to give; a broken input ends in an error
      instead of its end. */
  class EncReader {
    const g: Aead
    const prefix: Bytes
    const broken: bool
    var src: Bytes
    var counter: nat
    var pending: Bytes
    var eof: bool
    var failed: bool

    ghost predicate Valid()
      reads this
    {
      (eof ==> src == [] && !broken) && (failed ==> src == [] && broken)
    }

    /** What is still to come out. */
    ghost function Rest(): Bytes
      reads this
    {
      pending + Sealed(g, prefix, src, counter)
    }

    constructor (g: Aead, prefix: Bytes, input: Bytes, broken: bool)
      ensures Valid() && !failed && Rest() == Sealed(g, prefix, input, 0)
      ensures this.broken == broken
    {
      this.g, this.prefix, this.broken := g, prefix, broken;
      src, counter, pending, eof, failed := input, 0, [], false, false;
    }

    /** Seals the next chunk of the input. */
    method Fill()
      requires Valid() && pending == [] && !eof && !failed
      modifies this
      ensures Valid() && Rest() == old(Rest())
      ensures |src| < |old(src)| || eof || failed
      ensures failed ==> pending != [] || old(Rest()) == []
      ensures eof && pending == [] ==> Rest() == []
    {
      var data, rest, short := ReadFull(src, CHUNK_PLAIN);
      if |data| > 0 {
        assert data == src[..|data|] && rest == src[|data|..];
        pending := g.seal(Nonce(prefix, counter), data);
        counter := Inc(counter);
      }
      src := rest;
      if short {
        if broken {
          failed := true;
        } else {
          eof := true;
        }
      }
    }

    /** One read of at most k bytes. However reads are chopped they hand out the sealed stream in order,
        the end is reported when it is all out, and never for a broken input. */
    method Read(k: nat) returns (res: Bytes, err: ReadErr)
      requires Valid()
      modifies this
      ensures Valid() && |res| <= k
      ensures old(failed) ==> err == Failed(Broken)
      ensures err.Fine? ==> res + Rest() == old(Rest()) && (k > 0 ==> res != [])
      ensures !err.Fine? ==> res == [] && (old(failed) || old(Rest()) == [])
      ensures err.Eof? ==> !broken
      ensures err.Failed? ==> broken
    {
      if failed {
        return [], Failed(Broken);
      }
      while |pending| == 0 && !eof
        invariant Valid() && Rest() == old(Rest()) && !failed
        invariant eof && pending == [] ==> Rest() == []
        decreases |src|, !eof
      {
        Fill();
        if failed {
          if |pending| == 0 {
            return [], Failed(Broken);
          }
          break;
        }
      }
      if |pending| == 0 {
        return [], Eof;
      }
      var n := Basics.Min(k, |pending|);
      res, err := pending[..n], Fine;
      pending := pending[n..];
    }
  }

  /** The opening reader. */
  class DecReader {
    const g: Aead
    const prefix: Bytes
    const broken: bool
    var src: Bytes
    var counter: nat
    var skip: nat
    var remain: nat
    var out: Bytes
    var err: Option<End>

    ghost predicate Valid()
      reads this
    {
      && |out| <= remain && (out != [] ==> skip == 0)
      && (err.Some? ==> out == [] && remain > 0 && !err.value.Clean?)
    }

    /** What the input still opens to. */
    ghost function Ahead(): (Bytes, End)
      reads this
    {
      if err.Some? then ([], err.value) else Opened(g, prefix, src, counter, broken)
    }

    /** What is still to come out. */
    ghost function Rest(): Bytes
      reads this
      requires Valid()
    {
      out + Clip(Ahead().0, skip, remain - |out|)
    }

    constructor (g: Aead, prefix: Bytes, src: Bytes, broken: bool, firstChunk: nat, intraSkip: nat, length: nat)
      ensures Valid() && Rest() == Clip(Opened(g, prefix, src, firstChunk, broken).0, intraSkip, length)
      ensures Ahead() == Opened(g, prefix, src, firstChunk, broken) && remain == length
    {
      this.g, this.prefix, this.src, this.broken := g, prefix, src, broken;
      counter, skip, remain, out, err := firstChunk, intraSkip, length, [], None;
    }

    /** Opens the next chunk and cuts it to the part that was asked for. */
    method Fill() returns (ended: bool)
      requires Valid() && out == [] && remain > 0 && err.None?
      modifies this
      ensures Valid() && Rest() == old(Rest()) && Ahead().1 == old(Ahead()).1 && remain == old(remain)
      ensures ended ==> out == [] && Rest() == [] && (err == None <==> Ahead().1.Clean?) && (err.Some? ==> err.value == Ahead().1)
      ensures !ended ==> err.None? && |src| < |old(src)|
    {
      var data, rest, short := ReadFull(src, CHUNK_CIPHER);
      assert data == src[..|data|] && rest == src[|data|..];
      src := rest;
      ended := true;
      if |data| == 0 {
        if broken {
          err := Some(Broken);
        }
        return;
      }
      if |data| < TAG_LEN + 1 && short {
        err := Some(Truncated);
        return;
      }
      var pt := g.open(Nonce(prefix, counter), data);
      if pt.None? {
        err := Some(Tampered);
        return;
      }
      counter := Inc(counter);
      ended := false;
      Cut(pt.value);
    }

    /** The part of a chunk's plaintext that falls in the range. */
    method Cut(plain: Bytes)
      requires |out| == 0 && remain > 0 && err.None?
      modifies `out, `skip
      ensures |out| <= remain && (out != [] ==> skip == 0)
      ensures forall more :: Clip(plain + more, old(skip), remain) == out + Clip(more, skip, remain - |out|)
    {
      SharesAre(plain, skip, remain);
      ghost var share, left := ShareOf(plain, skip, remain), SkipAfter(plain, skip);
      var pt := plain;
      if skip > 0 {
        if skip >= |pt| {
          skip := skip - |pt|;
          pt := [];
        } else {
          pt := pt[skip..];
          skip := 0;
        }
      }
      if |pt| > remain {
        pt := pt[..remain];
      }
      assert pt == share && skip == left;
      out := pt;
    }

    /** Up to k bytes of the opened chunk. */
    method HandOut(k: nat) returns (res: Bytes)
      requires Valid() && out != [] && err.None?
      modifies `out, `remain
      ensures Valid() && |res| <= k && remain == old(remain) - |res| && Ahead() == old(Ahead())
      ensures res + Rest() == old(Rest()) && (k > 0 ==> res != [])
    {
      var n := Basics.Min(k, |out|);
      ghost var rest := Clip(Ahead().0, skip, remain - |out|);
      res := out[..n];
      Assoc(res, out[n..], rest);
      out := out[n..];
      remain := remain - n;
    }

    /** One read of at most k bytes. However reads are chopped they hand out the range's plaintext in
        order; after the last byte comes the end, or, when the range is cut short, what cut it. */
    method Read(k: nat) returns (res: Bytes, e: ReadErr)
      requires Valid()
      modifies this
      ensures Valid() && |res| <= k && remain == old(remain) - |res|
      ensures Ahead().1 == old(Ahead()).1
      ensures e.Fine? ==> res + Rest() == old(Rest()) && (k > 0 ==> res != [])
      ensures !e.Fine? ==> res == [] && old(Rest()) == [] && Rest() == []
      ensures !e.Fine? ==> e == if remain == 0 || Ahead().1.Clean? then Eof else Failed(Ahead().1)
    {
      if err.Some? {
        return [], Failed(err.value);
      }
      while |out| == 0
        invariant Valid() && Rest() == old(Rest()) && err.None? && remain == old(remain)
        invariant Ahead().1 == old(Ahead()).1
        decreases |src|, |out| == 0
      {
        if remain == 0 {
          return [], Eof;
        }
        var ended := Fill();
        if ended {
          if err.Some? {
            return [], Failed(err.value);
          }
          return [], Eof;
        }
      }
      e := Fine;
      res := HandOut(k);
    }
  }

  /** What a chunk contributes to the range, and what is left to skip after it. */
  function ShareOf(plain: Bytes, skip: nat, remain: nat): (c: Bytes)
    ensures |c| <= remain
  {
    var pt := if skip >= |plain| then [] else plain[skip..];
    if |pt| > remain then pt[..remain] else pt
  }

  function SkipAfter(plain: Bytes, skip: nat): nat {
    if skip >= |plain| then skip - |plain| else 0
  }

  lemma ShareIs(plain: Bytes, more: Bytes, skip: nat, remain: nat)
    ensures Clip(plain + more, skip, remain) ==
              ShareOf(plain, skip, remain) + Clip(more, SkipAfter(plain, skip), remain - |ShareOf(plain, skip, remain)|)
  {
  }

  lemma SharesAre(plain: Bytes, skip: nat, remain: nat)
    ensures forall more :: Clip(plain + more, skip, remain) ==
              ShareOf(plain, skip, remain) + Clip(more, SkipAfter(plain, skip), remain - |ShareOf(plain, skip, remain)|)
  {
    forall more ensures Clip(plain + more, skip, remain) ==
      ShareOf(plain, skip, remain) + Clip(more, SkipAfter(plain, skip), remain - |ShareOf(plain, skip, remain)|)
    {
      ShareIs(plain, more, skip, remain);
    }
  }

  lemma Assoc(a: Bytes, b: Bytes, c: Bytes)
    ensures a + (b + c) == a + b + c
  {
  }

  /** Encrypting a whole input, reading in pieces of any sizes. */
  method EncryptAll(g: Aead, prefix: Bytes, input: Bytes, sizes: nat -> nat) returns (stream: Bytes)
    requires forall i :: sizes(i) > 0
    ensures stream == Sealed(g, prefix, input, 0)
  {
    var e := new EncReader(g, prefix, input, false);
    stream := [];
    var i := 0;
    while true
      invariant e.Valid() && !e.broken && !e.failed && stream + e.Rest() == Sealed(g, prefix, input, 0)
      decreases |e.Rest()|
    {
      var data, err := e.Read(sizes(i));
      if !err.Fine? {
        return;
      }
      Assoc(stream, data, e.Rest());
      stream := stream + data;
      i := i + 1;
    }
  }

  lemma ClipFull(s: Bytes, skip: nat, len: nat)
    ensures |Clip(s, skip, len)| == len <==> len == 0 || skip + len <= |s|
  {
  }

  /** Reading a range of any stream, intact or not, in pieces of any sizes: out comes what the range takes of
      the chunks before the first that does not open. It ends well if and only if that is all the range
      asks for, or the stream itself ends there; otherwise with what was wrong. */
  method ReadRange(g: Aead, prefix: Bytes, stream: Bytes, broken: bool, firstChunk: nat, skip: nat, len: nat, sizes: nat -> nat)
    returns (data: Bytes, err: ReadErr, ghost n: nat, ghost end: End)
    requires firstChunk < COUNTERS && forall i :: sizes(i) > 0
    ensures OpensUpTo(g, prefix, stream, firstChunk, broken, n, end)
    ensures data == Clip(Plains(g, prefix, stream, firstChunk, n), skip, len)
    ensures err == if len == 0 || skip + len <= |Plains(g, prefix, stream, firstChunk, n)| || end.Clean? then Eof else Failed(end)
  {
    n := OpenedIs(g, prefix, stream, firstChunk, broken);
    end := Opened(g, prefix, stream, firstChunk, broken).1;
    ghost var wanted := Clip(Plains(g, prefix, stream, firstChunk, n), skip, len);
    ClipFull(Plains(g, prefix, stream, firstChunk, n), skip, len);
    data, err := ReadAll(g, prefix, stream, broken, firstChunk, skip, len, sizes, wanted, end);
  }

  /** The loop of a caller that reads on until it is told to stop. */
  method ReadAll(g: Aead, prefix: Bytes, stream: Bytes, broken: bool, firstChunk: nat, skip: nat, len: nat,
                 sizes: nat -> nat, ghost wanted: Bytes, ghost end: End)
    returns (data: Bytes, err: ReadErr)
    requires forall i :: sizes(i) > 0
    requires wanted == Clip(Opened(g, prefix, stream, firstChunk, broken).0, skip, len)
    requires end == Opened(g, prefix, stream, firstChunk, broken).1
    ensures data == wanted && err == if |data| == len || end.Clean? then Eof else Failed(end)
  {
    var d := new DecReader(g, prefix, stream, broken, firstChunk, skip, len);
    data := [];
    var i := 0;
    while true
      invariant d.Valid() && data + d.Rest() == wanted && d.Ahead().1 == end && |data| + d.remain == len
      decreases |d.Rest()|
    {
      var piece, e := d.Read(sizes(i));
      if !e.Fine? {
        return data, e;
      }
      Assoc(data, piece, d.Rest());
      data := data + piece;
      i := i + 1;
    }
  }

  /** Reading a range of an encrypted object: the slice that CipherRange names goes through the opening
      reader, in pieces of any sizes, and out come the plaintext bytes of the range. */
  method DecryptRange(g: Aead, prefix: Bytes, ghost plain: Bytes, stream: Bytes, off: nat, len: nat, sizes: nat -> nat)
    returns (data: Bytes, err: ReadErr)
    requires Sound(g) && off + len <= |plain| <= MAX_INT64 && stream == Sealed(g, prefix, plain, 0)
    requires forall i :: sizes(i) > 0
    ensures data == plain[off..off + len] && err.Eof?
  {
    RangeDecrypts(g, prefix, plain, off, len);
    var (co, cl) := CipherRange(off, len, |stream|);
    var (fc, _, intra) := CipherOffsetForPlain(off);
    data, err := ReadAll(g, prefix, stream[co..co + cl], false, fc, intra, len, sizes, plain[off..off + len], Clean);
  }
}
