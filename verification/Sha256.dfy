/** Buffering and padding of include/neon/crypto.hpp; the block function is a parameter. */
module Sha256 {

  type Byte = x: int | 0 <= x < 256
  type Word = x: int | 0 <= x < 0x1_0000_0000

  /** The eight words of the hash state. */
  type State = s: seq<Word> | |s| == 8 witness [0, 0, 0, 0, 0, 0, 0, 0]

  /** The block function; it is only ever given 64 bytes. */
  type Transform = (State, seq<Byte>) -> State

  const INITIAL: State :=
    [0x6a09e667, 0xbb67ae85, 0x3c6ef372, 0xa54ff53a, 0x510e527f, 0x9b05688c, 0x1f83d9ab, 0x5be0cd19]

  const BITS_LIMIT := 0x1_0000_0000_0000_0000

  // ---------- What a message means ----------

  /** The block function folded over the full blocks of a message. */
  ghost function Absorb(f: Transform, s: State, m: seq<Byte>): State
    decreases |m|
  {
    if |m| < 64 then s else Absorb(f, f(s, m[..64]), m[64..])
  }

  /** What is left after the full blocks. */
  ghost function Tail(m: seq<Byte>): seq<Byte>
    decreases |m|
  {
    if |m| < 64 then m else Tail(m[64..])
  }

  lemma {:induction false} TailLength(m: seq<Byte>)
    ensures |Tail(m)| < 64 && |Tail(m)| <= |m| && |Tail(m)| == |m| % 64
    decreases |m|
  {
    if |m| < 64 {
    } else {
      TailLength(m[64..]);
    }
  }

  /** More bytes than fit into the pending block do not come in one copy. */
  lemma {:induction false} AbsorbMore(f: Transform, s: State, m: seq<Byte>, chunk: seq<Byte>)
    requires |Tail(m)| + |chunk| <= 64
    ensures |Tail(m)| + |chunk| < 64 ==>
              Absorb(f, s, m + chunk) == Absorb(f, s, m) && Tail(m + chunk) == Tail(m) + chunk
    ensures |Tail(m)| + |chunk| == 64 ==>
              Absorb(f, s, m + chunk) == f(Absorb(f, s, m), Tail(m) + chunk) && Tail(m + chunk) == []
    decreases |m|
  {
    if |m| >= 64 {
      assert (m + chunk)[..64] == m[..64] && (m + chunk)[64..] == m[64..] + chunk;
      AbsorbMore(f, f(s, m[..64]), m[64..], chunk);
    } else if |m + chunk| == 64 {
      assert (m + chunk)[..64] == m + chunk && (m + chunk)[64..] == [];
    }
  }

  /** Cutting a message in two: what is pending after the first part is all the second part needs. */
  lemma {:induction false} CutAnywhere(f: Transform, s: State, a: seq<Byte>, b: seq<Byte>)
    ensures Absorb(f, s, a + b) == Absorb(f, Absorb(f, s, a), Tail(a) + b)
    ensures Tail(a + b) == Tail(Tail(a) + b)
    decreases |a|
  {
    if |a| < 64 {
    } else {
      assert (a + b)[..64] == a[..64] && (a + b)[64..] == a[64..] + b;
      CutAnywhere(f, f(s, a[..64]), a[64..], b);
    }
  }

  ghost function Concat(chunks: seq<seq<Byte>>): seq<Byte> {
    if chunks == [] then [] else Concat(chunks[..|chunks| - 1]) + chunks[|chunks| - 1]
  }

  lemma BitsAdd(n: nat, k: nat)
    ensures (8 * n % BITS_LIMIT + k * 8) % BITS_LIMIT == 8 * (n + k) % BITS_LIMIT
  {
    var q := 8 * n / BITS_LIMIT;
    assert 8 * (n + k) == BITS_LIMIT * q + (8 * n % BITS_LIMIT + k * 8);
  }

  // ---------- Padding ----------

  ghost function Zeros(n: nat): (z: seq<Byte>)
    ensures |z| == n
  {
    seq(n, i => 0)
  }

  ghost function PadLength(n: nat): (p: nat)
    ensures 0 < p <= 64 && (n + p) % 64 == 56
  {
    if n % 64 < 56 then 56 - n % 64 else 120 - n % 64
  }

  ghost function Pad(n: nat): seq<Byte> { [0x80] + Zeros(PadLength(n) - 1) }

  function Pow256(k: nat): (p: nat)
    ensures p > 0
  {
    if k == 0 then 1 else 256 * Pow256(k - 1)
  }

  /** A number in `k` bytes, highest first; what does not fit is cut off. */
  ghost function BigEndian(n: nat, k: nat): (b: seq<Byte>)
    ensures |b| == k
  {
    seq(k, i requires 0 <= i < k => n / Pow256(k - 1 - i) % 256)
  }

  /** The eight bytes after the padding. The bit count is read after the padding went through the buffer. */
  ghost function Trailer(n: nat): seq<Byte> { BigEndian(8 * (n + PadLength(n)) % BITS_LIMIT, 8) }

  /** The whole of what is hashed for a message. */
  ghost function Padded(m: seq<Byte>): seq<Byte> { m + Pad(|m|) + Trailer(|m|) }

  /** A 64-byte buffer of zeros behind one marking byte. */
  method PadBytes() returns (pad: seq<Byte>)
    ensures pad == [0x80] + Zeros(63)
  {
    var a := new Byte[64](i => 0);
    a[0] := 0x80;
    return a[..];
  }

  /** Padding and trailer fill the last block. */
  lemma PaddedEnds(m: seq<Byte>)
    ensures |Padded(m)| % 64 == 0 && Tail(Padded(m)) == []
  {
    TailLength(Padded(m));
  }

  /** A count in `k` bytes, written from the last to the first. */
  method LengthBytes(n: nat, k: nat) returns (lenb: seq<Byte>)
    ensures lenb == BigEndian(n, k)
  {
    var a := new Byte[k](i => 0);
    for i := 0 to k
      invariant forall j | k - i <= j < k :: a[j] == n / Pow256(k - 1 - j) % 256
    {
      a[k - 1 - i] := n / Pow256(i) % 256;
    }
    return a[..];
  }

  // ---------- The hasher ----------

  class Hasher {
    const transform: Transform
    var bitlen: nat
    var state: State
    const buf: array<Byte>
    var buflen: nat
    /** Everything that went into `Update` so far. */
    ghost var message: seq<Byte>

    /** State, buffer and bit count are a function of the bytes alone, however they were cut into calls. */
    ghost predicate Valid()
      reads this, buf
    {
      Absorbed() && bitlen == 8 * |message| % BITS_LIMIT
    }

    ghost predicate Absorbed()
      reads this, buf
    {
      && buf.Length == 64
      && buflen < 64
      && state == Absorb(transform, INITIAL, message)
      && buf[..buflen] == Tail(message)
    }

    constructor (transform: Transform)
      ensures Valid() && message == [] && this.transform == transform && fresh(buf)
    {
      this.transform := transform;
      bitlen := 0;
      state := INITIAL;
      buf := new Byte[64](i => 0);
      buflen := 0;
      message := [];
    }

    method Update(data: seq<Byte>)
      requires Valid()
      modifies this, buf
      ensures Valid() && message == old(message) + data
    {
      BitsAdd(|message|, |data|);
      bitlen := (bitlen + |data| * 8) % BITS_LIMIT;
      var p, len := 0, |data|;
      assert old(message) + data[..0] == old(message);
      while len > 0
        invariant 0 <= p && 0 <= len && p + len == |data|
        invariant Absorbed() && message == old(message) + data[..p]
        invariant bitlen == 8 * |old(message) + data| % BITS_LIMIT
        decreases len
      {
        var t := 64 - buflen;
        if t > len { t := len; }
        Fill(data, p, t);
        assert old(message) + data[..p + t] == old(message) + data[..p] + data[p..p + t];
        p, len := p + t, len - t;
      }
      assert data[..p] == data;
    }

    /** Copies up to a full block and, when it is full, transforms it. */
    method Fill(data: seq<Byte>, p: nat, t: nat)
      requires Absorbed() && p + t <= |data| && buflen + t <= 64
      modifies `state, `buflen, `message, buf
      ensures Absorbed() && message == old(message) + data[p..p + t]
    {
      AbsorbMore(transform, INITIAL, message, data[p..p + t]);
      Copy(data, p, t);
      message := message + data[p..p + t];
      buflen := buflen + t;
      if buflen == 64 {
        assert buf[..] == buf[..buflen];
        state := transform(state, buf[..]);
        buflen := 0;
      }
    }

    /** `memcpy` of `t` bytes behind the pending ones. */
    method Copy(data: seq<Byte>, p: nat, t: nat)
      requires p + t <= |data| && buf.Length == 64 && buflen + t <= 64
      modifies buf
      ensures buf[..buflen + t] == old(buf[..buflen]) + data[p..p + t]
    {
      for i := 0 to t
        invariant buf[..buflen] == old(buf[..buflen])
        invariant buf[buflen..buflen + i] == data[p..p + i]
      {
        buf[buflen + i] := data[p + i];
      }
    }

    /** Appends padding and trailer and gives the state's words as bytes. */
    method Digest() returns (out: seq<Byte>)
      requires Valid()
      modifies this, buf
      ensures Valid() && message == Padded(old(message)) && buflen == 0
      ensures out == Bytes(Absorb(transform, INITIAL, Padded(old(message))))
    {
      ghost var m := message;
      AppendPad();
      AppendTrailer(m);
      out := Words();
    }

    method AppendPad()
      requires Valid()
      modifies this, buf
      ensures Valid() && message == old(message) + Pad(|old(message)|)
    {
      TailLength(message);
      var pad := PadBytes();
      var padlen := if buflen < 56 then 56 - buflen else 120 - buflen;
      Update(pad[..padlen]);
    }

    /** The count is read here, after the padding has been counted too. */
    method AppendTrailer(ghost m: seq<Byte>)
      requires Valid() && message == m + Pad(|m|)
      modifies this, buf
      ensures Valid() && message == Padded(m) && buflen == 0
    {
      var lenb := LengthBytes(bitlen, 8);
      Update(lenb);
      PaddedEnds(m);
    }

    method Words() returns (out: seq<Byte>)
      ensures out == Bytes(state)
    {
      out := [];
      for i := 0 to 8
        invariant out + Bytes(state[i..]) == Bytes(state)
      {
        var w := state[i];
        out := out + [w / 0x100_0000 % 256, w / 0x1_0000 % 256, w / 0x100 % 256, w % 256];
        WordBytes(w);
        assert state[i..][1..] == state[i + 1..];
      }
      assert out + [] == out;
    }
  }

  /** The digest of a message depends on the message alone, for every way of cutting it into updates. */
  method HashChunks(f: Transform, chunks: seq<seq<Byte>>) returns (out: seq<Byte>)
    ensures out == Bytes(Absorb(f, INITIAL, Padded(Concat(chunks))))
  {
    var h := new Hasher(f);
    for i := 0 to |chunks|
      invariant h.Valid() && h.transform == f && h.message == Concat(chunks[..i])
      invariant fresh(h) && fresh(h.buf)
    {
      h.Update(chunks[i]);
      assert chunks[..i + 1][..i] == chunks[..i];
    }
    assert chunks[..|chunks|] == chunks;
    out := h.Digest();
  }

  // ---------- The digest as bytes and as text ----------

  ghost function Bytes(ws: seq<Word>): seq<Byte> {
    if ws == [] then [] else BigEndian(ws[0], 4) + Bytes(ws[1..])
  }

  lemma {:induction false} BytesLength(ws: seq<Word>)
    ensures |Bytes(ws)| == 4 * |ws|
  {
    if ws == [] {
    } else {
      BytesLength(ws[1..]);
    }
  }

  /** The words in order, each with its highest byte first. */
  lemma {:induction false} BytesAt(ws: seq<Word>, i: nat, j: nat)
    requires i < |ws| && j < 4
    ensures |Bytes(ws)| == 4 * |ws|
    ensures Bytes(ws)[4 * i + j] == ws[i] / [0x100_0000, 0x1_0000, 0x100, 1][j] % 256
  {
    BytesLength(ws);
    if i == 0 {
      WordBytes(ws[0]);
    } else {
      BytesAt(ws[1..], i - 1, j);
      assert Bytes(ws)[4 * i + j] == Bytes(ws[1..])[4 * (i - 1) + j];
    }
  }

  lemma WordBytes(w: Word)
    ensures BigEndian(w, 4) == [w / 0x100_0000 % 256, w / 0x1_0000 % 256, w / 0x100 % 256, w % 256]
  {
    assert Pow256(0) == 1 && Pow256(1) == 256 && Pow256(2) == 0x1_0000 && Pow256(3) == 0x100_0000;
    assert w / 1 == w;
  }

  lemma Quotient(n: nat, d: nat, q: nat, r: nat)
    requires r < d && n == d * q + r
    ensures n / d == q
  {
    assert n / d * d <= n < (n / d + 1) * d;
    assert q * d <= n < (q + 1) * d;
    if n / d < q {
    } else if q < n / d {
    }
  }

  lemma DivTwice(n: nat, p: nat)
    requires p > 0
    ensures n / 256 / p == n / (256 * p)
  {
    var q, r := n / 256, n % 256;
    var u, v := q / p, q % p;
    assert q == p * u + v;
    assert n == (256 * p) * u + (256 * v + r);
    Quotient(n, 256 * p, u, 256 * v + r);
  }

  /** The bytes of a number without its last one are those of its quotient. */
  lemma BigEndianFront(n: nat, k: nat)
    requires k > 0
    ensures BigEndian(n, k)[..k - 1] == BigEndian(n / 256, k - 1)
  {
    forall i | 0 <= i < k - 1 ensures BigEndian(n, k)[i] == BigEndian(n / 256, k - 1)[i] {
      assert Pow256(k - 1 - i) == 256 * Pow256(k - 2 - i);
      DivTwice(n, Pow256(k - 2 - i));
    }
  }

  lemma BigEndianLast(n: nat, k: nat)
    requires k > 0
    ensures BigEndian(n, k)[k - 1] == n % 256
  {
    var zero := k - 1 - (k - 1);
    assert zero == 0 && Pow256(0) == 1;
    assert n / 1 == n;
  }

  lemma {:induction false} BigEndianInjective(n: nat, m: nat, k: nat)
    requires n < Pow256(k) && m < Pow256(k) && BigEndian(n, k) == BigEndian(m, k)
    ensures n == m
  {
    if k == 0 {
    } else {
      BigEndianFront(n, k);
      BigEndianFront(m, k);
      BigEndianInjective(n / 256, m / 256, k - 1);
      BigEndianLast(n, k);
      BigEndianLast(m, k);
    }
  }

  /** The state can be read back from the digest. */
  lemma {:induction false} BytesInjective(a: seq<Word>, b: seq<Word>)
    requires |a| == |b| && Bytes(a) == Bytes(b)
    ensures a == b
  {
    if a == [] {
    } else {
      var x, y := BigEndian(a[0], 4), BigEndian(b[0], 4);
      assert x == Bytes(a)[..4] && y == Bytes(b)[..4];
      assert Bytes(a[1..]) == Bytes(a)[4..] && Bytes(b[1..]) == Bytes(b)[4..];
      BigEndianInjective(a[0], b[0], 4);
      BytesInjective(a[1..], b[1..]);
    }
  }

  // ---------- Properties of the padding ----------

  /** Message, mark, zeros up to offset 56 of a block, trailer: the buffer ends empty. */
  lemma PaddedShape(m: seq<Byte>)
    ensures var p, n := Padded(m), |m|;
            && n + 9 <= |p| <= n + 72 && |p| % 64 == 0
            && Tail(p) == []
            && p[..n] == m && p[n] == 0x80 && (forall i | n < i < |p| - 8 :: p[i] == 0)
            && p[|p| - 8..] == Trailer(n)
  {
    var p, n := Padded(m), |m|;
    PaddedEnds(m);
    assert p[|p| - 8..] == Trailer(n);
  }

  /** A longer message has its mark where a shorter one has a zero. */
  lemma MarksDiffer(a: seq<Byte>, b: seq<Byte>)
    requires |a| < |b| && |Padded(a)| == |Padded(b)|
    ensures Padded(a) != Padded(b)
  {
    PaddedShape(a);
    PaddedShape(b);
    assert Padded(a)[|b|] == 0 && Padded(b)[|b|] == 0x80;
  }

  /** Different messages have different blocks. */
  lemma PaddedInjective(a: seq<Byte>, b: seq<Byte>)
    ensures Padded(a) == Padded(b) <==> a == b
  {
    if Padded(a) == Padded(b) {
      PaddedShape(a);
      PaddedShape(b);
      if |a| == |b| {
        assert a == Padded(a)[..|a|];
      } else if |a| < |b| {
        MarksDiffer(a, b);
      } else {
        MarksDiffer(b, a);
      }
    }
  }

  /** Below the wrap the trailer writes the bits of all the blocks but itself. */
  lemma TrailerBits(m: seq<Byte>)
    requires 8 * |Padded(m)| < BITS_LIMIT
    ensures Trailer(|m|) == BigEndian(8 * |Padded(m)| - 64, 8)
  {
    var x := 8 * (|m| + PadLength(|m|));
    assert x == 8 * |Padded(m)| - 64;
    assert x % BITS_LIMIT == x;
  }

  /** So it tells how many blocks there are. */
  lemma TrailerTellsLength(a: seq<Byte>, b: seq<Byte>)
    requires 8 * |Padded(a)| < BITS_LIMIT && 8 * |Padded(b)| < BITS_LIMIT && Trailer(|a|) == Trailer(|b|)
    ensures |Padded(a)| == |Padded(b)|
  {
    TrailerBits(a);
    TrailerBits(b);
    assert Pow256(8) == BITS_LIMIT;
    BigEndianInjective(8 * |Padded(a)| - 64, 8 * |Padded(b)| - 64, 8);
  }

  /** As long as the count does not wrap, the blocks of one message never end in all the blocks of a shorter one. */
  lemma PaddedSuffixFree(a: seq<Byte>, b: seq<Byte>)
    requires |Padded(a)| < |Padded(b)| && 8 * |Padded(b)| < BITS_LIMIT
    ensures Padded(b)[|Padded(b)| - |Padded(a)|..] != Padded(a)
  {
    PaddedShape(a);
    PaddedShape(b);
    if Trailer(|a|) == Trailer(|b|) {
      TrailerTellsLength(a, b);
    } else {
      var end := Padded(b)[|Padded(b)| - |Padded(a)|..];
      assert end[|end| - 8..] == Trailer(|b|);
    }
  }

  // ---------- A collision of digests is one of blocks ----------

  ghost predicate IsSuffix(x: seq<Byte>, y: seq<Byte>) { |x| <= |y| && y[|y| - |x|..] == x }

  /** The block at a position, and the state the blocks before it leave behind. */
  ghost function BlockAt(f: Transform, m: seq<Byte>, i: nat): (State, seq<Byte>)
    requires 64 * (i + 1) <= |m|
  {
    (Absorb(f, INITIAL, m[..64 * i]), m[64 * i..64 * (i + 1)])
  }

  /** At these positions the block function gets different arguments and returns the same state. */
  ghost predicate BlocksCollide(f: Transform, x: seq<Byte>, y: seq<Byte>, i: nat, j: nat) {
    && 64 * (i + 1) <= |x| && 64 * (j + 1) <= |y|
    && BlockAt(f, x, i) != BlockAt(f, y, j)
    && f(BlockAt(f, x, i).0, BlockAt(f, x, i).1) == f(BlockAt(f, y, j).0, BlockAt(f, y, j).1)
  }

  lemma LastBlock(f: Transform, x: seq<Byte>, n: nat)
    requires |x| == 64 * (n + 1)
    ensures Absorb(f, INITIAL, x) == f(BlockAt(f, x, n).0, BlockAt(f, x, n).1)
  {
    var front, last := x[..64 * n], x[64 * n..64 * (n + 1)];
    assert x == front + last;
    CutAnywhere(f, INITIAL, front, last);
    TailLength(front);
    assert Tail(front) + last == last && last[..64] == last && last[64..] == [];
  }

  lemma EarlierBlock(f: Transform, x: seq<Byte>, n: nat, i: nat)
    requires |x| == 64 * (n + 1) && i < n
    ensures BlockAt(f, x[..64 * n], i) == BlockAt(f, x, i)
  {
    assert x[..64 * n][..64 * i] == x[..64 * i];
    assert x[..64 * n][64 * i..64 * (i + 1)] == x[64 * i..64 * (i + 1)];
  }

  lemma SuffixGrows(x: seq<Byte>, y: seq<Byte>, last: seq<Byte>)
    requires IsSuffix(x, y)
    ensures IsSuffix(x + last, y + last)
  {
    assert (y + last)[|y| - |x|..] == y[|y| - |x|..] + last;
  }

  /** Going back from the ends, block by block: texts of which none ends in the other part somewhere. */
  lemma {:induction false} BlocksPart(f: Transform, x: seq<Byte>, y: seq<Byte>, n: nat, m: nat) returns (i: nat, j: nat)
    requires |x| == 64 * n && |y| == 64 * m && !IsSuffix(x, y) && !IsSuffix(y, x)
    requires Absorb(f, INITIAL, x) == Absorb(f, INITIAL, y)
    ensures BlocksCollide(f, x, y, i, j)
    decreases n
  {
    assert n > 0 && m > 0;
    i, j := n - 1, m - 1;
    LastBlock(f, x, i);
    LastBlock(f, y, j);
    if BlockAt(f, x, i) == BlockAt(f, y, j) {
      var a, b, last := x[..64 * i], y[..64 * j], x[64 * i..64 * n];
      assert x == a + last && y == b + last;
      if IsSuffix(a, b) { SuffixGrows(a, b, last); }
      if IsSuffix(b, a) { SuffixGrows(b, a, last); }
      var u, v := BlocksPart(f, a, b, i, j);
      EarlierBlock(f, x, i, u);
      EarlierBlock(f, y, j, v);
      i, j := u, v;
    }
  }

  lemma PaddedNoSuffix(a: seq<Byte>, b: seq<Byte>)
    requires a != b && (|Padded(a)| == |Padded(b)| || 8 * |Padded(b)| < BITS_LIMIT)
    ensures !IsSuffix(Padded(a), Padded(b))
  {
    if |Padded(a)| < |Padded(b)| {
      PaddedSuffixFree(a, b);
    } else if |Padded(a)| == |Padded(b)| {
      assert Padded(b)[0..] == Padded(b);
      PaddedInjective(a, b);
    }
  }

  /**
   Two different messages with the same digest, with as many blocks or both below the wrap of the bit
   count: somewhere in their blocks the block function itself collides.
   */
  lemma DigestsPart(f: Transform, a: seq<Byte>, b: seq<Byte>) returns (i: nat, j: nat)
    requires a != b
    requires |Padded(a)| == |Padded(b)| || (8 * |Padded(a)| < BITS_LIMIT && 8 * |Padded(b)| < BITS_LIMIT)
    requires Bytes(Absorb(f, INITIAL, Padded(a))) == Bytes(Absorb(f, INITIAL, Padded(b)))
    ensures BlocksCollide(f, Padded(a), Padded(b), i, j)
  {
    BytesInjective(Absorb(f, INITIAL, Padded(a)), Absorb(f, INITIAL, Padded(b)));
    PaddedNoSuffix(a, b);
    PaddedNoSuffix(b, a);
    PaddedEnds(a);
    PaddedEnds(b);
    i, j := BlocksPart(f, Padded(a), Padded(b), |Padded(a)| / 64, |Padded(b)| / 64);
  }

  // ---------- The standard's padding ----------

  /** Section 5.1.1 of FIPS 180-4, for messages of whole bytes: the trailer is the length of the message alone. */
  ghost function StandardPadded(m: seq<Byte>): seq<Byte> {
    m + Pad(|m|) + BigEndian(8 * |m| % BITS_LIMIT, 8)
  }

  /** The code's blocks agree with the standard's in all but the trailer, and there they differ for every message. */
  lemma NeverStandard(m: seq<Byte>)
    ensures |Padded(m)| == |StandardPadded(m)|
    ensures Padded(m)[..|Padded(m)| - 8] == StandardPadded(m)[..|Padded(m)| - 8]
    ensures Padded(m) != StandardPadded(m)
  {
    var n, p := |m|, PadLength(|m|);
    var x, y := 8 * (n + p) % BITS_LIMIT, 8 * n % BITS_LIMIT;
    var head := m + Pad(n);
    assert Padded(m)[..|head|] == head && StandardPadded(m)[..|head|] == head;
    assert Padded(m)[|head|..] == BigEndian(x, 8) && StandardPadded(m)[|head|..] == BigEndian(y, 8);
    BitsAdd(n, p);
    if BigEndian(x, 8) == BigEndian(y, 8) {
      BigEndianInjective(x, y, 8);
    }
  }
}
