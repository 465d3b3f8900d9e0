/**
 Base64 of include/neon/base64.hpp, against section 4 of RFC 4648. Shifts by constants are written as
 products and quotients.
 */
module Base64 {
  import opened Strings

  type Byte = x: int | 0 <= x < 256
  type Sextet = x: int | 0 <= x < 64

  /** The table of letters, range by range. */
  function Letter(v: int): char
    requires 0 <= v < 64
  {
    if v < 26 then 'A' + v as char
    else if v < 52 then 'a' + (v - 26) as char
    else if v < 62 then '0' + (v - 52) as char
    else if v == 62 then '+'
    else '/'
  }

  /** The value of a letter, negative for any other character. */
  function Val(c: char): int {
    if 'A' <= c <= 'Z' then c as int - 'A' as int
    else if 'a' <= c <= 'z' then c as int - 'a' as int + 26
    else if '0' <= c <= '9' then c as int - '0' as int + 52
    else if c == '+' then 62
    else if c == '/' then 63
    else -1
  }

  /** Letters and values are each other's inverse; the padding is no letter. */
  lemma ValOfLetter(v: int, c: char)
    ensures 0 <= v < 64 ==> Val(Letter(v)) == v && Letter(v) != '='
    ensures Val(c) < 64 && (Val(c) >= 0 ==> Letter(Val(c)) == c)
  {
  }

  /** The alphabet of table 1 of RFC 4648. */
  lemma LetterIs(v: int)
    ensures 0 <= v < 26 ==> Letter(v) == CAPITALS[v] && Letter(v + 26) == SMALL[v]
    ensures 0 <= v < 10 ==> Letter(v + 52) == FIGURES[v]
    ensures Letter(62) == '+' && Letter(63) == '/'
  {
  }

  // ---------- Encoding ----------

  /** Three bytes in 24 bits. */
  function Triple(a: Byte, b: Byte, c: Byte): int { a * 0x1_0000 + b * 0x100 + c }

  /** Four groups of six bits that make up a 24-bit number. */
  ghost predicate Spells(v: seq<Sextet>, t: int) {
    |v| == 4 && t == ((v[0] as int * 64 + v[1]) * 64 + v[2]) * 64 + v[3]
  }

  /** What the encoder's shifts and masks compute. */
  lemma ShiftsSpell(t: int)
    requires 0 <= t < 0x100_0000
    ensures t / 0x4_0000 < 64
    ensures Spells([t / 0x4_0000, t / 0x1000 % 64, t / 64 % 64, t % 64], t)
  {
    assert t / 64 == t / 0x1000 * 64 + t / 64 % 64;
    assert t / 0x1000 == t / 0x4_0000 * 64 + t / 0x1000 % 64;
  }

  lemma LastSextet(a: int, x: Sextet, b: int, y: Sextet)
    requires a * 64 + x == b * 64 + y
    ensures a == b && x == y
  {
  }

  lemma SpellsOnce(v: seq<Sextet>, w: seq<Sextet>, t: int)
    requires Spells(v, t) && Spells(w, t)
    ensures v == w
  {
    LastSextet((v[0] as int * 64 + v[1]) * 64 + v[2], v[3], (w[0] as int * 64 + w[1]) * 64 + w[2], w[3]);
    LastSextet(v[0] as int * 64 + v[1], v[2], w[0] as int * 64 + w[1], w[2]);
    LastSextet(v[0], v[1], w[0], w[1]);
  }

  ghost function Values(a: Byte, b: Byte, c: Byte): (v: seq<Sextet>)
    ensures Spells(v, Triple(a, b, c))
  {
    ShiftsSpell(Triple(a, b, c));
    var v :| Spells(v, Triple(a, b, c));
    v
  }

  /** The letters of the four groups of six bits. */
  ghost function Quad(a: Byte, b: Byte, c: Byte): (q: string)
    ensures |q| == 4
  {
    var v := Values(a, b, c);
    [Letter(v[0]), Letter(v[1]), Letter(v[2]), Letter(v[3])]
  }

  /** A byte of the input, or the zero that stands in for a missing one. */
  function At(s: seq<Byte>, i: nat): Byte { if i < |s| then s[i] else 0 }

  /** The input three bytes at a time, the last group filled up with zeros. */
  ghost function Quads(s: seq<Byte>): seq<string>
    decreases |s|
  {
    if s == [] then [] else [Quad(At(s, 0), At(s, 1), At(s, 2))] + Quads(if |s| < 3 then [] else s[3..])
  }

  ghost function Flat(qs: seq<string>): string {
    if qs == [] then "" else qs[0] + Flat(qs[1..])
  }

  /** The last one or two letters made padding, by the number of bytes in the last group. */
  ghost function Padded(o: string, mod: int): string
    requires mod != 0 ==> |o| >= 2
  {
    if mod == 1 then o[|o| - 1 := '='][|o| - 2 := '='] else if mod == 2 then o[|o| - 1 := '='] else o
  }

  lemma {:induction false} QuadsLength(s: seq<Byte>)
    ensures |Quads(s)| == (|s| + 2) / 3
    ensures forall q | q in Quads(s) :: |q| == 4
    decreases |s|
  {
    if s == [] {
    } else {
      QuadsLength(if |s| < 3 then [] else s[3..]);
    }
  }

  lemma {:induction false} FlatLength(qs: seq<string>)
    requires forall q | q in qs :: |q| == 4
    ensures |Flat(qs)| == 4 * |qs|
  {
    if qs == [] {
    } else {
      FlatLength(qs[1..]);
      assert qs[0] in qs;
    }
  }

  lemma LettersLength(s: seq<Byte>)
    ensures |Flat(Quads(s))| == 4 * ((|s| + 2) / 3)
  {
    QuadsLength(s);
    FlatLength(Quads(s));
  }

  lemma SomeLetters(s: seq<Byte>)
    ensures s != [] ==> |Flat(Quads(s))| >= 4
  {
    LettersLength(s);
  }

  lemma LastGroup(n: int)
    ensures n % 3 == (n - 3) % 3
  {
  }

  ghost function Encoded(s: seq<Byte>): string {
    SomeLetters(s);
    Padded(Flat(Quads(s)), |s| % 3)
  }

  /** One turn of the encoder's loop. */
  lemma QuadsStep(s: seq<Byte>, i: nat, j: nat)
    requires i < |s| && j == if i + 3 <= |s| then i + 3 else |s|
    ensures Flat(Quads(s[i..])) == Quad(s[i], At(s, i + 1), At(s, i + 2)) + Flat(Quads(s[j..]))
  {
    var rest := s[i..];
    assert At(rest, 1) == At(s, i + 1) && At(rest, 2) == At(s, i + 2);
    assert s[j..] == if |rest| < 3 then [] else rest[3..];
    var q := Quad(s[i], At(s, i + 1), At(s, i + 2));
    assert ([q] + Quads(s[j..]))[1..] == Quads(s[j..]);
  }

  lemma Appended(o: string, q: string, rest: string)
    requires |q| == 4
    ensures o + [q[0]] + [q[1]] + [q[2]] + [q[3]] + rest == o + (q + rest)
  {
  }

  method Encode(s: seq<Byte>) returns (o: string)
    ensures o == Encoded(s)
  {
    o := "";
    var i := 0;
    while i < |s|
      invariant 0 <= i <= |s|
      invariant Flat(Quads(s)) == o + Flat(Quads(s[i..]))
    {
      ghost var from, before := i, o;
      var a := s[i];
      i := i + 1;
      var b := 0;
      if i < |s| { b := s[i]; i := i + 1; }
      var c := 0;
      if i < |s| { c := s[i]; i := i + 1; }
      var triple := Triple(a, b, c);
      ShiftsSpell(triple);
      SpellsOnce([triple / 0x4_0000, triple / 0x1000 % 64, triple / 64 % 64, triple % 64], Values(a, b, c), triple);
      o := o + [Letter(triple / 0x4_0000)];
      o := o + [Letter(triple / 0x1000 % 64)];
      o := o + [if i - 1 > |s| then '=' else Letter(triple / 64 % 64)];
      o := o + [if i > |s| then '=' else Letter(triple % 64)];
      QuadsStep(s, from, i);
      Appended(before, Quad(a, b, c), Flat(Quads(s[i..])));
    }
    SomeLetters(s);
    var mod := |s| % 3;
    if mod == 1 {
      o := o[|o| - 1 := '='];
      o := o[|o| - 2 := '='];
    } else if mod == 2 {
      o := o[|o| - 1 := '='];
    }
  }

  // ---------- Decoding ----------

  /** The values of the letters before the first `=`, everything else skipped. */
  ghost function Sextets(text: string): seq<Sextet> {
    if text == "" || text[0] == '=' then []
    else if Val(text[0]) < 0 then Sextets(text[1..])
    else [Val(text[0])] + Sextets(text[1..])
  }

  function Pow2(bits: int): int {
    if bits == 0 then 1 else if bits == 2 then 4 else if bits == 4 then 16 else 64
  }

  /** The decoder's accumulator, the number of its low bits not written yet, and what is written. */
  datatype Decoder = Decoder(buffer: nat, bits: int, out: seq<Byte>)

  const WORD := 0x1_0000_0000

  /** One letter, through the 32-bit accumulator of the code or through one that never overflows. */
  ghost function Feed(d: Decoder, v: Sextet, wraps: bool): Decoder {
    var shifted := d.buffer * 64 + v;
    var buffer := if wraps then shifted % WORD else shifted;
    var bits := d.bits + 6;
    if bits >= 8 then Decoder(buffer, bits - 8, d.out + [buffer / Pow2(bits - 8) % 256])
    else Decoder(buffer, bits, d.out)
  }

  ghost function FeedAll(d: Decoder, vs: seq<Sextet>, wraps: bool): Decoder
    decreases |vs|
  {
    if vs == [] then d else FeedAll(Feed(d, vs[0], wraps), vs[1..], wraps)
  }

  ghost function Decoded(text: string): seq<Byte> { FeedAll(Decoder(0, 0, []), Sextets(text), true).out }

  method Decode(text: string) returns (out: seq<Byte>)
    ensures out == Decoded(text)
  {
    out := [];
    var buffer, bits := 0, 0;
    var i := 0;
    while i < |text|
      invariant 0 <= i <= |text| && bits in {0, 2, 4, 6} && buffer >= 0
      invariant FeedAll(Decoder(buffer, bits, out), Sextets(text[i..]), true).out == Decoded(text)
    {
      var c := text[i];
      assert text[i..][0] == c && text[i..][1..] == text[i + 1..];
      i := i + 1;
      if c == '=' { break; }
      var v := Val(c);
      if v < 0 { continue; }
      assert ([v] + Sextets(text[i..]))[1..] == Sextets(text[i..]);
      buffer := (buffer * 64 + v) % WORD;
      bits := bits + 6;
      if bits >= 8 {
        bits := bits - 8;
        out := out + [buffer / Pow2(bits) % 256];
      }
    }
  }

  // ---------- The accumulator ----------

  /** Wrapping at 32 bits leaves the low bits alone. */
  lemma WrapLow2(b: int)
    requires 0 <= b
    ensures b % WORD % 4 == b % 4
  {
    var q, w := b / WORD, b % WORD;
    assert b == 4 * (0x4000_0000 * q + w / 4) + w % 4;
  }

  lemma WrapLow4(b: int)
    requires 0 <= b
    ensures b % WORD % 16 == b % 16
  {
    var q, w := b / WORD, b % WORD;
    assert b == 16 * (0x1000_0000 * q + w / 16) + w % 16;
  }

  lemma WrapLow6(b: int)
    requires 0 <= b
    ensures b % WORD % 64 == b % 64
  {
    var q, w := b / WORD, b % WORD;
    assert b == 64 * (0x400_0000 * q + w / 64) + w % 64;
  }

  lemma Wrap1(b: int)
    requires 0 <= b
    ensures b % WORD % 256 == b % 256
  {
    var q, w := b / WORD, b % WORD;
    assert b == 256 * (0x100_0000 * q + w / 256) + w % 256;
  }

  lemma Wrap4(b: int)
    requires 0 <= b
    ensures b % WORD / 4 % 256 == b / 4 % 256
  {
    var q, w := b / WORD, b % WORD;
    assert b / 4 == 0x4000_0000 * q + w / 4;
    assert b / 4 == 256 * (0x40_0000 * q + w / 4 / 256) + w / 4 % 256;
  }

  lemma Wrap16(b: int)
    requires 0 <= b
    ensures b % WORD / 16 % 256 == b / 16 % 256
  {
    var q, w := b / WORD, b % WORD;
    assert b / 16 == 0x1000_0000 * q + w / 16;
    assert b / 16 == 256 * (0x10_0000 * q + w / 16 / 256) + w / 16 % 256;
  }

  // What a shift by six does to the bits below: `low` are the bits not written yet.

  lemma ShiftSix(h: nat, low: nat, v: nat, b: nat)
    requires low < 64 && v < 64 && b == (64 * h + low) * 64 + v
    ensures b / 16 % 256 == low * 4 + v / 16 && b % 16 == v % 16
  {
    assert b / 16 == 256 * h + low * 4 + v / 16;
  }

  lemma ShiftFour(h: nat, low: nat, v: nat, b: nat)
    requires low < 16 && v < 64 && b == (16 * h + low) * 64 + v
    ensures b / 4 % 256 == low * 16 + v / 4 && b % 4 == v % 4
  {
    assert b / 4 == 256 * h + low * 16 + v / 4;
  }

  lemma ShiftTwo(h: nat, low: nat, v: nat, b: nat)
    requires low < 4 && v < 64 && b == (4 * h + low) * 64 + v
    ensures b % 256 == low * 64 + v
  {
    assert b == 256 * h + low * 64 + v;
  }

  lemma FeedWhenSix(d: Decoder, v: Sextet, wraps: bool)
    requires d.bits == 6
    ensures Feed(d, v, wraps).bits == 4 && Feed(d, v, wraps).buffer % 16 == v % 16
    ensures Feed(d, v, wraps).out == d.out + [d.buffer % 64 * 4 + v / 16]
  {
    var b := d.buffer * 64 + v;
    WrapLow4(b);
    ShiftSix(d.buffer / 64, d.buffer % 64, v, b);
    Wrap16(b);
  }

  lemma FeedWhenFour(d: Decoder, v: Sextet, wraps: bool)
    requires d.bits == 4
    ensures Feed(d, v, wraps).bits == 2 && Feed(d, v, wraps).buffer % 4 == v % 4
    ensures Feed(d, v, wraps).out == d.out + [d.buffer % 16 * 16 + v / 4]
  {
    var b := d.buffer * 64 + v;
    WrapLow2(b);
    ShiftFour(d.buffer / 16, d.buffer % 16, v, b);
    Wrap4(b);
  }

  lemma FeedWhenTwo(d: Decoder, v: Sextet, wraps: bool)
    requires d.bits == 2
    ensures Feed(d, v, wraps).bits == 0
    ensures Feed(d, v, wraps).out == d.out + [d.buffer % 4 * 64 + v]
  {
    var b := d.buffer * 64 + v;
    ShiftTwo(d.buffer / 4, d.buffer % 4, v, b);
    Wrap1(b);
  }

  lemma NewestSix(a: int, v: Sextet)
    requires 0 <= a
    ensures (a * 64 + v) % WORD % 64 == v && (a * 64 + v) % 64 == v
  {
    LastSextet(a, v, (a * 64 + v) / 64, (a * 64 + v) % 64);
    WrapLow6(a * 64 + v);
  }

  lemma FeedWhenNone(d: Decoder, v: Sextet, wraps: bool)
    requires d.bits == 0
    ensures Feed(d, v, wraps).bits == 6 && Feed(d, v, wraps).buffer % 64 == v && Feed(d, v, wraps).out == d.out
  {
    NewestSix(d.buffer, v);
  }

  /** The decoder after one more letter, by the bits that were not written yet. */
  ghost predicate Follows(e: Decoder, d: Decoder, v: Sextet) {
    if d.bits == 0 then e.bits == 6 && e.buffer % 64 == v && e.out == d.out
    else if d.bits == 2 then e.bits == 0 && e.out == d.out + [d.buffer % 4 * 64 + v]
    else if d.bits == 4 then e.bits == 2 && e.buffer % 4 == v % 4 && e.out == d.out + [d.buffer % 16 * 16 + v / 4]
    else e.bits == 4 && e.buffer % 16 == v % 16 && e.out == d.out + [d.buffer % 64 * 4 + v / 16]
  }

  /** The bits not written yet and the next six decide the next byte, whatever stands above them. */
  lemma FeedOne(d: Decoder, v: Sextet, wraps: bool)
    requires d.bits in {0, 2, 4, 6}
    ensures Follows(Feed(d, v, wraps), d, v)
  {
    if d.bits == 0 {
      FeedWhenNone(d, v, wraps);
    } else if d.bits == 2 {
      FeedWhenTwo(d, v, wraps);
    } else if d.bits == 4 {
      FeedWhenFour(d, v, wraps);
    } else {
      FeedWhenSix(d, v, wraps);
    }
  }

  /** The overflow of the 32-bit accumulator never shows: an unbounded one writes the same bytes. */
  lemma {:induction false} OverflowNeverShows(d: Decoder, w: Decoder, vs: seq<Sextet>)
    requires d.bits == w.bits && d.bits in {0, 2, 4, 6} && d.out == w.out
    requires d.buffer % Pow2(d.bits) == w.buffer % Pow2(d.bits)
    ensures FeedAll(d, vs, true).out == FeedAll(w, vs, false).out
    decreases |vs|
  {
    if vs == [] {
    } else {
      FeedOne(d, vs[0], true);
      FeedOne(w, vs[0], false);
      OverflowNeverShows(Feed(d, vs[0], true), Feed(w, vs[0], false), vs[1..]);
    }
  }

  // ---------- Round trip ----------

  /** The first byte is six bits and two, the second four and four, the third two and six. */
  ghost predicate Regrouped(v: seq<Sextet>, a: int, b: int, c: int)
    requires |v| == 4
  {
    var v0: int, v1: int, v2: int, v3: int := v[0], v[1], v[2], v[3];
    a == v0 * 4 + v1 / 16 && b == v1 % 16 * 16 + v2 / 4 && c == v2 % 4 * 64 + v3
  }

  /** The four values of a group give its bytes back. */
  lemma GroupBytes(a: Byte, b: Byte, c: Byte)
    ensures Regrouped(Values(a, b, c), a, b, c)
  {
    var v := Values(a, b, c);
    var v0: int, v1: int, v2: int, v3: int := v[0], v[1], v[2], v[3];
  }

  /** Four letters that start on a byte boundary make three bytes; the first two make one, the first three two. */
  lemma FeedQuad(d: Decoder, v: seq<Sextet>, a: Byte, b: Byte, c: Byte, n: nat)
    requires d.bits == 0 && |v| == 4 && Regrouped(v, a, b, c) && 1 <= n <= 3
    ensures var e := FeedAll(d, v[..n + 1], true);
            e.out == d.out + [a, b, c][..n] && (n == 3 ==> e.bits == 0)
  {
    FeedWhenNone(d, v[0], true);
    var d1 := Feed(d, v[0], true);
    FeedWhenSix(d1, v[1], true);
    var d2 := Feed(d1, v[1], true);
    FeedWhenFour(d2, v[2], true);
    var d3 := Feed(d2, v[2], true);
    FeedWhenTwo(d3, v[3], true);
    var w := v[..n + 1];
    assert FeedAll(d, w, true) == FeedAll(d1, w[1..], true) == FeedAll(d2, w[2..], true);
    if n > 1 {
      assert FeedAll(d2, w[2..], true) == FeedAll(d3, w[3..], true);
    }
    if n > 2 {
      assert FeedAll(d3, w[3..], true) == FeedAll(Feed(d3, v[3], true), w[4..], true);
    }
  }

  /** The letters before a `=` or the end of the text are read in order. */
  lemma {:induction false} SextetsOfLetters(v: seq<Sextet>, text: string, rest: string)
    requires |text| == |v| && forall i | 0 <= i < |v| :: text[i] == Letter(v[i])
    ensures Sextets(text + rest) == v + Sextets(rest)
  {
    if v == [] {
      assert text + rest == rest;
    } else {
      ValOfLetter(v[0], ' ');
      assert (text + rest)[1..] == text[1..] + rest;
      SextetsOfLetters(v[1..], text[1..], rest);
      assert v == [v[0]] + v[1..];
    }
  }

  lemma {:induction false} FeedAllConcat(d: Decoder, a: seq<Sextet>, b: seq<Sextet>, wraps: bool)
    ensures FeedAll(d, a + b, wraps) == FeedAll(FeedAll(d, a, wraps), b, wraps)
    decreases |a|
  {
    if a == [] {
      assert a + b == b;
    } else {
      assert (a + b)[1..] == a[1..] + b;
      FeedAllConcat(Feed(d, a[0], wraps), a[1..], b, wraps);
    }
  }

  /** A whole group encodes on its own. */
  lemma EncodedGroup(s: seq<Byte>)
    requires |s| >= 3
    ensures Encoded(s) == Quad(s[0], s[1], s[2]) + Encoded(s[3..])
  {
    QuadsStep(s, 0, 3);
    assert s[0..] == s;
    SomeLetters(s[3..]);
    LastGroup(|s|);
  }

  /** The last group of one or two bytes: two or three letters and the padding of section 4 of RFC 4648. */
  lemma EncodedTail(s: seq<Byte>)
    requires 0 < |s| < 3
    ensures Encoded(s) == Quad(s[0], At(s, 1), 0)[..|s| + 1] + (if |s| == 1 then "==" else "=")
  {
    QuadsStep(s, 0, |s|);
    assert s[0..] == s && s[|s|..] == [];
    assert Flat(Quads(s)) == Quad(s[0], At(s, 1), 0);
  }

  lemma DecodesGroup(d: Decoder, a: Byte, b: Byte, c: Byte, rest: string) returns (e: Decoder)
    requires d.bits == 0
    ensures e.bits == 0 && e.out == d.out + [a, b, c]
    ensures FeedAll(d, Sextets(Quad(a, b, c) + rest), true) == FeedAll(e, Sextets(rest), true)
  {
    var v := Values(a, b, c);
    GroupBytes(a, b, c);
    SextetsOfLetters(v, Quad(a, b, c), rest);
    FeedAllConcat(d, v, Sextets(rest), true);
    assert v[..4] == v && [a, b, c][..3] == [a, b, c];
    FeedQuad(d, v, a, b, c, 3);
    e := FeedAll(d, v, true);
  }

  lemma Glue(out: seq<Byte>, s: seq<Byte>)
    requires |s| >= 3
    ensures out + [s[0], s[1], s[2]] + s[3..] == out + s
  {
  }

  lemma DecodesTail(d: Decoder, s: seq<Byte>)
    requires d.bits == 0 && 0 < |s| < 3
    ensures FeedAll(d, Sextets(Encoded(s)), true).out == d.out + s
  {
    var b, n := At(s, 1), |s|;
    var v := Values(s[0], b, 0);
    EncodedTail(s);
    GroupBytes(s[0], b, 0);
    var pad := if n == 1 then "==" else "=";
    SextetsOfLetters(v[..n + 1], Quad(s[0], b, 0)[..n + 1], pad);
    assert v[..n + 1] + Sextets(pad) == v[..n + 1];
    FeedQuad(d, v, s[0], b, 0, n);
    assert [s[0], b, 0][..n] == s;
  }

  lemma {:induction false} DecodesFrom(d: Decoder, s: seq<Byte>)
    requires d.bits == 0
    ensures FeedAll(d, Sextets(Encoded(s)), true).out == d.out + s
    decreases |s|
  {
    if s == [] {
      assert Encoded(s) == "";
    } else if |s| < 3 {
      DecodesTail(d, s);
    } else {
      EncodedGroup(s);
      Glue(d.out, s);
      var e := DecodesGroup(d, s[0], s[1], s[2], Encoded(s[3..]));
      DecodesFrom(e, s[3..]);
    }
  }

  /** Decoding an encoding gives every byte string back. */
  lemma RoundTrip(s: seq<Byte>)
    ensures Decoded(Encoded(s)) == s
  {
    DecodesFrom(Decoder(0, 0, []), s);
  }

  /** So no two byte strings have the same encoding. */
  lemma EncodingInjective(a: seq<Byte>, b: seq<Byte>)
    requires Encoded(a) == Encoded(b)
    ensures a == b
  {
    RoundTrip(a);
    RoundTrip(b);
  }

  ghost predicate IsLetter(c: char) { c != '=' && Val(c) >= 0 }

  /** Four characters for every three bytes, rounded up. */
  lemma EncodedLength(s: seq<Byte>)
    ensures |Encoded(s)| == 4 * ((|s| + 2) / 3)
  {
    LettersLength(s);
  }

  /** The missing bytes of a last group of one or two. */
  ghost function Missing(n: nat): nat { if n < 3 then (if n == 0 then 0 else 3 - n) else Missing(n - 3) }

  /** As many padding characters at the end as bytes are missing, and letters of the alphabet before. */
  lemma {:induction false} EncodedShape(s: seq<Byte>)
    ensures Missing(|s|) <= |Encoded(s)|
    ensures forall i | 0 <= i < |Encoded(s)| - Missing(|s|) :: IsLetter(Encoded(s)[i])
    ensures forall i | |Encoded(s)| - Missing(|s|) <= i < |Encoded(s)| :: Encoded(s)[i] == '='
    decreases |s|
  {
    if 0 < |s| < 3 {
      EncodedTail(s);
      QuadShape(s[0], At(s, 1), 0);
    } else if |s| >= 3 {
      EncodedGroup(s);
      QuadShape(s[0], s[1], s[2]);
      EncodedShape(s[3..]);
    }
  }

  lemma QuadShape(a: Byte, b: Byte, c: Byte)
    ensures forall i | 0 <= i < 4 :: IsLetter(Quad(a, b, c)[i])
  {
    var v := Values(a, b, c);
    forall i | 0 <= i < 4 ensures Quad(a, b, c)[i] == Letter(v[i]) && Val(Letter(v[i])) == v[i] && Letter(v[i]) != '=' {
      ValOfLetter(v[i], ' ');
    }
  }

  /** Six bits of the input from bit 6 i on, zeros behind its end. */
  ghost function SixBits(s: seq<Byte>, i: nat): Sextet {
    var k := i / 4 * 3;
    if i % 4 == 0 then At(s, k) / 4
    else if i % 4 == 1 then At(s, k) % 4 * 16 + At(s, k + 1) / 16
    else if i % 4 == 2 then At(s, k + 1) % 16 * 4 + At(s, k + 2) / 64
    else At(s, k + 2) % 64
  }

  lemma QuadBits(a: Byte, b: Byte, c: Byte)
    ensures Quad(a, b, c)
            == [Letter(a / 4), Letter(a % 4 * 16 + b / 16), Letter(b % 16 * 4 + c / 64), Letter(c % 64)]
  {
    assert Spells([a / 4, a % 4 * 16 + b / 16, b % 16 * 4 + c / 64, c % 64], Triple(a, b, c));
    SpellsOnce(Values(a, b, c), [a / 4, a % 4 * 16 + b / 16, b % 16 * 4 + c / 64, c % 64], Triple(a, b, c));
  }

  lemma SixBitsLater(s: seq<Byte>, i: nat)
    requires |s| >= 3 && i >= 4
    ensures SixBits(s, i) == SixBits(s[3..], i - 4)
  {
    var k := (i - 4) / 4 * 3;
    assert i / 4 == (i - 4) / 4 + 1 && i % 4 == (i - 4) % 4;
    assert At(s, k + 3) == At(s[3..], k) && At(s, k + 4) == At(s[3..], k + 1) && At(s, k + 5) == At(s[3..], k + 2);
  }

  lemma ShortLetters(s: seq<Byte>, i: nat)
    requires 0 < |s| < 3 && i <= |s|
    ensures |Encoded(s)| == 4 && Encoded(s)[i] == Letter(SixBits(s, i))
  {
    EncodedTail(s);
    QuadBits(s[0], At(s, 1), 0);
    assert i / 4 * 3 == 0 && i % 4 == i;
  }

  lemma FirstLetters(s: seq<Byte>, i: nat)
    requires |s| >= 3 && i < 4
    ensures Quad(s[0], s[1], s[2])[i] == Letter(SixBits(s, i))
  {
    QuadBits(s[0], s[1], s[2]);
    assert i / 4 * 3 == 0 && i % 4 == i;
  }

  /** Each character before the padding is the letter of the next six bits of the input. */
  lemma {:induction false} EncodedLetters(s: seq<Byte>, i: nat)
    requires i < |Encoded(s)| - Missing(|s|)
    ensures Encoded(s)[i] == Letter(SixBits(s, i))
    decreases |s|
  {
    EncodedLength(s);
    if |s| < 3 {
      ShortLetters(s, i);
    } else {
      EncodedGroup(s);
      if i < 4 {
        FirstLetters(s, i);
      } else {
        EncodedLetters(s[3..], i - 4);
        SixBitsLater(s, i);
      }
    }
  }

  // ---------- What the decoder ignores ----------

  lemma {:induction false} SextetsConcat(a: string, b: string)
    ensures Sextets(a + b) == if '=' in a then Sextets(a) else Sextets(a) + Sextets(b)
  {
    if a == "" {
      assert a + b == b;
    } else {
      assert (a + b)[1..] == a[1..] + b;
      SextetsConcat(a[1..], b);
    }
  }

  /** Characters outside the alphabet do not matter, nor does anything from the first padding on. */
  lemma Ignored(a: string, c: char, b: string)
    ensures Val(c) < 0 && c != '=' ==> Decoded(a + [c] + b) == Decoded(a + b)
    ensures c == '=' ==> Decoded(a + [c] + b) == Decoded(a)
  {
    assert a + [c] + b == a + ([c] + b);
    SextetsConcat(a, [c] + b);
    SextetsConcat(a, b);
    assert ([c] + b)[1..] == b;
    assert Sextets(a) + [] == Sextets(a);
  }
}
