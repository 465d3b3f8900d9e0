/** The hashed strings of include/neon/merkle.hpp and how they can be read back. */
module MerkleLines {
  import opened Strings
  import opened FileSystem
  import S = Sha256

  // ---------- Digests in hexadecimal ----------

  type Digest = d: seq<S.Byte> | |d| == 32 witness seq(32, _ => 0)
  type Hash = string -> Digest

  function HexDigit(n: int): (c: char)
    requires 0 <= n < 16
    ensures c != '\n' && c != '\t'
  {
    if n < 10 then '0' + n as char else 'a' + (n - 10) as char
  }

  function Hex(d: seq<S.Byte>): (s: string)
    ensures |s| == 2 * |d| && '\n' !in s
  {
    if d == [] then "" else [HexDigit(d[0] / 16), HexDigit(d[0] % 16)] + Hex(d[1..])
  }

  const NIBBLES := "0123456789abcdef"

  /** Two digits for every byte, the higher half first. */
  lemma {:induction false} HexAt(d: seq<S.Byte>, i: nat)
    requires i < |d|
    ensures Hex(d)[2 * i] == NIBBLES[d[i] / 16] && Hex(d)[2 * i + 1] == NIBBLES[d[i] % 16]
  {
    if i == 0 {
      NibbleIs(d[0] / 16);
      NibbleIs(d[0] % 16);
    } else {
      HexAt(d[1..], i - 1);
      assert Hex(d)[2..] == Hex(d[1..]);
      assert Hex(d)[2 * i] == Hex(d)[2..][2 * (i - 1)] && Hex(d)[2 * i + 1] == Hex(d)[2..][2 * (i - 1) + 1];
    }
  }

  lemma NibbleIs(n: int)
    requires 0 <= n < 16
    ensures HexDigit(n) == NIBBLES[n]
  {
  }

  lemma {:induction false} HexInjective(a: seq<S.Byte>, b: seq<S.Byte>)
    requires Hex(a) == Hex(b)
    ensures a == b
  {
    if a == [] {
    } else {
      assert Hex(a)[0] == Hex(b)[0] && Hex(a)[1] == Hex(b)[1];
      assert Hex(a)[2..] == Hex(a[1..]) && Hex(b)[2..] == Hex(b[1..]);
      HexInjective(a[1..], b[1..]);
      assert a[0] == b[0];
    }
  }

  // ---------- What is hashed ----------

  const NUL := "\0"

  function Blob(content: string): string { "blob " + Decimal(|content|) + NUL + content }

  ghost function Line(name: string, e: Entry, hash: string): string {
    name + "\t" + (if e.Dir? then "dir" else "file") + "\t" + hash + "\n"
  }

  function Flat(lines: seq<string>): string { if lines == [] then "" else lines[0] + Flat(lines[1..]) }

  ghost function TreeText(lines: seq<string>): string { "tree " + Decimal(|lines|) + NUL + Flat(lines) }

  /** `std::sort` on lines that are all different. */
  function Sorted(lines: seq<string>): seq<string> { InOrder(set l | l in lines) }

  // ---------- Unique reading ----------

  /** A prefix of five letters, a numeral, a NUL: what follows is determined. */
  lemma AfterNul(tag: string, m: nat, a: string, n: nat, b: string)
    requires tag + Decimal(m) + NUL + a == tag + Decimal(n) + NUL + b
    ensures m == n && a == b
  {
    var s, t := Decimal(m) + NUL + a, Decimal(n) + NUL + b;
    assert s == (tag + Decimal(m) + NUL + a)[|tag|..];
    assert t == (tag + Decimal(n) + NUL + b)[|tag|..];
    FindAfter(Decimal(m), '\0', a);
    FindAfter(Decimal(n), '\0', b);
    assert s[..|Decimal(m)|] == Decimal(m) && t[..|Decimal(n)|] == Decimal(n);
    assert s[|Decimal(m)| + 1..] == a && t[|Decimal(n)| + 1..] == b;
    DecimalInjective(m, n);
  }

  // ---------- Lines within lines ----------

  /** Everything in a line but the name. */
  ghost function Ending(dir: bool, d: Digest): string {
    "\t" + (if dir then "dir" else "file") + "\t" + Hex(d) + "\n"
  }

  /** Some name with a type and a digest behind it. */
  ghost predicate Ended(l: string) { exists n, dir, d :: l == n + Ending(dir, d) }

  /** No proper front part of the line is a line itself. */
  ghost predicate Whole(l: string) { forall i | 0 < i < |l| :: !Ended(l[..i]) }

  ghost predicate AllEnded(ls: seq<string>) { forall l | l in ls :: Ended(l) }

  ghost predicate AllWhole(ls: seq<string>) { forall l | l in ls :: Whole(l) }

  lemma EndedShape(l: string)
    requires Ended(l)
    ensures |l| >= 70 && l[|l| - 1] == '\n' && '\n' in l && '\t' in l
  {
    var n, dir, d :| l == n + Ending(dir, d);
    assert l[|n|] == '\t';
  }

  /** Before the end of a line, a newline can only be in the name. */
  lemma BreakInName(n: string, dir: bool, d: Digest, i: nat)
    requires var l := n + Ending(dir, d); 0 < i < |l| && l[i - 1] == '\n'
    ensures i <= |n|
  {
    var l, e := n + Ending(dir, d), Ending(dir, d);
    forall j | |n| <= j < |l| - 1 ensures l[j] != '\n' {
      assert l[j] == e[..|e| - 1][j - |n|];
    }
  }

  /** A line that goes on behind another one ends with what is left of it. */
  lemma RestEnded(l: string, i: nat)
    requires 0 < i < |l| && Ended(l) && Ended(l[..i])
    ensures Ended(l[i..])
  {
    var n, dir, d :| l == n + Ending(dir, d);
    EndedShape(l[..i]);
    BreakInName(n, dir, d, i);
    assert l[i..] == n[i..] + Ending(dir, d);
  }

  lemma LongerEnded(x: string, l: string)
    requires Ended(l)
    ensures Ended(x + l)
  {
    var n, dir, d :| l == n + Ending(dir, d);
    assert x + l == (x + n) + Ending(dir, d);
  }

  /**
   Whole lines cannot be read as more lines, and as the same number only in one way. Nothing is asked
   of the other side but that its lines are lines.
   */
  lemma {:induction false} FlatInjective(a: seq<string>, b: seq<string>)
    requires AllEnded(a) && AllWhole(a) && AllEnded(b) && Flat(a) == Flat(b)
    ensures |b| <= |a| && (|b| == |a| ==> a == b)
    decreases |a|
  {
    assert a != [] ==> a[0] in a && |a[0]| >= 70 by { if a != [] { EndedShape(a[0]); } }
    assert b != [] ==> b[0] in b && |b[0]| >= 70 by { if b != [] { EndedShape(b[0]); } }
    if a == [] || b == [] {
    } else {
      var x, y, s, u := a[0], b[0], Flat(a[1..]), Flat(b[1..]);
      assert x == Flat(a)[..|x|] && s == Flat(a)[|x|..];
      assert y == Flat(a)[..|y|] && u == Flat(a)[|y|..];
      if |y| < |x| {
        assert y == x[..|y|];
      } else if |y| == |x| {
        FlatInjective(a[1..], b[1..]);
        assert a == [x] + a[1..] && b == [y] + b[1..];
      } else {
        assert x == y[..|x|];
        RestEnded(y, |x|);
        var c := [y[|x|..]] + b[1..];
        assert c[1..] == b[1..];
        assert s == y[|x|..] + u;
        FlatInjective(a[1..], c);
      }
    }
  }

  lemma {:induction false} FlatConcat(a: seq<string>, b: seq<string>)
    ensures Flat(a + b) == Flat(a) + Flat(b)
  {
    if a == [] {
      assert a + b == b;
    } else {
      assert (a + b)[1..] == a[1..] + b;
      FlatConcat(a[1..], b);
    }
  }

  lemma FlatPair(x: string, y: string)
    ensures Flat([x, y]) == x + y
  {
    assert [x, y][1..] == [y] && [y][1..] == [];
    assert Flat([y]) == y;
  }

  /** Two neighbouring lines read as two others, within a longer list. */
  lemma Reread(front: seq<string>, x: string, y: string, v: string, w: string, back: seq<string>)
    requires x + y == v + w
    ensures Flat(front + [x, y] + back) == Flat(front + [v, w] + back)
  {
    FlatPair(x, y);
    FlatPair(v, w);
    FlatConcat(front, [x, y]);
    FlatConcat(front, [v, w]);
    FlatConcat(front + [x, y], back);
    FlatConcat(front + [v, w], back);
  }

  /** A line that is two lines in one, cut there, with its front joined to the line before. */
  lemma JoinedBefore(a: seq<string>, k: nat, i: nat) returns (b: seq<string>)
    requires AllEnded(a) && 0 < k < |a| && 0 < i < |a[k]| && Ended(a[k][..i])
    ensures AllEnded(b) && |b| == |a| && Flat(b) == Flat(a) && b != a
  {
    var x, l := a[k - 1], a[k];
    assert l in a && x in a;
    RestEnded(l, i);
    LongerEnded(x, l[..i]);
    b := a[..k - 1] + [x + l[..i], l[i..]] + a[k + 1..];
    assert a == a[..k - 1] + [x, l] + a[k + 1..];
    assert x + l == x + l[..i] + l[i..];
    Reread(a[..k - 1], x, l, x + l[..i], l[i..], a[k + 1..]);
    assert b[k - 1] == x + l[..i];
  }

  /** The same for the first line, with its rest joined to the line behind. */
  lemma JoinedBehind(a: seq<string>, i: nat) returns (b: seq<string>)
    requires AllEnded(a) && |a| >= 2 && 0 < i < |a[0]| && Ended(a[0][..i])
    ensures AllEnded(b) && |b| == |a| && Flat(b) == Flat(a) && b != a
  {
    var l, y := a[0], a[1];
    assert l in a && y in a;
    LongerEnded(l[i..], y);
    b := [] + [l[..i], l[i..] + y] + a[2..];
    assert a == [] + [l, y] + a[2..];
    assert l + y == l[..i] + (l[i..] + y);
    Reread([], l, y, l[..i], l[i..] + y, a[2..]);
    assert b[0] == l[..i];
  }

  lemma OtherReading(a: seq<string>, k: nat) returns (b: seq<string>)
    requires AllEnded(a) && |a| >= 2 && k < |a| && !Whole(a[k])
    ensures AllEnded(b) && |b| == |a| && Flat(b) == Flat(a) && b != a
  {
    var i :| 0 < i < |a[k]| && Ended(a[k][..i]);
    if k > 0 {
      b := JoinedBefore(a, k, i);
    } else {
      b := JoinedBehind(a, i);
    }
  }

  /** A list of lines is the only one of its length with that concatenation. */
  ghost predicate OnlyReading(a: seq<string>) {
    forall b | AllEnded(b) && |b| == |a| && Flat(b) == Flat(a) :: b == a
  }

  /** That is so exactly when there are fewer than two lines or no line has another one in front inside it. */
  lemma OnlyReadingExactly(a: seq<string>)
    requires AllEnded(a)
    ensures OnlyReading(a) <==> |a| < 2 || AllWhole(a)
  {
    if |a| < 2 {
      forall b | AllEnded(b) && |b| == |a| && Flat(b) == Flat(a) ensures b == a {
        if |a| == 1 {
          assert a[1..] == [] && b[1..] == [];
          assert a == [a[0]] && b == [b[0]];
          assert Flat(a) == a[0] && Flat(b) == b[0];
        }
      }
    } else if AllWhole(a) {
      forall b | AllEnded(b) && |b| == |a| && Flat(b) == Flat(a) ensures b == a { FlatInjective(a, b); }
    } else {
      var l :| l in a && !Whole(l);
      var k :| 0 <= k < |a| && a[k] == l;
      var b := OtherReading(a, k);
    }
  }

  // ---------- Names and lines ----------

  /** Some front part of the name reads as a line. */
  ghost predicate Embeds(name: string) { exists i :: 0 <= i <= |name| && Ended(name[..i]) }

  /** A line has another one in front inside it exactly when its name has. */
  lemma WholeExactly(n: string, dir: bool, d: Digest)
    ensures Ended(n + Ending(dir, d)) && (Whole(n + Ending(dir, d)) <==> !Embeds(n))
  {
    var l := n + Ending(dir, d);
    forall i | 0 < i < |l| && Ended(l[..i]) ensures Embeds(n) {
      EndedShape(l[..i]);
      BreakInName(n, dir, d, i);
      assert Ended(n[..i]);
    }
    forall i | 0 <= i <= |n| && Ended(n[..i]) ensures !Whole(l) {
      EndedShape(n[..i]);
      assert Ended(l[..i]);
    }
  }

  lemma LineIs(n: string, e: Entry, d: Digest)
    ensures Line(n, e, Hex(d)) == n + Ending(e.Dir?, d)
  {
  }

  /** Names without newlines embed nothing, and neither do names without tabs. */
  lemma PlainNamesEmbedNothing(n: string)
    requires '\n' !in n || '\t' !in n
    ensures !Embeds(n)
  {
    forall i | 0 <= i <= |n| ensures !Ended(n[..i]) {
      if Ended(n[..i]) { EndedShape(n[..i]); }
    }
  }

  /** A line is read from its end: a digest of known length, then the type, then the name. */
  lemma LineInjective(n: string, e: Entry, x: string, m: string, f: Entry, y: string)
    requires |x| == |y| == 64 && Line(n, e, x) == Line(m, f, y)
    ensures n == m && e.Dir? == f.Dir? && x == y
  {
    var s := Line(n, e, x);
    var i := |s| - 65;
    assert s[i..|s| - 1] == x && s[i..|s| - 1] == y;
    assert s[i - 2] == if e.Dir? then 'r' else 'e';
    assert s[i - 2] == if f.Dir? then 'r' else 'e';
    var t := if e.Dir? then "dir" else "file";
    assert s[..i] == n + "\t" + t + "\t" && s[..i] == m + "\t" + t + "\t";
    assert n == s[..i][..i - |t| - 2] && m == s[..i][..i - |t| - 2];
  }
}
