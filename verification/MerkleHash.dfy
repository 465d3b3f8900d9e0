/** The loops and the recursion of include/neon/merkle.hpp, around the SHA-256 hasher. */
module MerkleHash {
  import opened Strings
  import opened Paths
  import opened FileSystem
  import opened Dump
  import opened MerkleLines
  import opened M = Merkle
  import opened VirtualFileSystem

  // ---------- The hash function of the code ----------

  /** The byte a character stands for. */
  function ByteOf(c: char): S.Byte { c as int % 256 }

  function BytesOf(s: string): seq<S.Byte> { seq(|s|, i requires 0 <= i < |s| => ByteOf(s[i])) }

  /** SHA-256 as the code computes it around a given block function. */
  ghost function Sha(f: S.Transform, s: string): Digest {
    S.BytesLength(S.Absorb(f, S.INITIAL, S.Padded(BytesOf(s))));
    S.Bytes(S.Absorb(f, S.INITIAL, S.Padded(BytesOf(s))))
  }

  ghost function ShaHash(f: S.Transform): Hash { s => Sha(f, s) }

  /** Two updates and a digest hash the concatenation. */
  method HashTwo(f: S.Transform, a: string, b: string) returns (r: string)
    ensures r == Hex(ShaHash(f)(a + b))
  {
    var hasher := new S.Hasher(f);
    hasher.Update(BytesOf(a));
    hasher.Update(BytesOf(b));
    var out := hasher.Digest();
    assert [] + BytesOf(a) + BytesOf(b) == BytesOf(a + b);
    r := Hex(out);
  }

  method HashOne(f: S.Transform, a: string) returns (r: string)
    ensures r == Hex(ShaHash(f)(a))
  {
    var hasher := new S.Hasher(f);
    hasher.Update(BytesOf(a));
    var out := hasher.Digest();
    assert [] + BytesOf(a) == BytesOf(a);
    r := Hex(out);
  }

  // ---------- The code ----------

  /** The path text of a child leads to the child. */
  lemma ChildText(path: string, name: string)
    requires Plain(name) && name != "." && name != ".."
    ensures Normal(path + "/" + name) == Normal(path) + [name]
    ensures path == "/" ==> Normal("/" + name) == Normal(path) + [name]
  {
    SplitConcat(path, name);
    SplitConcat("", name);
    ScanSegment(name);
    assert "" + "/" + name == "/" + name;
    assert Split("/") == [] && Split("") == [];
    assert [] + [name] == [name];
  }

  /** Prefix and content go into the hasher in two updates. */
  method BlobHash(f: S.Transform, content: string) returns (r: string)
    ensures r == Hex(ShaHash(f)(Blob(content)))
  {
    var prefix := "blob " + Decimal(|content|) + NUL;
    r := HashTwo(f, prefix, content);
  }

  method IsDir(v: Vfs, path: string) returns (isDir: bool)
    requires v.Valid()
    ensures isDir <==> Normal(path) in v.lay.fs && v.lay.fs[Normal(path)].Dir?
  {
    var ok, dir, size := v.Stat(path);
    isDir := ok && dir;
  }

  lemma Appended(lines: seq<string>, l: string, rest: seq<string>)
    ensures lines + [l] + rest == lines + ([l] + rest)
  {
  }

  /** One line per child, in the order of the listing. */
  method ChildLines(f: S.Transform, v: Vfs, path: string, names: seq<string>) returns (lines: seq<string>)
    requires v.Valid() && Normal(path) in v.lay.fs
    requires forall k | k in names :: Normal(path) + [k] in v.lay.fs
    ensures lines == Lines(ShaHash(f), v.lay.fs, Normal(path), names)
    decreases Below(v.lay.fs, Normal(path)), 1
  {
    lines := [];
    for i := 0 to |names|
      invariant lines + Lines(ShaHash(f), v.lay.fs, Normal(path), names[i..])
             == Lines(ShaHash(f), v.lay.fs, Normal(path), names)
    {
      assert names[i] in names;
      var line := NextLine(f, v, path, names[i]);
      Appended(lines, line, Lines(ShaHash(f), v.lay.fs, Normal(path), names[i + 1..]));
      lines := lines + [line];
    }
  }

  method NextLine(f: S.Transform, v: Vfs, path: string, name: string) returns (line: string)
    requires v.Valid() && Normal(path) in v.lay.fs && Normal(path) + [name] in v.lay.fs
    ensures line == ChildLine(ShaHash(f), v.lay.fs, Normal(path), name)
    decreases Below(v.lay.fs, Normal(path)), 0
  {
    ChildText(path, name);
    BelowShrinks(v.lay.fs, Normal(path), name);
    var child := if path == "/" then "/" + name else path + "/" + name;
    var hash := MerklePath(f, v, child);
    var dir := IsDir(v, child);
    var kind := if dir then "dir" else "file";
    line := name + "\t" + kind + "\t" + hash + "\n";
  }

  method Appending(head: string, lines: seq<string>) returns (acc: string)
    ensures acc == head + Flat(lines)
  {
    acc := head;
    for i := 0 to |lines|
      invariant acc + Flat(lines[i..]) == head + Flat(lines)
    {
      assert lines[i..][1..] == lines[i + 1..];
      acc := acc + lines[i];
    }
    assert acc + Flat(lines[|lines|..]) == acc;
  }

  /** A directory: the sorted lines of its children behind their number. */
  method DirHash(f: S.Transform, v: Vfs, path: string) returns (r: string)
    requires v.Valid() && Normal(path) in v.lay.fs && v.lay.fs[Normal(path)].Dir?
    ensures r == Merkle(ShaHash(f), v.lay.fs, Normal(path))
    decreases Below(v.lay.fs, Normal(path)), 2
  {
    var names := v.List(path);
    KeysOfChildren(v.lay.fs, Normal(path));
    var lines := ChildLines(f, v, path, names);
    SortedCount(ShaHash(f), v.lay.fs, Normal(path));
    var head := "tree " + Decimal(|lines|) + NUL;
    var acc := Appending(head, Sorted(lines));
    r := HashOne(f, acc);
  }

  /** Empty for a path that does not exist. */
  method MerklePath(f: S.Transform, v: Vfs, path: string) returns (r: string)
    requires v.Valid()
    ensures r == if Normal(path) in v.lay.fs then Merkle(ShaHash(f), v.lay.fs, Normal(path)) else ""
    decreases Below(v.lay.fs, Normal(path)), 3
  {
    var ok, isDir, size := v.Stat(path);
    if !ok { return ""; }
    if !isDir {
      var s := v.Read(path);
      if s.None? { return ""; }
      r := BlobHash(f, s.value);
      return;
    }
    r := DirHash(f, v, path);
  }

  method MerkleRoot(f: S.Transform, v: Vfs) returns (r: string)
    requires v.Valid()
    ensures r == Merkle(ShaHash(f), v.lay.fs, [])
  {
    assert Normal("/") == [];
    r := MerklePath(f, v, "/");
  }

  // ---------- What equal roots say ----------

  /** Every character stands for a byte. */
  ghost predicate InBytes(s: string) { forall c | c in s :: c as int < 256 }

  /** The same for the names and contents of a tree. */
  ghost predicate TreeInBytes(fs: FS) {
    forall p | p in fs :: InBytes(Last(p)) && (fs[p].File? ==> InBytes(fs[p].content))
  }

  lemma BytesOfInjective(s: string, t: string)
    requires InBytes(s) && InBytes(t) && BytesOf(s) == BytesOf(t)
    ensures s == t
  {
    assert |BytesOf(s)| == |BytesOf(t)|;
    forall i | 0 <= i < |s| ensures s[i] == t[i] {
      assert s[i] in s && t[i] in t && BytesOf(s)[i] == BytesOf(t)[i];
    }
  }

  lemma {:induction false} HexInBytes(d: seq<S.Byte>)
    ensures InBytes(Hex(d))
  {
    if d == [] {
    } else {
      HexInBytes(d[1..]);
    }
  }

  lemma {:induction false} FlatInBytes(lines: seq<string>)
    requires forall l | l in lines :: InBytes(l)
    ensures InBytes(Flat(lines))
  {
    if lines == [] {
    } else {
      assert lines[0] in lines;
      FlatInBytes(lines[1..]);
    }
  }

  lemma DecimalInBytes(n: nat)
    ensures InBytes(Decimal(n))
  {
    forall c | c in Decimal(n) ensures c as int < 256 { assert IsDigit(c); }
  }

  lemma JoinInBytes(a: string, b: string)
    requires InBytes(a) && InBytes(b)
    ensures InBytes(a + b)
  {
  }

  /** A short word, a numeral, a NUL and a text of bytes. */
  lemma HeadedInBytes(tag: string, n: nat, text: string)
    requires InBytes(tag) && InBytes(text)
    ensures InBytes(tag + Decimal(n) + NUL + text)
  {
    DecimalInBytes(n);
    JoinInBytes(tag, Decimal(n));
    JoinInBytes(tag + Decimal(n), NUL);
    JoinInBytes(tag + Decimal(n) + NUL, text);
  }

  lemma LineInBytes(name: string, e: Entry, d: Digest)
    requires InBytes(name)
    ensures InBytes(Line(name, e, Hex(d)))
  {
    HexInBytes(d);
    var kind := if e.Dir? then "dir" else "file";
    JoinInBytes(name, "\t");
    JoinInBytes(name + "\t", kind);
    JoinInBytes(name + "\t" + kind, "\t");
    JoinInBytes(name + "\t" + kind + "\t", Hex(d));
    JoinInBytes(name + "\t" + kind + "\t" + Hex(d), "\n");
  }

  lemma ChildInBytes(h: Hash, fs: FS, p: Path, l: string)
    requires TreeInBytes(fs) && p in fs && l in DirLines(h, fs, p)
    ensures InBytes(l)
  {
    SortedLines(h, fs, p, l);
    var k :| k in ChildKeys(fs, p) && p + [k] in fs && l == ChildLine(h, fs, p, k);
    assert Last(p + [k]) == k;
    LineInBytes(k, fs[p + [k]], h(Hashed(h, fs, p + [k])));
  }

  /** What is hashed for a node of such a tree consists of bytes again. */
  lemma HashedInBytes(h: Hash, fs: FS, p: Path)
    requires TreeInBytes(fs) && p in fs
    ensures InBytes(Hashed(h, fs, p))
  {
    if fs[p].File? {
      HeadedInBytes("blob ", |fs[p].content|, fs[p].content);
    } else {
      var lines := DirLines(h, fs, p);
      forall l | l in lines ensures InBytes(l) { ChildInBytes(h, fs, p, l); }
      FlatInBytes(lines);
      HeadedInBytes("tree ", |lines|, Flat(lines));
    }
  }

  /** The bytes that the block function is given for a string. */
  ghost function Blocks(s: string): seq<S.Byte> { S.Padded(BytesOf(s)) }

  /** As many blocks, or both below the wrap of the bit count. */
  ghost predicate Comparable(s: string, t: string) {
    |Blocks(s)| == |Blocks(t)| || (8 * |Blocks(s)| < S.BITS_LIMIT && 8 * |Blocks(t)| < S.BITS_LIMIT)
  }

  lemma HashesPart(f: S.Transform, s: string, t: string) returns (i: nat, j: nat)
    requires Collides(ShaHash(f), s, t) && InBytes(s) && InBytes(t) && Comparable(s, t)
    ensures S.BlocksCollide(f, Blocks(s), Blocks(t), i, j)
  {
    if BytesOf(s) == BytesOf(t) { BytesOfInjective(s, t); }
    i, j := S.DigestsPart(f, BytesOf(s), BytesOf(t));
  }

  /**
   Two file systems with equal roots hold the same tree, or at some path of both two different strings
   were hashed to the same digest, and then, somewhere in their blocks, the block function itself collides.
   */
  lemma EqualRoots(f: S.Transform, v: Vfs, w: Vfs) returns (r: Path, i: nat, j: nat)
    requires v.Valid() && w.Valid() && ReadOnce(v.lay.fs, [])
    requires Merkle(ShaHash(f), v.lay.fs, []) == Merkle(ShaHash(f), w.lay.fs, [])
    ensures SameTree(v.lay.fs, [], w.lay.fs, []) || CollidesAt(ShaHash(f), v.lay.fs, [], w.lay.fs, [], r)
    ensures !SameTree(v.lay.fs, [], w.lay.fs, []) && TreeInBytes(v.lay.fs) && TreeInBytes(w.lay.fs) ==>
              var s, t := Hashed(ShaHash(f), v.lay.fs, [] + r), Hashed(ShaHash(f), w.lay.fs, [] + r);
              Comparable(s, t) ==> S.BlocksCollide(f, Blocks(s), Blocks(t), i, j)
  {
    var h := ShaHash(f);
    r := Binding(h, v.lay.fs, [], w.lay.fs, []);
    i, j := 0, 0;
    if !SameTree(v.lay.fs, [], w.lay.fs, []) && TreeInBytes(v.lay.fs) && TreeInBytes(w.lay.fs) {
      var s, t := Hashed(h, v.lay.fs, [] + r), Hashed(h, w.lay.fs, [] + r);
      HashedInBytes(h, v.lay.fs, [] + r);
      HashedInBytes(h, w.lay.fs, [] + r);
      if Comparable(s, t) { i, j := HashesPart(f, s, t); }
    }
  }
}
