/** The Merkle tree hash of include/neon/merkle.hpp, over any hash function. */
module Merkle {
  import opened Strings
  import opened Paths
  import opened FileSystem
  import opened FileSystemLaws
  import opened Dump
  import opened MerkleLines

  // ---------- The hash of a tree ----------

  /** What `MerklePath` hashes for a node: a blob, or the sorted lines of its children. */
  ghost function Hashed(h: Hash, fs: FS, p: Path): string
    requires p in fs
    decreases Below(fs, p), 1, 0
  {
    if fs[p].File? then Blob(fs[p].content) else TreeText(Sorted(Lines(h, fs, p, InOrder(ChildKeys(fs, p)))))
  }

  ghost function Lines(h: Hash, fs: FS, p: Path, ks: seq<string>): seq<string>
    requires p in fs
    decreases Below(fs, p), 0, |ks|
  {
    if ks == [] then []
    else
      BelowShrinks(fs, p, ks[0]);
      var q := p + [ks[0]];
      (if q in fs then [Line(ks[0], fs[q], Hex(h(Hashed(h, fs, q))))] else []) + Lines(h, fs, p, ks[1..])
  }

  ghost function Merkle(h: Hash, fs: FS, p: Path): string
    requires p in fs
  {
    Hex(h(Hashed(h, fs, p)))
  }

  ghost function ChildLine(h: Hash, fs: FS, p: Path, k: string): string
    requires p + [k] in fs
  {
    Line(k, fs[p + [k]], Merkle(h, fs, p + [k]))
  }

  lemma {:induction false} LinesMembers(h: Hash, fs: FS, p: Path, ks: seq<string>, l: string)
    requires p in fs
    ensures l in Lines(h, fs, p, ks) <==> exists k :: k in ks && p + [k] in fs && l == ChildLine(h, fs, p, k)
    decreases |ks|
  {
    if ks == [] {
    } else {
      var k0, rest := ks[0], Lines(h, fs, p, ks[1..]);
      LinesMembers(h, fs, p, ks[1..], l);
      var first := if p + [k0] in fs then [ChildLine(h, fs, p, k0)] else [];
      assert Lines(h, fs, p, ks) == first + rest;
      if l in rest {
        var k :| k in ks[1..] && p + [k] in fs && l == ChildLine(h, fs, p, k);
        assert k in ks;
      }
      if exists k :: k in ks && p + [k] in fs && l == ChildLine(h, fs, p, k) {
        var k :| k in ks && p + [k] in fs && l == ChildLine(h, fs, p, k);
        if k != k0 { assert k in ks[1..]; }
      }
    }
  }

  /** The lines that are hashed for a directory are those of its children. */
  lemma SortedLines(h: Hash, fs: FS, p: Path, l: string)
    requires p in fs
    ensures l in Sorted(Lines(h, fs, p, InOrder(ChildKeys(fs, p))))
            <==> exists k :: k in ChildKeys(fs, p) && p + [k] in fs && l == ChildLine(h, fs, p, k)
  {
    var ks := InOrder(ChildKeys(fs, p));
    var lines := Lines(h, fs, p, ks);
    InOrderMembers(ChildKeys(fs, p));
    InOrderMembers(set x | x in lines);
    LinesMembers(h, fs, p, ks, l);
  }

  /** Children have different names, so their lines are all different and sorting keeps their number. */
  lemma {:induction false} LinesDiffer(h: Hash, fs: FS, p: Path, ks: seq<string>)
    requires p in fs && (forall k | k in ks :: p + [k] in fs)
    requires forall i, j | 0 <= i < j < |ks| :: ks[i] != ks[j]
    ensures |Lines(h, fs, p, ks)| == |ks|
    ensures |set l | l in Lines(h, fs, p, ks)| == |ks|
    decreases |ks|
  {
    if ks == [] {
    } else {
      var k, rest := ks[0], Lines(h, fs, p, ks[1..]);
      var line := ChildLine(h, fs, p, k);
      assert k in ks;
      assert forall i | 0 <= i < |ks[1..]| :: ks[1..][i] == ks[i + 1];
      LinesDiffer(h, fs, p, ks[1..]);
      LinesMembers(h, fs, p, ks[1..], line);
      if line in rest {
        var m :| m in ks[1..] && p + [m] in fs && line == ChildLine(h, fs, p, m);
        LineInjective(k, fs[p + [k]], Merkle(h, fs, p + [k]), m, fs[p + [m]], Merkle(h, fs, p + [m]));
      }
      assert Lines(h, fs, p, ks) == [line] + rest;
      assert (set l | l in [line] + rest) == {line} + set l | l in rest;
    }
  }

  lemma SortedCount(h: Hash, fs: FS, p: Path)
    requires p in fs
    ensures var lines := Lines(h, fs, p, InOrder(ChildKeys(fs, p))); |Sorted(lines)| == |lines|
  {
    var ks := InOrder(ChildKeys(fs, p));
    KeysOfChildren(fs, p);
    InOrderMembers(ChildKeys(fs, p));
    LinesDiffer(h, fs, p, ks);
    InOrderMembers(set l | l in Lines(h, fs, p, ks));
  }

  // ---------- Binding ----------

  /** Both absent, or both there with the same kind and content. */
  ghost predicate Alike(fs: FS, p: Path, gs: FS, q: Path) {
    && (p in fs <==> q in gs)
    && (p in fs && q in gs ==> fs[p].Unnamed() == gs[q].Unnamed())
  }

  /** The same tree below two paths: the same relative paths, with the same kinds and contents. */
  ghost predicate SameTree(fs: FS, p: Path, gs: FS, q: Path) {
    forall r {:trigger Alike(fs, p + r, gs, q + r)} :: Alike(fs, p + r, gs, q + r)
  }

  /** What the names of one directory must not do for its hashed string to have one reading. */
  ghost predicate DirReadOnce(fs: FS, p: Path) {
    |ChildKeys(fs, p)| < 2 || forall k | k in ChildKeys(fs, p) :: !Embeds(k)
  }

  /** The same for every directory of a tree. */
  ghost predicate ReadOnce(fs: FS, p: Path) {
    forall q {:trigger DirReadOnce(fs, q)} | q in fs && p <= q :: DirReadOnce(fs, q)
  }

  /** Names that are all free of newlines, or all free of tabs, are enough. */
  lemma PlainNamesReadOnce(fs: FS, p: Path)
    requires forall q | q in fs && p <= q && q != p :: '\n' !in Last(q) || '\t' !in Last(q)
    ensures ReadOnce(fs, p)
  {
    forall q | q in fs && p <= q ensures DirReadOnce(fs, q) {
      forall k | k in ChildKeys(fs, q) ensures !Embeds(k) {
        ChildKeysAre(fs, q, k);
        assert Last(q + [k]) == k && p <= q + [k] && q + [k] != p;
        PlainNamesEmbedNothing(k);
      }
    }
  }

  /** Roots alike and each child the same: the same tree. */
  lemma SameFromChildren(fs: FS, p: Path, gs: FS, q: Path)
    requires TreeShaped(fs) && TreeShaped(gs) && Alike(fs, p, gs, q)
    requires forall k | p + [k] in fs || q + [k] in gs :: SameTree(fs, p + [k], gs, q + [k])
    ensures SameTree(fs, p, gs, q)
  {
    forall r ensures Alike(fs, p + r, gs, q + r) {
      if r == [] {
        assert p + r == p && q + r == q;
      } else {
        var k, rest := r[0], r[1..];
        assert p + r == p + [k] + rest && q + r == q + [k] + rest;
        if p + r in fs { Ancestors(fs, p + [k], p + r); }
        if q + r in gs { Ancestors(gs, q + [k], q + r); }
        if p + [k] in fs || q + [k] in gs {
          assert SameTree(fs, p + [k], gs, q + [k]);
          assert Alike(fs, p + [k] + rest, gs, q + [k] + rest);
        }
      }
    }
  }

  lemma KeysOfChildren(fs: FS, p: Path)
    ensures forall k {:trigger p + [k]} :: k in InOrder(ChildKeys(fs, p)) <==> p + [k] in fs
  {
    InOrderMembers(ChildKeys(fs, p));
    forall k ensures k in ChildKeys(fs, p) <==> p + [k] in fs { ChildKeysAre(fs, p, k); }
  }

  lemma FileStandsAlone(fs: FS, p: Path)
    requires TreeShaped(fs) && p in fs && fs[p].File?
    ensures forall k :: p + [k] !in fs
  {
    forall k ensures p + [k] !in fs { ChildPath(p, k); }
  }

  lemma SameFromKeys(fs: FS, p: Path, gs: FS, q: Path, ks: seq<string>)
    requires TreeShaped(fs) && TreeShaped(gs) && Alike(fs, p, gs, q)
    requires forall k {:trigger p + [k]} {:trigger q + [k]} :: p + [k] in fs <==> q + [k] in gs
    requires forall k {:trigger p + [k]} :: k in ks <==> p + [k] in fs
    requires forall k | k in ks :: SameTree(fs, p + [k], gs, q + [k])
    ensures SameTree(fs, p, gs, q)
  {
    forall k | p + [k] in fs || q + [k] in gs ensures SameTree(fs, p + [k], gs, q + [k]) {
      assert k in ks;
    }
    SameFromChildren(fs, p, gs, q);
  }

  lemma SameBelow(fs: FS, p: Path, gs: FS, q: Path, r: Path)
    requires SameTree(fs, p, gs, q)
    ensures SameTree(fs, p + r, gs, q + r)
  {
    forall t ensures Alike(fs, p + r + t, gs, q + r + t) {
      assert p + r + t == p + (r + t) && q + r + t == q + (r + t);
      assert Alike(fs, p + (r + t), gs, q + (r + t));
    }
  }

  /** Two different strings with the same digest. */
  ghost predicate Collides(h: Hash, s: string, t: string) { s != t && h(s) == h(t) }

  /** The lines hashed for a directory, in order. */
  ghost function DirLines(h: Hash, fs: FS, p: Path): seq<string>
    requires p in fs
  {
    Sorted(Lines(h, fs, p, InOrder(ChildKeys(fs, p))))
  }

  /** One child: name, type and hash, with tabs between them and a newline behind. */
  ghost function LineOf(h: Hash, fs: FS, p: Path, k: string): string
    requires p + [k] in fs
  {
    k + "\t" + (if fs[p + [k]].Dir? then "dir" else "file") + "\t" + Merkle(h, fs, p + [k]) + "\n"
  }

  lemma LinesAre(h: Hash, fs: FS, p: Path, l: string)
    requires p in fs
    ensures l in DirLines(h, fs, p) <==> exists k :: p + [k] in fs && l == LineOf(h, fs, p, k)
  {
    SortedLines(h, fs, p, l);
    if k :| p + [k] in fs && l == LineOf(h, fs, p, k) {
      ChildKeysAre(fs, p, k);
      assert l == ChildLine(h, fs, p, k);
    }
    if k :| k in ChildKeys(fs, p) && p + [k] in fs && l == ChildLine(h, fs, p, k) {
      assert l == LineOf(h, fs, p, k);
    }
  }

  lemma Ascending(lines: seq<string>)
    ensures Distinct(Sorted(lines))
    ensures forall i, j | 0 <= i < j < |Sorted(lines)| :: LexLeq(Sorted(lines)[i], Sorted(lines)[j])
  {
    InOrderMembers(set l | l in lines);
    InOrderSorted(set l | l in lines);
  }

  /**
   What is hashed, byte for byte: a file behind its length; a directory behind the number of its lines,
   which are those of its children in ascending order, each with name, type and hash.
   */
  lemma HashedText(h: Hash, fs: FS, p: Path) returns (lines: seq<string>)
    requires p in fs
    ensures fs[p].File? ==> Hashed(h, fs, p) == "blob " + Decimal(|fs[p].content|) + "\0" + fs[p].content
    ensures fs[p].Dir? ==> Hashed(h, fs, p) == "tree " + Decimal(|lines|) + "\0" + Flat(lines)
    ensures Distinct(lines) && forall i, j | 0 <= i < j < |lines| :: LexLeq(lines[i], lines[j])
    ensures forall l :: l in lines <==> exists k :: p + [k] in fs && l == LineOf(h, fs, p, k)
  {
    lines := DirLines(h, fs, p);
    Ascending(Lines(h, fs, p, InOrder(ChildKeys(fs, p))));
    forall l ensures l in lines <==> exists k :: p + [k] in fs && l == LineOf(h, fs, p, k) { LinesAre(h, fs, p, l); }
  }

  lemma ChildLineIs(h: Hash, fs: FS, p: Path, l: string) returns (k: string)
    requires p in fs && l in DirLines(h, fs, p)
    ensures k in ChildKeys(fs, p) && Ended(l) && (Whole(l) <==> !Embeds(k))
  {
    SortedLines(h, fs, p, l);
    k :| k in ChildKeys(fs, p) && p + [k] in fs && l == ChildLine(h, fs, p, k);
    LineIs(k, fs[p + [k]], h(Hashed(h, fs, p + [k])));
    WholeExactly(k, fs[p + [k]].Dir?, h(Hashed(h, fs, p + [k])));
  }

  lemma DirLinesEnded(h: Hash, fs: FS, p: Path)
    requires p in fs
    ensures AllEnded(DirLines(h, fs, p)) && |DirLines(h, fs, p)| == |ChildKeys(fs, p)|
    ensures DirReadOnce(fs, p) ==> OnlyReading(DirLines(h, fs, p))
  {
    var a := DirLines(h, fs, p);
    forall l | l in a ensures Ended(l) && (DirReadOnce(fs, p) && |ChildKeys(fs, p)| >= 2 ==> Whole(l)) {
      var k := ChildLineIs(h, fs, p, l);
    }
    SortedCount(h, fs, p);
    InOrderMembers(ChildKeys(fs, p));
    KeysOfChildren(fs, p);
    LinesDiffer(h, fs, p, InOrder(ChildKeys(fs, p)));
    OnlyReadingExactly(a);
  }

  /** A child of one directory is, by its line, a child of the other: same name, same type, same hash. */
  lemma ChildFound(h: Hash, fs: FS, p: Path, gs: FS, q: Path, k: string)
    requires p in fs && q in gs && fs[p].Dir? && gs[q].Dir?
    requires DirLines(h, fs, p) == DirLines(h, gs, q)
    requires p + [k] in fs
    ensures q + [k] in gs && Merkle(h, fs, p + [k]) == Merkle(h, gs, q + [k])
  {
    var l := ChildLine(h, fs, p, k);
    ChildKeysAre(fs, p, k);
    SortedLines(h, fs, p, l);
    SortedLines(h, gs, q, l);
    var m :| m in ChildKeys(gs, q) && q + [m] in gs && l == ChildLine(h, gs, q, m);
    LineInjective(k, fs[p + [k]], Merkle(h, fs, p + [k]), m, gs[q + [m]], Merkle(h, gs, q + [m]));
  }

  /** Equal hashed strings: the same file, or directories whose children have the same names and hashes. */
  lemma SameText(h: Hash, fs: FS, p: Path, gs: FS, q: Path)
    requires p in fs && q in gs && DirReadOnce(fs, p)
    requires Hashed(h, fs, p) == Hashed(h, gs, q)
    ensures fs[p].Unnamed() == gs[q].Unnamed()
    ensures fs[p].Dir? ==> forall k {:trigger p + [k]} {:trigger q + [k]} ::
              (p + [k] in fs <==> q + [k] in gs)
              && (p + [k] in fs && q + [k] in gs ==> Merkle(h, fs, p + [k]) == Merkle(h, gs, q + [k]))
  {
    assert Hashed(h, fs, p)[0] == if fs[p].File? then 'b' else 't';
    assert Hashed(h, gs, q)[0] == if gs[q].File? then 'b' else 't';
    if fs[p].File? {
      AfterNul("blob ", |fs[p].content|, fs[p].content, |gs[q].content|, gs[q].content);
    } else {
      var a, b := DirLines(h, fs, p), DirLines(h, gs, q);
      AfterNul("tree ", |a|, Flat(a), |b|, Flat(b));
      DirLinesEnded(h, fs, p);
      DirLinesEnded(h, gs, q);
      assert a == b;
      forall k ensures (p + [k] in fs <==> q + [k] in gs)
                       && (p + [k] in fs && q + [k] in gs ==> Merkle(h, fs, p + [k]) == Merkle(h, gs, q + [k]))
      {
        if p + [k] in fs { ChildFound(h, fs, p, gs, q, k); }
        if q + [k] in gs { ChildFound(h, gs, q, fs, p, k); }
      }
    }
  }

  /** At the same relative path of both trees, two different strings are hashed to the same digest. */
  ghost predicate CollidesAt(h: Hash, fs: FS, p: Path, gs: FS, q: Path, r: Path) {
    p + r in fs && q + r in gs && Collides(h, Hashed(h, fs, p + r), Hashed(h, gs, q + r))
  }

  lemma CollidesBelow(h: Hash, fs: FS, p: Path, gs: FS, q: Path, k: string, r: Path)
    requires CollidesAt(h, fs, p + [k], gs, q + [k], r)
    ensures CollidesAt(h, fs, p, gs, q, [k] + r)
  {
    assert p + [k] + r == p + ([k] + r) && q + [k] + r == q + ([k] + r);
  }

  /**
   Equal Merkle hashes: the same tree, or a place in both where two different strings were hashed to the
   same digest. Only the names of one of the trees matter; the other one may be any tree at all.
   */
  lemma {:induction false} Binding(h: Hash, fs: FS, p: Path, gs: FS, q: Path) returns (r: Path)
    requires TreeShaped(fs) && TreeShaped(gs) && ReadOnce(fs, p)
    requires p in fs && q in gs && Merkle(h, fs, p) == Merkle(h, gs, q)
    ensures SameTree(fs, p, gs, q) || CollidesAt(h, fs, p, gs, q, r)
    decreases Below(fs, p), 1, 0
  {
    r := [];
    assert p + [] == p && q + [] == q;
    HexInjective(h(Hashed(h, fs, p)), h(Hashed(h, gs, q)));
    if Hashed(h, fs, p) == Hashed(h, gs, q) {
      assert DirReadOnce(fs, p);
      SameText(h, fs, p, gs, q);
      var ks := InOrder(ChildKeys(fs, p));
      KeysOfChildren(fs, p);
      if fs[p].Dir? {
        r := BindingChildren(h, fs, p, gs, q, ks);
        if !CollidesAt(h, fs, p, gs, q, r) { SameFromKeys(fs, p, gs, q, ks); }
      } else {
        FileStandsAlone(fs, p);
        FileStandsAlone(gs, q);
        SameFromChildren(fs, p, gs, q);
      }
    }
  }

  lemma {:induction false} BindingChildren(h: Hash, fs: FS, p: Path, gs: FS, q: Path, ks: seq<string>)
    returns (r: Path)
    requires TreeShaped(fs) && TreeShaped(gs) && ReadOnce(fs, p)
    requires p in fs && q in gs
    requires forall k | k in ks :: p + [k] in fs && q + [k] in gs && Merkle(h, fs, p + [k]) == Merkle(h, gs, q + [k])
    ensures (forall k | k in ks :: SameTree(fs, p + [k], gs, q + [k])) || CollidesAt(h, fs, p, gs, q, r)
    decreases Below(fs, p), 0, |ks|
  {
    if ks == [] {
      r := [];
    } else {
      var k := ks[0];
      assert k in ks;
      BelowShrinks(fs, p, k);
      r := Binding(h, fs, p + [k], gs, q + [k]);
      if CollidesAt(h, fs, p + [k], gs, q + [k], r) {
        CollidesBelow(h, fs, p, gs, q, k, r);
        r := [k] + r;
      } else {
        r := BindingChildren(h, fs, p, gs, q, ks[1..]);
      }
    }
  }

  lemma {:induction false} SameLines(h: Hash, fs: FS, p: Path, gs: FS, q: Path, ks: seq<string>)
    requires TreeShaped(fs) && TreeShaped(gs) && p in fs && q in gs && SameTree(fs, p, gs, q)
    ensures Lines(h, fs, p, ks) == Lines(h, gs, q, ks)
    decreases Below(fs, p), 0, |ks|
  {
    if ks == [] {
    } else {
      var k := ks[0];
      BelowShrinks(fs, p, k);
      BelowShrinks(gs, q, k);
      assert Alike(fs, p + [k], gs, q + [k]);
      if p + [k] in fs {
        SameBelow(fs, p, gs, q, [k]);
        SameTreeSameHash(h, fs, p + [k], gs, q + [k]);
      }
      SameLines(h, fs, p, gs, q, ks[1..]);
    }
  }

  /** The same tree has the same hash, whatever its nodes' names and wherever it stands. */
  lemma {:induction false} SameTreeSameHash(h: Hash, fs: FS, p: Path, gs: FS, q: Path)
    requires TreeShaped(fs) && TreeShaped(gs) && p in fs && q in gs && SameTree(fs, p, gs, q)
    ensures Hashed(h, fs, p) == Hashed(h, gs, q) && Merkle(h, fs, p) == Merkle(h, gs, q)
    decreases Below(fs, p), 1, 0
  {
    assert p + [] == p && q + [] == q && Alike(fs, p + [], gs, q + []);
    forall k ensures k in ChildKeys(fs, p) <==> k in ChildKeys(gs, q) {
      ChildKeysAre(fs, p, k);
      ChildKeysAre(gs, q, k);
      assert Alike(fs, p + [k], gs, q + [k]);
    }
    assert ChildKeys(fs, p) == ChildKeys(gs, q);
    SameLines(h, fs, p, gs, q, InOrder(ChildKeys(fs, p)));
  }

  /** Trees with equal hashes are the same exactly when no two different strings collide at a common place. */
  lemma BindingExactly(h: Hash, fs: FS, p: Path, gs: FS, q: Path)
    requires TreeShaped(fs) && TreeShaped(gs) && ReadOnce(fs, p)
    requires p in fs && q in gs && Merkle(h, fs, p) == Merkle(h, gs, q)
    ensures SameTree(fs, p, gs, q) <==> forall r :: !CollidesAt(h, fs, p, gs, q, r)
  {
    var at := Binding(h, fs, p, gs, q);
    if SameTree(fs, p, gs, q) {
      forall r ensures !CollidesAt(h, fs, p, gs, q, r) {
        SameBelow(fs, p, gs, q, r);
        if p + r in fs && q + r in gs { SameTreeSameHash(h, fs, p + r, gs, q + r); }
      }
    }
  }

  // ---------- What embedded lines can do ----------

  lemma TwoInOrder(a: string, b: string)
    requires a != "" && b != "" && a[0] < b[0]
    ensures InOrder({a, b}) == [a, b]
  {
    InOrderMembers({a, b});
    InOrderSorted({a, b});
    var o := InOrder({a, b});
    assert |o| == 2 && o[0] in o && o[1] in o && o[0] != o[1];
    assert !LexLeq(b, a);
  }

  /** A directory with two empty files. */
  ghost predicate TwoFiles(fs: FS, a: string, b: string) {
    && fs.Keys == {[], [a], [b]} && a != b
    && fs[[]] == Dir("/") && fs[[a]] == File(a, "") && fs[[b]] == File(b, "")
  }

  lemma TwoFilesExist(a: string, b: string) returns (fs: FS)
    requires a != b
    ensures TwoFiles(fs, a, b)
  {
    fs := map[[] := Dir("/"), [a] := File(a, ""), [b] := File(b, "")];
  }

  ghost predicate Name(a: string) { Plain(a) && a != "." && a != ".." }

  lemma TwoFilesShape(fs: FS, a: string, b: string)
    requires TwoFiles(fs, a, b) && Name(a) && Name(b)
    ensures TreeShaped(fs)
  {
    forall p | p in fs ensures Canonical(p) && Parent(p) == [] {
      assert p == [] || p == [a] || p == [b];
    }
  }

  lemma TwoFilesChildren(fs: FS, a: string, b: string)
    requires TwoFiles(fs, a, b)
    ensures ChildKeys(fs, []) == {a, b}
    ensures [] + [a] in fs && [] + [b] in fs && fs[[] + [a]] == File(a, "") && fs[[] + [b]] == File(b, "")
  {
    assert [] + [a] == [a] && [] + [b] == [b];
    forall k ensures k in ChildKeys(fs, []) <==> k in {a, b} {
      ChildKeysAre(fs, [], k);
      assert [] + [k] == [k];
      if [k] in fs { assert [k][0] == k && [a][0] == a && [b][0] == b; }
    }
  }

  lemma SortedPair(lines: seq<string>, la: string, lb: string)
    requires la != "" && lb != "" && la[0] < lb[0]
    requires forall l :: l in lines <==> l == la || l == lb
    ensures Sorted(lines) == [la, lb]
  {
    assert (set l | l in lines) == {la, lb};
    TwoInOrder(la, lb);
  }

  lemma TwoLines(h: Hash, fs: FS, p: Path, ks: seq<string>, a: string, b: string, l: string)
    requires p in fs && p + [a] in fs && p + [b] in fs && forall k :: k in ks <==> k == a || k == b
    ensures l in Lines(h, fs, p, ks) <==> l == ChildLine(h, fs, p, a) || l == ChildLine(h, fs, p, b)
  {
    LinesMembers(h, fs, p, ks, l);
    assert a in ks && b in ks;
  }

  lemma EmptyFileLine(h: Hash, fs: FS, p: Path, k: string)
    requires p + [k] in fs && fs[p + [k]] == File(k, "")
    ensures ChildLine(h, fs, p, k) == Line(k, File("", ""), Hex(h(Blob(""))))
  {
  }

  lemma TwoFilesLine(h: Hash, fs: FS, a: string, b: string, la: string, lb: string, l: string)
    requires TwoFiles(fs, a, b)
    requires la == Line(a, File("", ""), Hex(h(Blob("")))) && lb == Line(b, File("", ""), Hex(h(Blob(""))))
    ensures l in Lines(h, fs, [], InOrder(ChildKeys(fs, []))) <==> l == la || l == lb
  {
    TwoFilesChildren(fs, a, b);
    InOrderMembers(ChildKeys(fs, []));
    EmptyFileLine(h, fs, [], a);
    EmptyFileLine(h, fs, [], b);
    TwoLines(h, fs, [], InOrder(ChildKeys(fs, [])), a, b, l);
  }

  /** The lines hashed for it, in order. */
  lemma TwoFilesLines(h: Hash, fs: FS, a: string, b: string, la: string, lb: string)
    requires TwoFiles(fs, a, b) && Name(a) && Name(b) && a[0] < b[0]
    requires la == Line(a, File("", ""), Hex(h(Blob("")))) && lb == Line(b, File("", ""), Hex(h(Blob(""))))
    ensures DirLines(h, fs, []) == [la, lb]
  {
    var lines := Lines(h, fs, [], InOrder(ChildKeys(fs, [])));
    forall l ensures l in lines <==> l == la || l == lb { TwoFilesLine(h, fs, a, b, la, lb, l); }
    assert la[0] == a[0] && lb[0] == b[0];
    SortedPair(lines, la, lb);
  }

  lemma TwoFilesHashed(h: Hash, fs: FS, a: string, b: string, la: string, lb: string)
    requires TwoFiles(fs, a, b) && Name(a) && Name(b) && a[0] < b[0]
    requires la == Line(a, File("", ""), Hex(h(Blob("")))) && lb == Line(b, File("", ""), Hex(h(Blob(""))))
    ensures Hashed(h, fs, []) == "tree " + Decimal(2) + NUL + (la + lb)
  {
    TwoFilesLines(h, fs, a, b, la, lb);
    FlatPair(la, lb);
  }

  lemma NotReadOnceAt(fs: FS, p: Path, k: string)
    requires p in fs && |ChildKeys(fs, p)| >= 2 && k in ChildKeys(fs, p) && Embeds(k)
    ensures !ReadOnce(fs, p)
  {
    assert !DirReadOnce(fs, p);
  }

  lemma NotReadOnce(fs: FS, a: string, b: string)
    requires TwoFiles(fs, a, b) && (Embeds(a) || Embeds(b))
    ensures !ReadOnce(fs, [])
  {
    TwoFilesChildren(fs, a, b);
    assert |{a, b}| == 2;
    NotReadOnceAt(fs, [], if Embeds(a) then a else b);
  }

  /** Two names that stand for a file and the start of the next line. */
  ghost function Spliced(a: string, b: string, x: string): string { a + "\tfile\t" + x + "\n" + b }

  /** The spliced name reads as a line in front. */
  lemma SplicedEmbeds(a: string, b: string, d: Digest)
    ensures Embeds(Spliced(a, b, Hex(d)))
  {
    var l := a + Ending(false, d);
    var n := Spliced(a, b, Hex(d));
    assert n == l + b;
    assert n[..|l|] == l;
  }

  lemma LineText(n: string, x: string)
    ensures Line(n, File("", ""), x) == n + ("\tfile\t" + x + "\n")
  {
  }

  lemma SplicedLines(a: string, b: string, c: string, x: string)
    ensures var e := File("", "");
            Line(a, e, x) + Line(Spliced(b, c, x), e, x) == Line(Spliced(a, b, x), e, x) + Line(c, e, x)
  {
    var tail := "\tfile\t" + x + "\n";
    LineText(a, x);
    LineText(c, x);
    LineText(Spliced(b, c, x), x);
    LineText(Spliced(a, b, x), x);
    assert Spliced(b, c, x) == b + tail + c && Spliced(a, b, x) == a + tail + b;
    assert (a + tail) + (b + tail + c + tail) == (a + tail + b + tail) + (c + tail);
  }

  lemma SplicedHashed(h: Hash, a: string, b: string, c: string, x: string, fs: FS, gs: FS)
    requires Name(a) && Name(b) && Name(c) && a[0] < b[0] < c[0] && x == Hex(h(Blob("")))
    requires Name(Spliced(b, c, x)) && Name(Spliced(a, b, x))
    requires TwoFiles(fs, a, Spliced(b, c, x)) && TwoFiles(gs, Spliced(a, b, x), c)
    ensures Hashed(h, fs, []) == Hashed(h, gs, [])
  {
    var e, bc, ab := File("", ""), Spliced(b, c, x), Spliced(a, b, x);
    SplicedLines(a, b, c, x);
    TwoFilesHashed(h, fs, a, bc, Line(a, e, x), Line(bc, e, x));
    TwoFilesHashed(h, gs, ab, c, Line(ab, e, x), Line(c, e, x));
  }

  /**
   Where a name embeds a line whose digest is that of a real file, another tree can be hashed as the same
   string, whatever the hash: for any three names in order, two files each.
   */
  lemma NewlineNamesConfuse(h: Hash, a: string, b: string, c: string) returns (fs: FS, gs: FS)
    requires Name(a) && Name(b) && Name(c) && a[0] < b[0] < c[0]
    ensures TreeShaped(fs) && TreeShaped(gs) && !SameTree(fs, [], gs, [])
    ensures Hashed(h, fs, []) == Hashed(h, gs, []) && Merkle(h, fs, []) == Merkle(h, gs, [])
    ensures !ReadOnce(fs, []) && !ReadOnce(gs, [])
  {
    var d := h(Blob(""));
    var bc, ab := Spliced(b, c, Hex(d)), Spliced(a, b, Hex(d));
    HexIsPlain(d);
    fs := TwoFilesExist(a, bc);
    gs := TwoFilesExist(ab, c);
    TwoFilesShape(fs, a, bc);
    TwoFilesShape(gs, ab, c);
    SplicedHashed(h, a, b, c, Hex(d), fs, gs);
    SplicedEmbeds(b, c, d);
    SplicedEmbeds(a, b, d);
    NotReadOnce(fs, a, bc);
    NotReadOnce(gs, ab, c);
    OneFileMissing(fs, gs, a, bc, ab, c);
  }

  lemma OneFileMissing(fs: FS, gs: FS, a: string, bc: string, ab: string, c: string)
    requires TwoFiles(fs, a, bc) && TwoFiles(gs, ab, c) && a != ab && a != c
    ensures !SameTree(fs, [], gs, [])
  {
    assert [] + [a] == [a] && [a][0] == a && [ab][0] == ab && [c][0] == c;
    assert [a] in fs && [a] !in gs;
    assert !Alike(fs, [] + [a], gs, [] + [a]);
  }

  lemma {:induction false} HexIsPlain(d: seq<S.Byte>)
    ensures '/' !in Hex(d)
  {
    if d == [] {
    } else {
      HexIsPlain(d[1..]);
    }
  }
}
