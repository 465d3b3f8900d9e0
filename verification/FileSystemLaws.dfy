/** What the operations on the abstract file system keep, change and leave alone. */
module FileSystemLaws {
  import opened Strings
  import opened Paths
  import opened FileSystem

  // ---------- Ancestors ----------

  lemma {:induction false} Ancestors(fs: FS, q: Path, p: Path)
    requires TreeShaped(fs) && p in fs && q <= p
    ensures q in fs
    ensures q != p ==> fs[q].Dir?
    decreases |p|
  {
    if q == p {
    } else {
      assert Parent(p) == p[..|p| - 1];
      assert q <= Parent(p);
      Ancestors(fs, q, Parent(p));
    }
  }

  lemma ParentPrefix(p: Path)
    ensures Parent(p) <= p
    ensures p != [] ==> Parent(p) != p && p == Parent(p) + [Last(p)]
  {
  }

  lemma ChildPath(p: Path, k: string)
    ensures Parent(p + [k]) == p && Last(p + [k]) == k
  {
  }

  lemma CanonicalPrefix(p: Path, q: Path)
    requires Canonical(p) && q <= p
    ensures Canonical(q)
  {
    forall seg | seg in q ensures seg in p {
      var i :| 0 <= i < |q| && q[i] == seg;
      assert p[i] == seg;
    }
  }

  // ---------- Creating ancestors ----------

  lemma NotBlockedAt(fs: FS, p: Path)
    requires TreeShaped(fs)
    ensures p in fs ==> (Blocked(fs, p) <==> fs[p].File?)
    ensures p in fs ==> MakeDirs(fs, p) == fs
    ensures p in fs ==> !Blocked(fs, Parent(p))
  {
    if p in fs {
      ParentPrefix(p);
      forall q | q <= p ensures q in fs && (q != p ==> fs[q].Dir?) { Ancestors(fs, q, p); }
      forall q ensures q in MakeDirs(fs, p) <==> q in fs { MakeDirsAt(fs, p, q); }
      assert fs[Parent(p)].Dir?;
      if p == [] { assert Parent(p) == p; }
    }
  }

  lemma MakeDirsShape(fs: FS, p: Path)
    requires TreeShaped(fs) && Canonical(p) && !Blocked(fs, p)
    ensures TreeShaped(MakeDirs(fs, p))
    ensures p in MakeDirs(fs, p) && MakeDirs(fs, p)[p].Dir?
  {
    var g := MakeDirs(fs, p);
    forall q
      ensures q in g <==> q in fs || q <= p
      ensures q in g && q !in fs ==> g[q] == Dir(Last(q))
      ensures q in fs ==> g[q] == fs[q]
    {
      MakeDirsAt(fs, p, q);
    }
    assert [] <= p;
    forall q | q in g ensures Canonical(q) {
    }
    forall q {:trigger Parent(q)} | q in g ensures Parent(q) in g && g[Parent(q)].Dir? {
      ParentPrefix(q);
      if q !in fs {
        assert Parent(q) <= p;
        assert Parent(q) in fs ==> !fs[Parent(q)].File?;
      }
    }
    assert p in fs ==> !fs[p].File?;
  }

  /** Only directories are added, and only proper ancestors that were missing. */
  lemma MakeDirsContents(fs: FS, p: Path)
    ensures Contents(MakeDirs(fs, p)) == Contents(fs)
    ensures Dirs(MakeDirs(fs, p)) == Dirs(fs) + (set q | q in Prefixes(p) && q !in fs)
  {
    var g := MakeDirs(fs, p);
    forall q
      ensures q in g <==> q in fs || q <= p
      ensures q in g && q !in fs ==> g[q] == Dir(Last(q))
      ensures q in fs ==> g[q] == fs[q]
      ensures q in Prefixes(p) <==> q <= p
    {
      MakeDirsAt(fs, p, q);
      PrefixesAre(p, q);
    }
  }

  /** If the destination is already there, so are all its ancestors: nothing was created. */
  lemma ExistingDestination(fs: FS, d: Path)
    requires TreeShaped(fs) && d != [] && d in MakeDirs(fs, Parent(d))
    ensures MakeDirs(fs, Parent(d)) == fs
  {
    ParentPrefix(d);
    MakeDirsAt(fs, Parent(d), d);
    assert !(d <= Parent(d));
    assert Parent(d) in fs;
    NotBlockedAt(fs, Parent(d));
  }

  // ---------- The file system as a map from paths to bytes ----------

  ghost function Contents(fs: FS): map<Path, string> { map p | p in fs && fs[p].File? :: fs[p].content }

  ghost function Dirs(fs: FS): set<Path> { set p | p in fs && fs[p].Dir? }

  /** Entries that were there keep their names, new ones are named after their paths. */
  ghost predicate NamesKept(fs: FS, g: FS) {
    forall q | q in g :: g[q].name == if q in fs then fs[q].name else Last(q)
  }

  /** A failing operation changes nothing, although the code creates ancestors before its last checks. */
  lemma FailureChangesNothing(st: State, a: string, b: string, content: string, recursive: bool)
    requires TreeShaped(st.fs)
    ensures !DoMkdir(st, a).1 ==> DoMkdir(st, a).0 == st
    ensures !DoTouch(st, a).1 ==> DoTouch(st, a).0 == st
    ensures !DoWrite(st, a, content).1 ==> DoWrite(st, a, content).0 == st
    ensures !DoRemove(st, a, recursive).1 ==> DoRemove(st, a, recursive).0 == st
    ensures !DoMove(st, a, b).1 ==> DoMove(st, a, b).0 == st
    ensures !DoCopy(st, a, b, recursive).1 ==> DoCopy(st, a, b, recursive).0 == st
  {
    var d := Normal(b);
    if d != [] && d in MakeDirs(st.fs, Parent(d)) { ExistingDestination(st.fs, d); }
  }

  // ---------- Shape ----------

  lemma InsertShape(g: FS, p: Path, e: Entry)
    requires TreeShaped(g) && Canonical(p) && p != [] && Parent(p) in g && g[Parent(p)].Dir?
    requires p in g ==> (g[p].Dir? ==> e.Dir?)
    ensures TreeShaped(g[p := e])
  {
    var h := g[p := e];
    forall q {:trigger Parent(q)} | q in h ensures Parent(q) in h && h[Parent(q)].Dir? {
      if q == p {
        ParentPrefix(p);
      } else {
        assert Parent(q) in g && g[Parent(q)].Dir?;
      }
    }
  }

  ghost predicate SameShape(t: FS, g: FS, s: Path) {
    t == Subtree(g, s) || t == Unnamed(Subtree(g, s))
  }

  lemma GraftedAt(h: FS, d: Path, t: FS, g: FS, s: Path, q: Path)
    requires TreeShaped(h) && d !in h && SameShape(t, g, s)
    ensures q in h + Graft(d, t) <==> q in h || (d <= q && s + q[|d|..] in g)
    ensures q in h ==> !(d <= q) && (h + Graft(d, t))[q] == h[q]
    ensures q !in h && q in h + Graft(d, t) ==> (h + Graft(d, t))[q].Dir? == g[s + q[|d|..]].Dir?
  {
    GraftAt(d, t, q);
    if d <= q {
      SubtreeAt(g, s, q[|d|..]);
      if q in h { Ancestors(h, d, q); }
    }
  }

  /** Hanging a tree below an existing directory, at a free name. */
  lemma GraftShape(h: FS, d: Path, t: FS, g: FS, s: Path)
    requires TreeShaped(g) && s in g && SameShape(t, g, s)
    requires TreeShaped(h) && d !in h && d != [] && Canonical(d) && Parent(d) in h && h[Parent(d)].Dir?
    ensures TreeShaped(h + Graft(d, t))
  {
    var k := h + Graft(d, t);
    GraftedAt(h, d, t, g, s, []);
    forall q | q in k ensures Canonical(q) {
      GraftedAt(h, d, t, g, s, q);
    }
    forall q {:trigger Parent(q)} | q in k ensures Parent(q) in k && k[Parent(q)].Dir? {
      GraftParent(h, d, t, g, s, q);
    }
  }

  lemma GraftParent(h: FS, d: Path, t: FS, g: FS, s: Path, q: Path)
    requires TreeShaped(g) && s in g && SameShape(t, g, s)
    requires TreeShaped(h) && d !in h && d != [] && Parent(d) in h && h[Parent(d)].Dir?
    requires q in h + Graft(d, t)
    ensures Parent(q) in h + Graft(d, t) && (h + Graft(d, t))[Parent(q)].Dir?
  {
    GraftedAt(h, d, t, g, s, q);
    GraftedAt(h, d, t, g, s, Parent(q));
    ParentPrefix(q);
    if q !in h && q != d {
      var r := q[|d|..];
      assert Parent(q)[|d|..] == Parent(r);
      assert Parent(s + r) == s + Parent(r);
    }
  }

  /** Every operation keeps the tree shape, whatever its arguments. */
  lemma OperationsKeepShape(st: State, a: string, b: string, content: string, recursive: bool)
    requires TreeShaped(st.fs)
    ensures TreeShaped(DoMkdir(st, a).0.fs)
    ensures TreeShaped(DoTouch(st, a).0.fs)
    ensures TreeShaped(DoWrite(st, a, content).0.fs)
    ensures TreeShaped(DoRemove(st, a, recursive).0.fs)
    ensures TreeShaped(DoMove(st, a, b).0.fs)
    ensures TreeShaped(DoCopy(st, a, b, recursive).0.fs)
  {
    MkdirKeepsShape(st, a);
    TouchKeepsShape(st, a);
    WriteKeepsShape(st, a, content);
    RemoveKeepsShape(st, a, recursive);
    MoveKeepsShape(st, a, b);
    CopyKeepsShape(st, a, b, recursive);
  }

  lemma ParentReady(fs: FS, p: Path)
    requires TreeShaped(fs) && Canonical(p) && !Blocked(fs, Parent(p))
    ensures TreeShaped(MakeDirs(fs, Parent(p)))
    ensures Parent(p) in MakeDirs(fs, Parent(p)) && MakeDirs(fs, Parent(p))[Parent(p)].Dir?
  {
    ParentPrefix(p);
    MakeDirsShape(fs, Parent(p));
  }

  lemma MkdirKeepsShape(st: State, a: string)
    requires TreeShaped(st.fs)
    ensures TreeShaped(DoMkdir(st, a).0.fs)
  {
    if !Blocked(st.fs, Normal(a)) { MakeDirsShape(st.fs, Normal(a)); }
  }

  lemma TouchKeepsShape(st: State, a: string)
    requires TreeShaped(st.fs)
    ensures TreeShaped(DoTouch(st, a).0.fs)
  {
    var p := Normal(a);
    if DoTouch(st, a).1 {
      ParentReady(st.fs, p);
      var g := MakeDirs(st.fs, Parent(p));
      if p !in g { InsertShape(g, p, File(Last(p), "")); }
    }
  }

  lemma WriteKeepsShape(st: State, a: string, content: string)
    requires TreeShaped(st.fs)
    ensures TreeShaped(DoWrite(st, a, content).0.fs)
  {
    var p := Normal(a);
    if DoWrite(st, a, content).1 {
      if p in st.fs {
        assert Parent(p) in st.fs;
        InsertShape(st.fs, p, File(st.fs[p].name, content));
      } else {
        ParentReady(st.fs, p);
        NewDestination(st.fs, p);
        InsertShape(MakeDirs(st.fs, Parent(p)), p, File(Last(p), content));
      }
    }
  }

  lemma NewDestination(fs: FS, p: Path)
    requires TreeShaped(fs) && p !in fs
    ensures p != [] && p !in MakeDirs(fs, Parent(p))
  {
    ParentPrefix(p);
    MakeDirsAt(fs, Parent(p), p);
  }

  lemma RemoveKeepsShape(st: State, a: string, recursive: bool)
    requires TreeShaped(st.fs)
    ensures TreeShaped(DoRemove(st, a, recursive).0.fs)
  {
  }

  lemma MoveKeepsShape(st: State, a: string, b: string)
    requires TreeShaped(st.fs)
    ensures TreeShaped(DoMove(st, a, b).0.fs)
  {
    var s, d := Normal(a), Normal(b);
    if !(st.isSealed || s == [] || d == [] || s !in st.fs) && !Blocked(st.fs, Parent(d)) {
      ParentReady(st.fs, d);
      var g := MakeDirs(st.fs, Parent(d));
      MakeDirsAt(st.fs, Parent(d), s);
      if d !in g && !(s <= d) {
        ParentPrefix(d);
        assert !(s <= Parent(d));
        GraftShape(g - Below(g, s), d, Subtree(g, s), g, s);
      }
    }
  }

  lemma CopyKeepsShape(st: State, a: string, b: string, recursive: bool)
    requires TreeShaped(st.fs)
    ensures TreeShaped(DoCopy(st, a, b, recursive).0.fs)
  {
    var s, d := Normal(a), Normal(b);
    if !(st.isSealed || s == [] || d == [] || s !in st.fs) && !Blocked(st.fs, Parent(d)) {
      ParentReady(st.fs, d);
      var g := MakeDirs(st.fs, Parent(d));
      MakeDirsAt(st.fs, Parent(d), s);
      if d !in g { GraftShape(g, d, Unnamed(Subtree(g, s)), g, s); }
    }
  }

  // ---------- What a write, a move and a copy mean for the files ----------

  /**
   A write succeeds exactly when the file system is open, the quota allows it, the path is not a
   directory and no ancestor is a file; it then changes the bytes at that one path only and adds
   only the missing ancestors.
   */
  lemma WriteMeaning(st: State, path: string, content: string)
    requires TreeShaped(st.fs)
    ensures var p, r := Normal(path), DoWrite(st, path, content);
      && (r.1 <==> !st.isSealed && !OverQuota(st, p, content) && p !in Dirs(st.fs) && !Blocked(st.fs, Parent(p)))
      && (r.1 ==> Contents(r.0.fs) == Contents(st.fs)[p := content])
      && (r.1 ==> Dirs(r.0.fs) == Dirs(st.fs) + (set q | q in Prefixes(Parent(p)) && q !in st.fs))
      && (r.1 ==> Used(r.0.fs) == Used(st.fs) - SizeAt(st.fs, p) + |content|)
      && (r.1 ==> NamesKept(st.fs, r.0.fs))
      && Used(st.fs) >= SizeAt(st.fs, p)
  {
    var p := Normal(path);
    NotBlockedAt(st.fs, p);
    if p in st.fs { WriteExisting(st.fs, p, content); } else { WriteNew(st.fs, p, content); }
    MakeDirsNames(st.fs, Parent(p));
  }

  lemma MakeDirsNames(fs: FS, p: Path)
    ensures NamesKept(fs, MakeDirs(fs, p))
  {
    forall q | q in MakeDirs(fs, p)
      ensures MakeDirs(fs, p)[q].name == if q in fs then fs[q].name else Last(q)
    {
      MakeDirsAt(fs, p, q);
    }
  }

  lemma WriteExisting(fs: FS, p: Path, content: string)
    requires TreeShaped(fs) && p in fs
    ensures Used(fs) >= fs[p].Size() && (set q | q in Prefixes(Parent(p)) && q !in fs) == {}
    ensures fs[p].File? ==> var g := fs[p := File(fs[p].name, content)];
      && Contents(g) == Contents(fs)[p := content] && Dirs(g) == Dirs(fs)
      && Used(g) == Used(fs) - fs[p].Size() + |content|
  {
    UsedReplace(fs, p, File(fs[p].name, content));
    forall q | q in Prefixes(Parent(p)) ensures q in fs {
      PrefixesAre(Parent(p), q);
      ParentPrefix(p);
      Ancestors(fs, q, p);
    }
  }

  lemma WriteNew(fs: FS, p: Path, content: string)
    requires TreeShaped(fs) && p !in fs
    ensures var g := MakeDirs(fs, Parent(p))[p := File(Last(p), content)];
      && Contents(g) == Contents(fs)[p := content]
      && Dirs(g) == Dirs(fs) + (set q | q in Prefixes(Parent(p)) && q !in fs)
      && Used(g) == Used(fs) + |content|
  {
    NewDestination(fs, p);
    MakeDirsContents(fs, Parent(p));
    UsedMakeDirs(fs, Parent(p));
    UsedInsert(MakeDirs(fs, Parent(p)), p, File(Last(p), content));
  }

  /** Reading after a write: the new bytes at that path, the old answer everywhere else. */
  lemma ReadAfterWrite(st: State, path: string, content: string, other: string)
    requires TreeShaped(st.fs) && DoWrite(st, path, content).1
    ensures DoRead(DoWrite(st, path, content).0, other)
         == if Normal(other) == Normal(path) then Some(content) else DoRead(st, other)
  {
    WriteMeaning(st, path, content);
    var c := Contents(DoWrite(st, path, content).0.fs);
    assert Normal(other) in c <==> DoRead(DoWrite(st, path, content).0, other).Some?;
    assert Normal(other) in Contents(st.fs) <==> DoRead(st, other).Some?;
  }

  /** Which entries exist after a successful move to a place that is not below the source. */
  lemma RelocatedAt(fs: FS, s: Path, d: Path, q: Path)
    requires TreeShaped(fs) && s in fs && d !in fs && !(s <= d)
    ensures q in Relocate(fs, s, d) <==> if d <= q then s + q[|d|..] in fs else q in fs && !(s <= q)
    ensures d <= q && q in Relocate(fs, s, d) ==> Relocate(fs, s, d)[q] == fs[s + q[|d|..]]
    ensures !(d <= q) && q in Relocate(fs, s, d) ==> Relocate(fs, s, d)[q] == fs[q]
  {
    GraftAt(d, Subtree(fs, s), q);
    if d <= q {
      SubtreeAt(fs, s, q[|d|..]);
      if q in fs { Ancestors(fs, d, q); }
    }
  }

  /** A directory newly created on the way to `d` is not below `s` unless `d` is. */
  lemma CreatedOutside(fs: FS, s: Path, d: Path, q: Path)
    requires TreeShaped(fs) && s in fs && s <= q && q <= Parent(d) && q !in fs
    ensures s <= d
  {
    ParentPrefix(d);
  }

  lemma MoveMeaning(st: State, from: string, to: string)
    requires TreeShaped(st.fs)
    ensures var s, d, r := Normal(from), Normal(to), DoMove(st, from, to);
      && (r.1 <==> !st.isSealed && s != [] && d != [] && s in st.fs && d !in st.fs && !Blocked(st.fs, Parent(d)))
      && (r.1 && !(s <= d) ==> Subtree(r.0.fs, d) == Subtree(st.fs, s))
      && (r.1 && !(s <= d) ==> Below(r.0.fs, s) == {})
      && (r.1 && !(s <= d) ==> r.0.fs - Below(r.0.fs, d) == MakeDirs(st.fs, Parent(d)) - Below(st.fs, s))
      && (r.1 && s <= d ==> r.0.fs == st.fs - Below(st.fs, s))
  {
    var s, d := Normal(from), Normal(to);
    if !st.isSealed && s != [] && d != [] && s in st.fs && !Blocked(st.fs, Parent(d)) {
      var g := MakeDirs(st.fs, Parent(d));
      if d in st.fs {
        MakeDirsAt(st.fs, Parent(d), d);
      } else {
        NewDestination(st.fs, d);
        ParentReady(st.fs, d);
        MakeDirsAt(st.fs, Parent(d), s);
        if s <= d {
          MoveIntoSelf(st.fs, s, d);
        } else {
          MoveElsewhere(st.fs, s, d);
        }
      }
    }
  }

  lemma MoveIntoSelf(fs: FS, s: Path, d: Path)
    requires TreeShaped(fs) && s in fs && d !in fs && s <= d
    ensures MakeDirs(fs, Parent(d)) - Below(MakeDirs(fs, Parent(d)), s) == fs - Below(fs, s)
  {
    forall q
      ensures q in MakeDirs(fs, Parent(d)) && !(s <= q) <==> q in fs && !(s <= q)
      ensures q in fs ==> MakeDirs(fs, Parent(d))[q] == fs[q]
    {
      MakeDirsAt(fs, Parent(d), q);
      if q !in fs && q <= Parent(d) && q <= s { Ancestors(fs, q, s); }
    }
  }

  lemma MoveElsewhere(fs: FS, s: Path, d: Path)
    requires TreeShaped(fs) && s in fs && s != [] && d != [] && d !in fs && !(s <= d)
    requires TreeShaped(MakeDirs(fs, Parent(d))) && d !in MakeDirs(fs, Parent(d)) && s in MakeDirs(fs, Parent(d))
    ensures var h := Relocate(MakeDirs(fs, Parent(d)), s, d);
      && Subtree(h, d) == Subtree(fs, s)
      && Below(h, s) == {}
      && h - Below(h, d) == MakeDirs(fs, Parent(d)) - Below(fs, s)
  {
    var g := MakeDirs(fs, Parent(d));
    var h := Relocate(g, s, d);
    forall r
      ensures r in Subtree(h, d) <==> r in Subtree(fs, s)
      ensures r in Subtree(h, d) ==> Subtree(h, d)[r] == Subtree(fs, s)[r]
    {
      SubtreeAt(h, d, r);
      SubtreeAt(fs, s, r);
      RelocatedAt(g, s, d, d + r);
      MakeDirsAt(fs, Parent(d), s + r);
      if s + r <= Parent(d) && s + r !in fs { CreatedOutside(fs, s, d, s + r); }
    }
    forall q ensures q in h ==> !(s <= q) {
      RelocatedAt(g, s, d, q);
      if d <= q && s <= q && q in h { Ancestors(g, d, s); }
    }
    forall q
      ensures q in h && !(d <= q) <==> q in g && !(q in fs && s <= q)
      ensures q in h && !(d <= q) ==> h[q] == g[q]
    {
      RelocatedAt(g, s, d, q);
      MakeDirsAt(fs, Parent(d), q);
      if q in g && s <= q && q !in fs { CreatedOutside(fs, s, d, q); }
      if q in g && d <= q { Ancestors(g, d, q); }
    }
  }

  // ---------- Bytes ----------

  /**
   A move keeps the byte count exactly when it does not drop a subtree with bytes in it: the code
   lets the destination lie below the source, and that is the only way a move loses anything.
   */
  lemma MoveConservesBytes(st: State, from: string, to: string)
    requires TreeShaped(st.fs) && DoMove(st, from, to).1
    ensures Used(DoMove(st, from, to).0.fs) == Used(st.fs)
       <==> !(Normal(from) <= Normal(to)) || Used(Subtree(st.fs, Normal(from))) == 0
    ensures Normal(from) <= Normal(to) ==>
      Used(DoMove(st, from, to).0.fs) == Used(st.fs) - Used(Subtree(st.fs, Normal(from)))
  {
    var s, d, h := Normal(from), Normal(to), DoMove(st, from, to).0.fs;
    MoveMeaning(st, from, to);
    UsedSubtree(st.fs, s);
    if !(s <= d) {
      var g := MakeDirs(st.fs, Parent(d));
      UsedMakeDirs(st.fs, Parent(d));
      UsedSubtree(h, d);
      UsedSplit(g, Below(st.fs, s));
      assert Restrict(g, Below(st.fs, s)) == Restrict(st.fs, Below(st.fs, s));
    }
  }

  /**
   A removal succeeds exactly when the file system is open, the path is an entry below the root and the
   entry is alone or recursion is asked for; it drops exactly the files, directories and bytes of the subtree.
   */
  lemma RemoveSubtractsSubtree(st: State, path: string, recursive: bool)
    requires TreeShaped(st.fs)
    ensures var p, r := Normal(path), DoRemove(st, path, recursive);
      && (r.1 <==> !st.isSealed && p != [] && p in st.fs && (recursive || Below(st.fs, p) == {p}))
      && (r.1 ==> Used(r.0.fs) == Used(st.fs) - Used(Subtree(st.fs, p)))
      && (r.1 ==> Contents(r.0.fs) == Contents(st.fs) - Below(st.fs, p))
      && (r.1 ==> Dirs(r.0.fs) == Dirs(st.fs) - Below(st.fs, p))
  {
    UsedSubtree(st.fs, Normal(path));
  }

  /** What the checks of `Copy` ask for: an open file system, a source, a free destination with no file on the way. */
  ghost predicate CopyAllowed(st: State, s: Path, d: Path, recursive: bool) {
    && !st.isSealed && s != [] && d != []
    && s in st.fs && (st.fs[s].File? || recursive)
    && d !in st.fs && !Blocked(st.fs, Parent(d))
  }

  /**
   A copy succeeds exactly when its checks do. It adds the bytes of its source once, even when the
   destination lies inside the source. The copied subtree is the source after the destination's ancestors
   were created.
   */
  lemma CopyMeaning(st: State, from: string, to: string, recursive: bool)
    requires TreeShaped(st.fs)
    ensures var s, d, r := Normal(from), Normal(to), DoCopy(st, from, to, recursive);
      && (r.1 <==> CopyAllowed(st, s, d, recursive))
      && (r.1 ==>
            && Used(r.0.fs) == Used(st.fs) + Used(Subtree(st.fs, s))
            && r.0.fs - Below(r.0.fs, d) == MakeDirs(st.fs, Parent(d))
            && Subtree(r.0.fs, d) == Unnamed(Subtree(MakeDirs(st.fs, Parent(d)), s)))
  {
    if CopyAllowed(st, Normal(from), Normal(to), recursive) {
      CopyChanges(st, from, to, recursive);
    }
  }

  lemma CopyChanges(st: State, from: string, to: string, recursive: bool)
    requires TreeShaped(st.fs) && DoCopy(st, from, to, recursive).1
    ensures var s, d, h := Normal(from), Normal(to), DoCopy(st, from, to, recursive).0.fs;
      && Used(h) == Used(st.fs) + Used(Subtree(st.fs, s))
      && h - Below(h, d) == MakeDirs(st.fs, Parent(d))
      && Subtree(h, d) == Unnamed(Subtree(MakeDirs(st.fs, Parent(d)), s))
  {
    var s, d := Normal(from), Normal(to);
    var g := MakeDirs(st.fs, Parent(d));
    MakeDirsAt(st.fs, Parent(d), d);
    MakeDirsAt(st.fs, Parent(d), s);
    ParentReady(st.fs, d);
    GraftedApart(g, d, Unnamed(Subtree(g, s)));
    UsedSubtree(g + Graft(d, Unnamed(Subtree(g, s))), d);
    UsedUnnamed(Subtree(g, s));
    UsedMakeDirs(st.fs, Parent(d));
    UsedSubtreeMakeDirs(st.fs, Parent(d), s);
  }

  /**
   What a copy holds: below the destination the files and directories of the source, each with its own
   content; elsewhere the old files, and the old directories with the missing ancestors of the destination.
   */
  lemma CopyContents(st: State, from: string, to: string, recursive: bool, r: Path)
    requires TreeShaped(st.fs) && DoCopy(st, from, to, recursive).1
    ensures var s, d, h := Normal(from), Normal(to), DoCopy(st, from, to, recursive).0.fs;
      && (d + r in Contents(h) <==> s + r in Contents(st.fs))
      && (d + r in Contents(h) ==> Contents(h)[d + r] == Contents(st.fs)[s + r])
      && (d + r in Dirs(h) <==> s + r in Dirs(MakeDirs(st.fs, Parent(d))))
      && Contents(h) - Below(h, d) == Contents(st.fs)
  {
    var s, d, h := Normal(from), Normal(to), DoCopy(st, from, to, recursive).0.fs;
    var g := MakeDirs(st.fs, Parent(d));
    CopyMeaning(st, from, to, recursive);
    SubtreeAt(h, d, r);
    SubtreeAt(g, s, r);
    assert (d + r)[|d|..] == r;
    MakeDirsContents(st.fs, Parent(d));
    assert s + r in Contents(g) <==> s + r in g && g[s + r].File?;
    assert Contents(h) - Below(h, d) == Contents(h - Below(h, d));
  }

  /** Reading after a copy: below the destination what the source held there, elsewhere the old answer. */
  lemma ReadAfterCopy(st: State, from: string, to: string, recursive: bool, other: string)
    requires TreeShaped(st.fs) && DoCopy(st, from, to, recursive).1
    ensures var s, d, q := Normal(from), Normal(to), Normal(other);
      DoRead(DoCopy(st, from, to, recursive).0, other)
      == if !(d <= q) then DoRead(st, other)
         else if s + q[|d|..] in Contents(st.fs) then Some(Contents(st.fs)[s + q[|d|..]]) else None
  {
    var d, q, h := Normal(to), Normal(other), DoCopy(st, from, to, recursive).0.fs;
    var r := if d <= q then q[|d|..] else [];
    CopyContents(st, from, to, recursive, r);
    if d <= q {
      assert q == d + r;
      assert q in Contents(h) <==> q in h && h[q].File?;
    } else {
      assert q in h && h[q].File? <==> q in Contents(h) - Below(h, d);
      assert q in st.fs && st.fs[q].File? <==> q in Contents(st.fs);
    }
  }

  /** Hanging a tree at a free path: the tree and the rest can be told apart again. */
  lemma GraftedApart(g: FS, d: Path, t: FS)
    requires TreeShaped(g) && d !in g
    ensures Subtree(g + Graft(d, t), d) == t
    ensures (g + Graft(d, t)) - Below(g + Graft(d, t), d) == g
  {
    var h := g + Graft(d, t);
    forall r ensures r in Subtree(h, d) <==> r in t ensures r in t ==> Subtree(h, d)[r] == t[r] {
      SubtreeAt(h, d, r);
      GraftAt(d, t, d + r);
      assert (d + r)[|d|..] == r;
      if d + r in g { Ancestors(g, d, d + r); }
    }
    forall q ensures q in h && !(d <= q) <==> q in g ensures q in g ==> h[q] == g[q] {
      GraftAt(d, t, q);
      if d <= q && q in g { Ancestors(g, d, q); }
    }
  }

  lemma UsedExtraDirs(a: FS, b: FS)
    requires forall q | q in a :: q in b && b[q] == a[q]
    requires forall q | q in b && q !in a :: b[q].Dir?
    ensures Used(b) == Used(a)
  {
    UsedSplit(b, a.Keys);
    UsedZero(b - a.Keys);
    assert Restrict(b, a.Keys) == a;
  }

  lemma UsedSubtreeMakeDirs(fs: FS, p: Path, s: Path)
    ensures Used(Subtree(MakeDirs(fs, p), s)) == Used(Subtree(fs, s))
  {
    var g := MakeDirs(fs, p);
    forall r
      ensures r in Subtree(fs, s) ==> r in Subtree(g, s) && Subtree(g, s)[r] == Subtree(fs, s)[r]
      ensures r in Subtree(g, s) && r !in Subtree(fs, s) ==> Subtree(g, s)[r].Dir?
    {
      SubtreeAt(fs, s, r);
      SubtreeAt(g, s, r);
      MakeDirsAt(fs, p, s + r);
    }
    UsedExtraDirs(Subtree(fs, s), Subtree(g, s));
  }

  /**
   Making a directory succeeds exactly when the file system is open and no file is on the way; then exactly
   the missing ancestors and the path itself are new directories.
   */
  lemma MkdirMeaning(st: State, path: string)
    requires TreeShaped(st.fs)
    ensures var p, r := Normal(path), DoMkdir(st, path);
      && (r.1 <==> !st.isSealed && !Blocked(st.fs, p))
      && (r.1 ==> p in Dirs(r.0.fs) && Dirs(r.0.fs) == Dirs(st.fs) + (set q | q in Prefixes(p) && q !in st.fs))
      && (r.1 ==> NamesKept(st.fs, r.0.fs))
      && Contents(r.0.fs) == Contents(st.fs) && Used(r.0.fs) == Used(st.fs)
  {
    var p := Normal(path);
    UsedMakeDirs(st.fs, p);
    MakeDirsContents(st.fs, p);
    MakeDirsNames(st.fs, p);
    if !Blocked(st.fs, p) { MakeDirsShape(st.fs, p); }
  }

  /**
   Touching succeeds exactly when the file system is open, the path is not the root and no file is on the
   way; then the path is in the tree, as before or else as an empty file with the missing ancestors.
   */
  lemma TouchMeaning(st: State, path: string)
    requires TreeShaped(st.fs)
    ensures var p, r := Normal(path), DoTouch(st, path);
      && (r.1 <==> !st.isSealed && p != [] && !Blocked(st.fs, Parent(p)))
      && (r.1 && p !in st.fs ==> Contents(r.0.fs) == Contents(st.fs)[p := ""])
      && (r.1 && p !in st.fs ==> Dirs(r.0.fs) == Dirs(st.fs) + (set q | q in Prefixes(Parent(p)) && q !in st.fs))
      && (r.1 ==> NamesKept(st.fs, r.0.fs))
      && (p in st.fs ==> r.0 == st)
      && Used(r.0.fs) == Used(st.fs)
  {
    var p := Normal(path);
    if p in st.fs {
      TouchExisting(st, path);
    } else {
      WriteNew(st.fs, p, "");
      NewDestination(st.fs, p);
    }
    MakeDirsNames(st.fs, Parent(p));
  }

  lemma TouchExisting(st: State, path: string)
    requires TreeShaped(st.fs) && Normal(path) in st.fs
    ensures DoTouch(st, path) == (st, !st.isSealed && Normal(path) != [])
    ensures !Blocked(st.fs, Parent(Normal(path)))
  {
    assert Parent(Normal(path)) in st.fs;
    NotBlockedAt(st.fs, Normal(path));
    NotBlockedAt(st.fs, Parent(Normal(path)));
  }
}
