/** Loading a dump gives back the dumped tree exactly when the tree is one the text can carry. */
module RoundTrip {
  import opened Strings
  import opened Paths
  import opened FileSystem
  import opened FileSystemLaws
  import opened Dump

  // ---------- Sufficient: each printed node is read back ----------

  ghost predicate PartOf(g: FS, fs: FS) {
    forall q | q in g :: q in fs && g[q] == fs[q]
  }

  lemma UsedPart(g: FS, fs: FS)
    requires PartOf(g, fs)
    ensures Used(g) <= Used(fs)
  {
    UsedSplit(fs, g.Keys);
    assert Restrict(fs, g.Keys) == g;
  }

  lemma PrintedPathRender(p: Path)
    requires Canonical(p) && p != []
    ensures PrintedPath(Render(Parent(p)), Last(p)) == Render(p)
  {
    ParentPrefix(p);
    CanonicalPrefix(p, Parent(p));
    RenderChild(Parent(p), Last(p));
    RenderClean(p);
    RenderClean(Parent(p));
    assert Last(p) in p;
    var name := Last(p);
    assert Plain(name);
    assert '/' in "/";
    assert name != "/";
  }

  /** The part read so far plus one whole subtree is again tree-shaped and part of the tree. */
  lemma ExtendPart(g: FS, fs: FS, p: Path)
    requires TreeShaped(fs) && TreeShaped(g) && PartOf(g, fs)
    requires p in fs && p != [] && Parent(p) in g
    ensures TreeShaped(g + Restrict(fs, Below(fs, p)))
    ensures PartOf(g + Restrict(fs, Below(fs, p)), fs)
  {
    var h := g + Restrict(fs, Below(fs, p));
    forall q {:trigger Parent(q)} | q in h ensures Parent(q) in h && h[Parent(q)].Dir? {
      ParentPrefix(q);
      assert Parent(q) in fs && fs[Parent(q)].Dir?;
      if p <= q && q != p {
        assert p <= Parent(q);
      }
    }
  }

  ghost predicate CanRead(st: State, fs: FS) {
    && TreeShaped(fs) && DumpSafe(fs) && FitsQuota(fs, st.quota)
    && !st.isSealed && TreeShaped(st.fs) && PartOf(st.fs, fs)
  }

  lemma MkdirNext(g: FS, fs: FS, p: Path)
    requires TreeShaped(fs) && DumpSafe(fs) && TreeShaped(g) && PartOf(g, fs)
    requires p in fs && fs[p].Dir? && p !in g && Parent(p) in g
    ensures !Blocked(g, p) && MakeDirs(g, p) == g[p := fs[p]]
    ensures TreeShaped(g[p := fs[p]]) && PartOf(g[p := fs[p]], fs)
  {
    ParentPrefix(p);
    assert p != [];
    forall q | q <= p && q != p ensures q in g && g[q].Dir? {
      Ancestors(fs, q, p);
      if q != Parent(p) { Ancestors(g, q, Parent(p)); }
    }
    forall q ensures q in MakeDirs(g, p) <==> q in g || q == p ensures q in g ==> MakeDirs(g, p)[q] == g[q] {
      MakeDirsAt(g, p, q);
    }
    MakeDirsAt(g, p, p);
    assert fs[p] == Dir(Last(p));
    InsertShape(g, p, fs[p]);
  }

  lemma WriteNext(st: State, fs: FS, p: Path)
    requires CanRead(st, fs) && p in fs && fs[p].File? && p !in st.fs && Parent(p) in st.fs
    ensures DoWrite(st, Render(p), fs[p].content).0 == st.(fs := st.fs[p := fs[p]])
  {
    var g := st.fs;
    NormalRender(p);
    assert g[Parent(p)] == fs[Parent(p)] && fs[Parent(p)].Dir?;
    NotBlockedAt(g, Parent(p));
    UsedInsert(g, p, fs[p]);
    assert PartOf(g[p := fs[p]], fs);
    UsedPart(g[p := fs[p]], fs);
    assert fs[p] == File(Last(p), fs[p].content);
  }

  ghost function BelowAny(fs: FS, p: Path, ks: seq<string>): set<Path> {
    set q | q in fs && p <= q && |p| < |q| && q[|p|] in ks
  }

  lemma BelowAnyStep(fs: FS, p: Path, ks: seq<string>)
    requires ks != []
    ensures BelowAny(fs, p, ks) == Below(fs, p + [ks[0]]) + BelowAny(fs, p, ks[1..])
  {
    forall q ensures q in BelowAny(fs, p, ks) <==> q in Below(fs, p + [ks[0]]) || q in BelowAny(fs, p, ks[1..]) {
      assert p + [ks[0]] <= q <==> p <= q && |p| < |q| && q[|p|] == ks[0];
    }
  }

  lemma BelowSplit(fs: FS, p: Path)
    requires TreeShaped(fs) && p in fs
    ensures Below(fs, p) == {p} + BelowAny(fs, p, InOrder(ChildKeys(fs, p)))
  {
    var ks := InOrder(ChildKeys(fs, p));
    forall q | q in Below(fs, p) && q != p ensures q in BelowAny(fs, p, ks) {
      FirstStepIsChild(fs, p, q);
    }
  }

  lemma FirstStepIsChild(fs: FS, p: Path, q: Path)
    requires TreeShaped(fs) && q in fs && p <= q && q != p
    ensures |p| < |q| && q[|p|] in InOrder(ChildKeys(fs, p))
  {
    var c := q[..|p| + 1];
    Ancestors(fs, c, q);
    assert c == p + [q[|p|]];
    ChildKeysAre(fs, p, q[|p|]);
    InOrderMembers(ChildKeys(fs, p));
  }

  lemma OnlyFile(fs: FS, p: Path)
    requires TreeShaped(fs) && p in fs && fs[p].File?
    ensures Below(fs, p) == {p}
  {
    forall q | q in Below(fs, p) ensures q == p {
      Ancestors(fs, p, q);
    }
  }

  lemma DirText(fs: FS, p: Path, rest: string)
    requires p in fs && p != [] && Canonical(p) && fs[p] == Dir(Last(p))
    ensures NodeText(fs, p, Render(Parent(p))) + rest
         == "DIR " + Render(p) + "\n" + (ChildrenText(fs, p, InOrder(ChildKeys(fs, p)), Render(p)) + rest)
  {
    PrintedPathRender(p);
  }

  lemma RestrictJoin(g: FS, fs: FS, a: set<Path>, b: set<Path>)
    ensures (g + Restrict(fs, a)) + Restrict(fs, b) == g + Restrict(fs, a + b)
  {
  }

  lemma InsertIsRestrict(g: FS, fs: FS, p: Path)
    requires p in fs
    ensures g[p := fs[p]] == g + Restrict(fs, {p})
  {
  }

  lemma NewChildren(g: FS, fs: FS, p: Path)
    requires TreeShaped(g) && p in fs && p !in g
    ensures var ks := InOrder(ChildKeys(fs, p));
      Distinct(ks) && forall k | k in ks :: p + [k] in fs && p + [k] !in g[p := fs[p]]
  {
    InOrderMembers(ChildKeys(fs, p));
    forall k | k in InOrder(ChildKeys(fs, p)) ensures p + [k] in fs && p + [k] !in g[p := fs[p]] {
      ChildKeysAre(fs, p, k);
      assert p <= p + [k];
      if p + [k] in g { Ancestors(g, p, p + [k]); }
    }
  }

  /** A printed node is read back as its whole subtree. */
  lemma {:induction false} LoadNode(st: State, fs: FS, p: Path, rest: string)
    requires CanRead(st, fs) && p in fs && p != [] && p !in st.fs && Parent(p) in st.fs
    ensures LoadLines(st, NodeText(fs, p, Render(Parent(p))) + rest)
         == LoadLines(st.(fs := st.fs + Restrict(fs, Below(fs, p))), rest)
    decreases Below(fs, p), 1, 0
  {
    assert SafeEntry(p, fs[p]);
    InsertIsRestrict(st.fs, fs, p);
    if fs[p].Dir? {
      LoadDirNode(st, fs, p, rest);
    } else {
      PrintedPathRender(p);
      LoadFileLines(st, Render(p), fs[p].content, rest);
      WriteNext(st, fs, p);
      OnlyFile(fs, p);
    }
  }

  lemma {:induction false} LoadDirNode(st: State, fs: FS, p: Path, rest: string)
    requires CanRead(st, fs) && p in fs && p != [] && p !in st.fs && Parent(p) in st.fs && fs[p].Dir?
    ensures LoadLines(st, NodeText(fs, p, Render(Parent(p))) + rest)
         == LoadLines(st.(fs := st.fs + Restrict(fs, Below(fs, p))), rest)
    decreases Below(fs, p), 0, |ChildKeys(fs, p)| + 1
  {
    assert SafeEntry(p, fs[p]);
    var ks := InOrder(ChildKeys(fs, p));
    InOrderMembers(ChildKeys(fs, p));
    DirText(fs, p, rest);
    LoadDirLine(st, Render(p), ChildrenText(fs, p, ks, Render(p)) + rest);
    NormalRender(p);
    MkdirNext(st.fs, fs, p);
    NewChildren(st.fs, fs, p);
    var st1 := st.(fs := st.fs[p := fs[p]]);
    assert DoMkdir(st, Render(p)).0 == st1;
    LoadChildren(st1, fs, p, ks, rest);
    BelowSplit(fs, p);
    InsertIsRestrict(st.fs, fs, p);
    RestrictJoin(st.fs, fs, {p}, BelowAny(fs, p, ks));
  }

  lemma {:induction false} LoadChildren(st: State, fs: FS, p: Path, ks: seq<string>, rest: string)
    requires CanRead(st, fs) && p in st.fs
    requires Distinct(ks) && forall k | k in ks :: p + [k] in fs && p + [k] !in st.fs
    ensures LoadLines(st, ChildrenText(fs, p, ks, Render(p)) + rest)
         == LoadLines(st.(fs := st.fs + Restrict(fs, BelowAny(fs, p, ks))), rest)
    decreases Below(fs, p), 0, |ks|
  {
    if ks == [] {
      assert ChildrenText(fs, p, ks, Render(p)) + rest == rest;
      assert st.fs + Restrict(fs, BelowAny(fs, p, ks)) == st.fs;
    } else {
      var c := p + [ks[0]];
      BelowShrinks(fs, p, ks[0]);
      ChildPath(p, ks[0]);
      var tail := ChildrenText(fs, p, ks[1..], Render(p));
      assert c in fs && c !in st.fs;
      assert ChildrenText(fs, p, ks, Render(p)) + rest == NodeText(fs, c, Render(p)) + (tail + rest);
      LoadNode(st, fs, c, tail + rest);
      ExtendPart(st.fs, fs, c);
      var st1 := st.(fs := st.fs + Restrict(fs, Below(fs, c)));
      OtherChildren(st.fs, fs, p, ks);
      LoadChildren(st1, fs, p, ks[1..], rest);
      BelowAnyStep(fs, p, ks);
      RestrictJoin(st.fs, fs, Below(fs, c), BelowAny(fs, p, ks[1..]));
    }
  }

  lemma OtherChildren(g: FS, fs: FS, p: Path, ks: seq<string>)
    requires ks != [] && Distinct(ks) && forall k | k in ks :: p + [k] in fs && p + [k] !in g
    ensures Distinct(ks[1..])
    ensures forall k | k in ks[1..] :: p + [k] in fs && p + [k] !in g + Restrict(fs, Below(fs, p + [ks[0]]))
  {
    forall k | k in ks[1..] ensures p + [k] in fs && p + [k] !in g + Restrict(fs, Below(fs, p + [ks[0]])) {
      var c, d := p + [ks[0]], p + [k];
      assert c[|p|] == ks[0] && d[|p|] == k;
      assert !(c <= d);
    }
  }

  lemma EmptyTree()
    ensures TreeShaped(EMPTY) && DumpSafe(EMPTY) && Used(EMPTY) == 0
  {
    assert '\n' !in Render([]) by { assert Render([]) == "/"; }
    UsedStep(EMPTY, []);
    assert EMPTY - {[]} == map[];
  }

  lemma FirstSegment(fs: FS, q: Path)
    requires TreeShaped(fs) && q in fs && q != []
    ensures q[0] in ChildKeys(fs, [])
  {
    Ancestors(fs, q[..1], q);
    ChildKeysAre(fs, [], q[0]);
    assert [] + [q[0]] == q[..1];
  }

  lemma NoChildren(fs: FS)
    requires TreeShaped(fs)
    ensures ChildKeys(fs, []) == {} <==> fs == EMPTY
  {
    if ChildKeys(fs, []) == {} {
      forall q | q in fs ensures q == [] {
        if q != [] { FirstSegment(fs, q); }
      }
      assert fs == EMPTY;
    }
    if fs == EMPTY {
      forall k ensures k !in ChildKeys(fs, []) {
        ChildKeysAre(fs, [], k);
        assert [] + [k] == [k];
      }
    }
  }

  lemma LoadHeader(st: State, rest: string)
    ensures LoadLines(st, HEADER + rest) == LoadLines(st, rest)
  {
    var line := HEADER[..|HEADER| - 1];
    assert HEADER == line + "\n";
    assert '\n' !in line;
    ReadTurnLine(st, line, rest);
    assert line[0] == '#';
  }

  lemma RootDir(st: State)
    requires st.fs == EMPTY
    ensures DoMkdir(st, Render([])).0 == st
  {
    EmptyTree();
    NormalRender([]);
    NotBlockedAt(EMPTY, []);
  }

  lemma EmptyText()
    ensures DumpText(EMPTY) == HEADER + ("DIR " + Render([]) + "\n" + "")
  {
    EmptyTree();
    NoChildren(EMPTY);
    assert Render([]) == "/";
  }

  lemma EmptyLoads(st: State)
    ensures DoLoad(st, DumpText(EMPTY)) == Loaded(st.(fs := EMPTY))
  {
    var st0 := st.(fs := EMPTY);
    EmptyText();
    LoadHeader(st0, "DIR " + Render([]) + "\n" + "");
    LoadDirLine(st0, Render([]), "");
    RootDir(st0);
  }

  lemma TreeText(fs: FS)
    requires TreeShaped(fs) && fs != EMPTY
    ensures DumpText(fs) == HEADER + (ChildrenText(fs, [], InOrder(ChildKeys(fs, [])), Render([])) + "")
  {
    NoChildren(fs);
    assert Render([]) == "/";
    var text := ChildrenText(fs, [], InOrder(ChildKeys(fs, [])), "/");
    assert text + "" == text;
  }

  lemma AllBelowRoot(fs: FS)
    requires TreeShaped(fs)
    ensures EMPTY + Restrict(fs, BelowAny(fs, [], InOrder(ChildKeys(fs, [])))) == fs
  {
    BelowSplit(fs, []);
    forall q | q in fs ensures q == [] || q in BelowAny(fs, [], InOrder(ChildKeys(fs, []))) {
      assert q in Below(fs, []);
    }
  }

  lemma TreeLoads(fs: FS, st: State)
    requires TreeShaped(fs) && DumpSafe(fs) && FitsQuota(fs, st.quota) && !st.isSealed && fs != EMPTY
    ensures DoLoad(st, DumpText(fs)) == Loaded(st.(fs := fs))
  {
    EmptyTree();
    var st0 := st.(fs := EMPTY);
    var ks := InOrder(ChildKeys(fs, []));
    TreeText(fs);
    LoadHeader(st0, ChildrenText(fs, [], ks, Render([])) + "");
    RootKeys(fs);
    LoadChildren(st0, fs, [], ks, "");
    AllBelowRoot(fs);
  }

  lemma RootKeys(fs: FS)
    ensures var ks := InOrder(ChildKeys(fs, []));
      && Distinct(ks)
      && forall k | k in ks :: [] + [k] in fs && [] + [k] !in EMPTY
  {
    InOrderMembers(ChildKeys(fs, []));
    forall k | k in InOrder(ChildKeys(fs, [])) ensures [] + [k] in fs && [] + [k] !in EMPTY { ChildKeysAre(fs, [], k); }
  }

  lemma DumpLoads(fs: FS, st: State)
    requires TreeShaped(fs) && DumpSafe(fs) && FitsQuota(fs, st.quota) && (!st.isSealed || fs == EMPTY)
    ensures DoLoad(st, DumpText(fs)) == Loaded(st.(fs := fs))
  {
    if fs == EMPTY { EmptyLoads(st); } else { TreeLoads(fs, st); }
  }

  // ---------- Necessary: whatever a text loads is safe ----------

  lemma {:induction false} ScanCharacters(s: string, c: char)
    requires c !in s
    ensures (forall seg | seg in Scan(s).0 :: c !in seg) && c !in Scan(s).1
  {
    if s == "" {
    } else {
      assert s[|s| - 1] in s;
      ScanCharacters(s[..|s| - 1], c);
    }
  }

  lemma {:induction false} ResolveCharacters(parts: seq<string>, c: char)
    requires forall seg | seg in parts :: c !in seg
    ensures forall seg | seg in Resolve(parts) :: c !in seg
  {
    if parts == [] {
    } else {
      assert parts[|parts| - 1] in parts;
      ResolveCharacters(parts[..|parts| - 1], c);
    }
  }

  lemma NormalCharacters(s: string, c: char)
    requires c !in s && c != '/'
    ensures c !in Render(Normal(s))
  {
    ScanCharacters(s, c);
    ResolveCharacters(Split(s), c);
    JoinCharacters(Normal(s), c);
  }

  lemma PrefixCharacters(p: Path, q: Path, c: char)
    requires q <= p && c != '/' && c !in Render(p)
    ensures c !in Render(q)
  {
    JoinCharacters(p, c);
    JoinCharacters(q, c);
    assert forall i | 0 <= i < |q| :: q[i] == p[i];
  }

  lemma MakeDirsSafe(fs: FS, p: Path)
    requires DumpSafe(fs) && '\n' !in Render(p)
    ensures DumpSafe(MakeDirs(fs, p))
  {
    forall q | q in MakeDirs(fs, p) ensures SafeEntry(q, MakeDirs(fs, p)[q]) {
      MakeDirsAt(fs, p, q);
      if q in fs { assert SafeEntry(q, fs[q]); } else { PrefixCharacters(p, q, '\n'); }
    }
  }

  lemma MkdirSafe(st: State, path: string)
    requires DumpSafe(st.fs) && '\n' !in path
    ensures DumpSafe(DoMkdir(st, path).0.fs)
  {
    NormalCharacters(path, '\n');
    MakeDirsSafe(st.fs, Normal(path));
  }

  lemma WriteSafe(st: State, path: string, content: string)
    requires TreeShaped(st.fs) && DumpSafe(st.fs) && '\n' !in path && ' ' !in path && |content| <= MAX_STRING
    ensures DumpSafe(DoWrite(st, path, content).0.fs)
  {
    var p := Normal(path);
    NormalCharacters(path, '\n');
    NormalCharacters(path, ' ');
    ParentPrefix(p);
    PrefixCharacters(p, Parent(p), '\n');
    MakeDirsSafe(st.fs, Parent(p));
    var fs' := DoWrite(st, path, content).0.fs;
    forall q | q in fs' ensures SafeEntry(q, fs'[q]) {
      if q in st.fs { assert SafeEntry(q, st.fs[q]); }
      if q in MakeDirs(st.fs, Parent(p)) { assert SafeEntry(q, MakeDirs(st.fs, Parent(p))[q]); }
    }
  }

  lemma WriteFitsQuota(st: State, path: string, content: string)
    requires TreeShaped(st.fs) && FitsQuota(st.fs, st.quota)
    ensures FitsQuota(DoWrite(st, path, content).0.fs, st.quota)
  {
    WriteMeaning(st, path, content);
  }

  /** The tree a text loads, at any point of the loop, is one that a dump can carry. */
  ghost predicate Safe(st: State) {
    TreeShaped(st.fs) && DumpSafe(st.fs) && FitsQuota(st.fs, st.quota)
  }

  /** What loading one line keeps. */
  ghost predicate KeepsSafe(st: State, next: State) {
    Safe(next) && (st.isSealed ==> next == st) && next == st.(fs := next.fs)
  }

  lemma ReadLineSafe(st: State, line: string, rest: string)
    requires Safe(st) && '\n' !in line
    ensures ReadLine(st, line, rest).Next? ==> KeepsSafe(st, ReadLine(st, line, rest).st)
  {
    if "DIR " <= line {
      var path := line[4..];
      assert '\n' !in path;
      MkdirSafe(st, path);
      MkdirKeepsShape(st, path);
      MkdirMeaning(st, path);
    } else if "FILE " <= line {
      var body := line[5..];
      assert '\n' !in body;
      if ParseFileLine(body).FileLine? {
        var path, content := ParseFileLine(body).path, ReadBlock(rest, ParseFileLine(body).len);
        WriteSafe(st, path, content);
        WriteKeepsShape(st, path, content);
        WriteFitsQuota(st, path, content);
      }
    }
  }

  lemma {:induction false} LoadedIsSafe(st: State, text: string)
    requires Safe(st)
    ensures Safe(LoadLines(st, text).st)
    ensures st.isSealed ==> LoadLines(st, text).st == st
    ensures LoadLines(st, text).st == st.(fs := LoadLines(st, text).st.fs)
    decreases |text|
  {
    if text == "" {
    } else {
      var i := Find(text, '\n');
      ReadLineSafe(st, text[..i], Rest(text, i));
      if ReadTurn(st, text).Next? { LoadedIsSafe(ReadTurn(st, text).st, ReadTurn(st, text).rest); }
    }
  }

  // ---------- The round trip ----------

  /**
   Dumping a tree and loading the text restores the tree, entry names included, exactly when
   every node is named after its key, no path contains a newline, no file path contains a space, no
   file is longer than a string can be, the quota admits the whole tree, and the file system is
   not sealed (a sealed one only ever loads the empty tree).
   */
  lemma RoundTripExactly(fs: FS, st: State)
    requires TreeShaped(fs)
    ensures DoLoad(st, DumpText(fs)) == Loaded(st.(fs := fs))
       <==> DumpSafe(fs) && FitsQuota(fs, st.quota) && (!st.isSealed || fs == EMPTY)
  {
    EmptyTree();
    LoadedIsSafe(st.(fs := EMPTY), DumpText(fs));
    if DumpSafe(fs) && FitsQuota(fs, st.quota) && (!st.isSealed || fs == EMPTY) { DumpLoads(fs, st); }
  }

  /** The copied node has no name, so the tree after a copy is never one a dump can carry. */
  lemma CopiedIsUnsafe(st: State, from: string, to: string, recursive: bool)
    requires TreeShaped(st.fs) && DoCopy(st, from, to, recursive).1
    ensures !DumpSafe(DoCopy(st, from, to, recursive).0.fs)
  {
    var s, d, h := Normal(from), Normal(to), DoCopy(st, from, to, recursive).0.fs;
    CopyMeaning(st, from, to, recursive);
    var g := MakeDirs(st.fs, Parent(d));
    MakeDirsAt(st.fs, Parent(d), s);
    SubtreeAt(g, s, []);
    SubtreeAt(h, d, []);
    assert s + [] == s && d + [] == d;
    assert d in h && h[d].name == "";
    assert Last(d) in d && Plain(Last(d));
    assert !SafeEntry(d, h[d]);
  }

  /** A successful copy always leaves a tree that its own dump does not restore. */
  lemma CopyBreaksRoundTrip(st: State, from: string, to: string, recursive: bool, target: State)
    requires TreeShaped(st.fs) && DoCopy(st, from, to, recursive).1
    ensures var h := DoCopy(st, from, to, recursive).0.fs;
      [] in h && DoLoad(target, DumpText(h)) != Loaded(target.(fs := h))
  {
    CopyKeepsShape(st, from, to, recursive);
    CopiedIsUnsafe(st, from, to, recursive);
    RoundTripExactly(DoCopy(st, from, to, recursive).0.fs, target);
  }

  /**
   A move keeps the moved node's old name, so from a tree that can be dumped the result can be
   dumped exactly when the last segment stays the same and the new paths still fit the text.
   */
  lemma MoveKeepsDumpable(st: State, from: string, to: string)
    requires TreeShaped(st.fs) && DumpSafe(st.fs) && DoMove(st, from, to).1 && !(Normal(from) <= Normal(to))
    ensures DumpSafe(DoMove(st, from, to).0.fs)
       <==> && Last(Normal(from)) == Last(Normal(to))
            && '\n' !in Render(Parent(Normal(to)))
            && (' ' in Render(Normal(to)) ==>
                  forall r | r in Subtree(st.fs, Normal(from)) :: Subtree(st.fs, Normal(from))[r].Dir?)
  {
    var s, d, h := Normal(from), Normal(to), DoMove(st, from, to).0.fs;
    MoveMeaning(st, from, to);
    MoveKeepsShape(st, from, to);
    ParentPrefix(d);
    ParentPrefix(s);
    SubtreeAt(st.fs, s, []);
    SubtreeAt(h, d, []);
    assert s + [] == s && d + [] == d;
    assert SafeEntry(s, st.fs[s]);
    if DumpSafe(h) {
      assert SafeEntry(d, h[d]);
      PrefixCharacters(d, Parent(d), '\n');
      forall r | r in Subtree(st.fs, s) && ' ' in Render(d) ensures Subtree(st.fs, s)[r].Dir? {
        SubtreeAt(h, d, r);
        assert SafeEntry(d + r, h[d + r]);
        if ' ' !in Render(d + r) { PrefixCharacters(d + r, d, ' '); }
      }
    }
    if Last(s) == Last(d) && '\n' !in Render(Parent(d))
      && (' ' in Render(d) ==> forall r | r in Subtree(st.fs, s) :: Subtree(st.fs, s)[r].Dir?) {
      MakeDirsSafe(st.fs, Parent(d));
      forall q | q in h ensures SafeEntry(q, h[q]) {
        if d <= q {
          MovedEntrySafe(st.fs, h, s, d, q);
        } else {
          assert q in h - Below(h, d);
          assert SafeEntry(q, MakeDirs(st.fs, Parent(d))[q]);
        }
      }
    }
  }

  lemma MovedEntrySafe(fs: FS, h: FS, s: Path, d: Path, q: Path)
    requires DumpSafe(fs) && Subtree(h, d) == Subtree(fs, s) && s in fs && s != [] && d != []
    requires d <= q && q in h && Last(s) == Last(d) && '\n' !in Render(Parent(d))
    requires ' ' in Render(d) ==> forall r | r in Subtree(fs, s) :: Subtree(fs, s)[r].Dir?
    ensures SafeEntry(q, h[q])
  {
    var r := q[|d|..];
    assert q == d + r;
    SubtreeAt(h, d, r);
    SubtreeAt(fs, s, r);
    assert SafeEntry(s + r, fs[s + r]);
    MovedLast(s, d, r);
    MovedCharacters(s, d, r, '\n');
    MovedCharacters(s, d, r, ' ');
  }

  lemma MovedLast(s: Path, d: Path, r: Path)
    requires s != [] && d != [] && Last(s) == Last(d)
    ensures Last(d + r) == Last(s + r)
  {
  }

  lemma MovedCharacters(s: Path, d: Path, r: Path, c: char)
    requires s != [] && d != [] && Last(s) == Last(d) && c != '/'
    ensures c in Render(d + r) ==> c in Render(d) || c in Render(s + r)
    ensures c in Render(d) ==> c in Render(Parent(d)) || c in Render(s + r)
  {
    ParentPrefix(d);
    JoinCharacters(d + r, c);
    JoinCharacters(d, c);
    JoinCharacters(s + r, c);
    JoinCharacters(Parent(d), c);
    if c in Render(d + r) {
      var i :| 0 <= i < |d + r| && c in (d + r)[i];
      if i < |d| {
        assert c in d[i];
      } else {
        assert c in (s + r)[i - |d| + |s|];
      }
    }
    assert d[|d| - 1] == (s + r)[|s| - 1];
  }
}
