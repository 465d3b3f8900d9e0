/** Steps of the tree operations on values: texts taken apart, case splits, and what layouts become. */
module TreeSteps {
  import opened Strings
  import opened Paths
  import opened FileSystem
  import opened FileSystemLaws
  import opened Nodes
  import opened Dump
  import opened RoundTrip
  import opened Transactions

  // ---------- Taking a canonical text apart ----------

  /** `find_last_of('/')`; -1 stands for npos. */
  function LastSlash(s: string): (i: int)
    ensures -1 <= i < |s|
  {
    if s == "" then -1
    else if s[|s| - 1] == '/' then |s| - 1
    else LastSlash(s[..|s| - 1])
  }

  lemma {:induction false} LastSlashOf(a: string, seg: string)
    requires '/' !in seg
    ensures LastSlash(a + "/" + seg) == |a|
  {
    if seg == "" {
    } else {
      var init := seg[..|seg| - 1];
      assert seg[|seg| - 1] in seg;
      LastSlashOf(a, init);
      assert (a + "/" + seg)[..|a + "/" + seg| - 1] == a + "/" + init;
    }
  }

  /** The last slash of a canonical text separates the parent from the last segment. */
  lemma CanonicalParts(p: Path)
    requires Canonical(p) && p != []
    ensures var s, i := Render(p), LastSlash(Render(p));
      && i >= 0 && s[i + 1..] == Last(p)
      && Normal(s[..i]) == Parent(p)
      && (i == 0 ==> Parent(p) == [])
  {
    ParentPrefix(p);
    var q, seg := Parent(p), Last(p);
    assert seg in p;
    RenderChild(q, seg);
    NormalRender(q);
    if q == [] {
      assert Render(p) == "" + "/" + seg;
      TextParts("", seg);
    } else {
      TextParts(Render(q), seg);
    }
  }

  lemma TextParts(a: string, seg: string)
    requires '/' !in seg
    ensures LastSlash(a + "/" + seg) == |a|
    ensures (a + "/" + seg)[..|a|] == a && (a + "/" + seg)[|a| + 1..] == seg
  {
    LastSlashOf(a, seg);
  }

  lemma CanonicalText(p: Path)
    requires Canonical(p)
    ensures Render(p) != "" && (Render(p) == "/" <==> p == [])
  {
    RenderClean(p);
  }

  // ---------- One more segment ----------

  lemma MakeDirsStep(fs: FS, path: Path, seg: string)
    requires TreeShaped(fs) && !Blocked(fs, path)
    ensures var d := path + [seg];
      && (d in MakeDirs(fs, path) <==> d in fs)
      && (d in fs ==> MakeDirs(fs, path) == fs && MakeDirs(fs, d) == fs)
      && (d in fs ==> (Blocked(fs, d) <==> fs[d].File?))
      && (d !in fs ==> MakeDirs(fs, d) == MakeDirs(fs, path)[d := Dir(seg)] && !Blocked(fs, d))
  {
    var d := path + [seg];
    assert Parent(d) == path && Last(d) == seg;
    MakeDirsAt(fs, path, d);
    NotBlockedAt(fs, d);
    if d in fs {
      NotBlockedAt(fs, path);
    } else {
      forall q ensures q in MakeDirs(fs, d) <==> q in MakeDirs(fs, path) || q == d
        ensures q in MakeDirs(fs, path) ==> MakeDirs(fs, d)[q] == MakeDirs(fs, path)[q]
      {
        MakeDirsAt(fs, d, q);
        MakeDirsAt(fs, path, q);
        if q <= d && q != d { assert q <= path; }
      }
      MakeDirsAt(fs, d, d);
      forall q | q <= d && q in fs ensures !fs[q].File? {
        if q != d { assert q <= path; }
      }
    }
  }

  // ---------- Cases and layouts ----------

  lemma UpdateTwice(fs: FS, p: Path, a: Entry, b: Entry)
    ensures fs[p := a][p := b] == fs[p := b]
    ensures fs[p := a][p] == a
  {
  }

  lemma NewName(p: Path)
    requires Canonical(p) && p != []
    ensures p == Parent(p) + [Last(p)] && Plain(Last(p)) && Last(p) != "." && Last(p) != ".."
  {
    ParentPrefix(p);
    assert Last(p) in p;
  }

  /** At a slash the segments read so far are a front part of the path, at the end they are all of it. */
  lemma OnTheWay(p: Path, norm: string, i: nat)
    requires Canonical(p) && norm == Render(p) && i <= |norm|
    ensures i < |norm| && norm[i] == '/' ==> Flush(Scan(norm[..i]).0, Scan(norm[..i]).1) <= p
    ensures i == |norm| ==> Flush(Scan(norm[..i]).0, Scan(norm[..i]).1) == p
  {
    SplitRender(p);
    ScanPrefix(norm, i);
    assert norm[..|norm|] == norm;
  }

  lemma NewLeafShape(fs: FS, path: Path, seg: string, e: Entry)
    requires TreeShaped(fs) && path in fs && fs[path].Dir? && path + [seg] !in fs
    requires Plain(seg) && seg != "." && seg != ".."
    ensures TreeShaped(fs[path + [seg] := e])
  {
    ChildPath(path, seg);
    InsertShape(fs, path + [seg], e);
  }

  lemma MissingAncestor(fs: FS, q: Path, p: Path)
    requires TreeShaped(fs) && q !in fs && q <= p
    ensures p !in fs
  {
    if p in fs { Ancestors(fs, q, p); }
  }

  lemma SubtreeOfRoot(fs: FS)
    ensures Subtree(fs, []) == fs
  {
    forall q ensures q in Subtree(fs, []) <==> q in fs ensures q in fs ==> Subtree(fs, [])[q] == fs[q] {
      SubtreeAt(fs, [], q);
      assert [] + q == q;
    }
  }

  lemma UsedRoot(fs: FS, p: Path)
    requires p in fs
    ensures Used(FirstIn(Subtree(fs, p), [])) == fs[p].Size()
  {
    SubtreeAt(fs, p, []);
    assert p + [] == p;
    var t := FirstIn(Subtree(fs, p), []);
    UsedStep(t, []);
    assert t - {[]} == map[];
  }

  lemma UsedFirstsStep(fs: FS, p: Path, ks: seq<string>, i: nat)
    requires i < |ks| && ks[i] !in ks[..i]
    ensures Used(FirstIn(Subtree(fs, p), ks[..i + 1]))
         == Used(FirstIn(Subtree(fs, p), ks[..i])) + Used(Subtree(fs, p + [ks[i]]))
  {
    var t := Subtree(fs, p);
    var part, child := Unnamed(FirstIn(t, ks[..i])), Unnamed(Subtree(fs, p + [ks[i]]));
    CloneStep(fs, p, ks, i);
    forall r | r in Graft([ks[i]], child) ensures r !in part { GraftAt([ks[i]], child, r); }
    UsedUnion(part, Graft([ks[i]], child));
    UsedGraft([ks[i]], child);
    UsedUnnamed(Subtree(fs, p + [ks[i]]));
    UsedUnnamed(FirstIn(t, ks[..i]));
    UsedUnnamed(FirstIn(t, ks[..i + 1]));
  }

  lemma OldSizeFits(fs: FS, p: Path)
    ensures Used(fs) >= SizeAt(fs, p)
  {
    if p in fs { UsedStep(fs, p); }
  }

  /** A node without children is alone below its path; a file always is. */
  lemma EmptyNode(lay: Layout, p: Path)
    requires LinkedBy(lay.at, lay.kids) && lay.fs.Keys == lay.at.Keys && p in lay.at && TreeShaped(lay.fs)
    ensures lay.fs[p].File? || lay.kids[p] == map[] <==> Below(lay.fs, p) == {p}
  {
    if lay.fs[p].File? {
      forall q | q in lay.fs && p <= q ensures q == p { Ancestors(lay.fs, p, q); }
    }
    forall q | q in lay.fs && p <= q && q != p ensures lay.kids[p] != map[] {
      assert q == p + q[|p|..];
      FirstSegmentIsKey(lay.at, lay.kids, p, q[|p|..]);
    }
    if lay.kids[p] != map[] {
      var k :| k in lay.kids[p];
      assert ChildrenAt(lay.at, lay.kids[p], p);
      assert p <= p + [k] && p + [k] in Below(lay.fs, p) && p + [k] != p;
    }
  }

  lemma RootKept(joins: bool, lay: Layout, dir: Path, base: string, sub: Layout)
    requires [] in lay.at && (joins ==> dir in lay.kids && [] in sub.at)
    ensures var all := if joins then WithHung(lay, dir, base, sub) else lay;
      && [] in all.at && all.at[[]] == lay.at[[]]
      && all.fs == (if joins then lay.fs + Graft(dir + [base], sub.fs) else lay.fs)
      && all.nodes <= lay.nodes + sub.nodes
  {
    if joins { GraftAt(dir + [base], sub.at, []); }
  }

  /** After the source has left, the destination's parent is outside exactly when it was below the source. */
  lemma Uprooted(lay: Layout, s: Path, d: Path)
    requires Closed(lay.at) && Separate(lay.at) && lay.fs.Keys == lay.kids.Keys == lay.at.Keys
    requires s in lay.at && s != [] && d != [] && d !in lay.at && Parent(s) in lay.at && Parent(d) in lay.at
    ensures var rest := Cut(lay, Parent(s), Last(s));
      && (s <= d ==> Outside(rest.at, lay.at[Parent(d)]))
      && (!(s <= d) ==> Parent(d) in rest.at && rest.at[Parent(d)] == lay.at[Parent(d)] && d !in rest.at)
      && rest.fs + Graft(d, Taken(lay, s).fs) == Relocate(lay.fs, s, d)
      && rest.fs == lay.fs - Below(lay.fs, s)
  {
    ParentPrefix(s);
    ParentPrefix(d);
    if s <= d {
      assert s != d && |s| < |d|;
      assert s <= Parent(d);
      assert AloneAt(lay.at, Parent(d));
    }
  }

  /** The tree after taking `s` away to `d`. */
  ghost function Moved(g: FS, s: Path, d: Path): FS {
    if s <= d then g - Below(g, s) else Relocate(g, s, d)
  }

  /** The tree after copying `s` to `d`. */
  ghost function Copied(g: FS, s: Path, d: Path): FS {
    g + Graft(d, Unnamed(Subtree(g, s)))
  }

  /** A source, a free destination, and no file on the way to it. */
  ghost predicate MoveAllowed(fs: FS, s: Path, d: Path) {
    s in fs && d !in fs && !Blocked(fs, Parent(d))
  }

  lemma DestinationFree(fs: FS, s: Path, d: Path)
    requires TreeShaped(fs) && d != []
    ensures d in MakeDirs(fs, Parent(d)) <==> d in fs
    ensures d in fs ==> MakeDirs(fs, Parent(d)) == fs
    ensures s in fs ==> s in MakeDirs(fs, Parent(d))
  {
    ParentPrefix(d);
    MakeDirsAt(fs, Parent(d), d);
    MakeDirsAt(fs, Parent(d), s);
    if d in fs { ExistingDestination(fs, d); }
  }

  lemma MoveCases(st: State, from: string, to: string)
    requires TreeShaped(st.fs)
    ensures var s, d := Normal(from), Normal(to);
      DoMove(st, from, to) ==
        if st.isSealed || s == [] || d == [] || !MoveAllowed(st.fs, s, d) then (st, false)
        else (st.(fs := Moved(MakeDirs(st.fs, Parent(d)), s, d)), true)
  {
    if Normal(to) != [] { DestinationFree(st.fs, Normal(from), Normal(to)); }
  }

  lemma CopyCases(st: State, from: string, to: string, recursive: bool)
    requires TreeShaped(st.fs)
    ensures var s, d := Normal(from), Normal(to);
      DoCopy(st, from, to, recursive) ==
        if CopyAllowed(st, s, d, recursive) then (st.(fs := Copied(MakeDirs(st.fs, Parent(d)), s, d)), true)
        else (st, false)
  {
    if Normal(to) != [] { DestinationFree(st.fs, Normal(from), Normal(to)); }
  }

  lemma KeysAreChildKeys(lay: Layout, p: Path)
    requires LinkedBy(lay.at, lay.kids) && lay.fs.Keys == lay.at.Keys && p in lay.at
    ensures ChildKeys(lay.fs, p) == lay.kids[p].Keys
  {
    assert ChildrenAt(lay.at, lay.kids[p], p);
    forall k ensures k in ChildKeys(lay.fs, p) <==> k in lay.kids[p] { ChildKeysAre(lay.fs, p, k); }
  }

  lemma Concat3(a: string, b: string, c: string)
    ensures a + b + c == a + (b + c)
  {
  }

  lemma DirAppended(text: string, path: string, inner: string)
    ensures text + "DIR " + path + "\n" + inner == text + ("DIR " + path + "\n" + inner)
  {
    Concat3(text, "DIR ", path);
    Concat3(text, "DIR " + path, "\n");
    Concat3(text, "DIR " + path + "\n", inner);
  }

  lemma FileAppended(text: string, path: string, number: string, content: string)
    ensures text + "FILE " + path + " " + number + "\n" + content + "\n"
         == text + ("FILE " + path + " " + number + "\n" + content + "\n")
  {
    Concat3(text, "FILE ", path);
    Concat3(text, "FILE " + path, " ");
    Concat3(text, "FILE " + path + " ", number);
    Concat3(text, "FILE " + path + " " + number, "\n");
    Concat3(text, "FILE " + path + " " + number + "\n", content);
    Concat3(text, "FILE " + path + " " + number + "\n" + content, "\n");
  }

  lemma NodeTextAppended(fs: FS, p: Path, prefix: string, text: string, path: string)
    requires p in fs && path == PrintedPath(prefix, fs[p].name)
    ensures text + NodeText(fs, p, prefix) ==
      match fs[p]
      case Dir(_) => text + "DIR " + path + "\n" + ChildrenText(fs, p, InOrder(ChildKeys(fs, p)), path)
      case File(_, content) => text + "FILE " + path + " " + Decimal(|content|) + "\n" + content + "\n"
  {
    match fs[p]
    case Dir(_) => DirAppended(text, path, ChildrenText(fs, p, InOrder(ChildKeys(fs, p)), path));
    case File(_, content) => FileAppended(text, path, Decimal(|content|), content);
  }

  lemma LoadTurn(st: State, text: string)
    requires text != ""
    ensures ReadTurn(st, text).Throw? ==> LoadLines(st, text) == Threw(st)
    ensures ReadTurn(st, text).Next? ==>
              LoadLines(st, text) == LoadLines(ReadTurn(st, text).st, ReadTurn(st, text).rest)
  {
  }

  /** Loading touches the tree only. */
  lemma RollbackFrame(st: State)
    ensures st.tx.None? ==> DoRollback(st).1 == Returned(false) && DoRollback(st).0 == st
    ensures st.tx.Some? ==>
      var loaded := DoLoad(st, st.tx.value);
      && DoRollback(st).1 == (if loaded.Loaded? then Returned(true) else Exception)
      && DoRollback(st).0.fs == loaded.st.fs
      && DoRollback(st).0.tx == (if loaded.Loaded? then None else st.tx)
      && DoRollback(st).0 == st.(fs := DoRollback(st).0.fs, tx := DoRollback(st).0.tx)
  {
    if st.tx.Some? {
      EmptyTree();
      LoadedIsSafe(st.(fs := EMPTY), st.tx.value);
    }
  }
}
