/** The explicit-stack walk and the consistency report, on values. */
module Walks {
  import opened Strings
  import opened Paths
  import opened FileSystem
  import opened FileSystemLaws
  import opened Dump
  import opened Nodes
  import opened TreeSteps

  // ---------- Walking ----------

  datatype Visit = Visit(path: string, isDir: bool, size: nat)

  ghost function VisitOf(fs: FS, p: Path): Visit
    requires p in fs
  {
    Visit(Render(p), fs[p].Dir?, fs[p].Size())
  }

  ghost function VisitsOf(fs: FS, order: seq<Path>): seq<Visit>
    requires forall p | p in order :: p in fs
  {
    seq(|order|, i requires 0 <= i < |order| => VisitOf(fs, order[i]))
  }

  lemma {:induction false} DistinctCount(order: seq<Path>, s: set<Path>)
    requires NoRepeat(order) && forall p :: p in order <==> p in s
    ensures |order| == |s|
    decreases |order|
  {
    if order != [] {
      var n := |order| - 1;
      var front, p := order[..n], order[n];
      assert order == front + [p];
      DistinctCount(front, s - {p});
    } else {
      assert s == {};
    }
  }

  /** As many visits as entries, and every entry among them. */
  lemma VisitsCover(fs: FS, order: seq<Path>)
    requires Distinct(order) && forall p :: p in order <==> p in fs
    ensures |VisitsOf(fs, order)| == |fs|
    ensures forall p | p in fs :: VisitOf(fs, p) in VisitsOf(fs, order)
  {
    DistinctNoRepeat(order);
    DistinctCount(order, fs.Keys);
    assert |fs.Keys| == |fs|;
    forall p | p in fs ensures VisitOf(fs, p) in VisitsOf(fs, order) {
      var i :| 0 <= i < |order| && order[i] == p;
      assert VisitsOf(fs, order)[i] == VisitOf(fs, p);
    }
  }

  lemma VisitsStep(fs: FS, order: seq<Path>, p: Path)
    requires p in fs && forall q | q in order :: q in fs
    ensures VisitsOf(fs, order + [p]) == VisitsOf(fs, order) + [VisitOf(fs, p)]
  {
  }

  /** The stack of nodes and path texts follows a stack of paths. */
  ghost predicate Tracks(lay: Layout, texts: seq<string>, stack: seq<Node>, paths: seq<Path>) {
    && |texts| == |stack| == |paths|
    && forall j | 0 <= j < |paths| :: paths[j] in lay.at && lay.at[paths[j]] == stack[j] && texts[j] == Render(paths[j])
  }

  ghost function Unvisited(fs: FS, order: seq<Path>): set<Path> { fs.Keys - (set q | q in order) }

  lemma TracksPush(lay: Layout, texts: seq<string>, stack: seq<Node>, paths: seq<Path>, q: Path, text: string, n: Node)
    requires Tracks(lay, texts, stack, paths) && q in lay.at && lay.at[q] == n && text == Render(q)
    ensures Tracks(lay, texts + [text], stack + [n], paths + [q])
  {
  }

  lemma OneMoreChild(paths: seq<Path>, p: Path, ks: seq<string>, i: nat)
    requires i < |ks|
    ensures paths + Children(p, ks[..i + 1]) == paths + Children(p, ks[..i]) + [p + [ks[i]]]
  {
  }

  ghost predicate Covered(fs: FS, order: seq<Path>, paths: seq<Path>) {
    forall q | q in fs && q !in order :: OnStack(paths, q)
  }

  ghost predicate OffStack(order: seq<Path>, paths: seq<Path>) {
    forall q, j | q in order && 0 <= j < |paths| :: !(paths[j] <= q)
  }

  ghost predicate Incomparable(paths: seq<Path>) {
    forall i, j | 0 <= i < |paths| && 0 <= j < |paths| && i != j :: !(paths[i] <= paths[j])
  }

  /** Every entry is either visited or below exactly one path on the stack. */
  ghost predicate Walking(fs: FS, order: seq<Path>, paths: seq<Path>) {
    && Distinct(order)
    && (forall q | q in order :: q in fs)
    && (forall j | 0 <= j < |paths| :: paths[j] in fs)
    && Covered(fs, order, paths) && OffStack(order, paths) && Incomparable(paths)
  }

  ghost predicate OnStack(paths: seq<Path>, q: Path) { exists j :: 0 <= j < |paths| && paths[j] <= q }

  ghost function Children(p: Path, ks: seq<string>): seq<Path> {
    seq(|ks|, i requires 0 <= i < |ks| => p + [ks[i]])
  }

  lemma WalkStart(fs: FS)
    requires TreeShaped(fs)
    ensures Walking(fs, [], [[]]) && Render([]) == "/" && VisitsOf(fs, []) == []
  {
    forall q | q in fs ensures OnStack([[]], q) { assert [[]][0] <= q; }
  }

  lemma KeysOf(lay: Layout, p: Path)
    requires LinkedBy(lay.at, lay.kids) && lay.fs.Keys == lay.at.Keys && p in lay.at && TreeShaped(lay.fs)
    ensures var ks := if lay.fs[p].Dir? then InOrder(lay.kids[p].Keys) else [];
      Distinct(ks) && forall k :: k in ks <==> p + [k] in lay.fs
  {
    assert ChildrenAt(lay.at, lay.kids[p], p);
    InOrderMembers(lay.kids[p].Keys);
    forall k | p + [k] in lay.fs ensures lay.fs[p].Dir? { ChildPath(p, k); }
  }

  ghost function Pushed(paths: seq<Path>, ks: seq<string>): seq<Path>
    requires paths != []
  {
    paths[..|paths| - 1] + Children(paths[|paths| - 1], ks)
  }

  lemma PushedAt(paths: seq<Path>, ks: seq<string>, j: nat)
    requires paths != [] && j < |Pushed(paths, ks)|
    ensures j < |paths| - 1 ==> Pushed(paths, ks)[j] == paths[j]
    ensures j >= |paths| - 1 ==>
              j - (|paths| - 1) < |ks| && Pushed(paths, ks)[j] == paths[|paths| - 1] + [ks[j - (|paths| - 1)]]
  {
  }

  lemma StillOnStack(fs: FS, paths: seq<Path>, ks: seq<string>, q: Path)
    requires TreeShaped(fs) && paths != [] && (forall k :: k in ks <==> paths[|paths| - 1] + [k] in fs)
    requires q in fs && q != paths[|paths| - 1] && OnStack(paths, q)
    ensures OnStack(Pushed(paths, ks), q)
  {
    var last := |paths| - 1;
    var j :| 0 <= j < |paths| && paths[j] <= q;
    if j < last {
      PushedAt(paths, ks, j);
    } else {
      var c := paths[last] + [q[|paths[last]|]];
      Ancestors(fs, c, q);
      var i :| 0 <= i < |ks| && ks[i] == q[|paths[last]|];
      PushedAt(paths, ks, last + i);
    }
  }

  lemma PushedApart(paths: seq<Path>, ks: seq<string>, i: nat, j: nat)
    requires paths != [] && Distinct(ks) && i < |Pushed(paths, ks)| && j < |Pushed(paths, ks)| && i != j
    requires Incomparable(paths)
    ensures !(Pushed(paths, ks)[i] <= Pushed(paths, ks)[j])
  {
    var last := |paths| - 1;
    var p := paths[last];
    PushedAt(paths, ks, i);
    PushedAt(paths, ks, j);
    if i < last && j >= last {
      assert !(paths[i] <= p) && !(p <= paths[i]);
    } else if i >= last && j < last {
      assert !(p <= paths[j]);
    } else if i >= last && j >= last {
      var a, b := p + [ks[i - last]], p + [ks[j - last]];
      assert a[|p|] == ks[i - last] && b[|p|] == ks[j - last];
    }
  }

  lemma CoveredStep(fs: FS, order: seq<Path>, paths: seq<Path>, ks: seq<string>)
    requires TreeShaped(fs) && Covered(fs, order, paths) && paths != []
    requires forall k :: k in ks <==> paths[|paths| - 1] + [k] in fs
    ensures Covered(fs, order + [paths[|paths| - 1]], Pushed(paths, ks))
  {
    var p := paths[|paths| - 1];
    forall q | q in fs && q !in order + [p] ensures OnStack(Pushed(paths, ks), q) {
      assert q !in order && q != p;
      StillOnStack(fs, paths, ks, q);
    }
  }

  lemma IncomparableStep(paths: seq<Path>, ks: seq<string>)
    requires Incomparable(paths) && paths != [] && Distinct(ks)
    ensures Incomparable(Pushed(paths, ks))
  {
    var next := Pushed(paths, ks);
    forall i, j | 0 <= i < |next| && 0 <= j < |next| && i != j ensures !(next[i] <= next[j]) {
      PushedApart(paths, ks, i, j);
    }
  }

  /** Popping a path, visiting it and pushing its children. */
  lemma WalkStep(fs: FS, order: seq<Path>, paths: seq<Path>, ks: seq<string>)
    requires TreeShaped(fs) && Walking(fs, order, paths) && paths != [] && Distinct(ks)
    requires forall k :: k in ks <==> paths[|paths| - 1] + [k] in fs
    ensures paths[|paths| - 1] !in order
    ensures Walking(fs, order + [paths[|paths| - 1]], Pushed(paths, ks))
  {
    var p, next := paths[|paths| - 1], Pushed(paths, ks);
    assert p <= p;
    CoveredStep(fs, order, paths, ks);
    IncomparableStep(paths, ks);
    forall j | 0 <= j < |next| ensures next[j] in fs { PushedAt(paths, ks, j); }
  }

  // ---------- The order of the walk ----------

  /** An entry, then its children from the last key to the first, each with everything below it. */
  ghost function Preorder(fs: FS, p: Path): seq<Path>
    requires p in fs
    decreases Below(fs, p), 1, 0
  {
    [p] + PreorderAll(fs, p, InOrder(ChildKeys(fs, p)))
  }

  ghost function PreorderAll(fs: FS, p: Path, ks: seq<string>): seq<Path>
    requires p in fs
    decreases Below(fs, p), 0, |ks|
  {
    if ks == [] then []
    else
      var n := |ks| - 1;
      BelowShrinks(fs, p, ks[n]);
      (if p + [ks[n]] in fs then Preorder(fs, p + [ks[n]]) else []) + PreorderAll(fs, p, ks[..n])
  }

  /** What is still to come when these paths are on the stack. */
  ghost function StackOrder(fs: FS, paths: seq<Path>): seq<Path>
    requires forall p | p in paths :: p in fs
  {
    if paths == [] then []
    else
      var n := |paths| - 1;
      Preorder(fs, paths[n]) + StackOrder(fs, paths[..n])
  }

  lemma StackPush(fs: FS, paths: seq<Path>, q: Path)
    requires q in fs && forall p | p in paths :: p in fs
    ensures StackOrder(fs, paths + [q]) == Preorder(fs, q) + StackOrder(fs, paths)
  {
    assert (paths + [q])[..|paths|] == paths;
  }

  lemma {:induction false} StackOfChildren(fs: FS, paths: seq<Path>, p: Path, ks: seq<string>)
    requires p in fs && (forall q | q in paths :: q in fs) && forall k | k in ks :: p + [k] in fs
    requires forall q | q in paths + Children(p, ks) :: q in fs
    ensures StackOrder(fs, paths + Children(p, ks)) == PreorderAll(fs, p, ks) + StackOrder(fs, paths)
    decreases |ks|
  {
    if ks == [] {
      assert paths + Children(p, ks) == paths;
    } else {
      var n := |ks| - 1;
      var c, lower := p + [ks[n]], paths + Children(p, ks[..n]);
      LastChild(paths, p, ks);
      LowerThere(fs, lower, c);
      StackPush(fs, lower, c);
      StackOfChildren(fs, paths, p, ks[..n]);
      AllFromLast(fs, p, ks);
      Regrouped(Preorder(fs, c), PreorderAll(fs, p, ks[..n]), StackOrder(fs, paths));
    }
  }

  lemma LastChild(paths: seq<Path>, p: Path, ks: seq<string>)
    requires ks != []
    ensures paths + Children(p, ks) == paths + Children(p, ks[..|ks| - 1]) + [p + [ks[|ks| - 1]]]
  {
    OneMoreChild(paths, p, ks, |ks| - 1);
    assert ks[..|ks|] == ks;
  }

  lemma LowerThere(fs: FS, lower: seq<Path>, c: Path)
    requires forall q | q in lower + [c] :: q in fs
    ensures c in fs && forall q | q in lower :: q in fs
  {
    assert c in lower + [c];
    assert forall q | q in lower :: q in lower + [c];
  }

  lemma Regrouped(a: seq<Path>, b: seq<Path>, c: seq<Path>)
    ensures a + (b + c) == a + b + c
  {
  }

  lemma AllFromLast(fs: FS, p: Path, ks: seq<string>)
    requires p in fs && ks != [] && p + [ks[|ks| - 1]] in fs
    ensures PreorderAll(fs, p, ks) == Preorder(fs, p + [ks[|ks| - 1]]) + PreorderAll(fs, p, ks[..|ks| - 1])
  {
  }

  lemma StackOfPushed(fs: FS, front: seq<Path>, p: Path, ks: seq<string>)
    requires p in fs && (forall q | q in front :: q in fs) && forall q | q in front + Children(p, ks) :: q in fs
    requires ks == InOrder(ChildKeys(fs, p)) && forall k | k in ks :: p + [k] in fs
    ensures [p] + StackOrder(fs, front + Children(p, ks)) == Preorder(fs, p) + StackOrder(fs, front)
  {
    StackOfChildren(fs, front, p, ks);
  }

  /** Popping, visiting and pushing goes on in this order. */
  lemma OrderStep(fs: FS, order: seq<Path>, paths: seq<Path>, ks: seq<string>)
    requires paths != [] && (forall p | p in paths :: p in fs) && (forall p | p in Pushed(paths, ks) :: p in fs)
    requires ks == InOrder(ChildKeys(fs, paths[|paths| - 1])) && forall k | k in ks :: paths[|paths| - 1] + [k] in fs
    ensures order + [paths[|paths| - 1]] + StackOrder(fs, Pushed(paths, ks)) == order + StackOrder(fs, paths)
  {
    var n := |paths| - 1;
    var later := StackOrder(fs, Pushed(paths, ks));
    StackOfPushed(fs, paths[..n], paths[n], ks);
    assert [paths[n]] + later == StackOrder(fs, paths);
    assert order + [paths[n]] + later == order + ([paths[n]] + later);
  }

  lemma NoKeysOfFile(fs: FS, p: Path)
    requires TreeShaped(fs) && p in fs && fs[p].File?
    ensures InOrder(ChildKeys(fs, p)) == []
  {
    forall k ensures k !in ChildKeys(fs, p) {
      ChildKeysAre(fs, p, k);
      ChildPath(p, k);
    }
    assert ChildKeys(fs, p) == {};
  }

  /** The same for the keys of the nodes. */
  lemma WalkOrder(lay: Layout, order: seq<Path>, paths: seq<Path>, ks: seq<string>)
    requires LinkedBy(lay.at, lay.kids) && lay.fs.Keys == lay.at.Keys && TreeShaped(lay.fs)
    requires paths != [] && (forall p | p in paths :: p in lay.fs) && (forall p | p in Pushed(paths, ks) :: p in lay.fs)
    requires forall k :: k in ks <==> paths[|paths| - 1] + [k] in lay.fs
    requires var p := paths[|paths| - 1]; ks == if lay.fs[p].Dir? then InOrder(lay.kids[p].Keys) else []
    ensures order + [paths[|paths| - 1]] + StackOrder(lay.fs, Pushed(paths, ks)) == order + StackOrder(lay.fs, paths)
  {
    var p := paths[|paths| - 1];
    if lay.fs[p].Dir? { KeysAreChildKeys(lay, p); } else { NoKeysOfFile(lay.fs, p); }
    OrderStep(lay.fs, order, paths, ks);
  }

  /** In this order every directory comes before everything in it. */
  lemma {:induction false} ParentsFirst(fs: FS, p: Path, i: nat)
    requires p in fs && i < |Preorder(fs, p)|
    ensures Preorder(fs, p)[0] == p
    ensures i > 0 ==> Parent(Preorder(fs, p)[i]) in Preorder(fs, p)[..i]
    decreases Below(fs, p), 1, 0
  {
    var rest := PreorderAll(fs, p, InOrder(ChildKeys(fs, p)));
    if i > 0 {
      ParentsFirstAmong(fs, p, InOrder(ChildKeys(fs, p)), i - 1);
      assert Preorder(fs, p)[..i] == [p] + rest[..i - 1];
    }
  }

  lemma {:induction false} ParentsFirstAmong(fs: FS, p: Path, ks: seq<string>, i: nat)
    requires p in fs && i < |PreorderAll(fs, p, ks)|
    ensures var all := PreorderAll(fs, p, ks); Parent(all[i]) == p || Parent(all[i]) in all[..i]
    decreases Below(fs, p), 0, |ks|
  {
    var n := |ks| - 1;
    var c := p + [ks[n]];
    BelowShrinks(fs, p, ks[n]);
    var first := if c in fs then Preorder(fs, c) else [];
    var rest, all := PreorderAll(fs, p, ks[..n]), PreorderAll(fs, p, ks);
    assert all == first + rest;
    if i < |first| {
      ParentsFirst(fs, c, i);
      ChildPath(p, ks[n]);
      assert all[..i] == first[..i];
    } else {
      ParentsFirstAmong(fs, p, ks[..n], i - |first|);
      assert all[..i] == first + rest[..i - |first|];
    }
  }

  // ---------- Fsck ----------

  ghost predicate Doubled(s: string) { exists i :: 0 <= i < |s| - 1 && s[i] == s[i + 1] == '/' }

  predicate Trailing(s: string) { |s| > 1 && s[|s| - 1] == '/' }

  /** `path.find("//") != npos`. */
  method FindDoubled(s: string) returns (found: bool)
    ensures found <==> Doubled(s)
  {
    for i := 0 to |s|
      invariant forall j | 0 <= j < i && j + 1 < |s| :: !(s[j] == s[j + 1] == '/')
    {
      if i + 1 < |s| && s[i] == '/' && s[i + 1] == '/' { return true; }
    }
    return false;
  }

  ghost function IssuesAt(path: string): (found: seq<string>)
    ensures found == [] <==> CleanText(path)
  {
    (if Doubled(path) then ["double-slash:" + path] else [])
    + (if Trailing(path) then ["trailing-slash:" + path] else [])
  }

  ghost function Issues(visits: seq<Visit>): seq<string> {
    if visits == [] then [] else Issues(visits[..|visits| - 1]) + IssuesAt(visits[|visits| - 1].path)
  }

  lemma {:induction false} NoIssues(visits: seq<Visit>)
    ensures Issues(visits) == [] <==> forall v | v in visits :: CleanText(v.path)
  {
    if visits == [] {
    } else {
      var n := |visits| - 1;
      NoIssues(visits[..n]);
      assert visits == visits[..n] + [visits[n]];
    }
  }

  ghost function Among(fs: FS, order: seq<Path>): FS { Restrict(fs, set p | p in order) }

  ghost predicate NoRepeat(order: seq<Path>) {
    order == [] || (NoRepeat(order[..|order| - 1]) && order[|order| - 1] !in order[..|order| - 1])
  }

  lemma {:induction false} DistinctNoRepeat(order: seq<Path>)
    requires Distinct(order)
    ensures NoRepeat(order)
  {
    if order == [] {
    } else {
      DistinctNoRepeat(order[..|order| - 1]);
    }
  }

  datatype Tally = Tally(files: nat, dirs: nat, used: nat)

  ghost function TallyOf(m: FS): Tally { Tally(|Contents(m)|, |Dirs(m)|, Used(m)) }

  /** One more visit counted. */
  ghost function Counted(t: Tally, v: Visit): Tally {
    if v.isDir then Tally(t.files, t.dirs + 1, t.used) else Tally(t.files + 1, t.dirs, t.used + v.size)
  }

  lemma AmongStep(fs: FS, order: seq<Path>, p: Path)
    requires p in fs && p !in order
    ensures p !in Among(fs, order)
    ensures Among(fs, order + [p]) == Among(fs, order)[p := fs[p]]
  {
  }

  ghost function Counts(visits: seq<Visit>): Tally {
    if visits == [] then Tally(0, 0, 0) else Counted(Counts(visits[..|visits| - 1]), visits[|visits| - 1])
  }

  lemma {:induction false} CountsAreTallies(fs: FS, order: seq<Path>)
    requires NoRepeat(order) && forall p | p in order :: p in fs
    ensures Counts(VisitsOf(fs, order)) == TallyOf(Among(fs, order))
  {
    if order == [] {
      assert Among(fs, order) == map[];
    } else {
      var n := |order| - 1;
      var front, p := order[..n], order[n];
      CountsAreTallies(fs, front);
      assert order == front + [p];
      AmongStep(fs, front, p);
      var v := VisitOf(fs, p);
      VisitsStep(fs, front, p);
      UsedInsert(Among(fs, front), p, fs[p]);
      OneMore(Among(fs, front), p, fs[p]);
    }
  }

  lemma VisitsClean(fs: FS, order: seq<Path>)
    requires TreeShaped(fs) && forall p | p in order :: p in fs
    ensures forall v | v in VisitsOf(fs, order) :: CleanText(v.path)
  {
    forall i | 0 <= i < |order| ensures CleanText(VisitsOf(fs, order)[i].path) {
      RenderClean(order[i]);
    }
  }

  method CountVisits(visits: seq<Visit>) returns (ok: bool, files: nat, dirs: nat, used: nat, issues: seq<string>)
    ensures ok <==> forall v | v in visits :: CleanText(v.path)
    ensures Tally(files, dirs, used) == Counts(visits) && issues == Issues(visits)
  {
    ok, files, dirs, used, issues := true, 0, 0, 0, [];
    for i := 0 to |visits|
      invariant ok <==> issues == []
      invariant Tally(files, dirs, used) == Counts(visits[..i]) && issues == Issues(visits[..i])
    {
      var v := visits[i];
      assert visits[..i + 1][..i] == visits[..i];
      if v.isDir { dirs := dirs + 1; } else { files := files + 1; used := used + v.size; }
      var doubled := FindDoubled(v.path);
      if doubled { ok, issues := false, issues + ["double-slash:" + v.path]; }
      if Trailing(v.path) { ok, issues := false, issues + ["trailing-slash:" + v.path]; }
    }
    assert visits[..|visits|] == visits;
    NoIssues(visits);
  }

  // ---------- The report ----------

  function Truth(b: bool): string { if b then "true" else "false" }

  /** The issues in quotes, with commas between them. */
  function Quoted(issues: seq<string>): string {
    if issues == [] then ""
    else
      var n := |issues| - 1;
      Quoted(issues[..n]) + (if n > 0 then "," else "") + "\"" + issues[n] + "\""
  }

  function Report(ok: bool, t: Tally, quota: nat, isSealed: bool, issues: seq<string>): string {
    "{" + "\"ok\":" + Truth(ok) + "," + "\"files\":" + Decimal(t.files) + ","
    + "\"dirs\":" + Decimal(t.dirs) + "," + "\"used_bytes\":" + Decimal(t.used) + ","
    + "\"quota\":" + Decimal(quota) + ",\"sealed\":" + Truth(isSealed)
    + ",\"issues\":[" + Quoted(issues) + "]" + "}"
  }

  lemma ContentsInsert(a: FS, p: Path, e: Entry)
    requires p !in a
    ensures Contents(a[p := e]) == if e.File? then Contents(a)[p := e.content] else Contents(a)
  {
  }

  lemma DirsInsert(a: FS, p: Path, e: Entry)
    requires p !in a
    ensures Dirs(a[p := e]) == if e.Dir? then Dirs(a) + {p} else Dirs(a)
  {
  }

  lemma OneMore(a: FS, p: Path, e: Entry)
    requires p !in a
    ensures |Contents(a[p := e])| == |Contents(a)| + (if e.File? then 1 else 0)
    ensures |Dirs(a[p := e])| == |Dirs(a)| + (if e.Dir? then 1 else 0)
  {
    ContentsInsert(a, p, e);
    DirsInsert(a, p, e);
    assert p !in Contents(a) && p !in Dirs(a);
  }

  lemma FsckDone(fs: FS, order: seq<Path>)
    requires forall p | p in fs :: p in order
    ensures Among(fs, order) == fs
  {
  }
}
