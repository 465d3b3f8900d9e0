/** `neon::Vfs` on heap nodes: each method is proved against the operation on the abstract tree. */
module VirtualFileSystem {
  import opened Strings
  import opened Paths
  import opened FileSystem
  import opened FileSystemLaws
  import opened Nodes
  import opened Dump
  import opened RoundTrip
  import opened Transactions
  import opened TreeSteps
  import opened Walks

  class Vfs {
    var root: Node
    var quota: nat
    var isSealed: bool
    var txActive: bool
    var txSnapshot: string
    ghost var lay: Layout

    ghost predicate Valid()
      reads this, lay.nodes
    {
      Stands(lay) && lay.at[[]] == root && TreeShaped(lay.fs)
    }

    /** The abstract state. */
    ghost function Model(): State
      reads this
    {
      State(lay.fs, quota, isSealed, if txActive then Some(txSnapshot) else None)
    }

    constructor ()
      ensures Valid() && forall n | n in lay.nodes :: !old(allocated(n))
      ensures Model() == State(EMPTY, 0, false, None)
    {
      var n := new Node(true, "/", "");
      root := n;
      lay := Layout(map[[] := n], map[[] := map[]], EMPTY, {n});
      quota, isSealed, txActive, txSnapshot := 0, false, false, "";
      new;
      LeafLinkedBy(n, lay.at, lay.kids);
    }

    // ---------- Walking down ----------

    /** Follows the segments of the path; null when one is missing. */
    method Traverse(path: string) returns (n: Node?)
      requires Valid()
      ensures n != null <==> Normal(path) in lay.at
      ensures n != null ==> n == lay.at[Normal(path)] && StandsAt(lay, Normal(path))
    {
      var norm := NormalizePath(path);
      ghost var p := Normal(path);
      CanonicalText(p);
      if norm == "" || norm == "/" {
        assert StandsAt(lay, []);
        return root;
      }
      SplitRender(p);
      var cur, seg := root, "";
      ghost var done: Path := [];
      for i := 0 to |norm|
        invariant done in lay.at && cur == lay.at[done]
        invariant (done, seg) == Scan(norm[..i])
      {
        ScanStep(norm, i);
        if norm[i] == '/' {
          if seg != "" {
            assert ChildrenAt(lay.at, lay.kids[done], done) && StandsAt(lay, done);
            if seg !in cur.children {
              ScanPrefix(norm, i);
              MissingAncestor(lay.fs, done + [seg], p);
              return null;
            }
            cur, done, seg := cur.children[seg], done + [seg], "";
          }
        } else {
          seg := seg + [norm[i]];
        }
      }
      assert norm[..|norm|] == norm;
      if seg != "" {
        assert ChildrenAt(lay.at, lay.kids[done], done) && StandsAt(lay, done);
        if seg !in cur.children { return null; }
        cur := cur.children[seg];
      }
      assert StandsAt(lay, p);
      return cur;
    }

    // ---------- Creating directories ----------

    /** `parent->children[seg] = c` for a new node without children. */
    method AddLeaf(ghost path: Path, parent: Node, seg: string, c: Node, ghost e: Entry)
      requires Valid() && path in lay.at && lay.at[path] == parent && parent.isDir && path + [seg] !in lay.at
      requires Plain(seg) && seg != "." && seg != ".."
      requires c.children == map[] && Outside(lay.at, c)
      requires e == if c.isDir then Dir(c.name) else File(c.name, c.content)
      modifies this`lay, parent`children
      ensures Valid() && lay == WithLeaf(old(lay), path, seg, c, e)
    {
      assert StandsAt(lay, path);
      NewLeafShape(lay.fs, path, seg, e);
      LeafPlaces(lay, path, seg, c, e);
      ghost var was := lay;
      lay := WithLeaf(was, path, seg, c, e);
      ghost var next := HangLeaf(was, path, parent, seg, c, e);
    }

    /** `children[seg]`, created as a directory when missing; null when it is a file. */
    method ChildDir(ghost path: Path, cur: Node, seg: string) returns (child: Node?)
      requires Valid() && path in lay.at && lay.at[path] == cur && cur.isDir
      requires Plain(seg) && seg != "." && seg != ".."
      modifies this`lay, cur`children
      ensures Valid()
      ensures child == null <==> path + [seg] in old(lay.at) && old(lay.fs)[path + [seg]].File?
      ensures path + [seg] in old(lay.at) ==> lay.at == old(lay.at) && lay.fs == old(lay.fs)
      ensures path + [seg] !in old(lay.at) ==> lay.at == old(lay.at)[path + [seg] := child]
      ensures forall n | n in lay.nodes :: n in old(lay.nodes) || !old(allocated(n))
      ensures path + [seg] !in old(lay.at) ==> lay.fs == old(lay.fs)[path + [seg] := Dir(seg)]
      ensures child != null ==> lay.at[path + [seg]] == child && child.isDir
    {
      assert ChildrenAt(lay.at, lay.kids[path], path) && StandsAt(lay, path);
      if seg !in cur.children {
        var c := new Node(true, seg, "");
        AddLeaf(path, cur, seg, c, Dir(seg));
        return c;
      }
      assert StandsAt(lay, path + [seg]);
      if !cur.children[seg].isDir { return null; }
      return cur.children[seg];
    }

    /** One more segment of `EnsureDir`, against the tree it started from. */
    method NextDir(ghost base: FS, ghost path: Path, cur: Node, seg: string) returns (child: Node?)
      requires Valid() && path in lay.at && lay.at[path] == cur && cur.isDir
      requires Plain(seg) && seg != "." && seg != ".."
      requires TreeShaped(base) && !Blocked(base, path) && lay.fs == MakeDirs(base, path)
      modifies this`lay, cur`children
      ensures Valid()
      ensures child == null ==> Blocked(base, path + [seg]) && lay.fs == base
      ensures child != null ==> !Blocked(base, path + [seg]) && lay.fs == MakeDirs(base, path + [seg])
      ensures child != null ==> path + [seg] in lay.at && lay.at[path + [seg]] == child && child.isDir
      ensures forall q | q in old(lay.at) :: q in lay.at && lay.at[q] == old(lay.at)[q]
      ensures forall n | n in lay.nodes :: n in old(lay.nodes) || !old(allocated(n))
    {
      child := ChildDir(path, cur, seg);
      MakeDirsStep(base, path, seg);
    }

    /** Walks the segments like `Traverse`, creating what is missing; null when a file is in the way. */
    method EnsureDir(path: string) returns (n: Node?)
      requires Valid()
      modifies this`lay, lay.nodes`children
      ensures Valid()
      ensures forall q | q in old(lay.at) :: q in lay.at && lay.at[q] == old(lay.at)[q]
      ensures forall n | n in lay.nodes :: n in old(lay.nodes) || !old(allocated(n))
      ensures n == null <==> Blocked(old(lay.fs), Normal(path))
      ensures n == null ==> lay.fs == old(lay.fs)
      ensures n != null ==> lay.fs == MakeDirs(old(lay.fs), Normal(path))
      ensures n != null ==> Normal(path) in lay.at && lay.at[Normal(path)] == n && n.isDir && n in lay.nodes
    {
      var norm := NormalizePath(path);
      ghost var p, base := Normal(path), lay.fs;
      CanonicalText(p);
      NotBlockedAt(base, []);
      assert StandsAt(lay, []);
      if norm == "" || norm == "/" { return root; }
      var cur, seg := root, "";
      ghost var done: Path := [];
      for i := 0 to |norm|
        invariant Valid()
        invariant forall q | q in old(lay.at) :: q in lay.at && lay.at[q] == old(lay.at)[q]
        invariant forall n | n in lay.nodes :: n in old(lay.nodes) || !old(allocated(n))
        invariant done in lay.at && cur == lay.at[done] && cur.isDir
        invariant (done, seg) == Scan(norm[..i])
        invariant !Blocked(base, done) && lay.fs == MakeDirs(base, done)
      {
        ScanStep(norm, i);
        if norm[i] == '/' {
          OnTheWay(p, norm, i);
          assert StandsAt(lay, done);
          var child := EndSegment(base, p, done, cur, seg);
          if child == null { return null; }
          cur, done, seg := child, Flush(done, seg), "";
        } else {
          seg := seg + [norm[i]];
        }
      }
      OnTheWay(p, norm, |norm|);
      assert StandsAt(lay, done);
      cur := EndSegment(base, p, done, cur, seg);
      assert cur != null ==> StandsAt(lay, p);
      return cur;
    }

    /** At a slash or at the end of the path: the segment read so far, unless it is empty. */
    method EndSegment(ghost base: FS, ghost p: Path, ghost path: Path, cur: Node, seg: string) returns (child: Node?)
      requires Valid() && path in lay.at && lay.at[path] == cur && cur.isDir
      requires Canonical(p) && Flush(path, seg) <= p
      requires TreeShaped(base) && !Blocked(base, path) && lay.fs == MakeDirs(base, path)
      modifies this`lay, cur`children
      ensures Valid()
      ensures child == null ==> Blocked(base, p) && lay.fs == base
      ensures child != null ==> !Blocked(base, Flush(path, seg)) && lay.fs == MakeDirs(base, Flush(path, seg))
      ensures child != null ==> Flush(path, seg) in lay.at && lay.at[Flush(path, seg)] == child && child.isDir
      ensures forall q | q in old(lay.at) :: q in lay.at && lay.at[q] == old(lay.at)[q]
      ensures forall n | n in lay.nodes :: n in old(lay.nodes) || !old(allocated(n))
    {
      if seg == "" { return cur; }
      assert seg in p by { assert p[|path|] == (path + [seg])[|path|]; }
      child := NextDir(base, path, cur, seg);
    }

    // ---------- Reading ----------

    method Exists(path: string) returns (ok: bool)
      requires Valid()
      ensures ok <==> Normal(path) in lay.fs
    {
      var norm := NormalizePath(path);
      NormalRender(Normal(path));
      var n := Traverse(norm);
      ok := n != null;
    }

    method Read(path: string) returns (r: Option<string>)
      requires Valid()
      ensures r == DoRead(Model(), path)
    {
      var norm := NormalizePath(path);
      NormalRender(Normal(path));
      var n := Traverse(norm);
      if n == null || n.isDir { return None; }
      return Some(n.content);
    }

    /** Kind and size of an entry; directories report size 0. */
    method Stat(path: string) returns (ok: bool, isDir: bool, size: nat)
      requires Valid()
      ensures ok <==> Normal(path) in lay.fs
      ensures ok ==> isDir == lay.fs[Normal(path)].Dir? && size == SizeAt(lay.fs, Normal(path))
    {
      var norm := NormalizePath(path);
      NormalRender(Normal(path));
      var n := Traverse(norm);
      if n == null { return false, false, 0; }
      return true, n.isDir, if n.isDir then 0 else |n.content|;
    }

    /** The names of a directory's children in key order. */
    method List(path: string) returns (names: seq<string>)
      requires Valid()
      ensures names ==
              if Normal(path) in lay.fs && lay.fs[Normal(path)].Dir? then InOrder(ChildKeys(lay.fs, Normal(path)))
              else []
    {
      var norm := NormalizePath(path);
      NormalRender(Normal(path));
      var n := Traverse(norm);
      if n == null || !n.isDir { return []; }
      KeysAreChildKeys(lay, Normal(path));
      return InOrder(n.children.Keys);
    }

    // ---------- Changing ----------

    method Seal(on: bool)
      requires Valid()
      modifies this`isSealed
      ensures Valid() && lay.fs == old(lay.fs) && isSealed == on
    {
      isSealed := on;
    }

    method SetQuota(bytes: nat)
      requires Valid()
      modifies this`quota
      ensures Valid() && lay.fs == old(lay.fs) && quota == bytes
    {
      quota := bytes;
    }

    method Mkdir(path: string) returns (ok: bool)
      requires Valid()
      modifies this`lay, lay.nodes`children
      ensures Valid() && ok == DoMkdir(old(Model()), path).1
      ensures lay.fs == DoMkdir(old(Model()), path).0.fs
      ensures forall n | n in lay.nodes :: n in old(lay.nodes) || !old(allocated(n))
    {
      if isSealed { return false; }
      var norm := NormalizePath(path);
      NormalRender(Normal(path));
      var n := EnsureDir(norm);
      ok := n != null;
    }

    /** A new empty file at `p`, in a directory that does not have the name yet. */
    method AddFile(ghost p: Path, d: Node, name: string) returns (f: Node)
      requires Valid() && p != [] && Canonical(p) && name == Last(p) && p !in lay.at
      requires Parent(p) in lay.at && lay.at[Parent(p)] == d && d.isDir
      modifies this`lay, d`children
      ensures Valid() && lay.at == old(lay.at)[p := f]
      ensures forall n | n in lay.nodes :: n in old(lay.nodes) || !old(allocated(n))
      ensures lay.fs == old(lay.fs)[p := File(name, "")]
    {
      NewName(p);
      f := new Node(false, name, "");
      AddLeaf(Parent(p), d, name, f, File(name, ""));
    }

    /** `if (!d->children.count(name))` a new empty file. */
    method TouchIn(ghost p: Path, d: Node, name: string)
      requires Valid() && p != [] && Canonical(p) && name == Last(p)
      requires Parent(p) in lay.at && lay.at[Parent(p)] == d && d.isDir
      modifies this`lay, d`children
      ensures Valid()
      ensures lay.fs == if p in old(lay.at) then old(lay.fs) else old(lay.fs)[p := File(name, "")]
      ensures forall n | n in lay.nodes :: n in old(lay.nodes) || !old(allocated(n))
    {
      assert ChildrenAt(lay.at, lay.kids[Parent(p)], Parent(p)) && StandsAt(lay, Parent(p));
      NewName(p);
      if name !in d.children {
        var f := AddFile(p, d, name);
      }
    }

    method Touch(path: string) returns (ok: bool)
      requires Valid()
      modifies this`lay, lay.nodes`children
      ensures Valid() && ok == DoTouch(old(Model()), path).1
      ensures lay.fs == DoTouch(old(Model()), path).0.fs
      ensures forall n | n in lay.nodes :: n in old(lay.nodes) || !old(allocated(n))
    {
      ghost var p := Normal(path);
      CanonicalText(p);
      if isSealed { return false; }
      var norm := NormalizePath(path);
      if norm == "" || norm == "/" { return false; }
      CanonicalParts(p);
      var pos := LastSlash(norm);
      var dir, name := norm[..pos], norm[pos + 1..];
      NewName(p);
      assert name != "";  // so the source's check for an empty name never fires
      ok := MakeFile(p, dir, name);
    }

    method MakeFile(ghost p: Path, dir: string, name: string) returns (ok: bool)
      requires Valid() && p != [] && Canonical(p) && Normal(dir) == Parent(p) && name == Last(p)
      modifies this`lay, lay.nodes`children
      ensures Valid() && ok == !Blocked(old(lay.fs), Parent(p))
      ensures var g := MakeDirs(old(lay.fs), Parent(p));
        lay.fs == if !ok then old(lay.fs) else if p in g then g else g[p := File(name, "")]
      ensures forall n | n in lay.nodes :: n in old(lay.nodes) || !old(allocated(n))
    {
      var d := EnsureDir(dir);
      if d == null { return false; }
      TouchIn(p, d, name);
      return true;
    }

    // ---------- Bytes in use ----------

    /** `calc_used_`: the node's own bytes and, recursively, those of its children. */
    method CalcUsed(ghost p: Path, n: Node) returns (total: nat)
      requires Valid() && p in lay.at && lay.at[p] == n
      ensures total == Used(Subtree(lay.fs, p))
      decreases Below(lay.at, p)
    {
      assert StandsAt(lay, p);
      total := if n.isDir then 0 else |n.content|;
      var ks := InOrder(n.children.Keys);
      AllFirsts(lay, p);
      UsedRoot(lay.fs, p);
      for i := 0 to |ks|
        invariant total == Used(FirstIn(Subtree(lay.fs, p), ks[..i]))
      {
        FirstsStep(lay.kids[p].Keys, i);
        UsedFirstsStep(lay.fs, p, ks, i);
        assert ChildrenAt(lay.at, lay.kids[p], p);
        BelowShrinks(lay.at, p, ks[i]);
        var bytes := CalcUsed(p + [ks[i]], n.children[ks[i]]);
        total := total + bytes;
      }
    }

    method UsedBytes() returns (total: nat)
      requires Valid()
      ensures total == Used(lay.fs)
    {
      SubtreeOfRoot(lay.fs);
      total := CalcUsed([], root);
    }

    // ---------- Writing ----------

    /** The quota test of `Write`: bytes in use, less the old content, plus the new. */
    method WouldOverflow(path: string, content: string) returns (over: bool)
      requires Valid()
      ensures over == OverQuota(Model(), Normal(path), content)
    {
      if quota == 0 { return false; }
      OldSizeFits(lay.fs, Normal(path));
      var r := Read(path);
      var before := if r.Some? then |r.value| else 0;
      var used := UsedBytes();
      assert used >= before;  // the unsigned subtraction never wraps
      return used - before + |content| > quota;
    }

    method SetContent(ghost p: Path, n: Node, content: string)
      requires Valid() && p in lay.at && lay.at[p] == n && !n.isDir
      modifies this`lay, n`content
      ensures Valid() && lay == old(lay).(fs := old(lay.fs)[p := File(old(lay.fs)[p].name, content)])
    {
      assert AloneAt(lay.at, p) && StandsAt(lay, p);
      InsertShape(lay.fs, p, File(lay.fs[p].name, content));
      n.content := content;
      lay := lay.(fs := lay.fs[p := File(lay.fs[p].name, content)]);
      forall q | q in lay.at ensures StandsAt(lay, q) { assert old(StandsAt(lay, q)); }
    }

    /** A new file together with its missing ancestors; null when a file is in the way. */
    method CreateFile(ghost p: Path, dir: string, name: string) returns (n: Node?)
      requires Valid() && p !in lay.at && Canonical(p) && p != [] && Normal(dir) == Parent(p) && name == Last(p)
      modifies this`lay, lay.nodes`children
      ensures Valid()
      ensures n == null <==> Blocked(old(lay.fs), Parent(p))
      ensures n == null ==> lay.fs == old(lay.fs)
      ensures n != null ==> lay.fs == MakeDirs(old(lay.fs), Parent(p))[p := File(name, "")]
      ensures n != null ==> p in lay.at && lay.at[p] == n && !n.isDir
      ensures forall m | m in lay.nodes :: m in old(lay.nodes) || !old(allocated(m))
    {
      NewDestination(lay.fs, p);
      var d := EnsureDir(dir);
      if d == null { return null; }
      n := AddFile(p, d, name);
      assert StandsAt(lay, p);
    }

    method Write(path: string, content: string) returns (ok: bool)
      requires Valid()
      modifies this`lay, lay.nodes`children, lay.nodes`content
      ensures Valid() && ok == DoWrite(old(Model()), path, content).1
      ensures lay.fs == DoWrite(old(Model()), path, content).0.fs
      ensures forall n | n in lay.nodes :: n in old(lay.nodes) || !old(allocated(n))
    {
      ghost var p := Normal(path);
      NormalRender(p);
      var over := WouldOverflow(path, content);
      if over { return false; }
      if isSealed { return false; }
      var norm := NormalizePath(path);
      ok := WriteNode(p, norm, content);
    }

    /** The rest of `Write`, on the canonical text of `p`. */
    method WriteNode(ghost p: Path, norm: string, content: string) returns (ok: bool)
      requires Valid() && Canonical(p) && norm == Render(p) && Normal(norm) == p
      modifies this`lay, lay.nodes`children, lay.nodes`content
      ensures Valid() && ok == if p in old(lay.fs) then old(lay.fs)[p].File? else !Blocked(old(lay.fs), Parent(p))
      ensures !ok ==> lay.fs == old(lay.fs)
      ensures ok && p in old(lay.fs) ==> lay.fs == old(lay.fs)[p := File(old(lay.fs)[p].name, content)]
      ensures ok && p !in old(lay.fs) ==> lay.fs == MakeDirs(old(lay.fs), Parent(p))[p := File(Last(p), content)]
      ensures forall n | n in lay.nodes :: n in old(lay.nodes) || !old(allocated(n))
    {
      var n := Traverse(norm);
      if n == null {
        CanonicalParts(p);
        var pos := LastSlash(norm);
        n := CreateFile(p, norm[..pos], norm[pos + 1..]);
        if n == null { return false; }
        UpdateTwice(MakeDirs(old(lay.fs), Parent(p)), p, File(Last(p), ""), File(Last(p), content));
      }
      assert StandsAt(lay, p);
      if n.isDir { return false; }
      SetContent(p, n, content);
      return true;
    }

    // ---------- Removing, moving, copying ----------

    /** The node at `p`, looked up through its parent; both null when the source's checks fail. */
    method Lookup(ghost p: Path, norm: string) returns (parent: Node?, base: string)
      requires Valid() && Canonical(p) && p != [] && norm == Render(p)
      ensures base == Last(p)
      ensures parent != null <==> p in lay.at
      ensures parent != null ==> Parent(p) in lay.at && lay.at[Parent(p)] == parent && parent.isDir
      ensures parent != null ==> base in parent.children && parent.children[base] == lay.at[p]
      ensures parent != null ==> parent in lay.nodes && StandsAt(lay, p)
    {
      CanonicalParts(p);
      NewName(p);
      var last := LastSlash(norm);
      base := norm[last + 1..];
      parent := Traverse(if last == 0 then "/" else norm[..last]);
      if parent == null || !parent.isDir { return null, base; }
      assert ChildrenAt(lay.at, lay.kids[Parent(p)], Parent(p));
      if base !in parent.children { return null, base; }
      assert StandsAt(lay, p);
    }

    /** `children.erase(base)`: the subtree at `p` leaves the tree. */
    method Detach(ghost p: Path, parent: Node, base: string) returns (node: Node, ghost sub: Layout)
      requires Valid() && p in lay.at && p != [] && base == Last(p)
      requires Parent(p) in lay.at && lay.at[Parent(p)] == parent && base in parent.children
      modifies this`lay, parent`children
      ensures Valid() && lay == Cut(old(lay), Parent(p), base)
      ensures sub == Taken(old(lay), p) && Stands(sub) && [] in sub.at && sub.at[[]] == node == old(lay.at)[p]
      ensures Apart(lay.at, sub.at)
    {
      ParentPrefix(p);
      node := parent.children[base];
      lay, sub := Unhang(lay, Parent(p), parent, base);
    }

    method Remove(path: string, recursive: bool) returns (ok: bool)
      requires Valid()
      modifies this`lay, lay.nodes`children
      ensures Valid() && ok == DoRemove(old(Model()), path, recursive).1
      ensures lay.fs == DoRemove(old(Model()), path, recursive).0.fs
      ensures lay.nodes == old(lay.nodes)
    {
      ghost var p := Normal(path);
      CanonicalText(p);
      if isSealed { return false; }
      var norm := NormalizePath(path);
      if norm == "/" { return false; }
      var parent, base := Lookup(p, norm);
      if parent == null { return false; }
      var child := parent.children[base];
      EmptyNode(lay, p);
      if child.isDir && child.children != map[] && !recursive { return false; }
      NewName(p);
      var gone;
      ghost var sub;
      gone, sub := Detach(p, parent, base);
      return true;
    }

    /** `children[base] = c`: a whole tree joins below `dir`, or joins nothing that hangs below the root. */
    method Attach(ghost joins: bool, ghost dir: Path, parent: Node, base: string, c: Node, ghost sub: Layout)
      requires Valid()
      requires !joins || (dir in lay.at && lay.at[dir] == parent && dir + [base] !in lay.at)
      requires !joins || (Stands(sub) && [] in sub.at && sub.at[[]] == c && Apart(lay.at, sub.at))
      requires !joins || TreeShaped(lay.fs + Graft(dir + [base], sub.fs))
      requires joins || Outside(lay.at, parent)
      modifies this`lay, parent`children
      ensures Valid() && lay.fs == if joins then old(lay.fs) + Graft(dir + [base], sub.fs) else old(lay.fs)
      ensures lay.nodes <= old(lay.nodes) + sub.nodes
    {
      RootKept(joins, lay, dir, base, sub);
      ghost var was := lay;
      lay := if joins then WithHung(was, dir, base, sub) else was;
      ghost var all := Hang(joins, was, dir, parent, base, c, sub);
    }

    method Move(from: string, to: string) returns (ok: bool)
      requires Valid()
      modifies this`lay, lay.nodes`children
      ensures Valid() && ok == DoMove(old(Model()), from, to).1
      ensures lay.fs == DoMove(old(Model()), from, to).0.fs
      ensures forall n | n in lay.nodes :: n in old(lay.nodes) || !old(allocated(n))
    {
      ghost var s, d := Normal(from), Normal(to);
      ghost var goal := DoMove(Model(), from, to).0.fs;
      CanonicalText(s);
      CanonicalText(d);
      MoveCases(Model(), from, to);
      MoveKeepsShape(Model(), from, to);
      if isSealed { return false; }
      var sf := NormalizePath(from);
      var dt := NormalizePath(to);
      if sf == "/" || dt == "/" { return false; }
      ok := MoveNode(s, sf, d, dt, goal);
    }

    /** The directory that is to hold `d`, with its missing ancestors; null when a file or `d` itself is in the way. */
    method Destination(ghost d: Path, dt: string) returns (dp: Node?, dBase: string)
      requires Valid() && Canonical(d) && d != [] && dt == Render(d)
      modifies this`lay, lay.nodes`children
      ensures Valid() && dBase == Last(d)
      ensures forall q | q in old(lay.at) :: q in lay.at && lay.at[q] == old(lay.at)[q]
      ensures forall n | n in lay.nodes :: n in old(lay.nodes) || !old(allocated(n))
      ensures dp == null <==> Blocked(old(lay.fs), Parent(d)) || d in old(lay.fs)
      ensures dp == null ==> lay.fs == old(lay.fs)
      ensures dp != null ==> lay.fs == MakeDirs(old(lay.fs), Parent(d)) && d !in lay.at
      ensures dp != null ==> Parent(d) in lay.at && lay.at[Parent(d)] == dp && dp in lay.nodes
    {
      CanonicalParts(d);
      ParentPrefix(d);
      DestinationFree(lay.fs, d, d);
      var dLast := LastSlash(dt);
      dBase := dt[dLast + 1..];
      dp := EnsureDir(if dLast == 0 then "/" else dt[..dLast]);
      if dp == null { return null, dBase; }
      assert ChildrenAt(lay.at, lay.kids[Parent(d)], Parent(d)) && StandsAt(lay, Parent(d));
      if dBase in dp.children { return null, dBase; }
    }

    /** The rest of `Move`, on canonical texts. */
    method MoveNode(ghost s: Path, sf: string, ghost d: Path, dt: string, ghost goal: FS) returns (ok: bool)
      requires Valid() && Canonical(s) && s != [] && sf == Render(s) && Canonical(d) && d != [] && dt == Render(d)
      requires MoveAllowed(lay.fs, s, d) ==> goal == Moved(MakeDirs(lay.fs, Parent(d)), s, d) && TreeShaped(goal)
      requires !MoveAllowed(lay.fs, s, d) ==> goal == lay.fs
      modifies this`lay, lay.nodes`children
      ensures Valid() && ok == MoveAllowed(old(lay.fs), s, d) && lay.fs == goal
      ensures forall n | n in lay.nodes :: n in old(lay.nodes) || !old(allocated(n))
    {
      var sp, sBase := Lookup(s, sf);
      if sp == null { return false; }
      DestinationFree(lay.fs, s, d);
      var dp, dBase := Destination(d, dt);
      if dp == null { return false; }
      ParentPrefix(s);
      assert ChildrenAt(lay.at, lay.kids[Parent(s)], Parent(s));
      assert StandsAt(lay, Parent(s));
      Rehang(s, sp, sBase, d, dp, dBase, goal);
      return true;
    }

    /** `dp->children[dBase] = move(s_it->second); sp->children.erase(s_it)`, erasing first. */
    method Rehang(ghost s: Path, sp: Node, sBase: string, ghost d: Path, dp: Node, dBase: string, ghost goal: FS)
      requires Valid() && s != [] && d != [] && s in lay.at && d !in lay.at
      requires Parent(s) in lay.at && lay.at[Parent(s)] == sp && sBase == Last(s) && sBase in sp.children
      requires Parent(d) in lay.at && lay.at[Parent(d)] == dp && dBase == Last(d)
      requires goal == Moved(lay.fs, s, d) && TreeShaped(goal)
      modifies this`lay, sp`children, dp`children
      ensures Valid() && lay.nodes <= old(lay.nodes) && lay.fs == goal
    {
      Uprooted(lay, s, d);
      var node;
      ghost var sub;
      node, sub := Detach(s, sp, sBase);
      ParentPrefix(d);
      Attach(!(s <= d), Parent(d), dp, dBase, node, sub);
    }

    method Copy(from: string, to: string, recursive: bool) returns (ok: bool)
      requires Valid()
      modifies this`lay, lay.nodes`children
      ensures Valid() && ok == DoCopy(old(Model()), from, to, recursive).1
      ensures lay.fs == DoCopy(old(Model()), from, to, recursive).0.fs
      ensures forall n | n in lay.nodes :: n in old(lay.nodes) || !old(allocated(n))
    {
      ghost var s, d := Normal(from), Normal(to);
      ghost var goal := DoCopy(Model(), from, to, recursive).0.fs;
      CanonicalText(s);
      CanonicalText(d);
      NormalRender(s);
      CopyCases(Model(), from, to, recursive);
      CopyKeepsShape(Model(), from, to, recursive);
      if isSealed { return false; }
      var sf := NormalizePath(from);
      var dt := NormalizePath(to);
      if sf == "/" || dt == "/" { return false; }
      var n := Traverse(sf);
      if n == null { return false; }
      if n.isDir && !recursive { return false; }
      ok := CopyNode(s, n, d, dt, goal);
    }

    /** The rest of `Copy`: the clone is made after the destination's ancestors exist. */
    method CopyNode(ghost s: Path, n: Node, ghost d: Path, dt: string, ghost goal: FS) returns (ok: bool)
      requires Valid() && s in lay.at && lay.at[s] == n && Canonical(d) && d != [] && dt == Render(d)
      requires MoveAllowed(lay.fs, s, d) ==>
        TreeShaped(goal) && goal == Copied(MakeDirs(lay.fs, Parent(d)), s, d)
      requires !MoveAllowed(lay.fs, s, d) ==> goal == lay.fs
      modifies this`lay, lay.nodes`children
      ensures Valid() && ok == MoveAllowed(old(lay.fs), s, d) && lay.fs == goal
      ensures forall m | m in lay.nodes :: m in old(lay.nodes) || !old(allocated(m))
    {
      DestinationFree(lay.fs, s, d);
      var dp, dBase := Destination(d, dt);
      if dp == null { return false; }
      HangClone(s, n, d, dp, dBase, goal);
      return true;
    }

    /** `dp->children[dBase] = clone_node(n)`. */
    method HangClone(ghost s: Path, n: Node, ghost d: Path, dp: Node, dBase: string, ghost goal: FS)
      requires Valid() && s in lay.at && lay.at[s] == n && d != [] && d !in lay.at
      requires Parent(d) in lay.at && lay.at[Parent(d)] == dp && dBase == Last(d)
      requires goal == Copied(lay.fs, s, d) && TreeShaped(goal)
      modifies this`lay, dp`children
      ensures Valid() && lay.fs == goal
      ensures forall m | m in lay.nodes :: m in old(lay.nodes) || !old(allocated(m))
    {
      var c;
      ghost var sub;
      c, sub := Clone(lay, s, n);
      forall q | q in lay.at ensures Outside(sub.at, lay.at[q]) {
        assert StandsAt(lay, q);
        forall r | r in sub.at ensures sub.at[r] != lay.at[q] { assert StandsAt(sub, r); }
      }
      ParentPrefix(d);
      Attach(true, Parent(d), dp, dBase, c, sub);
    }

    // ---------- The dump ----------

    /** `write_node`: appends the text of one subtree. */
    method DumpNode(ghost p: Path, n: Node, prefix: string, text: string) returns (out: string)
      requires Valid() && p in lay.at && lay.at[p] == n
      ensures out == text + NodeText(lay.fs, p, prefix)
      decreases Below(lay.at, p), 1
    {
      assert StandsAt(lay, p);
      var path := if prefix == "/" then "/" + n.name else prefix + "/" + n.name;
      if n.name == "/" || path == "//" { path := "/"; }
      NodeTextAppended(lay.fs, p, prefix, text, path);
      if n.isDir {
        KeysAreChildKeys(lay, p);
        out := DumpChildren(p, n, path, text + "DIR " + path + "\n");
      } else {
        out := text + "FILE " + path + " " + Decimal(|n.content|) + "\n" + n.content + "\n";
      }
    }

    method DumpChildren(ghost p: Path, n: Node, path: string, text: string) returns (out: string)
      requires Valid() && p in lay.at && lay.at[p] == n
      ensures out == text + ChildrenText(lay.fs, p, InOrder(n.children.Keys), path)
      decreases Below(lay.at, p), 0
    {
      assert StandsAt(lay, p);
      var ks := InOrder(n.children.Keys);
      out := text;
      for i := 0 to |ks|
        invariant out + ChildrenText(lay.fs, p, ks[i..], path) == text + ChildrenText(lay.fs, p, ks, path)
      {
        FirstsStep(lay.kids[p].Keys, i);
        assert ChildrenAt(lay.at, lay.kids[p], p);
        BelowShrinks(lay.at, p, ks[i]);
        var before := out;
        out := DumpNode(p + [ks[i]], n.children[ks[i]], path, before);
        assert ks[i..][0] == ks[i] && ks[i..][1..] == ks[i + 1..];
        Concat3(before, NodeText(lay.fs, p + [ks[i]], path), ChildrenText(lay.fs, p, ks[i + 1..], path));
      }
    }

    method SaveDump() returns (out: string)
      requires Valid()
      ensures out == DumpText(lay.fs)
    {
      KeysAreChildKeys(lay, []);
      assert StandsAt(lay, []);
      out := HEADER;
      if root.children == map[] { out := out + "DIR /\n"; return; }
      out := DumpChildren([], root, "/", out);
    }

    /** Resets the tree and replays the text line by line; an exception leaves what was loaded so far. */
    method LoadDump(text: string) returns (r: Reply)
      requires Valid()
      modifies this`lay, this`root, lay.nodes`children, lay.nodes`content
      ensures Valid()
      ensures lay.fs == DoLoad(old(Model()), text).st.fs
      ensures r == if DoLoad(old(Model()), text).Loaded? then Returned(true) else Exception
      ensures forall n | n in lay.nodes :: n in old(lay.nodes) || !old(allocated(n))
    {
      ghost var st := Model();
      FreshRoot();
      assert Model() == st.(fs := EMPTY);
      r := ReadLines(text);
    }

    method ReadLines(text: string) returns (r: Reply)
      requires Valid()
      modifies this`lay, lay.nodes`children, lay.nodes`content
      ensures Valid()
      ensures lay.fs == LoadLines(old(Model()), text).st.fs
      ensures r == if LoadLines(old(Model()), text).Loaded? then Returned(true) else Exception
      ensures forall n | n in lay.nodes :: n in old(lay.nodes) || !old(allocated(n))
    {
      ghost var total := LoadLines(Model(), text);
      var rest := text;
      while rest != ""
        invariant Valid()
        invariant LoadLines(Model(), rest) == total
        invariant forall n | n in lay.nodes :: n in old(lay.nodes) || !old(allocated(n))
        decreases |rest|
      {
        var threw;
        threw, rest := ReadOne(rest);
        if threw { return Exception; }
      }
      return Returned(true);
    }

    /** One turn of the loop: the front line is cut off and read. */
    method ReadOne(text: string) returns (threw: bool, rest: string)
      requires Valid() && text != ""
      modifies this`lay, lay.nodes`children, lay.nodes`content
      ensures Valid() && (!threw ==> |rest| < |text|)
      ensures LoadLines(old(Model()), text) ==
              if threw then Threw(old(Model())) else LoadLines(old(Model()).(fs := lay.fs), rest)
      ensures threw ==> lay.fs == old(lay.fs)
      ensures forall n | n in lay.nodes :: n in old(lay.nodes) || !old(allocated(n))
    {
      LoadTurn(Model(), text);
      var i := Find(text, '\n');
      threw, rest := TakeLine(text[..i], Rest(text, i));
    }

    /** One turn of the read loop: the line, and the text behind it. */
    method TakeLine(line: string, tail: string) returns (threw: bool, rest: string)
      requires Valid()
      modifies this`lay, lay.nodes`children, lay.nodes`content
      ensures Valid()
      ensures ReadLine(old(Model()), line, tail) == if threw then Throw else Next(old(Model()).(fs := lay.fs), rest)
      ensures threw ==> lay.fs == old(lay.fs)
      ensures forall n | n in lay.nodes :: n in old(lay.nodes) || !old(allocated(n))
    {
      threw, rest := false, tail;
      if line == "" || line[0] == '#' { return; }
      if "DIR " <= line {
        var ok := Mkdir(line[4..]);
      } else if "FILE " <= line {
        match ParseFileLine(line[5..])
        case NoLength =>
        case BadLength => threw := true;
        case FileLine(path, len) =>
          var ok := Write(path, ReadBlock(tail, len));
          rest := AfterBlock(tail, len);
      }
    }

    /** `root_ = make_unique<Node>()`. */
    method FreshRoot()
      modifies this`lay, this`root
      ensures Valid() && lay.fs == EMPTY
      ensures forall n | n in lay.nodes :: !old(allocated(n))
    {
      root := new Node(true, "/", "");
      lay := Layout(map[[] := root], map[[] := map[]], EMPTY, {root});
      LeafLinkedBy(root, lay.at, lay.kids);
      EmptyTree();
    }

    // ---------- Walking ----------

    /**
     Visits every entry with an explicit stack. `order` names the visited paths: each path of the tree
     once, none twice, a directory before its children and these from the last key to the first.
     */
    method Walk() returns (visits: seq<Visit>, ghost order: seq<Path>)
      requires Valid()
      ensures Distinct(order) && (forall p :: p in order <==> p in lay.fs)
      ensures order == Preorder(lay.fs, []) && visits == VisitsOf(lay.fs, order)
      ensures |visits| == |lay.fs| && forall p | p in lay.fs :: VisitOf(lay.fs, p) in visits
    {
      visits, order := [], [];
      var texts, stack := ["/"], [root];
      ghost var paths: seq<Path> := [[]];
      WalkStart(lay.fs);
      while stack != []
        invariant Valid() && Tracks(lay, texts, stack, paths)
        invariant Walking(lay.fs, order, paths)
        invariant order + StackOrder(lay.fs, paths) == Preorder(lay.fs, [])
        invariant visits == VisitsOf(lay.fs, order)
        decreases Unvisited(lay.fs, order)
      {
        ghost var p := paths[|paths| - 1];
        ghost var ks := if lay.fs[p].Dir? then InOrder(lay.kids[p].Keys) else [];
        KeysOf(lay, p);
        WalkStep(lay.fs, order, paths, ks);
        WalkOrder(lay, order, paths, ks);
        VisitsStep(lay.fs, order, p);
        assert p in Unvisited(lay.fs, order) && p !in Unvisited(lay.fs, order + [p]);
        var v;
        v, texts, stack := WalkTurn(texts, stack, paths);
        visits := visits + [v];
        order, paths := order + [p], Pushed(paths, ks);
      }
      VisitsCover(lay.fs, order);
    }

    /** Pops one entry and pushes its children. */
    method WalkTurn(texts0: seq<string>, stack0: seq<Node>, ghost paths: seq<Path>)
      returns (v: Visit, texts: seq<string>, stack: seq<Node>)
      requires Valid() && stack0 != [] && Tracks(lay, texts0, stack0, paths)
      ensures var p := paths[|paths| - 1];
        && p in lay.fs && v == VisitOf(lay.fs, p)
        && Tracks(lay, texts, stack, Pushed(paths, if lay.fs[p].Dir? then InOrder(lay.kids[p].Keys) else []))
    {
      var last := |stack0| - 1;
      var text, n := texts0[last], stack0[last];
      assert StandsAt(lay, paths[last]);
      v := Visit(text, n.isDir, if n.isDir then 0 else |n.content|);
      texts, stack := texts0[..last], stack0[..last];
      if n.isDir { texts, stack := PushChildren(paths[last], text, n, texts, stack, paths[..last]); }
    }

    method PushChildren(ghost p: Path, text: string, n: Node, texts0: seq<string>, stack0: seq<Node>,
          ghost paths0: seq<Path>)
      returns (texts: seq<string>, stack: seq<Node>)
      requires Valid() && p in lay.at && lay.at[p] == n && text == Render(p)
      requires Tracks(lay, texts0, stack0, paths0)
      ensures Tracks(lay, texts, stack, paths0 + Children(p, InOrder(n.children.Keys)))
    {
      texts, stack := texts0, stack0;
      assert StandsAt(lay, p);
      var ks := InOrder(n.children.Keys);
      ghost var paths := paths0;
      CanonicalText(p);
      assert paths0 + Children(p, []) == paths0;
      for i := 0 to |ks|
        invariant Tracks(lay, texts, stack, paths) && paths == paths0 + Children(p, ks[..i])
      {
        FirstsStep(lay.kids[p].Keys, i);
        assert ChildrenAt(lay.at, lay.kids[p], p);
        OneMoreChild(paths0, p, ks, i);
        var child := if text == "/" then "/" + ks[i] else text + "/" + ks[i];
        RenderChild(p, ks[i]);
        CanonicalText(p);
        TracksPush(lay, texts, stack, paths, p + [ks[i]], child, n.children[ks[i]]);
        texts := texts + [child];
        stack := stack + [n.children[ks[i]]];
        paths := paths + [p + [ks[i]]];
      }
      assert ks[..|ks|] == ks;
    }

    /** `FsckJson`: counts what `Walk` visits; no visited path has a doubled or trailing slash. */
    method FsckJson() returns (js: string)
      requires Valid()
      ensures js ==
              "{" + "\"ok\":" + "true" + "," + "\"files\":" + Decimal(|Contents(lay.fs)|) + ","
              + "\"dirs\":" + Decimal(|Dirs(lay.fs)|) + "," + "\"used_bytes\":" + Decimal(Used(lay.fs)) + ","
              + "\"quota\":" + Decimal(quota) + ",\"sealed\":" + (if isSealed then "true" else "false")
              + ",\"issues\":[" + "" + "]" + "}"
    {
      var ok, t, issues := Fsck();
      js := Report(ok, t, quota, isSealed, issues);
    }

    method Fsck() returns (ok: bool, t: Tally, issues: seq<string>)
      requires Valid()
      ensures ok && t == TallyOf(lay.fs) && issues == []
    {
      var visits;
      ghost var order;
      visits, order := Walk();
      FsckDone(lay.fs, order);
      DistinctNoRepeat(order);
      CountsAreTallies(lay.fs, order);
      VisitsClean(lay.fs, order);
      NoIssues(visits);
      var files, dirs, used;
      ok, files, dirs, used, issues := CountVisits(visits);
      t := Tally(files, dirs, used);
    }

    // ---------- Transactions ----------

    method BeginTx() returns (ok: bool)
      requires Valid()
      modifies this`txActive, this`txSnapshot
      ensures Valid() && (Model(), ok) == DoBegin(old(Model()))
    {
      if txActive { return false; }
      txSnapshot := SaveDump();
      txActive := true;
      return true;
    }

    method CommitTx() returns (ok: bool)
      requires Valid()
      modifies this`txActive, this`txSnapshot
      ensures Valid() && (Model(), ok) == DoCommit(old(Model()))
    {
      if !txActive { return false; }
      txActive, txSnapshot := false, "";
      return true;
    }

    method RollbackTx() returns (r: Reply)
      requires Valid()
      modifies this`lay, this`root, this`txActive, this`txSnapshot, lay.nodes`children, lay.nodes`content
      ensures Valid() && r == DoRollback(old(Model())).1
      ensures lay.fs == DoRollback(old(Model())).0.fs && Model().tx == DoRollback(old(Model())).0.tx
      ensures forall n | n in lay.nodes :: n in old(lay.nodes) || !old(allocated(n))
    {
      RollbackFrame(Model());
      if !txActive { return Returned(false); }
      r := LoadDump(txSnapshot);
      if r.Exception? { return; }
      assert StandsAt(lay, []);
      txActive, txSnapshot := false, "";
      assert Stands(lay);
    }
  }
}
