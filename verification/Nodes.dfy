/**
 The nodes of the tree as objects on the heap. A ghost layout says which node sits at which path, what
 it stores as children and which entry it stands for; `Stands` says that the heap agrees with it.
 */
module Nodes {
  import opened Strings
  import opened Paths
  import opened FileSystem
  import opened FileSystemLaws

  class Node {
    var isDir: bool
    var name: string
    var content: string
    var children: map<string, Node>

    constructor (isDir: bool, name: string, content: string)
      ensures this.isDir == isDir && this.name == name && this.content == content && children == map[]
    {
      this.isDir, this.name, this.content, children := isDir, name, content, map[];
    }
  }

  type Places = map<Path, Node>
  type Kids = map<Path, map<string, Node>>

  datatype Layout = Layout(
    at: Places,       // which node sits where
    kids: Kids,       // the children each of them stores
    fs: FS,           // the tree they stand for
    nodes: set<Node>  // all nodes ever used
  )

  /** No other place holds the node at `p`. */
  ghost predicate AloneAt(at: Places, p: Path) {
    p in at && forall q | q in at && q != p :: at[q] != at[p]
  }

  ghost predicate Separate(at: Places) {
    forall p {:trigger AloneAt(at, p)} | p in at :: AloneAt(at, p)
  }

  ghost predicate Outside(at: Places, n: Node) {
    forall q | q in at :: at[q] != n
  }

  ghost predicate Apart(a: Places, b: Places) {
    forall p {:trigger Outside(b, a[p])} | p in a :: Outside(b, a[p])
  }

  ghost predicate Closed(at: Places) {
    [] in at && forall p {:trigger Parent(p)} | p in at :: Parent(p) in at
  }

  /** The keys of a node are exactly the next segments, and lead to the nodes there. */
  ghost predicate ChildrenAt(at: Places, kids: map<string, Node>, p: Path) {
    && (forall k :: k in kids <==> p + [k] in at)
    && (forall k | k in kids :: p + [k] in at && kids[k] == at[p + [k]])
  }

  ghost predicate LinkedBy(at: Places, kids: Kids) {
    Closed(at) && Separate(at) && kids.Keys == at.Keys
    && forall p {:trigger ChildrenAt(at, kids[p], p)} | p in at :: ChildrenAt(at, kids[p], p)
  }

  /** The node at one path is as the layout says. */
  ghost predicate StandsAt(lay: Layout, p: Path)
    requires p in lay.at && p in lay.kids && p in lay.fs
    reads lay.nodes
  {
    && lay.at[p] in lay.nodes
    && lay.at[p].children == lay.kids[p]
    && lay.fs[p] == if lay.at[p].isDir then Dir(lay.at[p].name) else File(lay.at[p].name, lay.at[p].content)
  }

  /** The nodes on the heap are as the layout says. */
  ghost predicate Stands(lay: Layout)
    reads lay.nodes
  {
    && LinkedBy(lay.at, lay.kids) && lay.fs.Keys == lay.at.Keys
    && forall p {:trigger StandsAt(lay, p)} | p in lay.at :: StandsAt(lay, p)
  }

  // ---------- Hanging a tree below a node ----------

  lemma {:induction false} ClosedUp(at: Places, q: Path, p: Path)
    requires Closed(at) && p in at && q <= p
    ensures q in at
    decreases |p|
  {
    if q == p {
    } else {
      ClosedUp(at, q, Parent(p));
    }
  }

  lemma HungAt(at: Places, d: Path, sub: Places, q: Path)
    requires Closed(at) && d !in at
    ensures q in at + Graft(d, sub) <==> if d <= q then q[|d|..] in sub else q in at
    ensures d <= q && q[|d|..] in sub ==> (at + Graft(d, sub))[q] == sub[q[|d|..]]
    ensures !(d <= q) && q in at ==> (at + Graft(d, sub))[q] == at[q]
  {
    GraftAt(d, sub, q);
    if d <= q && q in at { ClosedUp(at, d, q); }
  }

  lemma HungClosed(at: Places, d: Path, sub: Places)
    requires Closed(at) && Closed(sub) && d != [] && d !in at && Parent(d) in at
    ensures Closed(at + Graft(d, sub))
  {
    var h := at + Graft(d, sub);
    HungAt(at, d, sub, []);
    forall p {:trigger Parent(p)} | p in h ensures Parent(p) in h {
      HungAt(at, d, sub, p);
      HungAt(at, d, sub, Parent(p));
      ParentPrefix(p);
      if d <= p && p != d {
        assert Parent(p)[|d|..] == Parent(p[|d|..]);
      }
    }
  }

  lemma HungSeparate(at: Places, d: Path, sub: Places)
    requires Closed(at) && d !in at && Separate(at) && Separate(sub) && Apart(at, sub)
    ensures Separate(at + Graft(d, sub))
  {
    var h := at + Graft(d, sub);
    forall p | p in h ensures AloneAt(h, p) {
      HungAt(at, d, sub, p);
      if d <= p { assert AloneAt(sub, p[|d|..]); } else { assert AloneAt(at, p); assert Outside(sub, at[p]); }
      forall q | q in h && q != p ensures h[q] != h[p] {
        HungAt(at, d, sub, q);
        if d <= p && d <= q {
          assert p == d + p[|d|..] && q == d + q[|d|..];
        } else if d <= p {
          assert Outside(sub, at[q]);
        }
      }
    }
  }

  lemma UpdateBefore(kids: Kids, p: Path, x: map<string, Node>, k: string, t: Kids)
    ensures kids[p := x] + Graft(p + [k], t) == (kids + Graft(p + [k], t))[p := x]
  {
    GraftAt(p + [k], t, p);
  }

  lemma HungChildren(at: Places, kids: Kids, p: Path, k: string, c: Node, sub: Places, subKids: Kids)
    requires LinkedBy(at, kids) && LinkedBy(sub, subKids) && p in at && k !in kids[p]
    requires sub[[]] == c && Apart(at, sub)
    ensures LinkedBy(at + Graft(p + [k], sub), (kids + Graft(p + [k], subKids))[p := kids[p][k := c]])
  {
    var d := p + [k];
    var all := at + Graft(d, sub);
    var allKids := (kids + Graft(d, subKids))[p := kids[p][k := c]];
    assert ChildrenAt(at, kids[p], p);
    assert d !in at && Parent(d) == p;
    HungClosed(at, d, sub);
    HungSeparate(at, d, sub);
    forall q ensures q in allKids <==> q in all {
      GraftAt(d, sub, q);
      GraftAt(d, subKids, q);
    }
    forall q | q in all ensures ChildrenAt(all, allKids[q], q) {
      HungChildrenAt(at, kids, p, k, c, sub, subKids, q);
    }
  }

  /** Inside the hung tree the children are those of the hung tree. */
  lemma HungInside(at: Places, d: Path, sub: Places, subKids: Kids, q: Path)
    requires LinkedBy(sub, subKids) && Closed(at) && d !in at
    requires d <= q && q[|d|..] in sub
    ensures ChildrenAt(at + Graft(d, sub), subKids[q[|d|..]], q)
  {
    var r, all := q[|d|..], at + Graft(d, sub);
    assert ChildrenAt(sub, subKids[r], r);
    forall l ensures q + [l] in all <==> r + [l] in sub
      ensures r + [l] in sub ==> all[q + [l]] == sub[r + [l]]
    {
      HungAt(at, d, sub, q + [l]);
      assert d <= q + [l] && (q + [l])[|d|..] == r + [l];
    }
  }

  /** Elsewhere they are as before, with one more at `p`. */
  lemma HungOutside(at: Places, kids: Kids, p: Path, k: string, sub: Places, q: Path)
    requires LinkedBy(at, kids) && [] in sub && p in at && q in at && p + [k] !in at
    ensures ChildrenAt(at + Graft(p + [k], sub), if q == p then kids[p][k := sub[[]]] else kids[q], q)
  {
    var d := p + [k];
    var all := at + Graft(d, sub);
    assert ChildrenAt(at, kids[q], q);
    forall l ensures q + [l] in all <==> q + [l] in at || (q == p && l == k)
      ensures q + [l] in at ==> all[q + [l]] == at[q + [l]]
      ensures q == p && l == k ==> all[q + [l]] == sub[[]]
    {
      HungAt(at, d, sub, q + [l]);
      if d <= q + [l] {
        if d != q + [l] { ClosedUp(at, d, q); }
        assert (q + [l])[|d|..] == [];
        ChildPath(q, l);
        ChildPath(p, k);
      }
    }
  }

  lemma HungChildrenAt(at: Places, kids: Kids, p: Path, k: string, c: Node, sub: Places, subKids: Kids, q: Path)
    requires LinkedBy(at, kids) && LinkedBy(sub, subKids) && p in at && k !in kids[p] && p + [k] !in at
    requires sub[[]] == c
    requires q in at + Graft(p + [k], sub)
    ensures q in (kids + Graft(p + [k], subKids))[p := kids[p][k := c]]
    ensures ChildrenAt(at + Graft(p + [k], sub), (kids + Graft(p + [k], subKids))[p := kids[p][k := c]][q], q)
  {
    HungAt(at, p + [k], sub, q);
    GraftAt(p + [k], subKids, q);
    if p + [k] <= q {
      HungInside(at, p + [k], sub, subKids, q);
    } else {
      HungOutside(at, kids, p, k, sub, q);
    }
  }

  lemma HungLinked(at: Places, kids: Kids, p: Path, k: string, c: Node, sub: Places, subKids: Kids)
    requires LinkedBy(at, kids) && LinkedBy(sub, subKids) && p in at && k !in kids[p]
    requires sub[[]] == c && Apart(at, sub)
    ensures p + [k] !in at
    ensures LinkedBy(at + Graft(p + [k], sub), kids[p := kids[p][k := c]] + Graft(p + [k], subKids))
  {
    assert ChildrenAt(at, kids[p], p);
    HungChildren(at, kids, p, k, c, sub, subKids);
    UpdateBefore(kids, p, kids[p][k := c], k, subKids);
  }

  /** The layout after `children[k] = c` at `p`, for a tree laid out as `sub` with root `c`. */
  ghost function WithHung(lay: Layout, p: Path, k: string, sub: Layout): Layout
    requires p in lay.kids && [] in sub.at
  {
    Layout(lay.at + Graft(p + [k], sub.at),
           lay.kids[p := lay.kids[p][k := sub.at[[]]]] + Graft(p + [k], sub.kids),
           lay.fs + Graft(p + [k], sub.fs),
           lay.nodes + sub.nodes)
  }

  lemma WithHungAt(lay: Layout, p: Path, k: string, sub: Layout, q: Path)
    requires Closed(lay.at) && p in lay.at && p + [k] !in lay.at && [] in sub.at
    requires lay.fs.Keys == lay.kids.Keys == lay.at.Keys && sub.fs.Keys == sub.kids.Keys == sub.at.Keys
    ensures var all, d := WithHung(lay, p, k, sub), p + [k];
      && (q in all.at <==> q in all.fs)
      && (q in all.at && d <= q ==> var r := q[|d|..];
           r in sub.at && all.at[q] == sub.at[r] && all.kids[q] == sub.kids[r] && all.fs[q] == sub.fs[r])
      && (q in all.at && !(d <= q) ==> q in lay.at && all.at[q] == lay.at[q] && all.fs[q] == lay.fs[q])
      && (q in all.at && !(d <= q) && q != p ==> all.kids[q] == lay.kids[q])
      && (q == p ==> !(d <= q) && all.kids[q] == lay.kids[q][k := sub.at[[]]])
  {
    var d := p + [k];
    HungAt(lay.at, d, sub.at, q);
    GraftAt(d, sub.at, q);
    GraftAt(d, sub.kids, q);
    GraftAt(d, sub.fs, q);
  }

  lemma WithHungKeys(lay: Layout, p: Path, k: string, sub: Layout)
    requires Closed(lay.at) && p in lay.at && p + [k] !in lay.at && [] in sub.at
    requires lay.fs.Keys == lay.kids.Keys == lay.at.Keys && sub.fs.Keys == sub.kids.Keys == sub.at.Keys
    ensures WithHung(lay, p, k, sub).fs.Keys == WithHung(lay, p, k, sub).at.Keys
  {
    var all := WithHung(lay, p, k, sub);
    forall q ensures q in all.at <==> q in all.fs { WithHungAt(lay, p, k, sub, q); }
  }

  /**
   `parent->children[k] = c` for a tree not yet part of this one. When `parent` is itself outside
   this one (`joins` is false), this one does not change.
   */
  method Hang(ghost joins: bool, ghost lay: Layout, ghost p: Path, parent: Node, k: string, c: Node, ghost sub: Layout)
    returns (ghost all: Layout)
    requires Stands(lay)
    requires !joins || (p in lay.at && lay.at[p] == parent && p + [k] !in lay.at)
    requires !joins || (Stands(sub) && [] in sub.at && sub.at[[]] == c && Apart(lay.at, sub.at))
    requires joins || Outside(lay.at, parent)
    modifies parent`children
    ensures all == (if joins then WithHung(lay, p, k, sub) else lay) && Stands(all)
  {
    all := lay;
    if joins {
      all := WithHung(lay, p, k, sub);
      assert ChildrenAt(lay.at, lay.kids[p], p);
      assert AloneAt(lay.at, p) && Outside(sub.at, lay.at[p]) && StandsAt(lay, p);
      HungLinked(lay.at, lay.kids, p, k, c, sub.at, sub.kids);
      WithHungKeys(lay, p, k, sub);
    }
    parent.children := parent.children[k := c];
    if joins {
      forall q | q in all.at ensures StandsAt(all, q) {
        WithHungAt(lay, p, k, sub, q);
        if p + [k] <= q {
          assert old(StandsAt(sub, q[|p + [k]|..]));
        } else {
          assert old(StandsAt(lay, q));
        }
      }
    } else {
      forall q | q in lay.at ensures StandsAt(lay, q) { assert old(StandsAt(lay, q)); }
    }
  }

  // ---------- Taking a tree out ----------

  lemma {:induction false} CutClosed(at: Places, d: Path)
    requires Closed(at) && d != []
    ensures Closed(at - Below(at, d))
  {
    var rest := at - Below(at, d);
    assert !(d <= []);
    forall p {:trigger Parent(p)} | p in rest ensures Parent(p) in rest { ParentPrefix(p); }
  }

  lemma CutLinked(at: Places, kids: Kids, p: Path, k: string)
    requires LinkedBy(at, kids) && p in at && k in kids[p]
    ensures p + [k] in at && kids[p][k] == at[p + [k]]
    ensures LinkedBy(at - Below(at, p + [k]), kids[p := kids[p] - {k}] - Below(at, p + [k]))
  {
    var d := p + [k];
    var rest, restKids := at - Below(at, d), kids[p := kids[p] - {k}] - Below(at, d);
    assert ChildrenAt(at, kids[p], p);
    CutClosed(at, d);
    forall q | q in rest ensures AloneAt(rest, q) { assert AloneAt(at, q); }
    forall q | q in rest ensures ChildrenAt(rest, restKids[q], q) {
      assert ChildrenAt(at, kids[q], q);
      forall l ensures q + [l] in rest <==> q + [l] in at && !(q == p && l == k) {
        if q + [l] == d { assert Parent(q + [l]) == q && Last(q + [l]) == l && Parent(d) == p && Last(d) == k; }
      }
    }
  }

  lemma TakenLinked(at: Places, kids: Kids, d: Path)
    requires LinkedBy(at, kids) && d in at
    ensures LinkedBy(Subtree(at, d), Subtree(kids, d))
    ensures Subtree(at, d)[[]] == at[d]
  {
    var sub, subKids := Subtree(at, d), Subtree(kids, d);
    SubtreeAt(at, d, []);
    assert d + [] == d;
    forall r {:trigger Parent(r)} | r in sub ensures Parent(r) in sub {
      SubtreeAt(at, d, r);
      SubtreeAt(at, d, Parent(r));
      if r != [] { assert Parent(d + r) == d + Parent(r); }
    }
    forall r ensures r in sub <==> r in subKids {
      SubtreeAt(at, d, r);
      SubtreeAt(kids, d, r);
    }
    forall q | q in sub ensures AloneAt(sub, q) {
      SubtreeAt(at, d, q);
      assert AloneAt(at, d + q);
      forall r | r in sub && r != q ensures sub[r] != sub[q] {
        SubtreeAt(at, d, r);
        assert (d + q)[|d|..] == q && (d + r)[|d|..] == r;
      }
    }
    forall r | r in sub ensures ChildrenAt(sub, subKids[r], r) {
      SubtreeAt(at, d, r);
      SubtreeAt(kids, d, r);
      assert ChildrenAt(at, kids[d + r], d + r);
      forall l ensures r + [l] in sub <==> (d + r) + [l] in at
        ensures r + [l] in sub ==> sub[r + [l]] == at[(d + r) + [l]]
      {
        SubtreeAt(at, d, r + [l]);
        assert d + (r + [l]) == (d + r) + [l];
      }
    }
  }

  lemma TakenApart(at: Places, d: Path)
    requires Separate(at)
    ensures Apart(at - Below(at, d), Subtree(at, d))
  {
    forall r | r in Subtree(at, d) ensures d + r in Below(at, d) && Subtree(at, d)[r] == at[d + r] {
      SubtreeAt(at, d, r);
    }
    forall q | q in at - Below(at, d) ensures Outside(Subtree(at, d), at[q]) { assert AloneAt(at, q); }
  }

  ghost function Cut(lay: Layout, p: Path, k: string): Layout
    requires p in lay.kids
  {
    Layout(lay.at - Below(lay.at, p + [k]),
           lay.kids[p := lay.kids[p] - {k}] - Below(lay.at, p + [k]),
           lay.fs - Below(lay.fs, p + [k]),
           lay.nodes)
  }

  ghost function Taken(lay: Layout, d: Path): Layout {
    Layout(Subtree(lay.at, d), Subtree(lay.kids, d), Subtree(lay.fs, d), lay.nodes)
  }

  lemma TakenAt(lay: Layout, d: Path, r: Path)
    requires lay.fs.Keys == lay.kids.Keys == lay.at.Keys
    ensures var sub := Taken(lay, d);
      && (r in sub.at <==> r in sub.fs)
      && (r in sub.at ==> d + r in lay.at && sub.at[r] == lay.at[d + r])
      && (r in sub.at ==> sub.kids[r] == lay.kids[d + r] && sub.fs[r] == lay.fs[d + r])
  {
    SubtreeAt(lay.at, d, r);
    SubtreeAt(lay.kids, d, r);
    SubtreeAt(lay.fs, d, r);
  }

  lemma CutPlaces(lay: Layout, p: Path, k: string)
    requires p in lay.at && lay.fs.Keys == lay.kids.Keys == lay.at.Keys
    ensures var rest := Cut(lay, p, k);
      && rest.fs.Keys == rest.at.Keys
      && p in rest.at && rest.kids[p] == lay.kids[p] - {k}
      && (forall q | q in rest.at :: q in lay.at && rest.at[q] == lay.at[q] && rest.fs[q] == lay.fs[q])
      && (forall q | q in rest.at && q != p :: rest.kids[q] == lay.kids[q])
  {
    assert !(p + [k] <= p);
  }

  /** `parent->children.erase(k)`: the child's whole subtree leaves the tree and stays intact. */
  method Unhang(ghost lay: Layout, ghost p: Path, parent: Node, k: string)
    returns (ghost rest: Layout, ghost sub: Layout)
    requires Stands(lay) && p in lay.at && lay.at[p] == parent && k in parent.children
    modifies parent`children
    ensures parent.children == old(parent.children) - {k}
    ensures p + [k] in lay.at && old(parent.children)[k] == lay.at[p + [k]]
    ensures rest == Cut(lay, p, k) && Stands(rest)
    ensures sub == Taken(lay, p + [k]) && Stands(sub) && [] in sub.at && sub.at[[]] == lay.at[p + [k]]
    ensures Apart(rest.at, sub.at)
  {
    ghost var d := p + [k];
    rest, sub := Cut(lay, p, k), Taken(lay, d);
    assert StandsAt(lay, p);
    CutLinked(lay.at, lay.kids, p, k);
    TakenLinked(lay.at, lay.kids, d);
    TakenApart(lay.at, d);
    CutPlaces(lay, p, k);
    assert !(d <= p) && AloneAt(lay.at, p);
    parent.children := parent.children - {k};
    forall q | q in rest.at ensures StandsAt(rest, q) { assert old(StandsAt(lay, q)); }
    forall r ensures r in sub.at <==> r in sub.fs { TakenAt(lay, d, r); }
    forall r | r in sub.at ensures StandsAt(sub, r) {
      TakenAt(lay, d, r);
      assert d <= d + r && old(StandsAt(lay, d + r));
    }
  }

  // ---------- Copying a subtree ----------

  /** The part of a tree below the given first segments, and its root. */
  ghost function FirstIn(t: FS, ks: seq<string>): FS {
    map r | r in t && (r == [] || r[0] in ks) :: t[r]
  }

  lemma SubtreeChild(fs: FS, p: Path, k: string, r: Path)
    ensures r in Subtree(fs, p + [k]) <==> [k] + r in Subtree(fs, p)
    ensures r in Subtree(fs, p + [k]) ==> Subtree(fs, p + [k])[r] == Subtree(fs, p)[[k] + r]
  {
    SubtreeAt(fs, p, [k] + r);
    SubtreeAt(fs, p + [k], r);
    assert (p + [k]) + r == p + ([k] + r);
  }

  lemma CloneStepAt(fs: FS, p: Path, k: string, r: Path)
    ensures r in Graft([k], Unnamed(Subtree(fs, p + [k]))) <==> r in Subtree(fs, p) && r != [] && r[0] == k
    ensures r in Graft([k], Unnamed(Subtree(fs, p + [k]))) ==>
      Graft([k], Unnamed(Subtree(fs, p + [k])))[r] == Subtree(fs, p)[r].Unnamed()
  {
    GraftAt([k], Unnamed(Subtree(fs, p + [k])), r);
    if r != [] && r[0] == k {
      assert r == [k] + r[1..];
      SubtreeChild(fs, p, k, r[1..]);
    }
  }

  lemma CloneStep(fs: FS, p: Path, ks: seq<string>, i: nat)
    requires i < |ks| && ks[i] !in ks[..i]
    ensures Unnamed(FirstIn(Subtree(fs, p), ks[..i])) + Graft([ks[i]], Unnamed(Subtree(fs, p + [ks[i]])))
         == Unnamed(FirstIn(Subtree(fs, p), ks[..i + 1]))
  {
    assert ks[..i + 1] == ks[..i] + [ks[i]];
    forall r
      ensures r in Graft([ks[i]], Unnamed(Subtree(fs, p + [ks[i]])))
         <==> r in Subtree(fs, p) && r != [] && r[0] == ks[i]
      ensures r in Graft([ks[i]], Unnamed(Subtree(fs, p + [ks[i]]))) ==>
        Graft([ks[i]], Unnamed(Subtree(fs, p + [ks[i]])))[r] == Subtree(fs, p)[r].Unnamed()
    {
      CloneStepAt(fs, p, ks[i], r);
    }
  }

  lemma FirstSegmentIsKey(at: Places, kids: Kids, p: Path, r: Path)
    requires LinkedBy(at, kids) && p in at && p + r in at && r != []
    ensures r[0] in kids[p]
  {
    assert p + [r[0]] <= p + r;
    ClosedUp(at, p + [r[0]], p + r);
    assert ChildrenAt(at, kids[p], p);
  }

  /** All children together, and the root alone. */
  lemma AllFirsts(lay: Layout, p: Path)
    requires LinkedBy(lay.at, lay.kids) && lay.fs.Keys == lay.at.Keys && p in lay.at
    ensures var t, ks := Subtree(lay.fs, p), InOrder(lay.kids[p].Keys);
      FirstIn(t, ks[..|ks|]) == t && FirstIn(t, ks[..0]) == FirstIn(t, [])
  {
    var t, ks := Subtree(lay.fs, p), InOrder(lay.kids[p].Keys);
    assert ks[..|ks|] == ks;
    forall r | r in t && r != [] ensures r[0] in ks {
      SubtreeAt(lay.fs, p, r);
      FirstSegmentIsKey(lay.at, lay.kids, p, r);
      InOrderMembers(lay.kids[p].Keys);
    }
  }

  ghost function Firsts(ks: seq<string>, i: nat): set<string>
    requires i <= |ks|
  {
    set j | 0 <= j < i :: ks[j]
  }

  lemma FirstsStep(s: set<string>, i: nat)
    requires i < |InOrder(s)|
    ensures InOrder(s)[i] in s && InOrder(s)[i] !in InOrder(s)[..i] && InOrder(s)[i] !in Firsts(InOrder(s), i)
    ensures Firsts(InOrder(s), i + 1) == Firsts(InOrder(s), i) + {InOrder(s)[i]}
  {
    InOrderMembers(s);
  }

  /** `clone_node`: a tree of new nodes with the same shape and contents, and without names. */
  method Clone(ghost src: Layout, ghost p: Path, n: Node) returns (out: Node, ghost sub: Layout)
    requires Stands(src) && p in src.at && src.at[p] == n
    ensures Stands(src)
    ensures Stands(sub) && [] in sub.at && sub.at[[]] == out
    ensures sub.fs == Unnamed(Subtree(src.fs, p))
    ensures forall m | m in sub.nodes :: !old(allocated(m))
    decreases Below(src.at, p), 1
  {
    out, sub := CloneRoot(src, p, n);
    assert StandsAt(src, p);
    AllFirsts(src, p);
    var ks := InOrder(n.children.Keys);
    for i := 0 to |ks|
      invariant Stands(src)
      invariant Stands(sub) && [] in sub.at && sub.at[[]] == out
      invariant forall m | m in sub.nodes :: !old(allocated(m))
      invariant sub.kids[[]].Keys == Firsts(ks, i)
      invariant sub.fs == Unnamed(FirstIn(Subtree(src.fs, p), ks[..i]))
    {
      FirstsStep(src.kids[p].Keys, i);
      CloneStep(src.fs, p, ks, i);
      assert StandsAt(src, p) && StandsAt(sub, []);
      sub := CloneInto(src, p, n, ks[i], out, sub);
    }
  }

  method CloneRoot(ghost src: Layout, ghost p: Path, n: Node) returns (out: Node, ghost sub: Layout)
    requires Stands(src) && p in src.at && src.at[p] == n
    ensures Stands(src) && Stands(sub)
    ensures [] in sub.at && sub.at[[]] == out && sub.kids[[]] == map[]
    ensures sub.fs == Unnamed(FirstIn(Subtree(src.fs, p), []))
    ensures forall m | m in sub.nodes :: !old(allocated(m))
  {
    assert StandsAt(src, p);
    out := new Node(n.isDir, "", n.content);
    ghost var e := src.fs[p].Unnamed();
    sub := Layout(map[[] := out], map[[] := map[]], map[[] := e], {out});
    LeafLinkedBy(out, sub.at, sub.kids);
    assert StandsAt(sub, []);
    RootOnly(src.fs, p, sub.fs);
  }

  lemma RootOnly(fs: FS, p: Path, t: FS)
    requires p in fs && t == map[[] := fs[p].Unnamed()]
    ensures t == Unnamed(FirstIn(Subtree(fs, p), []))
  {
    SubtreeAt(fs, p, []);
    assert p + [] == p;
  }

  /** One turn of the loop: `out->children[k] = clone_node(child)`. */
  method CloneInto(ghost src: Layout, ghost p: Path, n: Node, k: string, out: Node, ghost sub: Layout)
    returns (ghost all: Layout)
    requires Stands(src) && p in src.at && src.at[p] == n && k in n.children
    requires Stands(sub) && [] in sub.at && sub.at[[]] == out && k !in sub.kids[[]] && out !in src.nodes
    modifies out`children
    ensures Stands(src)
    ensures Stands(all) && [] in all.at && all.at[[]] == out
    ensures all.kids[[]].Keys == sub.kids[[]].Keys + {k}
    ensures all.fs == sub.fs + Graft([k], Unnamed(Subtree(src.fs, p + [k])))
    ensures forall m | m in all.nodes :: m in sub.nodes || !old(allocated(m))
    decreases Below(src.at, p), 0
  {
    assert ChildrenAt(src.at, src.kids[p], p) && StandsAt(src, p);
    BelowShrinks(src.at, p, k);
    RootHasNo(sub, k);
    var c;
    ghost var csub;
    c, csub := Clone(src, p + [k], n.children[k]);
    RootWithHung(sub, k, csub);
    forall r | r in sub.at ensures Outside(csub.at, sub.at[r]) {
      assert StandsAt(sub, r);
      forall q | q in csub.at ensures csub.at[q] != sub.at[r] { assert StandsAt(csub, q); }
    }
    all := Hang(true, sub, [], out, k, c, csub);
  }

  lemma RootHasNo(sub: Layout, k: string)
    requires LinkedBy(sub.at, sub.kids) && k !in sub.kids[[]]
    ensures [] + [k] == [k] && [k] !in sub.at
  {
    assert ChildrenAt(sub.at, sub.kids[[]], []);
    assert [] + [k] == [k];
  }

  lemma RootWithHung(sub: Layout, k: string, csub: Layout)
    requires LinkedBy(sub.at, sub.kids) && LinkedBy(csub.at, csub.kids) && [k] !in sub.at
    requires sub.fs.Keys == sub.at.Keys && csub.fs.Keys == csub.at.Keys
    ensures [] + [k] == [k]
    ensures var all := WithHung(sub, [], k, csub);
      && [] in all.at && all.at[[]] == sub.at[[]]
      && [] in all.kids && all.kids[[]].Keys == sub.kids[[]].Keys + {k}
      && all.fs == sub.fs + Graft([k], csub.fs)
      && all.nodes == sub.nodes + csub.nodes
  {
    assert [] + [k] == [k];
    WithHungAt(sub, [], k, csub, []);
    HungAt(sub.at, [k], csub.at, []);
  }

  // ---------- A node without children ----------

  lemma LeafLinkedBy(c: Node, sub: Places, subKids: Kids)
    requires sub == map[[] := c] && subKids == map[[] := map[]]
    ensures LinkedBy(sub, subKids)
  {
    assert Parent([]) == [];
    forall k ensures [] + [k] !in sub { assert [] + [k] != []; }
    assert ChildrenAt(sub, subKids[[]], []);
  }

  lemma HungLeaf<V>(m: map<Path, V>, d: Path, t: map<Path, V>, v: V)
    requires t == map[[] := v]
    ensures m + Graft(d, t) == m[d := v]
  {
    forall q ensures q in Graft(d, t) <==> q == d {
      GraftAt(d, t, q);
      if d <= q && q[|d|..] == [] { assert q == d; }
    }
    GraftAt(d, t, d);
    assert d[|d|..] == [];
  }

  /** The links after `parent->children[k] = c` for a new node without children. */
  lemma LeafJoins(at: Places, kids: Kids, p: Path, k: string, c: Node)
    requires LinkedBy(at, kids) && p in at && p + [k] !in at && Outside(at, c)
    ensures LinkedBy(at[p + [k] := c], kids[p := kids[p][k := c]][p + [k] := map[]])
    ensures at[p + [k] := c][[]] == at[[]] && AloneAt(at, p)
  {
    var sub: Places := map[[] := c];
    var subKids: Kids := map[[] := map[]];
    LeafLinkedBy(c, sub, subKids);
    assert ChildrenAt(at, kids[p], p);
    HungLinked(at, kids, p, k, c, sub, subKids);
    HungLeaf(at, p + [k], sub, c);
    HungLeaf(kids[p := kids[p][k := c]], p + [k], subKids, map[]);
  }

  /** The layout with a new node without children at `path + [seg]`. */
  ghost function WithLeaf(lay: Layout, path: Path, seg: string, c: Node, e: Entry): Layout
    requires path in lay.kids
  {
    Layout(lay.at[path + [seg] := c],
           lay.kids[path := lay.kids[path][seg := c]][path + [seg] := map[]],
           lay.fs[path + [seg] := e],
           lay.nodes + {c})
  }

  lemma LeafPlaces(lay: Layout, path: Path, seg: string, c: Node, e: Entry)
    requires path in lay.at && lay.kids.Keys == lay.fs.Keys == lay.at.Keys && path + [seg] !in lay.at
    ensures var next := WithLeaf(lay, path, seg, c, e);
      && next.fs.Keys == next.at.Keys
      && next.at[path + [seg]] == c && next.kids[path + [seg]] == map[] && next.fs[path + [seg]] == e
      && next.kids[path] == lay.kids[path][seg := c]
      && (forall p | p in next.at && p != path + [seg] ::
            p in lay.at && next.at[p] == lay.at[p] && next.fs[p] == lay.fs[p])
      && (forall p | p in next.at && p != path + [seg] && p != path :: next.kids[p] == lay.kids[p])
  {
    assert path != path + [seg];
  }

  /** `parent->children[k] = c` for a new node without children. */
  method HangLeaf(ghost lay: Layout, ghost p: Path, parent: Node, k: string, c: Node, ghost e: Entry)
    returns (ghost next: Layout)
    requires Stands(lay) && p in lay.at && lay.at[p] == parent && p + [k] !in lay.at
    requires c.children == map[] && Outside(lay.at, c)
    requires e == if c.isDir then Dir(c.name) else File(c.name, c.content)
    modifies parent`children
    ensures next == WithLeaf(lay, p, k, c, e) && Stands(next)
  {
    next := WithLeaf(lay, p, k, c, e);
    LeafJoins(lay.at, lay.kids, p, k, c);
    LeafPlaces(lay, p, k, c, e);
    assert StandsAt(lay, p);
    parent.children := parent.children[k := c];
    forall q | q in next.at ensures StandsAt(next, q) {
      if q != p + [k] { assert old(StandsAt(lay, q)); }
    }
  }
}
