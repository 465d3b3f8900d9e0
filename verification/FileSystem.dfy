/**
 The abstract file system: a finite map from segment lists to entries, and what each public
 operation of `Vfs` does to it. An entry keeps the node's own `name`, because the dump prints
 that name and not the key under which the node is stored.
 */
module FileSystem {
  import opened Strings
  import opened Paths

  datatype Entry = Dir(name: string) | File(name: string, content: string) {
    function Size(): nat { if File? then |content| else 0 }

    /** `clone_node` copies kind and content, not the name. */
    function Unnamed(): Entry { if Dir? then Dir("") else File("", content) }
  }

  type FS = map<Path, Entry>

  /** `quota` 0 means unlimited; `tx` is the snapshot text while a transaction is active. */
  datatype State = State(fs: FS, quota: nat, isSealed: bool, tx: Option<string>)

  ghost const EMPTY: FS := map[[] := Dir("/")]

  ghost function Parent(p: Path): Path { if p == [] then [] else p[..|p| - 1] }

  ghost function Last(p: Path): string { if p == [] then "/" else p[|p| - 1] }

  /** What a tree of nodes below one root directory looks like as a map. */
  ghost predicate TreeShaped(fs: FS) {
    && [] in fs
    && fs[[]] == Dir("/")
    && (forall p | p in fs :: Canonical(p))
    && (forall p {:trigger Parent(p)} | p in fs :: Parent(p) in fs && fs[Parent(p)].Dir?)
  }

  ghost function Below<V>(fs: map<Path, V>, p: Path): set<Path> { set q | q in fs && p <= q }

  lemma BelowShrinks<V>(fs: map<Path, V>, p: Path, k: string)
    requires p in fs
    ensures Below(fs, p + [k]) < Below(fs, p)
  {
    assert p in Below(fs, p) && !(p + [k] <= p);
  }

  ghost function Restrict<V>(fs: map<Path, V>, s: set<Path>): map<Path, V> { map q | q in fs && q in s :: fs[q] }

  ghost predicate IsSubtree<V>(t: map<Path, V>, fs: map<Path, V>, p: Path) {
    && (forall r {:trigger r in t} :: r in t <==> p + r in fs)
    && (forall r {:trigger t[r]} | r in t :: p + r in fs && t[r] == fs[p + r])
  }

  lemma SubtreeExists<V>(fs: map<Path, V>, p: Path)
    ensures exists t :: IsSubtree(t, fs, p)
  {
    var t := map r | r in (set q | q in Below(fs, p) :: q[|p|..]) && p + r in fs :: fs[p + r];
    forall r | p + r in fs ensures r in t {
      assert p + r in Below(fs, p) && (p + r)[|p|..] == r;
    }
    assert IsSubtree(t, fs, p);
  }

  /** The subtree at `p`, with paths relative to `p`. */
  ghost function Subtree<V>(fs: map<Path, V>, p: Path): (t: map<Path, V>) {
    SubtreeExists(fs, p);
    var t :| IsSubtree(t, fs, p);
    t
  }

  ghost predicate IsGraft<V>(g: map<Path, V>, p: Path, t: map<Path, V>) {
    && (forall q {:trigger q in g} :: q in g <==> p <= q && q[|p|..] in t)
    && (forall q {:trigger g[q]} | q in g :: p <= q && q[|p|..] in t && g[q] == t[q[|p|..]])
  }

  lemma GraftExists<V>(p: Path, t: map<Path, V>)
    ensures exists g :: IsGraft(g, p, t)
  {
    var g := map q | q in (set r | r in t :: p + r) && p <= q && q[|p|..] in t :: t[q[|p|..]];
    forall q | p <= q && q[|p|..] in t ensures q in g {
      assert q == p + q[|p|..];
    }
    assert IsGraft(g, p, t);
  }

  /** The same tree hung below `p`. */
  ghost function Graft<V>(p: Path, t: map<Path, V>): map<Path, V> {
    GraftExists(p, t);
    var g :| IsGraft(g, p, t);
    g
  }

  ghost function Unnamed(t: FS): FS { map r | r in t :: t[r].Unnamed() }

  lemma SubtreeAt<V>(fs: map<Path, V>, p: Path, r: Path)
    ensures r in Subtree(fs, p) <==> p + r in fs
    ensures r in Subtree(fs, p) ==> Subtree(fs, p)[r] == fs[p + r]
  {
    assert IsSubtree(Subtree(fs, p), fs, p);
  }

  lemma GraftAt<V>(p: Path, t: map<Path, V>, q: Path)
    ensures q in Graft(p, t) <==> p <= q && q[|p|..] in t
    ensures q in Graft(p, t) ==> Graft(p, t)[q] == t[q[|p|..]]
  {
    assert IsGraft(Graft(p, t), p, t);
  }

  // ---------- Creating ancestors ----------

  ghost function Prefixes(p: Path): set<Path> { set i | 0 <= i <= |p| :: p[..i] }

  lemma PrefixesAre(p: Path, q: Path)
    ensures q in Prefixes(p) <==> q <= p
  {
    if q <= p { assert q == p[..|q|]; }
  }

  ghost predicate Blocked(fs: FS, p: Path) {
    exists q :: q <= p && q in fs && fs[q].File?
  }

  /** `fs` with every missing prefix of `p` added as a directory. */
  ghost function MakeDirs(fs: FS, p: Path): FS {
    fs + map q | q in Prefixes(p) && q !in fs :: Dir(Last(q))
  }

  ghost function EnsureDirs(fs: FS, p: Path): Option<FS> {
    if Blocked(fs, p) then None else Some(MakeDirs(fs, p))
  }

  lemma MakeDirsAt(fs: FS, p: Path, q: Path)
    ensures q in MakeDirs(fs, p) <==> q in fs || q <= p
    ensures q in fs ==> MakeDirs(fs, p)[q] == fs[q]
    ensures q !in fs && q <= p ==> MakeDirs(fs, p)[q] == Dir(Last(q))
  {
    PrefixesAre(p, q);
  }

  // ---------- The operations ----------

  ghost function DoMkdir(st: State, path: string): (State, bool) {
    if st.isSealed then (st, false)
    else
      match EnsureDirs(st.fs, Normal(path))
      case None => (st, false)
      case Some(g) => (st.(fs := g), true)
  }

  ghost function DoTouch(st: State, path: string): (State, bool) {
    var p := Normal(path);
    if st.isSealed || p == [] then (st, false)
    else
      match EnsureDirs(st.fs, Parent(p))
      case None => (st, false)
      case Some(g) => (st.(fs := if p in g then g else g[p := File(Last(p), "")]), true)
  }

  ghost function DoRead(st: State, path: string): Option<string> {
    var p := Normal(path);
    if p in st.fs && st.fs[p].File? then Some(st.fs[p].content) else None
  }

  ghost function SizeAt(fs: FS, p: Path): nat { if p in fs then fs[p].Size() else 0 }

  ghost predicate OverQuota(st: State, p: Path, content: string) {
    st.quota > 0 && Used(st.fs) - SizeAt(st.fs, p) + |content| > st.quota
  }

  ghost function DoWrite(st: State, path: string, content: string): (State, bool) {
    var p := Normal(path);
    if OverQuota(st, p, content) || st.isSealed then (st, false)
    else if p in st.fs then
      if st.fs[p].Dir? then (st, false)
      else (st.(fs := st.fs[p := File(st.fs[p].name, content)]), true)
    else
      match EnsureDirs(st.fs, Parent(p))
      case None => (st, false)
      case Some(g) => (st.(fs := g[p := File(Last(p), content)]), true)
  }

  ghost function DoRemove(st: State, path: string, recursive: bool): (State, bool) {
    var p := Normal(path);
    if st.isSealed || p == [] || p !in st.fs then (st, false)
    else if Below(st.fs, p) != {p} && !recursive then (st, false)
    else (st.(fs := st.fs - Below(st.fs, p)), true)
  }

  /** The subtree at `s` taken out and hung at `d`. */
  ghost function Relocate(fs: FS, s: Path, d: Path): FS {
    (fs - Below(fs, s)) + Graft(d, Subtree(fs, s))
  }

  /**
   A move whose destination lies below its source hangs the source node into its own subtree:
   the subtree is then reachable only from itself, so from the root it is gone.
   */
  ghost function DoMove(st: State, from: string, to: string): (State, bool) {
    var s, d := Normal(from), Normal(to);
    if st.isSealed || s == [] || d == [] || s !in st.fs then (st, false)
    else
      match EnsureDirs(st.fs, Parent(d))
      case None => (st, false)
      case Some(g) =>
        if d in g then (st.(fs := g), false)
        else if s <= d then (st.(fs := g - Below(g, s)), true)
        else (st.(fs := Relocate(g, s, d)), true)
  }

  /** The copy is taken after the destination's ancestors exist. */
  ghost function DoCopy(st: State, from: string, to: string, recursive: bool): (State, bool) {
    var s, d := Normal(from), Normal(to);
    if st.isSealed || s == [] || d == [] || s !in st.fs then (st, false)
    else if st.fs[s].Dir? && !recursive then (st, false)
    else
      match EnsureDirs(st.fs, Parent(d))
      case None => (st, false)
      case Some(g) =>
        if d in g then (st.(fs := g), false)
        else (st.(fs := g + Graft(d, Unnamed(Subtree(g, s)))), true)
  }

  // ---------- Bytes in use ----------

  ghost function Used(m: FS): nat {
    if m == map[] then 0
    else
      var p :| p in m;
      m[p].Size() + Used(m - {p})
  }

  lemma {:induction false} UsedStep(m: FS, p: Path)
    requires p in m
    ensures Used(m) == m[p].Size() + Used(m - {p})
    decreases |m|
  {
    var q :| q in m && Used(m) == m[q].Size() + Used(m - {q});
    if q == p {
    } else {
      UsedStep(m - {q}, p);
      UsedStep(m - {p}, q);
      assert m - {q} - {p} == m - {p} - {q};
    }
  }

  lemma UsedInsert(m: FS, p: Path, e: Entry)
    requires p !in m
    ensures Used(m[p := e]) == Used(m) + e.Size()
  {
    UsedStep(m[p := e], p);
    assert m[p := e] - {p} == m;
  }

  lemma UsedReplace(m: FS, p: Path, e: Entry)
    requires p in m
    ensures Used(m[p := e]) == Used(m) - m[p].Size() + e.Size()
    ensures Used(m) >= m[p].Size()
  {
    UsedStep(m, p);
    UsedStep(m[p := e], p);
    assert m[p := e] - {p} == m - {p};
  }

  lemma {:induction false} UsedUnion(a: FS, b: FS)
    requires forall p | p in b :: p !in a
    ensures Used(a + b) == Used(a) + Used(b)
    decreases |b|
  {
    if b == map[] {
      assert a + b == a;
    } else {
      var p :| p in b;
      UsedStep(a + b, p);
      UsedStep(b, p);
      UsedUnion(a, b - {p});
      UnionWithout(a, b, p);
    }
  }

  lemma UnionWithout(a: FS, b: FS, p: Path)
    requires p !in a
    ensures (a + b) - {p} == a + (b - {p})
  {
  }

  lemma UsedSplit(m: FS, s: set<Path>)
    ensures Used(m) == Used(m - s) + Used(Restrict(m, s))
  {
    assert m == (m - s) + Restrict(m, s);
    UsedUnion(m - s, Restrict(m, s));
  }

  lemma {:induction false} UsedZero(m: FS)
    requires forall p | p in m :: m[p].Size() == 0
    ensures Used(m) == 0
    decreases |m|
  {
    if m == map[] {
    } else {
      var p :| p in m;
      UsedStep(m, p);
      UsedZero(m - {p});
    }
  }

  lemma {:induction false} UsedGraft(p: Path, t: FS)
    ensures Used(Graft(p, t)) == Used(t)
    decreases |t|
  {
    if t == map[] {
      assert Graft(p, t) == map[];
    } else {
      var r :| r in t;
      GraftAt(p, t, p + r);
      assert (p + r)[|p|..] == r;
      UsedStep(Graft(p, t), p + r);
      UsedStep(t, r);
      GraftWithout(p, t, r);
      UsedGraft(p, t - {r});
    }
  }

  lemma GraftWithout(p: Path, t: FS, r: Path)
    requires r in t
    ensures Graft(p, t) - {p + r} == Graft(p, t - {r})
  {
    var a, b := Graft(p, t) - {p + r}, Graft(p, t - {r});
    forall q ensures q in a <==> q in b ensures q in a ==> a[q] == b[q] {
      GraftAt(p, t, q);
      GraftAt(p, t - {r}, q);
      if p <= q { assert q == p + q[|p|..]; }
    }
  }

  lemma {:induction false} UsedUnnamed(t: FS)
    ensures Used(Unnamed(t)) == Used(t)
    decreases |t|
  {
    if t == map[] {
      assert Unnamed(t) == map[];
    } else {
      var r :| r in t;
      UsedStep(t, r);
      UsedStep(Unnamed(t), r);
      assert Unnamed(t) - {r} == Unnamed(t - {r});
      UsedUnnamed(t - {r});
    }
  }

  /** A subtree's bytes are the bytes of the entries below its root. */
  lemma UsedSubtree(fs: FS, p: Path)
    ensures Used(Subtree(fs, p)) == Used(Restrict(fs, Below(fs, p)))
    ensures Used(fs) == Used(fs - Below(fs, p)) + Used(Subtree(fs, p))
  {
    GraftSubtree(fs, p);
    UsedGraft(p, Subtree(fs, p));
    UsedSplit(fs, Below(fs, p));
  }

  /** Hanging a subtree back where it was taken. */
  lemma GraftSubtree(fs: FS, p: Path)
    ensures Graft(p, Subtree(fs, p)) == Restrict(fs, Below(fs, p))
  {
    forall q
      ensures q in Graft(p, Subtree(fs, p)) <==> q in Restrict(fs, Below(fs, p))
      ensures q in Graft(p, Subtree(fs, p)) ==> Graft(p, Subtree(fs, p))[q] == Restrict(fs, Below(fs, p))[q]
    {
      GraftSubtreeAt(fs, p, q);
    }
  }

  lemma GraftSubtreeAt(fs: FS, p: Path, q: Path)
    ensures q in Graft(p, Subtree(fs, p)) <==> q in fs && p <= q
    ensures q in Graft(p, Subtree(fs, p)) ==> Graft(p, Subtree(fs, p))[q] == fs[q]
  {
    GraftAt(p, Subtree(fs, p), q);
    if p <= q {
      assert q == p + q[|p|..];
      SubtreeAt(fs, p, q[|p|..]);
    }
  }

  lemma UsedMakeDirs(fs: FS, p: Path)
    ensures Used(MakeDirs(fs, p)) == Used(fs)
  {
    var added: FS := map q | q in Prefixes(p) && q !in fs :: Dir(Last(q));
    UsedZero(added);
    UsedUnion(fs, added);
  }
}
