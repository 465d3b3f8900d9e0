/** Whole sessions on a file system object: the calls do to the nodes what the abstract steps do to the tree. */
module Sessions {
  import opened Paths
  import opened FileSystem
  import opened Dump
  import opened RoundTrip
  import opened Transactions
  import opened TreeSteps
  import opened VirtualFileSystem

  /** A call that is about the tree changes nothing else. */
  lemma TreeCallFrame(st: State, op: Op)
    requires TreeShaped(st.fs)
    requires op.Mkdir? || op.Touch? || op.Write? || op.Remove? || op.Move? || op.Copy?
    ensures Step(st, op).0 == st.(fs := Step(st, op).0.fs)
  {
  }

  /** One call that is about the tree. */
  method CallTree(v: Vfs, op: Op) returns (ok: bool)
    requires v.Valid() && (op.Mkdir? || op.Touch? || op.Write? || op.Remove? || op.Move? || op.Copy?)
    modifies v`lay, v.lay.nodes
    ensures v.Valid() && v.lay.fs == Step(old(v.Model()), op).0.fs && Returned(ok) == Step(old(v.Model()), op).1
    ensures forall n | n in v.lay.nodes :: n in old(v.lay.nodes) || !old(allocated(n))
  {
    match op
    case Mkdir(path) => ok := v.Mkdir(path);
    case Touch(path) => ok := v.Touch(path);
    case Write(path, content) => ok := v.Write(path, content);
    case Remove(path, recursive) => ok := v.Remove(path, recursive);
    case Move(from, to) => ok := v.Move(from, to);
    case Copy(from, to, recursive) => ok := v.Copy(from, to, recursive);
  }

  method CallRollback(v: Vfs) returns (r: Reply)
    requires v.Valid()
    modifies v, v.lay.nodes
    ensures v.Valid() && (v.Model(), r) == DoRollback(old(v.Model()))
    ensures forall n | n in v.lay.nodes :: n in old(v.lay.nodes) || !old(allocated(n))
  {
    RollbackFrame(v.Model());
    r := v.RollbackTx();
  }

  /** A setting; it leaves the nodes alone. */
  method CallSetting(v: Vfs, op: Op)
    requires v.Valid() && (op.Seal? || op.SetQuota?)
    modifies v`quota, v`isSealed
    ensures v.Valid() && (v.Model(), Returned(true)) == Step(old(v.Model()), op)
  {
    match op
    case Seal(on) => v.Seal(on);
    case SetQuota(bytes) => v.SetQuota(bytes);
  }

  /** A begin or a commit; they leave the nodes alone too. */
  method CallTransaction(v: Vfs, op: Op) returns (ok: bool)
    requires v.Valid() && (op.BeginTx? || op.CommitTx?)
    modifies v`txActive, v`txSnapshot
    ensures v.Valid() && (v.Model(), Returned(ok)) == Step(old(v.Model()), op)
  {
    match op
    case BeginTx => ok := v.BeginTx();
    case CommitTx => ok := v.CommitTx();
  }

  /** Any one call. */
  method Call(v: Vfs, op: Op) returns (r: Reply)
    requires v.Valid()
    modifies v, v.lay.nodes
    ensures v.Valid() && (v.Model(), r) == Step(old(v.Model()), op)
    ensures forall n | n in v.lay.nodes :: n in old(v.lay.nodes) || !old(allocated(n))
  {
    if op.RollbackTx? {
      r := CallRollback(v);
    } else if op.Seal? || op.SetQuota? {
      CallSetting(v, op);
      r := Returned(true);
    } else if op.BeginTx? || op.CommitTx? {
      var ok := CallTransaction(v, op);
      r := Returned(ok);
    } else {
      TreeCallFrame(v.Model(), op);
      var ok := CallTree(v, op);
      r := Returned(ok);
    }
  }

  /** What the calls of a run answer, in order. */
  ghost function Replies(st: State, ops: seq<Op>): (rs: seq<Reply>)
    ensures |rs| == |ops|
    decreases |ops|
  {
    if ops == [] then [] else [Step(st, ops[0]).1] + Replies(Step(st, ops[0]).0, ops[1..])
  }

  /** The answer at every place is the one the abstract step gives after the calls before it. */
  lemma {:induction false} ReplyAt(st: State, ops: seq<Op>, i: nat)
    requires i < |ops|
    ensures Replies(st, ops)[i] == Step(Run(st, ops[..i]), ops[i]).1
    decreases |ops|
  {
    if i == 0 {
      assert ops[..0] == [];
    } else {
      ReplyAt(Step(st, ops[0]).0, ops[1..], i - 1);
      assert ops[1..][..i - 1] == ops[..i][1..];
    }
  }

  /** A run of calls, with their answers. */
  method Play(v: Vfs, ops: seq<Op>) returns (rs: seq<Reply>)
    requires v.Valid()
    modifies v, v.lay.nodes
    ensures v.Valid() && v.Model() == Run(old(v.Model()), ops) && rs == Replies(old(v.Model()), ops)
    ensures forall n | n in v.lay.nodes :: n in old(v.lay.nodes) || !old(allocated(n))
    decreases |ops|
  {
    if ops == [] { return []; }
    var r := Call(v, ops[0]);
    var rest := Play(v, ops[1..]);
    rs := [r] + rest;
  }

  /**
   A transaction that is rolled back, on the nodes: whatever runs inside it, the tree of its beginning is
   back exactly when that tree could be dumped faithfully and fits, and loading is not sealed off.
   */
  method PlayAndRollBack(v: Vfs, ops: seq<Op>) returns (r: Reply)
    requires v.Valid() && !v.txActive && CommitTx !in ops && RollbackTx !in ops
    modifies v, v.lay.nodes
    ensures v.Valid()
    ensures v.lay.fs == old(v.lay.fs) && !v.txActive && r == Returned(true)
            <==> DumpSafe(old(v.lay.fs)) && FitsQuota(old(v.lay.fs), v.quota) && (!v.isSealed || old(v.lay.fs) == EMPTY)
  {
    ghost var st := v.Model();
    var begun := v.BeginTx();
    var replies := Play(v, ops);
    RollbackRestoresExactly(st, ops);
    RollbackFrame(v.Model());
    r := CallRollback(v);
  }

  /** The first write into an empty file system. */
  lemma WrittenFile(st: State, path: string, a: string, content: string)
    requires st.fs == EMPTY && !st.isSealed && (st.quota == 0 || |content| <= st.quota) && Normal(path) == [a]
    ensures DoWrite(st, path, content).1 && OneFile(DoWrite(st, path, content).0.fs, a, content)
  {
    EmptyTree();
    UsedZero(EMPTY);
    assert Parent([a]) == [];
    assert !Blocked(EMPTY, []);
    forall q ensures q in MakeDirs(EMPTY, []) <==> q == [] { MakeDirsAt(EMPTY, [], q); }
  }

  method FullOfOneFile(path: string, ghost a: string, content: string) returns (v: Vfs)
    requires Normal(path) == [a]
    ensures !old(allocated(v)) && forall n | n in v.lay.nodes :: !old(allocated(n))
    ensures v.Valid() && OneFile(v.lay.fs, a, content) && v.quota == |content| && !v.isSealed
  {
    v := new Vfs();
    v.SetQuota(|content|);
    WrittenFile(v.Model(), path, a, content);
    var wrote := v.Write(path, content);
  }

  lemma CopiedBytes(st: State, from: string, to: string, content: string)
    requires |Normal(from)| == |Normal(to)| == 1 && Normal(from) != Normal(to) && content != ""
    requires OneFile(st.fs, Normal(from)[0], content) && st.quota == |content| && !st.isSealed
    ensures Used(DoCopy(st, from, to, true).0.fs) == 2 * |content|
  {
    CopyOvershoots(st, from, Normal(from)[0], content, to, Normal(to)[0]);
  }

  /** On the nodes: a file system with room for one file ends a copy with twice as many bytes as its quota. */
  method CopyPastTheQuota(from: string, to: string, content: string) returns (v: Vfs, bytes: nat)
    requires |Normal(from)| == |Normal(to)| == 1 && Normal(from) != Normal(to) && content != ""
    ensures v.Valid() && v.quota == |content| && bytes == Used(v.lay.fs) && bytes == 2 * |content|
  {
    v := FullOfOneFile(from, Normal(from)[0], content);
    CopiedBytes(v.Model(), from, to, content);
    var copied := v.Copy(from, to, true);
    bytes := v.UsedBytes();
  }
}
