/** Runs of the public operations: transactions, the quota and the dump conditions over whole histories. */
module Transactions {
  import opened Strings
  import opened Paths
  import opened FileSystem
  import opened FileSystemLaws
  import opened Dump
  import opened RoundTrip

  datatype Op =
    | Mkdir(path: string)
    | Touch(path: string)
    | Write(path: string, content: string)
    | Remove(path: string, recursive: bool)
    | Move(from: string, to: string)
    | Copy(from: string, to: string, recursive: bool)
    | Seal(on: bool)
    | SetQuota(bytes: nat)
    | BeginTx
    | CommitTx
    | RollbackTx

  /** What the caller sees: the returned bool, or the exception of a malformed length. */
  datatype Reply = Returned(ok: bool) | Exception

  ghost function DoBegin(st: State): (State, bool) {
    if st.tx.Some? then (st, false) else (st.(tx := Some(DumpText(st.fs))), true)
  }

  ghost function DoCommit(st: State): (State, bool) {
    if st.tx.None? then (st, false) else (st.(tx := None), true)
  }

  /** An exception leaves the transaction open and the tree as far as it was loaded. */
  ghost function DoRollback(st: State): (State, Reply) {
    if st.tx.None? then (st, Returned(false))
    else
      match DoLoad(st, st.tx.value)
      case Loaded(loaded) => (loaded.(tx := None), Returned(true))
      case Threw(partial) => (partial, Exception)
  }

  ghost function Step(st: State, op: Op): (State, Reply) {
    match op
    case Mkdir(path) => Returning(DoMkdir(st, path))
    case Touch(path) => Returning(DoTouch(st, path))
    case Write(path, content) => Returning(DoWrite(st, path, content))
    case Remove(path, recursive) => Returning(DoRemove(st, path, recursive))
    case Move(from, to) => Returning(DoMove(st, from, to))
    case Copy(from, to, recursive) => Returning(DoCopy(st, from, to, recursive))
    case Seal(on) => (st.(isSealed := on), Returned(true))
    case SetQuota(bytes) => (st.(quota := bytes), Returned(true))
    case BeginTx => Returning(DoBegin(st))
    case CommitTx => Returning(DoCommit(st))
    case RollbackTx => DoRollback(st)
  }

  ghost function Returning(r: (State, bool)): (State, Reply) { (r.0, Returned(r.1)) }

  lemma StepKeepsShape(st: State, op: Op)
    requires TreeShaped(st.fs)
    ensures TreeShaped(Step(st, op).0.fs)
  {
    match op
    case Mkdir(path) => MkdirKeepsShape(st, path);
    case Touch(path) => TouchKeepsShape(st, path);
    case Write(path, content) => WriteKeepsShape(st, path, content);
    case Remove(path, recursive) => RemoveKeepsShape(st, path, recursive);
    case Move(from, to) => MoveKeepsShape(st, from, to);
    case Copy(from, to, recursive) => CopyKeepsShape(st, from, to, recursive);
    case RollbackTx => RollbackKeepsShape(st);
    case _ =>
  }

  lemma RollbackKeepsShape(st: State)
    requires TreeShaped(st.fs)
    ensures TreeShaped(DoRollback(st).0.fs)
  {
    if st.tx.Some? {
      EmptyTree();
      LoadedIsSafe(st.(fs := EMPTY), st.tx.value);
    }
  }

  ghost function Run(st: State, ops: seq<Op>): State
    decreases |ops|
  {
    if ops == [] then st else Run(Step(st, ops[0]).0, ops[1..])
  }

  lemma {:induction false} RunKeepsShape(st: State, ops: seq<Op>)
    requires TreeShaped(st.fs)
    ensures TreeShaped(Run(st, ops).fs)
    decreases |ops|
  {
    if ops == [] {
    } else {
      StepKeepsShape(st, ops[0]);
      RunKeepsShape(Step(st, ops[0]).0, ops[1..]);
    }
  }

  // ---------- Transactions ----------

  /** What one call leaves alone besides the tree. */
  lemma StepFrame(st: State, op: Op)
    ensures !op.CommitTx? && !op.RollbackTx? && st.tx.Some? ==> Step(st, op).0.tx == st.tx
    ensures !op.SetQuota? ==> Step(st, op).0.quota == st.quota
    ensures !op.Seal? ==> Step(st, op).0.isSealed == st.isSealed
  {
    if op.RollbackTx? && st.tx.Some? {
      EmptyTree();
      LoadedIsSafe(st.(fs := EMPTY), st.tx.value);
    }
  }

  /** While a transaction is open nothing but commit and rollback touches its snapshot. */
  lemma {:induction false} SnapshotKept(st: State, ops: seq<Op>)
    requires st.tx.Some? && CommitTx !in ops && RollbackTx !in ops
    ensures Run(st, ops).tx == st.tx
    decreases |ops|
  {
    if ops == [] {
    } else {
      assert ops[0] in ops;
      StepFrame(st, ops[0]);
      SnapshotKept(Step(st, ops[0]).0, ops[1..]);
    }
  }

  /** No second transaction opens while one is active. */
  lemma NestedBeginFails(st: State, ops: seq<Op>)
    requires st.tx.Some? && CommitTx !in ops && RollbackTx !in ops
    ensures Step(Run(st, ops), BeginTx) == (Run(st, ops), Returned(false))
  {
    SnapshotKept(st, ops);
  }

  /**
   Whatever ran in between, a rollback gives back the tree of the begin, and reports success,
   exactly when that tree is one a dump can carry, the quota in force at the rollback admits it and
   the file system is not sealed then.
   */
  lemma RollbackRestoresExactly(st: State, ops: seq<Op>)
    requires TreeShaped(st.fs) && st.tx.None?
    requires CommitTx !in ops && RollbackTx !in ops
    ensures var before := Run(DoBegin(st).0, ops);
      DoRollback(before) == (before.(fs := st.fs, tx := None), Returned(true))
      <==> DumpSafe(st.fs) && FitsQuota(st.fs, before.quota) && (!before.isSealed || st.fs == EMPTY)
  {
    SnapshotKept(DoBegin(st).0, ops);
    RollbackOf(st.fs, Run(DoBegin(st).0, ops));
  }

  lemma RollbackOf(fs: FS, before: State)
    requires TreeShaped(fs) && before.tx == Some(DumpText(fs))
    ensures DoRollback(before) == (before.(fs := fs, tx := None), Returned(true))
      <==> DumpSafe(fs) && FitsQuota(fs, before.quota) && (!before.isSealed || fs == EMPTY)
    ensures DumpSafe(DoRollback(before).0.fs)
  {
    RoundTripExactly(fs, before);
    EmptyTree();
    LoadedIsSafe(before.(fs := EMPTY), DumpText(fs));
    var loaded := DoLoad(before, DumpText(fs));
    assert loaded.st == before.(fs := loaded.st.fs);
  }

  /** A commit keeps the current tree; the snapshot is gone, so a rollback after it does nothing. */
  lemma CommitIsFinal(st: State, ops: seq<Op>)
    requires st.tx.None? && CommitTx !in ops && RollbackTx !in ops
    ensures var before := Run(Step(st, BeginTx).0, ops);
      && Step(before, CommitTx) == (before.(tx := None), Returned(true))
      && Step(before.(tx := None), RollbackTx) == (before.(tx := None), Returned(false))
  {
    SnapshotKept(Step(st, BeginTx).0, ops);
  }

  /** Whether a transaction is open after these calls: the last begin or commit decides. */
  ghost predicate OpenAfter(wasOpen: bool, ops: seq<Op>)
    decreases |ops|
  {
    if ops == [] then wasOpen else OpenAfter(ops[0] == BeginTx || (wasOpen && ops[0] != CommitTx), ops[1..])
  }

  lemma {:induction false} OpenExactly(st: State, ops: seq<Op>)
    requires RollbackTx !in ops
    ensures Run(st, ops).tx.Some? <==> OpenAfter(st.tx.Some?, ops)
    decreases |ops|
  {
    if ops == [] {
    } else {
      assert ops[0] in ops;
      OpenStep(st, ops[0]);
      OpenExactly(Step(st, ops[0]).0, ops[1..]);
    }
  }

  /** What the three answer after any run: a begin succeeds when no transaction is open, the others when one is. */
  lemma RepliesOfTransactions(st: State, ops: seq<Op>)
    requires RollbackTx !in ops
    ensures var s, open := Run(st, ops), OpenAfter(st.tx.Some?, ops);
      && Step(s, BeginTx).1 == Returned(!open) && Step(s, BeginTx).0.tx.Some?
      && Step(s, CommitTx) == (s.(tx := None), Returned(open))
      && (Step(s, RollbackTx) == (s, Returned(false)) <==> !open)
  {
    OpenExactly(st, ops);
    Answers(Run(st, ops));
  }

  lemma OpenStep(st: State, op: Op)
    requires op != RollbackTx
    ensures Step(st, op).0.tx.Some? <==> op == BeginTx || (st.tx.Some? && op != CommitTx)
  {
  }

  lemma Answers(s: State)
    ensures Step(s, BeginTx).1 == Returned(s.tx.None?) && Step(s, BeginTx).0.tx.Some?
    ensures Step(s, CommitTx) == (s.(tx := None), Returned(s.tx.Some?))
    ensures Step(s, RollbackTx) == (s, Returned(false)) <==> s.tx.None?
  {
  }

  // ---------- The quota ----------

  /** Operations that can take the tree over the quota: the code checks it in `Write` only. */
  ghost predicate Overshoots(st: State, op: Op) {
    match op
    case Copy(from, to, recursive) =>
      && CopyAllowed(st, Normal(from), Normal(to), recursive)
      && st.quota > 0 && Used(st.fs) + Used(Subtree(st.fs, Normal(from))) > st.quota
    case SetQuota(bytes) => bytes > 0 && Used(st.fs) > bytes
    case _ => false
  }

  lemma QuotaCopy(st: State, from: string, to: string, recursive: bool)
    requires TreeShaped(st.fs)
    ensures var r := DoCopy(st, from, to, recursive);
      && (r.1 <==> CopyAllowed(st, Normal(from), Normal(to), recursive))
      && (!r.1 ==> r.0 == st)
      && (r.1 ==> Used(r.0.fs) == Used(st.fs) + Used(Subtree(st.fs, Normal(from))) && r.0.quota == st.quota)
  {
    FailureChangesNothing(st, from, to, "", recursive);
    CopyMeaning(st, from, to, recursive);
  }

  lemma BytesNeverGrow(st: State, op: Op)
    requires TreeShaped(st.fs) && (op.Mkdir? || op.Touch? || op.Remove? || op.Move?)
    ensures Used(Step(st, op).0.fs) <= Used(st.fs)
  {
    match op
    case Mkdir(path) => MkdirMeaning(st, path);
    case Touch(path) => TouchMeaning(st, path);
    case Remove(path, recursive) => RemoveSubtractsSubtree(st, path, recursive);
    case Move(from, to) =>
      FailureChangesNothing(st, from, to, "", false);
      if DoMove(st, from, to).1 {
        MoveConservesBytes(st, from, to);
      }
  }

  lemma RollbackFits(st: State)
    requires TreeShaped(st.fs) && FitsQuota(st.fs, st.quota)
    ensures FitsQuota(DoRollback(st).0.fs, st.quota) && DoRollback(st).0.quota == st.quota
  {
    if st.tx.Some? {
      EmptyTree();
      LoadedIsSafe(st.(fs := EMPTY), st.tx.value);
    }
  }

  /** One call leaves the tree within the quota in force exactly when it is none of the overshooting ones. */
  lemma QuotaStepExactly(st: State, op: Op)
    requires TreeShaped(st.fs) && FitsQuota(st.fs, st.quota)
    ensures FitsQuota(Step(st, op).0.fs, Step(st, op).0.quota) <==> !Overshoots(st, op)
  {
    StepFrame(st, op);
    match op
    case Write(path, content) => WriteFitsQuota(st, path, content);
    case Copy(from, to, recursive) => QuotaCopy(st, from, to, recursive);
    case RollbackTx => RollbackFits(st);
    case Seal(_) =>
    case SetQuota(_) =>
    case BeginTx =>
    case CommitTx =>
    case _ => BytesNeverGrow(st, op);
  }

  /** A root with one file in it. */
  ghost predicate OneFile(fs: FS, a: string, content: string) {
    fs.Keys == {[], [a]} && fs[[]] == Dir("/") && fs[[a]] == File(a, content)
  }

  lemma OneFileShape(fs: FS, a: string, content: string)
    requires OneFile(fs, a, content) && Canonical([a])
    ensures TreeShaped(fs)
    ensures ' ' !in a && '\n' !in a && |content| <= MAX_STRING ==> DumpSafe(fs)
  {
    assert Parent([a]) == [];
    forall p | p in fs ensures p == [] || p == [a] {}
    if ' ' !in a && '\n' !in a && |content| <= MAX_STRING {
      EmptyTree();
      assert SafeEntry([], EMPTY[[]]);
      assert [] + [a] == [a];
      RenderChild([], a);
    }
  }

  lemma OneFileUsed(fs: FS, a: string, content: string)
    requires OneFile(fs, a, content)
    ensures Used(fs) == |content| && Used(Subtree(fs, [a])) == |content|
  {
    UsedStep(fs, [a]);
    UsedZero(fs - {[a]});
    UsedSubtree(fs, [a]);
    assert [a] in Below(fs, [a]);
    UsedZero(fs - Below(fs, [a]));
  }

  lemma OneFileAllows(st: State, a: string, content: string, b: string)
    requires OneFile(st.fs, a, content) && !st.isSealed && a != b
    ensures CopyAllowed(st, [a], [b], true) && !([a] <= [b])
  {
    assert [a][0] != [b][0];
    assert Parent([b]) == [];
    assert !Blocked(st.fs, []);
  }

  /**
   Copies that overshoot: from a tree within quota, one call with all its checks passed ends over the
   quota, for every content that fits once and not twice. A move between the same paths succeeds too.
   */
  lemma CopyOvershoots(st: State, from: string, a: string, content: string, to: string, b: string)
    requires OneFile(st.fs, a, content) && Normal(from) == [a] && Normal(to) == [b] && a != b
    requires |content| <= st.quota < 2 * |content| && !st.isSealed
    ensures TreeShaped(st.fs) && FitsQuota(st.fs, st.quota)
    ensures DoMove(st, from, to).1 && !(Normal(from) <= Normal(to))
    ensures Overshoots(st, Copy(from, to, true)) && DoCopy(st, from, to, true).1
    ensures Used(DoCopy(st, from, to, true).0.fs) == 2 * |content| > st.quota
  {
    OneFileShape(st.fs, a, content);
    OneFileUsed(st.fs, a, content);
    OneFileAllows(st, a, content, b);
    QuotaCopy(st, from, to, true);
    MoveMeaning(st, from, to);
  }

  /** Any run without copies and quota changes stays within the quota it started in. */
  lemma {:induction false} QuotaRun(st: State, ops: seq<Op>)
    requires TreeShaped(st.fs) && FitsQuota(st.fs, st.quota)
    requires forall op | op in ops :: !op.Copy? && !op.SetQuota?
    ensures FitsQuota(Run(st, ops).fs, st.quota) && Run(st, ops).quota == st.quota
    decreases |ops|
  {
    if ops == [] {
    } else {
      assert ops[0] in ops;
      StepKeepsShape(st, ops[0]);
      QuotaStepExactly(st, ops[0]);
      StepFrame(st, ops[0]);
      assert !Overshoots(st, ops[0]);
      QuotaRun(Step(st, ops[0]).0, ops[1..]);
    }
  }

  // ---------- Histories that can always be rolled back ----------

  ghost predicate OneWord(path: string) { '\n' !in path && ' ' !in path }

  /** A condition on the call alone: one-word paths, no copy, no renaming move. */
  ghost predicate Tame(op: Op) {
    match op
    case Mkdir(path) => OneWord(path)
    case Touch(path) => OneWord(path)
    case Write(path, content) => OneWord(path) && |content| <= MAX_STRING
    case Move(from, to) => OneWord(to) && Last(Normal(from)) == Last(Normal(to))
    case Copy(_, _, _) => false
    case _ => true
  }

  lemma TouchSafe(st: State, path: string)
    requires TreeShaped(st.fs) && DumpSafe(st.fs) && OneWord(path)
    ensures DumpSafe(DoTouch(st, path).0.fs)
  {
    var p := Normal(path);
    NormalCharacters(path, '\n');
    NormalCharacters(path, ' ');
    ParentPrefix(p);
    PrefixCharacters(p, Parent(p), '\n');
    MakeDirsSafe(st.fs, Parent(p));
    var fs' := DoTouch(st, path).0.fs;
    forall q | q in fs' ensures SafeEntry(q, fs'[q]) {
      if q in st.fs { assert SafeEntry(q, st.fs[q]); }
      if q in MakeDirs(st.fs, Parent(p)) { assert SafeEntry(q, MakeDirs(st.fs, Parent(p))[q]); }
    }
  }

  lemma MoveSafe(st: State, from: string, to: string)
    requires TreeShaped(st.fs) && DumpSafe(st.fs) && Tame(Move(from, to))
    ensures DumpSafe(DoMove(st, from, to).0.fs)
  {
    var s, d := Normal(from), Normal(to);
    FailureChangesNothing(st, from, to, "", false);
    if DoMove(st, from, to).1 {
      NormalCharacters(to, '\n');
      NormalCharacters(to, ' ');
      ParentPrefix(d);
      PrefixCharacters(d, Parent(d), '\n');
      if s <= d { MoveMeaning(st, from, to); } else { MoveKeepsDumpable(st, from, to); }
    }
  }

  lemma TameStep(st: State, op: Op)
    requires TreeShaped(st.fs) && DumpSafe(st.fs) && Tame(op)
    ensures DumpSafe(Step(st, op).0.fs)
  {
    match op
    case Mkdir(path) => MkdirSafe(st, path);
    case Touch(path) => TouchSafe(st, path);
    case Write(path, content) => WriteSafe(st, path, content);
    case Move(from, to) => MoveSafe(st, from, to);
    case RollbackTx =>
      if st.tx.Some? {
        EmptyTree();
        LoadedIsSafe(st.(fs := EMPTY), st.tx.value);
      }
    case _ =>
  }

  lemma {:induction false} TameRun(st: State, ops: seq<Op>)
    requires TreeShaped(st.fs) && DumpSafe(st.fs)
    requires forall op | op in ops :: Tame(op)
    ensures DumpSafe(Run(st, ops).fs)
    decreases |ops|
  {
    if ops == [] {
    } else {
      assert ops[0] in ops;
      StepKeepsShape(st, ops[0]);
      TameStep(st, ops[0]);
      TameRun(Step(st, ops[0]).0, ops[1..]);
    }
  }

  /**
   After any tame history of a fresh file system, every transaction can be rolled back to the very
   tree it began with, whatever runs inside it, as long as the rollback happens unsealed and with
   room for that tree.
   */
  lemma TameHistoriesRollBack(start: State, history: seq<Op>, ops: seq<Op>)
    requires start.fs == EMPTY
    requires forall op | op in history :: Tame(op)
    requires CommitTx !in ops && RollbackTx !in ops
    ensures var st := Run(start, history);
      st.tx.None? ==>
        var before := Run(DoBegin(st).0, ops);
        !before.isSealed && FitsQuota(st.fs, before.quota) ==>
          DoRollback(before) == (before.(fs := st.fs, tx := None), Returned(true))
  {
    EmptyTree();
    TameRun(start, history);
    RunKeepsShape(start, history);
    var st := Run(start, history);
    if st.tx.None? { RollbackRestoresExactly(st, ops); }
  }

  /** A copy inside the history breaks this at once: no later rollback gives that tree back. */
  lemma CopyThenRollbackLosesTheTree(st: State, from: string, to: string, recursive: bool, ops: seq<Op>)
    requires TreeShaped(st.fs) && st.tx.None? && DoCopy(st, from, to, recursive).1
    requires CommitTx !in ops && RollbackTx !in ops
    ensures var copied := DoCopy(st, from, to, recursive).0;
      TreeShaped(copied.fs) && DoRollback(Run(DoBegin(copied).0, ops)).0.fs != copied.fs
  {
    var copied := DoCopy(st, from, to, recursive).0;
    CopyKeepsShape(st, from, to, recursive);
    CopiedIsUnsafe(st, from, to, recursive);
    SnapshotKept(DoBegin(copied).0, ops);
    RollbackOf(copied.fs, Run(DoBegin(copied).0, ops));
  }
}
