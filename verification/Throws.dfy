/** When loading a dump, and so a rollback, throws. */
module Throws {
  import opened Strings
  import opened Paths
  import opened FileSystem
  import opened FileSystemLaws
  import opened Dump
  import opened RoundTrip
  import opened Transactions

  // ---------- It is a matter of the text alone ----------

  /** The text still unread after one turn of the read loop; none when the length cannot be read. */
  ghost function TurnRest(line: string, rest: string): (r: Option<string>)
    ensures r.Some? ==> |r.value| <= |rest|
  {
    if line == "" || line[0] == '#' || "DIR " <= line || !("FILE " <= line) then Some(rest)
    else
      match ParseFileLine(line[5..])
      case NoLength => Some(rest)
      case BadLength => None
      case FileLine(_, len) => Some(AfterBlock(rest, len))
  }

  ghost predicate TextThrows(text: string)
    decreases |text|
  {
    if text == "" then false
    else
      var i := Find(text, '\n');
      match TurnRest(text[..i], Rest(text, i))
      case None => true
      case Some(rest) => TextThrows(rest)
  }

  /** Loading throws or not whatever the seal, the quota and the tree are. */
  lemma {:induction false} ThrowsByText(st: State, text: string)
    ensures LoadLines(st, text).Threw? <==> TextThrows(text)
    decreases |text|
  {
    if text == "" {
    } else {
      var turn := ReadTurn(st, text);
      if turn.Next? { ThrowsByText(turn.st, turn.rest); }
    }
  }

  /** A rollback throws exactly when its snapshot does, and then the transaction stays open; else it is closed. */
  lemma RollbackByText(before: State)
    requires before.tx.Some?
    ensures DoRollback(before).1 == if TextThrows(before.tx.value) then Exception else Returned(true)
    ensures DoRollback(before).0.tx == if TextThrows(before.tx.value) then before.tx else None
  {
    ThrowsByText(before.(fs := EMPTY), before.tx.value);
    EmptyTree();
    LoadedIsSafe(before.(fs := EMPTY), before.tx.value);
  }

  /** A snapshot of a dumpable tree never throws, sealed or not and whatever the quota. */
  lemma DumpableNeverThrows(fs: FS, before: State)
    requires TreeShaped(fs) && DumpSafe(fs) && before.tx == Some(DumpText(fs))
    ensures DoRollback(before).1 == Returned(true) && DoRollback(before).0.tx == None
  {
    var open := State(EMPTY, 0, false, None);
    DumpLoads(fs, open);
    ThrowsByText(open.(fs := EMPTY), DumpText(fs));
    RollbackByText(before);
  }

  // ---------- What the printed paths decide ----------

  /** The path the dump prints for a node, from the names on the way to it. */
  ghost function PrintedAt(fs: FS, p: Path): string
    decreases |p|
  {
    if p == [] || p !in fs then "/" else PrintedPath(PrintedAt(fs, Parent(p)), fs[p].name)
  }

  /** An entry that is not read back as printed: a newline in its path, a space in a file's, an endless content. */
  ghost predicate Odd(fs: FS, p: Path) {
    && p in fs
    && ('\n' in PrintedAt(fs, p) || (fs[p].File? && (' ' in PrintedAt(fs, p) || |fs[p].content| > MAX_STRING)))
  }

  /** The first such entry in the order of the dump. */
  ghost function FirstOdd(fs: FS, p: Path): Option<Path>
    decreases Below(fs, p), 1, 0
  {
    if p !in fs then None
    else if Odd(fs, p) then Some(p)
    else if fs[p].File? then None
    else FirstOddAmong(fs, p, InOrder(ChildKeys(fs, p)))
  }

  ghost function FirstOddAmong(fs: FS, p: Path, ks: seq<string>): Option<Path>
    requires p in fs
    decreases Below(fs, p), 0, |ks|
  {
    if ks == [] then None
    else
      BelowShrinks(fs, p, ks[0]);
      var first := FirstOdd(fs, p + [ks[0]]);
      if first.Some? then first else FirstOddAmong(fs, p, ks[1..])
  }

  /** A file on one line on which no length can be read, as when no number follows the first space of its path. */
  ghost predicate Stops(fs: FS, p: Path) {
    && p in fs && fs[p].File? && '\n' !in PrintedAt(fs, p)
    && ParseFileLine(PrintedAt(fs, p) + " " + Decimal(|fs[p].content|)) == BadLength
  }

  lemma {:induction false} FirstOddIs(fs: FS, p: Path)
    requires TreeShaped(fs)
    ensures FirstOdd(fs, p).Some? <==> OddBelow(fs, p)
    ensures FirstOdd(fs, p).Some? ==> p <= FirstOdd(fs, p).value && Odd(fs, FirstOdd(fs, p).value)
    decreases Below(fs, p), 1, 0
  {
    if p !in fs {
      forall q | p <= q ensures !Odd(fs, q) {
        if q in fs { Ancestors(fs, p, q); }
      }
    } else if Odd(fs, p) {
      assert p <= p;
    } else if fs[p].File? {
      forall q | p <= q ensures !Odd(fs, q) {
        if q in fs { Ancestors(fs, p, q); }
      }
    } else {
      FirstOddAmongIs(fs, p, InOrder(ChildKeys(fs, p)));
      OddInChild(fs, p);
    }
  }

  ghost predicate OddBelow(fs: FS, p: Path) { exists q :: p <= q && Odd(fs, q) }

  ghost predicate OddAmong(fs: FS, p: Path, ks: seq<string>) { exists k :: k in ks && OddBelow(fs, p + [k]) }

  lemma OddUp(fs: FS, p: Path, k: string)
    requires OddBelow(fs, p + [k])
    ensures OddBelow(fs, p)
  {
    var q :| p + [k] <= q && Odd(fs, q);
    assert p <= q;
  }

  lemma OddInChild(fs: FS, p: Path)
    requires TreeShaped(fs) && p in fs && !Odd(fs, p)
    ensures OddBelow(fs, p) <==> OddAmong(fs, p, InOrder(ChildKeys(fs, p)))
  {
    if OddBelow(fs, p) {
      var q :| p <= q && Odd(fs, q);
      FirstStepIsChild(fs, p, q);
      assert p + [q[|p|]] <= q && OddBelow(fs, p + [q[|p|]]);
    }
    if OddAmong(fs, p, InOrder(ChildKeys(fs, p))) {
      var k :| k in InOrder(ChildKeys(fs, p)) && OddBelow(fs, p + [k]);
      OddUp(fs, p, k);
    }
  }

  lemma {:induction false} FirstOddAmongIs(fs: FS, p: Path, ks: seq<string>)
    requires TreeShaped(fs) && p in fs
    ensures FirstOddAmong(fs, p, ks).Some? <==> OddAmong(fs, p, ks)
    ensures FirstOddAmong(fs, p, ks).Some? ==>
              p <= FirstOddAmong(fs, p, ks).value && Odd(fs, FirstOddAmong(fs, p, ks).value)
    decreases Below(fs, p), 0, |ks|
  {
    if ks == [] {
    } else {
      BelowShrinks(fs, p, ks[0]);
      FirstOddIs(fs, p + [ks[0]]);
      FirstOddAmongIs(fs, p, ks[1..]);
      assert forall k :: k in ks <==> k == ks[0] || k in ks[1..];
    }
  }

  // ---------- One printed line ----------

  lemma LineThrows(line: string, rest: string)
    requires '\n' !in line
    ensures TextThrows(line + "\n" + rest) <==>
              match TurnRest(line, rest)
              case None => true
              case Some(r) => TextThrows(r)
  {
    var text := line + "\n" + rest;
    FindAfter(line, '\n', rest);
    assert text == line + ['\n'] + rest;
    assert text[..|line|] == line && text[|line| + 1..] == rest;
  }

  lemma DirThrows(path: string, rest: string)
    requires '\n' !in path
    ensures TextThrows("DIR " + path + "\n" + rest) <==> TextThrows(rest)
  {
    LineThrows("DIR " + path, rest);
  }

  lemma FileTurn(body: string, rest: string)
    ensures TurnRest("FILE " + body, rest) ==
              match ParseFileLine(body)
              case NoLength => Some(rest)
              case BadLength => None
              case FileLine(_, len) => Some(AfterBlock(rest, len))
  {
    var line := "FILE " + body;
    assert line[0] == 'F' && line[5..] == body;
  }

  lemma FileThrows(path: string, content: string, rest: string)
    requires '\n' !in path
    requires ParseFileLine(path + " " + Decimal(|content|)) == BadLength || (' ' !in path && |content| <= MAX_STRING)
    ensures TextThrows("FILE " + path + " " + Decimal(|content|) + "\n" + content + "\n" + rest)
       <==> ParseFileLine(path + " " + Decimal(|content|)) == BadLength || TextThrows(rest)
  {
    var number, tail := Decimal(|content|), content + "\n" + rest;
    assert '\n' !in number by { assert forall c | c in number :: IsDigit(c); }
    FileLineText(path, number);
    Regroup("FILE " + path + " " + number + "\n", content, "\n", rest);
    LineThrows("FILE " + (path + " " + number), tail);
    FileTurn(path + " " + number, tail);
    if ParseFileLine(path + " " + number) != BadLength {
      ParseFileLineOf(path, |content|);
      BlockOf(content, rest);
    }
  }

  // ---------- A printed subtree ----------

  lemma DirNodeText(fs: FS, p: Path, prefix: string, path: string, rest: string)
    requires p in fs && fs[p].Dir? && path == PrintedPath(prefix, fs[p].name)
    ensures NodeText(fs, p, prefix) + rest ==
            "DIR " + path + "\n" + (ChildrenText(fs, p, InOrder(ChildKeys(fs, p)), path) + rest)
  {
  }

  lemma FirstChildText(fs: FS, p: Path, ks: seq<string>, path: string, rest: string)
    requires p in fs && ks != []
    ensures ChildrenText(fs, p, ks, path) + rest ==
            (if p + [ks[0]] in fs then NodeText(fs, p + [ks[0]], path) else "")
            + (ChildrenText(fs, p, ks[1..], path) + rest)
  {
  }

  lemma FileNodeThrows(fs: FS, p: Path, rest: string)
    requires TreeShaped(fs) && p in fs && p != [] && fs[p].File? && (Odd(fs, p) ==> Stops(fs, p))
    ensures TextThrows(NodeText(fs, p, PrintedAt(fs, Parent(p))) + rest) <==> Odd(fs, p) || TextThrows(rest)
  {
    var path, content := PrintedAt(fs, p), fs[p].content;
    if !Odd(fs, p) { ParseFileLineOf(path, |content|); }
    FileThrows(path, content, rest);
  }

  lemma {:induction false} NodeThrows(fs: FS, p: Path, rest: string)
    requires TreeShaped(fs) && p in fs && p != []
    requires FirstOdd(fs, p).Some? ==> Stops(fs, FirstOdd(fs, p).value)
    ensures TextThrows(NodeText(fs, p, PrintedAt(fs, Parent(p))) + rest) <==> FirstOdd(fs, p).Some? || TextThrows(rest)
    decreases Below(fs, p), 1, 0
  {
    if fs[p].File? {
      FileNodeThrows(fs, p, rest);
    } else {
      var ks, path := InOrder(ChildKeys(fs, p)), PrintedAt(fs, p);
      DirNodeText(fs, p, PrintedAt(fs, Parent(p)), path, rest);
      DirThrows(path, ChildrenText(fs, p, ks, path) + rest);
      ChildrenThrow(fs, p, ks, rest);
    }
  }

  lemma {:induction false} ChildrenThrow(fs: FS, p: Path, ks: seq<string>, rest: string)
    requires TreeShaped(fs) && p in fs
    requires FirstOddAmong(fs, p, ks).Some? ==> Stops(fs, FirstOddAmong(fs, p, ks).value)
    ensures TextThrows(ChildrenText(fs, p, ks, PrintedAt(fs, p)) + rest)
       <==> FirstOddAmong(fs, p, ks).Some? || TextThrows(rest)
    decreases Below(fs, p), 0, |ks|
  {
    var path := PrintedAt(fs, p);
    if ks == [] {
      assert ChildrenText(fs, p, ks, path) + rest == rest;
    } else {
      var c := p + [ks[0]];
      var others := ChildrenText(fs, p, ks[1..], path) + rest;
      BelowShrinks(fs, p, ks[0]);
      FirstChildText(fs, p, ks, path, rest);
      if FirstOdd(fs, c).None? { ChildrenThrow(fs, p, ks[1..], rest); }
      if c in fs {
        ChildPath(p, ks[0]);
        NodeThrows(fs, c, others);
      } else {
        assert "" + others == others;
      }
    }
  }

  lemma HeaderThrows(rest: string)
    ensures TextThrows(HEADER + rest) <==> TextThrows(rest)
  {
    var line := HEADER[..|HEADER| - 1];
    assert HEADER == line + "\n" && '\n' !in line && line[0] == '#';
    LineThrows(line, rest);
  }

  lemma OneDirNeverThrows(path: string)
    requires '\n' !in path
    ensures !TextThrows(HEADER + ("DIR " + path + "\n"))
  {
    var text := "DIR " + path + "\n";
    HeaderThrows(text);
    assert text + "" == text;
    DirThrows(path, "");
  }

  /**
   Loading what was printed throws exactly when some entry is not read back as printed, provided that the
   first one in the order of the dump is a file on whose line no length can be read. Nothing is asked of
   the entries behind it.
   */
  lemma DumpThrowsExactly(fs: FS)
    requires TreeShaped(fs) && (FirstOdd(fs, []).Some? ==> Stops(fs, FirstOdd(fs, []).value))
    ensures TextThrows(DumpText(fs)) <==> exists p :: Odd(fs, p)
  {
    var ks := InOrder(ChildKeys(fs, []));
    FirstOddIs(fs, []);
    forall p | Odd(fs, p) ensures [] <= p {}
    InOrderMembers(ChildKeys(fs, []));
    if ChildKeys(fs, []) == {} {
      OneDirNeverThrows("/");
      assert "DIR " + "/" + "\n" == "DIR /\n";
    } else {
      var text := ChildrenText(fs, [], ks, "/");
      assert text + "" == text;
      ChildrenThrow(fs, [], ks, "");
      HeaderThrows(text);
    }
  }

  /**
   After any run of calls inside a transaction a rollback throws, and leaves it open, exactly when at its
   beginning some entry could not be read back as printed, under the same condition on the first such
   entry; else it closes the transaction.
   */
  lemma RollbackThrowsExactly(st: State, ops: seq<Op>)
    requires TreeShaped(st.fs) && (FirstOdd(st.fs, []).Some? ==> Stops(st.fs, FirstOdd(st.fs, []).value))
    requires st.tx.None? && CommitTx !in ops && RollbackTx !in ops
    ensures var before := Run(DoBegin(st).0, ops);
      && (DoRollback(before).1 == Exception <==> exists p :: Odd(st.fs, p))
      && (DoRollback(before).1 == Exception ==> DoRollback(before).0.tx == before.tx)
      && (DoRollback(before).1 != Exception ==>
            DoRollback(before) == (DoRollback(before).0.(tx := None), Returned(true)))
  {
    SnapshotKept(DoBegin(st).0, ops);
    RollbackByText(Run(DoBegin(st).0, ops));
    DumpThrowsExactly(st.fs);
  }

  // ---------- A tree that is lost ----------

  lemma OneFileKeys(fs: FS, a: string, content: string)
    requires OneFile(fs, a, content)
    ensures InOrder(ChildKeys(fs, [])) == [a] && ChildKeys(fs, []) != {}
  {
    forall k ensures k in ChildKeys(fs, []) <==> k == a {
      ChildKeysAre(fs, [], k);
      assert [] + [k] == [k];
    }
    assert ChildKeys(fs, []) == {a};
    InOrderMembers({a});
  }

  lemma OneFileNode(fs: FS, a: string, content: string)
    requires OneFile(fs, a, content) && Plain(a)
    ensures NodeText(fs, [a], "/") == "FILE " + ("/" + a + " " + Decimal(|content|)) + ("\n" + (content + "\n"))
  {
    assert a[0] in a;
    assert ("/" + a)[1] == a[0];
    FileLineText("/" + a, Decimal(|content|));
    Ends("FILE " + ("/" + a + " " + Decimal(|content|)), content);
  }

  lemma Ends(line: string, content: string)
    ensures line + "\n" + content + "\n" == line + ("\n" + (content + "\n"))
  {
  }

  lemma OneFileText(fs: FS, a: string, content: string)
    requires OneFile(fs, a, content) && Plain(a)
    ensures DumpText(fs) == HEADER + ("FILE " + ("/" + a + " " + Decimal(|content|)) + ("\n" + (content + "\n")))
  {
    OneFileKeys(fs, a, content);
    OneFileNode(fs, a, content);
    OnlyChildText(fs, a);
  }

  lemma OnlyChildText(fs: FS, a: string)
    requires [] in fs && [a] in fs
    ensures ChildrenText(fs, [], [a], "/") == NodeText(fs, [a], "/")
  {
    assert [a][1..] == [] && [] + [a] == [a];
    assert ChildrenText(fs, [], [], "/") == "";
  }

  /** A word that `std::stoul` makes nothing of. */
  ghost predicate NoNumber(y: string) {
    y != "" && !IsSpace(y[0]) && !IsDigit(y[0]) && y[0] != '-' && y[0] != '+'
  }

  lemma NoLengthAfterSpace(x: string, y: string, number: string)
    requires ' ' !in x && NoNumber(y)
    ensures ParseFileLine("/" + (x + " " + y) + " " + number) == BadLength
  {
    var body, tail := "/" + (x + " " + y) + " " + number, y + " " + number;
    assert body == ("/" + x) + [' '] + tail;
    FindAfter("/" + x, ' ', tail);
    assert body[|"/" + x| + 1..] == tail;
    assert tail[0] == y[0];
  }

  lemma BadLine(st: State, body: string, rest: string)
    requires ParseFileLine(body) == BadLength
    ensures ReadLine(st, "FILE " + body, rest) == Throw
  {
    var line := "FILE " + body;
    assert line[0] == 'F' && line[5..] == body;
  }

  lemma ThrowsAtOnce(st: State, line: string, rest: string)
    requires '\n' !in line && ReadLine(st, line, rest) == Throw
    ensures LoadLines(st, HEADER + (line + ("\n" + rest))) == Threw(st)
  {
    LoadHeader(st, line + ("\n" + rest));
    assert line + ("\n" + rest) == line + "\n" + rest;
    ReadTurnLine(st, line, rest);
  }

  lemma OneBodyLine(a: string, number: string)
    requires '\n' !in a && '\n' !in number
    ensures '\n' !in "FILE " + ("/" + a + " " + number)
  {
  }

  /**
   A rollback that throws loses the tree: one file whose name is two words, the second no number, and the
   loader stops at its first line.
   */
  lemma SpacedRollbackThrows(st: State, x: string, y: string, content: string)
    requires OneFile(st.fs, x + " " + y, content) && Canonical([x + " " + y]) && '\n' !in x + " " + y
    requires ' ' !in x && NoNumber(y) && st.tx.None?
    ensures TreeShaped(st.fs)
    ensures DoRollback(DoBegin(st).0) == (st.(fs := EMPTY, tx := DoBegin(st).0.tx), Exception)
  {
    var a, number := x + " " + y, Decimal(|content|);
    var body, empty := "/" + a + " " + number, DoBegin(st).0.(fs := EMPTY);
    OneFileShape(st.fs, a, content);
    assert a in [a];
    OneFileText(st.fs, a, content);
    NoLengthAfterSpace(x, y, number);
    assert '\n' !in number by { assert forall c | c in number :: IsDigit(c); }
    OneBodyLine(a, number);
    BadLine(empty, body, content + "\n");
    ThrowsAtOnce(empty, "FILE " + body, content + "\n");
  }
}
