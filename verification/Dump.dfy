/** The dump text: what `SaveDump` prints, what `LoadDump` makes of an arbitrary text, and when the
    two are inverse. */
module Dump {
  import opened Strings
  import opened Paths
  import opened FileSystem
  import opened FileSystemLaws

  // ---------- Printing ----------

  const HEADER: string := "# NEON VFS dump v1\n"

  ghost function ChildKeys(fs: FS, p: Path): set<string> {
    set q | q in fs && q != [] && Parent(q) == p :: Last(q)
  }

  lemma ChildKeysAre(fs: FS, p: Path, k: string)
    ensures k in ChildKeys(fs, p) <==> p + [k] in fs
  {
    if p + [k] in fs {
      assert Parent(p + [k]) == p && Last(p + [k]) == k;
    }
    if k in ChildKeys(fs, p) {
      var q :| q in fs && q != [] && Parent(q) == p && Last(q) == k;
      ParentPrefix(q);
    }
  }

  function PrintedPath(prefix: string, name: string): string {
    var path := if prefix == "/" then "/" + name else prefix + "/" + name;
    if name == "/" || path == "//" then "/" else path
  }

  /** `write_node`: the path is built from the names of the nodes on the way down. */
  ghost function NodeText(fs: FS, p: Path, prefix: string): string
    requires p in fs
    decreases Below(fs, p), 1, 0
  {
    var path := PrintedPath(prefix, fs[p].name);
    match fs[p]
    case Dir(_) => "DIR " + path + "\n" + ChildrenText(fs, p, InOrder(ChildKeys(fs, p)), path)
    case File(_, content) => "FILE " + path + " " + Decimal(|content|) + "\n" + content + "\n"
  }

  ghost function ChildrenText(fs: FS, p: Path, ks: seq<string>, path: string): string
    requires p in fs
    decreases Below(fs, p), 0, |ks|
  {
    if ks == [] then ""
    else
      BelowShrinks(fs, p, ks[0]);
      (if p + [ks[0]] in fs then NodeText(fs, p + [ks[0]], path) else "") + ChildrenText(fs, p, ks[1..], path)
  }

  ghost function DumpText(fs: FS): string {
    HEADER
    + if [] !in fs || ChildKeys(fs, []) == {} then "DIR /\n" else ChildrenText(fs, [], InOrder(ChildKeys(fs, [])), "/")
  }

  // ---------- Parsing ----------

  const TWO64: nat := 0x1_0000_0000_0000_0000

  /** No std::string is longer than this: constructing one throws. */
  const MAX_STRING: nat := 0x7FFF_FFFF_FFFF_FFFF

  predicate IsSpace(c: char) { c == ' ' || '\t' <= c <= '\r' }

  /** The longest run of digits at the front. */
  function Digits(s: string): (d: string)
    ensures forall c | c in d :: IsDigit(c)
  {
    if s == "" || !IsDigit(s[0]) then "" else [s[0]] + Digits(s[1..])
  }

  /** `std::stoul`: None stands for the exception it throws. */
  function Stoul(s: string): Option<nat> {
    if s != "" && IsSpace(s[0]) then Stoul(s[1..])
    else
      var signed := s != "" && (s[0] == '-' || s[0] == '+');
      var d := Digits(if signed then s[1..] else s);
      if d == "" || DigitsValue(d) >= TWO64 then None
      else if signed && s[0] == '-' then Some((TWO64 - DigitsValue(d)) % TWO64)
      else Some(DigitsValue(d))
  }

  datatype LoadResult = Loaded(st: State) | Threw(st: State)

  function Rest(text: string, i: nat): string { if i < |text| then text[i + 1..] else "" }

  function Zeros(n: nat): string { seq(n, _ => '\0') }

  /** `in.read` of `len` bytes: a short read leaves the tail of the zeroed buffer. */
  function ReadBlock(text: string, len: nat): string {
    if len <= |text| then text[..len] else text + Zeros(len - |text|)
  }

  /** What is left after `in.read` and the optional newline; nothing after a short read. */
  function AfterBlock(text: string, len: nat): string {
    if len >= |text| then ""
    else if text[len] == '\n' then text[len + 1..] else text[len..]
  }

  /** The rest of a "FILE " line: path up to the first space, then the length. */
  datatype FileLine = NoLength | BadLength | FileLine(path: string, len: nat)

  function ParseFileLine(body: string): FileLine {
    var sp := Find(body, ' ');
    if sp == |body| then NoLength
    else
      match Stoul(body[sp + 1..])
      case None => BadLength
      case Some(len) => if len > MAX_STRING then BadLength else FileLine(body[..sp], len)
  }

  /** One turn of the read loop of `LoadDump`: the state and the text still unread, or an exception. */
  datatype Turn = Next(st: State, rest: string) | Throw

  ghost function ReadLine(st: State, line: string, rest: string): Turn {
    if line == "" || line[0] == '#' then Next(st, rest)
    else if "DIR " <= line then Next(DoMkdir(st, line[4..]).0, rest)
    else if "FILE " <= line then
      match ParseFileLine(line[5..])
      case NoLength => Next(st, rest)
      case BadLength => Throw
      case FileLine(path, len) => Next(DoWrite(st, path, ReadBlock(rest, len)).0, AfterBlock(rest, len))
    else Next(st, rest)
  }

  ghost function ReadTurn(st: State, text: string): (t: Turn)
    requires text != ""
    ensures t.Next? ==> |t.rest| < |text|
  {
    var i := Find(text, '\n');
    ReadLine(st, text[..i], Rest(text, i))
  }

  ghost function LoadLines(st: State, text: string): LoadResult
    decreases |text|
  {
    if text == "" then Loaded(st)
    else
      match ReadTurn(st, text)
      case Throw => Threw(st)
      case Next(st', rest) => LoadLines(st', rest)
  }

  ghost function DoLoad(st: State, text: string): LoadResult {
    LoadLines(st.(fs := EMPTY), text)
  }

  // ---------- Which trees the text can carry ----------

  /** The node is named after its key, its path fits on one line, a file's path ends at no space. */
  ghost predicate SafeEntry(p: Path, e: Entry) {
    && e.name == Last(p)
    && '\n' !in Render(p)
    && (e.File? ==> ' ' !in Render(p) && |e.content| <= MAX_STRING)
  }

  ghost predicate DumpSafe(fs: FS) {
    forall p | p in fs :: SafeEntry(p, fs[p])
  }

  ghost predicate FitsQuota(fs: FS, quota: nat) { quota == 0 || Used(fs) <= quota }

  // ---------- Numerals ----------

  lemma {:induction false} DigitsThen(d: string, rest: string)
    requires (forall c | c in d :: IsDigit(c)) && (rest == "" || !IsDigit(rest[0]))
    ensures Digits(d + rest) == d
  {
    if d == "" {
      assert d + rest == rest;
    } else {
      assert (d + rest)[1..] == d[1..] + rest;
      DigitsThen(d[1..], rest);
    }
  }

  /** White space, a sign, digits, and whatever does not go on with a digit; a minus is taken modulo 2^64. */
  lemma {:induction false} StoulText(space: string, sign: string, n: nat, rest: string)
    requires (forall c | c in space :: IsSpace(c)) && sign in {"", "+", "-"} && (rest == "" || !IsDigit(rest[0]))
    ensures Stoul(space + (sign + (Decimal(n) + rest))) ==
              if n >= TWO64 then None else Some(if sign == "-" then (TWO64 - n) % TWO64 else n)
    decreases |space|
  {
    var body := Decimal(n) + rest;
    if space == "" {
      assert space + (sign + body) == sign + body;
      assert body[0] == Decimal(n)[0] && IsDigit(Decimal(n)[0]);
      DigitsThen(Decimal(n), rest);
      DecimalValue(n);
      if sign == "" {
        assert sign + body == body;
      } else {
        assert (sign + body)[0] == sign[0] && (sign + body)[1..] == body;
      }
    } else {
      assert space[0] in space;
      assert (space + (sign + body))[1..] == space[1..] + (sign + body);
      StoulText(space[1..], sign, n, rest);
    }
  }

  lemma StoulDecimal(n: nat)
    requires n < TWO64
    ensures Stoul(Decimal(n)) == Some(n)
  {
    StoulText("", "", n, "");
    assert "" + ("" + (Decimal(n) + "")) == Decimal(n);
  }

  // ---------- One line ----------

  lemma Regroup(a: string, b: string, c: string, d: string)
    ensures a + b + c + d == a + (b + c + d)
  {
  }

  lemma ReadTurnLine(st: State, line: string, rest: string)
    requires '\n' !in line
    ensures ReadTurn(st, line + "\n" + rest) == ReadLine(st, line, rest)
  {
    var text := line + "\n" + rest;
    FindAfter(line, '\n', rest);
    assert text == line + ['\n'] + rest;
    assert text[..|line|] == line && text[|line| + 1..] == rest;
  }

  lemma LoadDirLine(st: State, path: string, rest: string)
    requires '\n' !in path
    ensures LoadLines(st, "DIR " + path + "\n" + rest) == LoadLines(DoMkdir(st, path).0, rest)
  {
    var line := "DIR " + path;
    ReadTurnLine(st, line, rest);
    assert line[4..] == path;
  }

  lemma ParseFileLineOf(path: string, len: nat)
    requires ' ' !in path && len <= MAX_STRING
    ensures ParseFileLine(path + " " + Decimal(len)) == FileLine(path, len)
  {
    var number := Decimal(len);
    var body := path + " " + number;
    assert body == path + [' '] + number;
    FindAfter(path, ' ', number);
    assert body[..|path|] == path && body[|path| + 1..] == number;
    StoulDecimal(len);
  }

  lemma ReadFileHeader(st: State, body: string, path: string, len: nat, rest: string)
    requires ParseFileLine(body) == FileLine(path, len)
    ensures ReadLine(st, "FILE " + body, rest) == Next(DoWrite(st, path, ReadBlock(rest, len)).0, AfterBlock(rest, len))
  {
    var line := "FILE " + body;
    assert line[0] == 'F';
    assert line[5..] == body;
  }

  lemma BlockOf(content: string, rest: string)
    ensures ReadBlock(content + "\n" + rest, |content|) == content
    ensures AfterBlock(content + "\n" + rest, |content|) == rest
  {
    var tail := content + "\n" + rest;
    assert tail[..|content|] == content && tail[|content| + 1..] == rest;
  }

  lemma FileLineText(path: string, number: string)
    ensures "FILE " + path + " " + number == "FILE " + (path + " " + number)
  {
  }

  lemma ReadFileLine(st: State, path: string, content: string, rest: string)
    requires ' ' !in path && |content| <= MAX_STRING
    ensures ReadLine(st, "FILE " + path + " " + Decimal(|content|), content + "\n" + rest)
         == Next(DoWrite(st, path, content).0, rest)
  {
    ParseFileLineOf(path, |content|);
    FileLineText(path, Decimal(|content|));
    ReadFileHeader(st, path + " " + Decimal(|content|), path, |content|, content + "\n" + rest);
    BlockOf(content, rest);
  }

  lemma LoadFileLines(st: State, path: string, content: string, rest: string)
    requires '\n' !in path && ' ' !in path && |content| <= MAX_STRING
    ensures LoadLines(st, "FILE " + path + " " + Decimal(|content|) + "\n" + content + "\n" + rest)
         == LoadLines(DoWrite(st, path, content).0, rest)
  {
    var line := "FILE " + path + " " + Decimal(|content|);
    var tail := content + "\n" + rest;
    assert forall c | c in Decimal(|content|) :: IsDigit(c);
    ReadTurnLine(st, line, tail);
    ReadFileLine(st, path, content, rest);
    Regroup(line + "\n", content, "\n", rest);
  }

  // ---------- What was not printed by the dump ----------

  /** A file line with any length: a short block is filled up with zeros, and one newline behind a block is skipped. */
  lemma LoadAnyFile(st: State, body: string, path: string, len: nat, rest: string)
    requires '\n' !in body && ParseFileLine(body) == FileLine(path, len)
    ensures LoadLines(st, "FILE " + body + "\n" + rest) ==
              if len >= |rest| then Loaded(DoWrite(st, path, rest + seq(len - |rest|, _ => '\0')).0)
              else LoadLines(DoWrite(st, path, rest[..len]).0, rest[if rest[len] == '\n' then len + 1 else len..])
  {
    ReadTurnLine(st, "FILE " + body, rest);
    ReadFileHeader(st, body, path, len, rest);
    if len == |rest| { assert rest[..len] == rest + seq(0, _ => '\0'); }
  }

  /** Empty lines, comments, lines of neither kind and file lines without a space are skipped. */
  lemma LoadSkips(st: State, line: string, rest: string)
    requires '\n' !in line
    requires line == "" || line[0] == '#' || !("DIR " <= line || "FILE " <= line)
             || ("FILE " <= line && ' ' !in line[5..])
    ensures LoadLines(st, line + "\n" + rest) == LoadLines(st, rest)
  {
    ReadTurnLine(st, line, rest);
    if "FILE " <= line && ' ' !in line[5..] {
      assert line[0] == "FILE "[0];
      assert "FILE "[0] == 'F';
      assert Find(line[5..], ' ') == |line[5..]|;
    }
  }

  lemma Joined(a: string, b: string, c: string)
    ensures a + (b + c) == a + b + c
  {
  }

  lemma ChildrenFirst(fs: FS, p: Path, k: string, ks: seq<string>, path: string)
    requires p in fs
    ensures ChildrenText(fs, p, [k] + ks, path) ==
            (if p + [k] in fs then NodeText(fs, p + [k], path) else "") + ChildrenText(fs, p, ks, path)
  {
    assert ([k] + ks)[1..] == ks;
  }

  /** The children are printed one after the other, in the order of their keys. */
  lemma {:induction false} ChildrenInOrder(fs: FS, p: Path, a: seq<string>, b: seq<string>, path: string)
    requires p in fs
    ensures ChildrenText(fs, p, a + b, path) == ChildrenText(fs, p, a, path) + ChildrenText(fs, p, b, path)
    decreases |a|
  {
    if a == [] {
      assert a + b == b;
    } else {
      var k, rest := a[0], a[1..];
      assert a + b == [k] + (rest + b) && a == [k] + rest;
      ChildrenFirst(fs, p, k, rest + b, path);
      ChildrenFirst(fs, p, k, rest, path);
      ChildrenInOrder(fs, p, rest, b, path);
      Joined(if p + [k] in fs then NodeText(fs, p + [k], path) else "",
             ChildrenText(fs, p, rest, path), ChildrenText(fs, p, b, path));
    }
  }
}
