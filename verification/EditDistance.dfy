/** The one-row edit-distance table, `levenshtein_` in src/shell.cpp. */
module EditDistance {

  // ---------- Edit scripts: what distance means ----------

  /** One single-character edit of a string. */
  datatype Edit = Insert(at: nat, c: char) | Delete(at: nat) | Replace(at: nat, c: char)

  predicate Applies(e: Edit, s: string) {
    match e
    case Insert(at, _) => at <= |s|
    case Delete(at) => at < |s|
    case Replace(at, _) => at < |s|
  }

  function Apply(e: Edit, s: string): string
    requires Applies(e, s)
  {
    match e
    case Insert(at, c) => s[..at] + [c] + s[at..]
    case Delete(at) => s[..at] + s[at + 1..]
    case Replace(at, c) => s[..at] + [c] + s[at + 1..]
  }

  /** The script, edit after edit, turns `a` into `b`. */
  ghost predicate Turns(script: seq<Edit>, a: string, b: string)
    decreases |script|
  {
    if script == [] then a == b
    else Applies(script[0], a) && Turns(script[1..], Apply(script[0], a), b)
  }

  // ---------- The recurrence ----------

  function Min(x: nat, y: nat): nat { if x < y then x else y }

  function Min3(x: nat, y: nat, z: nat): nat { Min(x, Min(y, z)) }

  /** The recurrence the table computes; equal last characters are never edited. */
  function Distance(a: string, b: string): nat
    decreases |a| + |b|
  {
    if a == "" then |b|
    else if b == "" then |a|
    else
      var a0, b0 := a[..|a| - 1], b[..|b| - 1];
      if a[|a| - 1] == b[|b| - 1] then Distance(a0, b0)
      else 1 + Min3(Distance(a0, b0), Distance(a0, b), Distance(a, b0))
  }

  // ---------- The table ----------

  /** Entry `(i, j)`: the distance between the first `i` and the first `j` characters. */
  function Cell(a: string, b: string, i: nat, j: nat): nat
    requires i <= |a| && j <= |b|
  {
    Distance(a[..i], b[..j])
  }

  lemma Inner(a: string, b: string, i: nat, j: nat)
    requires 0 < i <= |a| && 0 < j <= |b|
    ensures Cell(a, b, i, j) ==
      if a[i - 1] == b[j - 1] then Cell(a, b, i - 1, j - 1)
      else Min3(Cell(a, b, i - 1, j - 1) + 1, Cell(a, b, i - 1, j) + 1, Cell(a, b, i, j - 1) + 1)
  {
    assert a[..i][..i - 1] == a[..i - 1];
    assert b[..j][..j - 1] == b[..j - 1];
  }

  /** The one row the code keeps: the new row up to `j`, the old one from `j` on. */
  method Levenshtein(a: string, b: string) returns (d: nat)
    ensures d == Distance(a, b)
  {
    var n, m := |a|, |b|;
    var dp := new nat[m + 1](j => j);
    for i := 1 to n + 1
      invariant forall k | 0 <= k <= m :: dp[k] == Cell(a, b, i - 1, k)
    {
      var prev := dp[0];
      dp[0] := i;
      for j := 1 to m + 1
        invariant prev == Cell(a, b, i - 1, j - 1)
        invariant forall k | 0 <= k < j :: dp[k] == Cell(a, b, i, k)
        invariant forall k | j <= k <= m :: dp[k] == Cell(a, b, i - 1, k)
      {
        Inner(a, b, i, j);
        var tmp := dp[j];
        if a[i - 1] == b[j - 1] {
          dp[j] := prev;
        } else {
          dp[j] := Min3(prev + 1, dp[j] + 1, dp[j - 1] + 1);
        }
        prev := tmp;
      }
    }
    assert a[..n] == a && b[..m] == b;
    d := dp[m];
  }

  // ---------- Elementary properties ----------

  lemma {:induction false} Symmetric(a: string, b: string)
    ensures Distance(a, b) == Distance(b, a)
    decreases |a| + |b|
  {
    if a == "" || b == "" {
    } else {
      var a0, b0 := a[..|a| - 1], b[..|b| - 1];
      Symmetric(a0, b0);
      Symmetric(a0, b);
      Symmetric(a, b0);
    }
  }

  lemma {:induction false} ZeroMeansEqual(a: string, b: string)
    ensures Distance(a, b) == 0 <==> a == b
    decreases |a| + |b|
  {
    if a == "" || b == "" {
    } else {
      var a0, b0 := a[..|a| - 1], b[..|b| - 1];
      ZeroMeansEqual(a0, b0);
      assert a == a0 + [a[|a| - 1]] && b == b0 + [b[|b| - 1]];
    }
  }

  lemma {:induction false} Bounds(a: string, b: string)
    ensures |a| - |b| <= Distance(a, b) && |b| - |a| <= Distance(a, b)
    ensures Distance(a, b) <= |a| || Distance(a, b) <= |b|
    decreases |a| + |b|
  {
    if a == "" || b == "" {
    } else {
      var a0, b0 := a[..|a| - 1], b[..|b| - 1];
      Bounds(a0, b0);
      Bounds(a0, b);
      Bounds(a, b0);
    }
  }

  /** Dropping the last character of one side changes the distance by at most one. */
  lemma {:induction false} DropLast(a: string, b: string)
    requires a != ""
    ensures Distance(a[..|a| - 1], b) <= 1 + Distance(a, b)
    ensures Distance(a, b) <= 1 + Distance(a[..|a| - 1], b)
    decreases |a| + |b|, 0
  {
    var a0 := a[..|a| - 1];
    if b == "" {
    } else {
      var b0 := b[..|b| - 1];
      if a[|a| - 1] == b[|b| - 1] {
        DropLastRight(a0, b);
      } else {
        DropLast(a, b0);
        DropLastRight(a0, b);
      }
    }
  }

  lemma {:induction false} DropLastRight(a: string, b: string)
    requires b != ""
    ensures Distance(a, b[..|b| - 1]) <= 1 + Distance(a, b)
    ensures Distance(a, b) <= 1 + Distance(a, b[..|b| - 1])
    decreases |a| + |b|, 1
  {
    Symmetric(a, b);
    Symmetric(a, b[..|b| - 1]);
    DropLast(b, a);
  }

  /** Equal last characters: the recurrence is also the minimum over all three neighbours. */
  lemma Neighbours(a: string, b: string)
    requires a != "" && b != ""
    ensures Distance(a, b) <= 1 + Distance(a[..|a| - 1], b)
    ensures Distance(a, b) <= 1 + Distance(a, b[..|b| - 1])
    ensures Distance(a, b) <= Distance(a[..|a| - 1], b[..|b| - 1]) + (if a[|a| - 1] == b[|b| - 1] then 0 else 1)
  {
    DropLast(a, b);
    DropLastRight(a, b);
  }

  lemma {:induction false} Triangle(a: string, b: string, c: string)
    ensures Distance(a, c) <= Distance(a, b) + Distance(b, c)
    decreases |a| + |b| + |c|
  {
    if a == "" {
      Bounds(b, c);
    } else if c == "" {
      Bounds(a, b);
    } else if b == "" {
      Bounds(a, c);
    } else {
      var a0, b0, c0 := a[..|a| - 1], b[..|b| - 1], c[..|c| - 1];
      Neighbours(a, c);
      Triangle(a0, b0, c0);
      Triangle(a0, b0, c);
      Triangle(a, b0, c0);
      Triangle(a0, b, c);
      Triangle(a, b, c0);
      Triangle(a, b0, c);
    }
  }

  // ---------- The distance is the length of a shortest script ----------

  lemma {:induction false} AppendSame(a: string, b: string, t: string)
    ensures Distance(a + t, b + t) <= Distance(a, b)
    decreases |t|
  {
    if t == "" {
      assert a + t == a && b + t == b;
    } else {
      AppendSame(a, b, t[..|t| - 1]);
      assert (a + t)[..|a + t| - 1] == a + t[..|t| - 1];
      assert (b + t)[..|b + t| - 1] == b + t[..|t| - 1];
    }
  }

  lemma OneEdit(e: Edit, s: string)
    requires Applies(e, s)
    ensures Distance(s, Apply(e, s)) <= 1
  {
    match e
    case Insert(at, c) =>
      OneMoreChar(s[..at], c);
      Symmetric(s[..at] + [c], s[..at]);
      AppendSame(s[..at], s[..at] + [c], s[at..]);
      assert s[..at] + s[at..] == s;
    case Delete(at) =>
      OneMoreChar(s[..at], s[at]);
      AppendSame(s[..at] + [s[at]], s[..at], s[at + 1..]);
      assert s[..at] + [s[at]] + s[at + 1..] == s;
    case Replace(at, c) =>
      OtherChar(s[..at], s[at], c);
      AppendSame(s[..at] + [s[at]], s[..at] + [c], s[at + 1..]);
      assert s[..at] + [s[at]] + s[at + 1..] == s;
  }

  lemma OneMoreChar(s: string, c: char)
    ensures Distance(s + [c], s) <= 1
  {
    DropLast(s + [c], s);
    assert (s + [c])[..|s|] == s;
    ZeroMeansEqual(s, s);
  }

  lemma OtherChar(s: string, c: char, d: char)
    ensures Distance(s + [c], s + [d]) <= 1
  {
    Neighbours(s + [c], s + [d]);
    assert (s + [c])[..|s|] == s && (s + [d])[..|s|] == s;
    ZeroMeansEqual(s, s);
  }

  /** No script is shorter than the distance. */
  lemma {:induction false} NoShorterScript(script: seq<Edit>, a: string, b: string)
    requires Turns(script, a, b)
    ensures Distance(a, b) <= |script|
    decreases |script|
  {
    if script == [] {
      ZeroMeansEqual(a, b);
    } else {
      var a' := Apply(script[0], a);
      OneEdit(script[0], a);
      NoShorterScript(script[1..], a', b);
      Triangle(a, a', b);
    }
  }

  lemma ApplyBefore(e: Edit, a: string, t: string)
    requires Applies(e, a)
    ensures Applies(e, a + t) && Apply(e, a + t) == Apply(e, a) + t
  {
    match e
    case Insert(at, _) => assert (a + t)[at..] == a[at..] + t && (a + t)[..at] == a[..at];
    case Delete(at) => assert (a + t)[at + 1..] == a[at + 1..] + t && (a + t)[..at] == a[..at];
    case Replace(at, _) => assert (a + t)[at + 1..] == a[at + 1..] + t && (a + t)[..at] == a[..at];
  }

  /** Edits of a prefix leave the rest alone. */
  lemma {:induction false} TurnsBefore(script: seq<Edit>, a: string, b: string, t: string)
    requires Turns(script, a, b)
    ensures Turns(script, a + t, b + t)
    decreases |script|
  {
    if script == [] {
    } else {
      ApplyBefore(script[0], a, t);
      TurnsBefore(script[1..], Apply(script[0], a), b, t);
    }
  }

  /** Some script of exactly that many edits exists. */
  lemma Prepended(e: Edit, rest: seq<Edit>, a: string, b: string)
    requires Applies(e, a) && Turns(rest, Apply(e, a), b)
    ensures Turns([e] + rest, a, b)
  {
    assert ([e] + rest)[1..] == rest;
  }

  lemma {:induction false} ShortestScript(a: string, b: string) returns (script: seq<Edit>)
    ensures Turns(script, a, b) && |script| == Distance(a, b)
    decreases |a| + |b|
  {
    if a == "" && b == "" {
      script := [];
    } else if a == "" || (b != "" && a[|a| - 1] != b[|b| - 1] && Distance(a, b) == 1 + Distance(a, b[..|b| - 1])) {
      var b0 := b[..|b| - 1];
      var rest := ShortestScript(a, b0);
      script := InsertLast(rest, a, b);
    } else if b == "" || (a[|a| - 1] != b[|b| - 1] && Distance(a, b) == 1 + Distance(a[..|a| - 1], b)) {
      var rest := ShortestScript(a[..|a| - 1], b);
      script := DeleteLast(rest, a, b);
    } else {
      var rest := ShortestScript(a[..|a| - 1], b[..|b| - 1]);
      script := SettleLast(rest, a, b);
    }
  }

  lemma DeleteLast(rest: seq<Edit>, a: string, b: string) returns (script: seq<Edit>)
    requires a != "" && Turns(rest, a[..|a| - 1], b)
    ensures Turns(script, a, b) && |script| == |rest| + 1
  {
    var e := Delete(|a| - 1);
    script := [e] + rest;
    assert Apply(e, a) == a[..|a| - 1];
    Prepended(e, rest, a, b);
  }

  /** Keeping equal last characters, or replacing one by the other. */
  lemma SettleLast(rest: seq<Edit>, a: string, b: string) returns (script: seq<Edit>)
    requires a != "" && b != "" && Turns(rest, a[..|a| - 1], b[..|b| - 1])
    ensures Turns(script, a, b)
    ensures |script| == |rest| + (if a[|a| - 1] == b[|b| - 1] then 0 else 1)
  {
    var a0, b0, y := a[..|a| - 1], b[..|b| - 1], b[|b| - 1];
    TurnsBefore(rest, a0, b0, [y]);
    assert b == b0 + [y];
    if a[|a| - 1] == y {
      assert a == a0 + [y];
      script := rest;
    } else {
      var e := Replace(|a| - 1, y);
      script := [e] + rest;
      assert Apply(e, a) == a0 + [y];
      Prepended(e, rest, a, b);
    }
  }

  /** Inserting the last character first, then editing what stands before it. */
  lemma InsertLast(rest: seq<Edit>, a: string, b: string) returns (script: seq<Edit>)
    requires b != "" && Turns(rest, a, b[..|b| - 1])
    ensures Turns(script, a, b) && |script| == |rest| + 1
  {
    var b0, y := b[..|b| - 1], b[|b| - 1];
    TurnsBefore(rest, a, b0, [y]);
    var e := Insert(|a|, y);
    script := [e] + rest;
    assert Apply(e, a) == a + [y];
    assert b == b0 + [y];
    Prepended(e, rest, a, b);
  }

  /** The distance is the least number of single-character edits. */
  lemma DistanceIsLeast(a: string, b: string)
    ensures exists script :: Turns(script, a, b) && |script| == Distance(a, b)
    ensures forall script | Turns(script, a, b) :: |script| >= Distance(a, b)
  {
    var best := ShortestScript(a, b);
    forall script | Turns(script, a, b) ensures |script| >= Distance(a, b) { NoShorterScript(script, a, b); }
  }
}
