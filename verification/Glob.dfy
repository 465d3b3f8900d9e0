/** The greedy wildcard matcher with a single backtrack point, `glob_match` in src/shell.cpp. */
module Glob {

  /** The declarative relation: `?` stands for one character, `*` for any run. */
  ghost predicate Matches(s: string, p: string)
    decreases |p|
  {
    if p == "" then s == ""
    else if p[0] == '*' then exists k :: 0 <= k <= |s| && Matches(s[k..], p[1..])
    else s != "" && (p[0] == '?' || p[0] == s[0]) && Matches(s[1..], p[1..])
  }

  /** The same relation, except that a star standing at a star of the text is read as that character. */
  ghost predicate Plainly(s: string, p: string)
    decreases |p|
  {
    if p == "" then s == ""
    else if p[0] == '*' && (s == "" || s[0] != '*') then exists k :: 0 <= k <= |s| && Plainly(s[k..], p[1..])
    else s != "" && (p[0] == '?' || p[0] == s[0]) && Plainly(s[1..], p[1..])
  }

  ghost predicate PlainlyFrom(s: string, p: string, i: int, j: int)
    requires 0 <= i <= |s| && 0 <= j <= |p|
  {
    Plainly(s[i..], p[j..])
  }

  // ---------- The matcher as a function of its loop variables ----------

  /** The trailing loop: nothing but stars is left. */
  function OnlyStars(p: string, j: int): bool
    requires 0 <= j <= |p|
    decreases |p| - j
  {
    if j < |p| && p[j] == '*' then OnlyStars(p, j + 1) else j == |p|
  }

  predicate InRange(s: string, p: string, i: int, j: int, star: int, mark: int) {
    && 0 <= i <= |s| && 0 <= j <= |p| && -1 <= star < |p|
    && (star >= 0 ==> star < j && p[star] == '*' && 0 <= mark <= i)
    && mark <= |s|
  }

  /** `star` is -1 for npos. The measure: stars passed, then the mark, then the position. */
  function Greedy(s: string, p: string, i: int, j: int, star: int, mark: int): bool
    requires InRange(s, p, i, j, star, mark)
    decreases |p| - star, |s| - mark, |s| - i
  {
    if i == |s| then OnlyStars(p, j)
    else if j < |p| && (p[j] == '?' || p[j] == s[i]) then Greedy(s, p, i + 1, j + 1, star, mark)
    else if j < |p| && p[j] == '*' then Greedy(s, p, i, j + 1, j, i)
    else if star != -1 then Greedy(s, p, mark + 1, star + 1, star, mark + 1)
    else false
  }

  function Decides(s: string, p: string): bool { Greedy(s, p, 0, 0, -1, 0) }

  method GlobMatch(s: string, p: string) returns (r: bool)
    ensures r == Decides(s, p) == Plainly(s, p)
    ensures r ==> Matches(s, p)
    ensures '*' !in s || '*' !in p ==> r == Matches(s, p)
  {
    DecidesExactly(s, p);
    AlwaysSound(s, p);
    if '*' !in s || '*' !in p { Complete(s, p); }
    var i, j, star, mark := 0, 0, -1, 0;
    while i < |s|
      invariant InRange(s, p, i, j, star, mark)
      invariant Greedy(s, p, i, j, star, mark) == Decides(s, p)
      decreases |p| - star, |s| - mark, |s| - i
    {
      if j < |p| && (p[j] == '?' || p[j] == s[i]) {
        i, j := i + 1, j + 1;
      } else if j < |p| && p[j] == '*' {
        star, j, mark := j, j + 1, i;
      } else if star != -1 {
        j, mark := star + 1, mark + 1;
        i := mark;
      } else {
        return false;
      }
    }
    while j < |p| && p[j] == '*'
      invariant 0 <= j <= |p| && OnlyStars(p, j) == Decides(s, p)
    {
      j := j + 1;
    }
    return j == |p|;
  }

  // ---------- Steps of the relation ----------

  lemma {:induction false} StarsMatchNothing(p: string, j: int)
    requires 0 <= j <= |p|
    ensures OnlyStars(p, j) <==> Plainly("", p[j..])
    decreases |p| - j
  {
    if j == |p| || p[j] != '*' {
    } else {
      StarsMatchNothing(p, j + 1);
      assert p[j..][1..] == p[j + 1..];
      assert ""[0..] == "";
    }
  }

  /** The characters agree, the star with a star included. */
  predicate Agree(s: string, p: string, i: int, j: int)
    requires 0 <= i < |s| && 0 <= j < |p|
  {
    p[j] == '?' || p[j] == s[i]
  }

  lemma CharStep(s: string, p: string, i: int, j: int)
    requires 0 <= i < |s| && 0 <= j < |p| && Agree(s, p, i, j)
    ensures PlainlyFrom(s, p, i, j) <==> PlainlyFrom(s, p, i + 1, j + 1)
  {
    assert p[j..][1..] == p[j + 1..];
    assert s[i..][1..] == s[i + 1..];
  }

  /** The pattern from `j` matches the text from some position at or after `i`. */
  ghost predicate SomeFrom(s: string, p: string, i: int, j: int)
    requires 0 <= i && 0 <= j <= |p|
  {
    exists k :: i <= k <= |s| && PlainlyFrom(s, p, k, j)
  }

  lemma StarStep(s: string, p: string, i: int, j: int)
    requires 0 <= i <= |s| && 0 <= j < |p| && p[j] == '*' && (i < |s| ==> s[i] != '*')
    ensures PlainlyFrom(s, p, i, j) <==> SomeFrom(s, p, i, j + 1)
  {
    assert p[j..][1..] == p[j + 1..];
    if PlainlyFrom(s, p, i, j) {
      var k :| 0 <= k <= |s[i..]| && Plainly(s[i..][k..], p[j + 1..]);
      assert s[i..][k..] == s[i + k..];
      assert PlainlyFrom(s, p, i + k, j + 1);
    }
    if SomeFrom(s, p, i, j + 1) {
      var b := j + 1;
      var k :| i <= k <= |s| && PlainlyFrom(s, p, k, b);
      assert s[i..][k - i..] == s[k..];
    }
  }

  lemma DeadEnd(s: string, p: string, i: int, j: int)
    requires 0 <= i < |s| && 0 <= j <= |p|
    requires j < |p| ==> p[j] != '*' && !Agree(s, p, i, j)
    ensures !PlainlyFrom(s, p, i, j)
  {
  }

  lemma SomeLater(s: string, p: string, i: int, j: int)
    requires 0 <= i <= |s| && 0 <= j <= |p|
    ensures SomeFrom(s, p, i, j) <==> PlainlyFrom(s, p, i, j) || SomeFrom(s, p, i + 1, j)
  {
  }

  // ---------- The matcher accepts what the relation allows, and nothing else ----------

  lemma {:induction false} SoundFrom(s: string, p: string, i: int, j: int, star: int, mark: int)
    requires InRange(s, p, i, j, star, mark) && Greedy(s, p, i, j, star, mark)
    ensures PlainlyFrom(s, p, i, j) || (star >= 0 && SomeFrom(s, p, mark + 1, star + 1))
    decreases |p| - star, |s| - mark, |s| - i
  {
    if i == |s| {
      StarsMatchNothing(p, j);
      assert s[i..] == "";
    } else if j < |p| && (p[j] == '?' || p[j] == s[i]) {
      SoundFrom(s, p, i + 1, j + 1, star, mark);
      CharStep(s, p, i, j);
    } else if j < |p| && p[j] == '*' {
      SoundFrom(s, p, i, j + 1, j, i);
      SomeLater(s, p, i, j + 1);
      StarStep(s, p, i, j);
    } else {
      SoundFrom(s, p, mark + 1, star + 1, star, mark + 1);
      SomeLater(s, p, mark + 1, star + 1);
    }
  }

  /** A position of the pattern behind the star, and the one of the text as far behind the mark. */
  ghost predicate AgreeAt(s: string, p: string, star: int, mark: int, t: int) {
    var u := mark + (t - star - 1);
    0 <= t < |p| && 0 <= u < |s| && Agree(s, p, u, t)
  }

  /** The pattern since the last star agrees with the text since the mark. */
  ghost predicate Aligned(s: string, p: string, i: int, j: int, star: int, mark: int)
    requires InRange(s, p, i, j, star, mark)
  {
    star >= 0 ==> i - mark == j - (star + 1) && forall t | star < t < j :: AgreeAt(s, p, star, mark, t)
  }

  /**
   Going back to the last star only loses nothing: what a later choice of that star leaves for position
   `j` is also reached from here, by the end of the text or by the star that stands here.
   */
  lemma {:induction false} LaterChoice(s: string, p: string, i: int, j: int, star: int, mark: int, a: int, b: int)
    requires InRange(s, p, i, j, star, mark) && Aligned(s, p, i, j, star, mark) && 0 <= star < b <= j
    requires mark + (b - star - 1) <= a <= |s| && PlainlyFrom(s, p, a, b)
    ensures i == |s| ==> OnlyStars(p, j)
    ensures i < |s| && j < |p| && p[j] == '*' && s[i] != '*' ==> SomeFrom(s, p, i, j + 1)
    decreases j - b
  {
    if a == |s| {
      assert s[a..] == "";
      StarsMatchNothing(p, b);
    }
    if b == j {
      if i < |s| && j < |p| && p[j] == '*' && s[i] != '*' { AtTheStar(s, p, i, j, a); }
    } else if a < |s| && Agree(s, p, a, b) {
      CharStep(s, p, a, b);
      LaterChoice(s, p, i, j, star, mark, a + 1, b + 1);
    } else if p[b] == '*' {
      assert a < |s| ==> s[a] != '*';
      StarStep(s, p, a, b);
      var next := b + 1;
      var k :| a <= k <= |s| && PlainlyFrom(s, p, k, next);
      assert AgreeAt(s, p, star, mark, b);
      LaterChoice(s, p, i, j, star, mark, k, b + 1);
    } else {
      if a < |s| { DeadEnd(s, p, a, b); }
    }
  }

  lemma AtTheStar(s: string, p: string, i: int, j: int, a: int)
    requires 0 <= i <= a <= |s| && 0 <= j < |p| && p[j] == '*' && PlainlyFrom(s, p, a, j)
    ensures SomeFrom(s, p, i, j + 1)
  {
    if a < |s| && s[a] == '*' {
      CharStep(s, p, a, j);
      assert PlainlyFrom(s, p, a + 1, j + 1);
    } else {
      StarStep(s, p, a, j);
    }
  }

  lemma {:induction false} CompleteFrom(s: string, p: string, i: int, j: int, star: int, mark: int)
    requires InRange(s, p, i, j, star, mark) && Aligned(s, p, i, j, star, mark)
    requires PlainlyFrom(s, p, i, j) || (star >= 0 && SomeFrom(s, p, mark + 1, star + 1))
    ensures Greedy(s, p, i, j, star, mark)
    decreases |p| - star, |s| - mark, |s| - i
  {
    if !PlainlyFrom(s, p, i, j) {
      var b := star + 1;
      var k :| mark + 1 <= k <= |s| && PlainlyFrom(s, p, k, b);
      LaterChoice(s, p, i, j, star, mark, k, b);
    }
    if i == |s| {
      StarsMatchNothing(p, j);
      assert s[i..] == "";
    } else if j < |p| && (p[j] == '?' || p[j] == s[i]) {
      CharStep(s, p, i, j);
      CompleteFrom(s, p, i + 1, j + 1, star, mark);
    } else if j < |p| && p[j] == '*' {
      StarStep(s, p, i, j);
      SomeLater(s, p, i, j + 1);
      CompleteFrom(s, p, i, j + 1, j, i);
    } else {
      DeadEnd(s, p, i, j);
      SomeLater(s, p, mark + 1, star + 1);
      CompleteFrom(s, p, mark + 1, star + 1, star, mark + 1);
    }
  }

  /** For every text and every pattern: the matcher decides exactly the relation with stars read plainly. */
  lemma DecidesExactly(s: string, p: string)
    ensures Decides(s, p) <==> Plainly(s, p)
  {
    assert s[0..] == s && p[0..] == p;
    if Decides(s, p) { SoundFrom(s, p, 0, 0, -1, 0); }
    if Plainly(s, p) { CompleteFrom(s, p, 0, 0, -1, 0); }
  }

  // ---------- Against the wildcard relation ----------

  lemma {:induction false} PlainlyMatches(s: string, p: string)
    requires Plainly(s, p)
    ensures Matches(s, p)
    decreases |p|
  {
    if p == "" {
    } else if p[0] == '*' && (s == "" || s[0] != '*') {
      var k :| 0 <= k <= |s| && Plainly(s[k..], p[1..]);
      PlainlyMatches(s[k..], p[1..]);
    } else {
      PlainlyMatches(s[1..], p[1..]);
    }
  }

  lemma {:induction false} MatchesPlainly(s: string, p: string)
    requires Matches(s, p) && ('*' !in s || '*' !in p)
    ensures Plainly(s, p)
    decreases |p|
  {
    if p == "" {
    } else if p[0] == '*' {
      assert p[0] in p;
      var k :| 0 <= k <= |s| && Matches(s[k..], p[1..]);
      MatchesPlainly(s[k..], p[1..]);
    } else {
      MatchesPlainly(s[1..], p[1..]);
    }
  }

  /** A true answer is always right. */
  lemma AlwaysSound(s: string, p: string)
    ensures Decides(s, p) ==> Matches(s, p)
  {
    DecidesExactly(s, p);
    if Plainly(s, p) { PlainlyMatches(s, p); }
  }

  lemma Complete(s: string, p: string)
    requires '*' !in s || '*' !in p
    ensures Decides(s, p) <==> Matches(s, p)
  {
    AlwaysSound(s, p);
    DecidesExactly(s, p);
    if Matches(s, p) { MatchesPlainly(s, p); }
  }

  // ---------- Exactly which texts are decided correctly ----------

  ghost function Questions(n: nat): string { seq(n, _ => '?') }

  lemma {:induction false} QuestionsMatch(s: string)
    ensures Matches(s, Questions(|s|))
  {
    if s == "" {
    } else {
      QuestionsMatch(s[1..]);
      assert Questions(|s|)[1..] == Questions(|s| - 1);
    }
  }

  lemma {:induction false} QuestionsPrefix(a: string, s: string, p: string)
    requires Matches(s, p)
    ensures Matches(a + s, Questions(|a|) + p)
  {
    if a == "" {
      assert a + s == s && Questions(|a|) + p == p;
    } else {
      QuestionsPrefix(a[1..], s, p);
      assert (a + s)[1..] == a[1..] + s;
      assert (Questions(|a|) + p)[1..] == Questions(|a| - 1) + p;
    }
  }

  /** While the pattern agrees position by position, the matcher never looks for a star. */
  lemma {:induction false} StraightRun(s: string, p: string, i: int)
    requires 0 <= i <= |s| && i <= |p|
    requires forall t | 0 <= t < |s| && t < |p| :: p[t] == '?' || p[t] == s[t]
    ensures Greedy(s, p, i, i, -1, 0) == (|s| <= |p| && OnlyStars(p, |s|))
    decreases |s| - i
  {
    if i == |s| || i == |p| {
    } else {
      StraightRun(s, p, i + 1);
    }
  }

  /** Question marks up to the star, the star, and a question mark for every character from there on. */
  lemma QuestionsAround(a: string, b: string)
    ensures Matches(a + b, Questions(|a|) + ("*" + Questions(|b|)))
  {
    QuestionsMatch(b);
    assert b[0..] == b;
    QuestionsPrefix(a, b, "*" + Questions(|b|));
  }

  /** For a text with a star in it there is a matching pattern the matcher rejects. */
  lemma StarTextFails(s: string) returns (p: string)
    requires '*' in s
    ensures Matches(s, p) && !Decides(s, p)
  {
    var u :| 0 <= u < |s| && s[u] == '*';
    p := Questions(u) + ("*" + Questions(|s| - u));
    QuestionsAround(s[..u], s[u..]);
    assert s[..u] + s[u..] == s;
    StraightRun(s, p, 0);
    assert p[|s|] == '?';
  }

  /** The matcher is right about a text for every pattern exactly when the text contains no star. */
  lemma ExactTexts(s: string)
    ensures (forall p :: Decides(s, p) <==> Matches(s, p)) <==> '*' !in s
  {
    if '*' in s {
      var p := StarTextFails(s);
    } else {
      forall p ensures Decides(s, p) <==> Matches(s, p) { Complete(s, p); }
    }
  }

  // ---------- Exactly which patterns are decided correctly ----------

  /** A text that starts like the pattern may go on as before. */
  lemma {:induction false} OwnPrefix(a: string, s: string, p: string)
    requires Matches(s, p)
    ensures Matches(a + s, a + p)
  {
    if a == "" {
      assert a + s == s && a + p == p;
    } else {
      OwnPrefix(a[1..], s, p);
      assert (a + s)[1..] == a[1..] + s;
      assert (a + p)[1..] == a[1..] + p;
    }
  }

  lemma {:induction false} LastStar(p: string) returns (u: nat)
    requires '*' in p
    ensures u < |p| && p[u] == '*' && '*' !in p[u + 1..]
  {
    var n := |p| - 1;
    if p[n] == '*' {
      u := n;
    } else {
      assert p == p[..n] + [p[n]];
      u := LastStar(p[..n]);
      assert p[u + 1..] == p[..n][u + 1..] + [p[n]];
    }
  }

  /**
   For a pattern with a star in it there is a matching text the matcher rejects: the pattern itself, and
   then once more what stands after its last star.
   */
  lemma StarPatternFails(p: string) returns (s: string)
    requires '*' in p
    ensures Matches(s, p) && !Decides(s, p)
  {
    var u := LastStar(p);
    var w := p[u + 1..];
    var again := if w == "" then "x" else w;
    s := p[..u] + ("*" + w + again);
    OwnPrefix(w, "", "");
    assert w + "" == w;
    var k := if w == "" then 2 else 1 + |w|;
    assert ("*" + w + again)[k..] == w;
    OwnPrefix(p[..u], "*" + w + again, "*" + w);
    assert p == p[..u] + ("*" + w);
    StraightRun(s, p, 0);
  }

  /** The matcher is right about a pattern for every text exactly when the pattern contains no star. */
  lemma ExactPatterns(p: string)
    ensures (forall s :: Decides(s, p) <==> Matches(s, p)) <==> '*' !in p
  {
    if '*' in p {
      var s := StarPatternFails(p);
    } else {
      forall s ensures Decides(s, p) <==> Matches(s, p) { Complete(s, p); }
    }
  }
}
