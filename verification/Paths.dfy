/** Path canonicalisation: `Vfs::NormalizePath` and the character loops that re-parse its result. */
module Paths {

  type Path = seq<string>

  // ---------- Splitting at '/' ----------

  /** What the character loop holds after reading `s`: finished segments and the one being read. */
  ghost function Scan(s: string): (seq<string>, string) {
    if s == "" then ([], "")
    else
      var (parts, cur) := Scan(s[..|s| - 1]);
      if s[|s| - 1] != '/' then (parts, cur + [s[|s| - 1]])
      else (Flush(parts, cur), "")
  }

  ghost function Flush(parts: seq<string>, cur: string): seq<string> {
    if cur == "" then parts else parts + [cur]
  }

  ghost function Split(s: string): seq<string> {
    Flush(Scan(s).0, Scan(s).1)
  }

  predicate Plain(seg: string) { seg != "" && '/' !in seg }

  predicate Canonical(p: Path) {
    forall seg | seg in p :: Plain(seg) && seg != "." && seg != ".."
  }

  lemma {:induction false} ScanPlain(s: string)
    ensures forall seg | seg in Scan(s).0 :: Plain(seg)
    ensures '/' !in Scan(s).1
  {
    if s == "" {
    } else {
      ScanPlain(s[..|s| - 1]);
    }
  }

  /** Reading on after a slash starts a fresh segment. */
  lemma {:induction false} ScanConcat(a: string, b: string)
    ensures Scan(a + "/" + b).0 == Split(a) + Scan(b).0
    ensures Scan(a + "/" + b).1 == Scan(b).1
  {
    var s := a + "/" + b;
    if b == "" {
      assert s[..|s| - 1] == a;
    } else {
      assert s[..|s| - 1] == a + "/" + b[..|b| - 1];
      ScanConcat(a, b[..|b| - 1]);
    }
  }

  lemma SplitConcat(a: string, b: string)
    ensures Split(a + "/" + b) == Split(a) + Split(b)
  {
    ScanConcat(a, b);
  }

  lemma {:induction false} ScanSegment(seg: string)
    requires '/' !in seg
    ensures Scan(seg) == ([], seg)
  {
    if seg == "" {
    } else {
      ScanSegment(seg[..|seg| - 1]);
      assert seg[|seg| - 1] in seg;
      assert seg == seg[..|seg| - 1] + [seg[|seg| - 1]];
    }
  }

  /** One turn of the character loop. */
  lemma ScanStep(s: string, i: nat)
    requires i < |s|
    ensures s[i] != '/' ==> Scan(s[..i + 1]) == (Scan(s[..i]).0, Scan(s[..i]).1 + [s[i]])
    ensures s[i] == '/' ==> Scan(s[..i + 1]) == (Flush(Scan(s[..i]).0, Scan(s[..i]).1), "")
  {
    assert s[..i + 1][..i] == s[..i];
  }

  /** The finished segments of a prefix are a prefix of the segments of the whole. */
  lemma {:induction false} ScanPrefix(s: string, i: nat)
    requires i <= |s|
    ensures Scan(s[..i]).0 <= Scan(s).0
    ensures i < |s| && s[i] == '/' ==> Split(s[..i]) <= Scan(s).0
    decreases |s| - i
  {
    if i == |s| {
      assert s[..i] == s;
    } else {
      ScanPrefix(s, i + 1);
      assert s[..i + 1][..i] == s[..i];
    }
  }

  // ---------- Resolving "." and ".." ----------

  ghost function Resolve(parts: seq<string>): Path {
    if parts == [] then []
    else
      var stack, p := Resolve(parts[..|parts| - 1]), parts[|parts| - 1];
      if p == "" || p == "." then stack
      else if p == ".." then if stack == [] then [] else stack[..|stack| - 1]
      else stack + [p]
  }

  lemma {:induction false} ResolveCanonical(parts: seq<string>)
    requires forall seg | seg in parts :: Plain(seg)
    ensures Canonical(Resolve(parts))
    ensures |Resolve(parts)| <= |parts|
  {
    if parts == [] {
    } else {
      var n := |parts| - 1;
      ResolveCanonical(parts[..n]);
      assert parts[n] in parts;
      forall seg | seg in Resolve(parts) ensures Plain(seg) && seg != "." && seg != ".." {
        assert seg in Resolve(parts[..n]) || seg == parts[n];
      }
    }
  }

  lemma {:induction false} ResolveIdentity(p: Path)
    requires Canonical(p)
    ensures Resolve(p) == p
  {
    if p == [] {
    } else {
      ResolveIdentity(p[..|p| - 1]);
      assert p[|p| - 1] in p;
      assert p == p[..|p| - 1] + [p[|p| - 1]];
    }
  }

  lemma {:induction false} ResolveCompose(a: seq<string>, b: seq<string>)
    requires forall seg | seg in a :: Plain(seg)
    ensures Resolve(a + b) == Resolve(Resolve(a) + b)
  {
    if b == [] {
      ResolveCanonical(a);
      ResolveIdentity(Resolve(a));
      assert a + b == a && Resolve(a) + b == Resolve(a);
    } else {
      ResolveCompose(a, b[..|b| - 1]);
      assert (a + b)[..|a + b| - 1] == a + b[..|b| - 1];
      assert (Resolve(a) + b)[..|Resolve(a) + b| - 1] == Resolve(a) + b[..|b| - 1];
    }
  }

  // ---------- Printing ----------

  ghost function Join(p: Path): string {
    if p == [] then "" else if |p| == 1 then p[0]
    else Join(p[..|p| - 1]) + "/" + p[|p| - 1]
  }

  ghost function Render(p: Path): string { "/" + Join(p) }

  lemma {:induction false} SplitJoin(p: Path)
    requires forall seg | seg in p :: Plain(seg)
    ensures Split(Join(p)) == p
  {
    if |p| == 1 {
      assert p[0] in p;
      ScanSegment(p[0]);
    } else if |p| > 1 {
      assert p[|p| - 1] in p;
      SplitJoin(p[..|p| - 1]);
      SplitConcat(Join(p[..|p| - 1]), p[|p| - 1]);
      ScanSegment(p[|p| - 1]);
      assert p == p[..|p| - 1] + [p[|p| - 1]];
    }
  }

  lemma SplitRender(p: Path)
    requires forall seg | seg in p :: Plain(seg)
    ensures Split(Render(p)) == p
  {
    SplitConcat("", Join(p));
    assert Render(p) == "" + "/" + Join(p);
    SplitJoin(p);
  }

  lemma RenderInjective(p: Path, q: Path)
    requires Canonical(p) && Canonical(q) && Render(p) == Render(q)
    ensures p == q
  {
    SplitRender(p);
    SplitRender(q);
  }

  // ---------- Normal forms ----------

  /** The segment list a path text denotes. */
  ghost function Normal(s: string): (p: Path)
    ensures Canonical(p)
  {
    ScanPlain(s);
    ResolveCanonical(Split(s));
    Resolve(Split(s))
  }

  /** Canonical paths survive printing and re-parsing. */
  lemma NormalRender(p: Path)
    requires Canonical(p)
    ensures Normal(Render(p)) == p
  {
    SplitRender(p);
    ResolveIdentity(p);
  }

  lemma NormalIdempotent(s: string)
    ensures Render(Normal(Render(Normal(s)))) == Render(Normal(s))
  {
    NormalRender(Normal(s));
  }

  /** Normalising the left part first changes nothing. */
  lemma NormalCompositional(a: string, b: string)
    ensures Render(Normal(a + "/" + b)) == Render(Normal(Render(Normal(a)) + "/" + b))
  {
    SplitConcat(a, b);
    SplitConcat(Render(Normal(a)), b);
    ScanPlain(a);
    ResolveCompose(Split(a), Split(b));
    SplitRender(Normal(a));
  }

  /** ".." at the root stays at the root. */
  lemma NormalNeverAboveRoot(s: string)
    ensures Normal("../" + s) == Normal(s)
  {
    var up := "..";
    assert "../" + s == up + "/" + s;
    SplitConcat(up, s);
    ScanSegment(up);
    var a := [up];
    assert Split(up) == a;
    assert a[..|a| - 1] == [];
    assert Resolve([]) == [];
    assert Resolve(a) == [];
    ResolveCompose(a, Split(s));
    assert [] + Split(s) == Split(s);
  }

  // ---------- Shape of printed paths ----------

  /** One more segment: nothing, a single dot, a double dot, or a name. */
  lemma NormalSegment(a: string, seg: string)
    requires '/' !in seg
    ensures seg == "" || seg == "." ==> Normal(a + "/" + seg) == Normal(a)
    ensures seg == ".." && Normal(a) == [] ==> Normal(a + "/" + seg) == []
    ensures seg == ".." && Normal(a) != [] ==> Normal(a + "/" + seg) == Normal(a)[..|Normal(a)| - 1]
    ensures seg != "" && seg != "." && seg != ".." ==> Normal(a + "/" + seg) == Normal(a) + [seg]
  {
    SplitConcat(a, seg);
    ScanSegment(seg);
    if seg == "" {
      assert Split(a + "/" + seg) == Split(a);
    } else {
      assert Split(seg) == [seg];
      assert (Split(a) + [seg])[..|Split(a)|] == Split(a);
    }
  }

  /** A text without a slash is read like the same text behind one. */
  lemma NormalStart(seg: string)
    ensures Normal(seg) == Normal("/" + seg) && Normal("") == []
  {
    SplitConcat("", seg);
    assert "" + "/" + seg == "/" + seg;
    assert Split("") == [] && [] + Split(seg) == Split(seg);
  }

  /** The directory reached from `p` by one segment. */
  ghost function Followed(p: Path, seg: string): Path {
    if seg == "" || seg == "." then p
    else if seg == ".." then (if p == [] then [] else p[..|p| - 1])
    else p + [seg]
  }

  ghost predicate StartsAtRoot(g: string -> Path, seg: string) { g(seg) == g("/" + seg) }

  ghost predicate Follows(g: string -> Path, a: string, seg: string) { g(a + "/" + seg) == Followed(g(a), seg) }

  /** Reading a text segment by segment, from the root on. */
  ghost predicate FollowsSegments(g: string -> Path) {
    && g("") == []
    && (forall seg: string {:trigger StartsAtRoot(g, seg)} | '/' !in seg :: StartsAtRoot(g, seg))
    && (forall a, seg: string {:trigger Follows(g, a, seg)} | '/' !in seg :: Follows(g, a, seg))
  }

  lemma {:induction false} LastSegment(text: string) returns (a: string, seg: string)
    requires '/' in text
    ensures '/' !in seg && text == a + "/" + seg
  {
    var n := |text| - 1;
    if text[n] == '/' {
      a, seg := text[..n], "";
    } else {
      assert text == text[..n] + [text[n]];
      a, seg := LastSegment(text[..n]);
      seg := seg + [text[n]];
    }
  }

  /** One segment more, in one equation for any reading that agrees so far. */
  lemma StepAgrees(g: string -> Path, a: string, seg: string)
    requires '/' !in seg && g(a) == Normal(a)
    ensures Follows(g, a, seg) <==> g(a + "/" + seg) == Normal(a + "/" + seg)
  {
    NormalSegment(a, seg);
  }

  lemma StartAgrees(g: string -> Path, seg: string)
    requires g("/" + seg) == Normal("/" + seg)
    ensures StartsAtRoot(g, seg) <==> g(seg) == Normal(seg)
  {
    NormalStart(seg);
  }

  lemma {:induction false} OneReading(g: string -> Path, text: string)
    requires FollowsSegments(g)
    ensures g(text) == Normal(text)
    decreases |text|
  {
    if '/' in text {
      var a, seg := LastSegment(text);
      OneReading(g, a);
      assert Follows(g, a, seg);
      StepAgrees(g, a, seg);
    } else {
      OneSegmentReading(g, text);
    }
  }

  lemma OneSegmentReading(g: string -> Path, text: string)
    requires FollowsSegments(g) && '/' !in text
    ensures g(text) == Normal(text)
  {
    NormalStart("");
    assert Follows(g, "", text) && StartsAtRoot(g, text);
    StepAgrees(g, "", text);
    assert "" + "/" + text == "/" + text;
    StartAgrees(g, text);
  }

  /** Segment by segment there is only one reading of a text, and normalising is that one. */
  lemma NormalIsTheReading(g: string -> Path)
    ensures FollowsSegments(g) <==> forall text :: g(text) == Normal(text)
  {
    if FollowsSegments(g) {
      forall text ensures g(text) == Normal(text) { OneReading(g, text); }
    }
    if forall text :: g(text) == Normal(text) {
      NormalStart("");
      forall seg: string | '/' !in seg ensures StartsAtRoot(g, seg) { StartAgrees(g, seg); }
      forall a, seg: string | '/' !in seg ensures Follows(g, a, seg) { StepAgrees(g, a, seg); }
    }
  }

  lemma {:induction false} JoinCharacters(p: Path, c: char)
    requires c != '/'
    ensures c in Join(p) <==> exists i | 0 <= i < |p| :: c in p[i]
  {
    if |p| <= 1 {
    } else {
      var q := p[..|p| - 1];
      JoinCharacters(q, c);
      assert forall i | 0 <= i < |q| :: q[i] == p[i];
    }
  }

  /** A segment list followed by one more: how child paths are printed. */
  lemma RenderChild(p: Path, seg: string)
    ensures Render(p + [seg]) == if p == [] then "/" + seg else Render(p) + "/" + seg
  {
    assert (p + [seg])[..|p|] == p;
  }

  /** No two slashes in a row, and no trailing slash except for the root. */
  ghost predicate CleanText(s: string) {
    && (forall i | 0 <= i < |s| - 1 :: !(s[i] == '/' && s[i + 1] == '/'))
    && (|s| > 1 ==> s[|s| - 1] != '/')
  }

  lemma {:induction false} RenderClean(p: Path)
    requires Canonical(p)
    ensures CleanText(Render(p))
    ensures p != [] ==> |Render(p)| > 1
  {
    if p == [] {
    } else {
      var q, seg := p[..|p| - 1], p[|p| - 1];
      RenderClean(q);
      RenderChild(q, seg);
      assert p == q + [seg];
      assert seg in p;
      assert forall i | 0 <= i < |seg| :: seg[i] != '/';
    }
  }

  // ---------- The code ----------

  /** The first loop: runs of characters other than the slash. */
  method Segments(text: string) returns (parts: seq<string>)
    ensures parts == Split(text)
  {
    parts := [];
    var cur := "";
    for i := 0 to |text|
      invariant (parts, cur) == Scan(text[..i])
    {
      assert text[..i + 1][..i] == text[..i];
      if text[i] == '/' {
        if cur != "" { parts := parts + [cur]; cur := ""; }
      } else {
        cur := cur + [text[i]];
      }
    }
    assert text[..|text|] == text;
    if cur != "" { parts := parts + [cur]; }
  }

  /** The second loop: single and double dots. */
  method Resolved(parts: seq<string>) returns (stack: seq<string>)
    ensures stack == Resolve(parts)
  {
    stack := [];
    for i := 0 to |parts|
      invariant stack == Resolve(parts[..i])
    {
      assert parts[..i + 1][..i] == parts[..i];
      var p := parts[i];
      if p == "" || p == "." { continue; }
      if p == ".." {
        if stack != [] { stack := stack[..|stack| - 1]; }
        continue;
      }
      stack := stack + [p];
    }
    assert parts[..|parts|] == parts;
  }

  method NormalizePath(text: string) returns (out: string)
    ensures out == Render(Normal(text))
  {
    var parts := Segments(text);
    var stack := Resolved(parts);
    out := "/";
    for i := 0 to |stack|
      invariant out == Render(stack[..i]) + (if 0 < i < |stack| then "/" else "")
    {
      assert stack[..i + 1][..i] == stack[..i];
      out := out + stack[i];
      if i + 1 < |stack| { out := out + "/"; }
    }
    assert stack[..|stack|] == stack;
  }
}
