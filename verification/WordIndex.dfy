/** The inverted word index of src/shell.cpp: `index_add_path_` and `index_remove_path_`. */
module WordIndex {
  import opened Strings

  type Index = map<string, set<string>>

  // ---------- Words of a text ----------

  predicate Alnum(c: char) { '0' <= c <= '9' || 'a' <= c <= 'z' || 'A' <= c <= 'Z' }

  function Lower(c: char): char {
    if 'A' <= c <= 'Z' then c - 'A' + 'a' else c
  }

  /** Letters and digits are those of ASCII; capitals become the small letters of the same place. */
  lemma LowerIs(c: char, i: int)
    ensures Alnum(c) <==> c in CAPITALS || c in SMALL || c in FIGURES
    ensures 0 <= i < 26 ==> Lower(CAPITALS[i]) == SMALL[i]
    ensures c !in CAPITALS ==> Lower(c) == c
  {
    InAlphabet(c, 'A', CAPITALS);
    InAlphabet(c, 'a', SMALL);
    InAlphabet(c, '0', FIGURES);
  }

  lemma InAlphabet(c: char, first: char, letters: string)
    requires forall i | 0 <= i < |letters| :: letters[i] as int == first as int + i
    ensures c in letters <==> first as int <= c as int < first as int + |letters|
  {
    if first as int <= c as int < first as int + |letters| {
      assert letters[c as int - first as int] == c;
    }
  }

  function LowerAll(s: string): string { seq(|s|, i requires 0 <= i < |s| => Lower(s[i])) }

  /** `text[i..j]` is a maximal run of alphanumeric characters. */
  ghost predicate IsRun(text: string, i: int, j: int) {
    && 0 <= i < j <= |text|
    && (forall k | i <= k < j :: Alnum(text[k]))
    && (i > 0 ==> !Alnum(text[i - 1]))
    && (j < |text| ==> !Alnum(text[j]))
  }

  /** What it means to be a word of a text. */
  ghost predicate IsWord(text: string, w: string) {
    exists i, j :: IsRun(text, i, j) && w == LowerAll(text[i..j])
  }

  // ---------- The tokenizer's loop ----------

  /** Where the run that reaches the end of `s` starts; the end itself when there is none. */
  ghost function RunStart(s: string): nat
    ensures RunStart(s) <= |s|
  {
    if s == "" || !Alnum(s[|s| - 1]) then |s| else RunStart(s[..|s| - 1])
  }

  lemma {:induction false} RunStartAt(s: string)
    ensures forall k | RunStart(s) <= k < |s| :: Alnum(s[k])
    ensures RunStart(s) > 0 ==> !Alnum(s[RunStart(s) - 1])
  {
    if s == "" || !Alnum(s[|s| - 1]) {
    } else {
      RunStartAt(s[..|s| - 1]);
    }
  }

  /** A run that ends before position `i`. */
  ghost predicate Flushed(text: string, i: int, w: string) {
    exists a, b :: IsRun(text, a, b) && b < i && w == LowerAll(text[a..b])
  }

  /** The run being read, in lower case: what the tokenizer's buffer holds before position `i`. */
  ghost function Pending(text: string, i: nat): string
    requires i <= |text|
  {
    LowerAll(text[RunStart(text[..i])..i])
  }

  /** Where no letter or digit follows, the buffer holds exactly the run that ends there. */
  lemma RunEndsHere(text: string, i: nat, v: string)
    requires i <= |text| && (i < |text| ==> !Alnum(text[i]))
    ensures Flushed(text, i + 1, v) <==> Flushed(text, i, v) || (v != "" && v == Pending(text, i))
  {
    var s := RunStart(text[..i]);
    RunStartAt(text[..i]);
    assert forall k | 0 <= k < i :: text[..i][k] == text[k];
    if Flushed(text, i + 1, v) && !Flushed(text, i, v) {
      var a, b :| IsRun(text, a, b) && b < i + 1 && v == LowerAll(text[a..b]);
      assert b == i && a == s;
    }
    if v != "" && v == Pending(text, i) {
      assert IsRun(text, s, i);
    }
  }

  /** Inside a run nothing is flushed and the buffer grows by one character. */
  lemma RunGoesOn(text: string, i: nat)
    requires i < |text| && Alnum(text[i])
    ensures Pending(text, i + 1) == Pending(text, i) + [Lower(text[i])]
    ensures forall v :: Flushed(text, i + 1, v) <==> Flushed(text, i, v)
  {
    assert text[..i + 1][..i] == text[..i];
    forall v ensures Flushed(text, i + 1, v) <==> Flushed(text, i, v) {
      if Flushed(text, i + 1, v) {
        var a, b :| IsRun(text, a, b) && b < i + 1 && v == LowerAll(text[a..b]);
        assert b < i;
      }
    }
  }

  /** At the end of the text the last buffer completes the words. */
  lemma LastRun(text: string, v: string)
    ensures IsWord(text, v) <==> Flushed(text, |text|, v) || (v != "" && v == Pending(text, |text|))
  {
    RunEndsHere(text, |text|, v);
    if IsWord(text, v) {
      var a, b :| IsRun(text, a, b) && v == LowerAll(text[a..b]);
      assert b < |text| + 1;
    }
  }

  // ---------- Postings ----------

  ghost predicate Has(words: Index, w: string, path: string) { w in words && path in words[w] }

  /** The index lists a path under a word exactly when the word is in the document's text. */
  ghost predicate Agrees(words: Index, docs: map<string, string>) {
    forall w, q :: Has(words, w, q) <==> q in docs && IsWord(docs[q], w)
  }

  /** The index without its empty posting sets. */
  ghost function Trim(words: Index): Index { map w | w in words && words[w] != {} :: words[w] }

  /** Agreement with the documents leaves nothing open but words whose posting set is empty. */
  lemma AgreementDecides(a: Index, b: Index, docs: map<string, string>)
    requires Agrees(a, docs) && Agrees(b, docs)
    ensures Trim(a) == Trim(b)
  {
    forall w ensures w in Trim(a) <==> w in Trim(b)
             ensures w in Trim(a) && w in Trim(b) ==> Trim(a)[w] == Trim(b)[w]
    {
      assert forall q :: Has(a, w, q) <==> Has(b, w, q);
      if w in Trim(a) { var q :| q in a[w]; assert Has(b, w, q); }
      if w in Trim(b) { var q :| q in b[w]; assert Has(a, w, q); }
      if w in a && w in b {
        assert forall q :: q in a[w] <==> Has(a, w, q);
        assert forall q :: q in b[w] <==> Has(b, w, q);
        assert a[w] == b[w];
      }
    }
  }

  // ---------- Runs of document changes ----------

  /** One change of a document: new content, or its removal. */
  datatype Change = Put(path: string, content: string) | Drop(path: string)

  /** The documents after one more change. */
  ghost function After(docs: map<string, string>, c: Change): map<string, string> {
    if c.Put? then docs[c.path := c.content] else docs - {c.path}
  }

  ghost function Documents(run: seq<Change>): map<string, string> {
    if run == [] then map[] else After(Documents(run[..|run| - 1]), run[|run| - 1])
  }

  class ShellIndex {
    var words: Index

    constructor ()
      ensures words == map[]
    {
      words := map[];
    }

    /** Takes the path out of every posting set; a set that becomes empty stays. */
    method RemovePath(path: string)
      modifies this
      ensures words.Keys == old(words).Keys
      ensures forall w | w in words :: words[w] == old(words)[w] - {path}
    {
      var todo := words.Keys;
      while todo != {}
        invariant todo <= words.Keys == old(words).Keys
        invariant forall w | w in words :: words[w] == if w in todo then old(words)[w] else old(words)[w] - {path}
        decreases todo
      {
        var w :| w in todo;
        words := words[w := words[w] - {path}];
        todo := todo - {w};
      }
    }

    method Flush(path: string, w: string)
      modifies this
      ensures forall v, q :: Has(words, v, q) <==> Has(old(words), v, q) || (v == w != "" && q == path)
    {
      if w != "" {
        words := words[w := (if w in words then words[w] else {}) + {path}];
      }
    }

    /** Splits the content into runs of letters and digits and posts the path under each, in lower case. */
    method AddPath(path: string, content: string)
      modifies this
      ensures forall w, q :: Has(words, w, q) <==> Has(old(words), w, q) || (q == path && IsWord(content, w))
    {
      var w := "";
      for i := 0 to |content|
        invariant w == Pending(content, i)
        invariant forall v, q :: Has(words, v, q) <==> Has(old(words), v, q) || (q == path && Flushed(content, i, v))
      {
        var c := content[i];
        if Alnum(c) {
          w := w + [Lower(c)];
          RunGoesOn(content, i);
        } else {
          Flush(path, w);
          w := "";
          forall v { RunEndsHere(content, i, v); }
        }
      }
      Flush(path, w);
      forall v { LastRun(content, v); }
    }

    /** A changed document is taken out and, unless it is gone, posted again. */
    method Apply(c: Change, ghost docs: map<string, string>)
      requires Agrees(words, docs)
      modifies this
      ensures Agrees(words, After(docs, c))
    {
      RemovePath(c.path);
      assert forall w, q :: Has(words, w, q) <==> Has(old(words), w, q) && q != c.path;
      if c.Put? {
        AddPath(c.path, c.content);
      }
    }

    /** Whatever the history, the index agrees with a scan of the documents as they are now. */
    method Replay(run: seq<Change>)
      requires words == map[]
      modifies this
      ensures Agrees(words, Documents(run))
    {
      for i := 0 to |run|
        invariant Agrees(words, Documents(run[..i]))
      {
        assert run[..i + 1][..i] == run[..i];
        Apply(run[i], Documents(run[..i]));
      }
      assert run[..|run|] == run;
    }

    /** A rebuild from scratch: every present document is posted once. */
    method Rebuild(docs: map<string, string>)
      modifies this
      ensures Agrees(words, docs)
    {
      words := map[];
      var todo := docs.Keys;
      while todo != {}
        invariant todo <= docs.Keys
        invariant forall w, q :: Has(words, w, q) <==> q in docs && q !in todo && IsWord(docs[q], w)
        decreases todo
      {
        var q :| q in todo;
        AddPath(q, docs[q]);
        todo := todo - {q};
      }
    }
  }

  /** Incremental upkeep and a rebuild end in the same index, up to empty posting sets. */
  method ReplayMatchesRebuild(run: seq<Change>, docs: map<string, string>) returns (kept: Index, rebuilt: Index)
    requires docs == Documents(run)
    ensures Agrees(kept, docs) && Trim(kept) == Trim(rebuilt)
  {
    var a := new ShellIndex();
    a.Replay(run);
    var b := new ShellIndex();
    b.Rebuild(docs);
    AgreementDecides(a.words, b.words, docs);
    return a.words, b.words;
  }
}
