/** Byte strings (a `char` stands for one byte), their order, and decimal numerals. */
module Strings {

  datatype Option<+T> = None | Some(value: T)

  ghost predicate Distinct<T>(s: seq<T>) { forall i, j | 0 <= i < j < |s| :: s[i] != s[j] }

  // ---------- The order std::map and std::sort use on std::string ----------

  predicate LexLeq(a: string, b: string) {
    a == "" || (b != "" && (a[0] < b[0] || (a[0] == b[0] && LexLeq(a[1..], b[1..]))))
  }

  lemma {:induction false} LexTotal(a: string, b: string)
    ensures LexLeq(a, b) || LexLeq(b, a)
  {
    if a == "" || b == "" || a[0] != b[0] {
    } else {
      LexTotal(a[1..], b[1..]);
    }
  }

  /** The first character that differs decides; a front part comes first. */
  lemma {:induction false} LexIs(common: string, a: string, b: string)
    requires a == "" || b == "" || a[0] != b[0]
    ensures LexLeq(common + a, common + b) <==> a == "" || (b != "" && a[0] < b[0])
  {
    if common == "" {
      assert common + a == a && common + b == b;
    } else {
      assert (common + a)[1..] == common[1..] + a && (common + b)[1..] == common[1..] + b;
      LexIs(common[1..], a, b);
    }
  }

  lemma {:induction false} LexAntisymmetric(a: string, b: string)
    requires LexLeq(a, b) && LexLeq(b, a)
    ensures a == b
  {
    if a == "" {
    } else {
      LexAntisymmetric(a[1..], b[1..]);
      assert a == [a[0]] + a[1..] && b == [b[0]] + b[1..];
    }
  }

  lemma {:induction false} LexTransitive(a: string, b: string, c: string)
    requires LexLeq(a, b) && LexLeq(b, c)
    ensures LexLeq(a, c)
  {
    if a == "" || !(a[0] == b[0] == c[0]) {
    } else {
      LexTransitive(a[1..], b[1..], c[1..]);
    }
  }

  predicate IsLeast(k: string, s: set<string>) {
    k in s && forall x | x in s :: LexLeq(k, x)
  }

  lemma {:induction false} LeastExists(s: set<string>)
    requires s != {}
    ensures exists k :: IsLeast(k, s)
    decreases s
  {
    var x :| x in s;
    if s == {x} {
      LexTotal(x, x);
      assert IsLeast(x, s);
    } else {
      LeastExists(s - {x});
      var k :| IsLeast(k, s - {x});
      LexTotal(k, x);
      if LexLeq(k, x) {
        assert IsLeast(k, s);
      } else {
        forall y | y in s ensures LexLeq(x, y) {
          if y == x { LexTotal(x, x); } else { LexTransitive(x, k, y); }
        }
        assert IsLeast(x, s);
      }
    }
  }

  lemma LeastIsUnique(s: set<string>)
    ensures forall k, l | IsLeast(k, s) && IsLeast(l, s) :: k == l
  {
    forall k, l | IsLeast(k, s) && IsLeast(l, s) ensures k == l { LexAntisymmetric(k, l); }
  }

  /** The keys in the order a std::map iterates them. */
  function InOrder(s: set<string>): (ks: seq<string>)
    decreases s
  {
    if s == {} then [] else
      LeastExists(s);
      LeastIsUnique(s);
      var k :| k in s && IsLeast(k, s);
      [k] + InOrder(s - {k})
  }

  lemma {:induction false} InOrderMembers(s: set<string>)
    ensures |InOrder(s)| == |s|
    ensures forall k :: k in InOrder(s) <==> k in s
    ensures forall i, j | 0 <= i < j < |s| :: InOrder(s)[i] != InOrder(s)[j]
    decreases s
  {
    if s == {} {
    } else {
      var k, rest := InOrder(s)[0], InOrder(s)[1..];
      InOrderMembers(s - {k});
      assert InOrder(s) == [k] + InOrder(s - {k});
    }
  }

  lemma {:induction false} InOrderSorted(s: set<string>)
    ensures forall i, j | 0 <= i < j < |InOrder(s)| :: LexLeq(InOrder(s)[i], InOrder(s)[j])
    decreases s
  {
    if s == {} {
    } else {
      var k := InOrder(s)[0];
      InOrderSorted(s - {k});
      InOrderMembers(s - {k});
      assert InOrder(s) == [k] + InOrder(s - {k});
      assert IsLeast(k, s);
      forall i, j | 0 <= i < j < |InOrder(s)| ensures LexLeq(InOrder(s)[i], InOrder(s)[j]) {
        if i == 0 { assert InOrder(s)[j] in InOrder(s - {k}); }
      }
    }
  }

  // ---------- Searching ----------

  /** First position of `c` in `s`, or `|s|`. */
  function Find(s: string, c: char): (i: nat)
    ensures i <= |s|
    ensures i < |s| ==> s[i] == c
    ensures c !in s[..i]
    ensures i == |s| <==> c !in s
  {
    if s == "" then 0
    else if s[0] == c then 0
    else
      var i := 1 + Find(s[1..], c);
      assert s[..i] == [s[0]] + s[1..][..i - 1];
      i
  }

  lemma {:induction false} FindAfter(a: string, c: char, b: string)
    requires c !in a
    ensures Find(a + [c] + b, c) == |a|
  {
    if a == "" {
    } else {
      FindAfter(a[1..], c, b);
      assert (a + [c] + b)[1..] == a[1..] + [c] + b;
    }
  }

  // ---------- Decimal numerals: std::to_string and std::stoul ----------

  const CAPITALS := "ABCDEFGHIJKLMNOPQRSTUVWXYZ"
  const SMALL := "abcdefghijklmnopqrstuvwxyz"
  const FIGURES := "0123456789"

  predicate IsDigit(c: char) { '0' <= c <= '9' }

  function DigitChar(d: nat): (c: char)
    requires d < 10
    ensures IsDigit(c) && c as int - '0' as int == d
  {
    '0' + d as char
  }

  function Decimal(n: nat): (s: string)
    ensures s != "" && forall c | c in s :: IsDigit(c)
  {
    if n < 10 then [DigitChar(n)] else Decimal(n / 10) + [DigitChar(n % 10)]
  }

  /** Value of a run of digits. */
  function DigitsValue(s: string): nat
    requires forall c | c in s :: IsDigit(c)
  {
    if s == "" then 0
    else
      assert IsDigit(s[|s| - 1]);
      10 * DigitsValue(s[..|s| - 1]) + (s[|s| - 1] as int - '0' as int)
  }

  lemma {:induction false} DecimalValue(n: nat)
    ensures DigitsValue(Decimal(n)) == n
  {
    if n < 10 {
      assert Decimal(n)[..0] == "";
    } else {
      DecimalValue(n / 10);
      var s := Decimal(n);
      assert s[..|s| - 1] == Decimal(n / 10);
    }
  }

  lemma DecimalInjective(m: nat, n: nat)
    requires Decimal(m) == Decimal(n)
    ensures m == n
  {
    DecimalValue(m);
    DecimalValue(n);
  }
}
