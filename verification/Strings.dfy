/** Byte-wise string order, case folding and decimal rendering: the primitives the
    audited code takes from Go's `<`, `strings.EqualFold` and `%d`. */
module Strings {

  /** Go's `a <= b` on strings: lexicographic on the characters. */
  predicate AtMost(a: string, b: string) {
    |a| == 0 || (|b| != 0 && (a[0] < b[0] || (a[0] == b[0] && AtMost(a[1..], b[1..]))))
  }

  /** Go's `a < b` on strings. */
  predicate Below(a: string, b: string) {
    !AtMost(b, a)
  }

  lemma {:induction false} AtMostReflexive(a: string)
    ensures AtMost(a, a)
  {
    if a != "" {
      AtMostReflexive(a[1..]);
    }
  }

  lemma {:induction false} AtMostTotal(a: string, b: string)
    ensures AtMost(a, b) || AtMost(b, a)
  {
    if |a| != 0 && |b| != 0 && a[0] == b[0] {
      AtMostTotal(a[1..], b[1..]);
    }
  }

  lemma {:induction false} AtMostTransitive(a: string, b: string, c: string)
    requires AtMost(a, b) && AtMost(b, c)
    ensures AtMost(a, c)
  {
    if |a| != 0 && a[0] == b[0] && b[0] == c[0] {
      AtMostTransitive(a[1..], b[1..], c[1..]);
    }
  }

  lemma {:induction false} AtMostAntisymmetric(a: string, b: string)
    requires AtMost(a, b) && AtMost(b, a)
    ensures a == b
  {
    if |a| != 0 && |b| != 0 {
      AtMostAntisymmetric(a[1..], b[1..]);
      assert a == [a[0]] + a[1..] && b == [b[0]] + b[1..];
    }
  }

  /** A prefix comes first; otherwise the first differing character decides. */
  lemma {:induction false} AtMostIff(a: string, b: string)
    ensures AtMost(a, b) <==> a <= b || exists i :: 0 <= i < |a| && i < |b| && a[..i] == b[..i] && a[i] < b[i]
  {
    if a != "" && b != "" && a[0] == b[0] {
      AtMostIff(a[1..], b[1..]);
      assert a == [a[0]] + a[1..] && b == [b[0]] + b[1..];
      if i :| 0 <= i < |a[1..]| && i < |b[1..]| && a[1..][..i] == b[1..][..i] && a[1..][i] < b[1..][i] {
        assert a[..i + 1] == [a[0]] + a[1..][..i] && b[..i + 1] == [b[0]] + b[1..][..i];
        assert a[i + 1] < b[i + 1];
      }
      if i :| 0 <= i < |a| && i < |b| && a[..i] == b[..i] && a[i] < b[i] {
        assert a[1..][..i - 1] == a[..i][1..] && b[1..][..i - 1] == b[..i][1..];
        assert a[1..][i - 1] < b[1..][i - 1];
      }
    } else if a != "" && b != "" && a[0] < b[0] {
      assert a[..0] == b[..0];
    } else if a != "" && b != "" {
      forall i | 0 < i < |a| && i < |b|
        ensures a[..i] != b[..i]
      {
        assert a[..i][0] == a[0] && b[..i][0] == b[0];
      }
    }
  }

  /** The same letter, whatever its case. */
  predicate SameLetter(c: char, d: char) {
    c == d || ('A' <= c <= 'Z' && d as int == c as int + 32) || ('A' <= d <= 'Z' && c as int == d as int + 32)
  }

  lemma EqualFoldIff(a: string, b: string)
    ensures EqualFold(a, b) <==> |a| == |b| && forall i :: 0 <= i < |a| ==> SameLetter(a[i], b[i])
  {
    if |a| == |b| {
      forall i | 0 <= i < |a|
        ensures Fold(a)[i] == Fold(b)[i] <==> SameLetter(a[i], b[i])
      {
        LowerIff(a[i], b[i]);
      }
    } else {
      assert |Fold(a)| != |Fold(b)|;
    }
    assert EqualFold(a, b) && |a| == |b| ==> forall i :: 0 <= i < |a| ==> Fold(a)[i] == Fold(b)[i];
  }

  lemma LowerIff(c: char, d: char)
    ensures Lower(c) == Lower(d) <==> SameLetter(c, d)
  {
    assert 'A' <= c <= 'Z' ==> Lower(c) as int == c as int + 32;
    assert 'A' <= d <= 'Z' ==> Lower(d) as int == d as int + 32;
  }

  /** ASCII lower-casing, the folding `strings.EqualFold` applies to host names and states. */
  function Fold(s: string): string {
    seq(|s|, i requires 0 <= i < |s| => Lower(s[i]))
  }

  function Lower(c: char): char {
    if 'A' <= c <= 'Z' then (c as int + 32) as char else c
  }

  predicate EqualFold(a: string, b: string) {
    Fold(a) == Fold(b)
  }

  /** `%d` of a non-negative number. */
  function Decimal(n: nat): (s: string)
    ensures s != [] && forall c :: c in s ==> '0' <= c <= '9'
  {
    var last := ['0' + (n % 10) as char];
    if n < 10 then last else Decimal(n / 10) + last
  }

  /** The number a row of digits stands for. */
  function Value(s: string): int {
    if s == "" then 0 else Value(s[..|s| - 1]) * 10 + (s[|s| - 1] as int - '0' as int)
  }

  /** The numeral stands for the number, and has no leading zero. */
  lemma {:induction false} DecimalReads(n: nat)
    ensures Value(Decimal(n)) == n
    ensures n != 0 ==> Decimal(n)[0] != '0'
  {
    var s := Decimal(n);
    assert Value("") == 0;
    if n < 10 {
      assert s[..0] == "";
    } else {
      DecimalReads(n / 10);
      assert s[..|s| - 1] == Decimal(n / 10);
    }
  }

  lemma {:induction false} DecimalInjective(a: nat, b: nat)
    requires Decimal(a) == Decimal(b)
    ensures a == b
    decreases a
  {
    var da, db := Decimal(a), Decimal(b);
    assert da[|da| - 1] == db[|db| - 1];
    assert a % 10 == b % 10;
    if a >= 10 && b >= 10 {
      assert da[..|da| - 1] == Decimal(a / 10) && db[..|db| - 1] == Decimal(b / 10);
      DecimalInjective(a / 10, b / 10);
    }
  }

  /** A string without `c` splits at its first `c` in one way only. */
  lemma SplitUnique(a: string, b: string, x: string, y: string, c: char)
    requires c !in a && c !in b
    requires a + [c] + x == b + [c] + y
    ensures a == b && x == y
  {
    FirstAt(a, x, c);
    FirstAt(b, y, c);
    var s := a + [c] + x;
    assert a == s[..|a|] && b == s[..|b|];
    assert x == s[|a| + 1..] && y == s[|b| + 1..];
  }

  lemma FirstAt(a: string, x: string, c: char)
    requires c !in a
    ensures (a + [c] + x)[|a|] == c
    ensures forall i :: 0 <= i < |a| ==> (a + [c] + x)[i] != c
  {
  }

  /** `strings.Join`. */
  function Join(parts: seq<string>, sep: string): string {
    if |parts| == 0 then ""
    else if |parts| == 1 then parts[0]
    else parts[0] + sep + Join(parts[1..], sep)
  }

  // ----- awk's index()

  predicate OccursAt(s: string, t: string, p: int) {
    0 <= p && p + |t| <= |s| && s[p..p + |t|] == t
  }

  /** Position of the first occurrence of t in s, counted from 1; 0 when there is none. */
  function Index(s: string, t: string): nat {
    if t <= s then 1
    else if s == "" then 0
    else var rest := Index(s[1..], t); if rest == 0 then 0 else rest + 1
  }

  /** It is an occurrence, and the first one. */
  lemma {:induction false} IndexMeaning(s: string, t: string)
    ensures Index(s, t) > 0 ==> OccursAt(s, t, Index(s, t) - 1)
    ensures forall p :: OccursAt(s, t, p) ==> 0 < Index(s, t) <= p + 1
  {
    PrefixOccurs(s, t);
    if !(t <= s) && s != "" {
      IndexMeaning(s[1..], t);
      IndexStep(s, t);
    }
  }

  lemma PrefixOccurs(s: string, t: string)
    ensures OccursAt(s, t, 0) <==> t <= s
  {
    if |t| <= |s| {
      assert s[0..|t|] == s[..|t|];
    }
  }

  lemma OccursHead(s: string, t: string, p: int)
    requires t != ""
    ensures OccursAt(s, t, p) ==> s[p] == t[0]
  {
    if OccursAt(s, t, p) {
      assert s[p..p + |t|][0] == s[p];
    }
  }

  lemma IndexStep(s: string, t: string)
    requires s != "" && !(t <= s)
    ensures forall p :: OccursAt(s, t, p) ==> p > 0 && OccursAt(s[1..], t, p - 1)
    ensures forall p :: OccursAt(s[1..], t, p) ==> OccursAt(s, t, p + 1)
  {
    forall p | OccursAt(s, t, p)
      ensures p > 0 && OccursAt(s[1..], t, p - 1)
    {
      PrefixOccurs(s, t);
      if p > 0 {
        assert s[1..][p - 1..p - 1 + |t|] == s[p..p + |t|];
      }
    }
    forall p | OccursAt(s[1..], t, p)
      ensures OccursAt(s, t, p + 1)
    {
      assert s[1..][p..p + |t|] == s[p + 1..p + 1 + |t|];
    }
  }
}
