/** Stable sorting by a total preorder: what `sort.SliceStable` and `sort.Strings`
    promise, and why that promise determines the result. */
module Sorting {
  import opened Strings

  ghost predicate TotalPreorder<T(!new)>(le: (T, T) -> bool) {
    && (forall x, y :: le(x, y) || le(y, x))
    && (forall x, y, z :: le(x, y) && le(y, z) ==> le(x, z))
  }

  ghost predicate SortedBy<T>(le: (T, T) -> bool, s: seq<T>) {
    forall i, j :: 0 <= i < j < |s| ==> le(s[i], s[j])
  }

  /** Elements the order cannot tell apart from x. */
  predicate Tied<T>(le: (T, T) -> bool, x: T, y: T) {
    le(x, y) && le(y, x)
  }

  function Keep<T(!new)>(p: T -> bool, s: seq<T>): (r: seq<T>)
    ensures forall x :: x in r <==> x in s && p(x)
    ensures |r| <= |s|
  {
    if s == [] then [] else (if p(s[0]) then [s[0]] else []) + Keep(p, s[1..])
  }

  lemma {:induction false} KeepAppend<T(!new)>(p: T -> bool, a: seq<T>, b: seq<T>)
    ensures Keep(p, a + b) == Keep(p, a) + Keep(p, b)
  {
    if a == [] {
      assert a + b == b;
    } else {
      assert (a + b)[1..] == a[1..] + b;
      KeepAppend(p, a[1..], b);
    }
  }

  lemma {:induction false} KeepSorted<T(!new)>(le: (T, T) -> bool, p: T -> bool, s: seq<T>)
    requires SortedBy(le, s)
    ensures SortedBy(le, Keep(p, s))
  {
    if s != [] {
      KeepSorted(le, p, s[1..]);
      assert forall y :: y in s[1..] ==> le(s[0], y);
    }
  }

  ghost function Class<T(!new)>(le: (T, T) -> bool, x: T, s: seq<T>): (r: seq<T>)
    ensures forall y :: y in r <==> y in s && Tied(le, x, y)
  {
    if s == [] then [] else (if Tied(le, x, s[0]) then [s[0]] else []) + Class(le, x, s[1..])
  }

  lemma {:induction false} ClassAppend<T(!new)>(le: (T, T) -> bool, x: T, a: seq<T>, b: seq<T>)
    ensures Class(le, x, a + b) == Class(le, x, a) + Class(le, x, b)
  {
    if a == [] {
      assert a + b == b;
    } else {
      assert (a + b)[1..] == a[1..] + b;
      ClassAppend(le, x, a[1..], b);
    }
  }

  lemma {:induction false} ClassKeep<T(!new)>(le: (T, T) -> bool, x: T, p: T -> bool, s: seq<T>)
    ensures Class(le, x, Keep(p, s)) == Keep(p, Class(le, x, s))
  {
    if s != [] {
      ClassKeep(le, x, p, s[1..]);
      var h, g := if p(s[0]) then [s[0]] else [], if Tied(le, x, s[0]) then [s[0]] else [];
      ClassAppend(le, x, h, Keep(p, s[1..]));
      KeepAppend(p, g, Class(le, x, s[1..]));
    }
  }

  /** Two lists hold the same elements and list tied elements in the same order. */
  ghost predicate SameClasses<T(!new)>(le: (T, T) -> bool, a: seq<T>, b: seq<T>) {
    forall x :: Class(le, x, a) == Class(le, x, b)
  }

  function Insert<T>(le: (T, T) -> bool, x: T, s: seq<T>): seq<T> {
    if s == [] || le(x, s[0]) then [x] + s else [s[0]] + Insert(le, x, s[1..])
  }

  function Sort<T>(le: (T, T) -> bool, s: seq<T>): seq<T> {
    if s == [] then [] else Insert(le, s[0], Sort(le, s[1..]))
  }

  lemma {:induction false} InsertContents<T>(le: (T, T) -> bool, x: T, s: seq<T>)
    ensures multiset(Insert(le, x, s)) == multiset{x} + multiset(s)
    ensures |Insert(le, x, s)| == |s| + 1
    ensures forall y :: y in Insert(le, x, s) <==> y == x || y in s
  {
    if s == [] || le(x, s[0]) {
    } else {
      InsertContents(le, x, s[1..]);
      assert s == [s[0]] + s[1..];
    }
  }

  lemma {:induction false} InsertSorted<T(!new)>(le: (T, T) -> bool, x: T, s: seq<T>)
    requires TotalPreorder(le) && SortedBy(le, s)
    ensures SortedBy(le, Insert(le, x, s))
  {
    if s == [] || le(x, s[0]) {
      assert forall j :: 0 < j < |s| ==> le(s[0], s[j]);
    } else {
      InsertSorted(le, x, s[1..]);
      InsertContents(le, x, s[1..]);
      assert forall y :: y in s[1..] ==> le(s[0], y);
    }
  }

  lemma {:induction false} InsertClass<T(!new)>(le: (T, T) -> bool, x: T, s: seq<T>, z: T)
    requires TotalPreorder(le) && SortedBy(le, s)
    ensures Class(le, z, Insert(le, x, s)) == Class(le, z, [x] + s)
  {
    if s == [] || le(x, s[0]) {
    } else {
      InsertClass(le, x, s[1..], z);
      ClassAppend(le, z, [s[0]], Insert(le, x, s[1..]));
      ClassAppend(le, z, [x], s[1..]);
      ClassAppend(le, z, [x], s);
      assert s == [s[0]] + s[1..];
      ClassAppend(le, z, [s[0]], s[1..]);
      assert !(Tied(le, z, x) && Tied(le, z, s[0]));
    }
  }

  lemma {:induction false} SortContents<T>(le: (T, T) -> bool, s: seq<T>)
    ensures multiset(Sort(le, s)) == multiset(s)
    ensures |Sort(le, s)| == |s|
    ensures forall y :: y in Sort(le, s) <==> y in s
  {
    if s != [] {
      SortContents(le, s[1..]);
      InsertContents(le, s[0], Sort(le, s[1..]));
      assert s == [s[0]] + s[1..];
    }
  }

  /** The specification of a stable sort: ordered, and tied elements keep their input order. */
  lemma {:induction false} SortIsStable<T(!new)>(le: (T, T) -> bool, s: seq<T>)
    requires TotalPreorder(le)
    ensures SortedBy(le, Sort(le, s))
    ensures SameClasses(le, Sort(le, s), s)
  {
    if s != [] {
      SortIsStable(le, s[1..]);
      var t := Sort(le, s[1..]);
      InsertSorted(le, s[0], t);
      assert s == [s[0]] + s[1..];
      forall z
        ensures Class(le, z, Sort(le, s)) == Class(le, z, s)
      {
        InsertClass(le, s[0], t, z);
        ClassAppend(le, z, [s[0]], t);
        assert Class(le, z, t) == Class(le, z, s[1..]);
      }
    }
  }

  lemma {:induction false} HeadInClass<T(!new)>(le: (T, T) -> bool, s: seq<T>)
    requires TotalPreorder(le)
    ensures s != [] ==> s[0] in Class(le, s[0], s)
  {
  }

  /** ... and that specification has one solution, whatever algorithm computes it. */
  lemma {:induction false} StableSortUnique<T(!new)>(le: (T, T) -> bool, a: seq<T>, b: seq<T>)
    requires TotalPreorder(le) && SortedBy(le, a) && SortedBy(le, b) && SameClasses(le, a, b)
    ensures a == b
  {
    if a == [] {
      HeadInClass(le, b);
    } else {
      assert Class(le, a[0], a) == Class(le, a[0], b);
      assert a[0] in Class(le, a[0], a);
      assert a[0] in b;
      assert Class(le, b[0], a) == Class(le, b[0], b);
      assert b[0] in Class(le, b[0], b);
      assert b[0] in a;
      assert Tied(le, a[0], b[0]);
      assert Class(le, a[0], a)[0] == a[0] && Class(le, a[0], b)[0] == b[0];
      assert a == [a[0]] + a[1..] && b == [b[0]] + b[1..];
      forall z
        ensures Class(le, z, a[1..]) == Class(le, z, b[1..])
      {
        assert Class(le, z, a) == Class(le, z, b);
        var h := Class(le, z, [a[0]]);
        ClassAppend(le, z, [a[0]], a[1..]);
        ClassAppend(le, z, [a[0]], b[1..]);
        assert Class(le, z, a[1..]) == Class(le, z, a)[|h|..];
        assert Class(le, z, b[1..]) == Class(le, z, b)[|h|..];
      }
      StableSortUnique(le, a[1..], b[1..]);
    }
  }

  /** Filtering before or after a stable sort lists the same elements in the same order. */
  lemma {:induction false} SortKeepCommute<T(!new)>(le: (T, T) -> bool, p: T -> bool, s: seq<T>)
    requires TotalPreorder(le)
    ensures Keep(p, Sort(le, s)) == Sort(le, Keep(p, s))
  {
    var a, b := Keep(p, Sort(le, s)), Sort(le, Keep(p, s));
    SortIsStable(le, s);
    SortIsStable(le, Keep(p, s));
    KeepSorted(le, p, Sort(le, s));
    forall x
      ensures Class(le, x, a) == Class(le, x, b)
    {
      ClassKeep(le, x, p, Sort(le, s));
      ClassKeep(le, x, p, s);
      assert Class(le, x, Sort(le, s)) == Class(le, x, s);
      assert Class(le, x, b) == Class(le, x, Keep(p, s));
    }
    StableSortUnique(le, a, b);
  }

  /** No two different elements of s are tied. */
  ghost predicate Separates<T>(le: (T, T) -> bool, s: seq<T>) {
    forall x, y :: x in s && y in s && Tied(le, x, y) ==> x == y
  }

  lemma {:induction false} SortedPermutationUnique<T(!new)>(le: (T, T) -> bool, a: seq<T>, b: seq<T>)
    requires SortedBy(le, a) && SortedBy(le, b) && Separates(le, a)
    requires forall x :: le(x, x)
    requires multiset(a) == multiset(b)
    ensures a == b
  {
    assert |a| == |multiset(a)| && |b| == |multiset(b)|;
    if a != [] {
      assert a[0] in multiset(b) && b[0] in multiset(a);
      HeadsTied(le, a, b);
      TailContents(a);
      TailContents(b);
      assert Separates(le, a[1..]) by {
        assert forall x :: x in a[1..] ==> x in a;
      }
      SortedPermutationUnique(le, a[1..], b[1..]);
    }
  }

  lemma TailContents<T>(a: seq<T>)
    requires a != []
    ensures a == [a[0]] + a[1..] && multiset(a[1..]) == multiset(a) - multiset{a[0]}
  {
    assert a == [a[0]] + a[1..];
  }

  lemma HeadsTied<T(!new)>(le: (T, T) -> bool, a: seq<T>, b: seq<T>)
    requires SortedBy(le, a) && SortedBy(le, b) && Separates(le, a)
    requires forall x :: le(x, x)
    requires a != [] && b != [] && a[0] in b && b[0] in a
    ensures a[0] == b[0]
  {
    var i :| 0 <= i < |a| && a[i] == b[0];
    var j :| 0 <= j < |b| && b[j] == a[0];
    assert le(a[0], a[i]) && le(b[0], b[j]);
    assert Tied(le, a[0], b[0]);
  }

  /** Where ties mean equality, the sorted list forgets the input order altogether. */
  lemma {:induction false} SortPermutationInvariant<T(!new)>(le: (T, T) -> bool, a: seq<T>, b: seq<T>)
    requires TotalPreorder(le) && Separates(le, a)
    requires multiset(a) == multiset(b)
    ensures Sort(le, a) == Sort(le, b)
  {
    SortIsStable(le, a);
    SortIsStable(le, b);
    SortContents(le, a);
    SortContents(le, b);
    assert forall x :: le(x, x);
    SortedPermutationUnique(le, Sort(le, a), Sort(le, b));
  }

  lemma {:induction false} SortOfSorted<T(!new)>(le: (T, T) -> bool, s: seq<T>)
    requires SortedBy(le, s)
    ensures Sort(le, s) == s
  {
    if s != [] {
      SortOfSorted(le, s[1..]);
      assert |s| > 1 ==> le(s[0], s[1]);
    }
  }

  // ----- sorting an array in place

  /** Appending x to the input puts it after every element it is tied with. */
  lemma {:induction false} SortSnoc<T(!new)>(le: (T, T) -> bool, s: seq<T>, t: seq<T>, x: T, k: nat)
    requires TotalPreorder(le) && t == Sort(le, s) && k <= |t|
    requires forall i :: 0 <= i < k ==> le(t[i], x)
    requires forall i :: k <= i < |t| ==> !le(t[i], x)
    ensures Sort(le, s + [x]) == t[..k] + [x] + t[k..]
  {
    var u := t[..k] + [x] + t[k..];
    SortIsStable(le, s);
    SortIsStable(le, s + [x]);
    forall z
      ensures Class(le, z, u) == Class(le, z, s + [x])
    {
      SnocClass(le, s, t, x, k, z);
    }
    SnocSorted(le, t, x, k);
    StableSortUnique(le, u, Sort(le, s + [x]));
  }

  lemma {:induction false} SnocClass<T(!new)>(le: (T, T) -> bool, s: seq<T>, t: seq<T>, x: T, k: nat, z: T)
    requires TotalPreorder(le) && k <= |t|
    requires Class(le, z, t) == Class(le, z, s)
    requires forall i :: k <= i < |t| ==> !le(t[i], x)
    ensures Class(le, z, t[..k] + [x] + t[k..]) == Class(le, z, s + [x])
  {
    var a, b := t[..k], t[k..];
    assert t == a + b;
    assert forall y :: y in b ==> !le(y, x);
    ClassInsert(le, a, b, x, z);
    ClassAppend(le, z, s, [x]);
  }

  lemma {:induction false} ClassAbove<T(!new)>(le: (T, T) -> bool, b: seq<T>, x: T, z: T)
    requires TotalPreorder(le) && forall y :: y in b ==> !le(y, x)
    ensures Class(le, z, [x]) + Class(le, z, b) == Class(le, z, b) + Class(le, z, [x])
  {
    if Tied(le, z, x) {
      AboveClass(le, b, x, z);
    }
  }

  lemma {:induction false} ClassInsert<T(!new)>(le: (T, T) -> bool, a: seq<T>, b: seq<T>, x: T, z: T)
    requires TotalPreorder(le) && forall y :: y in b ==> !le(y, x)
    ensures Class(le, z, a + [x] + b) == Class(le, z, a + b) + Class(le, z, [x])
  {
    ClassAppend(le, z, a + [x], b);
    ClassAppend(le, z, a, [x]);
    ClassAppend(le, z, a, b);
    ClassAbove(le, b, x, z);
    Commute(Class(le, z, a), Class(le, z, [x]), Class(le, z, b));
  }

  lemma Commute<T>(a: seq<T>, x: seq<T>, b: seq<T>)
    requires x + b == b + x
    ensures a + x + b == a + b + x
  {
    assert a + x + b == a + (x + b);
  }

  lemma {:induction false} AboveClass<T(!new)>(le: (T, T) -> bool, r: seq<T>, x: T, z: T)
    requires TotalPreorder(le) && Tied(le, z, x)
    requires forall y :: y in r ==> !le(y, x)
    ensures Class(le, z, r) == []
  {
    var c := Class(le, z, r);
    assert c != [] ==> c[0] in r && Tied(le, z, c[0]);
  }

  lemma SnocSorted<T(!new)>(le: (T, T) -> bool, t: seq<T>, x: T, k: nat)
    requires TotalPreorder(le) && SortedBy(le, t) && k <= |t|
    requires forall i :: 0 <= i < k ==> le(t[i], x)
    requires forall i :: k <= i < |t| ==> !le(t[i], x)
    ensures SortedBy(le, t[..k] + [x] + t[k..])
  {
  }

  /** `sort.SliceStable`: insertion from the right, swapping neighbours while out of order. */
  method SortInPlace<T(!new)>(a: array<T>, le: (T, T) -> bool)
    requires TotalPreorder(le)
    modifies a
    ensures a[..] == Sort(le, old(a[..]))
  {
    ghost var was := a[..];
    var n := 0;
    while n < a.Length
      invariant 0 <= n <= a.Length
      invariant a[..n] == Sort(le, was[..n])
      invariant a[n..] == was[n..]
    {
      SortIsStable(le, was[..n]);
      assert a[n] == was[n];
      var k := Sink(a, le, n);
      SortSnoc(le, was[..n], Sort(le, was[..n]), was[n], k);
      assert was[..n + 1] == was[..n] + [was[n]];
      n := n + 1;
    }
    assert a[..] == a[..n] && was[..n] == was;
  }

  method Sink<T(!new)>(a: array<T>, le: (T, T) -> bool, n: nat) returns (k: nat)
    requires TotalPreorder(le) && n < a.Length && SortedBy(le, a[..n])
    modifies a
    ensures k <= n
    ensures forall i :: 0 <= i < k ==> le(old(a[i]), old(a[n]))
    ensures forall i :: k <= i < n ==> !le(old(a[i]), old(a[n]))
    ensures a[..n + 1] == old(a[..n])[..k] + [old(a[n])] + old(a[..n])[k..]
    ensures a[n + 1..] == old(a[n + 1..])
  {
    var x := a[n];
    k := n;
    while k > 0 && !le(a[k - 1], x)
      invariant 0 <= k <= n
      invariant a[k] == x
      invariant forall i :: 0 <= i < k ==> a[i] == old(a[i])
      invariant forall i :: k < i <= n ==> a[i] == old(a[i - 1])
      invariant forall i :: n < i < a.Length ==> a[i] == old(a[i])
      invariant forall i :: k <= i < n ==> !le(old(a[i]), x)
    {
      a[k - 1], a[k] := a[k], a[k - 1];
      k := k - 1;
    }
    assert forall i :: 0 <= i < k ==> le(old(a[..n])[i], old(a[..n])[k - 1]) || i == k - 1;
  }

  // ----- strings

  lemma StringOrder()
    ensures TotalPreorder(AtMost)
  {
    forall x: string, y: string
      ensures AtMost(x, y) || AtMost(y, x)
    {
      AtMostTotal(x, y);
    }
    forall x: string, y: string, z: string | AtMost(x, y) && AtMost(y, z)
      ensures AtMost(x, z)
    {
      AtMostTransitive(x, y, z);
    }
  }

  lemma StringsSeparate(s: seq<string>)
    ensures Separates(AtMost, s)
  {
    forall x, y | x in s && y in s && Tied(AtMost, x, y)
      ensures x == y
    {
      AtMostAntisymmetric(x, y);
    }
  }

  /** `sort.Strings`. */
  function SortStrings(s: seq<string>): seq<string> {
    Sort(AtMost, s)
  }

  lemma SortStringsCanonical(a: seq<string>, b: seq<string>)
    ensures SortStrings(a) == SortStrings(b) <==> multiset(a) == multiset(b)
  {
    StringOrder();
    StringsSeparate(a);
    if multiset(a) == multiset(b) {
      SortPermutationInvariant(AtMost, a, b);
    }
    if SortStrings(a) == SortStrings(b) {
      SortContents(AtMost, a);
      SortContents(AtMost, b);
    }
  }

  // ----- the sorted keys of a map

  lemma LeastExists(s: set<string>)
    requires s != {}
    ensures exists m :: m in s && forall y :: y in s ==> AtMost(m, y)
  {
    var x :| x in s;
    AtMostReflexive(x);
    if s != {x} {
      LeastExists(s - {x});
      var m :| m in s - {x} && forall y :: y in s - {x} ==> AtMost(m, y);
      var least := if AtMost(x, m) then x else m;
      AtMostTotal(m, x);
      forall y | y in s
        ensures AtMost(least, y)
      {
        if y != x && AtMost(x, m) {
          AtMostTransitive(x, m, y);
        }
      }
    }
  }

  ghost function Least(s: set<string>): (m: string)
    requires s != {}
    ensures m in s && forall y :: y in s ==> AtMost(m, y)
  {
    LeastExists(s);
    var m :| m in s && forall y :: y in s ==> AtMost(m, y);
    m
  }

  /** The elements of a set in ascending order: "collect the keys, then sort.Strings". */
  ghost function Listing(s: set<string>): (r: seq<string>)
    ensures forall x :: x in r <==> x in s
  {
    if s == {} then [] else var m := Least(s); [m] + Listing(s - {m})
  }

  lemma {:induction false} ListingSorted(s: set<string>)
    ensures SortedBy(AtMost, Listing(s))
    ensures multiset(Listing(s)) == multiset(s)
    ensures |Listing(s)| == |s|
  {
    if s != {} {
      var m := Least(s);
      ListingSorted(s - {m});
      LeastFirst(m, Listing(s - {m}));
      OneMore(m, s, Listing(s - {m}));
    }
  }

  lemma {:induction false} LeastFirst(m: string, rest: seq<string>)
    requires SortedBy(AtMost, rest) && forall y :: y in rest ==> AtMost(m, y)
    ensures SortedBy(AtMost, [m] + rest)
  {
  }

  lemma OneMore(m: string, s: set<string>, rest: seq<string>)
    requires m in s && multiset(rest) == multiset(s - {m}) && |rest| == |s - {m}|
    ensures multiset([m] + rest) == multiset(s) && |[m] + rest| == |s|
  {
    assert multiset(s) == multiset{m} + multiset(s - {m});
  }

  /** However the keys were collected, sorting them gives the one listing. */
  lemma {:induction false} SortGivesListing(r: seq<string>, s: set<string>)
    requires multiset(r) == multiset(s)
    ensures SortStrings(r) == Listing(s)
  {
    ListingSorted(s);
    SortStringsCanonical(r, Listing(s));
    SortOfSorted(AtMost, Listing(s));
  }

  lemma {:induction false} ListingDistinct(s: set<string>)
    ensures forall i, j :: 0 <= i < j < |Listing(s)| ==> Listing(s)[i] != Listing(s)[j]
  {
    ListingSorted(s);
    var l := Listing(s);
    forall i, j | 0 <= i < j < |l|
      ensures l[i] != l[j]
    {
      assert l == l[..j] + l[j..];
      assert multiset(l)[l[i]] <= 1;
      assert l[..j][i] == l[i] && l[j..][0] == l[j];
      assert l[i] in multiset(l[..j]) && l[j] in multiset(l[j..]);
    }
  }

  /** Collects a map's keys in whatever order the runtime hands them out, then sorts them. */
  /** The keys of a map in whatever order the runtime hands them out. */
  method CollectKeys(s: set<string>) returns (r: seq<string>)
    ensures multiset(r) == multiset(s)
  {
    var rest := s;
    r := [];
    while rest != {}
      invariant rest <= s
      invariant multiset(r) == multiset(s - rest)
    {
      var k :| k in rest;
      assert s - (rest - {k}) == (s - rest) + {k};
      r := r + [k];
      rest := rest - {k};
    }
    assert s - rest == s;
  }

  method SortedKeys(s: set<string>) returns (r: seq<string>)
    ensures r == Listing(s)
  {
    r := CollectKeys(s);
    SortGivesListing(r, s);
    r := SortStrings(r);
  }

  lemma Associate<T>(a: seq<T>, b: seq<T>, c: seq<T>)
    ensures a + (b + c) == (a + b) + c
  {
  }

  lemma InitLast<T>(s: seq<T>)
    requires s != []
    ensures s == s[..|s| - 1] + [s[|s| - 1]]
  {
  }

  // ----- results that do not depend on the order of a list

  function Around<T>(l: seq<T>, x: T, r: seq<T>): seq<T> {
    l + [x] + r
  }

  /** An element adds the same to the result wherever it stands. */
  ghost predicate AddsAnywhere<T(!new), R(!new)>(f: seq<T> -> R, add: (R, T) -> R) {
    forall l, x, r :: f(Around(l, x, r)) == add(f(l + r), x)
  }

  lemma {:induction false} OrderIrrelevant<T(!new), R(!new)>(f: seq<T> -> R, add: (R, T) -> R, a: seq<T>, b: seq<T>)
    requires AddsAnywhere(f, add) && multiset(a) == multiset(b)
    ensures f(a) == f(b)
    decreases |a|
  {
    assert |multiset(a)| == |a| && |multiset(b)| == |b|;
    if a != [] {
      var n := |a| - 1;
      assert a[n] in multiset(b);
      var i :| 0 <= i < |b| && b[i] == a[n];
      TakenOut(a, n);
      TakenOut(b, i);
      AddsBack(f, add, a, n);
      AddsBack(f, add, b, i);
      OrderIrrelevant(f, add, a[..n] + a[n + 1..], b[..i] + b[i + 1..]);
    }
  }

  lemma AddsBack<T(!new), R(!new)>(f: seq<T> -> R, add: (R, T) -> R, b: seq<T>, i: nat)
    requires AddsAnywhere(f, add) && i < |b|
    ensures f(b) == add(f(b[..i] + b[i + 1..]), b[i])
  {
    TakenOut(b, i);
    assert f(Around(b[..i], b[i], b[i + 1..])) == add(f(b[..i] + b[i + 1..]), b[i]);
  }

  lemma TakenOut<T>(b: seq<T>, i: nat)
    requires i < |b|
    ensures b == Around(b[..i], b[i], b[i + 1..])
    ensures multiset(b[..i] + b[i + 1..]) == multiset(b) - multiset{b[i]}
  {
    assert b == Around(b[..i], b[i], b[i + 1..]);
    assert multiset(b) == multiset(b[..i]) + multiset{b[i]} + multiset(b[i + 1..]);
  }
}
