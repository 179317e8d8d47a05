/** internal/finding: one statement about one target, the severity order, and the
    "worst first" sort every renderer relies on. */
module Findings {
  import opened Strings
  import opened Sorting

  datatype Option<+T> = None | Some(value: T)

  /** A Go string type: four named texts, and whatever else a file may hold. */
  datatype Status = OK | WARN | BAD | ERROR | Other(text: string)

  /** Rank in the severity map; a text that is not in the map reads as zero. */
  function Severity(s: Status): nat {
    match s
    case WARN => 1
    case BAD => 2
    case ERROR => 3
    case _ => 0
  }

  /** The ranks order the levels; a text outside the four ranks as OK. */
  lemma RanksOrder(a: Status, b: Status)
    ensures Severity(a) <= Severity(b) <==> NoWorse(a, b)
    ensures AtLeast(b, a) <==> NoWorse(a, b)
  {
  }

  predicate ValidStatus(s: Status) {
    !s.Other?
  }

  /** a is no worse than b, level by level; a text outside the four counts as OK. */
  predicate NoWorse(a: Status, b: Status) {
    match b
    case ERROR => true
    case BAD => a != ERROR
    case WARN => a != ERROR && a != BAD
    case _ => a != ERROR && a != BAD && a != WARN
  }

  predicate AtLeast(s: Status, threshold: Status) {
    Severity(s) >= Severity(threshold)
  }

  datatype Finding = Finding(check: string, target: string, status: Status, value: Option<real>)

  /** a may stand before b: descending severity, then check, then target. */
  predicate WorstFirst(a: Finding, b: Finding) {
    Severity(a.status) > Severity(b.status)
    || (Severity(a.status) == Severity(b.status)
        && (Below(a.check, b.check) || (a.check == b.check && AtMost(a.target, b.target))))
  }

  lemma WorstFirstTransitive(a: Finding, b: Finding, c: Finding)
    requires WorstFirst(a, b) && WorstFirst(b, c)
    ensures WorstFirst(a, c)
  {
    AtMostTotal(a.check, b.check);
    AtMostTotal(b.check, c.check);
    if AtMost(c.check, a.check) {
      if AtMost(a.check, b.check) {
        AtMostTransitive(c.check, a.check, b.check);
        if AtMost(b.check, c.check) {
          AtMostAntisymmetric(b.check, c.check);
        }
      }
      if AtMost(b.check, c.check) {
        AtMostTransitive(b.check, c.check, a.check);
      }
    }
    if AtMost(a.target, b.target) && AtMost(b.target, c.target) {
      AtMostTransitive(a.target, b.target, c.target);
    }
  }

  lemma WorstFirstOrder()
    ensures TotalPreorder(WorstFirst)
  {
    forall a: Finding, b: Finding
      ensures WorstFirst(a, b) || WorstFirst(b, a)
    {
      AtMostTotal(a.target, b.target);
      AtMostTotal(a.check, b.check);
      if AtMost(a.check, b.check) && AtMost(b.check, a.check) {
        AtMostAntisymmetric(a.check, b.check);
      }
    }
    forall a: Finding, b: Finding, c: Finding | WorstFirst(a, b) && WorstFirst(b, c)
      ensures WorstFirst(a, c)
    {
      WorstFirstTransitive(a, b, c);
    }
  }

  lemma TiedFindings(a: Finding, b: Finding)
    ensures Tied(WorstFirst, a, b)
       <==> Severity(a.status) == Severity(b.status) && a.check == b.check && a.target == b.target
  {
    AtMostReflexive(a.target);
    AtMostTotal(a.check, b.check);
    if a.check == b.check && AtMost(a.target, b.target) && AtMost(b.target, a.target) {
      AtMostAntisymmetric(a.target, b.target);
    }
  }

  function Sorted(fs: seq<Finding>): seq<Finding> {
    Sort(WorstFirst, fs)
  }

  method SortWorstFirst(fs: array<Finding>)
    modifies fs
    ensures fs[..] == Sorted(old(fs[..]))
  {
    WorstFirstOrder();
    SortInPlace(fs, WorstFirst);
  }

  ghost predicate DistinctRankCheckTarget(fs: seq<Finding>) {
    forall f, g | f in fs && g in fs && f.check == g.check && f.target == g.target ::
      Severity(f.status) == Severity(g.status) ==> f == g
  }

  /** Two audits that found the same things in any order render identically. */
  lemma WorstFirstIgnoresInputOrder(a: seq<Finding>, b: seq<Finding>)
    requires DistinctRankCheckTarget(a) && multiset(a) == multiset(b)
    ensures Sorted(a) == Sorted(b)
  {
    WorstFirstOrder();
    forall f, g | f in a && g in a && Tied(WorstFirst, f, g)
      ensures f == g
    {
      TiedFindings(f, g);
    }
    SortPermutationInvariant(WorstFirst, a, b);
  }

  /** The sort is ordered, keeps the findings, and keeps the input order inside a tie. */
  lemma {:induction false} WorstFirstStable(fs: seq<Finding>)
    ensures multiset(Sorted(fs)) == multiset(fs)
    ensures forall i, j :: 0 <= i < j < |Sorted(fs)| ==> WorstFirst(Sorted(fs)[i], Sorted(fs)[j])
    ensures forall f :: Class(WorstFirst, f, Sorted(fs)) == Class(WorstFirst, f, fs)
  {
    WorstFirstOrder();
    SortContents(WorstFirst, fs);
    SortIsStable(WorstFirst, fs);
  }

  /** No finding stands before a worse one; at one level they are in the order of their checks,
      and within a check in the order of their targets. */
  lemma SortedReads(fs: seq<Finding>, i: nat, j: nat)
    requires i < j < |Sorted(fs)|
    ensures var f, g := Sorted(fs)[i], Sorted(fs)[j];
            && NoWorse(g.status, f.status)
            && (NoWorse(f.status, g.status) ==>
                  AtMost(f.check, g.check) && (f.check == g.check ==> AtMost(f.target, g.target)))
  {
    WorstFirstStable(fs);
    AtMostTotal(Sorted(fs)[i].check, Sorted(fs)[j].check);
  }

  /** The status Worst carries after reading fs from left to right. */
  function WorstOf(fs: seq<Finding>): Status {
    if fs == [] then OK
    else
      var before := WorstOf(fs[..|fs| - 1]);
      if AtLeast(fs[|fs| - 1].status, before) then fs[|fs| - 1].status else before
  }

  method Worst(fs: seq<Finding>) returns (worst: Status)
    ensures worst == WorstOf(fs)
  {
    worst := OK;
    for i := 0 to |fs|
      invariant worst == WorstOf(fs[..i])
    {
      assert fs[..i + 1][..i] == fs[..i];
      if AtLeast(fs[i].status, worst) {
        worst := fs[i].status;
      }
    }
    assert fs[..|fs|] == fs;
  }

  lemma {:induction false} WorstIsMaximum(fs: seq<Finding>)
    ensures forall f :: f in fs ==> Severity(f.status) <= Severity(WorstOf(fs))
    ensures fs != [] ==> exists f :: f in fs && f.status == WorstOf(fs)
    ensures fs == [] ==> WorstOf(fs) == OK
  {
    if fs != [] {
      var init, last := fs[..|fs| - 1], fs[|fs| - 1];
      WorstIsMaximum(init);
      assert fs == init + [last];
      assert last in fs;
      if init == [] {
        assert WorstOf(fs) == last.status;
      } else {
        var f :| f in init && f.status == WorstOf(init);
        assert f in fs;
      }
    }
  }

  /** The first line of a sorted report carries the report's verdict. */
  lemma {:induction false} SortedHeadIsWorst(fs: seq<Finding>)
    requires fs != []
    ensures Sorted(fs) != [] && Severity(Sorted(fs)[0].status) == Severity(WorstOf(fs))
    ensures (forall f :: f in fs ==> ValidStatus(f.status)) ==> Sorted(fs)[0].status == WorstOf(fs)
  {
    WorstFirstStable(fs);
    SortContents(WorstFirst, fs);
    WorstIsMaximum(fs);
    var s := Sorted(fs);
    var w :| w in fs && w.status == WorstOf(fs);
    assert w in s && s[0] in s;
    var i :| 0 <= i < |s| && s[i] == w;
    assert i == 0 || WorstFirst(s[0], s[i]);
  }

  /** The `--min-severity` filter; an empty threshold filters nothing. */
  predicate Passes(min: Option<Status>, f: Finding) {
    min.None? || AtLeast(f.status, min.value)
  }

  function Filtered(min: Option<Status>, fs: seq<Finding>): seq<Finding> {
    Keep((f: Finding) => Passes(min, f), fs)
  }

  /** Filter after sorting (text) and sort after filtering (findings array) agree. */
  lemma FilterCommutesWithSort(min: Option<Status>, fs: seq<Finding>)
    ensures Filtered(min, Sorted(fs)) == Sorted(Filtered(min, fs))
  {
    WorstFirstOrder();
    SortKeepCommute(WorstFirst, (f: Finding) => Passes(min, f), fs);
  }

  /** The filter lets through what is at least as bad as the threshold, and everything without one. */
  lemma FilteredReads(min: Option<Status>, fs: seq<Finding>)
    ensures forall f :: f in Filtered(min, fs) <==> f in fs && (min.Some? ==> NoWorse(min.value, f.status))
    ensures min.None? ==> Filtered(min, fs) == fs
  {
    KeepAll((f: Finding) => Passes(min, f), fs);
  }

  lemma {:induction false} KeepAll(p: Finding -> bool, fs: seq<Finding>)
    ensures forall f :: f in Keep(p, fs) <==> f in fs && p(f)
    ensures (forall f :: p(f)) ==> Keep(p, fs) == fs
  {
    if fs != [] {
      KeepAll(p, fs[1..]);
      assert fs == [fs[0]] + fs[1..];
    }
  }
}
