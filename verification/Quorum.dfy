/** internal/audit, quorumSettings: the vote arithmetic over pc.weight. */
module Quorum {
  import opened Strings
  import opened Sorting
  import opened Findings
  import opened Cluster

  const CHECK := "quorum/weight"

  function WeightOf(s: Snapshot): Option<real> {
    if "pc.weight" in s.options then s.options["pc.weight"].number else None
  }

  /** Weight by node name; of two nodes under one name the later stays. */
  function Weights(live: seq<Snapshot>): map<string, real> {
    if live == [] then map[]
    else
      var before, s := Weights(live[..|live| - 1]), live[|live| - 1];
      if WeightOf(s).Some? then before[s.node := WeightOf(s).value] else before
  }

  function Total(live: seq<Snapshot>): real {
    if live == [] then 0.0
    else Total(live[..|live| - 1]) + if WeightOf(live[|live| - 1]).Some? then WeightOf(live[|live| - 1]).value else 0.0
  }

  function ZeroVotes(live: seq<Snapshot>): seq<Finding> {
    if live == [] then []
    else
      var before := ZeroVotes(live[..|live| - 1]);
      if WeightOf(live[|live| - 1]) == Some(0.0)
      then before + [Finding(CHECK, live[|live| - 1].node, BAD, Some(0.0))] else before
  }

  predicate AllEqual(m: map<string, real>) {
    forall a, b :: a in m && b in m ==> m[a] == m[b]
  }

  predicate Majority(m: map<string, real>, total: real, node: string) {
    node in m && m[node] * 2.0 > total
  }

  function Majorities(m: map<string, real>, total: real, names: seq<string>): seq<string> {
    if names == [] then []
    else
      var before := Majorities(m, total, names[..|names| - 1]);
      if Majority(m, total, names[|names| - 1]) then before + [names[|names| - 1]] else before
  }

  function Verdict(name: string, m: map<string, real>, total: real): seq<Finding> {
    if |m| <= 1 then []
    else if AllEqual(m) then
      (if exists a :: a in m && m[a] > 0.0 then [Finding(CHECK, name, OK, Some(total))] else [])
    else [Finding(CHECK, name, WARN, Some(total))]
  }

  /** Compares every weight with the first one the map hands out, whichever that is. */
  method EqualWeights(m: map<string, real>) returns (equal: bool, first: real)
    requires m != map[]
    ensures equal <==> AllEqual(m)
    ensures exists a :: a in m && m[a] == first
  {
    equal, first := true, 0.0;
    var left := m.Keys;
    var i := 0;
    while left != {}
      invariant left <= m.Keys
      invariant i == 0 <==> left == m.Keys
      invariant i > 0 ==> exists a :: a in m && m[a] == first
      invariant i > 0 ==> (equal <==> forall a :: a in m && a !in left ==> m[a] == first)
      invariant i >= 0 && (i == 0 ==> equal)
    {
      var n :| n in left;
      var w := m[n];
      if i == 0 {
        first := w;
      } else if w != first {
        equal := false;
      }
      assert forall a :: a in m && a !in left - {n} <==> a in m && (a !in left || a == n);
      left := left - {n};
      i := i + 1;
    }
  }

  method Weigh(live: seq<Snapshot>) returns (weights: map<string, real>, total: real, zero: seq<Finding>)
    ensures weights == Weights(live) && total == Total(live) && zero == ZeroVotes(live)
  {
    weights, total, zero := map[], 0.0, [];
    for i := 0 to |live|
      invariant weights == Weights(live[..i]) && total == Total(live[..i]) && zero == ZeroVotes(live[..i])
    {
      assert live[..i + 1][..i] == live[..i];
      var v := WeightOf(live[i]);
      if v.None? {
        continue;
      }
      var w := v.value;
      weights := weights[live[i].node := w];
      total := total + w;
      if w == 0.0 {
        zero := zero + [Finding(CHECK, live[i].node, BAD, Some(0.0))];
      }
    }
    assert live[..|live|] == live;
  }

  /** The nodes that are searched for and found to hold a majority alone. */
  ghost function Named(live: seq<Snapshot>): seq<string> {
    var m := Weights(live);
    if |m| <= 1 || AllEqual(m) then [] else Majorities(m, Total(live), Listing(m.Keys))
  }

  /** `majority` are the nodes the report says hold a majority alone. */
  method Check(name: string, live: seq<Snapshot>) returns (out: seq<Finding>, majority: seq<string>)
    ensures out == ZeroVotes(live) + Verdict(name, Weights(live), Total(live))
    ensures majority == Named(live)
  {
    var weights, total;
    weights, total, out := Weigh(live);
    majority := [];
    if |weights| > 1 {
      var equal, first := EqualWeights(weights);
      if equal && first > 0.0 {
        out := out + [Finding(CHECK, name, OK, Some(total))];
      } else if !equal {
        var nodes := SortedKeys(weights.Keys);
        majority := SearchMajority(weights, total, nodes);
        out := out + [Finding(CHECK, name, WARN, Some(total))];
      }
    }
  }

  method SearchMajority(weights: map<string, real>, total: real, nodes: seq<string>) returns (majority: seq<string>)
    requires forall n :: n in nodes ==> n in weights
    ensures majority == Majorities(weights, total, nodes)
  {
    majority := [];
    for i := 0 to |nodes|
      invariant majority == Majorities(weights, total, nodes[..i])
    {
      assert nodes[..i + 1][..i] == nodes[..i];
      if weights[nodes[i]] * 2.0 > total {
        majority := majority + [nodes[i]];
      }
    }
    assert nodes[..|nodes|] == nodes;
  }

  // ----- the arithmetic

  ghost function Sum(m: map<string, real>): real {
    if m == map[] then 0.0 else var k :| k in m; m[k] + Sum(m - {k})
  }

  lemma {:induction false} SumAt(m: map<string, real>, k: string)
    requires k in m
    ensures Sum(m) == m[k] + Sum(m - {k})
    decreases m.Keys
  {
    var j :| j in m && Sum(m) == m[j] + Sum(m - {j});
    if j != k {
      SumAt(m - {j}, k);
      SumAt(m - {k}, j);
      assert m - {j} - {k} == m - {k} - {j};
    }
  }

  ghost predicate NonNegative(m: map<string, real>) {
    forall k :: k in m ==> m[k] >= 0.0
  }

  lemma {:induction false} SumNonNegative(m: map<string, real>)
    requires NonNegative(m)
    ensures Sum(m) >= 0.0
    decreases m.Keys
  {
    if m != map[] {
      var k :| k in m;
      SumAt(m, k);
      SumNonNegative(m - {k});
    }
  }

  ghost predicate UniqueNodes(live: seq<Snapshot>) {
    forall i, j :: 0 <= i < j < |live| ==> live[i].node != live[j].node
  }

  /** With unique node names the total is the sum of the weights that are compared with it. */
  lemma {:induction false} TotalIsSum(live: seq<Snapshot>)
    requires UniqueNodes(live)
    ensures Total(live) == Sum(Weights(live))
  {
    if live != [] {
      var init, last := live[..|live| - 1], live[|live| - 1];
      assert live == init + [last];
      TotalIsSum(init);
      WeightsNamed(init);
      assert forall i :: 0 <= i < |init| ==> init[i].node == live[i].node && live[i].node != last.node;
      if WeightOf(last).Some? {
        SumAt(Weights(live), last.node);
        assert Weights(live) - {last.node} == Weights(init);
      }
    }
  }

  lemma {:induction false} WeightsNamed(live: seq<Snapshot>)
    ensures forall n :: n in Weights(live) ==> exists i :: 0 <= i < |live| && live[i].node == n
  {
    if live != [] {
      var init, last := live[..|live| - 1], live[|live| - 1];
      WeightsNamed(init);
      forall n | n in Weights(live)
        ensures exists i :: 0 <= i < |live| && live[i].node == n
      {
        if n in Weights(init) {
          var i :| 0 <= i < |init| && init[i].node == n;
          assert live[i].node == n;
        } else {
          assert live[|live| - 1].node == n;
        }
      }
    }
  }

  /** Once one node holds a majority, everything else together does not. */
  lemma {:induction false} NoCoalitionWithout(m: map<string, real>, a: string, coalition: set<string>)
    requires NonNegative(m) && Majority(m, Sum(m), a)
    requires coalition <= m.Keys && a !in coalition
    ensures Sum(m - (m.Keys - coalition)) * 2.0 < Sum(m)
  {
    SumAt(m, a);
    var others, part := m - {a}, m - (m.Keys - coalition);
    PartOfSum(others, coalition);
    assert others - (others.Keys - coalition) == part;
  }

  lemma {:induction false} PartOfSum(m: map<string, real>, part: set<string>)
    requires NonNegative(m) && part <= m.Keys
    ensures Sum(m - (m.Keys - part)) <= Sum(m)
    decreases m.Keys - part
  {
    if m.Keys - part == {} {
      assert m - (m.Keys - part) == m;
    } else {
      var k :| k in m.Keys - part;
      PartOfSum(m, part + {k});
      var more := m - (m.Keys - (part + {k}));
      SumAt(more, k);
      assert more - {k} == m - (m.Keys - part);
    }
  }

  lemma {:induction false} PairInSum(m: map<string, real>, a: string, b: string)
    requires NonNegative(m) && a in m && b in m && a != b
    ensures m[a] + m[b] <= Sum(m)
  {
    SumAt(m, a);
    SumAt(m - {a}, b);
    SumNonNegative(m - {a} - {b});
  }

  /** At most one node holds a majority. */
  lemma {:induction false} OneMajorityAtMost(m: map<string, real>, a: string, b: string)
    requires NonNegative(m) && Majority(m, Sum(m), a) && Majority(m, Sum(m), b)
    ensures a == b
  {
    if a != b {
      PairInSum(m, a, b);
      assert false;
    }
  }

  /** All other weights together are negative, and by more than these two differ. */
  ghost predicate Undercut(m: map<string, real>, a: string, b: string) {
    a in m && b in m && a != b
    && var others := Sum(m - {a} - {b}); others < m[a] - m[b] && others < m[b] - m[a]
  }

  /** With any weights: exactly then two nodes hold a majority each. */
  lemma {:induction false} TwoMajoritiesIff(m: map<string, real>, a: string, b: string)
    requires a != b
    ensures Majority(m, Sum(m), a) && Majority(m, Sum(m), b) <==> Undercut(m, a, b)
  {
    if a in m && b in m {
      SumAt(m, a);
      SumAt(m - {a}, b);
    }
  }

  ghost predicate NoneUndercut(m: map<string, real>) {
    forall a, b :: !Undercut(m, a, b)
  }

  ghost predicate TwoOf(named: seq<string>, a: string, b: string) {
    a in named && b in named && a != b
  }

  /** The search names at most one node exactly when no pair is undercut by the rest. */
  lemma {:induction false} NamedAtMostOnceIff(m: map<string, real>)
    ensures |Majorities(m, Sum(m), Listing(m.Keys))| <= 1 <==> NoneUndercut(m)
  {
    var named := Majorities(m, Sum(m), Listing(m.Keys));
    ListingDistinct(m.Keys);
    MajoritiesFound(m, Sum(m), Listing(m.Keys));
    forall a, b
      ensures Undercut(m, a, b) <==> TwoOf(named, a, b)
    {
      if a != b {
        TwoMajoritiesIff(m, a, b);
      }
    }
    FewIff(named);
  }

  lemma FewIff(named: seq<string>)
    requires forall i, j :: 0 <= i < j < |named| ==> named[i] != named[j]
    ensures |named| <= 1 <==> forall a, b :: !TwoOf(named, a, b)
  {
    if |named| > 1 {
      assert TwoOf(named, named[0], named[1]);
    }
  }

  /** With no negative weight it always does. */
  lemma {:induction false} NamedAtMostOnce(m: map<string, real>)
    requires NonNegative(m)
    ensures |Majorities(m, Sum(m), Listing(m.Keys))| <= 1
  {
    forall a, b
      ensures !Undercut(m, a, b)
    {
      SumNonNegative(m - {a} - {b});
    }
    NamedAtMostOnceIff(m);
  }

  lemma {:induction false} MajoritiesFound(m: map<string, real>, total: real, names: seq<string>)
    requires forall i, j :: 0 <= i < j < |names| ==> names[i] != names[j]
    ensures var r := Majorities(m, total, names);
            && (forall n :: n in r <==> n in names && Majority(m, total, n))
            && (forall i, j :: 0 <= i < j < |r| ==> r[i] != r[j])
  {
    if names != [] {
      var init, last := names[..|names| - 1], names[|names| - 1];
      assert names == init + [last];
      MajoritiesFound(m, total, init);
      assert last !in init;
    }
  }

  /** The report names at most one node exactly when the weights are not compared, are all
      equal, or no two nodes are undercut by the rest. */
  lemma {:induction false} ReportNamesAtMostOneIff(live: seq<Snapshot>)
    requires UniqueNodes(live)
    ensures var m := Weights(live);
            |Named(live)| <= 1 <==> |m| <= 1 || AllEqual(m) || NoneUndercut(m)
  {
    TotalIsSum(live);
    NamedAtMostOnceIff(Weights(live));
  }

  /** Skipping the search when all weights are equal and positive loses nothing. */
  lemma {:induction false} EqualWeightsHaveNoMajority(m: map<string, real>, a: string)
    requires |m| > 1 && AllEqual(m) && a in m && m[a] > 0.0
    ensures !Majority(m, Sum(m), a)
  {
    var b := Another(m.Keys, a);
    SumAt(m, a);
    SumAt(m - {a}, b);
    SumNonNegative(m - {a} - {b});
  }

  lemma Another(s: set<string>, a: string) returns (b: string)
    requires |s| > 1 && a in s
    ensures b in s && b != a
  {
    var rest := s - {a};
    assert |rest| == |s| - 1;
    assert rest != {};
    b :| b in rest;
  }

  function Voter(node: string, text: string, weight: real): Snapshot {
    Snapshot(node, 0, "", map[], map[], map["pc.weight" := Cell(text, Some(weight))], [], map[], None)
  }

  function Undercutting(): seq<Snapshot> {
    [Voter("a", "1", 1.0), Voter("b", "1", 1.0), Voter("c", "-1", -1.0)]
  }

  lemma UndercuttingWeights()
    ensures Weights(Undercutting()) == map["a" := 1.0, "b" := 1.0, "c" := -1.0]
    ensures UniqueNodes(Undercutting())
  {
    var live := Undercutting();
    assert live[..2][..1] == live[..1] && live[..1][..0] == [];
    assert Weights(live[..1]) == map["a" := 1.0];
    assert Weights(live[..2]) == map["a" := 1.0, "b" := 1.0];
  }

  /** Three nodes with weights 1, 1 and -1: the report names two majorities. */
  lemma NegativeWeightBreaksIt()
    ensures |Named(Undercutting())| > 1
  {
    var m := map["a" := 1.0, "b" := 1.0, "c" := -1.0];
    UndercuttingWeights();
    SumAt(m - {"a"} - {"b"}, "c");
    assert m - {"a"} - {"b"} - {"c"} == map[];
    assert Undercut(m, "a", "b");
    assert m["a"] != m["c"] && m.Keys == {"a", "b", "c"};
    ReportNamesAtMostOneIff(Undercutting());
  }

  // ----- what the weights and the verdict are

  /** With unique names: a node has a weight exactly when its provider options hold a number. */
  lemma {:induction false} WeightsAre(live: seq<Snapshot>, s: Snapshot)
    requires UniqueNodes(live) && s in live
    ensures s.node in Weights(live) <==> "pc.weight" in s.options && s.options["pc.weight"].number.Some?
    ensures s.node in Weights(live) ==> s.options["pc.weight"].number == Some(Weights(live)[s.node])
  {
    var init, last := live[..|live| - 1], live[|live| - 1];
    InitLast(live);
    if s in init {
      UniqueInit(live, s);
      WeightsAre(init, s);
    } else {
      NotNamed(live);
    }
  }

  lemma UniqueInit(live: seq<Snapshot>, s: Snapshot)
    requires live != [] && UniqueNodes(live) && s in live[..|live| - 1]
    ensures UniqueNodes(live[..|live| - 1]) && s.node != live[|live| - 1].node
  {
    var i :| 0 <= i < |live| - 1 && live[i] == s;
  }

  lemma NotNamed(live: seq<Snapshot>)
    requires live != [] && UniqueNodes(live)
    ensures live[|live| - 1].node !in Weights(live[..|live| - 1])
  {
    var init := live[..|live| - 1];
    WeightsNamed(init);
    assert forall i :: 0 <= i < |init| ==> init[i].node == live[i].node && live[i].node != live[|live| - 1].node;
  }

  /** A node with weight zero is BAD, and nothing else is said of single nodes. */
  lemma {:induction false} ZeroVotesAre(live: seq<Snapshot>, f: Finding)
    ensures f in ZeroVotes(live) <==>
            exists s :: s in live && "pc.weight" in s.options && s.options["pc.weight"].number == Some(0.0)
                        && f == Finding("quorum/weight", s.node, BAD, Some(0.0))
  {
    if live != [] {
      var init, last := live[..|live| - 1], live[|live| - 1];
      InitLast(live);
      ZeroVotesAre(init, f);
      assert forall s :: s in live <==> s in init || s == last;
    }
  }

  /** OK for equal positive weights, WARN for unequal ones, nothing for fewer than two or for equal
      weights that are not positive. */
  lemma VerdictSays(name: string, m: map<string, real>, total: real)
    ensures Verdict(name, m, total) == [Finding("quorum/weight", name, OK, Some(total))]
       <==> |m| > 1 && (forall a :: a in m ==> m[a] > 0.0) && forall a, b :: a in m && b in m ==> m[a] == m[b]
    ensures Verdict(name, m, total) == [Finding("quorum/weight", name, WARN, Some(total))]
       <==> exists a, b :: a in m && b in m && m[a] != m[b]
    ensures |Verdict(name, m, total)| <= 1
    ensures Verdict(name, m, total) != [] ==> |m| > 1 && Verdict(name, m, total)[0].status in {OK, WARN}
  {
    if |m| > 0 {
      var k :| k in m;
      if |m| == 1 {
        assert |m.Keys - {k}| == 0;
        assert forall a :: a in m ==> a == k;
      }
      if AllEqual(m) {
        assert forall a :: a in m ==> m[a] == m[k];
      }
    }
  }
}
