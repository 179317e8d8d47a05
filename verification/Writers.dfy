/** internal/audit, writers: who originated the writesets of the interval. */
module Writers {
  import opened Sorting
  import opened Findings
  import opened Cluster
  import opened State
  import opened Rates

  const CHECK := "repl/writers"
  const REPLICATED := "wsrep_replicated"
  const MIN_SHARE := 0.02

  datatype Share = Share(node: string, count: real)

  /** What one node contributes, and whether it was measured over the interval. */
  function ShareOf(s: Snapshot, prev: Option<Baseline>, now: Baseline): (Option<Share>, bool) {
    if s.node !in now.nodes then (None, true)
    else
      var d := Since(prev, s.node, REPLICATED, now.nodes[s.node]);
      if d.Some? then (Some(Share(s.node, d.value.value)), true)
      else (if s.Float(REPLICATED).Some? then Some(Share(s.node, s.Float(REPLICATED).value)) else None, false)
  }

  function Shares(live: seq<Snapshot>, prev: Option<Baseline>, now: Baseline): seq<Share> {
    if live == [] then []
    else
      var s := ShareOf(live[|live| - 1], prev, now).0;
      var before := Shares(live[..|live| - 1], prev, now);
      if s.Some? then before + [s.value] else before
  }

  function Graded(live: seq<Snapshot>, prev: Option<Baseline>, now: Baseline): bool {
    live == [] || (Graded(live[..|live| - 1], prev, now) && ShareOf(live[|live| - 1], prev, now).1)
  }

  function Sum(shares: seq<Share>): real {
    if shares == [] then 0.0 else Sum(shares[..|shares| - 1]) + shares[|shares| - 1].count
  }

  predicate MoreFirst(a: Share, b: Share) {
    a.count >= b.count
  }

  lemma MoreFirstOrder()
    ensures TotalPreorder(MoreFirst)
  {
  }

  predicate Writes(s: Share, total: real)
    requires total != 0.0
  {
    s.count / total >= MIN_SHARE
  }

  function Writing(shares: seq<Share>, total: real): seq<Share>
    requires total != 0.0
  {
    if shares == [] then []
    else
      var before := Writing(shares[..|shares| - 1], total);
      if Writes(shares[|shares| - 1], total) then before + [shares[|shares| - 1]] else before
  }

  function Verdict(name: string, sorted: seq<Share>, total: real, graded: bool): seq<Finding> {
    if sorted == [] then []
    else if !graded then [Finding(CHECK, name, OK, None)]
    else if total == 0.0 then [Finding(CHECK, name, OK, Some(0.0))]
    else if |Writing(sorted, total)| < 2 then [Finding(CHECK, name, OK, Some(total))]
    else [Finding(CHECK, name, WARN, Some(|Writing(sorted, total)| as real))]
  }

  /** The loop body: the movement over the interval, else the lifetime total, ungraded. */
  method Measure(s: Snapshot, prev: Option<Baseline>, now: Baseline) returns (share: Option<Share>, graded: bool)
    ensures (share, graded) == ShareOf(s, prev, now)
  {
    if s.node !in now.nodes {
      return None, true;
    }
    var d := Since(prev, s.node, REPLICATED, now.nodes[s.node]);
    if d.Some? {
      return Some(Share(s.node, d.value.value)), true;
    }
    var v := s.Float(REPLICATED);
    if v.Some? {
      return Some(Share(s.node, v.value)), false;
    }
    return None, false;
  }

  method Collect(live: seq<Snapshot>, prev: Option<Baseline>, now: Baseline)
      returns (shares: seq<Share>, total: real, graded: bool)
    ensures shares == Shares(live, prev, now) && graded == Graded(live, prev, now)
    ensures total == Sum(shares)
  {
    shares, total, graded := [], 0.0, true;
    for i := 0 to |live|
      invariant shares == Shares(live[..i], prev, now) && graded == Graded(live[..i], prev, now)
      invariant total == Sum(shares)
    {
      assert live[..i + 1][..i] == live[..i];
      var share, measured := Measure(live[i], prev, now);
      graded := graded && measured;
      if share.Some? {
        assert (shares + [share.value])[..|shares|] == shares;
        shares := shares + [share.value];
        total := total + share.value.count;
      }
    }
    assert live[..|live|] == live;
  }

  method CountWriting(a: array<Share>, total: real) returns (writing: nat)
    requires total != 0.0
    ensures writing == |Writing(a[..], total)|
  {
    writing := 0;
    for i := 0 to a.Length
      invariant writing == |Writing(a[..i], total)|
    {
      assert a[..i + 1][..i] == a[..i];
      if a[i].count / total < MIN_SHARE {
        continue;
      }
      writing := writing + 1;
    }
    assert a[..a.Length] == a[..];
  }

  /** `named` is the node the report says writes arrive on, the first share after sorting. */
  method Check(name: string, live: seq<Snapshot>, prev: Option<Baseline>, now: Baseline)
      returns (out: seq<Finding>, named: Option<string>)
    ensures var sorted := Sort(MoreFirst, Shares(live, prev, now));
            && out == Verdict(name, sorted, Sum(Shares(live, prev, now)), Graded(live, prev, now))
            && (named.Some? <==> sorted != [])
            && (sorted != [] ==> named.value == sorted[0].node)
  {
    var shares, total, graded := Collect(live, prev, now);
    SortContents(MoreFirst, shares);
    if |shares| == 0 {
      return [], None;
    }
    MoreFirstOrder();
    var a := new Share[|shares|](i requires 0 <= i < |shares| => shares[i]);
    assert a[..] == shares;
    SortInPlace(a, MoreFirst);
    named := Some(a[0].node);
    if !graded {
      return [Finding(CHECK, name, OK, None)], named;
    }
    if total == 0.0 {
      return [Finding(CHECK, name, OK, Some(0.0))], named;
    }
    var writing := CountWriting(a, total);
    if writing < 2 {
      return [Finding(CHECK, name, OK, Some(total))], named;
    }
    return [Finding(CHECK, name, WARN, Some(writing as real))], named;
  }

  /** The verdict is graded exactly when every node measured now has a usable baseline. */
  lemma {:induction false} GradedIff(live: seq<Snapshot>, prev: Option<Baseline>, now: Baseline)
    ensures Graded(live, prev, now)
       <==> forall s :: s in live && s.node in now.nodes ==> Since(prev, s.node, REPLICATED, now.nodes[s.node]).Some?
  {
    if live != [] {
      InitLast(live);
      GradedIff(live[..|live| - 1], prev, now);
      assert forall s :: s in live <==> s in live[..|live| - 1] || s == live[|live| - 1];
    }
  }

  // ----- the arithmetic

  ghost predicate NonNegative(shares: seq<Share>) {
    forall s :: s in shares ==> s.count >= 0.0
  }

  /** Graded counts are movements, and a movement is never negative. */
  lemma {:induction false} GradedNonNegative(live: seq<Snapshot>, prev: Option<Baseline>, now: Baseline)
    requires Graded(live, prev, now)
    ensures NonNegative(Shares(live, prev, now))
  {
    if live != [] {
      GradedNonNegative(live[..|live| - 1], prev, now);
    }
  }

  lemma {:induction false} SumAround(l: seq<Share>, x: Share, r: seq<Share>)
    ensures Sum(Around(l, x, r)) == Sum(l + r) + x.count
  {
    SumAppend(l + [x], r);
    SumAppend(l, [x]);
    SumAppend(l, r);
    SumOne(x);
  }

  lemma {:induction false} SumOfSorted(a: seq<Share>, b: seq<Share>)
    requires multiset(a) == multiset(b)
    ensures Sum(a) == Sum(b)
  {
    var f, add := (s: seq<Share>) => Sum(s), (t: real, x: Share) => t + x.count;
    forall l, x, r
      ensures f(Around(l, x, r)) == add(f(l + r), x)
    {
      SumAround(l, x, r);
    }
    OrderIrrelevant(f, add, a, b);
  }

  lemma SumOne(s: Share)
    ensures Sum([s]) == s.count
  {
    assert [s][..0] == [];
    assert Sum([]) == 0.0;
  }

  lemma {:induction false} SumAppend(a: seq<Share>, b: seq<Share>)
    ensures Sum(a + b) == Sum(a) + Sum(b)
    decreases |b|
  {
    if b == [] {
      assert a + b == a;
    } else {
      assert (a + b)[..|a + b| - 1] == a + b[..|b| - 1];
      SumAppend(a, b[..|b| - 1]);
    }
  }

  /** What k nodes at the cut would have originated together. */
  function Cap(k: nat, total: real): real {
    k as real * (MIN_SHARE * total)
  }

  /** The total less two percent of it for each of k nodes. */
  function AllBut(k: nat, total: real): real {
    (1.0 - MIN_SHARE * k as real) * total
  }

  /** Everybody below the cut together stays below that many times the cut. */
  lemma {:induction false} SumBelow(shares: seq<Share>, n: nat, total: real)
    requires |shares| == n && total > 0.0 && forall s :: s in shares ==> !Writes(s, total)
    ensures Sum(shares) <= Cap(n, total)
    ensures n > 0 ==> Sum(shares) < Cap(n, total)
  {
    if n > 0 {
      var init, last := shares[..n - 1], shares[n - 1];
      SumBelow(init, n - 1, total);
      assert last in shares;
      BelowCut(last, total);
      assert n as real == (n - 1) as real + 1.0;
    }
  }

  lemma BelowCut(s: Share, total: real)
    requires total > 0.0
    ensures Writes(s, total) <==> s.count >= MIN_SHARE * total
  {
    assert s.count == (s.count / total) * total;
  }

  lemma {:induction false} NobodyWriting(shares: seq<Share>, total: real)
    requires total != 0.0
    ensures Writing(shares, total) == [] <==> forall s :: s in shares ==> !Writes(s, total)
  {
    if shares != [] {
      var init, last := shares[..|shares| - 1], shares[|shares| - 1];
      assert shares == init + [last];
      NobodyWriting(init, total);
    }
  }

  lemma {:induction false} TwoWriting(shares: seq<Share>, total: real, i: nat, j: nat)
    requires total != 0.0 && i <= j < |shares| && Writes(shares[i], total) && Writes(shares[j], total)
    ensures |Writing(shares, total)| >= if i < j then 2 else 1
  {
    var init := shares[..|shares| - 1];
    if j < |shares| - 1 {
      TwoWriting(init, total, i, j);
    } else if i < j {
      TwoWriting(init, total, i, i);
    }
  }

  /** A single writer is the first of the sorted shares: everybody after it is below the cut. */
  lemma {:induction false} OthersBelow(sorted: seq<Share>, total: real)
    requires total > 0.0 && SortedBy(MoreFirst, sorted) && |Writing(sorted, total)| < 2
    ensures sorted != [] ==> forall s :: s in sorted[1..] ==> !Writes(s, total)
  {
    forall j | 0 < j < |sorted|
      ensures !Writes(sorted[j], total)
    {
      assert MoreFirst(sorted[0], sorted[j]);
      BelowCut(sorted[0], total);
      BelowCut(sorted[j], total);
      if Writes(sorted[j], total) {
        TwoWriting(sorted, total, 0, j);
        assert false;
      }
    }
  }

  /** With up to fifty nodes and any writes at all, somebody passes the cut ... */
  lemma {:induction false} SomebodyWrites(shares: seq<Share>)
    requires 0 < |shares| <= 50 && Sum(shares) > 0.0
    ensures Writing(shares, Sum(shares)) != []
  {
    var total := Sum(shares);
    NobodyWriting(shares, total);
    if Writing(shares, total) == [] {
      SumBelow(shares, |shares|, total);
      FiftyCuts(|shares|, total);
      assert false;
    }
  }

  /** ... and fifty is the exact limit. */
  lemma SomebodyWritesIff(n: nat)
    requires n > 0
    ensures (forall shares: seq<Share> | |shares| == n && NonNegative(shares) && Sum(shares) > 0.0 ::
               Writing(shares, Sum(shares)) != [])
       <==> n <= 50
  {
    if n <= 50 {
      forall shares: seq<Share> | |shares| == n && NonNegative(shares) && Sum(shares) > 0.0
        ensures Writing(shares, Sum(shares)) != []
      {
        SomebodyWrites(shares);
      }
    } else {
      EvenShares(n);
      EvenNobody(n);
    }
  }

  lemma {:induction false} EvenNobody(n: nat)
    requires n > 50
    ensures Writing(Even(n), n as real) == []
  {
    EvenShares(n);
    NobodyWriting(Even(n), n as real);
    forall s | s in Even(n)
      ensures !Writes(s, n as real)
    {
      BelowCut(s, n as real);
    }
  }

  lemma FiftyCuts(n: nat, total: real)
    requires n <= 50 && total > 0.0
    ensures Cap(n, total) <= total
  {
    var cut := MIN_SHARE * total;
    assert n as real * cut <= 50.0 * cut;
    assert 50.0 * cut == total;
  }

  /** n nodes that originated one writeset each. */
  function Even(n: nat): seq<Share> {
    if n == 0 then [] else Even(n - 1) + [Share("", 1.0)]
  }

  lemma {:induction false} EvenShares(n: nat)
    ensures |Even(n)| == n && Sum(Even(n)) == n as real && forall s :: s in Even(n) ==> s.count == 1.0
  {
    if n > 0 {
      EvenShares(n - 1);
      assert Even(n)[..n - 1] == Even(n - 1);
    }
  }

  /** A graded single-writer verdict on n nodes: the node it names originated all but at most
      two percent per other node of the writesets. */
  lemma {:induction false} SingleWriterShare(name: string, live: seq<Snapshot>, prev: Option<Baseline>, now: Baseline)
    requires var shares := Shares(live, prev, now);
             && Graded(live, prev, now) && Sum(shares) > 0.0
             && Verdict(name, Sort(MoreFirst, shares), Sum(shares), true)
                == [Finding(CHECK, name, OK, Some(Sum(shares)))]
    ensures var shares := Shares(live, prev, now);
            && Sort(MoreFirst, shares) != []
            && Sort(MoreFirst, shares)[0].count >= AllBut(|shares| - 1, Sum(shares))
  {
    var shares := Shares(live, prev, now);
    var sorted, total := Sort(MoreFirst, shares), Sum(shares);
    MoreFirstOrder();
    SortIsStable(MoreFirst, shares);
    SortContents(MoreFirst, shares);
    SumOfSorted(sorted, shares);
    OthersBelow(sorted, total);
    SplitHead(sorted, total);
  }

  lemma {:induction false} SplitHead(sorted: seq<Share>, total: real)
    requires sorted != [] && total == Sum(sorted) > 0.0
    requires forall s :: s in sorted[1..] ==> !Writes(s, total)
    ensures sorted[0].count >= AllBut(|sorted| - 1, total)
  {
    var rest := sorted[1..];
    SumBelow(rest, |sorted| - 1, total);
    HeadAndRest(sorted);
    RestCut(sorted[0].count, Sum(rest), |sorted| - 1, total);
  }

  lemma {:induction false} HeadAndRest(sorted: seq<Share>)
    requires sorted != []
    ensures Sum(sorted) == sorted[0].count + Sum(sorted[1..])
  {
    assert sorted == [sorted[0]] + sorted[1..];
    SumAppend([sorted[0]], sorted[1..]);
    SumOne(sorted[0]);
  }

  lemma RestCut(head: real, rest: real, k: nat, total: real)
    requires head + rest == total && rest <= Cap(k, total)
    ensures head >= AllBut(k, total)
  {
    assert (1.0 - MIN_SHARE * k as real) * total == total - k as real * (MIN_SHARE * total);
  }

  // ----- what the shares and the verdict are

  /** A share per node measured now: the movement where there is a baseline, or else the total it
      reports, if it reports one. */
  lemma {:induction false} SharesAre(live: seq<Snapshot>, prev: Option<Baseline>, now: Baseline, share: Share)
    ensures share in Shares(live, prev, now) <==> exists s :: s in live && ShareFrom(share, s, prev, now)
  {
    if live != [] {
      var init, last := live[..|live| - 1], live[|live| - 1];
      InitLast(live);
      SharesAre(init, prev, now, share);
      LastShare(init, last, prev, now, share);
      assert forall s :: s in live <==> s in init || s == last;
    }
  }

  lemma {:induction false} LastShare(init: seq<Snapshot>, last: Snapshot, prev: Option<Baseline>, now: Baseline,
                                     share: Share)
    ensures share in Shares(init + [last], prev, now)
       <==> share in Shares(init, prev, now) || ShareFrom(share, last, prev, now)
  {
    assert (init + [last])[..|init|] == init;
  }

  ghost predicate ShareFrom(share: Share, s: Snapshot, prev: Option<Baseline>, now: Baseline) {
    && share.node == s.node && s.node in now.nodes
    && var d := Since(prev, s.node, "wsrep_replicated", now.nodes[s.node]);
       if d.Some? then share.count == d.value.value
       else "wsrep_replicated" in s.status && s.status["wsrep_replicated"].number == Some(share.count)
  }

  /** Who counts as a writer: a share of at least two in a hundred. */
  lemma {:induction false} WritersAre(shares: seq<Share>, total: real)
    requires total != 0.0
    ensures Writing(shares, total) == Keep((s: Share) => s.count / total >= 0.02, shares)
  {
    var p := (s: Share) => s.count / total >= 0.02;
    if shares != [] {
      var init, last := shares[..|shares| - 1], shares[|shares| - 1];
      InitLast(shares);
      WritersAre(init, total);
      KeepAppend(p, init, [last]);
      assert [last][1..] == [];
      assert Keep(p, [last]) == if p(last) then [last] else [];
    }
  }

  /** OK without a grade, for no writes and for one writer; WARN with the number of writers for
      more; nothing when nobody was measured. */
  lemma {:induction false} VerdictSays(name: string, sorted: seq<Share>, total: real, graded: bool)
    ensures sorted == [] ==> Verdict(name, sorted, total, graded) == []
    ensures sorted != [] && !graded ==>
              Verdict(name, sorted, total, graded) == [Finding("repl/writers", name, OK, None)]
    ensures sorted != [] && graded && total == 0.0 ==>
              Verdict(name, sorted, total, graded) == [Finding("repl/writers", name, OK, Some(0.0))]
    ensures sorted != [] && graded && total != 0.0 && |Writing(sorted, total)| <= 1 ==>
              Verdict(name, sorted, total, graded) == [Finding("repl/writers", name, OK, Some(total))]
    ensures sorted != [] && graded && total != 0.0 && |Writing(sorted, total)| > 1 ==>
              Verdict(name, sorted, total, graded)
              == [Finding("repl/writers", name, WARN, Some(|Writing(sorted, total)| as real))]
  {
  }

  /** The node named has the largest share. */
  lemma {:induction false} NamedHasMost(shares: seq<Share>, s: Share)
    requires s in shares
    ensures Sort(MoreFirst, shares) != [] && s.count <= Sort(MoreFirst, shares)[0].count
  {
    MoreFirstOrder();
    SortContents(MoreFirst, shares);
    SortIsStable(MoreFirst, shares);
    var sorted := Sort(MoreFirst, shares);
    assert s in sorted;
    var i :| 0 <= i < |sorted| && sorted[i] == s;
    assert i > 0 ==> MoreFirst(sorted[0], sorted[i]);
  }
}
