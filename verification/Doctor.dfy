/** cmd/galera-doctor: the run that audits every cluster against its own baseline, and the
    watch loop that repeats it. */
module Doctor {
  import opened Strings
  import opened Sorting
  import opened Findings
  import opened Cluster
  import opened State
  import opened Changes
  import opened Watch
  import opened Replay
  import opened TwoEngines
  import opened Render

  /** What one pass collects for one cluster: its snapshots, and the proxy's findings when a
      proxy was asked. */
  datatype Collected = Collected(snaps: seq<Snapshot>, proxy: Option<seq<Finding>>)

  datatype Tick = Tick(now: int, clusters: map<string, Collected>)

  /** All the checks between reading the nodes and summing up: a function of the cluster
      name, the snapshots, the baseline and the time. */
  type Checks = (string, seq<Snapshot>, Option<Baseline>, int) -> seq<Finding>

  // ----- one audit

  function ClusterName(name: string): string {
    if name == "" then "cluster" else name
  }

  /** The findings before sorting: the checks' own, then the transition summary. */
  ghost function Found(checks: Checks, name: string, snaps: seq<Snapshot>, prev: Option<Baseline>, now: int)
      : seq<Finding> {
    var raw := checks(ClusterName(name), snaps, prev, now);
    raw + Summary(ClusterName(name), raw, prev)
  }

  ghost function Audited(checks: Checks, name: string, snaps: seq<Snapshot>, prev: Option<Baseline>, now: int): Report {
    var all := Found(checks, name, snaps, prev, now);
    Report(ClusterName(name), Names(snaps), Sorted(all), Baseline(VERSION, now, NodesOf(snaps, now), Carried(all)))
  }

  method Audit(checks: Checks, name: string, snaps: seq<Snapshot>, prev: Option<Baseline>, now: int)
      returns (rep: Report)
    ensures rep == Audited(checks, name, snaps, prev, now)
  {
    var cluster := if name == "" then "cluster" else name;
    var state := new Store.FromSnapshots(snaps, now);
    var findings := checks(cluster, snaps, prev, now);
    var summary, quiet := Compare(cluster, findings, prev);
    findings := findings + summary;
    state.findings := Carry(findings);
    var a := new Finding[|findings|](i requires 0 <= i < |findings| => findings[i]);
    assert a[..] == findings;
    SortWorstFirst(a);
    rep := Report(cluster, Names(snaps), a[..], state.View());
  }

  // ----- one pass over every cluster

  /** sortedKeys: exchange sort of the map's keys, collected in the map's own order. */
  method ExchangeSort(keys: set<string>) returns (names: seq<string>)
    ensures names == Listing(keys)
  {
    var order := CollectKeys(keys);
    var out := new string[|order|](i requires 0 <= i < |order| => order[i]);
    assert out[..] == order;
    StringOrder();
    for i := 0 to out.Length
      invariant multiset(out[..]) == multiset(order)
      invariant Placed(out[..], i)
    {
      ExchangeMinimum(out, i);
    }
    names := out[..];
    SortGivesListing(names, keys);
    SortOfSorted(AtMost, names);
  }

  /** Places before i hold their final values. */
  ghost predicate Placed(s: seq<string>, i: nat) {
    forall p, q :: 0 <= p < i && p <= q < |s| ==> AtMost(s[p], s[q])
  }

  /** s[i] is no larger than anything from i up to j. */
  ghost predicate SmallestTo(s: seq<string>, i: nat, j: nat) {
    i < |s| && forall q :: i <= q < j && q < |s| ==> AtMost(s[i], s[q])
  }

  lemma SwapStep(s: seq<string>, i: nat, j: nat)
    requires i < j < |s| && Placed(s, i) && SmallestTo(s, i, j) && AtMost(s[j], s[i])
    ensures var t := s[i := s[j]][j := s[i]];
            multiset(t) == multiset(s) && Placed(t, i) && SmallestTo(t, i, j + 1)
  {
    SwapContents(s, i, j);
    forall q | i <= q < j
      ensures AtMost(s[j], s[q])
    {
      AtMostTransitive(s[j], s[i], s[q]);
    }
    AtMostReflexive(s[j]);
  }

  lemma SwapContents(s: seq<string>, i: nat, j: nat)
    requires i < j < |s|
    ensures multiset(s[i := s[j]][j := s[i]]) == multiset(s)
  {
  }

  /** The inner loop: swaps every smaller element into place i. */
  method ExchangeMinimum(out: array<string>, i: nat)
    requires i < out.Length && Placed(out[..], i)
    modifies out
    ensures multiset(out[..]) == multiset(old(out[..]))
    ensures Placed(out[..], i + 1)
  {
    AtMostReflexive(out[i]);
    for j := i + 1 to out.Length
      invariant multiset(out[..]) == multiset(old(out[..]))
      invariant Placed(out[..], i) && SmallestTo(out[..], i, j)
    {
      ghost var s := out[..];
      AtMostTotal(out[i], out[j]);
      if Below(out[j], out[i]) {
        SwapStep(s, i, j);
        out[i], out[j] := out[j], out[i];
        assert out[..] == s[i := s[j]][j := s[i]];
      }
    }
  }

  ghost function ScopedTo(prev: Option<Baseline>, name: string): Option<Baseline> {
    if prev.None? then None else Some(Scoped(prev.value, name))
  }

  /** One cluster's report of a pass, proxy findings included. */
  ghost function ReportOf(checks: Checks, tick: Tick, name: string, prev: Option<Baseline>): Report
    requires name in tick.clusters
  {
    var c := tick.clusters[name];
    var rep := Audited(checks, name, c.snaps, ScopedTo(prev, name), tick.now);
    if c.proxy.Some? then rep.(findings := Sorted(rep.findings + c.proxy.value)) else rep
  }

  ghost function ReportsOf(checks: Checks, tick: Tick, names: seq<string>, prev: Option<Baseline>): seq<Report>
    requires forall n :: n in names ==> n in tick.clusters
  {
    if names == [] then []
    else ReportsOf(checks, tick, names[..|names| - 1], prev) + [ReportOf(checks, tick, names[|names| - 1], prev)]
  }

  ghost function PartsOf(checks: Checks, tick: Tick, names: seq<string>, prev: Option<Baseline>)
      : (r: seq<(string, Baseline)>)
    requires forall n :: n in names ==> n in tick.clusters
    ensures |r| == |names|
    ensures forall i :: 0 <= i < |names| ==> r[i] == (names[i], ReportOf(checks, tick, names[i], prev).state)
  {
    if names == [] then []
    else
      PartsOf(checks, tick, names[..|names| - 1], prev)
      + [(names[|names| - 1], ReportOf(checks, tick, names[|names| - 1], prev).state)]
  }

  ghost function Reports(checks: Checks, tick: Tick, prev: Option<Baseline>): seq<Report> {
    ReportsOf(checks, tick, Listing(tick.clusters.Keys), prev)
  }

  /** What the pass stores for the next one. */
  ghost function Stored(checks: Checks, tick: Tick, prev: Option<Baseline>): Baseline {
    MergeAll(Empty(tick.now), PartsOf(checks, tick, Listing(tick.clusters.Keys), prev))
  }

  lemma {:induction false} MergeAllSnoc(s: Baseline, parts: seq<(string, Baseline)>, p: (string, Baseline))
    ensures MergeAll(s, parts + [p]) == Merged(MergeAll(s, parts), p.0, p.1)
    decreases |parts|
  {
    if parts == [] {
      assert [p][1..] == [] && [] + [p] == [p];
      assert MergeAll(Merged(s, p.0, p.1), []) == Merged(s, p.0, p.1);
    } else {
      assert (parts + [p])[1..] == parts[1..] + [p];
      MergeAllSnoc(Merged(s, parts[0].0, parts[0].1), parts[1..], p);
    }
  }

  /** One more cluster: one more report, and its state merged in. */
  lemma {:induction false} PassStep(checks: Checks, tick: Tick, names: seq<string>, i: nat, prev: Option<Baseline>)
    requires i < |names| && forall n :: n in names ==> n in tick.clusters
    ensures var rep := ReportOf(checks, tick, names[i], prev);
            && ReportsOf(checks, tick, names[..i + 1], prev) == ReportsOf(checks, tick, names[..i], prev) + [rep]
            && MergeAll(Empty(tick.now), PartsOf(checks, tick, names[..i + 1], prev))
            == Merged(MergeAll(Empty(tick.now), PartsOf(checks, tick, names[..i], prev)), names[i], rep.state)
  {
    assert names[..i + 1][..i] == names[..i];
    MergeAllSnoc(Empty(tick.now), PartsOf(checks, tick, names[..i], prev),
                 (names[i], ReportOf(checks, tick, names[i], prev).state));
  }

  class Engine {
    const checks: Checks
    var prev: Store?

    ghost function Previous(): Option<Baseline>
      reads this, prev
    {
      if prev == null then None else Some(prev.View())
    }

    constructor (checks: Checks, loaded: Store?)
      ensures this.checks == checks && prev == loaded
    {
      this.checks := checks;
      prev := loaded;
    }

    /** Audits one cluster against its own view of the previous pass. */
    method RunCluster(tick: Tick, name: string) returns (rep: Report)
      requires name in tick.clusters
      ensures rep == ReportOf(checks, tick, name, Previous())
    {
      var c := tick.clusters[name];
      var scope := Store.Scope(prev, name);
      var baseline := if scope == null then None else Some(scope.View());
      rep := Audit(checks, name, c.snaps, baseline, tick.now);
      if c.proxy.Some? {
        var all := rep.findings + c.proxy.value;
        var a := new Finding[|all|](i requires 0 <= i < |all| => all[i]);
        assert a[..] == all;
        SortWorstFirst(a);
        rep := rep.(findings := a[..]);
      }
    }

    /** Audits the clusters in order, merging each one's state into a fresh store. */
    method RunAll(tick: Tick, names: seq<string>) returns (reps: seq<Report>, merged: Store)
      requires forall n :: n in names ==> n in tick.clusters
      ensures reps == ReportsOf(checks, tick, names, Previous())
      ensures fresh(merged) && merged.View() == MergeAll(Empty(tick.now), PartsOf(checks, tick, names, Previous()))
    {
      reps := [];
      merged := new Store(tick.now);
      ghost var before := Previous();
      assert PartsOf(checks, tick, names[..0], before) == [];
      for i := 0 to |names|
        invariant fresh(merged) && Previous() == before
        invariant reps == ReportsOf(checks, tick, names[..i], before)
        invariant merged.View() == MergeAll(Empty(tick.now), PartsOf(checks, tick, names[..i], before))
      {
        PassStep(checks, tick, names, i, before);
        var rep := RunCluster(tick, names[i]);
        merged.Merge(names[i], rep.state);
        reps := reps + [rep];
      }
      assert names[..|names|] == names;
    }

    /** One pass; the new state is handed forward only when every cluster is done. */
    method RunOnce(tick: Tick) returns (reps: seq<Report>)
      modifies this
      ensures reps == Reports(checks, tick, old(Previous()))
      ensures prev != null && fresh(prev) && Previous() == Some(Stored(checks, tick, old(Previous())))
    {
      var names := ExchangeSort(tick.clusters.Keys);
      var merged;
      reps, merged := RunAll(tick, names);
      prev := merged;
    }

    /** The first report of a watch loop is printed in full. */
    method FirstTick(tick: Tick) returns (first: seq<Block>, statuses: map<string, Status>)
      modifies this
      ensures prev != null && fresh(prev) && Previous() == Some(Stored(checks, tick, old(Previous())))
      ensures var sorted := Sort(ReportOrder, Reports(checks, tick, old(Previous())));
              first == Blocks(sorted, None) && statuses == StatusMap(Entries(sorted))
    {
      var reps := RunOnce(tick);
      first, statuses := RenderFirst(reps);
    }

    /** After that, only what moved since the statuses of the tick before. */
    method NextTick(tick: Tick, before: map<string, Status>) returns (lines: seq<Line>, statuses: map<string, Status>)
      modifies this
      ensures prev != null && fresh(prev) && Previous() == Some(Stored(checks, tick, old(Previous())))
      ensures var reps := Reports(checks, tick, old(Previous()));
              lines == ChangedLines(reps, before) && statuses == StatusMap(Entries(reps))
    {
      var reps := RunOnce(tick);
      var n;
      lines, n := Changed(reps, before);
      statuses := Statuses(reps);
    }

    /** Runs until the ticks end. */
    method WatchLoop(ticks: seq<Tick>) returns (first: seq<Block>, log: seq<seq<Line>>)
      modifies this
      ensures log == WatchLog(Session(checks, ticks, old(Previous())))
      ensures ticks != [] ==> first == Blocks(Session(checks, ticks, old(Previous()))[0], None)
    {
      first, log := [], [];
      var statuses: map<string, Status> := map[];
      ghost var start := Previous();
      var baseline := true;
      for i := 0 to |ticks|
        invariant baseline <==> i == 0
        invariant i == 0 ==> prev == old(prev)
        invariant i > 0 ==> prev != null && fresh(prev)
        invariant Previous() == After(checks, ticks[..i], start)
        invariant Watched(Session(checks, ticks[..i], start), first, log, statuses)
      {
        SessionStep(checks, ticks, i, start, first, log, statuses);
        if baseline {
          first, statuses := FirstTick(ticks[i]);
          baseline := false;
        } else {
          var lines;
          lines, statuses := NextTick(ticks[i], statuses);
          log := log + [lines];
        }
      }
      assert ticks[..|ticks|] == ticks;
    }
  }

  /** Rendering in full sorts the reports, which is the order their statuses are taken in. */
  method RenderFirst(reps: seq<Report>) returns (first: seq<Block>, statuses: map<string, Status>)
    ensures var sorted := Sort(ReportOrder, reps);
            first == Blocks(sorted, None) && statuses == StatusMap(Entries(sorted))
  {
    var a := new Report[|reps|](k requires 0 <= k < |reps| => reps[k]);
    assert a[..] == reps;
    first := RenderText(a, None);
    statuses := Statuses(a[..]);
  }

  /** What the watch loop has printed, and carries, after the reports so far. */
  ghost predicate Watched(session: seq<seq<Report>>, first: seq<Block>, log: seq<seq<Line>>,
                          statuses: map<string, Status>) {
    && log == WatchLog(session)
    && (session != [] ==> first == Blocks(session[0], None))
    && (session != [] ==> statuses == StatusMap(Entries(session[|session| - 1])))
  }

  /** One more tick: what the loop has to print and carry to stay in step. */
  lemma {:induction false} SessionStep(checks: Checks, ticks: seq<Tick>, i: nat, start: Option<Baseline>,
                                       first: seq<Block>, log: seq<seq<Line>>, statuses: map<string, Status>)
    requires i < |ticks| && Watched(Session(checks, ticks[..i], start), first, log, statuses)
    ensures var reps := Reports(checks, ticks[i], After(checks, ticks[..i], start));
            && After(checks, ticks[..i + 1], start) == Some(Stored(checks, ticks[i], After(checks, ticks[..i], start)))
            && (i == 0 ==> Watched(Session(checks, ticks[..i + 1], start), Blocks(Sort(ReportOrder, reps), None), log,
                                   StatusMap(Entries(Sort(ReportOrder, reps)))))
            && (i > 0 ==> Watched(Session(checks, ticks[..i + 1], start), first, log + [ChangedLines(reps, statuses)],
                                  StatusMap(Entries(reps))))
  {
    var reps := Reports(checks, ticks[i], After(checks, ticks[..i], start));
    TicksStep(checks, ticks, i, start);
    WatchedStep(Session(checks, ticks[..i], start), if i == 0 then Sort(ReportOrder, reps) else reps,
                first, log, statuses);
  }

  lemma {:induction false} TicksStep(checks: Checks, ticks: seq<Tick>, i: nat, start: Option<Baseline>)
    requires i < |ticks|
    ensures var before := After(checks, ticks[..i], start);
            var reps := Reports(checks, ticks[i], before);
            && After(checks, ticks[..i + 1], start) == Some(Stored(checks, ticks[i], before))
            && Session(checks, ticks[..i + 1], start)
               == Session(checks, ticks[..i], start) + [if i == 0 then Sort(ReportOrder, reps) else reps]
  {
    assert ticks[..i + 1][..i] == ticks[..i];
  }

  lemma {:induction false} WatchedStep(session: seq<seq<Report>>, last: seq<Report>, first: seq<Block>,
                                       log: seq<seq<Line>>, statuses: map<string, Status>)
    requires Watched(session, first, log, statuses)
    ensures session == [] ==> Watched(session + [last], Blocks(last, None), log, StatusMap(Entries(last)))
    ensures session != [] ==>
              Watched(session + [last], first, log + [ChangedLines(last, statuses)], StatusMap(Entries(last)))
  {
    LogStep(session, last);
  }

  lemma {:induction false} LogStep(session: seq<seq<Report>>, last: seq<Report>)
    ensures WatchLog(session + [last])
         == if session == [] then []
            else WatchLog(session) + [ChangedLines(last, StatusMap(Entries(session[|session| - 1])))]
  {
    assert (session + [last])[..|session|] == session;
  }

  // ----- whole runs

  /** What is handed forward after the given ticks. */
  ghost function After(checks: Checks, ticks: seq<Tick>, start: Option<Baseline>): Option<Baseline> {
    if ticks == [] then start
    else Some(Stored(checks, ticks[|ticks| - 1], After(checks, ticks[..|ticks| - 1], start)))
  }

  /** The reports of every tick; the first ones in the order their rendering left them. */
  ghost function Session(checks: Checks, ticks: seq<Tick>, start: Option<Baseline>): (r: seq<seq<Report>>)
    ensures |r| == |ticks|
  {
    if ticks == [] then []
    else
      var reps := Reports(checks, ticks[|ticks| - 1], After(checks, ticks[..|ticks| - 1], start));
      Session(checks, ticks[..|ticks| - 1], start) + [if |ticks| == 1 then Sort(ReportOrder, reps) else reps]
  }

  /** No other of the names overlaps c's. */
  ghost predicate Alone(c: string, names: set<string>) {
    forall d | d in names && d != c :: Separate(c, d)
  }

  /** The baseline a cluster's audit receives at a tick is exactly what its own audit stored
      one tick earlier: its nodes, its findings, nothing of another cluster, nothing older. */
  lemma {:induction false} BaselineIsolation(checks: Checks, ticks: seq<Tick>, start: Option<Baseline>, t: nat,
                                             c: string)
    requires 0 < t < |ticks| && c in ticks[t - 1].clusters
    requires Alone(c, ticks[t - 1].clusters.Keys)
    ensures var before := After(checks, ticks[..t - 1], start);
            var own := ReportOf(checks, ticks[t - 1], c, before).state;
            var received := ScopedTo(After(checks, ticks[..t], start), c);
            && received.Some?
            && received.value.version == VERSION && received.value.at == ticks[t - 1].now
            && Named(own.nodes, received.value.nodes)
            && received.value.findings == own.findings
  {
    var tick, before := ticks[t - 1], After(checks, ticks[..t - 1], start);
    assert ticks[..t][..t - 1] == ticks[..t - 1];
    StoredScopes(checks, tick, before, c);
  }

  lemma StoredScopes(checks: Checks, tick: Tick, prev: Option<Baseline>, c: string)
    requires c in tick.clusters && Alone(c, tick.clusters.Keys)
    ensures var own := ReportOf(checks, tick, c, prev).state;
            var received := Scoped(Stored(checks, tick, prev), c);
            && received.version == VERSION && received.at == tick.now
            && Named(own.nodes, received.nodes)
            && received.findings == own.findings
  {
    StoredReadsBack(checks, tick, prev, c);
    OwnFindings(checks, tick, c, prev);
    NamedEqual(ReportOf(checks, tick, c, prev).state.findings, Scoped(Stored(checks, tick, prev), c).findings);
  }

  /** A baseline stored at `now` hands c what `own` held: all its nodes and findings. */
  ghost predicate HandsBack(s: Baseline, now: int, c: string, own: Baseline) {
    && Scoped(s, c).version == VERSION && Scoped(s, c).at == now
    && Named(own.nodes, Scoped(s, c).nodes) && Named(own.findings, Scoped(s, c).findings)
  }

  lemma StoredReadsBack(checks: Checks, tick: Tick, prev: Option<Baseline>, c: string)
    requires c in tick.clusters && Alone(c, tick.clusters.Keys)
    ensures HandsBack(Stored(checks, tick, prev), tick.now, c, ReportOf(checks, tick, c, prev).state)
  {
    var names := Listing(tick.clusters.Keys);
    PartsPaired(checks, tick, names, prev, c);
    PartReadsBack(tick.clusters.Keys, tick.now, PartsOf(checks, tick, names, prev),
                  c, ReportOf(checks, tick, c, prev).state);
  }

  /** One part per name, in order, with `own` under c. */
  ghost predicate Paired(names: seq<string>, parts: seq<(string, Baseline)>, c: string, own: Baseline) {
    && |parts| == |names|
    && forall k :: 0 <= k < |parts| ==> parts[k].0 == names[k] && (parts[k].0 == c ==> parts[k].1 == own)
  }

  lemma {:induction false} PartsPaired(checks: Checks, tick: Tick, names: seq<string>, prev: Option<Baseline>,
                                       c: string)
    requires c in tick.clusters && forall n :: n in names ==> n in tick.clusters
    ensures Paired(names, PartsOf(checks, tick, names, prev), c, ReportOf(checks, tick, c, prev).state)
  {
    var parts := PartsOf(checks, tick, names, prev);
    forall k | 0 <= k < |parts|
      ensures parts[k].0 == names[k] && (parts[k].0 == c ==> parts[k].1 == ReportOf(checks, tick, c, prev).state)
    {
      assert parts[k] == (names[k], ReportOf(checks, tick, names[k], prev).state);
    }
  }

  lemma {:induction false} PartReadsBack(names: set<string>, now: int, parts: seq<(string, Baseline)>, c: string,
                                         own: Baseline)
    requires c in names && Alone(c, names) && Paired(Listing(names), parts, c, own)
    ensures HandsBack(MergeAll(Empty(now), parts), now, c, own)
  {
    var i := PlaceOf(Listing(names), c);
    ApartParts(names, parts, i);
    ScopesBack(now, parts, i);
  }

  ghost function PlaceOf(names: seq<string>, c: string): (i: nat)
    requires c in names
    ensures i < |names| && names[i] == c
  {
    if names[0] == c then 0 else PlaceOf(names[1..], c) + 1
  }

  lemma {:induction false} ApartParts(names: set<string>, parts: seq<(string, Baseline)>, i: nat)
    requires |parts| == |Listing(names)| && i < |parts| && Alone(parts[i].0, names)
    requires forall k :: 0 <= k < |parts| ==> parts[k].0 == Listing(names)[k]
    ensures ApartFromRest(parts, i)
  {
    ListingDistinct(names);
    forall j | 0 <= j < |parts| && j != i
      ensures Apart(parts[i].0, parts[j].0)
    {
      assert Listing(names)[j] in Listing(names);
    }
  }

  lemma {:induction false} ScopesBack(now: int, parts: seq<(string, Baseline)>, i: nat)
    requires i < |parts| && ApartFromRest(parts, i)
    ensures ReadsBack(MergeAll(Empty(now), parts), parts[i].0, parts[i].1)
    ensures MergeAll(Empty(now), parts).version == VERSION && MergeAll(Empty(now), parts).at == now
  {
    EmptyScopes(now, parts[i].0);
    ScopeReadsBack(Empty(now), parts, i);
    MergeAllHeader(Empty(now), parts);
  }

  lemma OwnFindings(checks: Checks, tick: Tick, c: string, prev: Option<Baseline>)
    requires c in tick.clusters
    ensures var all := Found(checks, c, tick.clusters[c].snaps, ScopedTo(prev, c), tick.now);
            ReportOf(checks, tick, c, prev).state.findings == Carried(all)
    ensures "" !in ReportOf(checks, tick, c, prev).state.findings
  {
    KeysNotEmpty(Found(checks, c, tick.clusters[c].snaps, ScopedTo(prev, c), tick.now));
  }

  lemma NamedEqual(m: map<string, Status>, r: map<string, Status>)
    requires Named(m, r) && "" !in m
    ensures m == r
  {
  }

  lemma {:induction false} MergeAllHeader(s: Baseline, parts: seq<(string, Baseline)>)
    ensures MergeAll(s, parts).version == s.version && MergeAll(s, parts).at == s.at
    decreases |parts|
  {
    if parts != [] {
      MergeAllHeader(Merged(s, parts[0].0, parts[0].1), parts[1..]);
    }
  }

  lemma {:induction false} KeysNotEmpty(fs: seq<Finding>)
    ensures "" !in Carried(fs)
  {
    CarriedMeaning(fs);
    forall k | k in Carried(fs)
      ensures k != ""
    {
      var f :| f in fs && f.check != SUMMARY && FindingKey(f) == k;
      assert |FindingKey(f)| >= 1;
    }
  }

  /** One pass hands cluster c back what its audit stored. */
  ghost predicate Isolated(checks: Checks, tick: Tick, prev: Option<Baseline>, c: string)
    requires c in tick.clusters
  {
    HandsBack(Stored(checks, tick, prev), tick.now, c, ReportOf(checks, tick, c, prev).state)
  }

  /** Whatever the passes over these clusters collect and check. */
  ghost predicate AlwaysIsolated(names: set<string>, c: string)
    requires c in names
  {
    forall checks, tick: Tick, prev | tick.clusters.Keys == names :: Isolated(checks, tick, prev, c)
  }

  /** Passes over the same clusters keep c's baseline to itself exactly when no other name
      overlaps c's. */
  lemma IsolationIff(names: set<string>, c: string)
    requires c in names
    ensures AlwaysIsolated(names, c) <==> Alone(c, names)
  {
    if Alone(c, names) {
      forall checks, tick: Tick, prev | tick.clusters.Keys == names
        ensures Isolated(checks, tick, prev, c)
      {
        StoredReadsBack(checks, tick, prev, c);
      }
    } else {
      var d :| d in names && d != c && !Separate(c, d);
      SeparateIff(c, d);
      var k :| k != "" && TrimPrefix(Qualified(d, k), c + "/").Some?;
      LeakTickNotIsolated(names, c, d, k);
      assert !Isolated(NoFindings(), LeakTick(names, d, k), None, c);
    }
  }

  function NoFindings(): Checks {
    (name, snaps, prev, now) => []
  }

  /** Every cluster is empty, but d has one node, called k. */
  function LeakTick(names: set<string>, d: string, k: string): Tick {
    Tick(0, map n | n in names :: Collected(if n == d then [NodeCalled(k)] else [], None))
  }

  function NodeCalled(name: string): Snapshot {
    Snapshot(name, 0, "", map[], map[], map[], [], map[], None)
  }

  lemma LeakTickNotIsolated(names: set<string>, c: string, d: string, k: string)
    requires c in names && d in names && c != d && TrimPrefix(Qualified(d, k), c + "/").Some?
    ensures !Isolated(NoFindings(), LeakTick(names, d, k), None, c)
  {
    LeakNodes(names, c, d, k);
    assert LeakTick(names, d, k).clusters.Keys == names;
    LeakyTick(NoFindings(), LeakTick(names, d, k), None, c, d, k);
  }

  lemma LeakyTick(checks: Checks, tick: Tick, prev: Option<Baseline>, c: string, d: string, k: string)
    requires c in tick.clusters && d in tick.clusters && TrimPrefix(Qualified(d, k), c + "/").Some?
    requires ReportOf(checks, tick, c, prev).state.nodes == map[]
    requires k in ReportOf(checks, tick, d, prev).state.nodes
    ensures !HandsBack(Stored(checks, tick, prev), tick.now, c, ReportOf(checks, tick, c, prev).state)
  {
    var names := Listing(tick.clusters.Keys);
    PartsPaired(checks, tick, names, prev, c);
    PartsPaired(checks, tick, names, prev, d);
    LeakedPart(tick.clusters.Keys, tick.now, PartsOf(checks, tick, names, prev),
               c, ReportOf(checks, tick, c, prev).state, d, ReportOf(checks, tick, d, prev).state, k);
  }

  lemma {:induction false} LeakedPart(names: set<string>, now: int, parts: seq<(string, Baseline)>, c: string,
                                      own: Baseline, d: string, other: Baseline, k: string)
    requires c in names && d in names && TrimPrefix(Qualified(d, k), c + "/").Some?
    requires Paired(Listing(names), parts, c, own) && Paired(Listing(names), parts, d, other)
    requires own.nodes == map[] && k in other.nodes
    ensures !HandsBack(MergeAll(Empty(now), parts), now, c, own)
  {
    LeakedNode(Empty(now), parts, PlaceOf(Listing(names), c), PlaceOf(Listing(names), d), k);
  }

  lemma LeakNodes(names: set<string>, c: string, d: string, k: string)
    requires c in names && d in names && c != d
    ensures ReportOf(NoFindings(), LeakTick(names, d, k), c, None).state.nodes == map[]
    ensures k in ReportOf(NoFindings(), LeakTick(names, d, k), d, None).state.nodes
  {
    assert [NodeCalled(k)][..0] == [];
  }

  /** A cluster that was not audited one tick earlier gets an empty baseline, whatever older
      ticks stored under its name. */
  lemma AbsentClusterStartsOver(checks: Checks, tick: Tick, prev: Option<Baseline>, c: string)
    requires c !in tick.clusters && forall d :: d in tick.clusters ==> Separate(c, d)
    ensures Scoped(Stored(checks, tick, prev), c) == Empty(tick.now)
  {
    var names := Listing(tick.clusters.Keys);
    var parts := PartsOf(checks, tick, names, prev);
    forall p | p in parts
      ensures Apart(c, p.0)
    {
      var i :| 0 <= i < |parts| && parts[i] == p;
      assert names[i] in names;
    }
    ScopeUndisturbed(Empty(tick.now), parts, c);
    EmptyScopes(tick.now, c);
  }

  /** The watch log of a session, consistent after its first tick, replays to the statuses of
      every tick exactly when no key that disappears on the way holds a tab. */
  lemma {:induction false} SessionFaithfulIff(checks: Checks, ticks: seq<Tick>, start: Option<Baseline>)
    requires ConsistentAfterFirst(Session(checks, ticks, start))
    ensures var s := Session(checks, ticks, start);
            FaithfulThroughout(s) <==> forall i: nat | 0 < i < |s| :: TabFreeStep(s, i)
  {
    WatchLogFaithfulIff(Session(checks, ticks, start));
  }

  /** The lines printed between two reports are the second's own summary value plus the OK
      findings that are new. */
  ghost predicate CountsAgree(r1: Report, r2: Report) {
    exists f :: f in r2.findings && f.check == SUMMARY && f.value.Some?
      && |ChangedLines([r2], StatusMap(Entries([r1])))| as real
      == f.value.value + |NewOK(Carried(r2.findings), Carried(r1.findings))| as real
  }

  lemma ReportsAgree(r1: Report, r2: Report)
    requires r1.cluster == r2.cluster && UniqueKeys(r2.findings)
    requires var moved := |Changes.Moved(Carried(r2.findings), Carried(r1.findings))|;
             Finding(SUMMARY, r2.cluster, OK, Some(moved as real)) in r2.findings
    ensures CountsAgree(r1, r2)
  {
    OneReport(r1);
    EnginesAgree(r2, Carried(r1.findings));
  }

  /** End to end, for one cluster without a proxy and with unique finding keys: the number of
      lines the watch loop prints is the value of the audit's own summary plus the OK findings
      that are new. */
  lemma SummaryCountsWatchLines(checks: Checks, before: Tick, tick: Tick, prev: Option<Baseline>, c: string)
    requires c != "" && before.clusters.Keys == {c} && tick.clusters.Keys == {c}
    requires before.clusters[c].proxy.None? && tick.clusters[c].proxy.None?
    requires UniqueKeys(ReportOf(checks, before, c, prev).findings)
    requires UniqueKeys(ReportOf(checks, tick, c, Some(Stored(checks, before, prev))).findings)
    requires ReportOf(checks, before, c, prev).state.findings != map[]
    ensures CountsAgree(ReportOf(checks, before, c, prev),
                        ReportOf(checks, tick, c, Some(Stored(checks, before, prev))))
  {
    var stored := Some(Stored(checks, before, prev));
    ReceivedFindings(checks, before, c, prev);
    SummaryAgainst(checks, tick, c, stored, Carried(ReportOf(checks, before, c, prev).findings));
    ReportsAgree(ReportOf(checks, before, c, prev), ReportOf(checks, tick, c, stored));
  }

  /** What the next audit receives is what the watch loop remembers of this report. */
  lemma ReceivedFindings(checks: Checks, tick: Tick, c: string, prev: Option<Baseline>)
    requires tick.clusters.Keys == {c} && tick.clusters[c].proxy.None?
    requires UniqueKeys(ReportOf(checks, tick, c, prev).findings)
    ensures var received := ScopedTo(Some(Stored(checks, tick, prev)), c);
            && received.Some? && received.value.version == VERSION
            && received.value.findings == Carried(ReportOf(checks, tick, c, prev).findings)
            && received.value.findings == ReportOf(checks, tick, c, prev).state.findings
  {
    StoredScopes(checks, tick, prev, c);
    ReportCarries(checks, tick, c, prev);
  }

  lemma SummaryAgainst(checks: Checks, tick: Tick, c: string, prev: Option<Baseline>, stored: map<string, Status>)
    requires c in tick.clusters && c != "" && tick.clusters[c].proxy.None?
    requires UniqueKeys(ReportOf(checks, tick, c, prev).findings)
    requires ScopedTo(prev, c).Some? && ScopedTo(prev, c).value.version == VERSION
    requires ScopedTo(prev, c).value.findings == stored && stored != map[]
    ensures var r := ReportOf(checks, tick, c, prev);
            Finding(SUMMARY, c, OK, Some(|Changes.Moved(Carried(r.findings), stored)| as real)) in r.findings
  {
    ReportCarries(checks, tick, c, prev);
    ReportSummary(checks, tick, c, prev);
  }

  lemma OneReport(r: Report)
    ensures StatusMap(Entries([r])) == Prefixed(r.cluster, Carried(r.findings))
  {
    assert Entries([r]) == EntriesOf(r.cluster, r.findings);
    StatusMapIsPrefixed(r.cluster, r.findings);
  }

  lemma ReportCarries(checks: Checks, tick: Tick, c: string, prev: Option<Baseline>)
    requires c in tick.clusters && tick.clusters[c].proxy.None?
    requires UniqueKeys(ReportOf(checks, tick, c, prev).findings)
    ensures Carried(ReportOf(checks, tick, c, prev).findings) == ReportOf(checks, tick, c, prev).state.findings
  {
    SortedCarries(Found(checks, c, tick.clusters[c].snaps, ScopedTo(prev, c), tick.now));
  }

  /** The report holds the summary, and its value counts the moves against the scoped baseline. */
  lemma ReportSummary(checks: Checks, tick: Tick, c: string, prev: Option<Baseline>)
    requires c in tick.clusters && c != "" && tick.clusters[c].proxy.None?
    requires ScopedTo(prev, c).Some? && ScopedTo(prev, c).value.version == VERSION
    requires ScopedTo(prev, c).value.findings != map[]
    ensures var r := ReportOf(checks, tick, c, prev);
            var moved := |Changes.Moved(r.state.findings, ScopedTo(prev, c).value.findings)|;
            Finding(SUMMARY, c, OK, Some(moved as real)) in r.findings
  {
    var scoped := ScopedTo(prev, c);
    var raw := checks(c, tick.clusters[c].snaps, scoped, tick.now);
    var all := Found(checks, c, tick.clusters[c].snaps, scoped, tick.now);
    NonEmptySize(scoped.value.findings);
    SummaryNotCarried(raw, Summary(c, raw, scoped));
    SortContents(WorstFirst, all);
    var f := Finding(SUMMARY, c, OK, Some(|Changes.Moved(Carried(raw), scoped.value.findings)| as real));
    assert all == raw + [f];
    assert f in all;
  }

  lemma NonEmptySize(m: map<string, Status>)
    requires m != map[]
    ensures |m| != 0
  {
  }

  lemma UniqueIsConsistent(s: seq<Finding>)
    requires UniqueKeys(s)
    ensures ConsistentFindings(s)
  {
    forall f, g | f in s && g in s && f.check != SUMMARY && g.check != SUMMARY && FindingKey(f) == FindingKey(g)
      ensures f.status == g.status
    {
      var i :| 0 <= i < |s| && s[i] == f;
      var j :| 0 <= j < |s| && s[j] == g;
    }
  }

  lemma {:induction false} SortedCarries(all: seq<Finding>)
    requires UniqueKeys(Sorted(all))
    ensures Carried(Sorted(all)) == Carried(all)
  {
    SortContents(WorstFirst, all);
    UniqueIsConsistent(Sorted(all));
    CarriedIgnoresOrder(Sorted(all), all);
  }
}
