/** What an audit is given and what it reports: the checks see the cluster's own baseline, and a
    counter read at two successive ticks moves by what really happened between them. */
module Baselines {
  import opened Strings
  import opened Sorting
  import opened Findings
  import opened Cluster
  import opened State
  import opened Changes
  import opened Watch
  import opened Rates
  import Render
  import opened Doctor

  /** What the checks say in this pass, given the cluster's view of what was stored before. */
  function Checked(checks: Checks, tick: Tick, c: string, baseline: Option<Baseline>): seq<Finding>
    requires c in tick.clusters
  {
    checks(if c == "" then "cluster" else c, tick.clusters[c].snaps, baseline, tick.now)
  }

  /** The transition summary counts the keys whose status moved since the baseline. */
  ghost predicate SumsUp(summary: multiset<Finding>, name: string, found: seq<Finding>, baseline: Option<Baseline>) {
    if baseline.Some? && baseline.value.version == 2 && baseline.value.findings != map[] then
      summary == multiset{Finding("audit/changes", name, OK,
                                  Some(|Changes.Moved(Carried(found), baseline.value.findings)| as real))}
    else summary == multiset{}
  }

  function ProxyFindings(tick: Tick, c: string): seq<Finding>
    requires c in tick.clusters
  {
    if tick.clusters[c].proxy.Some? then tick.clusters[c].proxy.value else []
  }

  ghost predicate Holds(rep: Report, found: seq<Finding>, name: string, baseline: Option<Baseline>,
                        proxy: seq<Finding>) {
    exists summary :: SumsUp(summary, name, found, baseline)
                      && multiset(rep.findings) == multiset(found) + summary + multiset(proxy)
  }

  function NameOf(c: string): string {
    if c == "" then "cluster" else c
  }

  ghost function ViewOf(prev: Option<Baseline>, c: string): Option<Baseline> {
    if prev.None? then None else Some(Scoped(prev.value, c))
  }

  /** A report holds what the checks say of the scoped baseline, the summary and the proxy's
      findings, nothing else; what it stores are this run's nodes and the checks' verdicts. */
  lemma ReportHolds(checks: Checks, tick: Tick, c: string, prev: Option<Baseline>)
    requires c in tick.clusters
    ensures var found := Checked(checks, tick, c, ViewOf(prev, c));
            var rep := ReportOf(checks, tick, c, prev);
            && Holds(rep, found, NameOf(c), ViewOf(prev, c), ProxyFindings(tick, c))
            && rep.cluster == NameOf(c) && |rep.nodes| == |tick.clusters[c].snaps|
            && (forall i :: 0 <= i < |rep.nodes| ==> rep.nodes[i] == tick.clusters[c].snaps[i].node)
            && rep.state == Baseline(2, tick.now, NodesOf(tick.clusters[c].snaps, tick.now), Carried(found))
  {
    ReportFindings(checks, tick, c, prev);
    ReportHeader(checks, tick, c, prev);
  }

  lemma ReportFindings(checks: Checks, tick: Tick, c: string, prev: Option<Baseline>)
    requires c in tick.clusters
    ensures Holds(ReportOf(checks, tick, c, prev), Checked(checks, tick, c, ViewOf(prev, c)), NameOf(c),
                  ViewOf(prev, c), ProxyFindings(tick, c))
  {
    var found := Checked(checks, tick, c, ViewOf(prev, c));
    var summary := multiset(Summary(NameOf(c), found, ViewOf(prev, c)));
    SummedUp(NameOf(c), found, ViewOf(prev, c), ProxyFindings(tick, c));
    assert ScopedTo(prev, c) == ViewOf(prev, c);
    HoldsThese(ReportOf(checks, tick, c, prev), found, NameOf(c), ViewOf(prev, c), ProxyFindings(tick, c), summary);
  }

  lemma HoldsThese(rep: Report, found: seq<Finding>, name: string, baseline: Option<Baseline>, proxy: seq<Finding>,
                   summary: multiset<Finding>)
    requires SumsUp(summary, name, found, baseline)
    requires multiset(rep.findings) == multiset(found) + summary + multiset(proxy)
    ensures Holds(rep, found, name, baseline, proxy)
  {
  }

  lemma ReportHeader(checks: Checks, tick: Tick, c: string, prev: Option<Baseline>)
    requires c in tick.clusters
    ensures var found := Checked(checks, tick, c, ViewOf(prev, c));
            var rep := ReportOf(checks, tick, c, prev);
            && rep.cluster == NameOf(c) && |rep.nodes| == |tick.clusters[c].snaps|
            && (forall i :: 0 <= i < |rep.nodes| ==> rep.nodes[i] == tick.clusters[c].snaps[i].node)
            && rep.state == Baseline(2, tick.now, NodesOf(tick.clusters[c].snaps, tick.now), Carried(found))
  {
    AuditHeader(checks, c, tick.clusters[c].snaps, ViewOf(prev, c), tick.now);
    assert ScopedTo(prev, c) == ViewOf(prev, c);
  }

  lemma {:induction false} AuditHeader(checks: Checks, c: string, snaps: seq<Snapshot>, baseline: Option<Baseline>,
                                       now: int)
    ensures var rep := Audited(checks, c, snaps, baseline, now);
            && rep.cluster == NameOf(c) && |rep.nodes| == |snaps|
            && (forall i :: 0 <= i < |rep.nodes| ==> rep.nodes[i] == snaps[i].node)
            && rep.state == Baseline(2, now, NodesOf(snaps, now), Carried(checks(NameOf(c), snaps, baseline, now)))
  {
    var found := checks(NameOf(c), snaps, baseline, now);
    SummaryNotCarried(found, Summary(NameOf(c), found, baseline));
  }

  lemma SummedUp(name: string, found: seq<Finding>, baseline: Option<Baseline>, proxy: seq<Finding>)
    ensures var summary := multiset(Summary(name, found, baseline));
            var all := Sorted(found + Summary(name, found, baseline));
            && SumsUp(summary, name, found, baseline)
            && multiset(all) == multiset(found) + summary
            && multiset(Sorted(all + proxy)) == multiset(found) + summary + multiset(proxy)
  {
    var all := Sorted(found + Summary(name, found, baseline));
    SummarySays(name, found, baseline);
    SortContents(WorstFirst, found + Summary(name, found, baseline));
    SortContents(WorstFirst, all + proxy);
  }

  /** Every audited cluster's report is in the session at its tick. */
  lemma {:induction false} SessionHolds(checks: Checks, ticks: seq<Tick>, start: Option<Baseline>, t: nat, c: string)
    requires t < |ticks| && c in ticks[t].clusters
    ensures ReportOf(checks, ticks[t], c, After(checks, ticks[..t], start)) in Session(checks, ticks, start)[t]
  {
    var prev := After(checks, ticks[..t], start);
    SessionAt(checks, ticks, start, t);
    ReportsHold(checks, ticks[t], Listing(ticks[t].clusters.Keys), prev, c);
    SortContents(Render.ReportOrder, Reports(checks, ticks[t], prev));
    assert ReportOf(checks, ticks[t], c, prev) in multiset(Reports(checks, ticks[t], prev));
  }

  lemma {:induction false} SessionAt(checks: Checks, ticks: seq<Tick>, start: Option<Baseline>, t: nat)
    requires t < |ticks|
    ensures var reps := Reports(checks, ticks[t], After(checks, ticks[..t], start));
            Session(checks, ticks, start)[t] == if t == 0 then Sort(Render.ReportOrder, reps) else reps
  {
    var reps := Reports(checks, ticks[t], After(checks, ticks[..t], start));
    SessionPrefix(checks, ticks, start, t + 1);
    TicksStep(checks, ticks, t, start);
    LastOfPrefix(Session(checks, ticks[..t], start), if t == 0 then Sort(Render.ReportOrder, reps) else reps,
                 Session(checks, ticks, start), t);
  }

  lemma LastOfPrefix(init: seq<seq<Report>>, last: seq<Report>, all: seq<seq<Report>>, t: nat)
    requires |init| == t < |all| && all[..t + 1] == init + [last]
    ensures all[t] == last
  {
    assert all[..t + 1][t] == all[t];
  }

  lemma {:induction false} SessionPrefix(checks: Checks, ticks: seq<Tick>, start: Option<Baseline>, k: nat)
    requires k <= |ticks|
    ensures Session(checks, ticks[..k], start) == Session(checks, ticks, start)[..k]
    decreases |ticks| - k
  {
    if k == |ticks| {
      WholePrefix(ticks);
      WholePrefix(Session(checks, ticks, start));
    } else {
      SessionPrefix(checks, ticks, start, k + 1);
      SessionInit(checks, ticks[..k + 1], start);
      PrefixOfPrefix(ticks, k);
      PrefixOfPrefix(Session(checks, ticks, start), k);
    }
  }

  lemma WholePrefix<T>(s: seq<T>)
    ensures s[..|s|] == s
  {
  }

  lemma PrefixOfPrefix<T>(s: seq<T>, k: nat)
    requires k < |s|
    ensures s[..k + 1][..k] == s[..k]
  {
  }

  lemma {:induction false} SessionInit(checks: Checks, ticks: seq<Tick>, start: Option<Baseline>)
    requires ticks != []
    ensures Session(checks, ticks, start)[..|ticks| - 1] == Session(checks, ticks[..|ticks| - 1], start)
  {
    var n := |ticks| - 1;
    assert ticks[..n + 1] == ticks;
    TicksStep(checks, ticks, n, start);
  }

  lemma {:induction false} ReportsHold(checks: Checks, tick: Tick, names: seq<string>, prev: Option<Baseline>,
                                       c: string)
    requires c in names && forall n :: n in names ==> n in tick.clusters
    ensures ReportOf(checks, tick, c, prev) in ReportsOf(checks, tick, names, prev)
  {
    InitLast(names);
    if names[|names| - 1] != c {
      ReportsHold(checks, tick, names[..|names| - 1], prev, c);
    }
  }

  /** b is what cluster c's own audit stored in that pass: all its nodes and findings. */
  ghost predicate StoredBy(b: Baseline, checks: Checks, tick: Tick, c: string, prev: Option<Baseline>)
    requires c in tick.clusters
  {
    var own := ReportOf(checks, tick, c, prev).state;
    && b.version == 2 && b.at == tick.now
    && Named(own.nodes, b.nodes) && b.findings == own.findings
  }

  /** At every tick after the first, the report of a cluster that was audited one tick earlier,
      and whose name overlaps no other, holds what the checks say of exactly the nodes and
      findings its own audit stored then. */
  lemma {:induction false} ChecksSeeOwnBaseline(checks: Checks, ticks: seq<Tick>, start: Option<Baseline>, t: nat,
                                                c: string)
    requires 0 < t < |ticks| && c in ticks[t - 1].clusters && c in ticks[t].clusters
    requires Alone(c, ticks[t - 1].clusters.Keys)
    ensures exists rep, baseline ::
              && rep in Session(checks, ticks, start)[t]
              && StoredBy(baseline, checks, ticks[t - 1], c, After(checks, ticks[..t - 1], start))
              && multiset(Checked(checks, ticks[t], c, Some(baseline))) <= multiset(rep.findings)
  {
    var prev := After(checks, ticks[..t], start);
    var rep := ReportOf(checks, ticks[t], c, prev);
    BaselineIsolation(checks, ticks, start, t, c);
    SessionHolds(checks, ticks, start, t, c);
    ReportHolds(checks, ticks[t], c, prev);
    assert StoredBy(ScopedTo(prev, c).value, checks, ticks[t - 1], c, After(checks, ticks[..t - 1], start));
    assert multiset(Checked(checks, ticks[t], c, Some(ScopedTo(prev, c).value))) <= multiset(rep.findings);
  }

  // ----- counters over two ticks

  /** A snapshot read from the server, one name each. */
  ghost predicate SnapReads(snap: Snapshot, now: int, s: Server, key: string) {
    && Up(s) && snap.err == "" && key in COUNTERS
    && s.clock == (if snap.at == 0 then now else snap.at)
    && snap.Float("uptime") == Some(((s.clock - s.boot) / SECOND) as real)
    && snap.Float(key) == Some(s.counter as real)
  }

  ghost predicate UniqueNames(snaps: seq<Snapshot>) {
    forall i, j :: 0 <= i < j < |snaps| ==> snaps[i].node != snaps[j].node
  }

  lemma {:induction false} SnapshotReads(snaps: seq<Snapshot>, now: int, snap: Snapshot, s: Server, key: string)
    requires UniqueNames(snaps) && snap in snaps && SnapReads(snap, now, s, key)
    ensures snap.node in NodesOf(snaps, now) && Reads(NodesOf(snaps, now)[snap.node], s, key)
  {
    NodesOfUnique(snaps, now);
    NodeStateReads(snap, now);
  }

  /** A node read at two successive ticks, without a restart between: the delta the second audit
      computes from the baseline it is handed is what really happened in between. */
  lemma {:induction false} TickDeltaTrue(checks: Checks, ticks: seq<Tick>, start: Option<Baseline>, t: nat, c: string,
                                         first: Snapshot, second: Snapshot, s: Server, es: seq<Event>, key: string)
    requires 0 < t < |ticks| && c in ticks[t - 1].clusters && c in ticks[t].clusters
    requires Alone(c, ticks[t - 1].clusters.Keys)
    requires UniqueNames(ticks[t - 1].clusters[c].snaps) && UniqueNames(ticks[t].clusters[c].snaps)
    requires first in ticks[t - 1].clusters[c].snaps && second in ticks[t].clusters[c].snaps
    requires first.node == second.node != ""
    requires SnapReads(first, ticks[t - 1].now, s, key) && SnapReads(second, ticks[t].now, Run(s, es), key)
    requires !Restarted(es) && s.clock < Run(s, es).clock
    ensures var baseline := ScopedTo(After(checks, ticks[..t], start), c);
            var nodes := ReportOf(checks, ticks[t], c, After(checks, ticks[..t], start)).state.nodes;
            && second.node in nodes
            && Since(baseline, second.node, key, nodes[second.node])
               == Some(Delta(Happened(es) as real, Run(s, es).clock - s.clock))
  {
    SnapshotReads(ticks[t - 1].clusters[c].snaps, ticks[t - 1].now, first, s, key);
    SnapshotReads(ticks[t].clusters[c].snaps, ticks[t].now, second, Run(s, es), key);
    TickStores(checks, ticks, start, t, c);
    var prev := After(checks, ticks[..t], start);
    ReportHolds(checks, ticks[t], c, prev);
    SinceTrue(ScopedTo(prev, c).value, second.node, key, s, es,
              NodesOf(ticks[t].clusters[c].snaps, ticks[t].now)[second.node]);
  }

  lemma {:induction false} TickStores(checks: Checks, ticks: seq<Tick>, start: Option<Baseline>, t: nat, c: string)
    requires 0 < t < |ticks| && c in ticks[t - 1].clusters && Alone(c, ticks[t - 1].clusters.Keys)
    ensures var received := ScopedTo(After(checks, ticks[..t], start), c);
            && received.Some? && received.value.version == 2
            && Named(NodesOf(ticks[t - 1].clusters[c].snaps, ticks[t - 1].now), received.value.nodes)
  {
    BaselineIsolation(checks, ticks, start, t, c);
    ReportHolds(checks, ticks[t - 1], c, After(checks, ticks[..t - 1], start));
  }
}
