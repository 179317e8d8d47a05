/** What the printed lines of a watch tick say, in terms of the findings and the statuses before. */
module Transcript {
  import opened Strings
  import opened Sorting
  import opened Findings
  import opened State
  import opened Changes
  import opened Watch
  import opened Replay

  /** "cluster/check@target" */
  function KeyText(cluster: string, f: Finding): string {
    cluster + "/" + (f.check + "@" + f.target)
  }

  function Before(prev: map<string, Status>, key: string): Option<Status> {
    if key in prev then Some(prev[key]) else None
  }

  /** The finding is in the cluster's report, and is not the transition summary. */
  ghost predicate Reported(reps: seq<Report>, cluster: string, f: Finding) {
    f.check != "audit/changes" && exists rep :: rep in reps && rep.cluster == cluster && f in rep.findings
  }

  lemma {:induction false} EntriesOfAre(cluster: string, fs: seq<Finding>)
    ensures forall e :: e in EntriesOf(cluster, fs) <==>
              e.cluster == cluster && e.f in fs && e.f.check != "audit/changes"
  {
    if fs != [] {
      InitLast(fs);
      EntriesOfAre(cluster, fs[..|fs| - 1]);
    }
  }

  lemma {:induction false} EntriesAre(reps: seq<Report>)
    ensures forall e :: e in Entries(reps) <==> Reported(reps, e.cluster, e.f)
  {
    if reps != [] {
      var init, last := reps[..|reps| - 1], reps[|reps| - 1];
      InitLast(reps);
      EntriesAre(init);
      EntriesOfAre(last.cluster, last.findings);
      forall e
        ensures e in Entries(reps) <==> Reported(reps, e.cluster, e.f)
      {
        ReportedSnoc(init, last, e);
      }
    }
  }

  lemma ReportedSnoc(init: seq<Report>, last: Report, e: Entry)
    ensures Reported(init + [last], e.cluster, e.f)
       <==> Reported(init, e.cluster, e.f)
            || (e.f.check != "audit/changes" && last.cluster == e.cluster && e.f in last.findings)
  {
    assert forall rep :: rep in init + [last] <==> rep in init || rep == last;
  }

  lemma {:induction false} MovedAre(es: seq<Entry>, prev: map<string, Status>)
    ensures forall t :: t in MovedOf(es, prev) <==>
              t.entry in es && t.before == Before(prev, KeyText(t.entry.cluster, t.entry.f))
              && t.before != Some(t.entry.f.status)
  {
    if es != [] {
      InitLast(es);
      MovedAre(es[..|es| - 1], prev);
      var last := es[|es| - 1];
      assert EntryKey(last) == KeyText(last.cluster, last.f);
    }
  }

  /** A moved line is printed for exactly the reported findings whose status is not the one
      before, and says which one that was, or that there was none. */
  lemma MovedLinesSay(reps: seq<Report>, prev: map<string, Status>)
    ensures forall t :: Moved(t) in ChangedLines(reps, prev) <==>
              Reported(reps, t.entry.cluster, t.entry.f)
              && t.before == Before(prev, KeyText(t.entry.cluster, t.entry.f))
              && t.before != Some(t.entry.f.status)
  {
    var es := Entries(reps);
    EntriesAre(reps);
    MovedAre(es, prev);
    SortedMovedSame(es, prev);
    MovedLinesIn(reps, prev);
  }

  lemma {:induction false} MovedLinesIn(reps: seq<Report>, prev: map<string, Status>)
    ensures forall t :: Moved(t) in ChangedLines(reps, prev) <==> t in Sort(LineOrder, MovedOf(Entries(reps), prev))
  {
    var ts := Sort(LineOrder, MovedOf(Entries(reps), prev));
    var gone := GoneLines(SortedGone(StatusMap(Entries(reps)), prev));
    assert forall l :: l in gone ==> l.Gone?;
    forall t
      ensures Moved(t) in MovedLines(ts) <==> t in ts
    {
      if t in ts {
        var i :| 0 <= i < |ts| && ts[i] == t;
        assert MovedLines(ts)[i] == Moved(t);
      }
    }
  }

  /** No report has a finding under the key any more, and what it was is not OK. */
  ghost predicate Disappeared(reps: seq<Report>, prev: map<string, Status>, key: string) {
    && key in prev && prev[key] != OK
    && forall cluster, f | Reported(reps, cluster, f) :: KeyText(cluster, f) != key
  }

  /** The remembered statuses have a key for every finding and for nothing else, and under it the
      status of one of the findings with that key. */
  lemma {:induction false} StatusesSay(reps: seq<Report>)
    ensures forall cluster, f :: Reported(reps, cluster, f) ==> KeyText(cluster, f) in StatusMap(Entries(reps))
    ensures forall k :: k in StatusMap(Entries(reps)) ==>
              exists cluster, f :: Reported(reps, cluster, f) && KeyText(cluster, f) == k
                                   && f.status == StatusMap(Entries(reps))[k]
  {
    var es := Entries(reps);
    EntriesAre(reps);
    StatusMapMeaning(es);
    forall cluster, f | Reported(reps, cluster, f)
      ensures KeyText(cluster, f) in StatusMap(es)
    {
      assert Entry(cluster, f) in es && EntryKey(Entry(cluster, f)) == KeyText(cluster, f);
    }
    forall k | k in StatusMap(es)
      ensures exists cluster, f ::
                Reported(reps, cluster, f) && KeyText(cluster, f) == k && f.status == StatusMap(es)[k]
    {
      var e :| e in es && EntryKey(e) == k && e.f.status == StatusMap(es)[k];
      assert Reported(reps, e.cluster, e.f) && KeyText(e.cluster, e.f) == k;
    }
  }

  /** Of findings under one key, the last one is remembered. */
  lemma {:induction false} LastIsRemembered(es: seq<Entry>, i: nat)
    requires i < |es|
    requires forall j :: i < j < |es| ==> KeyText(es[j].cluster, es[j].f) != KeyText(es[i].cluster, es[i].f)
    ensures var key := KeyText(es[i].cluster, es[i].f);
            key in StatusMap(es) && StatusMap(es)[key] == es[i].f.status
  {
    var n := |es| - 1;
    assert EntryKey(es[i]) == KeyText(es[i].cluster, es[i].f) && EntryKey(es[n]) == KeyText(es[n].cluster, es[n].f);
    if i < n {
      forall j | i < j < n
        ensures KeyText(es[..n][j].cluster, es[..n][j].f) != KeyText(es[..n][i].cluster, es[..n][i].f)
      {
        assert es[..n][j] == es[j];
      }
      LastIsRemembered(es[..n], i);
    }
  }

  lemma {:induction false} GoneKeysAre(reps: seq<Report>, prev: map<string, Status>)
    ensures forall k :: k in GoneKeys(StatusMap(Entries(reps)), prev) <==> Disappeared(reps, prev, k)
  {
    StatusesSay(reps);
    forall k | k in StatusMap(Entries(reps))
      ensures exists cluster, f :: Reported(reps, cluster, f) && KeyText(cluster, f) == k
    {
      var cluster, f :| Reported(reps, cluster, f) && KeyText(cluster, f) == k
                        && f.status == StatusMap(Entries(reps))[k];
    }
  }

  /** The text a status is printed as. */
  ghost predicate Prints(s: Status, text: string) {
    || (s == OK && text == "OK") || (s == WARN && text == "WARN") || (s == BAD && text == "BAD")
    || (s == ERROR && text == "ERROR") || s == Other(text)
  }

  /** The record of a key that disappeared: the key, a tab, and the status it had. */
  ghost predicate GoneRecordOf(reps: seq<Report>, prev: map<string, Status>, record: string) {
    exists key, text :: Disappeared(reps, prev, key) && Prints(prev[key], text) && record == key + "\t" + text
  }

  /** The gone lines are exactly the records of the keys that disappeared, cut at their first tab. */
  lemma GoneLinesSay(reps: seq<Report>, prev: map<string, Status>)
    ensures forall k, text :: Gone(k, text) in ChangedLines(reps, prev) <==>
              '\t' !in k && GoneRecordOf(reps, prev, k + "\t" + text)
  {
    GoneKeysAre(reps, prev);
    forall k, text
      ensures Gone(k, text) in ChangedLines(reps, prev) <==> '\t' !in k && GoneRecordOf(reps, prev, k + "\t" + text)
    {
      if Gone(k, text) in ChangedLines(reps, prev) {
        GoneOf(reps, prev, k, text);
      }
      if '\t' !in k && GoneRecordOf(reps, prev, k + "\t" + text) {
        GonePrinted(reps, prev, k, text);
      }
    }
  }

  lemma GonePrinted(reps: seq<Report>, prev: map<string, Status>, k: string, text: string)
    requires '\t' !in k && GoneRecordOf(reps, prev, k + "\t" + text)
    ensures Gone(k, text) in ChangedLines(reps, prev)
  {
    var here := StatusMap(Entries(reps));
    var key, was :| Disappeared(reps, prev, key) && Prints(prev[key], was) && k + "\t" + text == key + "\t" + was;
    GoneKeysAre(reps, prev);
    RecordKept(here, prev, key, was);
    RecordPrinted(SortedGone(here, prev), k, text);
  }

  lemma RecordKept(here: map<string, Status>, prev: map<string, Status>, key: string, was: string)
    requires key in GoneKeys(here, prev) && Prints(prev[key], was)
    ensures key + "\t" + was in SortedGone(here, prev)
  {
    SortedRecords(here, prev);
    assert GoneRecord(key, prev[key]) == key + "\t" + was;
  }

  lemma RecordPrinted(gone: seq<string>, k: string, text: string)
    requires '\t' !in k && k + "\t" + text in gone
    ensures Gone(k, text) in GoneLines(gone)
  {
    CutBefore(k, text);
    LineInPlace(gone, k + "\t" + text);
  }

  lemma GoneOf(reps: seq<Report>, prev: map<string, Status>, k: string, text: string)
    requires Gone(k, text) in ChangedLines(reps, prev)
    ensures '\t' !in k && GoneRecordOf(reps, prev, k + "\t" + text)
  {
    var here := StatusMap(Entries(reps));
    var gone := SortedGone(here, prev);
    SortedRecords(here, prev);
    GoneKeysAre(reps, prev);
    var i :| 0 <= i < |gone| && GoneLines(gone)[i] == Gone(k, text);
    assert gone[i] in gone;
    var key :| key in GoneKeys(here, prev) && gone[i] == GoneRecord(key, prev[key]);
    CutJoins(gone[i], |key|);
    assert Prints(prev[key], Text(prev[key]));
  }

  lemma {:induction false} CutBefore(k: string, rest: string)
    requires '\t' !in k
    ensures Cut(k + "\t" + rest) == (k, rest)
  {
    var s := k + "\t" + rest;
    if k == "" {
      assert s[1..] == rest;
    } else {
      assert s[0] == k[0] && s[1..] == k[1..] + "\t" + rest;
      CutBefore(k[1..], rest);
      assert k == [k[0]] + k[1..];
    }
  }

  lemma {:induction false} CutJoins(s: string, i: nat)
    requires i < |s| && s[i] == '\t'
    ensures Cut(s).0 + "\t" + Cut(s).1 == s && '\t' !in Cut(s).0
  {
    if s[0] != '\t' {
      CutJoins(s[1..], i - 1);
      assert s == [s[0]] + s[1..];
    } else {
      assert s == "" + "\t" + s[1..];
    }
  }

  // ----- the order of the lines

  /** Findings are compared report by report, in the order of each report: these equations leave
      one sequence for any reports. */
  lemma {:induction false} EntriesInOrder(a: seq<Report>, b: seq<Report>, rep: Report)
    ensures Entries(a + b) == Entries(a) + Entries(b)
    ensures Entries([rep]) == EntriesOf(rep.cluster, rep.findings)
  {
    EntriesJoin(a, b);
    assert [rep][..0] == [];
  }

  lemma {:induction false} EntriesJoin(a: seq<Report>, b: seq<Report>)
    ensures Entries(a + b) == Entries(a) + Entries(b)
  {
    if b == [] {
      assert a + b == a;
    } else {
      var init, last := b[..|b| - 1], b[|b| - 1];
      EntriesJoin(a, init);
      EntriesSnoc(a + init, last);
      EntriesSnoc(init, last);
      Associate(a, init, [last]);
      InitLast(b);
      Associate(Entries(a), Entries(init), EntriesOf(last.cluster, last.findings));
    }
  }

  lemma {:induction false} EntriesSnoc(reps: seq<Report>, rep: Report)
    ensures Entries(reps + [rep]) == Entries(reps) + EntriesOf(rep.cluster, rep.findings)
  {
    assert (reps + [rep])[..|reps|] == reps;
  }

  lemma {:induction false} FindingsInOrder(cluster: string, fs: seq<Finding>, gs: seq<Finding>)
    ensures EntriesOf(cluster, fs + gs) == EntriesOf(cluster, fs) + EntriesOf(cluster, gs)
  {
    if gs == [] {
      assert fs + gs == fs;
    } else {
      var init, last := gs[..|gs| - 1], gs[|gs| - 1];
      FindingsInOrder(cluster, fs, init);
      FindingsSnoc(cluster, fs + init, last);
      FindingsSnoc(cluster, init, last);
      Associate(fs, init, [last]);
      InitLast(gs);
      Associate(EntriesOf(cluster, fs), EntriesOf(cluster, init), OneEntry(cluster, last));
    }
  }

  lemma {:induction false} FindingsSnoc(cluster: string, fs: seq<Finding>, f: Finding)
    ensures EntriesOf(cluster, fs + [f]) == EntriesOf(cluster, fs) + OneEntry(cluster, f)
  {
    assert (fs + [f])[..|fs|] == fs;
  }

  /** The summary is not compared; everything else is. */
  function OneEntry(cluster: string, f: Finding): seq<Entry> {
    if f.check == "audit/changes" then [] else [Entry(cluster, f)]
  }

  lemma {:induction false} OneFinding(cluster: string, f: Finding)
    ensures EntriesOf(cluster, [f]) == OneEntry(cluster, f)
  {
    FindingsSnoc(cluster, [], f);
    assert [] + [f] == [f];
  }

  /** The first line may stand before the second: moved lines come first, worst first, then by
      check; gone ones are ordered as "key, tab, status". */
  ghost predicate LineBefore(l: Line, m: Line) {
    match l
    case Moved(t) => m.Moved? ==> PrintedBefore(t.entry.f, m.t.entry.f)
    case Gone(key, before) => m.Gone? && AtMost(key + "\t" + before, m.key + "\t" + m.before)
  }

  ghost predicate LinesOrdered(lines: seq<Line>) {
    forall i: nat, j: nat | i < j < |lines| :: LineBefore(lines[i], lines[j])
  }

  lemma LinesInOrder(reps: seq<Report>, prev: map<string, Status>)
    ensures LinesOrdered(ChangedLines(reps, prev))
  {
    var moved := MovedOf(Entries(reps), prev);
    forall i: nat, j: nat | i < j < |MovedLines(Sort(LineOrder, moved))|
      ensures LineBefore(MovedLines(Sort(LineOrder, moved))[i], MovedLines(Sort(LineOrder, moved))[j])
    {
      MovedInOrder(moved, i, j);
    }
    forall i: nat, j: nat | i < j < |GoneLines(SortedGone(StatusMap(Entries(reps)), prev))|
      ensures LineBefore(GoneLines(SortedGone(StatusMap(Entries(reps)), prev))[i],
                         GoneLines(SortedGone(StatusMap(Entries(reps)), prev))[j])
    {
      GoneInOrder(StatusMap(Entries(reps)), prev, i, j);
    }
    MovedFirst(MovedLines(Sort(LineOrder, moved)), GoneLines(SortedGone(StatusMap(Entries(reps)), prev)));
  }

  lemma MovedFirst(moved: seq<Line>, gone: seq<Line>)
    requires LinesOrdered(moved) && LinesOrdered(gone)
    requires (forall l | l in moved :: l.Moved?) && (forall l | l in gone :: l.Gone?)
    ensures LinesOrdered(moved + gone)
  {
    var lines := moved + gone;
    forall i: nat, j: nat | i < j < |lines|
      ensures LineBefore(lines[i], lines[j])
    {
      if i < |moved| <= j {
        assert lines[i] in moved && lines[j] in gone;
      }
    }
  }

  lemma {:induction false} MovedInOrder(moved: seq<Transition>, i: nat, j: nat)
    requires i < j < |Sort(LineOrder, moved)|
    ensures PrintedBefore(Sort(LineOrder, moved)[i].entry.f, Sort(LineOrder, moved)[j].entry.f)
  {
    LineOrderTotal();
    SortIsStable(LineOrder, moved);
    assert LineOrder(Sort(LineOrder, moved)[i], Sort(LineOrder, moved)[j]);
  }

  ghost predicate PrintedBefore(f: Finding, g: Finding) {
    NoWorse(g.status, f.status) && (f.status == g.status ==> AtMost(f.check, g.check))
  }

  lemma GoneInOrder(here: map<string, Status>, prev: map<string, Status>, i: nat, j: nat)
    requires i < j < |SortedGone(here, prev)|
    ensures LineBefore(GoneLines(SortedGone(here, prev))[i], GoneLines(SortedGone(here, prev))[j])
  {
    var gone := SortedGone(here, prev);
    StringOrder();
    SortIsStable(AtMost, Records(Listing(GoneKeys(here, prev)), prev));
    SortedRecords(here, prev);
    forall r | r in gone
      ensures Cut(r).0 + "\t" + Cut(r).1 == r
    {
      var k :| k in GoneKeys(here, prev) && r == GoneRecord(k, prev[k]);
      CutJoins(r, |k|);
    }
    assert gone[i] in gone && gone[j] in gone;
  }

  /** Before they are sorted, the moved lines follow the entries one by one. */
  lemma {:induction false} MovedInReportOrder(es: seq<Entry>, fs: seq<Entry>, prev: map<string, Status>)
    ensures MovedOf(es + fs, prev) == MovedOf(es, prev) + MovedOf(fs, prev)
  {
    if fs == [] {
      assert es + fs == es;
    } else {
      var init, last := fs[..|fs| - 1], fs[|fs| - 1];
      MovedInReportOrder(es, init, prev);
      MovedSnoc(es + init, last, prev);
      MovedSnoc(init, last, prev);
      Associate(es, init, [last]);
      InitLast(fs);
      if !Unmoved(last, prev) {
        Associate(MovedOf(es, prev), MovedOf(init, prev), [TransitionOf(last, prev)]);
      }
    }
  }

  /** Findings of one severity and check are printed in report order. */
  lemma {:induction false} TiesInReportOrder(reps: seq<Report>, prev: map<string, Status>, t: Transition)
    ensures Class(LineOrder, t, Sort(LineOrder, MovedOf(Entries(reps), prev)))
         == Class(LineOrder, t, MovedOf(Entries(reps), prev))
  {
    LineOrderTotal();
    SortIsStable(LineOrder, MovedOf(Entries(reps), prev));
  }

  // ----- whole sessions

  ghost function TickLines(ticks: seq<seq<Report>>, i: nat): seq<Line>
    requires 0 < i < |ticks|
  {
    ChangedLines(ticks[i], StatusMap(Entries(ticks[i - 1])))
  }

  lemma {:induction false} LogAt(ticks: seq<seq<Report>>)
    requires ticks != []
    ensures |WatchLog(ticks)| == |ticks| - 1
    ensures forall i: nat | 0 < i < |ticks| :: WatchLog(ticks)[i - 1] == TickLines(ticks, i)
  {
    if |ticks| > 1 {
      LogAt(ticks[..|ticks| - 1]);
      LogUnfolds(ticks);
      LogNext(ticks, ticks[..|ticks| - 1], WatchLog(ticks[..|ticks| - 1]));
    }
  }

  lemma LogNext(ticks: seq<seq<Report>>, init: seq<seq<Report>>, log: seq<seq<Line>>)
    requires |ticks| > 1 && |log| == |ticks| - 2 && init == ticks[..|ticks| - 1]
    requires forall i: nat | 0 < i < |init| :: log[i - 1] == TickLines(init, i)
    ensures forall i: nat | 0 < i < |ticks| :: (log + [TickLines(ticks, |ticks| - 1)])[i - 1] == TickLines(ticks, i)
  {
    forall i: nat | 0 < i < |ticks| - 1
      ensures TickLines(init, i) == TickLines(ticks, i)
    {
      TickLinesPrefix(ticks, |ticks| - 1, i);
    }
  }

  lemma {:induction false} LogUnfolds(ticks: seq<seq<Report>>)
    requires |ticks| >= 2
    ensures WatchLog(ticks) == WatchLog(ticks[..|ticks| - 1]) + [TickLines(ticks, |ticks| - 1)]
  {
  }

  lemma TickLinesPrefix(ticks: seq<seq<Report>>, n: nat, i: nat)
    requires 0 < i < n <= |ticks|
    ensures TickLines(ticks[..n], i) == TickLines(ticks, i)
  {
    assert ticks[..n][i] == ticks[i] && ticks[..n][i - 1] == ticks[i - 1];
  }

  /** In a faithful log every moved line says what the replay up to then says of its key; a new
      one is new to the replay, or reads OK there. */
  lemma LogSaysBefore(ticks: seq<seq<Report>>, i: nat, t: Transition)
    requires 0 < i < |ticks| && FaithfulAfter(ticks, i) && Moved(t) in TickLines(ticks, i)
    ensures var replay := ReplayLog(StatusMap(Entries(ticks[0])), WatchLog(ticks[..i]));
            var k := KeyText(t.entry.cluster, t.entry.f);
            && t.before != Some(t.entry.f.status)
            && (t.before.Some? ==> k in replay && replay[k] == t.before.value)
            && (t.before.None? ==> k !in replay || replay[k] == OK)
  {
    MovedLinesSay(ticks[i], StatusMap(Entries(ticks[i - 1])));
  }
}
