/** What the watch log is worth: replaying the printed transitions onto the first tick's
    statuses reproduces the current ones, over any number of ticks. */
module Replay {
  import opened Strings
  import opened Sorting
  import opened Findings
  import opened State
  import opened Changes
  import opened Watch

  /** Reading one printed line: a finding has a new status, or is no longer reported. */
  function Apply(m: map<string, Status>, line: Line): map<string, Status> {
    match line
    case Moved(t) => m[EntryKey(t.entry) := t.entry.f.status]
    case Gone(key, _) => m - {key}
  }

  function Replayed(m: map<string, Status>, lines: seq<Line>): map<string, Status>
    decreases |lines|
  {
    if lines == [] then m else Replayed(Apply(m, lines[0]), lines[1..])
  }

  /** The replay agrees with the current statuses; whatever else it still holds reads OK. */
  ghost predicate Tracks(replay: map<string, Status>, current: map<string, Status>) {
    && (forall k :: k in current ==> k in replay && replay[k] == current[k])
    && (forall k :: k in replay && k !in current ==> replay[k] == OK)
  }

  /** Within one tick, entries under one key carry one status. */
  ghost predicate Consistent(es: seq<Entry>) {
    forall e, f :: e in es && f in es && EntryKey(e) == EntryKey(f) ==> e.f.status == f.f.status
  }

  /** The keys that stop being reported hold no tab, the separator of the printed record. */
  ghost predicate TabFreeGone(reps: seq<Report>, prev: map<string, Status>) {
    forall k :: k in GoneKeys(StatusMap(Entries(reps)), prev) ==> '\t' !in k
  }

  // ----- what the pieces mean

  lemma {:induction false} StatusMapMeaning(es: seq<Entry>)
    ensures forall e :: e in es ==> EntryKey(e) in StatusMap(es)
    ensures forall k :: k in StatusMap(es) ==> exists e :: e in es && EntryKey(e) == k && e.f.status == StatusMap(es)[k]
  {
    if es != [] {
      var init, last := es[..|es| - 1], es[|es| - 1];
      StatusMapMeaning(init);
      assert es == init + [last];
      forall k | k in StatusMap(es)
        ensures exists e :: e in es && EntryKey(e) == k && e.f.status == StatusMap(es)[k]
      {
        if k == EntryKey(last) {
          assert last in es;
        } else {
          var e :| e in init && EntryKey(e) == k && e.f.status == StatusMap(init)[k];
          assert e in es;
        }
      }
    }
  }

  lemma {:induction false} ConsistentStatus(es: seq<Entry>, e: Entry)
    requires Consistent(es) && e in es
    ensures EntryKey(e) in StatusMap(es) && StatusMap(es)[EntryKey(e)] == e.f.status
  {
    StatusMapMeaning(es);
  }

  lemma {:induction false} MovedMeaning(es: seq<Entry>, prev: map<string, Status>)
    ensures forall t :: t in MovedOf(es, prev) ==>
              t.entry in es && !Unmoved(t.entry, prev) && t == TransitionOf(t.entry, prev)
    ensures forall e :: e in es && !Unmoved(e, prev) ==> TransitionOf(e, prev) in MovedOf(es, prev)
  {
    if es != [] {
      var init, last := es[..|es| - 1], es[|es| - 1];
      MovedMeaning(init, prev);
      assert es == init + [last];
    }
  }

  lemma {:induction false} CutFindsTab(k: string, rest: string)
    ensures '\t' !in Cut(k + "\t" + rest).0
    ensures '\t' !in k ==> Cut(k + "\t" + rest) == (k, rest)
  {
    var s := k + "\t" + rest;
    if k == "" {
      assert s[1..] == rest;
    } else {
      assert s[1..] == k[1..] + "\t" + rest;
      CutFindsTab(k[1..], rest);
      assert k == [k[0]] + k[1..];
    }
  }

  lemma {:induction false} RecordsMeaning(keys: seq<string>, prev: map<string, Status>)
    requires forall k :: k in keys ==> k in prev
    ensures forall k :: k in keys ==> GoneRecord(k, prev[k]) in Records(keys, prev)
    ensures forall r :: r in Records(keys, prev) ==> exists k :: k in keys && r == GoneRecord(k, prev[k])
    decreases |keys|
  {
    if keys != [] {
      var init, last := keys[..|keys| - 1], keys[|keys| - 1];
      assert keys == init + [last];
      RecordsMeaning(init, prev);
      forall r | r in Records(keys, prev)
        ensures exists k :: k in keys && r == GoneRecord(k, prev[k])
      {
        if r in Records(init, prev) {
          var k :| k in init && r == GoneRecord(k, prev[k]);
          assert k in keys;
        } else {
          assert last in keys;
        }
      }
    }
  }

  lemma RecordLine(k: string, before: Status)
    ensures '\t' !in k ==> GoneLine(GoneRecord(k, before)) == Gone(k, Text(before))
    ensures '\t' !in GoneLine(GoneRecord(k, before)).key
  {
    CutFindsTab(k, Text(before));
  }

  /** The sorted records are the records of the gone keys. */
  lemma SortedRecords(here: map<string, Status>, prev: map<string, Status>)
    ensures forall k :: k in GoneKeys(here, prev) ==> GoneRecord(k, prev[k]) in SortedGone(here, prev)
    ensures forall r :: r in SortedGone(here, prev) ==>
              exists k :: k in GoneKeys(here, prev) && r == GoneRecord(k, prev[k])
  {
    var keys := Listing(GoneKeys(here, prev));
    RecordsMeaning(keys, prev);
    SortContents(AtMost, Records(keys, prev));
  }

  /** Which keys the printed "gone" lines name. */
  lemma GoneLinesMeaning(here: map<string, Status>, prev: map<string, Status>)
    ensures forall k :: k in GoneKeys(here, prev) && '\t' !in k ==>
              Gone(k, Text(prev[k])) in GoneLines(SortedGone(here, prev))
    ensures forall l :: l in GoneLines(SortedGone(here, prev)) ==>
              l.Gone? && '\t' !in l.key
    ensures (forall k :: k in GoneKeys(here, prev) ==> '\t' !in k) ==>
              forall l :: l in GoneLines(SortedGone(here, prev)) ==> l.key in GoneKeys(here, prev)
  {
    SortedRecords(here, prev);
    var sorted := SortedGone(here, prev);
    forall k | k in GoneKeys(here, prev) && '\t' !in k
      ensures Gone(k, Text(prev[k])) in GoneLines(sorted)
    {
      RecordLine(k, prev[k]);
      LineInPlace(sorted, GoneRecord(k, prev[k]));
    }
    forall l | l in GoneLines(sorted)
      ensures l.Gone? && '\t' !in l.key
      ensures (forall k :: k in GoneKeys(here, prev) ==> '\t' !in k) ==> l.key in GoneKeys(here, prev)
    {
      var i :| 0 <= i < |sorted| && GoneLines(sorted)[i] == l;
      assert sorted[i] in sorted;
      var k :| k in GoneKeys(here, prev) && sorted[i] == GoneRecord(k, prev[k]);
      RecordLine(k, prev[k]);
    }
  }

  lemma LineInPlace(records: seq<string>, r: string)
    requires r in records
    ensures GoneLine(r) in GoneLines(records)
  {
    var i :| 0 <= i < |records| && records[i] == r;
    assert GoneLines(records)[i] == GoneLine(r);
  }

  // ----- replaying lines

  lemma {:induction false} ReplayAppend(m: map<string, Status>, a: seq<Line>, b: seq<Line>)
    ensures Replayed(m, a + b) == Replayed(Replayed(m, a), b)
    decreases |a|
  {
    if a == [] {
      assert a + b == b;
    } else {
      assert (a + b)[1..] == a[1..] + b;
      ReplayAppend(Apply(m, a[0]), a[1..], b);
    }
  }

  /** Transitions of entries that agree with `current`: their keys now read as in `current`. */
  lemma {:induction false} ReplayMoved(m: map<string, Status>, ts: seq<Transition>, current: map<string, Status>)
    requires forall t :: t in ts ==> EntryKey(t.entry) in current && current[EntryKey(t.entry)] == t.entry.f.status
    ensures forall k :: (exists t :: t in ts && EntryKey(t.entry) == k) ==>
              k in Replayed(m, MovedLines(ts)) && Replayed(m, MovedLines(ts))[k] == current[k]
    ensures forall k :: !(exists t :: t in ts && EntryKey(t.entry) == k) ==>
              (k in Replayed(m, MovedLines(ts)) <==> k in m) && (k in m ==> Replayed(m, MovedLines(ts))[k] == m[k])
    decreases |ts|
  {
    if ts != [] {
      var m1 := Apply(m, MovedLines(ts)[0]);
      assert MovedLines(ts)[1..] == MovedLines(ts[1..]);
      ReplayMoved(m1, ts[1..], current);
      var r := Replayed(m, MovedLines(ts));
      assert r == Replayed(m1, MovedLines(ts[1..]));
      var k0 := EntryKey(ts[0].entry);
      assert ts[0] in ts;
      assert forall t :: t in ts <==> t == ts[0] || t in ts[1..];
      assert k0 in r && r[k0] == current[k0];
    }
  }

  lemma {:induction false} ReplayGone(m: map<string, Status>, lines: seq<Line>)
    requires forall l :: l in lines ==> l.Gone?
    ensures forall k :: k in Replayed(m, lines) <==> k in m && !(exists l :: l in lines && l.key == k)
    ensures forall k :: k in Replayed(m, lines) ==> k in m && Replayed(m, lines)[k] == m[k]
    decreases |lines|
  {
    if lines != [] {
      ReplayGone(Apply(m, lines[0]), lines[1..]);
      assert forall l :: l in lines <==> l == lines[0] || l in lines[1..];
      assert lines[0] in lines;
    }
  }

  lemma {:induction false} SortedMovedSame(es: seq<Entry>, prev: map<string, Status>)
    ensures forall t :: t in Sort(LineOrder, MovedOf(es, prev)) <==> t in MovedOf(es, prev)
  {
    SortContents(LineOrder, MovedOf(es, prev));
  }

  /** Where the replay stands after the moved lines of a consistent tick. */
  lemma {:induction false} ReplayAfterMoved(es: seq<Entry>, replay: map<string, Status>, prev: map<string, Status>)
    requires Consistent(es) && Tracks(replay, prev)
    ensures var current, mid := StatusMap(es), Replayed(replay, MovedLines(Sort(LineOrder, MovedOf(es, prev))));
            && (forall k :: k in current ==> k in mid && mid[k] == current[k])
            && (forall k :: k !in current ==> (k in mid <==> k in replay))
            && (forall k :: k !in current && k in replay ==> mid[k] == replay[k])
  {
    var current := StatusMap(es);
    var ts := Sort(LineOrder, MovedOf(es, prev));
    StatusMapMeaning(es);
    MovedMeaning(es, prev);
    SortedMovedSame(es, prev);
    forall t | t in ts
      ensures EntryKey(t.entry) in current && current[EntryKey(t.entry)] == t.entry.f.status
    {
      ConsistentStatus(es, t.entry);
    }
    ReplayMoved(replay, ts, current);
    forall k | k in current
      ensures k in Replayed(replay, MovedLines(ts)) && Replayed(replay, MovedLines(ts))[k] == current[k]
    {
      var e :| e in es && EntryKey(e) == k && e.f.status == current[k];
      if !Unmoved(e, prev) {
        assert TransitionOf(e, prev) in ts && EntryKey(TransitionOf(e, prev).entry) == k;
      }
    }
  }

  /** One tick: with consistent keys the log stays faithful exactly when no key that
      disappears holds a tab. */
  lemma {:induction false} TickFaithfulIff(reps: seq<Report>, replay: map<string, Status>, prev: map<string, Status>)
    requires Consistent(Entries(reps)) && Tracks(replay, prev)
    ensures Tracks(Replayed(replay, ChangedLines(reps, prev)), StatusMap(Entries(reps))) <==> TabFreeGone(reps, prev)
  {
    var es := Entries(reps);
    var current := StatusMap(es);
    var movedLines := MovedLines(Sort(LineOrder, MovedOf(es, prev)));
    var goneLines := GoneLines(SortedGone(current, prev));
    var mid := Replayed(replay, movedLines);
    ReplayAppend(replay, movedLines, goneLines);
    ReplayAfterMoved(es, replay, prev);
    GoneLinesMeaning(current, prev);
    ReplayGone(mid, goneLines);
    if TabFreeGone(reps, prev) {
      GoneRemoved(current, replay, mid, prev, goneLines);
    } else {
      var k :| k in GoneKeys(current, prev) && '\t' in k;
      assert k in Replayed(mid, goneLines) && Replayed(mid, goneLines)[k] == prev[k];
    }
  }

  lemma {:induction false} GoneRemoved(current: map<string, Status>, replay: map<string, Status>,
                                       mid: map<string, Status>, prev: map<string, Status>, lines: seq<Line>)
    requires Tracks(replay, prev)
    requires forall k :: k in current ==> k in mid && mid[k] == current[k]
    requires forall k :: k in mid && k !in current ==> k in replay && mid[k] == replay[k]
    requires forall l :: l in lines ==> l.Gone? && l.key in GoneKeys(current, prev)
    requires forall k :: k in GoneKeys(current, prev) ==> Gone(k, Text(prev[k])) in lines
    ensures Tracks(Replayed(mid, lines), current)
  {
    ReplayGone(mid, lines);
  }

  // ----- why keys have to be consistent

  /** The last line that names k decides what the replay says about k. */
  lemma {:induction false} ReplayLast(m: map<string, Status>, ts: seq<Transition>, k: string)
    ensures (exists t :: t in ts && EntryKey(t.entry) == k) ==>
              k in Replayed(m, MovedLines(ts))
              && exists t :: t in ts && EntryKey(t.entry) == k && Replayed(m, MovedLines(ts))[k] == t.entry.f.status
    decreases |ts|
  {
    if ts != [] {
      var m1 := Apply(m, MovedLines(ts)[0]);
      assert MovedLines(ts)[1..] == MovedLines(ts[1..]);
      ReplayLast(m1, ts[1..], k);
      assert forall t :: t in ts <==> t == ts[0] || t in ts[1..];
      if !(exists t :: t in ts[1..] && EntryKey(t.entry) == k) {
        ReplayOthers(m1, ts[1..], k);
        assert ts[0] in ts;
      } else {
        var t :| t in ts[1..] && EntryKey(t.entry) == k && Replayed(m1, MovedLines(ts[1..]))[k] == t.entry.f.status;
        assert t in ts;
      }
    }
  }

  lemma {:induction false} ReplayOthers(m: map<string, Status>, ts: seq<Transition>, k: string)
    requires !(exists t :: t in ts && EntryKey(t.entry) == k)
    ensures k in m <==> k in Replayed(m, MovedLines(ts))
    ensures k in m ==> Replayed(m, MovedLines(ts))[k] == m[k]
    decreases |ts|
  {
    if ts != [] {
      assert ts[0] in ts;
      assert MovedLines(ts)[1..] == MovedLines(ts[1..]);
      assert forall t :: t in ts[1..] ==> t in ts;
      ReplayOthers(Apply(m, MovedLines(ts)[0]), ts[1..], k);
    }
  }

  /** The tick is faithful from every previous tick if and only if its keys are consistent. */
  lemma {:induction false} ConsistencyNeededIff(reps: seq<Report>)
    ensures (forall replay, prev :: Tracks(replay, prev) && TabFreeGone(reps, prev) ==>
               Tracks(Replayed(replay, ChangedLines(reps, prev)), StatusMap(Entries(reps))))
       <==> Consistent(Entries(reps))
  {
    if Consistent(Entries(reps)) {
      forall replay, prev | Tracks(replay, prev) && TabFreeGone(reps, prev)
        ensures Tracks(Replayed(replay, ChangedLines(reps, prev)), StatusMap(Entries(reps)))
      {
        TickFaithfulIff(reps, replay, prev);
      }
    } else {
      var e, f :| e in Entries(reps) && f in Entries(reps) && EntryKey(e) == EntryKey(f) && e.f.status != f.f.status;
      var k := EntryKey(e);
      StatusMapMeaning(Entries(reps));
      var odd := if StatusMap(Entries(reps))[k] == e.f.status then f else e;
      InconsistentUnfaithful(reps, odd);
    }
  }

  lemma {:induction false} InconsistentUnfaithful(reps: seq<Report>, odd: Entry)
    requires odd in Entries(reps)
    requires EntryKey(odd) in StatusMap(Entries(reps)) && StatusMap(Entries(reps))[EntryKey(odd)] != odd.f.status
    ensures var k := EntryKey(odd);
            var prev := map[k := StatusMap(Entries(reps))[k]];
            && Tracks(prev, prev) && TabFreeGone(reps, prev)
            && !Tracks(Replayed(prev, ChangedLines(reps, prev)), StatusMap(Entries(reps)))
            && ChangedLines(reps, prev) != []
  {
    var es := Entries(reps);
    var current := StatusMap(es);
    var k := EntryKey(odd);
    var prev := map[k := current[k]];
    var ts := Sort(LineOrder, MovedOf(es, prev));
    assert GoneKeys(current, prev) == {};
    assert Listing({}) == [] && SortStrings([]) == [];
    assert GoneLines(SortedGone(current, prev)) == [];
    assert ChangedLines(reps, prev) == MovedLines(ts);
    MovedMeaning(es, prev);
    SortedMovedSame(es, prev);
    var t0 := TransitionOf(odd, prev);
    assert t0 in ts && EntryKey(t0.entry) == k;
    ReplayLast(prev, ts, k);
    var t :| t in ts && EntryKey(t.entry) == k && Replayed(prev, MovedLines(ts))[k] == t.entry.f.status;
    assert !Unmoved(t.entry, prev);
  }

  /** A tick with the statuses of the tick before prints nothing, if and only if its keys
      are consistent. */
  lemma {:induction false} SilentIff(reps: seq<Report>)
    ensures ChangedLines(reps, StatusMap(Entries(reps))) == [] <==> Consistent(Entries(reps))
  {
    var es := Entries(reps);
    var current := StatusMap(es);
    var ms := MovedOf(es, current);
    MovedMeaning(es, current);
    SortContents(LineOrder, ms);
    assert GoneKeys(current, current) == {};
    assert GoneLines(SortedGone(current, current)) == [];
    if Consistent(es) {
      forall e | e in es
        ensures Unmoved(e, current)
      {
        ConsistentStatus(es, e);
      }
      HeadMember(ms);
    } else {
      var e, f :| e in es && f in es && EntryKey(e) == EntryKey(f) && e.f.status != f.f.status;
      assert TransitionOf(e, current) in ms || TransitionOf(f, current) in ms;
      assert |Sort(LineOrder, ms)| > 0;
    }
  }

  lemma HeadMember(ts: seq<Transition>)
    ensures ts != [] ==> ts[0] in ts
  {
  }

  // ----- the whole run

  /** What a watch loop prints after its first, full report: one list of lines per tick. */
  ghost function WatchLog(ticks: seq<seq<Report>>): seq<seq<Line>> {
    if |ticks| < 2 then []
    else WatchLog(ticks[..|ticks| - 1])
         + [ChangedLines(ticks[|ticks| - 1], StatusMap(Entries(ticks[|ticks| - 2])))]
  }

  ghost function ReplayLog(m: map<string, Status>, log: seq<seq<Line>>): map<string, Status> {
    if log == [] then m else Replayed(ReplayLog(m, log[..|log| - 1]), log[|log| - 1])
  }

  /** After the first n ticks, the first report plus the log is the current state: the same
      statuses for everything reported, and nothing but OK beside it. */
  ghost predicate FaithfulAfter(ticks: seq<seq<Report>>, n: nat)
    requires 0 < n <= |ticks|
  {
    Tracks(ReplayLog(StatusMap(Entries(ticks[0])), WatchLog(ticks[..n])), StatusMap(Entries(ticks[n - 1])))
  }

  ghost predicate FaithfulThroughout(ticks: seq<seq<Report>>) {
    forall n: nat | 0 < n <= |ticks| :: FaithfulAfter(ticks, n)
  }

  /** The keys that stop being reported at tick i hold no tab. */
  ghost predicate TabFreeStep(ticks: seq<seq<Report>>, i: nat)
    requires 0 < i < |ticks|
  {
    TabFreeGone(ticks[i], StatusMap(Entries(ticks[i - 1])))
  }

  ghost predicate ConsistentAfterFirst(ticks: seq<seq<Report>>) {
    forall i | 0 < i < |ticks| :: Consistent(Entries(ticks[i]))
  }

  /** The log stays faithful over one more tick exactly when no key that disappears then holds
      a tab. */
  lemma FaithfulStepIff(ticks: seq<seq<Report>>, i: nat)
    requires 0 < i < |ticks| && Consistent(Entries(ticks[i])) && FaithfulAfter(ticks, i)
    ensures FaithfulAfter(ticks, i + 1) <==> TabFreeStep(ticks, i)
  {
    var first, prev := StatusMap(Entries(ticks[0])), StatusMap(Entries(ticks[i - 1]));
    var log, lines := WatchLog(ticks[..i]), ChangedLines(ticks[i], prev);
    assert ticks[..i + 1][..i] == ticks[..i];
    assert WatchLog(ticks[..i + 1]) == log + [lines];
    assert (log + [lines])[..|log|] == log;
    TickFaithfulIff(ticks[i], ReplayLog(first, log), prev);
  }

  /** For any number of ticks, consistent after the first: the replay of the log tracks the
      statuses after every tick exactly when no key that disappears on the way holds a tab. */
  lemma WatchLogFaithfulIff(ticks: seq<seq<Report>>)
    requires ConsistentAfterFirst(ticks)
    ensures FaithfulThroughout(ticks) <==> forall i: nat | 0 < i < |ticks| :: TabFreeStep(ticks, i)
  {
    if forall i: nat | 0 < i < |ticks| :: TabFreeStep(ticks, i) {
      forall n: nat | 0 < n <= |ticks|
        ensures FaithfulAfter(ticks, n)
      {
        FaithfulUpTo(ticks, n);
      }
    }
    if FaithfulThroughout(ticks) {
      forall i: nat | 0 < i < |ticks|
        ensures TabFreeStep(ticks, i)
      {
        assert FaithfulAfter(ticks, i) && FaithfulAfter(ticks, i + 1);
        FaithfulStepIff(ticks, i);
      }
    }
  }

  lemma {:induction false} FaithfulUpTo(ticks: seq<seq<Report>>, n: nat)
    requires 0 < n <= |ticks| && ConsistentAfterFirst(ticks)
    requires forall i: nat | 0 < i < |ticks| :: TabFreeStep(ticks, i)
    ensures FaithfulAfter(ticks, n)
  {
    if n == 1 {
      FaithfulFirst(ticks);
    } else {
      FaithfulUpTo(ticks, n - 1);
      FaithfulStepIff(ticks, n - 1);
    }
  }

  lemma FaithfulFirst(ticks: seq<seq<Report>>)
    requires ticks != []
    ensures FaithfulAfter(ticks, 1)
  {
    assert WatchLog(ticks[..1]) == [];
  }
}
