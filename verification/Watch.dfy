/** internal/output: the full report, the transitions a watch loop prints, and the statuses
    it carries from one tick to the next. */
module Watch {
  import opened Strings
  import opened Sorting
  import opened Findings
  import opened State
  import opened Changes

  /** One cluster's audit. `state` is what the next run's baseline is merged from. */
  datatype Report = Report(cluster: string, nodes: seq<string>, findings: seq<Finding>, state: Baseline)

  /** A finding in the namespace of its cluster. */
  datatype Entry = Entry(cluster: string, f: Finding)

  function EntryKey(e: Entry): string {
    Qualified(e.cluster, FindingKey(e.f))
  }

  /** The findings that are compared: everything but the transition summary, in report order. */
  function EntriesOf(cluster: string, fs: seq<Finding>): seq<Entry> {
    if fs == [] then []
    else
      var before, last := EntriesOf(cluster, fs[..|fs| - 1]), fs[|fs| - 1];
      if last.check == SUMMARY then before else before + [Entry(cluster, last)]
  }

  function Entries(reps: seq<Report>): seq<Entry> {
    if reps == [] then []
    else Entries(reps[..|reps| - 1]) + EntriesOf(reps[|reps| - 1].cluster, reps[|reps| - 1].findings)
  }

  function StatusMap(es: seq<Entry>): map<string, Status> {
    if es == [] then map[]
    else StatusMap(es[..|es| - 1])[EntryKey(es[|es| - 1]) := es[|es| - 1].f.status]
  }

  lemma {:induction false} StatusMapSnoc(es: seq<Entry>, e: Entry)
    ensures StatusMap(es + [e]) == StatusMap(es)[EntryKey(e) := e.f.status]
  {
    assert (es + [e])[..|es|] == es;
  }

  /** One finding more, unless it is the summary. */
  lemma {:induction false} EntriesStep(done: seq<Entry>, cluster: string, fs: seq<Finding>, j: nat)
    requires j < |fs|
    ensures var before := done + EntriesOf(cluster, fs[..j]);
            done + EntriesOf(cluster, fs[..j + 1])
            == if fs[j].check == SUMMARY then before else before + [Entry(cluster, fs[j])]
  {
    assert fs[..j + 1][..j] == fs[..j];
  }

  method Statuses(reps: seq<Report>) returns (out: map<string, Status>)
    ensures out == StatusMap(Entries(reps))
  {
    out := map[];
    for i := 0 to |reps|
      invariant out == StatusMap(Entries(reps[..i]))
    {
      var rep := reps[i];
      ghost var done := Entries(reps[..i]);
      assert done + EntriesOf(rep.cluster, rep.findings[..0]) == done;
      for j := 0 to |rep.findings|
        invariant out == StatusMap(done + EntriesOf(rep.cluster, rep.findings[..j]))
      {
        var f := rep.findings[j];
        EntriesStep(done, rep.cluster, rep.findings, j);
        if f.check == SUMMARY {
          continue;
        }
        var e := Entry(rep.cluster, f);
        StatusMapSnoc(done + EntriesOf(rep.cluster, rep.findings[..j]), e);
        out := out[Qualified(rep.cluster, Key(f.check, f.target)) := f.status];
      }
      assert rep.findings[..|rep.findings|] == rep.findings;
      assert reps[..i + 1][..i] == reps[..i];
    }
    assert reps[..|reps|] == reps;
  }

  // ----- what a tick prints

  /** A finding whose status moved; `before` is None for "new". */
  datatype Transition = Transition(entry: Entry, before: Option<Status>)

  predicate Unmoved(e: Entry, prev: map<string, Status>) {
    EntryKey(e) in prev && prev[EntryKey(e)] == e.f.status
  }

  function TransitionOf(e: Entry, prev: map<string, Status>): Transition {
    Transition(e, if EntryKey(e) in prev then Some(prev[EntryKey(e)]) else None)
  }

  function MovedOf(es: seq<Entry>, prev: map<string, Status>): seq<Transition> {
    if es == [] then []
    else
      var before, last := MovedOf(es[..|es| - 1], prev), es[|es| - 1];
      if Unmoved(last, prev) then before else before + [TransitionOf(last, prev)]
  }

  lemma {:induction false} MovedSnoc(es: seq<Entry>, e: Entry, prev: map<string, Status>)
    ensures MovedOf(es + [e], prev)
         == if Unmoved(e, prev) then MovedOf(es, prev) else MovedOf(es, prev) + [TransitionOf(e, prev)]
  {
    assert (es + [e])[..|es|] == es;
  }

  ghost function GoneKeys(here: map<string, Status>, prev: map<string, Status>): (r: set<string>)
    ensures forall k :: k in r <==> k in prev && k !in here && prev[k] != OK
  {
    set k | k in prev && k !in here && prev[k] != OK
  }

  function Text(s: Status): string {
    match s
    case OK => "OK"
    case WARN => "WARN"
    case BAD => "BAD"
    case ERROR => "ERROR"
    case Other(text) => text
  }

  /** The record a gone finding is sorted by and printed from. */
  function GoneRecord(k: string, before: Status): string {
    k + "\t" + Text(before)
  }

  function Records(keys: seq<string>, prev: map<string, Status>): seq<string> {
    if keys == [] then []
    else Records(keys[..|keys| - 1], prev) + [GoneRecord(keys[|keys| - 1], StatusAt(prev, keys[|keys| - 1]))]
  }

  datatype Line = Moved(t: Transition) | Gone(key: string, before: string)

  /** strings.Cut at the first tab. */
  function Cut(s: string): (string, string) {
    if s == "" then ("", "")
    else if s[0] == '\t' then ("", s[1..])
    else var (key, before) := Cut(s[1..]); ([s[0]] + key, before)
  }

  function GoneLine(record: string): Line {
    Gone(Cut(record).0, Cut(record).1)
  }

  /** Worst first, then by check, otherwise in report order. */
  predicate LineOrder(a: Transition, b: Transition) {
    Severity(a.entry.f.status) > Severity(b.entry.f.status)
    || (Severity(a.entry.f.status) == Severity(b.entry.f.status) && AtMost(a.entry.f.check, b.entry.f.check))
  }

  lemma LineOrderTotal()
    ensures TotalPreorder(LineOrder)
  {
    forall a: Transition, b: Transition
      ensures LineOrder(a, b) || LineOrder(b, a)
    {
      AtMostTotal(a.entry.f.check, b.entry.f.check);
    }
    forall a: Transition, b: Transition, c: Transition | LineOrder(a, b) && LineOrder(b, c)
      ensures LineOrder(a, c)
    {
      if AtMost(a.entry.f.check, b.entry.f.check) && AtMost(b.entry.f.check, c.entry.f.check) {
        AtMostTransitive(a.entry.f.check, b.entry.f.check, c.entry.f.check);
      }
    }
  }

  function MovedLines(ts: seq<Transition>): seq<Line> {
    seq(|ts|, i requires 0 <= i < |ts| => Moved(ts[i]))
  }

  function GoneLines(records: seq<string>): seq<Line> {
    seq(|records|, i requires 0 <= i < |records| => GoneLine(records[i]))
  }

  ghost function SortedGone(here: map<string, Status>, prev: map<string, Status>): seq<string> {
    SortStrings(Records(Listing(GoneKeys(here, prev)), prev))
  }

  /** Everything one tick prints after the first. */
  ghost function ChangedLines(reps: seq<Report>, prev: map<string, Status>): seq<Line> {
    MovedLines(Sort(LineOrder, MovedOf(Entries(reps), prev)))
    + GoneLines(SortedGone(StatusMap(Entries(reps)), prev))
  }

  method CollectMoved(reps: seq<Report>, prev: map<string, Status>) returns (moved: seq<Transition>)
    ensures moved == MovedOf(Entries(reps), prev)
  {
    moved := [];
    for i := 0 to |reps|
      invariant moved == MovedOf(Entries(reps[..i]), prev)
    {
      var rep := reps[i];
      ghost var done := Entries(reps[..i]);
      assert done + EntriesOf(rep.cluster, rep.findings[..0]) == done;
      for j := 0 to |rep.findings|
        invariant moved == MovedOf(done + EntriesOf(rep.cluster, rep.findings[..j]), prev)
      {
        var f := rep.findings[j];
        EntriesStep(done, rep.cluster, rep.findings, j);
        if f.check == SUMMARY {
          continue;
        }
        var e := Entry(rep.cluster, f);
        MovedSnoc(done + EntriesOf(rep.cluster, rep.findings[..j]), e, prev);
        var key := Qualified(rep.cluster, Key(f.check, f.target));
        if key in prev && prev[key] == f.status {
          continue;
        }
        moved := moved + [Transition(e, if key in prev then Some(prev[key]) else None)];
      }
      assert rep.findings[..|rep.findings|] == rep.findings;
      assert reps[..i + 1][..i] == reps[..i];
    }
    assert reps[..|reps|] == reps;
  }

  /** Walks the previous map in whatever order the runtime hands its keys out. */
  method CollectGone(here: map<string, Status>, prev: map<string, Status>) returns (gone: seq<string>)
    ensures SortStrings(gone) == SortedGone(here, prev)
  {
    gone := [];
    ghost var keys: seq<string> := [];
    ghost var g := GoneKeys(here, prev);
    var left := prev.Keys;
    while left != {}
      invariant left <= prev.Keys
      invariant Lists(keys, g * (prev.Keys - left))
      invariant gone == Records(keys, prev)
    {
      var key :| key in left;
      SeenStep(prev.Keys, left, key);
      ListStep(keys, g, prev.Keys - left, key);
      if key in here || prev[key] == OK {
      } else {
        RecordsSnoc(keys, prev, key);
        gone := gone + [GoneRecord(key, prev[key])];
        keys := keys + [key];
      }
      left := left - {key};
    }
    AllSeen(keys, g, prev.Keys - left);
    RecordsListed(keys, g, prev);
  }

  lemma {:induction false} RecordsSnoc(keys: seq<string>, prev: map<string, Status>, key: string)
    ensures Records(keys + [key], prev) == Records(keys, prev) + [GoneRecord(key, StatusAt(prev, key))]
  {
    assert (keys + [key])[..|keys|] == keys;
  }

  lemma {:induction false} RecordsListed(keys: seq<string>, g: set<string>, prev: map<string, Status>)
    requires Lists(keys, g)
    ensures SortStrings(Records(keys, prev)) == SortStrings(Records(Listing(g), prev))
  {
    ListingSorted(g);
    RecordsPermuted(keys, Listing(g), prev);
    SortStringsCanonical(Records(keys, prev), Records(Listing(g), prev));
  }

  lemma {:induction false} RecordsAppend(a: seq<string>, b: seq<string>, prev: map<string, Status>)
    ensures Records(a + b, prev) == Records(a, prev) + Records(b, prev)
    decreases |b|
  {
    if b == [] {
      assert a + b == a;
    } else {
      assert (a + b)[..|a + b| - 1] == a + b[..|b| - 1];
      RecordsAppend(a, b[..|b| - 1], prev);
    }
  }

  lemma {:induction false} RecordsAround(l: seq<string>, k: string, r: seq<string>, prev: map<string, Status>)
    ensures multiset(Records(Around(l, k, r), prev))
         == multiset(Records(l + r, prev)) + multiset{GoneRecord(k, StatusAt(prev, k))}
  {
    RecordsAppend(l + [k], r, prev);
    RecordsSnoc(l, prev, k);
    RecordsAppend(l, r, prev);
  }

  lemma {:induction false} RecordsPermuted(a: seq<string>, b: seq<string>, prev: map<string, Status>)
    requires multiset(a) == multiset(b)
    ensures multiset(Records(a, prev)) == multiset(Records(b, prev))
  {
    var f := (s: seq<string>) => multiset(Records(s, prev));
    var add := (m: multiset<string>, k: string) => m + multiset{GoneRecord(k, StatusAt(prev, k))};
    forall l, k, r
      ensures f(Around(l, k, r)) == add(f(l + r), k)
    {
      RecordsAround(l, k, r, prev);
    }
    OrderIrrelevant(f, add, a, b);
  }

  method SortLines(moved: seq<Transition>) returns (sorted: seq<Transition>)
    ensures sorted == Sort(LineOrder, moved)
  {
    LineOrderTotal();
    var a := new Transition[|moved|](i requires 0 <= i < |moved| => moved[i]);
    assert a[..] == moved;
    SortInPlace(a, LineOrder);
    sorted := a[..];
  }

  /** Prints what moved since the statuses in prev, and says how many lines that was. */
  method Changed(reps: seq<Report>, prev: map<string, Status>) returns (lines: seq<Line>, n: nat)
    ensures lines == ChangedLines(reps, prev)
    ensures n == |lines|
  {
    var moved := CollectMoved(reps, prev);
    var here := Statuses(reps);
    var gone := CollectGone(here, prev);
    gone := SortStrings(gone);
    SortContents(LineOrder, moved);
    if |moved| == 0 && |gone| == 0 {
      return [], 0;
    }
    var sorted := SortLines(moved);
    lines := MovedLines(sorted) + GoneLines(gone);
    n := |moved| + |gone|;
  }
}
