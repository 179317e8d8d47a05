/** internal/audit, carry and changes: what one run keeps of its verdicts for the next,
    and the partition of what moved in between. */
module Changes {
  import opened Findings
  import opened State

  const SUMMARY := "audit/changes"

  function FindingKey(f: Finding): string {
    Key(f.check, f.target)
  }

  /** Status by key, the later finding winning, the transition summary dropped. */
  function Carried(fs: seq<Finding>): map<string, Status> {
    if fs == [] then map[]
    else
      var before, last := Carried(fs[..|fs| - 1]), fs[|fs| - 1];
      if last.check == SUMMARY then before else before[FindingKey(last) := last.status]
  }

  method Carry(fs: seq<Finding>) returns (out: map<string, Status>)
    ensures out == Carried(fs)
  {
    out := map[];
    for i := 0 to |fs|
      invariant out == Carried(fs[..i])
    {
      assert fs[..i + 1][..i] == fs[..i];
      if fs[i].check == SUMMARY {
        continue;
      }
      out := out[FindingKey(fs[i]) := fs[i].status];
    }
    assert fs[..|fs|] == fs;
  }

  /** No two findings under one key carry different statuses. */
  ghost predicate ConsistentFindings(fs: seq<Finding>) {
    forall f, g :: f in fs && g in fs && f.check != SUMMARY && g.check != SUMMARY && FindingKey(f) == FindingKey(g)
      ==> f.status == g.status
  }

  /** What is carried are statuses that were found, and with consistent keys all of them. */
  lemma {:induction false} CarriedMeaning(fs: seq<Finding>)
    ensures forall k :: k in Carried(fs) <==> exists f :: f in fs && f.check != SUMMARY && FindingKey(f) == k
    ensures forall k :: k in Carried(fs) ==>
              exists f :: f in fs && f.check != SUMMARY && FindingKey(f) == k && f.status == Carried(fs)[k]
    ensures ConsistentFindings(fs) ==>
              forall f :: f in fs && f.check != SUMMARY ==> Carried(fs)[FindingKey(f)] == f.status
  {
    if fs != [] {
      var init, last := fs[..|fs| - 1], fs[|fs| - 1];
      CarriedMeaning(init);
      assert fs == init + [last];
      assert last in fs && forall f :: f in init ==> f in fs;
      forall k
        ensures k in Carried(fs) ==>
                  exists f :: f in fs && f.check != SUMMARY && FindingKey(f) == k && f.status == Carried(fs)[k]
      {
        if k in Carried(fs) && (last.check == SUMMARY || FindingKey(last) != k) {
          assert k in Carried(init) && Carried(init)[k] == Carried(fs)[k];
          var f :| f in init && f.check != SUMMARY && FindingKey(f) == k && f.status == Carried(init)[k];
        }
      }
      forall k
        ensures k in Carried(fs) <==> exists f :: f in fs && f.check != SUMMARY && FindingKey(f) == k
      {
        if f :| f in fs && f.check != SUMMARY && FindingKey(f) == k {
          assert f in init || f == last;
        }
      }
    }
  }

  /** With consistent keys the order of the findings does not matter to what is carried. */
  lemma {:induction false} CarriedIgnoresOrder(a: seq<Finding>, b: seq<Finding>)
    requires multiset(a) == multiset(b) && ConsistentFindings(a)
    ensures Carried(a) == Carried(b)
  {
    assert forall f :: f in a <==> f in b by {
      forall f
        ensures f in a <==> f in b
      {
        assert f in a <==> f in multiset(a);
        assert f in b <==> f in multiset(b);
      }
    }
    CarriedMeaning(a);
    CarriedMeaning(b);
    forall k | k in Carried(a)
      ensures Carried(a)[k] == Carried(b)[k]
    {
      var f :| f in a && f.check != SUMMARY && FindingKey(f) == k && f.status == Carried(a)[k];
    }
  }

  /** The summary is never part of what it compares, nor of what the next run compares. */
  lemma {:induction false} SummaryNotCarried(fs: seq<Finding>, summary: seq<Finding>)
    requires |summary| <= 1 && forall f :: f in summary ==> f.check == SUMMARY
    ensures Carried(fs + summary) == Carried(fs)
  {
    if summary != [] {
      assert (fs + summary)[..|fs|] == fs;
      assert (fs + summary)[|fs|] == summary[0] && summary[0] in summary;
    } else {
      assert fs + summary == fs;
    }
  }

  // ----- the partition

  datatype Move = Still | GotWorse | Appears | Clears | Improves

  /** The list a key goes to: reported now, or reported before and gone. */
  function MoveOf(now: map<string, Status>, prev: map<string, Status>, k: string): Move {
    if k in now then
      if k !in prev then (if now[k] != OK then Appears else Still)
      else if prev[k] == now[k] then Still
      else if Severity(now[k]) > Severity(prev[k]) then GotWorse
      else if now[k] == OK then Clears
      else Improves
    else if k in prev && prev[k] != OK then Clears
    else Still
  }

  ghost function Where(now: map<string, Status>, prev: map<string, Status>, m: Move): (r: set<string>)
    requires m != Still
    ensures forall k :: k in r <==> MoveOf(now, prev, k) == m
  {
    set k | k in now.Keys + prev.Keys && MoveOf(now, prev, k) == m
  }

  /** Which of the four lists a key is on, from its two statuses. */
  lemma MovesMean(now: map<string, Status>, prev: map<string, Status>, k: string)
    ensures k in Where(now, prev, GotWorse)
       <==> k in now && k in prev && Severity(prev[k]) < Severity(now[k])
    ensures k in Where(now, prev, Appears) <==> k in now && k !in prev && now[k] != OK
    ensures k in Where(now, prev, Clears)
       <==> && k in prev && prev[k] != OK
            && (k !in now || (now[k] == OK && Severity(prev[k]) >= Severity(now[k])))
    ensures k in Where(now, prev, Improves)
       <==> && k in now && k in prev && now[k] != prev[k] && now[k] != OK
            && Severity(prev[k]) >= Severity(now[k])
  {
  }

  /** The summary counts what moved; it is left out without a usable baseline. */
  lemma {:induction false} SummarySays(name: string, current: seq<Finding>, prev: Option<Baseline>)
    ensures prev.Some? && prev.value.version == 2 && prev.value.findings != map[] ==>
              Summary(name, current, prev)
              == [Finding("audit/changes", name, OK, Some(|Moved(Carried(current), prev.value.findings)| as real))]
    ensures prev.None? || prev.value.version != 2 || prev.value.findings == map[] ==>
              Summary(name, current, prev) == []
  {
    if prev.Some? && prev.value.findings != map[] {
      var k :| k in prev.value.findings;
      assert |prev.value.findings.Keys| > 0;
    }
  }

  /** A key nobody reports reads as OK. */
  function StatusAt(m: map<string, Status>, k: string): Status {
    if k in m then m[k] else OK
  }

  /** The keys whose status is not what it was. */
  ghost function Moved(now: map<string, Status>, prev: map<string, Status>): (r: set<string>)
    ensures forall k :: k in r <==> StatusAt(now, k) != StatusAt(prev, k)
  {
    set k | k in now.Keys + prev.Keys && StatusAt(now, k) != StatusAt(prev, k)
  }

  /** The four lists are disjoint ... */
  lemma MovesDisjoint(now: map<string, Status>, prev: map<string, Status>)
    ensures Where(now, prev, GotWorse) !! Where(now, prev, Appears)
    ensures Where(now, prev, GotWorse) !! Where(now, prev, Clears)
    ensures Where(now, prev, GotWorse) !! Where(now, prev, Improves)
    ensures Where(now, prev, Appears) !! Where(now, prev, Clears)
    ensures Where(now, prev, Appears) !! Where(now, prev, Improves)
    ensures Where(now, prev, Clears) !! Where(now, prev, Improves)
  {
  }

  /** ... together hold exactly the keys that moved ... */
  lemma MovesCover(now: map<string, Status>, prev: map<string, Status>)
    ensures Where(now, prev, GotWorse) + Where(now, prev, Appears)
            + Where(now, prev, Clears) + Where(now, prev, Improves)
         == Moved(now, prev)
  {
    forall k
      ensures k in Where(now, prev, GotWorse) + Where(now, prev, Appears)
                 + Where(now, prev, Clears) + Where(now, prev, Improves)
         <==> k in Moved(now, prev)
    {
      assert StatusAt(now, k) != StatusAt(prev, k) <==> MoveOf(now, prev, k) != Still;
    }
  }

  /** ... so their sizes add up to the number of keys that moved. */
  lemma PartitionOfMoved(now: map<string, Status>, prev: map<string, Status>)
    ensures |Where(now, prev, GotWorse)| + |Where(now, prev, Appears)|
            + |Where(now, prev, Clears)| + |Where(now, prev, Improves)|
         == |Moved(now, prev)|
  {
    MovesDisjoint(now, prev);
    MovesCover(now, prev);
    var w, a := Where(now, prev, GotWorse), Where(now, prev, Appears);
    var c, b := Where(now, prev, Clears), Where(now, prev, Improves);
    FourSizes(w, a, c, b);
  }

  lemma FourSizes(w: set<string>, a: set<string>, c: set<string>, b: set<string>)
    requires w !! a && w !! c && w !! b && a !! c && a !! b && c !! b
    ensures |w + a + c + b| == |w| + |a| + |c| + |b|
  {
  }

  ghost predicate Lists(s: seq<string>, keys: set<string>) {
    multiset(s) == multiset(keys)
  }

  lemma ListsSize(s: seq<string>, keys: set<string>)
    requires Lists(s, keys)
    ensures |s| == |keys|
  {
    assert |multiset(s)| == |s|;
  }

  /** One more key looked at: it belongs on the list exactly when it belongs to the set. */
  lemma ListStep(s: seq<string>, keys: set<string>, seen: set<string>, k: string)
    requires Lists(s, keys * seen) && k !in seen
    ensures k in keys ==> Lists(s + [k], keys * (seen + {k}))
    ensures k !in keys ==> Lists(s, keys * (seen + {k}))
  {
    if k in keys {
      assert keys * (seen + {k}) == (keys * seen) + {k};
    } else {
      assert keys * (seen + {k}) == keys * seen;
    }
  }

  lemma AllSeen(s: seq<string>, keys: set<string>, seen: set<string>)
    requires Lists(s, keys * seen) && keys <= seen
    ensures Lists(s, keys)
  {
    assert keys * seen == keys;
  }

  /** The four lists hold the keys seen so far, each on the list its move names. */
  ghost predicate Sorted4(now: map<string, Status>, prev: map<string, Status>, seen: set<string>,
                          worse: seq<string>, appeared: seq<string>, cleared: seq<string>, better: seq<string>) {
    && Lists(worse, Where(now, prev, GotWorse) * seen)
    && Lists(appeared, Where(now, prev, Appears) * seen)
    && Lists(cleared, Where(now, prev, Clears) * seen)
    && Lists(better, Where(now, prev, Improves) * seen)
  }

  lemma NothingSeen(now: map<string, Status>, prev: map<string, Status>)
    ensures Sorted4(now, prev, {}, [], [], [], [])
  {
    assert forall m | m != Still :: Where(now, prev, m) * {} == {};
  }

  lemma Sorted4Step(now: map<string, Status>, prev: map<string, Status>, seen: set<string>, k: string,
                    worse: seq<string>, appeared: seq<string>, cleared: seq<string>, better: seq<string>)
    requires Sorted4(now, prev, seen, worse, appeared, cleared, better) && k !in seen
    ensures var m := MoveOf(now, prev, k);
            Sorted4(now, prev, seen + {k},
                    if m == GotWorse then worse + [k] else worse,
                    if m == Appears then appeared + [k] else appeared,
                    if m == Clears then cleared + [k] else cleared,
                    if m == Improves then better + [k] else better)
  {
    ListStep(worse, Where(now, prev, GotWorse), seen, k);
    ListStep(appeared, Where(now, prev, Appears), seen, k);
    ListStep(cleared, Where(now, prev, Clears), seen, k);
    ListStep(better, Where(now, prev, Improves), seen, k);
  }

  lemma SeenStep(all: set<string>, left: set<string>, k: string)
    requires left <= all && k in left
    ensures all - (left - {k}) == (all - left) + {k} && k !in all - left
  {
  }

  /** The switch inside the loop: which list one reported key is appended to. */
  method Place(now: map<string, Status>, prev: map<string, Status>, key: string,
               worse: seq<string>, appeared: seq<string>, cleared: seq<string>, better: seq<string>)
      returns (worse': seq<string>, appeared': seq<string>, cleared': seq<string>, better': seq<string>)
    requires key in now
    ensures var m := MoveOf(now, prev, key);
            && worse' == (if m == GotWorse then worse + [key] else worse)
            && appeared' == (if m == Appears then appeared + [key] else appeared)
            && cleared' == (if m == Clears then cleared + [key] else cleared)
            && better' == (if m == Improves then better + [key] else better)
  {
    worse', appeared', cleared', better' := worse, appeared, cleared, better;
    if key !in prev {
      if now[key] != OK {
        appeared' := appeared + [key];
      }
    } else if prev[key] != now[key] {
      if Severity(now[key]) > Severity(prev[key]) {
        worse' := worse + [key];
      } else if now[key] == OK {
        cleared' := cleared + [key];
      } else {
        better' := better + [key];
      }
    }
  }

  /** The current findings, in whatever order the runtime hands the keys out. */
  method PlaceAll(now: map<string, Status>, prev: map<string, Status>)
      returns (worse: seq<string>, appeared: seq<string>, cleared: seq<string>, better: seq<string>)
    ensures Sorted4(now, prev, now.Keys, worse, appeared, cleared, better)
  {
    worse, appeared, cleared, better := [], [], [], [];
    var left := now.Keys;
    ghost var seen: set<string> := {};
    NothingSeen(now, prev);
    while left != {}
      invariant left <= now.Keys && seen == now.Keys - left
      invariant Sorted4(now, prev, seen, worse, appeared, cleared, better)
    {
      var key :| key in left;
      SeenStep(now.Keys, left, key);
      Sorted4Step(now, prev, seen, key, worse, appeared, cleared, better);
      worse, appeared, cleared, better := Place(now, prev, key, worse, appeared, cleared, better);
      left, seen := left - {key}, seen + {key};
    }
    assert seen == now.Keys;
  }

  /** Every key of both maps ends up on the list its move names, or on none. */
  method Transitions(now: map<string, Status>, prev: map<string, Status>)
      returns (worse: seq<string>, appeared: seq<string>, cleared: seq<string>, better: seq<string>)
    ensures Lists(worse, Where(now, prev, GotWorse))
    ensures Lists(appeared, Where(now, prev, Appears))
    ensures Lists(cleared, Where(now, prev, Clears))
    ensures Lists(better, Where(now, prev, Improves))
  {
    worse, appeared, cleared, better := PlaceAll(now, prev);
    AllSeen(worse, Where(now, prev, GotWorse), now.Keys);
    AllSeen(appeared, Where(now, prev, Appears), now.Keys);
    AllSeen(better, Where(now, prev, Improves), now.Keys);
    cleared := AppendGone(cleared, now, prev);
  }

  /** A finding that is gone entirely cleared too. */
  method AppendGone(clearedNow: seq<string>, now: map<string, Status>, prev: map<string, Status>)
      returns (cleared: seq<string>)
    requires Lists(clearedNow, Where(now, prev, Clears) * now.Keys)
    ensures Lists(cleared, Where(now, prev, Clears))
  {
    ghost var c := Where(now, prev, Clears);
    ghost var seen := now.Keys;
    cleared := clearedNow;
    var todo := prev.Keys;
    while todo != {}
      invariant todo <= prev.Keys && seen == now.Keys + (prev.Keys - todo)
      invariant Lists(cleared, c * seen)
    {
      var key :| key in todo;
      if key !in now {
        ListStep(cleared, c, seen, key);
        if prev[key] != OK {
          cleared := cleared + [key];
        }
      }
      assert key in now ==> seen + {key} == seen;
      todo, seen := todo - {key}, seen + {key};
    }
    AllSeen(cleared, c, seen);
  }

  /** The finding `changes` adds: none without a usable previous map, otherwise one OK
      finding whose value is the number of keys that moved. */
  ghost function Summary(name: string, current: seq<Finding>, prev: Option<Baseline>): seq<Finding> {
    if prev.None? || prev.value.version != VERSION || |prev.value.findings| == 0 then []
    else [Finding(SUMMARY, name, OK, Some(|Moved(Carried(current), prev.value.findings)| as real))]
  }

  /** `quiet` tells which of the two messages was printed: "nothing changed" or the lists. */
  method Compare(name: string, current: seq<Finding>, prev: Option<Baseline>) returns (out: seq<Finding>, quiet: bool)
    ensures out == Summary(name, current, prev)
    ensures out != [] ==> (quiet <==> Moved(Carried(current), prev.value.findings) == {})
  {
    quiet := true;
    if prev.None? || prev.value.version != VERSION || |prev.value.findings| == 0 {
      return [], quiet;
    }
    var nowMap := Carry(current);
    var worse, appeared, cleared, better := Transitions(nowMap, prev.value.findings);
    PartitionOfMoved(nowMap, prev.value.findings);
    ListsSize(worse, Where(nowMap, prev.value.findings, GotWorse));
    ListsSize(appeared, Where(nowMap, prev.value.findings, Appears));
    ListsSize(cleared, Where(nowMap, prev.value.findings, Clears));
    ListsSize(better, Where(nowMap, prev.value.findings, Improves));
    ghost var n := |worse| + |appeared| + |cleared| + |better|;
    assert n == |Moved(nowMap, prev.value.findings)|;
    if |worse| == 0 && |appeared| == 0 && |cleared| == 0 && |better| == 0 {
      return [Finding(SUMMARY, name, OK, Some(0.0))], quiet;
    }
    quiet := false;
    var total := |appeared| + |cleared| + |worse| + |better|;
    out := [Finding(SUMMARY, name, OK, Some(total as real))];
  }
}
