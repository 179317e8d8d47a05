/** The audit's transition summary and the watch loop's transitions are computed by two
    independent pieces of code over two differently keyed maps. They count the same moves. */
module TwoEngines {
  import opened Strings
  import opened Sorting
  import opened Findings
  import opened State
  import opened Changes
  import opened Watch

  ghost predicate UniqueKeys(fs: seq<Finding>) {
    forall i, j :: 0 <= i < j < |fs| && fs[i].check != SUMMARY && fs[j].check != SUMMARY ==>
      FindingKey(fs[i]) != FindingKey(fs[j])
  }

  /** Reported now, and not with the status it had before. */
  ghost function MovedNow(now: map<string, Status>, prev: map<string, Status>): (r: set<string>)
    ensures forall k :: k in r <==> k in now && !(k in prev && prev[k] == now[k])
  {
    set k | k in now && !(k in prev && prev[k] == now[k])
  }

  /** OK findings the previous run did not have: news to the watch loop, not to the summary. */
  ghost function NewOK(now: map<string, Status>, prev: map<string, Status>): (r: set<string>)
    ensures forall k :: k in r <==> k in now && k !in prev && now[k] == OK
  {
    set k | k in now && k !in prev && now[k] == OK
  }

  lemma {:induction false} StatusMapIsPrefixed(cluster: string, fs: seq<Finding>)
    ensures StatusMap(EntriesOf(cluster, fs)) == Prefixed(cluster, Carried(fs))
  {
    if fs != [] {
      var init, last := fs[..|fs| - 1], fs[|fs| - 1];
      StatusMapIsPrefixed(cluster, init);
      if last.check != SUMMARY {
        var e := Entry(cluster, last);
        StatusMapSnoc(EntriesOf(cluster, init), e);
        PrefixedUpdate(cluster, Carried(init), FindingKey(last), last.status);
      }
    }
  }

  lemma PrefixedUpdate(cluster: string, m: map<string, Status>, k: string, v: Status)
    ensures Prefixed(cluster, m[k := v]) == Prefixed(cluster, m)[Qualified(cluster, k) := v]
  {
    var a, b := Prefixed(cluster, m[k := v]), Prefixed(cluster, m)[Qualified(cluster, k) := v];
    forall q
      ensures AgreeAt(a, b, q)
    {
      assert Local(cluster, q) == Some(k) ==> q == Qualified(cluster, k);
    }
    AgreeEverywhere(a, b);
  }

  lemma {:induction false} MovedCount(cluster: string, fs: seq<Finding>, prev: map<string, Status>)
    requires UniqueKeys(fs)
    ensures |MovedOf(EntriesOf(cluster, fs), Prefixed(cluster, prev))| == |MovedNow(Carried(fs), prev)|
  {
    if fs != [] {
      var init, last := fs[..|fs| - 1], fs[|fs| - 1];
      MovedCount(cluster, init, prev);
      if last.check != SUMMARY {
        var e, k := Entry(cluster, last), FindingKey(last);
        MovedSnoc(EntriesOf(cluster, init), e, Prefixed(cluster, prev));
        FreshKey(fs);
        assert Unmoved(e, Prefixed(cluster, prev)) <==> k in prev && prev[k] == last.status;
        MovedNowUpdate(Carried(init), prev, k, last.status);
      }
    }
  }

  lemma FreshKey(fs: seq<Finding>)
    requires fs != [] && UniqueKeys(fs) && fs[|fs| - 1].check != SUMMARY
    ensures FindingKey(fs[|fs| - 1]) !in Carried(fs[..|fs| - 1])
  {
    CarriedMeaning(fs[..|fs| - 1]);
  }

  lemma MovedNowUpdate(now: map<string, Status>, prev: map<string, Status>, k: string, v: Status)
    requires k !in now
    ensures |MovedNow(now[k := v], prev)| == |MovedNow(now, prev)| + if k in prev && prev[k] == v then 0 else 1
  {
    var before, after := MovedNow(now, prev), MovedNow(now[k := v], prev);
    assert k !in before;
    assert forall j :: j != k ==> (j in after <==> j in before);
    if k in prev && prev[k] == v {
      assert after == before;
    } else {
      assert after == before + {k};
    }
  }

  lemma GoneCount(cluster: string, now: map<string, Status>, prev: map<string, Status>)
    ensures |GoneKeys(Prefixed(cluster, now), Prefixed(cluster, prev))| == |GoneKeys(now, prev)|
  {
    var a, b := GoneKeys(Prefixed(cluster, now), Prefixed(cluster, prev)), GoneKeys(now, prev);
    forall q
      ensures q in a <==> Local(cluster, q).Some? && Local(cluster, q).value in b
    {
    }
    QualifiedSize(cluster, a, b);
  }

  lemma {:induction false} QualifiedSize(cluster: string, a: set<string>, b: set<string>)
    requires forall q :: q in a <==> Local(cluster, q).Some? && Local(cluster, q).value in b
    ensures |a| == |b|
    decreases b
  {
    if b == {} {
      assert a == {};
    } else {
      var k :| k in b;
      var q := Qualified(cluster, k);
      forall p
        ensures p in a - {q} <==> Local(cluster, p).Some? && Local(cluster, p).value in b - {k}
      {
        assert Local(cluster, p) == Some(k) ==> p == q;
      }
      QualifiedSize(cluster, a - {q}, b - {k});
    }
  }

  lemma MovesBothWays(now: map<string, Status>, prev: map<string, Status>)
    ensures |MovedNow(now, prev)| + |GoneKeys(now, prev)| == |Changes.Moved(now, prev)| + |NewOK(now, prev)|
  {
    MovesSameKeys(now, prev);
    DisjointSizes(MovedNow(now, prev), GoneKeys(now, prev));
    DisjointSizes(Changes.Moved(now, prev), NewOK(now, prev));
  }

  lemma MovesSameKeys(now: map<string, Status>, prev: map<string, Status>)
    ensures MovedNow(now, prev) + GoneKeys(now, prev) == Changes.Moved(now, prev) + NewOK(now, prev)
  {
    forall k
      ensures k in MovedNow(now, prev) || k in GoneKeys(now, prev)
         <==> k in Changes.Moved(now, prev) || k in NewOK(now, prev)
    {
    }
  }

  lemma DisjointSizes(a: set<string>, b: set<string>)
    requires forall k :: k in a ==> k !in b
    ensures |a + b| == |a| + |b|
  {
  }

  /** The number of lines the watch loop prints is the number of keys the summary counts,
      plus the OK findings that are new. */
  lemma EnginesAgree(rep: Report, prev: map<string, Status>)
    requires UniqueKeys(rep.findings)
    ensures |ChangedLines([rep], Prefixed(rep.cluster, prev))|
         == |Changes.Moved(Carried(rep.findings), prev)| + |NewOK(Carried(rep.findings), prev)|
  {
    var c, fs := rep.cluster, rep.findings;
    var p, now := Prefixed(c, prev), Carried(fs);
    assert Entries([rep]) == EntriesOf(c, fs);
    StatusMapIsPrefixed(c, fs);
    MovedCount(c, fs, prev);
    GoneCount(c, now, prev);
    MovesBothWays(now, prev);
    SortContents(LineOrder, MovedOf(EntriesOf(c, fs), p));
    var gone := Listing(GoneKeys(Prefixed(c, now), p));
    ListingSorted(GoneKeys(Prefixed(c, now), p));
    RecordsSize(gone, p);
    SortContents(AtMost, Records(gone, p));
  }

  lemma {:induction false} RecordsSize(keys: seq<string>, prev: map<string, Status>)
    requires forall k :: k in keys ==> k in prev
    ensures |Records(keys, prev)| == |keys|
    decreases |keys|
  {
    if keys != [] {
      RecordsSize(keys[..|keys| - 1], prev);
    }
  }
}
