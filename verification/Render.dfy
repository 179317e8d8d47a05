/** internal/output, Text and Findings: the two renderings of a report's findings. */
module Render {
  import opened Strings
  import opened Sorting
  import opened Findings
  import opened State
  import opened Watch

  /** Worst report first, then by cluster name. */
  predicate ReportOrder(a: Report, b: Report) {
    Severity(WorstOf(a.findings)) > Severity(WorstOf(b.findings))
    || (Severity(WorstOf(a.findings)) == Severity(WorstOf(b.findings)) && AtMost(a.cluster, b.cluster))
  }

  lemma ReportOrderTotal()
    ensures TotalPreorder(ReportOrder)
  {
    forall a: Report, b: Report
      ensures ReportOrder(a, b) || ReportOrder(b, a)
    {
      AtMostTotal(a.cluster, b.cluster);
    }
    forall a: Report, b: Report, c: Report | ReportOrder(a, b) && ReportOrder(b, c)
      ensures ReportOrder(a, c)
    {
      if AtMost(a.cluster, b.cluster) && AtMost(b.cluster, c.cluster) {
        AtMostTransitive(a.cluster, b.cluster, c.cluster);
      }
    }
  }

  /** One report on the terminal: the header line and the findings that pass the filter. */
  datatype Block = Block(worst: Status, cluster: string, nodes: nat, lines: seq<Finding>)

  function BlockOf(rep: Report, min: Option<Status>): Block {
    Block(WorstOf(rep.findings), rep.cluster, |rep.nodes|, Filtered(min, rep.findings))
  }

  function Blocks(reps: seq<Report>, min: Option<Status>): seq<Block> {
    if reps == [] then [] else Blocks(reps[..|reps| - 1], min) + [BlockOf(reps[|reps| - 1], min)]
  }

  method ListPassing(fs: seq<Finding>, min: Option<Status>) returns (lines: seq<Finding>)
    ensures lines == Filtered(min, fs)
  {
    lines := [];
    for i := 0 to |fs|
      invariant lines == Filtered(min, fs[..i])
    {
      assert fs[..i + 1] == fs[..i] + [fs[i]];
      FilteredAppend(min, fs[..i], [fs[i]]);
      if min.Some? && !AtLeast(fs[i].status, min.value) {
        continue;
      }
      lines := lines + [fs[i]];
    }
    assert fs[..|fs|] == fs;
  }

  lemma FilteredAppend(min: Option<Status>, a: seq<Finding>, b: seq<Finding>)
    ensures Filtered(min, a + b) == Filtered(min, a) + Filtered(min, b)
    ensures |b| == 1 ==> Filtered(min, b) == if Passes(min, b[0]) then b else []
  {
    KeepAppend((f: Finding) => Passes(min, f), a, b);
    assert |b| == 1 ==> b[1..] == [];
  }

  /** Sorts its argument in place. */
  method RenderText(reps: array<Report>, min: Option<Status>) returns (blocks: seq<Block>)
    modifies reps
    ensures reps[..] == Sort(ReportOrder, old(reps[..]))
    ensures blocks == Blocks(reps[..], min)
  {
    ReportOrderTotal();
    SortInPlace(reps, ReportOrder);
    ghost var sorted := reps[..];
    blocks := [];
    for i := 0 to reps.Length
      invariant reps[..] == sorted
      invariant blocks == Blocks(sorted[..i], min)
    {
      assert sorted[..i + 1][..i] == sorted[..i];
      var worst := Worst(reps[i].findings);
      var lines := ListPassing(reps[i].findings, min);
      blocks := blocks + [Block(worst, reps[i].cluster, |reps[i].nodes|, lines)];
    }
    assert sorted[..reps.Length] == sorted;
  }

  function Passing(reps: seq<Report>, min: Option<Status>): seq<Finding> {
    if reps == [] then [] else Passing(reps[..|reps| - 1], min) + Filtered(min, reps[|reps| - 1].findings)
  }

  method RenderFindings(reps: seq<Report>, min: Option<Status>) returns (out: seq<Finding>)
    ensures out == Sorted(Passing(reps, min))
  {
    out := [];
    for i := 0 to |reps|
      invariant out == Passing(reps[..i], min)
    {
      assert reps[..i + 1][..i] == reps[..i];
      var lines := ListPassing(reps[i].findings, min);
      out := out + lines;
    }
    assert reps[..|reps|] == reps;
    var a := new Finding[|out|](i requires 0 <= i < |out| => out[i]);
    assert a[..] == out;
    SortWorstFirst(a);
    out := a[..];
  }

  /** A sorted report lists the same findings in the same order on the terminal, which
      filters after sorting, and in the array, which sorts after filtering. */
  lemma {:induction false} RenderingsAgree(rep: Report, raw: seq<Finding>, min: Option<Status>)
    requires rep.findings == Sorted(raw)
    ensures Blocks([rep], min)[0].lines == Sorted(Passing([rep], min)) == Sorted(Filtered(min, raw))
  {
    FilterCommutesWithSort(min, raw);
    assert [rep][..0] == [];
    assert Passing([rep], min) == [] + Filtered(min, rep.findings) == Filtered(min, rep.findings);
    WorstFirstOrder();
    SortIsStable(WorstFirst, Filtered(min, raw));
    SortOfSorted(WorstFirst, Sorted(Filtered(min, raw)));
  }

  /** Each report has its block: its cluster, its number of nodes, its worst status, and what
      passes the filter. */
  lemma {:induction false} BlocksRead(reps: seq<Report>, min: Option<Status>)
    ensures |Blocks(reps, min)| == |reps|
    ensures forall i :: 0 <= i < |reps| ==>
              && Blocks(reps, min)[i].cluster == reps[i].cluster
              && Blocks(reps, min)[i].nodes == |reps[i].nodes|
              && Blocks(reps, min)[i].worst == WorstOf(reps[i].findings)
              && Blocks(reps, min)[i].lines == Filtered(min, reps[i].findings)
  {
    if reps != [] {
      BlocksRead(reps[..|reps| - 1], min);
    }
  }

  /** No report is printed before a worse one; equally bad ones are in the order of their names. */
  lemma {:induction false} ReportsInOrder(reps: seq<Report>, i: nat, j: nat)
    requires i < j < |Sort(ReportOrder, reps)|
    ensures var a, b := Sort(ReportOrder, reps)[i], Sort(ReportOrder, reps)[j];
            && NoWorse(WorstOf(b.findings), WorstOf(a.findings))
            && (NoWorse(WorstOf(a.findings), WorstOf(b.findings)) ==> AtMost(a.cluster, b.cluster))
  {
    ReportOrderTotal();
    SortIsStable(ReportOrder, reps);
  }

  lemma {:induction false} PassingReads(reps: seq<Report>, min: Option<Status>, f: Finding)
    ensures f in Passing(reps, min)
       <==> (exists rep :: rep in reps && f in rep.findings) && (min.Some? ==> NoWorse(min.value, f.status))
  {
    if reps != [] {
      var init, last := reps[..|reps| - 1], reps[|reps| - 1];
      InitLast(reps);
      PassingReads(init, min, f);
      FilteredReads(min, last.findings);
      assert forall rep :: rep in reps <==> rep in init || rep == last;
    }
  }
}
