/** internal/audit, sysTableDrift and schemaDrift: do all audited nodes have the same tables
    with the same definitions? */
module Drift {
  import opened Strings
  import opened Sorting
  import opened Findings
  import opened Cluster
  import opened Groups
  import opened Changes

  /** A node whose definitions were read: fingerprint by table. */
  datatype Audited = Audited(node: string, tables: map<string, string>)

  const ABSENT := "absent"

  function Lookup(a: Audited, table: string): string {
    if table in a.tables then a.tables[table] else ABSENT
  }

  ghost function TablesOf(nodes: seq<Audited>): (r: set<string>)
    ensures forall t :: t in r <==> exists a :: a in nodes && t in a.tables
  {
    set a, t | a in nodes && t in a.tables :: t
  }

  ghost predicate Differs(nodes: seq<Audited>, table: string) {
    exists a, b :: a in nodes && b in nodes && Lookup(a, table) != Lookup(b, table)
  }

  ghost function DriftedSet(nodes: seq<Audited>): (r: set<string>)
    ensures forall t :: t in r <==> t in TablesOf(nodes) && Differs(nodes, t)
  {
    set t | t in TablesOf(nodes) && Differs(nodes, t)
  }

  ghost function Drifted(nodes: seq<Audited>): seq<string> {
    Listing(DriftedSet(nodes))
  }

  ghost predicate SameDefinitions(nodes: seq<Audited>) {
    forall a, b :: a in nodes && b in nodes ==> a.tables == b.tables
  }

  /** Fingerprints are sixteen hexadecimal digits; "absent" is not one of them. */
  ghost predicate Fingerprinted(nodes: seq<Audited>) {
    forall a, t :: a in nodes && t in a.tables ==> |a.tables[t]| == 16
  }

  /** No table is reported exactly when the maps are equal, key by key and value by value. */
  lemma NoDriftIffSame(nodes: seq<Audited>)
    requires Fingerprinted(nodes)
    ensures DriftedSet(nodes) == {} <==> SameDefinitions(nodes)
  {
    if DriftedSet(nodes) == {} {
      forall a, b | a in nodes && b in nodes
        ensures a.tables == b.tables
      {
        forall t
          ensures t in a.tables <==> t in b.tables
          ensures t in a.tables && t in b.tables ==> a.tables[t] == b.tables[t]
        {
          if t in a.tables || t in b.tables {
            assert t in TablesOf(nodes);
            assert !Differs(nodes, t);
            assert Lookup(a, t) == Lookup(b, t);
            assert |ABSENT| == 6;
          }
        }
      }
    } else {
      var t :| t in DriftedSet(nodes);
      var a, b :| a in nodes && b in nodes && Lookup(a, t) != Lookup(b, t);
      assert a.tables != b.tables;
    }
  }

  /** What is reported does not depend on the order the nodes were read in. */
  lemma DriftIgnoresNodeOrder(a: seq<Audited>, b: seq<Audited>)
    requires multiset(a) == multiset(b)
    ensures Drifted(a) == Drifted(b) && TablesOf(a) == TablesOf(b)
  {
    forall x
      ensures x in a <==> x in b
    {
      assert x in a <==> x in multiset(a);
      assert x in b <==> x in multiset(b);
    }
    assert DriftedSet(a) == DriftedSet(b);
  }

  function Bucketed(nodes: seq<Audited>, table: string): seq<Member> {
    seq(|nodes|, i requires 0 <= i < |nodes| => Member(Lookup(nodes[i], table), nodes[i].node))
  }

  lemma BucketedHas(nodes: seq<Audited>, table: string, a: Audited)
    requires a in nodes
    ensures Member(Lookup(a, table), a.node) in Bucketed(nodes, table)
  {
    var i :| 0 <= i < |nodes| && nodes[i] == a;
    assert Bucketed(nodes, table)[i] in Bucketed(nodes, table);
  }

  lemma BucketedFrom(nodes: seq<Audited>, table: string, p: Member) returns (a: Audited)
    requires p in Bucketed(nodes, table)
    ensures a in nodes && p.value == Lookup(a, table)
  {
    var ps := Bucketed(nodes, table);
    var i :| 0 <= i < |ps| && ps[i] == p;
    a := nodes[i];
  }

  lemma SpreadIffDiffers(nodes: seq<Audited>, table: string)
    ensures Spread(Bucketed(nodes, table)) <==> Differs(nodes, table)
  {
    var ps := Bucketed(nodes, table);
    if Differs(nodes, table) {
      var a, b :| a in nodes && b in nodes && Lookup(a, table) != Lookup(b, table);
      BucketedHas(nodes, table, a);
      BucketedHas(nodes, table, b);
      var p, q := Member(Lookup(a, table), a.node), Member(Lookup(b, table), b.node);
      assert p in ps && q in ps && p.value != q.value;
    }
    if Spread(ps) {
      var p, q :| p in ps && q in ps && p.value != q.value;
      var a := BucketedFrom(nodes, table, p);
      var b := BucketedFrom(nodes, table, q);
    }
  }

  lemma OneBucketIff(nodes: seq<Audited>, table: string)
    ensures |Grouped(Bucketed(nodes, table))| > 1 <==> Differs(nodes, table)
  {
    MoreThanOneBucketIff(Bucketed(nodes, table));
    SpreadIffDiffers(nodes, table);
  }

  method TableNames(nodes: seq<Audited>) returns (names: seq<string>)
    ensures names == Listing(TablesOf(nodes))
  {
    var tables: set<string> := {};
    for i := 0 to |nodes|
      invariant tables == TablesOf(nodes[..i])
    {
      assert nodes[..i + 1] == nodes[..i] + [nodes[i]];
      tables := tables + nodes[i].tables.Keys;
    }
    assert nodes[..|nodes|] == nodes;
    names := SortedKeys(tables);
  }

  method GroupTable(nodes: seq<Audited>, table: string) returns (groups: Buckets)
    ensures groups == Grouped(Bucketed(nodes, table))
  {
    groups := map[];
    ghost var ps := Bucketed(nodes, table);
    for i := 0 to |nodes|
      invariant groups == Grouped(ps[..i])
    {
      var fp := if table in nodes[i].tables then nodes[i].tables[table] else ABSENT;
      assert ps[..i + 1][..i] == ps[..i];
      groups := groups[fp := (if fp in groups then groups[fp] else []) + [nodes[i].node]];
    }
    assert ps[..|nodes|] == ps;
  }

  /** What is said of each table: which nodes hold which definition. */
  ghost function DetailsOf(nodes: seq<Audited>, tables: seq<string>): seq<string> {
    if tables == [] then []
    else DetailsOf(nodes, tables[..|tables| - 1]) + [Described(Grouped(Bucketed(nodes, tables[|tables| - 1])))]
  }

  /** The loop both checks share: the tables that differ, ascending, and what to say of each. */
  method CollectDrift(nodes: seq<Audited>) returns (count: nat, drifted: seq<string>, details: seq<string>)
    ensures count == |TablesOf(nodes)|
    ensures drifted == Drifted(nodes)
    ensures details == DetailsOf(nodes, drifted)
  {
    var names := TableNames(nodes);
    drifted, details := [], [];
    for i := 0 to |names|
      invariant drifted == KeepDrifted(nodes, names[..i])
      invariant details == DetailsOf(nodes, drifted)
    {
      KeepStep(nodes, names, i);
      drifted, details := CheckTable(nodes, names[i], drifted, details);
    }
    assert names[..|names|] == names;
    KeptIsListing(nodes, names);
    ListingSorted(TablesOf(nodes));
    count := |names|;
  }

  method CheckTable(nodes: seq<Audited>, table: string, drifted: seq<string>, details: seq<string>)
      returns (drifted': seq<string>, details': seq<string>)
    requires details == DetailsOf(nodes, drifted)
    ensures drifted' == if Differs(nodes, table) then drifted + [table] else drifted
    ensures details' == DetailsOf(nodes, drifted')
  {
    drifted', details' := drifted, details;
    var groups := GroupTable(nodes, table);
    OneBucketIff(nodes, table);
    if |groups| > 1 {
      var d := DescribeGroups(groups);
      drifted', details' := drifted + [table], details + [d];
      assert drifted'[..|drifted|] == drifted;
    }
  }

  ghost function KeepDrifted(nodes: seq<Audited>, names: seq<string>): seq<string> {
    if names == [] then []
    else
      var before := KeepDrifted(nodes, names[..|names| - 1]);
      if Differs(nodes, names[|names| - 1]) then before + [names[|names| - 1]] else before
  }

  lemma {:induction false} KeepStep(nodes: seq<Audited>, names: seq<string>, i: nat)
    requires i < |names|
    ensures var before := KeepDrifted(nodes, names[..i]);
            KeepDrifted(nodes, names[..i + 1]) == if Differs(nodes, names[i]) then before + [names[i]] else before
  {
    assert names[..i + 1][..i] == names[..i];
  }

  lemma {:induction false} KeptMembers(nodes: seq<Audited>, names: seq<string>)
    ensures forall t :: t in KeepDrifted(nodes, names) <==> t in names && Differs(nodes, t)
    ensures StrictlyAscending(names) ==> StrictlyAscending(KeepDrifted(nodes, names))
  {
    if names != [] {
      var init, last := names[..|names| - 1], names[|names| - 1];
      assert names == init + [last];
      KeptMembers(nodes, init);
      if StrictlyAscending(names) {
        assert StrictlyAscending(init) by {
          forall i, j | 0 <= i < j < |init|
            ensures AtMost(init[i], init[j]) && init[i] != init[j]
          {
            assert init[i] == names[i] && init[j] == names[j];
          }
        }
        forall t | t in KeepDrifted(nodes, init)
          ensures AtMost(t, last) && t != last
        {
          var i :| 0 <= i < |init| && init[i] == t;
          assert names[i] == t && names[|names| - 1] == last;
        }
      }
    }
  }

  lemma {:induction false} KeptIsListing(nodes: seq<Audited>, names: seq<string>)
    requires names == Listing(TablesOf(nodes))
    ensures KeepDrifted(nodes, names) == Drifted(nodes)
  {
    ListingSorted(TablesOf(nodes));
    ListingDistinct(TablesOf(nodes));
    KeptMembers(nodes, names);
    AscendingIsListing(KeepDrifted(nodes, names), DriftedSet(nodes));
  }

  // ----- the two checks

  const SYSTABLES := "systables/drift"
  const SCHEMA := "schema/drift"
  const MAX_DRIFTED_LISTED := 5

  function Unread(check: string, nodes: seq<string>): (r: seq<Finding>)
    ensures |r| == |nodes|
  {
    if nodes == [] then []
    else Unread(check, nodes[..|nodes| - 1]) + [Finding(check, nodes[|nodes| - 1], WARN, None)]
  }

  function PerTable(check: string, prefix: string, tables: seq<string>): (r: seq<Finding>)
    ensures |r| == |tables|
  {
    if tables == [] then []
    else PerTable(check, prefix, tables[..|tables| - 1]) + [Finding(check, prefix + tables[|tables| - 1], BAD, None)]
  }

  method ReportTables(check: string, prefix: string, tables: seq<string>) returns (out: seq<Finding>)
    ensures out == PerTable(check, prefix, tables)
  {
    out := [];
    for i := 0 to |tables|
      invariant out == PerTable(check, prefix, tables[..i])
    {
      assert tables[..i + 1][..i] == tables[..i];
      out := out + [Finding(check, prefix + tables[i], BAD, None)];
    }
    assert tables[..|tables|] == tables;
  }

  function Identical(check: string, name: string, count: nat): Finding {
    Finding(check, name, OK, Some(count as real))
  }

  /** The nodes with system table definitions, and the names of those without. */
  function SysAudited(live: seq<Snapshot>): seq<Audited> {
    if live == [] then []
    else
      var before, s := SysAudited(live[..|live| - 1]), live[|live| - 1];
      if |s.sysTables| == 0 then before else before + [Audited(s.node, s.sysTables)]
  }

  function SysUnread(live: seq<Snapshot>): seq<string> {
    if live == [] then []
    else
      var before, s := SysUnread(live[..|live| - 1]), live[|live| - 1];
      if |s.sysTables| == 0 then before + [s.node] else before
  }

  ghost function SysTableVerdict(name: string, nodes: seq<Audited>): seq<Finding> {
    if |nodes| < 2 then []
    else if Drifted(nodes) == [] then [Identical(SYSTABLES, name, |TablesOf(nodes)|)]
    else PerTable(SYSTABLES, "mysql.", Drifted(nodes))
  }

  method SysTableDrift(name: string, live: seq<Snapshot>) returns (out: seq<Finding>, details: seq<string>)
    ensures out == Unread(SYSTABLES, SysUnread(live)) + SysTableVerdict(name, SysAudited(live))
    ensures |SysAudited(live)| >= 2 ==> details == DetailsOf(SysAudited(live), Drifted(SysAudited(live)))
  {
    var audited, unread := SplitSys(live);
    out, details := unread, [];
    if |audited| < 2 {
      return;
    }
    var count, drifted;
    count, drifted, details := CollectDrift(audited);
    var named := ReportTables(SYSTABLES, "mysql.", drifted);
    out := out + named;
    if |drifted| == 0 {
      out := out + [Finding(SYSTABLES, name, OK, Some(count as real))];
    }
  }

  method SplitSys(live: seq<Snapshot>) returns (audited: seq<Audited>, unread: seq<Finding>)
    ensures audited == SysAudited(live)
    ensures unread == Unread(SYSTABLES, SysUnread(live))
  {
    audited, unread := [], [];
    for i := 0 to |live|
      invariant audited == SysAudited(live[..i])
      invariant unread == Unread(SYSTABLES, SysUnread(live[..i]))
    {
      assert live[..i + 1][..i] == live[..i];
      if |live[i].sysTables| == 0 {
        unread := unread + [Finding(SYSTABLES, live[i].node, WARN, None)];
        continue;
      }
      audited := audited + [Audited(live[i].node, live[i].sysTables)];
    }
    assert live[..|live|] == live;
  }

  /** nil is "not read"; an empty map is "read, and there are none". */
  function AppAudited(live: seq<Snapshot>): seq<Audited> {
    if live == [] then []
    else
      var before, s := AppAudited(live[..|live| - 1]), live[|live| - 1];
      if s.appTables.None? then before else before + [Audited(s.node, s.appTables.value)]
  }

  function AppUnread(live: seq<Snapshot>): seq<string> {
    if live == [] then []
    else
      var before, s := AppUnread(live[..|live| - 1]), live[|live| - 1];
      if s.appTables.None? then before + [s.node] else before
  }

  ghost function SchemaVerdict(name: string, nodes: seq<Audited>): seq<Finding> {
    if |nodes| < 2 then []
    else
      var d := Drifted(nodes);
      if d == [] then [Identical(SCHEMA, name, |TablesOf(nodes)|)]
      else if |d| <= MAX_DRIFTED_LISTED then PerTable(SCHEMA, "", d)
      else [Finding(SCHEMA, name, BAD, Some(|d| as real))]
  }

  /** `listed` are the tables the report names, `more` how many it only counts. */
  method SchemaDrift(name: string, live: seq<Snapshot>) returns (out: seq<Finding>, listed: seq<string>, more: nat)
    ensures out == Unread(SCHEMA, AppUnread(live)) + SchemaVerdict(name, AppAudited(live))
    ensures |AppAudited(live)| >= 2 ==>
              |listed| + more == |Drifted(AppAudited(live))| && listed <= Drifted(AppAudited(live))
  {
    var audited, unread := SplitApp(live);
    out, listed, more := unread, [], 0;
    if |audited| < 2 {
      return;
    }
    var count, drifted, details := CollectDrift(audited);
    if |drifted| == 0 {
      out := out + [Finding(SCHEMA, name, OK, Some(count as real))];
    } else if |drifted| <= MAX_DRIFTED_LISTED {
      var named := ReportTables(SCHEMA, "", drifted);
      out := out + named;
      listed := drifted;
    } else {
      listed := drifted[..MAX_DRIFTED_LISTED];
      more := |drifted| - MAX_DRIFTED_LISTED;
      out := out + [Finding(SCHEMA, name, BAD, Some(|drifted| as real))];
    }
  }

  method SplitApp(live: seq<Snapshot>) returns (audited: seq<Audited>, unread: seq<Finding>)
    ensures audited == AppAudited(live)
    ensures unread == Unread(SCHEMA, AppUnread(live))
  {
    audited, unread := [], [];
    for i := 0 to |live|
      invariant audited == AppAudited(live[..i])
      invariant unread == Unread(SCHEMA, AppUnread(live[..i]))
    {
      assert live[..i + 1][..i] == live[..i];
      if live[i].appTables.None? {
        unread := unread + [Finding(SCHEMA, live[i].node, WARN, None)];
        continue;
      }
      audited := audited + [Audited(live[i].node, live[i].appTables.value)];
    }
    assert live[..|live|] == live;
  }

  ghost predicate SaysOK(fs: seq<Finding>) {
    exists f :: f in fs && f.status == OK
  }

  /** The OK verdict is said exactly when all audited nodes hold the same definitions; then
      it is the whole verdict, and it counts the tables. */
  lemma VerdictDecidesEquality(name: string, nodes: seq<Audited>)
    requires |nodes| >= 2 && Fingerprinted(nodes)
    ensures SaysOK(SysTableVerdict(name, nodes)) <==> SameDefinitions(nodes)
    ensures SaysOK(SchemaVerdict(name, nodes)) <==> SameDefinitions(nodes)
    ensures SameDefinitions(nodes) ==>
              && SysTableVerdict(name, nodes) == [Finding("systables/drift", name, OK, Some(|TablesOf(nodes)| as real))]
              && SchemaVerdict(name, nodes) == [Finding("schema/drift", name, OK, Some(|TablesOf(nodes)| as real))]
  {
    NoDriftIffSame(nodes);
    if DriftedSet(nodes) == {} {
      assert Drifted(nodes) == [];
      assert SysTableVerdict(name, nodes)[0].status == OK && SchemaVerdict(name, nodes)[0].status == OK;
    } else {
      ListingSorted(DriftedSet(nodes));
      AllBad(SYSTABLES, "mysql.", Drifted(nodes));
      AllBad(SCHEMA, "", Drifted(nodes));
    }
  }

  lemma {:induction false} AllBad(check: string, prefix: string, tables: seq<string>)
    ensures forall f :: f in PerTable(check, prefix, tables) ==> f.status == BAD
  {
    if tables != [] {
      AllBad(check, prefix, tables[..|tables| - 1]);
    }
  }

  /** fs is one finding per table of the set, and nothing else. */
  ghost predicate OnePerTable(fs: seq<Finding>, check: string, prefix: string, tables: set<string>) {
    && |fs| == |tables|
    && (forall t :: t in tables ==> DriftOf(check, prefix, t) in fs)
    && (forall f :: f in fs ==> TableOf(prefix, f) in tables && f == DriftOf(check, prefix, TableOf(prefix, f)))
  }

  function DriftOf(check: string, prefix: string, table: string): Finding {
    Finding(check, prefix + table, BAD, None)
  }

  function TableOf(prefix: string, f: Finding): string {
    if prefix <= f.target then f.target[|prefix|..] else ""
  }

  /** Otherwise exactly the differing tables are reported, or their exact number is. */
  lemma DriftReported(name: string, nodes: seq<Audited>)
    requires |nodes| >= 2 && DriftedSet(nodes) != {}
    ensures OnePerTable(SysTableVerdict(name, nodes), "systables/drift", "mysql.", DriftedSet(nodes))
    ensures |DriftedSet(nodes)| <= 5 ==>
              OnePerTable(SchemaVerdict(name, nodes), "schema/drift", "", DriftedSet(nodes))
    ensures |DriftedSet(nodes)| > 5 ==>
              SchemaVerdict(name, nodes) == [Finding("schema/drift", name, BAD, Some(|DriftedSet(nodes)| as real))]
  {
    SysTablesReported(name, nodes);
    SchemaReported(name, nodes);
  }

  lemma SysTablesReported(name: string, nodes: seq<Audited>)
    requires |nodes| >= 2 && DriftedSet(nodes) != {}
    ensures OnePerTable(SysTableVerdict(name, nodes), SYSTABLES, "mysql.", DriftedSet(nodes))
  {
    ListingSorted(DriftedSet(nodes));
    OneFor(SYSTABLES, "mysql.", DriftedSet(nodes));
  }

  lemma SchemaReported(name: string, nodes: seq<Audited>)
    requires |nodes| >= 2 && DriftedSet(nodes) != {}
    ensures |DriftedSet(nodes)| <= MAX_DRIFTED_LISTED ==>
              OnePerTable(SchemaVerdict(name, nodes), SCHEMA, "", DriftedSet(nodes))
    ensures |DriftedSet(nodes)| > MAX_DRIFTED_LISTED ==>
              SchemaVerdict(name, nodes) == [Finding(SCHEMA, name, BAD, Some(|DriftedSet(nodes)| as real))]
  {
    if |DriftedSet(nodes)| <= MAX_DRIFTED_LISTED {
      FewReported(name, nodes);
    } else {
      ListingSorted(DriftedSet(nodes));
    }
  }

  lemma FewReported(name: string, nodes: seq<Audited>)
    requires |nodes| >= 2 && DriftedSet(nodes) != {} && |DriftedSet(nodes)| <= MAX_DRIFTED_LISTED
    ensures OnePerTable(SchemaVerdict(name, nodes), SCHEMA, "", DriftedSet(nodes))
  {
    ListingSorted(DriftedSet(nodes));
    OneFor(SCHEMA, "", DriftedSet(nodes));
  }

  lemma {:induction false} OneFor(check: string, prefix: string, tables: set<string>)
    ensures OnePerTable(PerTable(check, prefix, Listing(tables)), check, prefix, tables)
  {
    ListingSorted(tables);
    PerTableMembers(check, prefix, Listing(tables));
  }

  lemma {:induction false} PerTableMembers(check: string, prefix: string, tables: seq<string>)
    ensures forall t :: t in tables ==> DriftOf(check, prefix, t) in PerTable(check, prefix, tables)
    ensures forall f :: f in PerTable(check, prefix, tables) ==>
              TableOf(prefix, f) in tables && f == DriftOf(check, prefix, TableOf(prefix, f))
  {
    if tables != [] {
      var init, last := tables[..|tables| - 1], tables[|tables| - 1];
      assert tables == init + [last];
      PerTableMembers(check, prefix, init);
      assert TableOf(prefix, DriftOf(check, prefix, last)) == last;
    }
  }

  /** However many tables drift, the schema check never adds more than five findings to the
      one per unread node. */
  lemma {:induction false} SchemaFindingsBounded(name: string, live: seq<Snapshot>)
    ensures |Unread(SCHEMA, AppUnread(live)) + SchemaVerdict(name, AppAudited(live))|
         <= |AppUnread(live)| + 5
    ensures |AppUnread(live)| + |AppAudited(live)| == |live|
  {
    SplitSizes(live);
  }

  lemma {:induction false} SplitSizes(live: seq<Snapshot>)
    ensures |AppUnread(live)| + |AppAudited(live)| == |live|
  {
    if live != [] {
      SplitSizes(live[..|live| - 1]);
    }
  }

  // ----- who is compared, and who is not

  /** The WARN findings name the nodes without system tables; the others are compared. */
  lemma {:induction false} SysSplitReads(live: seq<Snapshot>)
    ensures forall n :: n in SysUnread(live) <==> exists s :: s in live && s.sysTables == map[] && s.node == n
    ensures forall a :: a in SysAudited(live) <==>
              exists s :: s in live && s.sysTables != map[] && a == Audited(s.node, s.sysTables)
    ensures |SysUnread(live)| + |SysAudited(live)| == |live|
  {
    if live != [] {
      var init, last := live[..|live| - 1], live[|live| - 1];
      InitLast(live);
      SysSplitReads(init);
      NoEntries(last.sysTables);
      assert forall s :: s in live <==> s in init || s == last;
    }
  }

  lemma NoEntries(m: map<string, string>)
    ensures |m| == 0 <==> m == map[]
  {
    if m != map[] {
      var k :| k in m;
      assert |m.Keys| > 0;
    }
  }

  /** The same for application tables, where a node without any was still read. */
  lemma {:induction false} AppSplitReads(live: seq<Snapshot>)
    ensures forall n :: n in AppUnread(live) <==> exists s :: s in live && s.appTables.None? && s.node == n
    ensures forall a :: a in AppAudited(live) <==>
              exists s :: s in live && s.appTables.Some? && a == Audited(s.node, s.appTables.value)
    ensures |AppUnread(live)| + |AppAudited(live)| == |live|
  {
    if live != [] {
      var init, last := live[..|live| - 1], live[|live| - 1];
      InitLast(live);
      AppSplitReads(init);
      assert forall s :: s in live <==> s in init || s == last;
    }
  }

  lemma {:induction false} UnreadReads(check: string, nodes: seq<string>, f: Finding)
    ensures f in Unread(check, nodes) <==> f.target in nodes && f == Finding(check, f.target, WARN, None)
  {
    if nodes != [] {
      InitLast(nodes);
      UnreadReads(check, nodes[..|nodes| - 1], f);
    }
  }

  /** Fewer than two nodes are not compared. */
  lemma TooFewToCompare(name: string, nodes: seq<Audited>)
    requires |nodes| < 2
    ensures SysTableVerdict(name, nodes) == [] && SchemaVerdict(name, nodes) == []
  {
  }

  /** For one table, the nodes are bucketed by its fingerprint, or as "absent". */
  lemma BucketedReads(nodes: seq<Audited>, table: string, p: Member)
    ensures p in Bucketed(nodes, table)
       <==> exists a :: a in nodes && a.node == p.node
                        && p.value == if table in a.tables then a.tables[table] else "absent"
  {
    var ps := Bucketed(nodes, table);
    if p in ps {
      var i :| 0 <= i < |ps| && ps[i] == p;
      assert nodes[i] in nodes;
    }
    if a :| a in nodes && a.node == p.node && p.value == if table in a.tables then a.tables[table] else "absent" {
      var i :| 0 <= i < |nodes| && nodes[i] == a;
      assert ps[i] == p;
    }
  }
}
