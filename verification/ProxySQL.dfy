/** internal/proxysql: the proxy's server list against the cluster, with the hostgroup the
    monitor manages on its own left out of every statement. */
module ProxySQL {
  import opened Strings
  import opened Sorting
  import opened Findings
  import opened Cluster

  datatype Server = Server(hostgroup: int, hostname: string, status: string)

  datatype HostgroupSet = HostgroupSet(writer: int, backupWriter: int, reader: int, offline: int, active: int)

  /** One read of the admin interface; an unread monitor flag is not a flag set to false. */
  datatype Proxy = Proxy(err: string, servers: seq<Server>, hostgroups: seq<HostgroupSet>, monitorEnabled: Option<bool>)

  ghost predicate Managed(hostgroups: seq<HostgroupSet>, hostgroup: int) {
    exists h :: h in hostgroups && h.offline == hostgroup
  }

  method MonitorManaged(hostgroups: seq<HostgroupSet>, hostgroup: int) returns (managed: bool)
    ensures managed <==> Managed(hostgroups, hostgroup)
  {
    for i := 0 to |hostgroups|
      invariant forall j :: 0 <= j < i ==> hostgroups[j].offline != hostgroup
    {
      if hostgroups[i].offline == hostgroup {
        return true;
      }
    }
    return false;
  }

  /** The servers outside the monitor's own hostgroups. */
  ghost function Serving(servers: seq<Server>, hostgroups: seq<HostgroupSet>): seq<Server> {
    if servers == [] then []
    else
      var before := Serving(servers[..|servers| - 1], hostgroups);
      if Managed(hostgroups, servers[|servers| - 1].hostgroup) then before else before + [servers[|servers| - 1]]
  }

  // ----- the monitor itself

  const MONITOR := "proxysql/monitor"

  function Inactive(hostgroups: seq<HostgroupSet>): seq<Finding> {
    if hostgroups == [] then []
    else
      var before := Inactive(hostgroups[..|hostgroups| - 1]);
      if hostgroups[|hostgroups| - 1].active != 0 then before
      else before + [Finding(MONITOR, GroupName(hostgroups[|hostgroups| - 1].writer), BAD, None)]
  }

  function Signed(n: int): string {
    if n < 0 then "-" + Decimal(-n) else Decimal(n)
  }

  function GroupName(g: int): string {
    "hostgroup " + Signed(g)
  }

  function Monitor(snap: Proxy): seq<Finding> {
    (if snap.monitorEnabled == Some(false) then [Finding(MONITOR, "proxysql", BAD, None)] else [])
    + Inactive(snap.hostgroups)
  }

  method MonitorRunning(snap: Proxy) returns (out: seq<Finding>)
    ensures out == Monitor(snap)
  {
    out := [];
    if snap.monitorEnabled.Some? && !snap.monitorEnabled.value {
      out := out + [Finding(MONITOR, "proxysql", BAD, None)];
    }
    ghost var first := out;
    for i := 0 to |snap.hostgroups|
      invariant out == first + Inactive(snap.hostgroups[..i])
    {
      assert snap.hostgroups[..i + 1][..i] == snap.hostgroups[..i];
      if snap.hostgroups[i].active != 0 {
        continue;
      }
      out := out + [Finding(MONITOR, GroupName(snap.hostgroups[i].writer), BAD, None)];
    }
    assert snap.hostgroups[..|snap.hostgroups|] == snap.hostgroups;
  }

  // ----- one node

  const MISSING := "proxysql/missing"
  const DISAGREEMENT := "proxysql/disagreement"

  /** One of the node's own names is the server's host name, ignoring case. */
  ghost predicate Answers(node: Snapshot, srv: Server) {
    exists addr :: addr in AddressSet(node) && EqualFold(addr, srv.hostname)
  }

  ghost function Matches(node: Snapshot, serving: seq<Server>): seq<Server> {
    if serving == [] then []
    else
      var before := Matches(node, serving[..|serving| - 1]);
      if Answers(node, serving[|serving| - 1]) then before + [serving[|serving| - 1]] else before
  }

  predicate Synced(node: Snapshot) {
    "wsrep_local_state_comment" in node.status && EqualFold(node.status["wsrep_local_state_comment"].text, "synced")
  }

  predicate Online(srv: Server) {
    EqualFold(srv.status, "ONLINE")
  }

  /** What one server says against one node: nothing when they agree. */
  function Disagreement(node: Snapshot, srv: Server): seq<Finding> {
    if Online(srv) && !Synced(node) then [Finding(DISAGREEMENT, node.node, BAD, None)]
    else if !Online(srv) && Synced(node) then [Finding(DISAGREEMENT, node.node, WARN, None)]
    else []
  }

  function Disagreements(node: Snapshot, matched: seq<Server>): seq<Finding> {
    if matched == [] then []
    else Disagreements(node, matched[..|matched| - 1]) + Disagreement(node, matched[|matched| - 1])
  }

  ghost function NodeFindings(node: Snapshot, serving: seq<Server>): seq<Finding> {
    if !node.Readable() then []
    else if Matches(node, serving) == [] then [Finding(MISSING, node.node, BAD, None)]
    else Disagreements(node, Matches(node, serving))
  }

  ghost function AllNodes(nodes: seq<Snapshot>, serving: seq<Server>): seq<Finding> {
    if nodes == [] then []
    else AllNodes(nodes[..|nodes| - 1], serving) + NodeFindings(nodes[|nodes| - 1], serving)
  }

  method MatchServer(names: seq<string>, srv: Server) returns (found: bool)
    ensures found <==> exists addr :: addr in names && EqualFold(addr, srv.hostname)
  {
    for i := 0 to |names|
      invariant forall j :: 0 <= j < i ==> !EqualFold(names[j], srv.hostname)
    {
      if EqualFold(names[i], srv.hostname) {
        assert names[i] in names;
        return true;
      }
    }
    return false;
  }

  lemma {:induction false} ServingSnoc(servers: seq<Server>, hostgroups: seq<HostgroupSet>, srv: Server)
    ensures Serving(servers + [srv], hostgroups)
         == if Managed(hostgroups, srv.hostgroup) then Serving(servers, hostgroups)
            else Serving(servers, hostgroups) + [srv]
  {
    assert (servers + [srv])[..|servers|] == servers;
  }

  lemma {:induction false} MatchesSnoc(node: Snapshot, serving: seq<Server>, srv: Server)
    ensures Matches(node, serving + [srv])
         == if Answers(node, srv) then Matches(node, serving) + [srv] else Matches(node, serving)
  {
    assert (serving + [srv])[..|serving|] == serving;
  }

  method CollectMatches(snap: Proxy, node: Snapshot) returns (matched: seq<Server>)
    ensures matched == Matches(node, Serving(snap.servers, snap.hostgroups))
  {
    matched := [];
    var names := Addresses(node);
    for i := 0 to |snap.servers|
      invariant matched == Matches(node, Serving(snap.servers[..i], snap.hostgroups))
    {
      var srv := snap.servers[i];
      assert snap.servers[..i + 1] == snap.servers[..i] + [srv];
      ServingSnoc(snap.servers[..i], snap.hostgroups, srv);
      MatchesSnoc(node, Serving(snap.servers[..i], snap.hostgroups), srv);
      var managed := MonitorManaged(snap.hostgroups, srv.hostgroup);
      if managed {
        continue;
      }
      var found := MatchServer(names, srv);
      if found {
        matched := matched + [srv];
      }
    }
    assert snap.servers[..|snap.servers|] == snap.servers;
  }

  method AuditNode(snap: Proxy, node: Snapshot) returns (out: seq<Finding>)
    ensures out == NodeFindings(node, Serving(snap.servers, snap.hostgroups))
  {
    out := [];
    if !node.Readable() {
      return;
    }
    var matched := CollectMatches(snap, node);
    if |matched| == 0 {
      return [Finding(MISSING, node.node, BAD, None)];
    }
    out := Disagree(node, matched);
  }

  method Disagree(node: Snapshot, matched: seq<Server>) returns (out: seq<Finding>)
    ensures out == Disagreements(node, matched)
  {
    out := [];
    var synced := Synced(node);
    for i := 0 to |matched|
      invariant out == Disagreements(node, matched[..i])
    {
      assert matched[..i + 1][..i] == matched[..i];
      var online := EqualFold(matched[i].status, "ONLINE");
      if online && !synced {
        out := out + [Finding(DISAGREEMENT, node.node, BAD, None)];
      } else if !online && synced {
        out := out + [Finding(DISAGREEMENT, node.node, WARN, None)];
      }
    }
    assert matched[..|matched|] == matched;
  }

  // ----- hostgroups with nothing serving

  const HOSTGROUP := "proxysql/hostgroup"

  /** A hostgroup number, as the key the servers are bucketed by. */
  datatype GroupId = GroupId(n: int)

  function InGroup(servers: seq<Server>, g: int): seq<Server> {
    if servers == [] then []
    else
      var before := InGroup(servers[..|servers| - 1], g);
      if servers[|servers| - 1].hostgroup == g then before + [servers[|servers| - 1]] else before
  }

  ghost predicate Dead(servers: seq<Server>, g: int) {
    InGroup(servers, g) != [] && forall srv :: srv in InGroup(servers, g) ==> !Online(srv)
  }

  ghost function GroupsOf(servers: seq<Server>): (r: set<GroupId>)
    ensures forall g :: g in r <==> InGroup(servers, g.n) != []
  {
    if servers == [] then {}
    else GroupsOf(servers[..|servers| - 1]) + {GroupId(servers[|servers| - 1].hostgroup)}
  }

  predicate Lower(a: GroupId, b: GroupId) {
    a.n <= b.n
  }

  lemma LowerOrder()
    ensures TotalPreorder(Lower)
  {
  }

  ghost predicate Ascending(gs: seq<GroupId>) {
    forall i, j :: 0 <= i < j < |gs| ==> gs[i].n < gs[j].n
  }

  function GroupFinding(g: GroupId): Finding {
    Finding(HOSTGROUP, GroupName(g.n), BAD, Some(0.0))
  }

  function GroupFindings(gs: seq<GroupId>): seq<Finding> {
    if gs == [] then [] else GroupFindings(gs[..|gs| - 1]) + [GroupFinding(gs[|gs| - 1])]
  }

  /** The serving hostgroups that have servers and none ONLINE, ascending. */
  ghost predicate DeadGroups(gs: seq<GroupId>, serving: seq<Server>) {
    Ascending(gs) && forall g :: g in gs <==> Dead(serving, g.n)
  }

  lemma {:induction false} AscendingUnique(a: seq<GroupId>, b: seq<GroupId>)
    requires Ascending(a) && Ascending(b) && forall g :: g in a <==> g in b
    ensures a == b
  {
    if a == [] {
      HeadMember(b);
    } else {
      assert a[0] in b && (b != [] ==> b[0] in a);
      var i :| 0 <= i < |b| && b[i] == a[0];
      var j :| 0 <= j < |a| && a[j] == b[0];
      assert a[0] == b[0];
      TailMembers(a);
      TailMembers(b);
      AscendingUnique(a[1..], b[1..]);
    }
  }

  lemma HeadMember(a: seq<GroupId>)
    ensures a != [] ==> a[0] in a
  {
  }

  lemma TailMembers(a: seq<GroupId>)
    requires a != [] && Ascending(a)
    ensures forall g :: g in a[1..] <==> g in a && g != a[0]
  {
    assert a == [a[0]] + a[1..];
  }

  method Bucket(servers: seq<Server>) returns (byGroup: map<GroupId, seq<Server>>)
    ensures byGroup.Keys == GroupsOf(servers)
    ensures forall g :: g in byGroup ==> byGroup[g] == InGroup(servers, g.n)
  {
    byGroup := map[];
    for i := 0 to |servers|
      invariant byGroup.Keys == GroupsOf(servers[..i])
      invariant forall g :: g in byGroup ==> byGroup[g] == InGroup(servers[..i], g.n)
    {
      assert servers[..i + 1][..i] == servers[..i];
      var g := GroupId(servers[i].hostgroup);
      assert g !in byGroup ==> InGroup(servers[..i], g.n) == [];
      byGroup := byGroup[g := (if g in byGroup then byGroup[g] else []) + [servers[i]]];
    }
    assert servers[..|servers|] == servers;
  }

  /** sort.Ints over the keys, collected in whatever order the map hands them out. */
  method SortGroups(keys: set<GroupId>) returns (gs: seq<GroupId>)
    ensures Ascending(gs) && forall g :: g in gs <==> g in keys
  {
    var order: seq<GroupId> := [];
    var left := keys;
    while left != {}
      invariant left <= keys
      invariant forall g :: g in order <==> g in keys && g !in left
      invariant forall i, j :: 0 <= i < j < |order| ==> order[i] != order[j]
    {
      var g :| g in left;
      order := order + [g];
      left := left - {g};
    }
    LowerOrder();
    var a := new GroupId[|order|](i requires 0 <= i < |order| => order[i]);
    assert a[..] == order;
    SortInPlace(a, Lower);
    gs := a[..];
    SortIsStable(Lower, order);
    SortContents(Lower, order);
    SortedDistinct(gs, order);
  }

  lemma SortedDistinct(gs: seq<GroupId>, order: seq<GroupId>)
    requires SortedBy(Lower, gs) && multiset(gs) == multiset(order)
    requires forall i, j :: 0 <= i < j < |order| ==> order[i] != order[j]
    ensures Ascending(gs)
  {
    forall i, j | 0 <= i < j < |gs|
      ensures gs[i].n < gs[j].n
    {
      assert Lower(gs[i], gs[j]);
      OnceEach(order, gs[i]);
      assert gs == gs[..j] + gs[j..];
      assert gs[..j][i] == gs[i] && gs[j..][0] == gs[j];
      assert gs[i] in multiset(gs[..j]) && gs[j] in multiset(gs[j..]);
      assert gs[i] == gs[j] ==> multiset(gs)[gs[i]] >= 2;
    }
  }

  lemma {:induction false} OnceEach(order: seq<GroupId>, g: GroupId)
    requires forall i, j :: 0 <= i < j < |order| ==> order[i] != order[j]
    ensures multiset(order)[g] <= 1
    ensures g !in order ==> multiset(order)[g] == 0
  {
    if order != [] {
      var init, last := order[..|order| - 1], order[|order| - 1];
      assert order == init + [last];
      OnceEach(init, g);
      assert last !in init;
    }
  }

  ghost function DeadOf(groups: seq<GroupId>, serving: seq<Server>): seq<GroupId> {
    if groups == [] then []
    else
      var before := DeadOf(groups[..|groups| - 1], serving);
      if Dead(serving, groups[|groups| - 1].n) then before + [groups[|groups| - 1]] else before
  }

  lemma {:induction false} DeadOfMembers(groups: seq<GroupId>, serving: seq<Server>)
    ensures forall g :: g in DeadOf(groups, serving) <==> g in groups && Dead(serving, g.n)
  {
    if groups != [] {
      var init, last := groups[..|groups| - 1], groups[|groups| - 1];
      assert groups == init + [last];
      DeadOfMembers(init, serving);
    }
  }

  lemma {:induction false} DeadOfAscending(groups: seq<GroupId>, serving: seq<Server>)
    requires Ascending(groups)
    ensures Ascending(DeadOf(groups, serving))
  {
    if groups != [] {
      var init := groups[..|groups| - 1];
      DeadOfAscending(init, serving);
      DeadOfMembers(init, serving);
      AboveAll(groups, |groups| - 1, DeadOf(init, serving));
    }
  }

  method CollectDead(snap: Proxy) returns (dead: seq<GroupId>)
    ensures DeadGroups(dead, Serving(snap.servers, snap.hostgroups))
  {
    ghost var serving := Serving(snap.servers, snap.hostgroups);
    var byGroup := Bucket(snap.servers);
    var groups := SortGroups(byGroup.Keys);
    dead := [];
    for i := 0 to |groups|
      invariant dead == DeadOf(groups[..i], serving)
    {
      assert groups[..i + 1][..i] == groups[..i];
      var g := groups[i];
      assert g in groups;
      DeadIff(snap, g.n);
      var managed := MonitorManaged(snap.hostgroups, g.n);
      if managed {
        continue;
      }
      var online := CountOnline(byGroup[g]);
      if online == 0 {
        dead := dead + [g];
      }
    }
    assert groups[..|groups|] == groups;
    DeadAreListed(snap, groups);
  }

  lemma {:induction false} DeadAreListed(snap: Proxy, groups: seq<GroupId>)
    requires Ascending(groups) && forall g :: g in groups <==> g in GroupsOf(snap.servers)
    ensures var serving := Serving(snap.servers, snap.hostgroups);
            DeadGroups(DeadOf(groups, serving), serving)
  {
    var serving := Serving(snap.servers, snap.hostgroups);
    DeadOfAscending(groups, serving);
    DeadOfMembers(groups, serving);
    forall g: GroupId | Dead(serving, g.n)
      ensures g in groups
    {
      DeadIff(snap, g.n);
    }
  }

  lemma {:induction false} DeadIff(snap: Proxy, g: int)
    ensures var all := InGroup(snap.servers, g);
            Dead(Serving(snap.servers, snap.hostgroups), g)
            <==> !Managed(snap.hostgroups, g) && all != [] && forall srv :: srv in all ==> !Online(srv)
  {
    InGroupServing(snap.servers, snap.hostgroups, g);
  }

  lemma AboveAll(groups: seq<GroupId>, i: nat, dead: seq<GroupId>)
    requires Ascending(groups) && i < |groups| && Ascending(dead)
    requires forall g :: g in dead ==> g in groups[..i]
    ensures Ascending(dead + [groups[i]])
  {
    forall k | 0 <= k < |dead|
      ensures dead[k].n < groups[i].n
    {
      assert dead[k] in groups[..i];
      var p :| 0 <= p < i && groups[p] == dead[k];
    }
  }

  method CountOnline(servers: seq<Server>) returns (online: nat)
    ensures online == 0 <==> forall srv :: srv in servers ==> !Online(srv)
  {
    online := 0;
    for i := 0 to |servers|
      invariant online == 0 <==> forall srv :: srv in servers[..i] ==> !Online(srv)
    {
      assert servers[..i + 1] == servers[..i] + [servers[i]];
      assert servers[i] in servers[..i + 1];
      if EqualFold(servers[i].status, "ONLINE") {
        online := online + 1;
      }
    }
    assert servers[..|servers|] == servers;
  }

  lemma {:induction false} InGroupServing(servers: seq<Server>, hostgroups: seq<HostgroupSet>, g: int)
    ensures InGroup(Serving(servers, hostgroups), g) == if Managed(hostgroups, g) then [] else InGroup(servers, g)
  {
    if servers != [] {
      var init, last := servers[..|servers| - 1], servers[|servers| - 1];
      InGroupServing(init, hostgroups, g);
      var before := Serving(init, hostgroups);
      if Managed(hostgroups, last.hostgroup) {
        assert Serving(servers, hostgroups) == before;
      } else {
        assert Serving(servers, hostgroups) == before + [last];
        assert (before + [last])[..|before|] == before;
      }
    }
  }

  // ----- the audit

  function MappingOf(h: HostgroupSet): Finding {
    var target := GroupName(h.writer) + "/" + Signed(h.reader) + "/" + Signed(h.offline);
    Finding("proxysql/mapping", target, OK, None)
  }

  function Mappings(hostgroups: seq<HostgroupSet>): seq<Finding> {
    if hostgroups == [] then []
    else Mappings(hostgroups[..|hostgroups| - 1]) + [MappingOf(hostgroups[|hostgroups| - 1])]
  }

  /** The findings of one audit: the monitor, every node, the dead hostgroups, the mapping. */
  ghost predicate IsAudit(out: seq<Finding>, snap: Proxy, nodes: seq<Snapshot>) {
    if snap.err != "" then out == [Finding("proxysql/read", "proxysql", ERROR, None)]
    else
      var serving := Serving(snap.servers, snap.hostgroups);
      exists dead :: DeadGroups(dead, serving)
        && out == Monitor(snap) + AllNodes(nodes, serving) + GroupFindings(dead) + Mappings(snap.hostgroups)
  }

  method Audit(snap: Proxy, nodes: seq<Snapshot>) returns (out: seq<Finding>)
    ensures IsAudit(out, snap, nodes)
  {
    if snap.err != "" {
      return [Finding("proxysql/read", "proxysql", ERROR, None)];
    }
    out := MonitorRunning(snap);
    var perNode := AuditNodes(snap, nodes);
    var dead := CollectDead(snap);
    var perGroup := ReportDead(dead);
    var mapping := ReportMappings(snap.hostgroups);
    out := out + perNode + perGroup + mapping;
  }

  method AuditNodes(snap: Proxy, nodes: seq<Snapshot>) returns (out: seq<Finding>)
    ensures out == AllNodes(nodes, Serving(snap.servers, snap.hostgroups))
  {
    out := [];
    for i := 0 to |nodes|
      invariant out == AllNodes(nodes[..i], Serving(snap.servers, snap.hostgroups))
    {
      assert nodes[..i + 1][..i] == nodes[..i];
      var fs := AuditNode(snap, nodes[i]);
      out := out + fs;
    }
    assert nodes[..|nodes|] == nodes;
  }

  method ReportDead(dead: seq<GroupId>) returns (out: seq<Finding>)
    ensures out == GroupFindings(dead)
  {
    out := [];
    for i := 0 to |dead|
      invariant out == GroupFindings(dead[..i])
    {
      assert dead[..i + 1][..i] == dead[..i];
      out := out + [Finding(HOSTGROUP, GroupName(dead[i].n), BAD, Some(0.0))];
    }
    assert dead[..|dead|] == dead;
  }

  method ReportMappings(hostgroups: seq<HostgroupSet>) returns (out: seq<Finding>)
    ensures out == Mappings(hostgroups)
  {
    out := [];
    for i := 0 to |hostgroups|
      invariant out == Mappings(hostgroups[..i])
    {
      var h := hostgroups[i];
      assert hostgroups[..i + 1][..i] == hostgroups[..i];
      out := out + [MappingOf(h)];
    }
    assert hostgroups[..|hostgroups|] == hostgroups;
  }

  /** Noninterference: two reads with the same hostgroup sets and monitor flag whose serving
      servers agree are audited identically, whatever the managed hostgroups contain. */
  lemma ManagedNeverMatters(a: Proxy, b: Proxy, nodes: seq<Snapshot>, fa: seq<Finding>, fb: seq<Finding>)
    requires a.err == b.err && a.hostgroups == b.hostgroups && a.monitorEnabled == b.monitorEnabled
    requires Serving(a.servers, a.hostgroups) == Serving(b.servers, b.hostgroups)
    requires IsAudit(fa, a, nodes) && IsAudit(fb, b, nodes)
    ensures fa == fb
  {
    if a.err == "" {
      var serving := Serving(a.servers, a.hostgroups);
      var da :| DeadGroups(da, serving)
        && fa == Monitor(a) + AllNodes(nodes, serving) + GroupFindings(da) + Mappings(a.hostgroups);
      var db :| DeadGroups(db, serving)
        && fb == Monitor(b) + AllNodes(nodes, serving) + GroupFindings(db) + Mappings(b.hostgroups);
      AscendingUnique(da, db);
    }
  }

  /** A server parked in a managed hostgroup is invisible wherever it stands in the list. */
  lemma {:induction false} ParkedServerInvisible(before: seq<Server>, parked: Server, after: seq<Server>,
                                                 hostgroups: seq<HostgroupSet>)
    requires Managed(hostgroups, parked.hostgroup)
    ensures Serving(before + [parked] + after, hostgroups) == Serving(before + after, hostgroups)
    decreases |after|
  {
    var all, rest := before + [parked] + after, before + after;
    if after == [] {
      assert all[..|all| - 1] == before && rest == before;
    } else {
      var init := after[..|after| - 1];
      assert all[..|all| - 1] == before + [parked] + init;
      assert rest[..|rest| - 1] == before + init;
      ParkedServerInvisible(before, parked, init, hostgroups);
    }
  }

  /** The servers that contradict the node. */
  function Contradicting(node: Snapshot, matched: seq<Server>): seq<Server> {
    if matched == [] then []
    else
      var before := Contradicting(node, matched[..|matched| - 1]);
      if Online(matched[|matched| - 1]) != Synced(node) then before + [matched[|matched| - 1]] else before
  }

  /** A readable node the proxy does not serve gets exactly one "missing"; any other gets one
      disagreement per serving server whose ONLINE contradicts its Synced, and nothing else. */
  lemma {:induction false} NodeGetsExactly(node: Snapshot, serving: seq<Server>)
    requires node.Readable()
    ensures if forall srv :: srv in serving ==> !Answers(node, srv)
            then NodeFindings(node, serving) == [Finding(MISSING, node.node, BAD, None)]
            else && |NodeFindings(node, serving)| == |Contradicting(node, Matches(node, serving))|
                 && forall f :: f in NodeFindings(node, serving) ==>
                      f == Finding(DISAGREEMENT, node.node, if Synced(node) then WARN else BAD, None)
  {
    MatchesMeaning(node, serving);
    DisagreementsMeaning(node, Matches(node, serving));
  }

  lemma {:induction false} MatchesMeaning(node: Snapshot, serving: seq<Server>)
    ensures Matches(node, serving) == [] <==> forall srv :: srv in serving ==> !Answers(node, srv)
  {
    if serving != [] {
      var init, last := serving[..|serving| - 1], serving[|serving| - 1];
      assert serving == init + [last];
      MatchesMeaning(node, init);
    }
  }

  lemma {:induction false} DisagreementsMeaning(node: Snapshot, matched: seq<Server>)
    ensures |Disagreements(node, matched)| == |Contradicting(node, matched)|
    ensures forall f :: f in Disagreements(node, matched) ==>
              f == Finding(DISAGREEMENT, node.node, if Synced(node) then WARN else BAD, None)
  {
    if matched != [] {
      DisagreementsMeaning(node, matched[..|matched| - 1]);
    }
  }

  // ----- the findings, spelled out

  /** A server outside the monitor's own hostgroups whose host name is one of the node's names. */
  ghost predicate ServedBy(snap: Proxy, node: Snapshot, srv: Server) {
    && srv in snap.servers && (forall h :: h in snap.hostgroups ==> h.offline != srv.hostgroup)
    && exists name :: name != "" && (name == node.node || name in node.aliases) && EqualFold(name, srv.hostname)
  }

  lemma {:induction false} ServingAre(servers: seq<Server>, hostgroups: seq<HostgroupSet>, srv: Server)
    ensures srv in Serving(servers, hostgroups)
       <==> srv in servers && forall h :: h in hostgroups ==> h.offline != srv.hostgroup
  {
    if servers != [] {
      InitLast(servers);
      ServingAre(servers[..|servers| - 1], hostgroups, srv);
    }
  }

  lemma {:induction false} MatchesAre(node: Snapshot, serving: seq<Server>, srv: Server)
    ensures srv in Matches(node, serving) <==> srv in serving && Answers(node, srv)
  {
    if serving != [] {
      InitLast(serving);
      MatchesAre(node, serving[..|serving| - 1], srv);
    }
  }

  lemma {:induction false} MatchedAre(snap: Proxy, node: Snapshot, srv: Server)
    ensures srv in Matches(node, Serving(snap.servers, snap.hostgroups)) <==> ServedBy(snap, node, srv)
  {
    MatchesAre(node, Serving(snap.servers, snap.hostgroups), srv);
    ServingAre(snap.servers, snap.hostgroups, srv);
  }

  ghost predicate IsSynced(node: Snapshot) {
    "wsrep_local_state_comment" in node.status && EqualFold(node.status["wsrep_local_state_comment"].text, "synced")
  }

  /** ONLINE on a node that is not synced is BAD, anything else on one that is, WARN. */
  ghost predicate Contradicts(f: Finding, node: Snapshot, srv: Server) {
    || (EqualFold(srv.status, "ONLINE") && !IsSynced(node)
        && f == Finding("proxysql/disagreement", node.node, BAD, None))
    || (!EqualFold(srv.status, "ONLINE") && IsSynced(node)
        && f == Finding("proxysql/disagreement", node.node, WARN, None))
  }

  lemma {:induction false} DisagreementsAre(node: Snapshot, matched: seq<Server>, f: Finding)
    ensures f in Disagreements(node, matched) <==> exists srv :: srv in matched && Contradicts(f, node, srv)
  {
    if matched != [] {
      var init, last := matched[..|matched| - 1], matched[|matched| - 1];
      InitLast(matched);
      DisagreementsAre(node, init, f);
      assert f in Disagreement(node, last) <==> Contradicts(f, node, last);
      assert forall srv :: srv in matched <==> srv in init || srv == last;
    }
  }

  /** What is said of one node: nothing when it was not read; that it is missing when no serving
      server is it; else one finding per serving server that contradicts it. */
  lemma NodeSays(snap: Proxy, node: Snapshot, f: Finding)
    ensures f in NodeFindings(node, Serving(snap.servers, snap.hostgroups))
       <==> node.err == ""
            && if forall srv :: !ServedBy(snap, node, srv) then f == Finding("proxysql/missing", node.node, BAD, None)
               else exists srv :: ServedBy(snap, node, srv) && Contradicts(f, node, srv)
  {
    var matched := Matches(node, Serving(snap.servers, snap.hostgroups));
    forall srv
      ensures srv in matched <==> ServedBy(snap, node, srv)
    {
      MatchedAre(snap, node, srv);
    }
    DisagreementsAre(node, matched, f);
    assert matched != [] ==> matched[0] in matched;
  }

  function HostgroupText(g: int): string {
    "hostgroup " + NumberText(g)
  }

  function NumberText(g: int): string {
    if g < 0 then "-" + Decimal(-g) else Decimal(g)
  }

  /** What is said of the monitor: that it is switched off, and which sets are inactive. */
  lemma {:induction false} MonitorSays(snap: Proxy, f: Finding)
    ensures f in Monitor(snap)
       <==> || (snap.monitorEnabled == Some(false) && f == Finding("proxysql/monitor", "proxysql", BAD, None))
            || exists h :: h in snap.hostgroups && h.active == 0
                           && f == Finding("proxysql/monitor", HostgroupText(h.writer), BAD, None)
  {
    InactiveAre(snap.hostgroups, f);
  }

  /** What is said of a set the monitor does not drive. */
  ghost predicate SaysInactive(f: Finding, h: HostgroupSet) {
    h.active == 0 && f == Finding("proxysql/monitor", HostgroupText(h.writer), BAD, None)
  }

  lemma {:induction false} InactiveAre(hostgroups: seq<HostgroupSet>, f: Finding)
    ensures f in Inactive(hostgroups) <==> exists h :: h in hostgroups && SaysInactive(f, h)
  {
    if hostgroups != [] {
      var init, last := hostgroups[..|hostgroups| - 1], hostgroups[|hostgroups| - 1];
      InactiveAre(init, f);
      InactiveStep(hostgroups, f);
      InactiveOne(last, f);
      InitLast(hostgroups);
    }
  }

  lemma {:induction false} InactiveStep(hostgroups: seq<HostgroupSet>, f: Finding)
    requires hostgroups != []
    ensures var last := hostgroups[|hostgroups| - 1];
            f in Inactive(hostgroups)
            <==> f in Inactive(hostgroups[..|hostgroups| - 1])
                 || (last.active == 0 && f == Finding(MONITOR, GroupName(last.writer), BAD, None))
  {
  }

  lemma InactiveOne(h: HostgroupSet, f: Finding)
    ensures h.active == 0 && f == Finding(MONITOR, GroupName(h.writer), BAD, None) <==> SaysInactive(f, h)
  {
    GroupText(h.writer);
  }

  lemma GroupText(g: int)
    ensures GroupName(g) == HostgroupText(g)
  {
    assert Signed(g) == NumberText(g);
  }

  /** A hostgroup the monitor does not manage, with servers, none of them ONLINE. */
  ghost predicate NothingServes(snap: Proxy, g: int) {
    && (forall h :: h in snap.hostgroups ==> h.offline != g)
    && (exists srv :: srv in snap.servers && srv.hostgroup == g)
    && forall srv :: srv in snap.servers && srv.hostgroup == g ==> !EqualFold(srv.status, "ONLINE")
  }

  lemma {:induction false} InGroupAre(servers: seq<Server>, g: int, srv: Server)
    ensures srv in InGroup(servers, g) <==> srv in servers && srv.hostgroup == g
  {
    if servers != [] {
      InitLast(servers);
      InGroupAre(servers[..|servers| - 1], g, srv);
    }
  }

  lemma DeadAre(snap: Proxy, g: int)
    ensures Dead(Serving(snap.servers, snap.hostgroups), g) <==> NothingServes(snap, g)
  {
    var all := InGroup(snap.servers, g);
    DeadIff(snap, g);
    forall srv
      ensures srv in all <==> srv in snap.servers && srv.hostgroup == g
    {
      InGroupAre(snap.servers, g, srv);
    }
    assert all != [] ==> all[0] in all;
  }

  lemma {:induction false} GroupFindingsAre(gs: seq<GroupId>, f: Finding)
    ensures f in GroupFindings(gs)
       <==> exists g :: g in gs && f == Finding("proxysql/hostgroup", HostgroupText(g.n), BAD, Some(0.0))
  {
    if gs != [] {
      var init, last := gs[..|gs| - 1], gs[|gs| - 1];
      InitLast(gs);
      GroupFindingsAre(init, f);
      assert GroupFinding(last) == Finding("proxysql/hostgroup", HostgroupText(last.n), BAD, Some(0.0));
      assert f in GroupFindings(gs) <==> f in GroupFindings(init) || f == GroupFinding(last);
      assert forall g :: g in gs <==> g in init || g == last;
    }
  }

  /** An interface that could not be read is the only thing reported; else f is reported exactly
      when it is about the monitor, a node, a hostgroup nothing serves, or the mapping. */
  lemma AuditSays(out: seq<Finding>, snap: Proxy, nodes: seq<Snapshot>, f: Finding)
    requires IsAudit(out, snap, nodes)
    ensures snap.err != "" ==> out == [Finding("proxysql/read", "proxysql", ERROR, None)]
    ensures snap.err == "" ==>
              (f in out
               <==> || f in Monitor(snap)
                    || (exists node :: node in nodes
                                       && f in NodeFindings(node, Serving(snap.servers, snap.hostgroups)))
                    || (exists g :: NothingServes(snap, g)
                                    && f == Finding("proxysql/hostgroup", HostgroupText(g), BAD, Some(0.0)))
                    || f in Mappings(snap.hostgroups))
  {
    if snap.err == "" {
      var serving := Serving(snap.servers, snap.hostgroups);
      var dead :| DeadGroups(dead, serving)
                  && out == Monitor(snap) + AllNodes(nodes, serving) + GroupFindings(dead) + Mappings(snap.hostgroups);
      AllNodesAre(nodes, serving, f);
      GroupFindingsAre(dead, f);
      DeadReported(snap, dead, f);
    }
  }

  lemma DeadReported(snap: Proxy, dead: seq<GroupId>, f: Finding)
    requires DeadGroups(dead, Serving(snap.servers, snap.hostgroups))
    ensures (exists g :: g in dead && f == Finding("proxysql/hostgroup", HostgroupText(g.n), BAD, Some(0.0)))
       <==> exists g :: NothingServes(snap, g) && f == Finding("proxysql/hostgroup", HostgroupText(g), BAD, Some(0.0))
  {
    if g :| g in dead && f == Finding("proxysql/hostgroup", HostgroupText(g.n), BAD, Some(0.0)) {
      DeadAre(snap, g.n);
    }
    if g :| NothingServes(snap, g) && f == Finding("proxysql/hostgroup", HostgroupText(g), BAD, Some(0.0)) {
      DeadAre(snap, g);
      assert GroupId(g) in dead;
    }
  }

  lemma {:induction false} AllNodesAre(nodes: seq<Snapshot>, serving: seq<Server>, f: Finding)
    ensures f in AllNodes(nodes, serving) <==> exists node :: node in nodes && f in NodeFindings(node, serving)
  {
    if nodes != [] {
      var init, last := nodes[..|nodes| - 1], nodes[|nodes| - 1];
      InitLast(nodes);
      AllNodesAre(init, serving, f);
      assert forall node :: node in nodes <==> node in init || node == last;
    }
  }

  /** One OK per hostgroup set, naming its writer, reader and offline hostgroup. */
  lemma {:induction false} MappingsAre(hostgroups: seq<HostgroupSet>, f: Finding)
    ensures f in Mappings(hostgroups) <==> exists h :: h in hostgroups && MapsTo(f, h)
    ensures |Mappings(hostgroups)| == |hostgroups|
  {
    if hostgroups != [] {
      var init, last := hostgroups[..|hostgroups| - 1], hostgroups[|hostgroups| - 1];
      InitLast(hostgroups);
      MappingsAre(init, f);
      MapsAs(f, last);
      assert forall h :: h in hostgroups <==> h in init || h == last;
    }
  }

  ghost predicate MapsTo(f: Finding, h: HostgroupSet) {
    var target := HostgroupText(h.writer) + "/" + NumberText(h.reader) + "/" + NumberText(h.offline);
    f == Finding("proxysql/mapping", target, OK, None)
  }

  lemma MapsAs(f: Finding, h: HostgroupSet)
    ensures f == MappingOf(h) <==> MapsTo(f, h)
  {
  }
}
