/** internal/state: the previous run, several clusters in one namespace, and the
    view of it one cluster's audit is given. */
module State {
  import opened Findings
  import opened Cluster

  const VERSION := 2

  const COUNTERS: seq<string> := [
    "wsrep_flow_control_paused_ns", "wsrep_local_cert_failures", "wsrep_local_bf_aborts",
    "wsrep_replicated", "wsrep_replicated_bytes", "wsrep_received_bytes"]

  /** One node's counters at one moment. Times are nanoseconds; 0 is the unset time. */
  datatype NodeState = NodeState(at: int, uptime: real, gcommUUID: string, counters: map<string, real>)

  /** The contents of a state file. */
  datatype Baseline = Baseline(version: int, at: int, nodes: map<string, NodeState>, findings: map<string, Status>)

  // ----- keys

  function Key(check: string, target: string): string {
    check + "@" + target
  }

  function TrimPrefix(s: string, prefix: string): Option<string> {
    if |s| > |prefix| && s[..|prefix|] == prefix then Some(s[|prefix|..]) else None
  }

  /** The part of q after "cluster/", when q starts that way. */
  function Local(cluster: string, q: string): (r: Option<string>)
    ensures r.Some? ==> q == cluster + "/" + r.value
    ensures r.Some? <==> cluster + "/" <= q
  {
    if cluster + "/" <= q then Some(q[|cluster| + 1..]) else None
  }

  function Qualified(cluster: string, key: string): (q: string)
    ensures Local(cluster, q) == Some(key)
    ensures TrimPrefix(q, cluster + "/") == if key == "" then None else Some(key)
  {
    var q := cluster + "/" + key;
    assert q[|cluster| + 1..] == key;
    q
  }

  lemma TrimmedQualifies(cluster: string, s: string)
    requires TrimPrefix(s, cluster + "/").Some?
    ensures s == Qualified(cluster, TrimPrefix(s, cluster + "/").value)
    ensures TrimPrefix(s, cluster + "/").value != ""
  {
    assert s == s[..|cluster| + 1] + s[|cluster| + 1..];
  }

  /** No key of cluster d can be read as a key of cluster c, or the other way round. */
  ghost predicate Separate(c: string, d: string) {
    !(c + "/" <= d) && !(d + "/" <= c)
  }

  /** Scoping to c never picks up a key stored for d exactly when neither name, followed by
      the separator, starts the other. */
  lemma SeparateIff(c: string, d: string)
    requires c != d
    ensures Separate(c, d)
       <==> (forall k :: k != "" ==> TrimPrefix(Qualified(d, k), c + "/").None?)
    ensures Separate(c, d)
       <==> (forall k :: k != "" ==> TrimPrefix(Qualified(c, k), d + "/").None?)
  {
    SeparateOneWay(c, d);
    SeparateOneWay(d, c);
  }

  lemma SeparateOneWay(c: string, d: string)
    requires c != d
    ensures Separate(c, d)
       <==> (forall k :: k != "" ==> TrimPrefix(Qualified(d, k), c + "/").None?)
  {
    if c + "/" <= d {
      assert Qualified(d, "x")[..|c| + 1] == d[..|c| + 1];
      assert TrimPrefix(Qualified(d, "x"), c + "/").Some?;
    } else if d + "/" <= c {
      var k := c[|d| + 1..] + "/x";
      assert c == d + "/" + c[|d| + 1..];
      assert Qualified(d, k) == Qualified(c, "x");
      assert TrimPrefix(Qualified(c, "x"), c + "/") == Some("x");
    } else {
      forall k | k != ""
        ensures TrimPrefix(Qualified(d, k), c + "/").None?
      {
        SeparateTrims(c, d, k);
      }
    }
  }

  lemma SeparateTrims(c: string, d: string, k: string)
    requires c != d && Separate(c, d)
    ensures TrimPrefix(Qualified(d, k), c + "/").None?
    ensures Local(c, Qualified(d, k)).None?
  {
    var q := Qualified(d, k);
    assert d + "/" <= q;
    PrefixStep(c, d);
    PrefixStep(d, c);
    assert c + "/" <= q ==> c + "/" <= d + "/" || d + "/" <= c + "/";
    assert TrimPrefix(q, c + "/").Some? ==> c + "/" <= q;
  }

  lemma PrefixStep(c: string, d: string)
    ensures c + "/" <= d + "/" ==> c == d || c + "/" <= d
  {
    if c + "/" <= d + "/" {
      assert |c| == |d| ==> c == (c + "/")[..|c|] && d == (d + "/")[..|d|];
    }
  }

  /** Slash-free names are always separate. */
  lemma SlashFreeSeparate(c: string, d: string)
    requires '/' !in c && '/' !in d
    ensures Separate(c, d)
  {
    SlashInside(c, d);
    SlashInside(d, c);
  }

  lemma SlashInside(c: string, d: string)
    ensures c + "/" <= d ==> '/' in d
  {
    if c + "/" <= d {
      assert (c + "/")[|c|] == '/';
      assert d[|c|] == '/';
    }
  }

  // ----- building, merging and scoping baselines

  function NodeStateOf(s: Snapshot, now: int): NodeState {
    NodeState(
      if s.at == 0 then now else s.at,
      if s.Float("uptime").Some? then s.Float("uptime").value else 0.0,
      if "wsrep_gcomm_uuid" in s.status then s.status["wsrep_gcomm_uuid"].text else "",
      map key | key in COUNTERS && s.Float(key).Some? :: s.Float(key).value)
  }

  /** What is kept of a snapshot: its time, or else the run's; the uptime and the group's id where
      they were read; and exactly those of the counters that were. */
  lemma NodeStateReads(s: Snapshot, now: int)
    ensures var ns := NodeStateOf(s, now);
            && (s.at != 0 ==> ns.at == s.at) && (s.at == 0 ==> ns.at == now)
            && (s.Float("uptime").Some? ==> s.Float("uptime").value == ns.uptime)
            && (s.Float("uptime").None? ==> ns.uptime == 0.0)
            && ("wsrep_gcomm_uuid" in s.status ==> ns.gcommUUID == s.status["wsrep_gcomm_uuid"].text)
            && ("wsrep_gcomm_uuid" !in s.status ==> ns.gcommUUID == "")
            && (forall key :: key in ns.counters <==> key in COUNTERS && s.Float(key).Some?)
            && (forall key :: key in ns.counters ==> Some(ns.counters[key]) == s.Float(key))
  {
  }

  /** The counters that are kept. */
  lemma CountersAre(key: string)
    ensures key in COUNTERS
       <==> || key == "wsrep_flow_control_paused_ns" || key == "wsrep_local_cert_failures"
            || key == "wsrep_local_bf_aborts" || key == "wsrep_replicated"
            || key == "wsrep_replicated_bytes" || key == "wsrep_received_bytes"
  {
  }

  /** The readable snapshots' counters by node name; of two under one name the later stays. */
  function NodesOf(snaps: seq<Snapshot>, now: int): map<string, NodeState> {
    if snaps == [] then map[]
    else
      var before, s := NodesOf(snaps[..|snaps| - 1], now), snaps[|snaps| - 1];
      if s.Readable() then before[s.node := NodeStateOf(s, now)] else before
  }

  lemma {:induction false} NodesOfUnique(snaps: seq<Snapshot>, now: int)
    requires forall i, j :: 0 <= i < j < |snaps| ==> snaps[i].node != snaps[j].node
    ensures forall s | s in snaps && s.Readable() ::
              s.node in NodesOf(snaps, now) && NodesOf(snaps, now)[s.node] == NodeStateOf(s, now)
    ensures forall n :: n in NodesOf(snaps, now) ==> exists s :: s in snaps && s.Readable() && s.node == n
  {
    if snaps != [] {
      var init, last := snaps[..|snaps| - 1], snaps[|snaps| - 1];
      NodesOfUnique(init, now);
      assert snaps == init + [last];
      forall n | n in NodesOf(snaps, now)
        ensures exists s :: s in snaps && s.Readable() && s.node == n
      {
        if n in NodesOf(init, now) {
          var s :| s in init && s.Readable() && s.node == n;
          assert s in snaps;
        } else {
          assert last in snaps && last.node == n;
        }
      }
    }
  }

  /** m with every key moved under the cluster's name. */
  ghost function Prefixed<V>(cluster: string, m: map<string, V>): (r: map<string, V>)
    ensures forall q :: q in r <==> Local(cluster, q).Some? && Local(cluster, q).value in m
    ensures forall q :: q in r ==> r[q] == m[Local(cluster, q).value]
  {
    var keys := set k | k in m :: Qualified(cluster, k);
    assert forall q :: q in keys ==> Local(cluster, q).Some? && Local(cluster, q).value in m;
    assert forall q :: Local(cluster, q).Some? && Local(cluster, q).value in m ==>
                         Qualified(cluster, Local(cluster, q).value) in keys;
    map q | q in keys :: m[Local(cluster, q).value]
  }

  ghost function Merged(s: Baseline, cluster: string, from: Baseline): Baseline {
    s.(nodes := s.nodes + Prefixed(cluster, from.nodes), findings := s.findings + Prefixed(cluster, from.findings))
  }

  /** The keys of m that carry the prefix, without it. */
  ghost function Unprefixed<V>(cluster: string, m: map<string, V>): (r: map<string, V>)
    ensures forall k :: k in r <==> k != "" && Qualified(cluster, k) in m
    ensures forall k :: k in r ==> r[k] == m[Qualified(cluster, k)]
  {
    var keys := set q | q in m && TrimPrefix(q, cluster + "/").Some? :: TrimPrefix(q, cluster + "/").value;
    UnprefixedKeys(cluster, m.Keys, keys);
    map k | k in keys :: m[Qualified(cluster, k)]
  }

  lemma UnprefixedKeys(cluster: string, all: set<string>, keys: set<string>)
    requires keys == set q | q in all && TrimPrefix(q, cluster + "/").Some? :: TrimPrefix(q, cluster + "/").value
    ensures forall k :: k in keys <==> k != "" && Qualified(cluster, k) in all
  {
    forall k
      ensures k in keys <==> k != "" && Qualified(cluster, k) in all
    {
      if k in keys {
        var q :| q in all && TrimPrefix(q, cluster + "/") == Some(k);
        TrimmedQualifies(cluster, q);
      }
    }
  }

  ghost function Scoped(s: Baseline, cluster: string): Baseline {
    s.(nodes := Unprefixed(cluster, s.nodes), findings := Unprefixed(cluster, s.findings))
  }

  function Empty(at: int): Baseline {
    Baseline(VERSION, at, map[], map[])
  }

  /** The State struct the run hands around by pointer. */
  class Store {
    var version: int
    var at: int
    var nodes: map<string, NodeState>
    var findings: map<string, Status>

    function View(): Baseline
      reads this
    {
      Baseline(version, at, nodes, findings)
    }

    constructor (at: int)
      ensures View() == Empty(at)
    {
      this.version, this.at := VERSION, at;
      this.nodes, this.findings := map[], map[];
    }

    /** New: the state to persist from a set of snapshots. */
    constructor FromSnapshots(snaps: seq<Snapshot>, now: int)
      ensures View() == Baseline(VERSION, now, NodesOf(snaps, now), map[])
    {
      version, at := VERSION, now;
      nodes, findings := map[], map[];
      new;
      for i := 0 to |snaps|
        invariant View() == Baseline(VERSION, now, NodesOf(snaps[..i], now), map[])
      {
        assert snaps[..i + 1][..i] == snaps[..i];
        if snaps[i].Readable() {
          nodes := nodes[snaps[i].node := NodeStateOf(snaps[i], now)];
        }
      }
      assert snaps[..|snaps|] == snaps;
    }

    /** Folds one cluster's state in under its name. */
    method Merge(cluster: string, from: Baseline)
      modifies this
      ensures View() == Merged(old(View()), cluster, from)
    {
      nodes := PutAll(nodes, cluster, from.nodes);
      if |from.findings| == 0 {
        NothingPut(findings, cluster, from.findings);
        return;
      }
      findings := PutAll(findings, cluster, from.findings);
    }

    /** The view of one cluster, keyed the way the audit asks for it; nil stays nil. */
    static method Scope(s: Store?, cluster: string) returns (out: Store?)
      ensures s == null ==> out == null
      ensures s != null ==> out != null && fresh(out) && out.View() == Scoped(s.View(), cluster)
    {
      if s == null {
        return null;
      }
      var scopedNodes := Pick(s.nodes, cluster);
      var scopedFindings := Pick(s.findings, cluster);
      out := new Store(s.at);
      out.version := s.version;
      out.nodes, out.findings := scopedNodes, scopedFindings;
    }
  }

  lemma NothingPut<V>(into: map<string, V>, cluster: string, from: map<string, V>)
    requires |from| == 0
    ensures into + Prefixed(cluster, from) == into
  {
    assert from == map[];
    assert Prefixed(cluster, from) == map[];
  }

  /** Copies `from` in under the cluster's name, key by key in the map's own order. */
  method PutAll<V>(into: map<string, V>, cluster: string, from: map<string, V>) returns (r: map<string, V>)
    ensures r == into + Prefixed(cluster, from)
  {
    r := into;
    var left := from.Keys;
    assert Prefixed(cluster, from - from.Keys) == map[];
    while left != {}
      invariant left <= from.Keys
      invariant r == into + Prefixed(cluster, from - left)
    {
      var k :| k in left;
      PrefixedStep(cluster, from, left, k);
      PlusUpdate(into, Prefixed(cluster, from - left), Qualified(cluster, k), from[k]);
      r := r[Qualified(cluster, k) := from[k]];
      left := left - {k};
    }
    assert from - {} == from;
  }

  lemma PlusUpdate<V>(a: map<string, V>, b: map<string, V>, k: string, v: V)
    ensures (a + b)[k := v] == a + b[k := v]
  {
  }

  /** The entries under the cluster's name, key by key in the map's own order. */
  method Pick<V>(m: map<string, V>, cluster: string) returns (r: map<string, V>)
    ensures r == Unprefixed(cluster, m)
  {
    r := map[];
    var left := m.Keys;
    while left != {}
      invariant left <= m.Keys
      invariant r == Unprefixed(cluster, m - left)
    {
      var q :| q in left;
      UnprefixedStep(cluster, m, left, q);
      var node := TrimPrefix(q, cluster + "/");
      if node.Some? {
        r := r[node.value := m[q]];
      }
      left := left - {q};
    }
    assert m - {} == m;
  }

  lemma PrefixedStep<V>(cluster: string, m: map<string, V>, left: set<string>, k: string)
    requires left <= m.Keys && k in left
    ensures Prefixed(cluster, m - (left - {k})) == Prefixed(cluster, m - left)[Qualified(cluster, k) := m[k]]
  {
    var a, b := Prefixed(cluster, m - (left - {k})), Prefixed(cluster, m - left)[Qualified(cluster, k) := m[k]];
    forall q
      ensures q in a <==> q in b
      ensures q in a && q in b ==> a[q] == b[q]
    {
      assert Local(cluster, q) == Some(k) ==> q == Qualified(cluster, k);
    }
  }

  lemma UnprefixedStep<V>(cluster: string, m: map<string, V>, left: set<string>, q: string)
    requires left <= m.Keys && q in left
    ensures TrimPrefix(q, cluster + "/").Some? ==>
              Unprefixed(cluster, m - (left - {q}))
              == Unprefixed(cluster, m - left)[TrimPrefix(q, cluster + "/").value := m[q]]
    ensures TrimPrefix(q, cluster + "/").None? ==>
              Unprefixed(cluster, m - (left - {q})) == Unprefixed(cluster, m - left)
  {
    assert m - (left - {q}) == (m - left)[q := m[q]];
    UnprefixedUpdate(cluster, m - left, q, m[q]);
  }

  lemma UnprefixedUpdate<V>(cluster: string, m: map<string, V>, q: string, v: V)
    ensures TrimPrefix(q, cluster + "/").Some? ==>
              Unprefixed(cluster, m[q := v]) == Unprefixed(cluster, m)[TrimPrefix(q, cluster + "/").value := v]
    ensures TrimPrefix(q, cluster + "/").None? ==> Unprefixed(cluster, m[q := v]) == Unprefixed(cluster, m)
  {
    var t := TrimPrefix(q, cluster + "/");
    if t.Some? {
      UnprefixedOwn(cluster, m, t.value, v);
      TrimmedQualifies(cluster, q);
    } else {
      UnprefixedForeign(cluster, m, q, v);
    }
  }

  lemma UnprefixedOwn<V>(cluster: string, m: map<string, V>, k: string, v: V)
    requires k != ""
    ensures Unprefixed(cluster, m[Qualified(cluster, k) := v]) == Unprefixed(cluster, m)[k := v]
  {
    var a, b := Unprefixed(cluster, m[Qualified(cluster, k) := v]), Unprefixed(cluster, m)[k := v];
    forall j
      ensures AgreeAt(a, b, j)
    {
      UnprefixedAt(cluster, m, k, v, j);
    }
    AgreeEverywhere(a, b);
  }

  ghost predicate AgreeAt<V>(a: map<string, V>, b: map<string, V>, j: string) {
    (j in a <==> j in b) && (j in a && j in b ==> a[j] == b[j])
  }

  lemma AgreeEverywhere<V>(a: map<string, V>, b: map<string, V>)
    requires forall j :: AgreeAt(a, b, j)
    ensures a == b
  {
    forall j
      ensures j in a <==> j in b
      ensures j in a ==> a[j] == b[j]
    {
      assert AgreeAt(a, b, j);
    }
  }

  lemma UnprefixedAt<V>(cluster: string, m: map<string, V>, k: string, v: V, j: string)
    requires k != ""
    ensures var a := Unprefixed(cluster, m[Qualified(cluster, k) := v]);
            && (j in a <==> j == k || j in Unprefixed(cluster, m))
            && (j in a ==> a[j] == if j == k then v else Unprefixed(cluster, m)[j])
  {
    QualifiedInjective(cluster, j, k);
    UnprefixedEntry(cluster, m[Qualified(cluster, k) := v], j);
    UnprefixedEntry(cluster, m, j);
  }

  lemma UnprefixedEntry<V>(cluster: string, m: map<string, V>, j: string)
    ensures j in Unprefixed(cluster, m) <==> j != "" && Qualified(cluster, j) in m
    ensures j in Unprefixed(cluster, m) ==> Unprefixed(cluster, m)[j] == m[Qualified(cluster, j)]
  {
  }

  lemma QualifiedInjective(cluster: string, j: string, k: string)
    ensures Qualified(cluster, j) == Qualified(cluster, k) ==> j == k
  {
    assert Local(cluster, Qualified(cluster, j)) == Some(j);
    assert Local(cluster, Qualified(cluster, k)) == Some(k);
  }

  lemma UnprefixedForeign<V>(cluster: string, m: map<string, V>, q: string, v: V)
    requires TrimPrefix(q, cluster + "/").None?
    ensures Unprefixed(cluster, m[q := v]) == Unprefixed(cluster, m)
  {
    assert forall k :: k != "" ==> Qualified(cluster, k) != q;
  }

  // ----- isolation

  /** The clusters merged into one state, one after the other. */
  ghost function MergeAll(s: Baseline, parts: seq<(string, Baseline)>): Baseline
    decreases |parts|
  {
    if parts == [] then s
    else MergeAll(Merged(s, parts[0].0, parts[0].1), parts[1..])
  }

  ghost predicate Named<V>(m: map<string, V>, r: map<string, V>) {
    && (forall k :: k in r <==> k in m && k != "")
    && (forall k :: k in r ==> r[k] == m[k])
  }

  lemma ScopeOfMergedSame(s: Baseline, c: string, from: Baseline)
    requires Unused(s, c)
    ensures ReadsBack(Merged(s, c, from), c, from)
  {
    UnprefixedUnion(c, s.nodes, from.nodes);
    UnprefixedUnion(c, s.findings, from.findings);
  }

  lemma UnprefixedUnion<V>(c: string, m: map<string, V>, from: map<string, V>)
    requires Unprefixed(c, m) == map[]
    ensures Named(from, Unprefixed(c, m + Prefixed(c, from)))
  {
    var r := Unprefixed(c, m + Prefixed(c, from));
    forall k
      ensures k in r <==> k in from && k != ""
      ensures k in r && k in from ==> r[k] == from[k]
    {
      assert Local(c, Qualified(c, k)) == Some(k);
      assert k !in Unprefixed(c, m);
    }
  }

  lemma ScopeOfMergedOther(s: Baseline, c: string, d: string, from: Baseline)
    requires c != d && Separate(c, d)
    ensures Scoped(Merged(s, d, from), c) == Scoped(s, c)
  {
    UnprefixedOther(c, d, s.nodes, from.nodes);
    UnprefixedOther(c, d, s.findings, from.findings);
  }

  lemma UnprefixedBeside<V>(c: string, m: map<string, V>, n: map<string, V>)
    requires forall k :: Qualified(c, k) !in n
    ensures Unprefixed(c, m + n) == Unprefixed(c, m)
  {
    assert forall k :: k in Unprefixed(c, m + n) <==> k in Unprefixed(c, m);
  }

  lemma UnprefixedOther<V>(c: string, d: string, m: map<string, V>, from: map<string, V>)
    requires c != d && Separate(c, d)
    ensures Unprefixed(c, m + Prefixed(d, from)) == Unprefixed(c, m)
  {
    forall k
      ensures Qualified(c, k) !in Prefixed(d, from)
    {
      SeparateTrims(d, c, k);
    }
    UnprefixedBeside(c, m, Prefixed(d, from));
  }

  /** Nothing else is merged under part i's name or one that overlaps it. */
  ghost predicate ApartFromRest(parts: seq<(string, Baseline)>, i: nat)
    requires i < |parts|
  {
    forall j | 0 <= j < |parts| && j != i :: Apart(parts[i].0, parts[j].0)
  }

  ghost predicate Apart(c: string, d: string) {
    c != d && Separate(c, d)
  }

  /** Nothing is stored under c yet. */
  ghost predicate Unused(s: Baseline, c: string) {
    Scoped(s, c).nodes == map[] && Scoped(s, c).findings == map[]
  }

  /** Cluster c reads back exactly what `from` stored (an empty key is never read back). */
  ghost predicate ReadsBack(s: Baseline, c: string, from: Baseline) {
    Named(from.nodes, Scoped(s, c).nodes) && Named(from.findings, Scoped(s, c).findings)
  }

  /** After any number of merges in any order, a cluster whose name overlaps no other reads
      back exactly what was merged under it. */
  lemma {:induction false} ScopeReadsBack(s: Baseline, parts: seq<(string, Baseline)>, i: nat)
    requires i < |parts| && ApartFromRest(parts, i) && Unused(s, parts[i].0)
    ensures ReadsBack(MergeAll(s, parts), parts[i].0, parts[i].1)
    decreases |parts|
  {
    var s1 := Merged(s, parts[0].0, parts[0].1);
    if i == 0 {
      ScopeOfMergedSame(s, parts[0].0, parts[0].1);
      RestApart(parts);
      ScopeUndisturbed(s1, parts[1..], parts[0].0);
    } else {
      ScopeOfMergedOther(s, parts[i].0, parts[0].0, parts[0].1);
      TailApart(parts, i);
      ScopeReadsBack(s1, parts[1..], i - 1);
    }
  }

  lemma RestApart(parts: seq<(string, Baseline)>)
    requires parts != [] && ApartFromRest(parts, 0)
    ensures forall p | p in parts[1..] :: Apart(parts[0].0, p.0)
  {
    forall p | p in parts[1..]
      ensures Apart(parts[0].0, p.0)
    {
      var k :| 0 <= k < |parts| - 1 && parts[1..][k] == p;
      assert parts[k + 1] == p;
    }
  }

  lemma TailApart(parts: seq<(string, Baseline)>, i: nat)
    requires 0 < i < |parts| && ApartFromRest(parts, i)
    ensures ApartFromRest(parts[1..], i - 1) && parts[1..][i - 1] == parts[i]
    ensures Apart(parts[i].0, parts[0].0)
  {
    var rest := parts[1..];
    forall j | 0 <= j < |rest| && j != i - 1
      ensures Apart(rest[i - 1].0, rest[j].0)
    {
      assert rest[j] == parts[j + 1];
    }
  }

  /** What is stored stays stored. */
  lemma {:induction false} StoredStays(s: Baseline, parts: seq<(string, Baseline)>, q: string)
    requires q in s.nodes
    ensures q in MergeAll(s, parts).nodes
    decreases |parts|
  {
    if parts != [] {
      StoredStays(Merged(s, parts[0].0, parts[0].1), parts[1..], q);
    }
  }

  lemma {:induction false} PartStored(s: Baseline, parts: seq<(string, Baseline)>, j: nat, k: string)
    requires j < |parts| && k in parts[j].1.nodes
    ensures Qualified(parts[j].0, k) in MergeAll(s, parts).nodes
    decreases |parts|
  {
    var s1 := Merged(s, parts[0].0, parts[0].1);
    if j == 0 {
      assert Local(parts[0].0, Qualified(parts[0].0, k)) == Some(k);
      StoredStays(s1, parts[1..], Qualified(parts[0].0, k));
    } else {
      PartStored(s1, parts[1..], j - 1, k);
    }
  }

  /** A node whose stored key another cluster's prefix starts is read by that cluster too. */
  lemma {:induction false} LeakedNode(s: Baseline, parts: seq<(string, Baseline)>, i: nat, j: nat, k: string)
    requires i < |parts| && j < |parts| && k in parts[j].1.nodes && parts[i].1.nodes == map[]
    requires TrimPrefix(Qualified(parts[j].0, k), parts[i].0 + "/").Some?
    ensures !ReadsBack(MergeAll(s, parts), parts[i].0, parts[i].1)
  {
    var read := TrimPrefix(Qualified(parts[j].0, k), parts[i].0 + "/").value;
    TrimmedQualifies(parts[i].0, Qualified(parts[j].0, k));
    PartStored(s, parts, j, k);
    assert read in Scoped(MergeAll(s, parts), parts[i].0).nodes;
  }

  /** Clusters merged under other names leave a cluster's view untouched. */
  lemma {:induction false} ScopeUndisturbed(s: Baseline, parts: seq<(string, Baseline)>, c: string)
    requires forall p :: p in parts ==> Apart(c, p.0)
    ensures Scoped(MergeAll(s, parts), c) == Scoped(s, c)
    decreases |parts|
  {
    if parts != [] {
      assert parts[0] in parts;
      ScopeOfMergedOther(s, c, parts[0].0, parts[0].1);
      ScopeUndisturbed(Merged(s, parts[0].0, parts[0].1), parts[1..], c);
    }
  }

  lemma EmptyScopes(at: int, c: string)
    ensures Scoped(Empty(at), c) == Empty(at)
  {
    var none: map<string, NodeState> := map[];
    var nothing: map<string, Status> := map[];
    assert Unprefixed(c, none) == none && Unprefixed(c, nothing) == nothing;
  }

  /** With a slash in a name one cluster's baseline does leak into another's. */
  lemma SlashLeaks(ns: NodeState)
    ensures var merged := Merged(Empty(0), "a/b", Baseline(VERSION, 0, map["n" := ns], map[]));
            Scoped(merged, "a").nodes == map["b/n" := ns]
  {
    var from := map["n" := ns];
    assert Qualified("a/b", "n") == "a/b/n" == Qualified("a", "b/n");
    forall k
      ensures Qualified("a", k) in Prefixed("a/b", from) <==> k == "b/n"
    {
      if Qualified("a", k) in Prefixed("a/b", from) {
        assert Qualified("a", k) == Qualified("a", "b/n");
        assert Local("a", Qualified("a", k)) == Local("a", Qualified("a", "b/n"));
      }
    }
    assert Unprefixed("a", Prefixed("a/b", from)) == map["b/n" := ns];
    assert Empty(0).nodes + Prefixed("a/b", from) == Prefixed("a/b", from);
  }
}
