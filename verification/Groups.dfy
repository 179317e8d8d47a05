/** internal/audit, groupBy and describeGroups: nodes bucketed by a value, and the one line
    a report says about the buckets. */
module Groups {
  import opened Strings
  import opened Sorting
  import opened Findings
  import opened Cluster
  import opened Changes

  /** One node and the value it is bucketed by. */
  datatype Member = Member(value: string, node: string)

  type Buckets = map<string, seq<string>>

  function AddMember(m: Buckets, p: Member): Buckets {
    m[p.value := (if p.value in m then m[p.value] else []) + [p.node]]
  }

  function Grouped(ps: seq<Member>): Buckets {
    if ps == [] then map[] else AddMember(Grouped(ps[..|ps| - 1]), ps[|ps| - 1])
  }

  /** A missing value is its own bucket. */
  function Normal(v: string): string {
    if v == "" then "unknown" else v
  }

  function Valued(live: seq<Snapshot>, key: Snapshot -> string): seq<Member> {
    seq(|live|, i requires 0 <= i < |live| => Member(Normal(key(live[i])), live[i].node))
  }

  method GroupBy(live: seq<Snapshot>, key: Snapshot -> string) returns (out: Buckets)
    ensures out == Grouped(Valued(live, key))
  {
    out := map[];
    ghost var ps := Valued(live, key);
    for i := 0 to |live|
      invariant out == Grouped(ps[..i])
    {
      var v := key(live[i]);
      if v == "" {
        v := "unknown";
      }
      assert ps[..i + 1][..i] == ps[..i];
      out := out[v := (if v in out then out[v] else []) + [live[i].node]];
    }
    assert ps[..|live|] == ps;
  }

  /** The nodes with value v, in the order given. */
  function MembersOf(ps: seq<Member>, v: string): seq<string> {
    if ps == [] then []
    else MembersOf(ps[..|ps| - 1], v) + (if ps[|ps| - 1].value == v then [ps[|ps| - 1].node] else [])
  }

  ghost function ValuesOf(ps: seq<Member>): (r: set<string>)
    ensures forall v :: v in r <==> exists p :: p in ps && p.value == v
  {
    set p | p in ps :: p.value
  }

  /** Each node is in the bucket of its own value and in no other; there is a bucket for
      every value and for nothing else. */
  lemma {:induction false} GroupedPartitions(ps: seq<Member>)
    ensures Grouped(ps).Keys == ValuesOf(ps)
    ensures forall v :: v in Grouped(ps) ==> Grouped(ps)[v] == MembersOf(ps, v) && Grouped(ps)[v] != []
    ensures forall v :: v !in Grouped(ps) ==> MembersOf(ps, v) == []
  {
    if ps != [] {
      var init, last := ps[..|ps| - 1], ps[|ps| - 1];
      GroupedPartitions(init);
      assert ps == init + [last];
      forall v
        ensures v in Grouped(ps) <==> v in ValuesOf(ps)
      {
        if v in ValuesOf(init) {
          var p :| p in init && p.value == v;
          assert p in ps;
        }
        if v in ValuesOf(ps) && v != last.value {
          var p :| p in ps && p.value == v;
          assert p in init;
        }
        assert last in ps;
      }
    }
  }

  ghost function TotalSize(m: Buckets): nat {
    if m == map[] then 0
    else var k :| k in m; |m[k]| + TotalSize(m - {k})
  }

  lemma {:induction false} TotalSizeAt(m: Buckets, k: string)
    requires k in m
    ensures TotalSize(m) == |m[k]| + TotalSize(m - {k})
    decreases m.Keys
  {
    var j :| j in m && TotalSize(m) == |m[j]| + TotalSize(m - {j});
    if j != k {
      TotalSizeAt(m - {j}, k);
      TotalSizeAt(m - {k}, j);
      assert m - {j} - {k} == m - {k} - {j};
    }
  }

  /** The bucket sizes add up to the number of nodes. */
  lemma {:induction false} GroupedSizes(ps: seq<Member>)
    ensures TotalSize(Grouped(ps)) == |ps|
  {
    if ps != [] {
      var init, last := ps[..|ps| - 1], ps[|ps| - 1];
      GroupedSizes(init);
      var m, r := Grouped(init), Grouped(ps);
      TotalSizeAt(r, last.value);
      assert r - {last.value} == m - {last.value};
      if last.value in m {
        TotalSizeAt(m, last.value);
      } else {
        assert m - {last.value} == m;
      }
    }
  }

  /** Two nodes have different values. */
  ghost predicate Spread(ps: seq<Member>) {
    exists p, q :: p in ps && q in ps && p.value != q.value
  }

  /** More than one bucket exactly when two nodes have different values. */
  lemma {:induction false} MoreThanOneBucketIff(ps: seq<Member>)
    ensures |Grouped(ps)| > 1 <==> Spread(ps)
  {
    GroupedPartitions(ps);
    var vs := ValuesOf(ps);
    assert |Grouped(ps)| == |vs|;
    MoreThanOneIff(vs);
    if Spread(ps) {
      var p, q :| p in ps && q in ps && p.value != q.value;
      assert p.value in vs && q.value in vs;
    }
  }

  lemma MoreThanOneIff(vs: set<string>)
    ensures |vs| > 1 <==> exists v, w :: v in vs && w in vs && v != w
  {
    if vs != {} {
      var v :| v in vs;
      var rest := vs - {v};
      assert |vs| == |rest| + 1;
      assert rest != {} ==> exists w :: w in rest && w in vs && w != v;
      assert rest == {} ==> forall w :: w in vs ==> w == v;
    }
  }

  // ----- describing the buckets

  /** Long values are cut to twelve characters. */
  function Short(v: string): string {
    if |v| > 12 then v[..12] + "\U{2026}" else v
  }

  function Part(k: string, nodes: seq<string>): string {
    Short(k) + " (" + Join(SortStrings(nodes), ", ") + ")"
  }

  function Parts(keys: seq<string>, m: Buckets): seq<string>
    requires forall k :: k in keys ==> k in m
  {
    if keys == [] then []
    else Parts(keys[..|keys| - 1], m) + [Part(keys[|keys| - 1], m[keys[|keys| - 1]])]
  }

  /** "value (node, node) vs value (node)" with values and nodes in ascending order. */
  ghost function Described(m: Buckets): string {
    Join(Parts(Listing(m.Keys), m), " vs ")
  }

  method DescribeBucket(k: string, bucket: seq<string>) returns (part: string)
    ensures part == Part(k, bucket)
  {
    var nodes := SortStrings(bucket);
    part := Short(k) + " (" + Join(nodes, ", ") + ")";
  }

  method DescribeGroups(groups: Buckets) returns (s: string)
    ensures s == Described(groups)
  {
    var keys := SortedKeys(groups.Keys);
    var parts := DescribeBuckets(keys, groups);
    s := Join(parts, " vs ");
  }

  method DescribeBuckets(keys: seq<string>, groups: Buckets) returns (parts: seq<string>)
    requires forall k :: k in keys ==> k in groups
    ensures parts == Parts(keys, groups)
  {
    parts := [];
    for i := 0 to |keys|
      invariant parts == Parts(keys[..i], groups)
    {
      assert keys[..i + 1][..i] == keys[..i];
      var part := DescribeBucket(keys[i], groups[keys[i]]);
      parts := parts + [part];
    }
    assert keys[..|keys|] == keys;
  }

  lemma {:induction false} MembersAppend(a: seq<Member>, b: seq<Member>, v: string)
    ensures MembersOf(a + b, v) == MembersOf(a, v) + MembersOf(b, v)
    decreases |b|
  {
    if b == [] {
      assert a + b == a;
    } else {
      assert (a + b)[..|a + b| - 1] == a + b[..|b| - 1];
      MembersAppend(a, b[..|b| - 1], v);
    }
  }

  lemma {:induction false} MembersAround(l: seq<Member>, p: Member, r: seq<Member>, v: string)
    ensures multiset(MembersOf(Around(l, p, r), v))
         == multiset(MembersOf(l + r, v)) + if p.value == v then multiset{p.node} else multiset{}
  {
    MembersAppend(l + [p], r, v);
    MembersAppend(l, [p], v);
    MembersAppend(l, r, v);
    assert [p][..0] == [];
    assert MembersOf([p], v) == if p.value == v then [p.node] else [];
  }

  lemma {:induction false} MembersPermuted(a: seq<Member>, b: seq<Member>, v: string)
    requires multiset(a) == multiset(b)
    ensures multiset(MembersOf(a, v)) == multiset(MembersOf(b, v))
  {
    var f := (s: seq<Member>) => multiset(MembersOf(s, v));
    var add := (m: multiset<string>, p: Member) => m + if p.value == v then multiset{p.node} else multiset{};
    forall l, p, r
      ensures f(Around(l, p, r)) == add(f(l + r), p)
    {
      MembersAround(l, p, r, v);
    }
    OrderIrrelevant(f, add, a, b);
  }

  /** The description is the same for every order of the nodes. */
  lemma {:induction false} DescriptionIgnoresNodeOrder(a: seq<Member>, b: seq<Member>)
    requires multiset(a) == multiset(b)
    ensures Described(Grouped(a)) == Described(Grouped(b))
  {
    GroupedPartitions(a);
    GroupedPartitions(b);
    SameMembers(a, b);
    var m, r := Grouped(a), Grouped(b);
    assert m.Keys == r.Keys;
    forall k | k in m
      ensures Part(k, m[k]) == Part(k, r[k])
    {
      MembersPermuted(a, b, k);
      SortStringsCanonical(m[k], r[k]);
    }
    SameParts(Listing(m.Keys), m, r);
  }

  lemma {:induction false} SameParts(keys: seq<string>, m: Buckets, r: Buckets)
    requires forall k :: k in keys ==> k in m && k in r && Part(k, m[k]) == Part(k, r[k])
    ensures Parts(keys, m) == Parts(keys, r)
    decreases |keys|
  {
    if keys != [] {
      SameParts(keys[..|keys| - 1], m, r);
    }
  }

  lemma SameMembers(a: seq<Member>, b: seq<Member>)
    requires multiset(a) == multiset(b)
    ensures ValuesOf(a) == ValuesOf(b)
  {
    forall p
      ensures p in a <==> p in b
    {
      assert p in a <==> p in multiset(a);
      assert p in b <==> p in multiset(b);
    }
  }

  // ----- the buckets and the line, spelled out

  /** Each node is in the bucket of its value, a missing one read as "unknown", and whatever is
      in a bucket is a node with that value. */
  lemma NodesGrouped(live: seq<Snapshot>, key: Snapshot -> string, v: string, node: string)
    ensures var m := Grouped(Valued(live, key));
            (v in m && node in m[v])
            <==> exists s :: s in live && s.node == node && v == if key(s) == "" then "unknown" else key(s)
  {
    var ps := Valued(live, key);
    GroupedPartitions(ps);
    MembersAre(ps, v, node);
    if i :| 0 <= i < |ps| && ps[i] == Member(v, node) {
      assert live[i] in live;
    }
    if s :| s in live && s.node == node && v == if key(s) == "" then "unknown" else key(s) {
      var i :| 0 <= i < |live| && live[i] == s;
      assert ps[i] == Member(v, node);
    }
  }

  lemma {:induction false} MembersAre(ps: seq<Member>, v: string, node: string)
    ensures node in MembersOf(ps, v) <==> exists i :: 0 <= i < |ps| && ps[i] == Member(v, node)
  {
    if ps != [] {
      var n := |ps| - 1;
      MembersAre(ps[..n], v, node);
      assert forall i :: 0 <= i < n ==> ps[..n][i] == ps[i];
    }
  }

  /** One bucket reads "value (node, node)", the nodes in order. */
  lemma {:induction false} DescribedBucket(v: string, n1: string, n2: string)
    requires |v| <= 12 && AtMost(n1, n2)
    ensures Part(v, [n2, n1]) == v + " (" + (n1 + ", " + n2) + ")" && Part(v, [n1]) == v + " (" + n1 + ")"
  {
    TwoInOrder(n1, n2);
    SortOfSorted(AtMost, [n1]);
    assert [n1, n2][1..] == [n2];
    assert Join([n1, n2], ", ") == n1 + ", " + Join([n2], ", ");
  }

  lemma {:induction false} TwoInOrder(x: string, y: string)
    requires AtMost(x, y)
    ensures SortStrings([y, x]) == [x, y]
  {
    assert [y, x] == [y] + [x] && [x, y] == [x] + [y];
    SortStringsCanonical([y, x], [x, y]);
    SortOfSorted(AtMost, [x, y]);
  }

  /** A long value is cut to twelve characters and an ellipsis. */
  lemma LongValueCut(v: string, nodes: seq<string>)
    requires |v| > 12
    ensures Part(v, nodes)[..12] == v[..12] && Part(v, nodes)[12..14] == "\U{2026} "
  {
  }

  /** Two buckets read "bucket vs bucket", in the order of their values. */
  lemma {:induction false} DescribedTwo(v: string, w: string, vs: seq<string>, ws: seq<string>)
    requires AtMost(v, w) && v != w
    ensures Described(map[v := vs, w := ws]) == Part(v, vs) + " vs " + Part(w, ws)
  {
    var m := map[v := vs, w := ws];
    assert multiset([v, w]) == multiset(m.Keys);
    SortGivesListing([v, w], m.Keys);
    SortOfSorted(AtMost, [v, w]);
    PartsTwo(v, w, m);
  }

  lemma {:induction false} PartsTwo(v: string, w: string, m: Buckets)
    requires v in m && w in m
    ensures Join(Parts([v, w], m), " vs ") == Part(v, m[v]) + " vs " + Part(w, m[w])
  {
    assert [v, w][..1] == [v] && [v][..0] == [];
    assert Parts([v], m) == [Part(v, m[v])];
    assert Parts([v, w], m) == [Part(v, m[v]), Part(w, m[w])];
    assert [Part(v, m[v]), Part(w, m[w])][1..] == [Part(w, m[w])];
  }
}
