/** internal/audit, autoIncrement: whether the ids two nodes generate can collide. */
module AutoIncrement {
  import opened Sorting
  import opened Findings
  import opened Cluster

  const CHECK := "repl/auto-increment"

  function Control(s: Snapshot): Option<bool> {
    s.Bool("wsrep_auto_increment_control")
  }

  /** The offset, from the status variables or else from the global ones. */
  function OffsetOf(s: Snapshot): Option<real> {
    if s.Float("auto_increment_offset").Some? then s.Float("auto_increment_offset")
    else if "auto_increment_offset" in s.vars then s.vars["auto_increment_offset"].number
    else None
  }

  function StepOf(s: Snapshot): Option<real> {
    if "auto_increment_increment" in s.vars then s.vars["auto_increment_increment"].number else None
  }

  /** The nodes on which somebody turned the automatic control off. */
  function Uncontrolled(live: seq<Snapshot>): seq<Snapshot> {
    if live == [] then []
    else
      var before := Uncontrolled(live[..|live| - 1]);
      if Control(live[|live| - 1]) == Some(false) then before + [live[|live| - 1]] else before
  }

  function Controlled(live: seq<Snapshot>): nat {
    if live == [] then 0
    else Controlled(live[..|live| - 1]) + if Control(live[|live| - 1]) == Some(true) then 1 else 0
  }

  /** trimFloat: the shortest text of a number, one text per number. */
  datatype Printed = TrimFloat(of: real)

  /** The nodes that report offset `off`, in order. */
  function NodesAt(us: seq<Snapshot>, off: Printed): seq<string> {
    if us == [] then []
    else
      var before := NodesAt(us[..|us| - 1], off);
      if OffsetOf(us[|us| - 1]) == Some(off.of) then before + [us[|us| - 1].node] else before
  }

  ghost predicate SharedOffset(us: seq<Snapshot>) {
    exists i, j :: 0 <= i < j < |us| && OffsetOf(us[i]).Some? && OffsetOf(us[i]) == OffsetOf(us[j])
  }

  function SmallestStep(us: seq<Snapshot>): Option<real> {
    if us == [] then None
    else
      var before, step := SmallestStep(us[..|us| - 1]), StepOf(us[|us| - 1]);
      if step.Some? && (before.None? || step.value < before.value) then step else before
  }

  ghost function Verdict(name: string, live: seq<Snapshot>): seq<Finding> {
    var us := Uncontrolled(live);
    if us == [] then (if Controlled(live) == 0 then [] else [Finding(CHECK, name, OK, None)])
    else if SharedOffset(us) then [Finding(CHECK, name, BAD, None)]
    else if SmallestStep(us).Some? && SmallestStep(us).value < |live| as real then
      [Finding(CHECK, name, WARN, SmallestStep(us))]
    else [Finding(CHECK, name, OK, None)]
  }

  lemma {:induction false} SharedIffCrowded(us: seq<Snapshot>)
    ensures SharedOffset(us) <==> exists off :: |NodesAt(us, off)| > 1
  {
    if i, j :| 0 <= i < j < |us| && OffsetOf(us[i]).Some? && OffsetOf(us[i]) == OffsetOf(us[j]) {
      NodesAtCount(us, i, j, TrimFloat(OffsetOf(us[i]).value));
    }
    if off :| |NodesAt(us, off)| > 1 {
      CrowdedPair(us, off);
    }
  }

  lemma {:induction false} NodesAtCount(us: seq<Snapshot>, i: nat, j: nat, off: Printed)
    requires i <= j < |us| && OffsetOf(us[i]) == Some(off.of) && OffsetOf(us[j]) == Some(off.of)
    ensures |NodesAt(us, off)| >= if i < j then 2 else 1
  {
    var init := us[..|us| - 1];
    if j < |us| - 1 {
      NodesAtCount(init, i, j, off);
    } else if i < j {
      NodesAtCount(init, i, i, off);
    }
  }

  lemma {:induction false} CrowdedPair(us: seq<Snapshot>, off: Printed)
    ensures |NodesAt(us, off)| > 1 ==> SharedOffset(us)
    ensures |NodesAt(us, off)| > 0 ==> exists i :: 0 <= i < |us| && OffsetOf(us[i]) == Some(off.of)
  {
    if us != [] {
      var init, n := us[..|us| - 1], |us| - 1;
      CrowdedPair(init, off);
      if |NodesAt(init, off)| > 1 {
        var i, j :| 0 <= i < j < |init| && OffsetOf(init[i]).Some? && OffsetOf(init[i]) == OffsetOf(init[j]);
        assert us[i] == init[i] && us[j] == init[j];
      }
      if |NodesAt(init, off)| > 0 {
        var i :| 0 <= i < |init| && OffsetOf(init[i]) == Some(off.of);
        assert us[i] == init[i];
        assert OffsetOf(us[n]) == Some(off.of) ==> SharedOffset(us);
      }
    }
  }

  method Split(live: seq<Snapshot>) returns (uncontrolled: seq<Snapshot>, controlled: nat)
    ensures uncontrolled == Uncontrolled(live) && controlled == Controlled(live)
  {
    uncontrolled, controlled := [], 0;
    for i := 0 to |live|
      invariant uncontrolled == Uncontrolled(live[..i]) && controlled == Controlled(live[..i])
    {
      assert live[..i + 1][..i] == live[..i];
      var on := Control(live[i]);
      if on.None? {
        continue;
      }
      if on.value {
        controlled := controlled + 1;
        continue;
      }
      uncontrolled := uncontrolled + [live[i]];
    }
    assert live[..|live|] == live;
  }

  /** Buckets the offsets and keeps the running minimum of the steps. */
  method Survey(us: seq<Snapshot>) returns (offsets: map<Printed, seq<string>>, smallest: real, first: bool)
    ensures forall off :: if off in offsets then offsets[off] == NodesAt(us, off) else NodesAt(us, off) == []
    ensures first <==> SmallestStep(us).None?
    ensures !first ==> SmallestStep(us) == Some(smallest)
  {
    offsets, smallest, first := map[], 0.0, true;
    for i := 0 to |us|
      invariant forall off ::
                  NodesAt(us[..i], off) == if off in offsets then offsets[off] else []
      invariant first <==> SmallestStep(us[..i]).None?
      invariant !first ==> SmallestStep(us[..i]) == Some(smallest)
    {
      assert us[..i + 1][..i] == us[..i];
      var off := OffsetOf(us[i]);
      if off.Some? {
        var key := TrimFloat(off.value);
        offsets := offsets[key := (if key in offsets then offsets[key] else []) + [us[i].node]];
      }
      var step := StepOf(us[i]);
      if step.Some? && (first || step.value < smallest) {
        smallest, first := step.value, false;
      }
    }
    assert us[..|us|] == us;
  }

  /** The offsets more than one node uses, in whatever order the map hands them out. */
  method Shared(offsets: map<Printed, seq<string>>) returns (shared: seq<Printed>)
    ensures shared == [] <==> forall off :: off in offsets ==> |offsets[off]| <= 1
    ensures forall off :: off in shared ==> off in offsets && |offsets[off]| > 1
  {
    shared := [];
    var left := offsets.Keys;
    while left != {}
      invariant left <= offsets.Keys
      invariant shared == [] <==> forall off :: off in offsets && off !in left ==> |offsets[off]| <= 1
      invariant forall off :: off in shared ==> off in offsets && |offsets[off]| > 1
    {
      var off :| off in left;
      if |offsets[off]| > 1 {
        shared := shared + [off];
      }
      left := left - {off};
    }
  }

  method Check(name: string, live: seq<Snapshot>) returns (out: seq<Finding>)
    ensures out == Verdict(name, live)
  {
    var us, controlled := Split(live);
    if |us| == 0 {
      if controlled == 0 {
        return [];
      }
      return [Finding(CHECK, name, OK, None)];
    }
    var offsets, smallest, first := Survey(us);
    var shared := Shared(offsets);
    SharedIffCrowded(us);
    if |shared| > 0 {
      assert shared[0] in shared;
      assert |NodesAt(us, shared[0])| > 1;
      assert SharedOffset(us);
      return [Finding(CHECK, name, BAD, None)];
    }
    if !first && smallest < |live| as real {
      return [Finding(CHECK, name, WARN, Some(smallest))];
    }
    return [Finding(CHECK, name, OK, None)];
  }

  // ----- what the verdicts mean for the ids

  /** The server generates offset, offset + step, offset + 2*step, ... */
  ghost predicate Generates(offset: int, step: int, id: int) {
    exists k: nat :: id == IdAt(offset, step, k)
  }

  function IdAt(offset: int, step: int, k: nat): int {
    offset + k * step
  }

  ghost predicate Collide(o1: int, s1: int, o2: int, s2: int) {
    exists id :: Generates(o1, s1, id) && Generates(o2, s2, id)
  }

  lemma DivModUnique(x: int, q: int, r: int, s: int)
    requires s >= 1 && x == q * s + r && 0 <= r < s
    ensures x / s == q && x % s == r
  {
    var d := x / s - q;
    assert x == (x / s) * s + x % s;
    assert d * s == r - x % s;
    SmallMultiple(d, s);
  }

  lemma SmallMultiple(d: int, s: int)
    requires s >= 1 && -s < d * s < s
    ensures d == 0
  {
  }

  lemma ModOfSum(a: int, k: nat, step: int)
    requires step >= 1
    ensures (a + k * step) % step == a % step
  {
    assert a == (a / step) * step + a % step;
    assert a + k * step == (a / step + k) * step + a % step;
    DivModUnique(a + k * step, a / step + k, a % step, step);
  }

  // ----- when two streams meet

  function Gcd(a: nat, b: nat): nat
    decreases b
  {
    if b == 0 then a else Gcd(b, a % b)
  }

  lemma {:induction false} GcdDivides(a: nat, b: nat) returns (p: nat, q: nat)
    requires a > 0 || b > 0
    ensures Gcd(a, b) > 0 && a == p * Gcd(a, b) && b == q * Gcd(a, b)
    decreases b
  {
    if b == 0 {
      p, q := 1, 0;
    } else {
      var p1, q1 := GcdDivides(b, a % b);
      p, q := a / b * p1 + q1, p1;
      Quotients(a, b, p1, q1, Gcd(b, a % b));
    }
  }

  lemma Quotients(a: nat, b: nat, p: nat, q: nat, g: nat)
    requires b > 0 && b == p * g && a % b == q * g
    ensures a == (a / b * p + q) * g
  {
    Regroup(a / b, p, q, g);
    assert a == a / b * b + a % b;
  }

  lemma Regroup(d: nat, p: nat, q: nat, g: nat)
    ensures (d * p + q) * g == d * (p * g) + q * g
  {
    assert (d * p + q) * g == d * p * g + q * g;
  }

  lemma {:induction false} Bezout(a: nat, b: nat) returns (x: int, y: int)
    ensures x * a + y * b == Gcd(a, b)
    decreases b
  {
    if b == 0 {
      x, y := 1, 0;
    } else {
      var x1, y1 := Bezout(b, a % b);
      x, y := y1, x1 - y1 * (a / b);
      BezoutStep(x1, y1, a / b, b, a % b);
    }
  }

  lemma BezoutStep(x: int, y: int, d: int, b: int, r: int)
    ensures y * (d * b + r) + (x - y * d) * b == x * b + y * r
  {
    assert y * (d * b + r) == y * d * b + y * r;
  }

  /** Two streams meet exactly when their offsets agree modulo the steps' common divisor. */
  lemma {:induction false} MeetIffCongruent(o1: int, s1: nat, o2: int, s2: nat)
    requires s1 >= 1 && s2 >= 1
    ensures Gcd(s1, s2) > 0
    ensures Collide(o1, s1, o2, s2) <==> o1 % Gcd(s1, s2) == o2 % Gcd(s1, s2)
  {
    var g := Gcd(s1, s2);
    var p, q := GcdDivides(s1, s2);
    if Collide(o1, s1, o2, s2) {
      var id :| Generates(o1, s1, id) && Generates(o2, s2, id);
      SameResidue(o1, s1, id, p, g);
      SameResidue(o2, s2, id, q, g);
    }
    if o1 % g == o2 % g {
      MeetApart(o1, s1, o2, s2);
    }
  }

  /** On one step: exactly when their offsets agree modulo the step. */
  lemma CollideIffCongruent(a: int, b: int, step: int)
    requires step >= 1
    ensures Collide(a, step, b, step) <==> a % step == b % step
  {
    MeetIffCongruent(a, step, b, step);
    assert Gcd(step, step) == Gcd(step, 0) == step;
  }

  lemma SameResidue(o: int, s: nat, id: int, p: nat, g: nat)
    requires g > 0 && s == p * g && Generates(o, s, id)
    ensures id % g == o % g
  {
    var k: nat :| id == IdAt(o, s, k);
    assert k * (p * g) == (k * p) * g;
    ModOfSum(o, k * p, g);
  }

  lemma {:induction false} MeetApart(o1: int, s1: nat, o2: int, s2: nat)
    requires s1 >= 1 && s2 >= 1 && Gcd(s1, s2) > 0 && o1 % Gcd(s1, s2) == o2 % Gcd(s1, s2)
    ensures Collide(o1, s1, o2, s2)
  {
    var g := Gcd(s1, s2);
    var x, y := Bezout(s1, s2);
    var t := o2 / g - o1 / g;
    Between(o1, o2, g);
    Scaled(t, x, y, s1, s2);
    MeetAt(o1, s1, o2, s2, t * x, -(t * y));
  }

  lemma Between(o1: int, o2: int, g: nat)
    requires g > 0 && o1 % g == o2 % g
    ensures (o2 / g - o1 / g) * g == o2 - o1
  {
    assert o1 == (o1 / g) * g + o1 % g && o2 == (o2 / g) * g + o2 % g;
  }

  /** Whole numbers a and b that solve o1 + a * s1 == o2 + b * s2 can be made natural. */
  lemma MeetAt(o1: int, s1: nat, o2: int, s2: nat, a: int, b: int)
    requires s1 >= 1 && s2 >= 1 && a * s1 - b * s2 == o2 - o1
    ensures Collide(o1, s1, o2, s2)
  {
    var n := Abs(a) + Abs(b);
    Lifted(a, n, s2);
    Lifted(b, n, s1);
    SameId(a, b, n, s1, s2);
    MeetOn(o1, s1, a + n * s2, o2, s2, b + n * s1);
  }

  lemma MeetOn(o1: int, s1: nat, k: nat, o2: int, s2: nat, l: nat)
    requires k * s1 - l * s2 == o2 - o1
    ensures Collide(o1, s1, o2, s2)
  {
    assert IdAt(o1, s1, k) == IdAt(o2, s2, l);
    assert Generates(o1, s1, IdAt(o1, s1, k)) && Generates(o2, s2, IdAt(o1, s1, k));
  }

  function Abs(x: int): nat {
    if x < 0 then -x else x
  }

  lemma Scaled(t: int, x: int, y: int, s1: int, s2: int)
    ensures t * (x * s1 + y * s2) == (t * x) * s1 - (-(t * y)) * s2
  {
    assert t * (x * s1 + y * s2) == t * (x * s1) + t * (y * s2);
    assert (t * y) * s2 == t * (y * s2) && (t * x) * s1 == t * (x * s1);
    assert (-(t * y)) * s2 == -((t * y) * s2);
  }

  lemma Lifted(a: int, n: nat, s: nat)
    requires n >= Abs(a) && s >= 1
    ensures a + n * s >= 0
  {
    assert n * s == n + n * (s - 1);
  }

  lemma SameId(a: int, b: int, n: nat, s1: nat, s2: nat)
    ensures (a + n * s2) * s1 - (b + n * s1) * s2 == a * s1 - b * s2
  {
    assert (a + n * s2) * s1 == a * s1 + n * s2 * s1;
    assert (b + n * s1) * s2 == b * s2 + n * s1 * s2;
  }

  /** Every live node is set by hand and reports a whole offset and a step. */
  ghost predicate Reported(live: seq<Snapshot>, offs: seq<int>, steps: seq<nat>) {
    && |offs| == |live| && |steps| == |live|
    && forall i :: 0 <= i < |live| ==> && steps[i] >= 1 && Control(live[i]) == Some(false)
                                       && OffsetOf(live[i]) == Some(offs[i] as real)
                                       && StepOf(live[i]) == Some(steps[i] as real)
  }

  ghost predicate SomeMeet(offs: seq<int>, steps: seq<nat>)
    requires |offs| == |steps|
  {
    exists i, j :: 0 <= i < j < |offs| && Collide(offs[i], steps[i], offs[j], steps[j])
  }

  ghost predicate SomeCongruent(offs: seq<int>, steps: seq<nat>)
    requires |offs| == |steps| && forall i :: 0 <= i < |steps| ==> steps[i] >= 1
  {
    exists i, j :: 0 <= i < j < |offs| && Congruent(offs[i], steps[i], offs[j], steps[j])
  }

  predicate Congruent(o1: int, s1: nat, o2: int, s2: nat)
    requires s1 >= 1 && s2 >= 1
  {
    var g := Gcd(s1, s2);
    g > 0 && o1 % g == o2 % g
  }

  /** On any steps: two of the streams meet exactly when two offsets agree modulo the common
      divisor of their steps. */
  lemma SomeMeetIff(offs: seq<int>, steps: seq<nat>)
    requires |offs| == |steps| && forall i :: 0 <= i < |steps| ==> steps[i] >= 1
    ensures SomeMeet(offs, steps) <==> SomeCongruent(offs, steps)
  {
    forall i, j | 0 <= i < j < |offs|
      ensures Collide(offs[i], steps[i], offs[j], steps[j]) <==> Congruent(offs[i], steps[i], offs[j], steps[j])
    {
      MeetIffCongruent(offs[i], steps[i], offs[j], steps[j]);
    }
  }

  lemma {:induction false} ReportedSurvey(live: seq<Snapshot>, offs: seq<int>, steps: seq<nat>)
    requires Reported(live, offs, steps)
    ensures Uncontrolled(live) == live
    ensures LeastStep(SmallestStep(live), steps)
  {
    if live != [] {
      var n := |live| - 1;
      ReportedInit(live, offs, steps);
      ReportedSurvey(live[..n], offs[..n], steps[..n]);
      InitLast(live);
      InitLast(steps);
      SurveySnoc(live[..n], live[n], steps[n]);
      LeastSoFar(SmallestStep(live[..n]), steps[..n], steps[n]);
    }
  }

  lemma ReportedInit(live: seq<Snapshot>, offs: seq<int>, steps: seq<nat>)
    requires live != [] && Reported(live, offs, steps)
    ensures var n := |live| - 1;
            && Reported(live[..n], offs[..n], steps[..n])
            && Control(live[n]) == Some(false) && StepOf(live[n]) == Some(steps[n] as real)
  {
  }

  lemma {:induction false} SurveySnoc(us: seq<Snapshot>, s: Snapshot, step: nat)
    requires Control(s) == Some(false) && StepOf(s) == Some(step as real)
    ensures Uncontrolled(us + [s]) == Uncontrolled(us) + [s]
    ensures var m := SmallestStep(us);
            SmallestStep(us + [s]) == if m.None? || step as real < m.value then Some(step as real) else m
  {
    assert (us + [s])[..|us|] == us;
  }

  /** m is the least of the steps, if there are any. */
  ghost predicate LeastStep(m: Option<real>, steps: seq<nat>) {
    && (m.None? <==> steps == [])
    && (forall i :: 0 <= i < |steps| ==> m.value <= steps[i] as real)
    && (steps != [] ==> exists i :: 0 <= i < |steps| && m.value == steps[i] as real)
  }

  lemma LeastSoFar(m: Option<real>, steps: seq<nat>, step: nat)
    requires LeastStep(m, steps)
    ensures LeastStep(if m.None? || step as real < m.value then Some(step as real) else m, steps + [step])
  {
    var all := steps + [step];
    assert all[|steps|] == step;
    if m.Some? {
      var i :| 0 <= i < |steps| && m.value == steps[i] as real;
      assert all[i] == steps[i];
    }
  }

  /** Every live node is set by hand, reports a whole offset, and all share one step. */
  ghost predicate Uniform(live: seq<Snapshot>, offs: seq<int>, step: int) {
    && step >= 1 && |offs| == |live|
    && forall i :: 0 <= i < |live| ==> && Control(live[i]) == Some(false)
                                       && OffsetOf(live[i]) == Some(offs[i] as real)
                                       && StepOf(live[i]) == Some(step as real)
  }

  ghost predicate SomeCollide(offs: seq<int>, step: int) {
    exists i, j :: 0 <= i < j < |offs| && Collide(offs[i], step, offs[j], step)
  }

  lemma {:induction false} UniformSurvey(live: seq<Snapshot>, offs: seq<int>, step: int)
    requires Uniform(live, offs, step)
    ensures Uncontrolled(live) == live
    ensures live != [] ==> SmallestStep(live) == Some(step as real)
    ensures live == [] ==> SmallestStep(live) == None
  {
    ReportedSurvey(live, offs, seq(|live|, i => step));
  }

  /** offs are the whole offsets the uncontrolled nodes report; a node may report none. */
  ghost predicate WholeOffsets(us: seq<Snapshot>, offs: seq<int>) {
    |offs| == |us| && forall i :: 0 <= i < |us| && OffsetOf(us[i]).Some? ==> OffsetOf(us[i]).value == offs[i] as real
  }

  /** BAD: two of the nodes generate a common id, whatever steps they are on. */
  lemma {:induction false} BadMeansCollision(name: string, live: seq<Snapshot>, offs: seq<int>, steps: seq<int>)
    requires Verdict(name, live) == [Finding(CHECK, name, BAD, None)]
    requires WholeOffsets(Uncontrolled(live), offs) && |steps| == |offs|
    ensures exists i, j :: 0 <= i < j < |offs| && Collide(offs[i], steps[i], offs[j], steps[j])
  {
    var us := Uncontrolled(live);
    var i, j :| 0 <= i < j < |us| && OffsetOf(us[i]).Some? && OffsetOf(us[i]) == OffsetOf(us[j]);
    var off := offs[i];
    assert off as real == offs[j] as real;
    assert off == IdAt(off, steps[i], 0) && off == IdAt(off, steps[j], 0);
    assert Generates(off, steps[i], off) && Generates(off, steps[j], off);
    assert Collide(offs[i], steps[i], offs[j], steps[j]);
  }

  ghost predicate Distinct(xs: seq<int>) {
    forall i, j :: 0 <= i < j < |xs| ==> xs[i] != xs[j]
  }

  /** More values than there are numbers below s cannot all be different. */
  lemma Pigeonhole(xs: seq<int>, s: nat)
    requires |xs| > s && forall x :: x in xs ==> 0 <= x < s
    ensures !Distinct(xs)
  {
    var vs := set x | x in xs;
    RangeSize(vs, s);
    if Distinct(xs) {
      DistinctSize(xs);
      assert false;
    }
  }

  ghost function NumbersBelow(s: nat): (r: set<int>)
    ensures |r| == s && forall v :: v in r <==> 0 <= v < s
  {
    if s == 0 then {} else NumbersBelow(s - 1) + {s - 1}
  }

  lemma RangeSize(vs: set<int>, s: nat)
    requires forall x :: x in vs ==> 0 <= x < s
    ensures |vs| <= s
  {
    var all := NumbersBelow(s);
    assert vs <= all;
    assert all == vs + (all - vs);
  }

  lemma {:induction false} DistinctSize(xs: seq<int>)
    requires Distinct(xs)
    ensures |set x | x in xs| == |xs|
  {
    if xs != [] {
      var init, last := xs[..|xs| - 1], xs[|xs| - 1];
      assert xs == init + [last];
      DistinctSize(init);
      assert (set x | x in xs) == (set x | x in init) + {last};
      assert last !in init;
    }
  }

  /** WARN: with fewer residues than nodes two of them share one, so two streams meet. */
  lemma WarnMeansCollision(name: string, live: seq<Snapshot>, offs: seq<int>, step: int)
    requires Uniform(live, offs, step)
    requires Verdict(name, live) == [Finding(CHECK, name, WARN, Some(step as real))]
    ensures SomeCollide(offs, step)
  {
    UniformSurvey(live, offs, step);
    var rs := seq(|offs|, i requires 0 <= i < |offs| => offs[i] % step);
    Pigeonhole(rs, step);
    var i, j :| 0 <= i < j < |rs| && rs[i] == rs[j];
    CollideIffCongruent(offs[i], offs[j], step);
  }

  lemma SharedIffEqualOffsets(live: seq<Snapshot>, offs: seq<int>, step: int)
    requires Uniform(live, offs, step)
    ensures SharedOffset(live) <==> !Distinct(offs)
  {
    if SharedOffset(live) {
      var i, j :| 0 <= i < j < |live| && OffsetOf(live[i]).Some? && OffsetOf(live[i]) == OffsetOf(live[j]);
      assert offs[i] as real == offs[j] as real;
    }
    if !Distinct(offs) {
      var i, j :| 0 <= i < j < |offs| && offs[i] == offs[j];
      assert OffsetOf(live[i]) == OffsetOf(live[j]);
    }
  }

  lemma CollideIffEqual(offs: seq<int>, step: int)
    requires step >= 1 && forall i :: 0 <= i < |offs| ==> 1 <= offs[i] <= step
    ensures SomeCollide(offs, step) <==> !Distinct(offs)
  {
    forall i, j | 0 <= i < j < |offs|
      ensures Collide(offs[i], step, offs[j], step) <==> offs[i] == offs[j]
    {
      CollideIffCongruent(offs[i], offs[j], step);
      SmallResidues(offs[i], offs[j], step);
    }
  }

  lemma DistinctFit(offs: seq<int>, step: nat)
    requires forall i :: 0 <= i < |offs| ==> 1 <= offs[i] <= step
    ensures Distinct(offs) ==> |offs| <= step
  {
    if |offs| > step {
      var xs := seq(|offs|, i requires 0 <= i < |offs| => offs[i] - 1);
      Pigeonhole(xs, step);
      var i, j :| 0 <= i < j < |xs| && xs[i] == xs[j];
      assert offs[i] == offs[j];
    }
  }

  /** With every offset in 1..step the verdict is exactly the question: BAD when two streams
      meet, OK when all of them are pairwise disjoint, and never WARN. */
  lemma VerdictDecidesCollision(name: string, live: seq<Snapshot>, offs: seq<int>, step: int)
    requires live != [] && Uniform(live, offs, step)
    requires forall i :: 0 <= i < |offs| ==> 1 <= offs[i] <= step
    ensures Verdict(name, live) == [Finding(CHECK, name, if SomeCollide(offs, step) then BAD else OK, None)]
  {
    UniformSurvey(live, offs, step);
    SharedIffEqualOffsets(live, offs, step);
    CollideIffEqual(offs, step);
    DistinctFit(offs, step);
  }

  lemma SmallResidues(a: int, b: int, step: int)
    requires 1 <= a <= step && 1 <= b <= step
    ensures a % step == b % step <==> a == b
  {
    DivModUnique(a, if a == step then 1 else 0, if a == step then 0 else a, step);
    DivModUnique(b, if b == step then 1 else 0, if b == step then 0 else b, step);
  }

  /** With other offsets, or different steps, OK promises less: the streams are disjoint exactly
      when no two offsets agree modulo the common divisor of their steps. */
  lemma OkIffResiduesDiffer(name: string, live: seq<Snapshot>, offs: seq<int>, steps: seq<nat>)
    requires live != [] && Reported(live, offs, steps)
    requires Verdict(name, live) == [Finding(CHECK, name, OK, None)]
    ensures !SomeMeet(offs, steps) <==> !SomeCongruent(offs, steps)
    ensures forall i :: 0 <= i < |steps| ==> |live| <= steps[i]
  {
    ReportedSurvey(live, offs, steps);
    SomeMeetIff(offs, steps);
  }

  /** Offsets 1 and 3 on step 2: two nodes, distinct offsets, enough steps, OK, and id 3 twice. */
  lemma OkCanCollide(name: string, a: Snapshot, b: Snapshot)
    requires Uniform([a, b], [1, 3], 2)
    ensures Verdict(name, [a, b]) == [Finding(CHECK, name, OK, None)]
    ensures SomeCollide([1, 3], 2)
  {
    var live := [a, b];
    UniformSurvey(live, [1, 3], 2);
    assert OffsetOf(live[0]) == Some(1.0) && OffsetOf(live[1]) == Some(3.0);
    assert !SharedOffset(live);
    CollideIffCongruent(1, 3, 2);
    assert Collide([1, 3][0], 2, [1, 3][1], 2);
  }

  /** Different steps, offsets 1 and 3 on steps 4 and 6: OK, and id 9 twice. */
  lemma OkCanCollideAcrossSteps(name: string, a: Snapshot, b: Snapshot)
    requires Reported([a, b], [1, 3], [4, 6])
    ensures Verdict(name, [a, b]) == [Finding(CHECK, name, OK, None)]
    ensures Generates(1, 4, 9) && Generates(3, 6, 9)
  {
    var live := [a, b];
    ReportedSurvey(live, [1, 3], [4, 6]);
    assert OffsetOf(live[0]) == Some(1.0) && OffsetOf(live[1]) == Some(3.0);
    assert !SharedOffset(live);
    assert SmallestStep(live).value >= 4.0;
    assert IdAt(1, 4, 2) == 9 && IdAt(3, 6, 1) == 9;
  }

  /** Different steps, offsets 1, 2 and 4 on steps 2, 4 and 4: WARN, and no id twice. */
  lemma WarnCanBeDisjoint(name: string, a: Snapshot, b: Snapshot, c: Snapshot)
    requires Reported([a, b, c], [1, 2, 4], [2, 4, 4])
    ensures Verdict(name, [a, b, c]) == [Finding(CHECK, name, WARN, Some(2.0))]
    ensures !SomeMeet([1, 2, 4], [2, 4, 4])
  {
    var live, offs, steps := [a, b, c], [1, 2, 4], [2, 4, 4];
    ReportedSurvey(live, offs, steps);
    assert OffsetOf(live[0]) == Some(1.0) && OffsetOf(live[1]) == Some(2.0) && OffsetOf(live[2]) == Some(4.0);
    assert !SharedOffset(live);
    assert steps[0] == 2;
    DisjointExample();
  }

  lemma DisjointExample()
    ensures !SomeMeet([1, 2, 4], [2, 4, 4])
  {
    assert Gcd(2, 4) == Gcd(4, 2) == Gcd(2, 0) == 2 && Gcd(4, 4) == Gcd(4, 0) == 4;
    assert !Congruent(1, 2, 2, 4) && !Congruent(1, 2, 4, 4) && !Congruent(2, 4, 4, 4);
    SomeMeetIff([1, 2, 4], [2, 4, 4]);
  }

  // ----- the verdict, spelled out

  /** The offset a node reports: its status value, or else its variable. */
  ghost predicate Offers(s: Snapshot, off: real) {
    if "auto_increment_offset" in s.status && s.status["auto_increment_offset"].number.Some?
    then s.status["auto_increment_offset"].number == Some(off)
    else "auto_increment_offset" in s.vars && s.vars["auto_increment_offset"].number == Some(off)
  }

  ghost predicate ByHand(s: Snapshot) {
    s.Bool("wsrep_auto_increment_control") == Some(false)
  }

  /** Two nodes set by hand report the same offset. */
  ghost predicate SameOffset(live: seq<Snapshot>) {
    exists i, j, off :: 0 <= i < j < |live| && ByHand(live[i]) && ByHand(live[j])
                        && Offers(live[i], off) && Offers(live[j], off)
  }

  /** step is the least step reported by a node set by hand. */
  ghost predicate LeastByHand(live: seq<Snapshot>, step: real) {
    && (exists s :: s in live && ByHand(s) && Steps(s, step))
    && forall s, other :: s in live && ByHand(s) && Steps(s, other) ==> step <= other
  }

  ghost predicate Steps(s: Snapshot, step: real) {
    "auto_increment_increment" in s.vars && s.vars["auto_increment_increment"].number == Some(step)
  }

  lemma {:induction false} ByHandAre(live: seq<Snapshot>)
    ensures forall s :: s in Uncontrolled(live) <==> s in live && ByHand(s)
    ensures Controlled(live) > 0 <==> exists s :: s in live && s.Bool("wsrep_auto_increment_control") == Some(true)
  {
    if live != [] {
      var init, last := live[..|live| - 1], live[|live| - 1];
      InitLast(live);
      ByHandAre(init);
      assert forall s :: s in live <==> s in init || s == last;
    }
  }

  lemma {:induction false} SharedIs(live: seq<Snapshot>)
    ensures SharedOffset(Uncontrolled(live)) <==> SameOffset(live)
  {
    if live != [] {
      var init, last := live[..|live| - 1], live[|live| - 1];
      InitLast(live);
      SharedIs(init);
      ByHandAre(init);
      SharedSnoc(Uncontrolled(init), last);
      SameSnoc(init, last);
    }
  }

  lemma SharedSnoc(us: seq<Snapshot>, s: Snapshot)
    ensures SharedOffset(us + [s]) <==> SharedOffset(us) || exists u, off :: u in us && Offers(u, off) && Offers(s, off)
  {
    var all := us + [s];
    if i, j :| 0 <= i < j < |all| && OffsetOf(all[i]).Some? && OffsetOf(all[i]) == OffsetOf(all[j]) {
      if j == |us| {
        assert all[i] in us && Offers(all[i], OffsetOf(s).value) && Offers(s, OffsetOf(s).value);
      } else {
        assert all[i] == us[i] && all[j] == us[j];
      }
    }
    if SharedOffset(us) {
      var i, j :| 0 <= i < j < |us| && OffsetOf(us[i]).Some? && OffsetOf(us[i]) == OffsetOf(us[j]);
      assert all[i] == us[i] && all[j] == us[j];
    }
    if u, off :| u in us && Offers(u, off) && Offers(s, off) {
      var i :| 0 <= i < |us| && us[i] == u;
      assert all[i] == u && all[|us|] == s;
    }
  }

  lemma SameSnoc(live: seq<Snapshot>, s: Snapshot)
    ensures SameOffset(live + [s])
       <==> SameOffset(live)
            || (ByHand(s) && exists u, off :: u in live && ByHand(u) && Offers(u, off) && Offers(s, off))
  {
    var all := live + [s];
    if i, j, off :| 0 <= i < j < |all| && ByHand(all[i]) && ByHand(all[j])
                    && Offers(all[i], off) && Offers(all[j], off)
    {
      if j == |live| {
        assert all[i] in live && ByHand(all[i]) && Offers(all[i], off);
      } else {
        assert all[i] == live[i] && all[j] == live[j];
      }
    }
    if SameOffset(live) {
      var i, j, off :| 0 <= i < j < |live| && ByHand(live[i]) && ByHand(live[j])
                       && Offers(live[i], off) && Offers(live[j], off);
      assert all[i] == live[i] && all[j] == live[j];
    }
    if u, off :| ByHand(s) && u in live && ByHand(u) && Offers(u, off) && Offers(s, off) {
      var i :| 0 <= i < |live| && live[i] == u;
      assert all[i] == u && all[|live|] == s;
    }
  }

  lemma {:induction false} LeastIs(us: seq<Snapshot>)
    ensures SmallestStep(us).Some? <==> exists s :: s in us && StepOf(s).Some?
    ensures forall s :: s in us && StepOf(s).Some? ==>
              SmallestStep(us).Some? && SmallestStep(us).value <= StepOf(s).value
    ensures SmallestStep(us).Some? ==> exists s :: s in us && StepOf(s) == SmallestStep(us)
  {
    if us != [] {
      var init, last := us[..|us| - 1], us[|us| - 1];
      InitLast(us);
      LeastIs(init);
      assert forall s :: s in us <==> s in init || s == last;
    }
  }

  lemma {:induction false} VerdictFacts(live: seq<Snapshot>)
    ensures Uncontrolled(live) == [] <==> forall s :: s in live ==> !ByHand(s)
    ensures SharedOffset(Uncontrolled(live)) <==> SameOffset(live)
    ensures forall step :: LeastByHand(live, step) <==> SmallestStep(Uncontrolled(live)) == Some(step)
    ensures Controlled(live) > 0 <==> exists s :: s in live && s.Bool("wsrep_auto_increment_control") == Some(true)
  {
    var us := Uncontrolled(live);
    ByHandAre(live);
    SharedIs(live);
    LeastIs(us);
    assert us != [] ==> us[0] in us;
    forall step
      ensures LeastByHand(live, step) <==> SmallestStep(us) == Some(step)
    {
      LeastAt(live, us, step);
    }
  }

  lemma {:induction false} LeastAt(live: seq<Snapshot>, us: seq<Snapshot>, step: real)
    requires forall s :: s in us <==> s in live && ByHand(s)
    ensures LeastByHand(live, step) <==> SmallestStep(us) == Some(step)
  {
    LeastIs(us);
    if LeastByHand(live, step) {
      var s :| s in live && ByHand(s) && Steps(s, step);
      assert s in us && StepOf(s) == Some(step);
      var t :| t in us && StepOf(t) == SmallestStep(us);
      assert Steps(t, SmallestStep(us).value);
    }
    if SmallestStep(us) == Some(step) {
      var s :| s in us && StepOf(s) == SmallestStep(us);
      assert Steps(s, step);
      forall u, other | u in live && ByHand(u) && Steps(u, other)
        ensures step <= other
      {
        assert u in us && StepOf(u) == Some(other);
      }
    }
  }

  /** BAD for a shared offset; else WARN when the least step is below the number of all live nodes,
      managed ones included; else OK; nothing when no node says how its values are set. */
  lemma VerdictSays(name: string, live: seq<Snapshot>)
    ensures SameOffset(live) ==> Verdict(name, live) == [Finding("repl/auto-increment", name, BAD, None)]
    ensures forall step :: !SameOffset(live) && LeastByHand(live, step) && step < |live| as real ==>
              Verdict(name, live) == [Finding("repl/auto-increment", name, WARN, Some(step))]
    ensures !SameOffset(live) && (forall step :: LeastByHand(live, step) ==> step >= |live| as real)
            && (exists s :: s in live && s.Bool("wsrep_auto_increment_control").Some?) ==>
              Verdict(name, live) == [Finding("repl/auto-increment", name, OK, None)]
    ensures (forall s :: s in live ==> s.Bool("wsrep_auto_increment_control").None?) ==> Verdict(name, live) == []
  {
    VerdictComplains(name, live);
    VerdictAccepts(name, live);
  }

  lemma VerdictComplains(name: string, live: seq<Snapshot>)
    ensures SameOffset(live) ==> Verdict(name, live) == [Finding("repl/auto-increment", name, BAD, None)]
    ensures forall step :: !SameOffset(live) && LeastByHand(live, step) && step < |live| as real ==>
              Verdict(name, live) == [Finding("repl/auto-increment", name, WARN, Some(step))]
  {
    VerdictFacts(live);
    if SameOffset(live) {
      assert Uncontrolled(live) != [];
    }
  }

  lemma VerdictAccepts(name: string, live: seq<Snapshot>)
    ensures !SameOffset(live) && (forall step :: LeastByHand(live, step) ==> step >= |live| as real)
            && (exists s :: s in live && s.Bool("wsrep_auto_increment_control").Some?) ==>
              Verdict(name, live) == [Finding("repl/auto-increment", name, OK, None)]
    ensures (forall s :: s in live ==> s.Bool("wsrep_auto_increment_control").None?) ==> Verdict(name, live) == []
  {
    VerdictFacts(live);
    if s :| s in live && s.Bool("wsrep_auto_increment_control").Some? {
      assert ByHand(s) || s.Bool("wsrep_auto_increment_control") == Some(true);
    }
  }
}
