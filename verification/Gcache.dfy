/** internal/audit, gcache: how many seconds of writes the write-set cache holds, through a
    float-to-integer conversion and a 64-bit multiplication. */
module Gcache {
  import opened Sorting
  import opened Findings
  import opened Cluster
  import opened State
  import opened Rates

  const CHECK := "gcache/window"
  const TWO63 := 0x8000_0000_0000_0000
  const TWO64 := 0x1_0000_0000_0000_0000

  /** Two's complement: the value int64 arithmetic keeps of x. */
  function Wrap64(x: int): int {
    (x + TWO63) % TWO64 - TWO63
  }

  /** int64 of a float that is not negative: truncated; the minimum when it does not fit. */
  function Truncated(x: real): int
    requires x >= 0.0
  {
    if x.Floor < TWO63 then x.Floor else -TWO63
  }

  /** time.Duration(float64(size)/rate) * time.Second, in nanoseconds. */
  function Window(size: int, rate: real): int
    requires size > 0 && rate > 0.0
  {
    Wrap64(Truncated(size as real / rate) * SECOND)
  }

  function StateOf(now: Baseline, node: string): NodeState {
    if node in now.nodes then now.nodes[node] else NodeState(0, 0.0, "", map[])
  }

  function GcacheSize(s: Snapshot): Option<int> {
    if "gcache.size" in s.options && s.options["gcache.size"].number.Some?
    then Some(s.options["gcache.size"].number.value.Floor) else None
  }

  function Rate(s: Snapshot, prev: Option<Baseline>, now: Baseline): Option<real> {
    var d := Since(prev, s.node, "wsrep_replicated_bytes", StateOf(now, s.node));
    if d.None? || d.value.PerSecond() <= 0.0 then None else Some(d.value.PerSecond())
  }

  /** The one finding about a node, or none when its size is not known. */
  function FindingOf(s: Snapshot, prev: Option<Baseline>, now: Baseline, istWarn: int): seq<Finding> {
    var size, rate := GcacheSize(s), Rate(s, prev, now);
    if size.None? || size.value <= 0 then []
    else if rate.None? then [Finding(CHECK, s.node, OK, Some(size.value as real))]
    else
      var w := Window(size.value, rate.value);
      [Finding(CHECK, s.node, if w < istWarn then WARN else OK, Some(w as real / SECOND as real))]
  }

  function FindingsOf(live: seq<Snapshot>, prev: Option<Baseline>, now: Baseline, istWarn: int): seq<Finding> {
    if live == [] then []
    else FindingsOf(live[..|live| - 1], prev, now, istWarn) + FindingOf(live[|live| - 1], prev, now, istWarn)
  }

  method Check(live: seq<Snapshot>, prev: Option<Baseline>, now: Baseline, istWarn: int) returns (out: seq<Finding>)
    ensures out == FindingsOf(live, prev, now, istWarn)
  {
    out := [];
    for i := 0 to |live|
      invariant out == FindingsOf(live[..i], prev, now, istWarn)
    {
      assert live[..i + 1][..i] == live[..i];
      var s := live[i];
      var size := GcacheSize(s);
      if size.None? || size.value <= 0 {
        continue;
      }
      var d := Since(prev, s.node, "wsrep_replicated_bytes", StateOf(now, s.node));
      if d.None? || d.value.PerSecond() <= 0.0 {
        out := out + [Finding(CHECK, s.node, OK, Some(size.value as real))];
        continue;
      }
      var window := Wrap64(Truncated(size.value as real / d.value.PerSecond()) * SECOND);
      var st := OK;
      if window < istWarn {
        st := WARN;
      }
      out := out + [Finding(CHECK, s.node, st, Some(window as real / SECOND as real))];
    }
    assert live[..|live|] == live;
  }

  // ----- what the number means

  /** Whole seconds of writes that fit. */
  function Seconds(size: int, rate: real): nat
    requires size > 0 && rate > 0.0
  {
    QuotientPositive(size as real, rate);
    (size as real / rate).Floor
  }

  lemma QuotientPositive(x: real, y: real)
    requires x > 0.0 && y > 0.0
    ensures x / y > 0.0
  {
    assert x == (x / y) * y;
    NonPositiveProduct(x / y, y);
  }

  lemma NonPositiveProduct(q: real, y: real)
    requires y > 0.0
    ensures q <= 0.0 ==> q * y <= 0.0
  {
  }

  /** Floor division: that many seconds of writes fit, one more does not. */
  lemma SecondsBound(size: int, rate: real)
    requires size > 0 && rate > 0.0
    ensures Seconds(size, rate) as real * rate <= size as real < (Seconds(size, rate) as real + 1.0) * rate
  {
    FloorBound(size as real, size as real / rate, rate);
  }

  lemma FloorBound(x: real, q: real, y: real)
    requires y > 0.0 && x == q * y
    ensures q.Floor as real * y <= x < (q.Floor as real + 1.0) * y
  {
    ProductMonotone(q.Floor as real, q, y);
    ProductStrict(q, q.Floor as real + 1.0, y);
  }

  lemma ProductMonotone(a: real, b: real, y: real)
    requires y > 0.0 && a <= b
    ensures a * y <= b * y
  {
  }

  lemma ProductStrict(a: real, b: real, y: real)
    requires y > 0.0 && a < b
    ensures a * y < b * y
  {
  }

  lemma SecondsMonotone(size1: int, size2: int, rate1: real, rate2: real)
    requires 0 < size1 <= size2 && 0.0 < rate2 <= rate1
    ensures Seconds(size1, rate1) <= Seconds(size2, rate2)
  {
    SecondsBound(size1, rate1);
    SecondsBound(size2, rate2);
    Overlap(Seconds(size1, rate1) as real, Seconds(size2, rate2) as real, size1 as real, size2 as real, rate1, rate2);
  }

  lemma Overlap(w1: real, w2: real, x1: real, x2: real, y1: real, y2: real)
    requires w1 * y1 <= x1 <= x2 && x2 < (w2 + 1.0) * y2
    requires w2 >= 0.0 && 0.0 < y2 <= y1
    ensures w1 < w2 + 1.0
  {
    ScaleMonotone(w2 + 1.0, y2, y1);
    if w1 >= w2 + 1.0 {
      ProductMonotone(w2 + 1.0, w1, y1);
      assert false;
    }
  }

  lemma ScaleMonotone(w: real, a: real, b: real)
    requires w >= 0.0 && a <= b
    ensures w * a <= w * b
  {
  }

  /** The largest whole number of seconds int64 nanoseconds can hold: about 292 years. */
  const MAX_SECONDS := 9_223_372_036

  lemma WrapIdentityIff(x: int)
    ensures Wrap64(x) == x <==> -TWO63 <= x < TWO63
    ensures -TWO63 <= Wrap64(x) < TWO63
  {
  }

  /** The graded window is the true one exactly when it fits. */
  lemma NoWrapIff(size: int, rate: real)
    requires size > 0 && rate > 0.0
    ensures Window(size, rate) == Seconds(size, rate) * SECOND <==> Seconds(size, rate) <= MAX_SECONDS
  {
    var w := Seconds(size, rate);
    QuotientPositive(size as real, rate);
    WrapIdentityIff(w * SECOND);
    WrapIdentityIff(Truncated(size as real / rate) * SECOND);
  }

  /** Too many nanoseconds, w seconds of them, are read as no less than the threshold. */
  predicate WrapsHigh(w: int, istWarn: int) {
    if w < TWO63 then (w * SECOND + TWO63) % TWO64 >= istWarn + TWO63 else istWarn <= 0
  }

  /** Against a threshold that is itself an int64 duration, the verdict is right exactly when
      the window fits or its excess over a multiple of 2^64 is at or above the threshold. */
  lemma VerdictRightIff(size: int, rate: real, istWarn: int)
    requires size > 0 && rate > 0.0 && istWarn < TWO63
    ensures (Window(size, rate) < istWarn <==> Seconds(size, rate) * SECOND < istWarn)
       <==> (Seconds(size, rate) <= MAX_SECONDS || WrapsHigh(Seconds(size, rate), istWarn))
  {
    NoWrapIff(size, rate);
    QuotientPositive(size as real, rate);
    assert Wrap64(-TWO63 * SECOND) == 0;
  }

  /** A cache that lasts 292 years and one second is graded WARN. */
  lemma WrappedWindowWarns()
    ensures Seconds(MAX_SECONDS + 1, 1.0) == MAX_SECONDS + 1
    ensures Window(MAX_SECONDS + 1, 1.0) < 0
  {
    var x := (MAX_SECONDS + 1) as real;
    assert x / 1.0 == x;
    assert x.Floor == MAX_SECONDS + 1;
    var n := (MAX_SECONDS + 1) * SECOND;
    assert TWO63 <= n < TWO63 + TWO63;
    assert (n + TWO63) % TWO64 == n + TWO63 - TWO64;
  }

  /** In a report: a node with a rate is WARN exactly when its seconds are below the
      threshold, provided they fit. */
  lemma WarnIffShort(s: Snapshot, prev: Option<Baseline>, now: Baseline, istWarn: int)
    requires GcacheSize(s).Some? && GcacheSize(s).value > 0 && Rate(s, prev, now).Some?
    requires Seconds(GcacheSize(s).value, Rate(s, prev, now).value) <= MAX_SECONDS
    ensures var w := Seconds(GcacheSize(s).value, Rate(s, prev, now).value);
            FindingOf(s, prev, now, istWarn) ==
            [Finding(CHECK, s.node, if w * SECOND < istWarn then WARN else OK, Some(w as real))]
  {
    var size, rate := GcacheSize(s).value, Rate(s, prev, now).value;
    NoWrapIff(size, rate);
    var w := Seconds(size, rate);
    assert (w * SECOND) as real == w as real * SECOND as real;
    assert (w * SECOND) as real / SECOND as real == w as real;
  }

  /** Which nodes have a rate: those whose replicated bytes moved up since the baseline. */
  lemma RateIs(s: Snapshot, prev: Option<Baseline>, now: Baseline)
    requires s.node in now.nodes
    ensures var d := Since(prev, s.node, "wsrep_replicated_bytes", now.nodes[s.node]);
            && (Rate(s, prev, now).Some? <==> d.Some? && d.value.value > 0.0)
            && (Rate(s, prev, now).Some? ==> Rate(s, prev, now).value == d.value.PerSecond() > 0.0)
  {
    var d := Since(prev, s.node, "wsrep_replicated_bytes", now.nodes[s.node]);
    SinceAnswersIff(prev, s.node, "wsrep_replicated_bytes", now.nodes[s.node]);
    if d.Some? {
      RateCovers(d.value);
    }
  }

  /** Nothing is said of a node whose size is unknown or not positive; without a rate the size is
      reported ungraded. */
  lemma UngradedSays(s: Snapshot, prev: Option<Baseline>, now: Baseline, istWarn: int)
    ensures "gcache.size" !in s.options || s.options["gcache.size"].number.None?
            || s.options["gcache.size"].number.value < 1.0 ==>
              FindingOf(s, prev, now, istWarn) == []
    ensures "gcache.size" in s.options && s.options["gcache.size"].number.Some?
            && s.options["gcache.size"].number.value >= 1.0 && Rate(s, prev, now).None? ==>
              FindingOf(s, prev, now, istWarn)
              == [Finding("gcache/window", s.node, OK, Some(s.options["gcache.size"].number.value.Floor as real))]
  {
  }

  /** The check says of each node what is said of it alone. */
  lemma {:induction false} FindingsAre(live: seq<Snapshot>, prev: Option<Baseline>, now: Baseline, istWarn: int,
                                       f: Finding)
    ensures f in FindingsOf(live, prev, now, istWarn)
       <==> exists s :: s in live && f in FindingOf(s, prev, now, istWarn)
  {
    if live != [] {
      var init, last := live[..|live| - 1], live[|live| - 1];
      InitLast(live);
      FindingsAre(init, prev, now, istWarn, f);
      assert forall s :: s in live <==> s in init || s == last;
    }
  }
}
