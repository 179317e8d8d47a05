/** internal/state, Since and Delta: a counter's movement between two runs, against a
    server that counts up and starts from zero on every boot. */
module Rates {
  import opened Findings
  import opened State

  const SECOND := 1_000_000_000

  datatype Delta = Delta(value: real, elapsed: int)
  {
    /** The rate per second, or 0 for an interval that is not positive. */
    function PerSecond(): real {
      if elapsed <= 0 then 0.0 else value / (elapsed as real / SECOND as real)
    }
  }

  /** The movement of `key` on `node` since the previous run; None without a usable baseline. */
  function Since(prev: Option<Baseline>, node: string, key: string, now: NodeState): Option<Delta> {
    if prev.None? || prev.value.version != VERSION then None
    else if node !in prev.value.nodes then None
    else Between(prev.value.nodes[node], key, now)
  }

  function Between(before: NodeState, key: string, now: NodeState): Option<Delta> {
    if key !in before.counters || key !in now.counters || now.counters[key] < before.counters[key] then None
    else if now.at - before.at <= 0 then None
    else if before.uptime > 0.0 && now.uptime > 0.0 && now.uptime < before.uptime then None
    else Some(Delta(now.counters[key] - before.counters[key], now.at - before.at))
  }

  /** A rate over a positive interval covers the value in the interval's seconds. */
  lemma RateCovers(d: Delta)
    ensures d.elapsed > 0 ==> d.PerSecond() * (d.elapsed as real / SECOND as real) == d.value
    ensures d.elapsed <= 0 ==> d.PerSecond() == 0.0
    ensures d.elapsed > 0 ==> (d.PerSecond() > 0.0 <==> d.value > 0.0)
  {
    if d.elapsed > 0 {
      var seconds := d.elapsed as real / SECOND as real;
      assert seconds > 0.0;
      QuotientSign(d.value, seconds);
    }
  }

  lemma QuotientSign(x: real, y: real)
    requires y > 0.0
    ensures x / y * y == x && (x / y > 0.0 <==> x > 0.0)
  {
    var q := x / y;
    assert q * y == x;
    SignOfProduct(q, y);
  }

  lemma SignOfProduct(q: real, y: real)
    requires y > 0.0
    ensures q > 0.0 <==> q * y > 0.0
  {
    if q > 0.0 {
      assert q * y > 0.0;
    } else {
      assert -q * y >= 0.0;
    }
  }

  /** There is an answer exactly for a baseline of version 2 that has the counter, when the
      counter did not go backwards, time passed, and the known uptimes do not say restart. */
  lemma SinceAnswersIff(prev: Option<Baseline>, node: string, key: string, now: NodeState)
    ensures Since(prev, node, key, now).Some?
       <==> && prev.Some? && prev.value.version == 2 && node in prev.value.nodes
            && var before := prev.value.nodes[node];
               && key in before.counters && key in now.counters && before.counters[key] <= now.counters[key]
               && before.at < now.at
               && (before.uptime <= 0.0 || now.uptime <= 0.0 || before.uptime <= now.uptime)
  {
  }

  // ----- the server being measured

  datatype Event = Elapse(ns: nat) | Count(n: nat) | Restart

  /** A server's clock, its last boot, and one status counter since that boot. */
  datatype Server = Server(clock: int, boot: int, counter: nat)

  function Step(s: Server, e: Event): Server {
    match e
    case Elapse(ns) => s.(clock := s.clock + ns)
    case Count(n) => s.(counter := s.counter + n)
    case Restart => s.(boot := s.clock, counter := 0)
  }

  function Run(s: Server, es: seq<Event>): Server
    decreases |es|
  {
    if es == [] then s else Run(Step(s, es[0]), es[1..])
  }

  /** How many events really happened: what no restart can take back. */
  function Happened(es: seq<Event>): nat {
    if es == [] then 0 else (if es[0].Count? then es[0].n else 0) + Happened(es[1..])
  }

  predicate Restarted(es: seq<Event>) {
    Restart in es
  }

  predicate Up(s: Server) {
    s.boot <= s.clock
  }

  /** What one read of the server records: Uptime is reported in whole seconds. */
  function Observed(s: Server, key: string): NodeState
    requires Up(s)
  {
    NodeState(s.clock, ((s.clock - s.boot) / SECOND) as real, "", map[key := s.counter as real])
  }

  lemma {:induction false} RunProgress(s: Server, es: seq<Event>)
    requires Up(s)
    ensures Up(Run(s, es)) && s.clock <= Run(s, es).clock
    ensures !Restarted(es) ==> Run(s, es).boot == s.boot && Run(s, es).counter == s.counter + Happened(es)
    ensures Restarted(es) ==> Run(s, es).boot >= s.clock && Run(s, es).counter <= Happened(es)
    decreases |es|
  {
    if es != [] {
      RunProgress(Step(s, es[0]), es[1..]);
      assert es == [es[0]] + es[1..];
    }
  }

  lemma WholeSecondsMonotone(a: int, b: int)
    requires 0 <= a <= b
    ensures 0 <= a / SECOND <= b / SECOND
    ensures (a / SECOND) * SECOND <= a
  {
  }

  /** What an answer always means: a positive interval and a movement that is not negative.
      Without a restart there is always an answer for a positive interval, and it is the truth. */
  lemma {:induction false} SinceWithoutRestart(s: Server, es: seq<Event>, key: string)
    requires Up(s) && !Restarted(es)
    ensures Up(Run(s, es))
    ensures var d := Between(Observed(s, key), key, Observed(Run(s, es), key));
            if Run(s, es).clock == s.clock then d.None?
            else d == Some(Delta(Happened(es) as real, Run(s, es).clock - s.clock))
  {
    RunProgress(s, es);
    WholeSecondsMonotone(s.clock - s.boot, Run(s, es).clock - s.boot);
  }

  /** ns records a read of the server: its clock, its uptime and the counter. */
  ghost predicate Reads(ns: NodeState, s: Server, key: string) {
    && Up(s) && ns.at == s.clock && ns.uptime == ((s.clock - s.boot) / SECOND) as real
    && key in ns.counters && ns.counters[key] == s.counter as real
  }

  /** Read twice without a restart between, a node gets its true delta from a baseline of
      version 2, and none when there is no such baseline of it. */
  lemma {:induction false} SinceTrue(b: Baseline, node: string, key: string, s: Server, es: seq<Event>, now: NodeState)
    requires b.version == 2 && node in b.nodes && Reads(b.nodes[node], s, key)
    requires Reads(now, Run(s, es), key) && !Restarted(es) && s.clock < Run(s, es).clock
    ensures Since(Some(b), node, key, now) == Some(Delta(Happened(es) as real, Run(s, es).clock - s.clock))
  {
    RunProgress(s, es);
    WholeSecondsMonotone(s.clock - s.boot, Run(s, es).clock - s.boot);
  }

  /** A reported uptime longer than the interval rules a restart out, so the answer is exact. */
  lemma {:induction false} SinceExactWhenUptimeCovers(s: Server, es: seq<Event>, key: string)
    requires Up(s) && Up(Run(s, es))
    requires Between(Observed(s, key), key, Observed(Run(s, es), key)).Some?
    requires Observed(Run(s, es), key).uptime * SECOND as real > (Run(s, es).clock - s.clock) as real
    ensures !Restarted(es)
    ensures Between(Observed(s, key), key, Observed(Run(s, es), key))
         == Some(Delta(Happened(es) as real, Run(s, es).clock - s.clock))
  {
    RunProgress(s, es);
    var up := Run(s, es).clock - Run(s, es).boot;
    WholeSecondsMonotone(up, up);
    UptimeAsInteger(up, Run(s, es).clock - s.clock);
    assert !Restarted(es);
    SinceWithoutRestart(s, es, key);
  }

  lemma UptimeAsInteger(up: int, elapsed: int)
    ensures (up / SECOND) as real * SECOND as real > elapsed as real <==> (up / SECOND) * SECOND > elapsed
  {
    var u := up / SECOND;
    assert u as real * SECOND as real == (u * SECOND) as real;
  }

  /** The comparison the code makes (uptime against the previous uptime) catches every restart
      once the previous uptime alone exceeds the interval. */
  lemma {:induction false} SinceExactWhenPreviousUptimeCovers(s: Server, es: seq<Event>, key: string)
    requires Up(s) && Up(Run(s, es))
    requires Between(Observed(s, key), key, Observed(Run(s, es), key)).Some?
    requires Observed(s, key).uptime > 0.0 && Observed(Run(s, es), key).uptime > 0.0
    requires Observed(s, key).uptime * SECOND as real > (Run(s, es).clock - s.clock) as real
    ensures !Restarted(es)
    ensures Between(Observed(s, key), key, Observed(Run(s, es), key))
         == Some(Delta(Happened(es) as real, Run(s, es).clock - s.clock))
  {
    var before, after := Observed(s, key), Observed(Run(s, es), key);
    assert after.uptime >= before.uptime;
    assert after.uptime * SECOND as real >= before.uptime * SECOND as real;
    SinceExactWhenUptimeCovers(s, es, key);
  }

  /** A read that reports whole seconds of uptime and a counter. */
  function Reading(key: string, at: int, uptime: nat, counter: nat): NodeState {
    NodeState(at, uptime as real, "", map[key := counter as real])
  }

  /** s and then es are one explanation of two successive reads. */
  ghost predicate Explains(s: Server, es: seq<Event>, key: string, before: NodeState, after: NodeState) {
    Up(s) && Up(Run(s, es)) && Observed(s, key) == before && Observed(Run(s, es), key) == after
  }

  /** When an answer can be trusted: every history that explains the two reads has exactly
      `value` events if and only if the uptime now reported is longer than the interval. The code
      compares it with the previous uptime instead. */
  lemma SinceTrustworthyIff(key: string, t0: int, t1: int, u0: nat, u1: nat, c0: nat, c1: nat)
    requires Between(Reading(key, t0, u0, c0), key, Reading(key, t1, u1, c1)).Some?
    ensures (forall s, es :: Explains(s, es, key, Reading(key, t0, u0, c0), Reading(key, t1, u1, c1)) ==>
               Between(Reading(key, t0, u0, c0), key, Reading(key, t1, u1, c1)).value.value == Happened(es) as real)
       <==> u1 * SECOND > t1 - t0
  {
    var before, after := Reading(key, t0, u0, c0), Reading(key, t1, u1, c1);
    var d := Between(before, key, after);
    if u1 * SECOND > t1 - t0 {
      forall s, es | Explains(s, es, key, before, after)
        ensures d.value.value == Happened(es) as real
      {
        assert u1 as real * SECOND as real == (u1 * SECOND) as real;
        SinceExactWhenUptimeCovers(s, es, key);
      }
    } else {
      UnseenRestart(key, t0, t1, u0, u1, c0, c1);
    }
  }

  /** The history the code mistakes for steady counting: one event is lost to a restart, and
      the counter has climbed past its old value again by the next read. */
  lemma UnseenRestart(key: string, t0: int, t1: int, u0: nat, u1: nat, c0: nat, c1: nat)
    requires u1 * SECOND <= t1 - t0
    ensures exists s, es :: Explains(s, es, key, Reading(key, t0, u0, c0), Reading(key, t1, u1, c1))
                         && Restarted(es) && Happened(es) == c1 + 1
  {
    var s := Server(t0, t0 - u0 * SECOND, c0);
    var wait, upNow := t1 - t0 - u1 * SECOND, u1 * SECOND;
    var e4 := [Elapse(upNow)];
    var e3 := [Count(c1)] + e4;
    var e2 := [Restart] + e3;
    var e1 := [Elapse(wait)] + e2;
    var es := [Count(1)] + e1;
    var s1 := Step(s, Count(1));
    var s2 := Step(s1, Elapse(wait));
    var s3 := Step(s2, Restart);
    var s4 := Step(s3, Count(c1));
    var s5 := Step(s4, Elapse(upNow));
    assert e4[1..] == [] && e3[1..] == e4 && e2[1..] == e3 && e1[1..] == e2 && es[1..] == e1;
    assert Run(s4, e4) == Run(s5, []) == s5;
    assert Run(s3, e3) == Run(s4, e4);
    assert Run(s2, e2) == Run(s3, e3);
    assert Run(s1, e1) == Run(s2, e2);
    assert Run(s, es) == Run(s1, e1);
    assert s5 == Server(t1, t1 - upNow, c1);
    assert Happened(e4) == Happened([]) == 0;
    assert Happened(e3) == c1 + Happened(e4);
    assert Happened(e2) == Happened(e3) && Happened(e1) == Happened(e2) && Happened(es) == 1 + Happened(e1);
    assert (t1 - s5.boot) / SECOND == u1 && (t0 - s.boot) / SECOND == u0;
    assert Observed(s, key) == Reading(key, t0, u0, c0);
    assert Observed(s5, key) == Reading(key, t1, u1, c1);
    assert Explains(s, es, key, Reading(key, t0, u0, c0), Reading(key, t1, u1, c1));
    assert es[2] == Restart;
    assert Restarted(es);
  }

  // ----- deltas over many runs

  /** Sum of the movements between consecutive reads, when every one of them was answered. */
  function Summed(samples: seq<NodeState>, key: string): Option<Delta> {
    if |samples| < 2 then Some(Delta(0.0, 0))
    else
      var head, tail := Between(samples[0], key, samples[1]), Summed(samples[1..], key);
      if head.None? || tail.None? then None
      else Some(Delta(head.value.value + tail.value.value, head.value.elapsed + tail.value.elapsed))
  }

  /** Accepted consecutive deltas telescope, in value and in time, over any number of runs. */
  lemma {:induction false} DeltasTelescope(samples: seq<NodeState>, key: string)
    requires |samples| >= 2 && Summed(samples, key).Some?
    ensures key in samples[0].counters && key in samples[|samples| - 1].counters
    ensures Summed(samples, key) == Some(Delta(samples[|samples| - 1].counters[key] - samples[0].counters[key],
                                             samples[|samples| - 1].at - samples[0].at))
    ensures Summed(samples, key).value.value >= 0.0 && Summed(samples, key).value.elapsed > 0
  {
    if |samples| > 2 {
      assert samples[1..][|samples| - 2] == samples[|samples| - 1];
      DeltasTelescope(samples[1..], key);
    } else {
      assert Summed(samples[1..], key) == Some(Delta(0.0, 0));
    }
  }

  /** Two accepted steps make one accepted long step with the same totals, unless the middle
      read had no uptime to compare. */
  lemma DeltasCompose(a: NodeState, b: NodeState, c: NodeState, key: string)
    requires Between(a, key, b).Some? && Between(b, key, c).Some?
    ensures Between(a, key, c).Some? <==> (a.uptime <= 0.0 || c.uptime <= 0.0 || c.uptime >= a.uptime)
    ensures b.uptime > 0.0 ==> Between(a, key, c).Some?
    ensures Between(a, key, c).Some? ==>
              && Between(a, key, c).value.value == Between(a, key, b).value.value + Between(b, key, c).value.value
              && Between(a, key, c).value.elapsed == Between(a, key, b).value.elapsed + Between(b, key, c).value.elapsed
  {
  }
}
