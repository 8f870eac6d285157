// kernel/proc.c: the rules sched uses to choose the next process, as
// functions of the process table: round robin from the slot after
// rrindex, shortest-process-next and shortest-remaining-time, the count of
// competing processes, and the fixed-point load average.
module SchedRules {
  import opened Param
  import opened Wrappers
  import opened ProcModel

  predicate Runnable(ps: seq<Proc>, j: int) {
    0 <= j < |ps| && ps[j].state == RUNNABLE
  }

  // --------------------------------------------------------- round robin

  /** The slot roundrobin's i-th probe looks at: (i + rrindex + 1) % NPROC. */
  function Probe(rr: nat, i: nat): (j: nat)
    ensures j < NPROC
  {
    (i + rr + 1) % NPROC
  }

  /** roundrobin's scan from probe i on. */
  function RRScan(ps: seq<Proc>, rr: nat, i: nat): (r: Option<nat>)
    requires |ps| == NPROC
    ensures r.Some? ==> r.value < NPROC
    decreases NPROC - i
  {
    if i >= NPROC then None
    else if ps[Probe(rr, i)].state == RUNNABLE then Some(Probe(rr, i))
    else RRScan(ps, rr, i + 1)
  }

  /** The slot roundrobin returns (and stores in rrindex). */
  function RRPick(ps: seq<Proc>, rr: nat): (r: Option<nat>)
    requires |ps| == NPROC
    ensures r.Some? ==> r.value < NPROC
  {
    RRScan(ps, rr, 0)
  }

  /** How many probes after rr reach slot j. */
  function Dist(rr: nat, j: nat): int {
    (j - rr - 1) % NPROC
  }

  lemma ProbeDist(rr: nat, i: nat)
    requires rr < NPROC && i < NPROC
    ensures Dist(rr, Probe(rr, i)) == i
  {
    var x := i + rr + 1;
    if x < NPROC {
      DivMod(x, NPROC, 0, x);
      DivMod(x - rr - 1, NPROC, 0, i);
    } else {
      DivMod(x, NPROC, 1, x - NPROC);
      DivMod(x - NPROC - rr - 1, NPROC, -1, i);
    }
  }

  lemma DistProbe(rr: nat, j: nat)
    requires rr < NPROC && j < NPROC
    ensures 0 <= Dist(rr, j) < NPROC && Probe(rr, Dist(rr, j)) == j
  {
    var y := j - rr - 1;
    if y >= 0 {
      DivMod(y, NPROC, 0, y);
      DivMod(y + rr + 1, NPROC, 0, j);
    } else {
      DivMod(y, NPROC, -1, y + NPROC);
      DivMod(y + NPROC + rr + 1, NPROC, 1, j);
    }
  }

  /** Probes are one to one: two slots a probe count apart coincide. */
  lemma DistInjective(rr: nat, a: nat, b: nat)
    requires rr < NPROC && a < NPROC && b < NPROC && Dist(rr, a) == Dist(rr, b)
    ensures a == b
  {
    DistProbe(rr, a);
    DistProbe(rr, b);
  }

  /** The scan from probe i returns the RUNNABLE slot with the fewest
      probes at or beyond i; None means every RUNNABLE slot lies before i. */
  lemma {:induction false} RRScanMeaning(ps: seq<Proc>, rr: nat, i: nat)
    requires |ps| == NPROC && rr < NPROC && i <= NPROC
    ensures var r := RRScan(ps, rr, i);
      r.Some? ==> Runnable(ps, r.value) && i <= Dist(rr, r.value)
    ensures var r := RRScan(ps, rr, i);
      r.Some? ==> forall k :: Runnable(ps, k) && i <= Dist(rr, k) ==> Dist(rr, r.value) <= Dist(rr, k)
    ensures var r := RRScan(ps, rr, i);
      r.None? ==> forall k :: Runnable(ps, k) ==> Dist(rr, k) < i
    decreases NPROC - i
  {
    if i == NPROC {
      forall k | Runnable(ps, k)
        ensures Dist(rr, k) < i
      {
        DistProbe(rr, k);
      }
    } else {
      var p := Probe(rr, i);
      ProbeDist(rr, i);
      if ps[p].state != RUNNABLE {
        RRScanMeaning(ps, rr, i + 1);
        forall k | Runnable(ps, k) && Dist(rr, k) == i
          ensures false
        {
          DistInjective(rr, k, p);
        }
      }
    }
  }

  /** roundrobin picks the RUNNABLE slot reached first when probing from
      rrindex+1 around the table back to rrindex itself, and finds none
      exactly when no slot is RUNNABLE. */
  lemma RRPickMeaning(ps: seq<Proc>, rr: nat)
    requires |ps| == NPROC && rr < NPROC
    ensures var r := RRPick(ps, rr);
      (r.Some? ==> Runnable(ps, r.value) && forall k :: Runnable(ps, k) ==> Dist(rr, r.value) <= Dist(rr, k))
      && (r.None? <==> forall k :: 0 <= k < |ps| ==> ps[k].state != RUNNABLE)
  {
    RRScanMeaning(ps, rr, 0);
    forall k | 0 <= k < |ps| && ps[k].state == RUNNABLE
      ensures RRPick(ps, rr).Some?
    {
      DistProbe(rr, k);
      assert Runnable(ps, k);
    }
  }

  /** Probes counted from b, in terms of probes counted from rr. */
  lemma DistShift(rr: nat, b: nat, j: nat)
    requires rr < NPROC && b < NPROC && j < NPROC
    ensures Dist(rr, j) > Dist(rr, b) ==> Dist(b, j) == Dist(rr, j) - Dist(rr, b) - 1
    ensures Dist(rr, j) <= Dist(rr, b) ==> Dist(b, j) == Dist(rr, j) - Dist(rr, b) - 1 + NPROC
  {
    var kj, kb := Dist(rr, j), Dist(rr, b);
    var qj, qb := (j - rr - 1) / NPROC, (b - rr - 1) / NPROC;
    assert j - rr - 1 == NPROC * qj + kj;
    assert b - rr - 1 == NPROC * qb + kb;
    DistProbe(rr, j);
    DistProbe(rr, b);
    if kj > kb {
      DivMod(j - b - 1, NPROC, qj - qb, kj - kb - 1);
    } else {
      DivMod(j - b - 1, NPROC, qj - qb - 1, kj - kb - 1 + NPROC);
    }
  }

  /** The slot chosen by the (m+1)-th of consecutive roundrobin calls on a
      table whose states do not change in between. */
  function RRRound(ps: seq<Proc>, rr: nat, m: nat): (r: Option<nat>)
    requires |ps| == NPROC
    ensures r.Some? ==> r.value < NPROC
    decreases m
  {
    if m == 0 then RRPick(ps, rr)
    else
      match RRRound(ps, rr, m - 1)
      case None => None
      case Some(j) => RRPick(ps, j)
  }

  function RunnableSet(ps: seq<Proc>): set<nat> {
    set j: nat | j < |ps| && ps[j].state == RUNNABLE
  }

  /** The RUNNABLE slots reached before q when probing from rr. */
  function Before(ps: seq<Proc>, rr: nat, q: nat): set<nat> {
    set j: nat | j < |ps| && ps[j].state == RUNNABLE && Dist(rr, j) < Dist(rr, q)
  }

  lemma {:induction false} SubsetCard(a: set<nat>, b: set<nat>)
    requires a <= b
    ensures |a| <= |b|
    decreases |a|
  {
    if a != {} {
      var x :| x in a;
      SubsetCard(a - {x}, b - {x});
    }
  }

  /** Fewer slots lie before a slot reached earlier. */
  lemma BeforeGrows(ps: seq<Proc>, rr: nat, a: nat, b: nat)
    requires |ps| == NPROC && rr < NPROC && Runnable(ps, a) && Dist(rr, a) < Dist(rr, b)
    ensures |Before(ps, rr, a)| < |Before(ps, rr, b)|
  {
    var s := Before(ps, rr, a) + {a};
    assert a !in Before(ps, rr, a);
    SubsetCard(s, Before(ps, rr, b));
  }

  /** The first call picks the slot with no RUNNABLE slot before it. */
  lemma RoundFirst(ps: seq<Proc>, rr: nat)
    requires |ps| == NPROC && rr < NPROC && |RunnableSet(ps)| > 0
    ensures var r := RRRound(ps, rr, 0); r.Some? && Runnable(ps, r.value) && Before(ps, rr, r.value) == {}
  {
    var x :| x in RunnableSet(ps);
    RRPickMeaning(ps, rr);
    assert Runnable(ps, x);
  }

  /** Each further call, while RUNNABLE slots remain that were not yet
      reached from rr, picks the next one in probe order from rr. */
  lemma RoundNext(ps: seq<Proc>, rr: nat, q0: nat)
    requires |ps| == NPROC && rr < NPROC && q0 < NPROC && Runnable(ps, q0)
    requires |Before(ps, rr, q0)| + 1 < |RunnableSet(ps)|
    ensures var r := RRPick(ps, q0);
      r.Some? && Runnable(ps, r.value) && Before(ps, rr, r.value) == Before(ps, rr, q0) + {q0}
  {
    var le := Before(ps, rr, q0) + {q0};
    assert q0 !in Before(ps, rr, q0);
    assert |le| < |RunnableSet(ps)|;
    var x: nat :| x in RunnableSet(ps) - le by {
      if RunnableSet(ps) - le == {} {
        SubsetCard(RunnableSet(ps), le);
        assert false;
      }
    }
    assert Dist(rr, x) > Dist(rr, q0) by {
      if Dist(rr, x) == Dist(rr, q0) {
        DistInjective(rr, x, q0);
      }
    }
    RRPickMeaning(ps, q0);
    var q := RRPick(ps, q0).value;
    DistShift(rr, q0, x);
    DistShift(rr, q0, q);
    DistProbe(rr, x);
    assert Dist(rr, q) > Dist(rr, q0);
    forall j | j in Before(ps, rr, q)
      ensures j in le
    {
      DistShift(rr, q0, j);
      if Dist(rr, j) == Dist(rr, q0) {
        DistInjective(rr, j, q0);
      }
    }
  }

  /** The (m+1)-th call, for m below the number of RUNNABLE slots, picks
      the RUNNABLE slot with exactly m RUNNABLE slots before it. */
  lemma {:induction false} RoundsCount(ps: seq<Proc>, rr: nat, m: nat)
    requires |ps| == NPROC && rr < NPROC && m < |RunnableSet(ps)|
    ensures var r := RRRound(ps, rr, m); r.Some? && Runnable(ps, r.value) && |Before(ps, rr, r.value)| == m
    decreases m
  {
    if m == 0 {
      RoundFirst(ps, rr);
    } else {
      RoundsCount(ps, rr, m - 1);
      var q0 := RRRound(ps, rr, m - 1).value;
      RoundNext(ps, rr, q0);
      assert q0 !in Before(ps, rr, q0);
    }
  }

  /** Each of the first k calls, k the number of RUNNABLE slots, picks a
      RUNNABLE slot. */
  lemma RoundsRunnable(ps: seq<Proc>, rr: nat)
    requires |ps| == NPROC && rr < NPROC
    ensures forall m :: 0 <= m < |RunnableSet(ps)| ==>
      RRRound(ps, rr, m).Some? && RRRound(ps, rr, m).value in RunnableSet(ps)
  {
    forall m | 0 <= m < |RunnableSet(ps)|
      ensures RRRound(ps, rr, m).Some? && RRRound(ps, rr, m).value in RunnableSet(ps)
    {
      RoundsCount(ps, rr, m);
    }
  }

  /** The first k calls pick k different slots. */
  lemma RoundsDistinct(ps: seq<Proc>, rr: nat)
    requires |ps| == NPROC && rr < NPROC
    ensures forall a, c :: 0 <= a < c < |RunnableSet(ps)| ==> RRRound(ps, rr, a) != RRRound(ps, rr, c)
  {
    forall a, c | 0 <= a < c < |RunnableSet(ps)|
      ensures RRRound(ps, rr, a) != RRRound(ps, rr, c)
    {
      RoundsCount(ps, rr, a);
      RoundsCount(ps, rr, c);
    }
  }

  /** The call numbered by how many RUNNABLE slots precede j picks j. */
  lemma RoundReaches(ps: seq<Proc>, rr: nat, j: nat)
    requires |ps| == NPROC && rr < NPROC && j in RunnableSet(ps)
    ensures |Before(ps, rr, j)| < |RunnableSet(ps)|
    ensures RRRound(ps, rr, |Before(ps, rr, j)|) == Some(j)
  {
    var m := |Before(ps, rr, j)|;
    assert j !in Before(ps, rr, j);
    SubsetCard(Before(ps, rr, j) + {j}, RunnableSet(ps));
    RoundsCount(ps, rr, m);
    var q := RRRound(ps, rr, m).value;
    if Dist(rr, q) < Dist(rr, j) {
      BeforeGrows(ps, rr, q, j);
    } else if Dist(rr, j) < Dist(rr, q) {
      BeforeGrows(ps, rr, j, q);
    } else {
      DistInjective(rr, q, j);
    }
  }

  /** Round robin is fair: with k RUNNABLE slots and no state changes, k
      consecutive calls pick k different RUNNABLE slots, and a RUNNABLE slot
      with m RUNNABLE slots ahead of it in probe order is picked by call m. */
  lemma RoundRobinFair(ps: seq<Proc>, rr: nat)
    requires |ps| == NPROC && rr < NPROC
    ensures forall m :: 0 <= m < |RunnableSet(ps)| ==>
      RRRound(ps, rr, m).Some? && RRRound(ps, rr, m).value in RunnableSet(ps)
    ensures forall a, c :: 0 <= a < c < |RunnableSet(ps)| ==> RRRound(ps, rr, a) != RRRound(ps, rr, c)
    ensures forall j: nat :: j in RunnableSet(ps) ==>
      |Before(ps, rr, j)| < |RunnableSet(ps)| && RRRound(ps, rr, |Before(ps, rr, j)|) == Some(j)
  {
    RoundsRunnable(ps, rr);
    RoundsDistinct(ps, rr);
    forall j: nat | j in RunnableSet(ps)
      ensures |Before(ps, rr, j)| < |RunnableSet(ps)| && RRRound(ps, rr, |Before(ps, rr, j)|) == Some(j)
    {
      RoundReaches(ps, rr, j);
    }
  }

  // ------------------------------------ shortest process / remaining time

  /** The slots both policies consider: RUNNABLE and kernelmode != 1. */
  predicate Eligible(p: Proc) {
    p.state == RUNNABLE && p.kernelmode != 1
  }

  /** What the policy minimises: eticks (shortestprocessnext) or
      eticks - pt_cpu (shortestremainingtime). */
  function Key(p: Proc, remaining: bool): int {
    if remaining then p.eticks - p.tick.ptCpu else p.eticks
  }

  /** Slot a wins over slot b: a smaller key, or an equal key and the
      earlier slot (shortestremainingtime compares with <) or the later
      slot (shortestprocessnext compares with <=). */
  predicate Beats(ps: seq<Proc>, remaining: bool, a: nat, b: nat)
    requires a < |ps| && b < |ps|
  {
    var ka, kb := Key(ps[a], remaining), Key(ps[b], remaining);
    ka < kb || (ka == kb && if remaining then a <= b else b <= a)
  }

  predicate SomeNegative(ps: seq<Proc>) {
    exists j :: 0 <= j < |ps| && Eligible(ps[j]) && ps[j].eticks < 0
  }

  /** r is the slot the policy's scan selects: none when no slot is
      eligible; the lowest eligible slot with negative eticks when there is
      one; otherwise an eligible slot that beats every eligible slot. */
  predicate ShortestChoice(ps: seq<Proc>, remaining: bool, r: Option<nat>) {
    (r.None? <==> forall j :: 0 <= j < |ps| ==> !Eligible(ps[j]))
    && (r.Some? ==>
          r.value < |ps| && Eligible(ps[r.value])
          && (SomeNegative(ps) ==>
                ps[r.value].eticks < 0 && forall j :: 0 <= j < r.value && Eligible(ps[j]) ==> ps[j].eticks >= 0)
          && (!SomeNegative(ps) ==>
                forall j :: 0 <= j < |ps| && Eligible(ps[j]) ==> Beats(ps, remaining, r.value, j)))
  }

  /** The rule leaves no choice: at most one slot satisfies it. */
  lemma ShortestUnique(ps: seq<Proc>, remaining: bool, r1: Option<nat>, r2: Option<nat>)
    requires ShortestChoice(ps, remaining, r1) && ShortestChoice(ps, remaining, r2)
    ensures r1 == r2
  {
    if r1.Some? && r2.Some? {
      var a, b := r1.value, r2.value;
      if !SomeNegative(ps) {
        assert Beats(ps, remaining, a, b) && Beats(ps, remaining, b, a);
      }
    }
  }

  // ------------------------------------------------------ load average

  /** sched's count of RUNNABLE or RUNNING slots. */
  function CountActive(ps: seq<Proc>): (n: nat)
    ensures n <= |ps|
  {
    if ps == [] then 0
    else CountActive(ps[..|ps| - 1]) + (if ps[|ps| - 1].state == RUNNABLE || ps[|ps| - 1].state == RUNNING then 1 else 0)
  }

  function ActiveSet(ps: seq<Proc>): set<nat> {
    set j: nat | j < |ps| && (ps[j].state == RUNNABLE || ps[j].state == RUNNING)
  }

  /** runnables is the number of RUNNABLE or RUNNING slots. */
  lemma {:induction false} CountActiveIsCard(ps: seq<Proc>)
    ensures CountActive(ps) == |ActiveSet(ps)|
  {
    if ps != [] {
      var n := |ps| - 1;
      var init := ps[..n];
      CountActiveIsCard(init);
      assert forall j: nat :: j < n ==> init[j] == ps[j];
      if ps[n].state == RUNNABLE || ps[n].state == RUNNING {
        assert ActiveSet(ps) == ActiveSet(init) + {n};
      } else {
        assert ActiveSet(ps) == ActiveSet(init);
      }
    }
  }

  /** C's int multiplication result on a 32-bit two's complement machine. */
  function Int32(x: int): int {
    (x + 0x8000_0000) % UINT_MOD - 0x8000_0000
  }

  /** C's `/` on int, which truncates toward zero. */
  function DivTrunc(a: int, b: nat): int
    requires b > 0
  {
    if a >= 0 then a / b else -((-a) / b)
  }

  /** sched's update of loadavg, as written: 9992328*loadavg is computed in
      unsigned 32-bit arithmetic, 7672*runnables*10000 in signed 32-bit
      arithmetic (its overflow is undefined in C; here it wraps), and the
      signed quotient is added to the unsigned average modulo 2^32. */
  function LoadAvgAsWritten(avg: uint32, runnables: int): uint32 {
    var decayed := (9992328 * avg) % UINT_MOD / 10000000;
    var added := DivTrunc(Int32(7672 * runnables * 10000), 10000000);
    (decayed + added) % UINT_MOD
  }

  /** The update as intended, in units of 1/10000: the average decays by
      0.9992328 and gains 0.0007672 per competing process. */
  function LoadAvg(avg: nat, runnables: nat): nat {
    9992328 * avg / 10000000 + 7672 * runnables * 10000 / 10000000
  }

  /** Below 430 and 28 competing processes the code computes the intended
      value. */
  lemma LoadAvgAgrees(avg: uint32, runnables: nat)
    requires avg <= 429 && runnables <= 27
    ensures LoadAvgAsWritten(avg, runnables) == LoadAvg(avg, runnables)
  {
    var x := 9992328 * avg;
    DivMod(x, UINT_MOD, 0, x);
    var y := 7672 * runnables * 10000;
    DivMod(y + 0x8000_0000, UINT_MOD, 0, y + 0x8000_0000);
    var s := x / 10000000 + y / 10000000;
    assert x / 10000000 <= 429 by { DivMod(x, 10000000, x / 10000000, x % 10000000); }
    assert y / 10000000 <= 207 by { DivMod(y, 10000000, y / 10000000, y % 10000000); }
    DivMod(s, UINT_MOD, 0, s);
  }

  /** At 430 (0.0430) the unsigned product wraps and the average drops to 0
      instead of 429. */
  lemma LoadAvgWraps()
    ensures LoadAvgAsWritten(430, 0) == 0
    ensures LoadAvg(430, 0) == 429
  {
  }

  /** With 28 competing processes the signed product overflows and the
      average falls by 214 (modulo 2^32) instead of growing by 214. */
  lemma LoadAvgOverflows()
    ensures LoadAvgAsWritten(0, 28) == UINT_MOD - 214
    ensures LoadAvg(0, 28) == 214
  {
  }

  /** The intended average never exceeds the number of processes: when it
      is at most n (10000*n in its units) and at most n processes compete,
      it stays at most n. */
  lemma LoadAvgBounded(avg: nat, runnables: nat, n: nat)
    requires avg <= 10000 * n && runnables <= n
    ensures LoadAvg(avg, runnables) <= 10000 * n
  {
    var x, y := 9992328 * avg, 7672 * runnables * 10000;
    var qx, qy := x / 10000000, y / 10000000;
    assert x == 10000000 * qx + x % 10000000;
    assert y == 10000000 * qy + y % 10000000;
    assert 10000000 * (qx + qy) <= 10000000 * (10000 * n);
  }

  /** More competing processes never lower the intended average. */
  lemma LoadAvgMonotone(avg: nat, r1: nat, r2: nat)
    requires r1 <= r2
    ensures LoadAvg(avg, r1) <= LoadAvg(avg, r2)
  {
    var y1, y2 := 7672 * r1 * 10000, 7672 * r2 * 10000;
    var q1, q2 := y1 / 10000000, y2 / 10000000;
    assert y1 == 10000000 * q1 + y1 % 10000000;
    assert y2 == 10000000 * q2 + y2 % 10000000;
  }
}
