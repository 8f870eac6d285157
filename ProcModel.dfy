// kernel/proc.c and kernel/proc.h: the process table as a sequence of
// slots, and the meaning of the table operations as functions on it:
// allocproc, wait's reaping scan, exit's reparenting, wakeup1, kill, the
// signal-mask calls and the tick accounting adjustallpticks. The class in
// Proc.dfy runs the kernel's loops against these functions.
module ProcModel {
  import opened Param
  import opened Wrappers
  import opened Bits

  datatype State = UNUSED | EMBRYO | SLEEPING | RUNNABLE | RUNNING | ZOMBIE

  /** struct ptimes: real, cpu, wait and sleep ticks. */
  datatype Ticks = Ticks(ptReal: int, ptCpu: int, ptWait: int, ptSleep: int)

  /** What a sleeper waits on: nothing (a null channel), a process slot
      (wait() sleeps on its own proc, exit wakes its parent), or any other
      kernel address. */
  datatype Chan = NoChan | SlotChan(slot: nat) | AddrChan(addr: nat)

  const NSIG: nat := 32

  /** (void (*)(int))-1, the handler allocproc installs for every signal. */
  const SIG_DFL: int := -1

  /** func[32]: one handler address per signal, as a signed int. */
  type Handlers = h: seq<int> | |h| == NSIG witness seq(32, _ => -1)

  /** struct proc, without the fields that only the context switch, the
      file layer or the trap code use. `parent` is the parent's slot. */
  datatype Proc = Proc(
    sz: uint32, pgdir: nat, kstack: nat, state: State, pid: int,
    parent: Option<nat>, chan: Chan, killed: int,
    blocked: uint32, pending: uint32, handlers: Handlers,
    tick: Ticks, eticks: int, kernelmode: int)

  /** A proc pointer used as a sleep channel. */
  function ChanOf(p: Option<nat>): Chan {
    match p
    case None => NoChan
    case Some(i) => SlotChan(i)
  }

  /** The lowest slot whose process satisfies f: the shape of every
      `for(p = ptable.proc; ...) if(...) ... break/return` scan. */
  function First(ps: seq<Proc>, f: Proc -> bool): (r: Option<nat>)
    ensures r.Some? ==> r.value < |ps| && f(ps[r.value])
    ensures r.Some? ==> forall j :: 0 <= j < r.value ==> !f(ps[j])
    ensures r.None? <==> forall j :: 0 <= j < |ps| ==> !f(ps[j])
  {
    if ps == [] then None
    else if f(ps[0]) then Some(0)
    else
      match First(ps[1..], f)
      case None => None
      case Some(k) => Some(k + 1)
  }

  /** A scan that stops at slot i found the first such slot. */
  lemma FirstIs(ps: seq<Proc>, f: Proc -> bool, i: nat)
    requires i < |ps| && f(ps[i]) && forall j :: 0 <= j < i ==> !f(ps[j])
    ensures First(ps, f) == Some(i)
  {
  }

  function IsUnused(p: Proc): bool { p.state == UNUSED }
  function IsLive(p: Proc): bool { p.state != UNUSED }
  function HasPid(pid: int): Proc -> bool { (p: Proc) => p.pid == pid }
  function ChildOf(cur: nat): Proc -> bool { (p: Proc) => p.parent == Some(cur) }
  function ZombieChildOf(cur: nat): Proc -> bool { (p: Proc) => p.parent == Some(cur) && p.state == ZOMBIE }

  // ---------------------------------------------------------------- pids

  /** Every pid is below nextpid, a slot in use has a positive pid, and no
      positive pid is in two slots (pid 0 marks a slot wait() cleared). */
  predicate PidsOk(ps: seq<Proc>, nextpid: int) {
    (forall i :: 0 <= i < |ps| ==> 0 <= ps[i].pid < nextpid)
    && (forall i :: 0 <= i < |ps| && ps[i].state != UNUSED ==> ps[i].pid > 0)
    && (forall i, j {:trigger SamePid(ps, i, j)} :: 0 <= i < j < |ps| && SamePid(ps, i, j) ==> ps[i].pid == 0)
  }

  /** Slots i and j hold the same pid. Uniqueness is stated over this term
      so that it is only applied to the pairs a proof names. */
  predicate SamePid(ps: seq<Proc>, i: nat, j: nat)
    requires i < |ps| && j < |ps|
  {
    ps[i].pid == ps[j].pid
  }

  // ----------------------------------------------------------- allocproc

  function DefaultHandlers(): Handlers { seq(NSIG, _ => SIG_DFL) }

  /** What allocproc writes into the slot it claims: no pending or blocked
      signals, default handlers, tick counters zero but pt_real = ticks,
      eticks 0, the next pid, and the kernel stack kalloc returned. A zero
      kstack (kalloc failed) puts the slot back to UNUSED, pid and all. */
  function Claim(p: Proc, pid: int, ticks: int, kstack: nat): Proc {
    var q := p.(pending := 0, blocked := 0, handlers := DefaultHandlers(),
                tick := Ticks(ticks, 0, 0, 0), eticks := 0, pid := pid, kstack := kstack);
    if kstack == 0 then q.(state := UNUSED) else q.(state := EMBRYO)
  }

  /** allocproc(): the slot it returns (None for a null pointer), the new
      table and the new nextpid. */
  function Alloc(ps: seq<Proc>, nextpid: int, ticks: int, kstack: nat): (Option<nat>, seq<Proc>, int) {
    match First(ps, IsUnused)
    case None => (None, ps, nextpid)
    case Some(i) =>
      (if kstack == 0 then None else Some(i), ps[i := Claim(ps[i], nextpid, ticks, kstack)], nextpid + 1)
  }

  /** allocproc claims the lowest UNUSED slot: EMBRYO, pid = nextpid, fresh
      signal and tick fields; nextpid grows by one even when kalloc fails;
      every other slot is unchanged. */
  lemma AllocClaimsLowest(ps: seq<Proc>, nextpid: int, ticks: int, kstack: nat, i: nat)
    requires i < |ps| && ps[i].state == UNUSED
    requires forall j :: 0 <= j < i ==> ps[j].state != UNUSED
    ensures var (r, ps1, np) := Alloc(ps, nextpid, ticks, kstack);
      np == nextpid + 1 && |ps1| == |ps|
      && (r.Some? <==> kstack != 0) && (r.Some? ==> r.value == i)
      && ps1[i].pid == nextpid && ps1[i].state == (if kstack == 0 then UNUSED else EMBRYO)
      && ps1[i].pending == 0 && ps1[i].blocked == 0 && ps1[i].eticks == 0
      && (forall s :: 0 <= s < NSIG ==> ps1[i].handlers[s] == SIG_DFL)
      && ps1[i].tick == Ticks(ticks, 0, 0, 0)
      && (forall j :: 0 <= j < |ps| && j != i ==> ps1[j] == ps[j])
  {
    FirstIs(ps, IsUnused, i);
  }

  /** With no UNUSED slot allocproc returns null and changes nothing. */
  lemma AllocFull(ps: seq<Proc>, nextpid: int, ticks: int, kstack: nat)
    requires forall j :: 0 <= j < |ps| ==> ps[j].state != UNUSED
    ensures Alloc(ps, nextpid, ticks, kstack) == (None, ps, nextpid)
  {
    assert forall j :: 0 <= j < |ps| ==> !IsUnused(ps[j]);
  }

  /** allocproc hands out a pid no slot holds, so pids stay unique. */
  lemma AllocKeepsPids(ps: seq<Proc>, nextpid: int, ticks: int, kstack: nat)
    requires PidsOk(ps, nextpid) && nextpid > 0
    ensures var (_, ps1, np) := Alloc(ps, nextpid, ticks, kstack); PidsOk(ps1, np)
  {
    var (_, ps1, np) := Alloc(ps, nextpid, ticks, kstack);
    match First(ps, IsUnused)
    case None =>
    case Some(i) =>
      assert ps1 == ps[i := Claim(ps[i], nextpid, ticks, kstack)];
      forall a, b | 0 <= a < b < |ps1| && SamePid(ps1, a, b)
        ensures ps1[a].pid == 0
      {
        if a != i && b != i {
          assert ps1[a] == ps[a] && ps1[b] == ps[b];
          assert SamePid(ps, a, b);
        }
      }
  }

  // ---------------------------------------------------------------- wait

  /** One pass of wait()'s scan: it reaps a child, finds no child (or is
      killed) and returns -1, or would sleep and scan again. */
  datatype WaitResult = Reaped(pid: int) | NoChild | Sleeps

  /** What wait() writes into a reaped slot (the frame and page directory
      it frees are not part of this table). */
  function Cleared(p: Proc): Proc {
    p.(kstack := 0, pid := 0, parent := None, killed := 0, state := UNUSED)
  }

  /** One scan of wait() by the process in slot cur. The ptime argument
      only has a local pointer reassigned, so no times come back. */
  function Reap(ps: seq<Proc>, cur: nat): (WaitResult, seq<Proc>)
    requires cur < |ps|
  {
    match First(ps, ZombieChildOf(cur))
    case Some(i) => (Reaped(ps[i].pid), ps[i := Cleared(ps[i])])
    case None =>
      if First(ps, ChildOf(cur)).None? || ps[cur].killed != 0 then (NoChild, ps) else (Sleeps, ps)
  }

  /** wait() reaps the lowest-indexed zombie child: its pid comes back and
      its slot is UNUSED with pid 0, no parent and killed 0; nothing else
      changes. Without a zombie child the table is unchanged, and the call
      fails exactly when there is no child or the caller was killed. */
  lemma ReapMeaning(ps: seq<Proc>, cur: nat)
    requires cur < |ps|
    ensures var (r, ps1) := Reap(ps, cur);
      |ps1| == |ps|
      && (r.Reaped? <==> exists i :: 0 <= i < |ps| && ps[i].parent == Some(cur) && ps[i].state == ZOMBIE)
      && (r.Reaped? ==> exists i :: ReapedAt(ps, ps1, cur, r.pid, i))
      && (!r.Reaped? ==> ps1 == ps)
      && (r.NoChild? <==> !r.Reaped? && ((forall j :: 0 <= j < |ps| ==> ps[j].parent != Some(cur)) || ps[cur].killed != 0))
  {
    var z := First(ps, ZombieChildOf(cur));
    if z.Some? {
      var i := z.value;
      assert ZombieChildOf(cur)(ps[i]);
      assert ReapedAt(ps, Reap(ps, cur).1, cur, ps[i].pid, i);
    } else {
      assert forall j :: 0 <= j < |ps| ==> !ZombieChildOf(cur)(ps[j]);
      var c := First(ps, ChildOf(cur));
      if c.Some? {
        assert ChildOf(cur)(ps[c.value]);
      } else {
        assert forall j :: 0 <= j < |ps| ==> !ChildOf(cur)(ps[j]);
      }
    }
  }

  /** Slot i is the lowest zombie child of cur, its pid is the one returned,
      it was cleared, and no other slot changed. */
  predicate ReapedAt(ps: seq<Proc>, ps1: seq<Proc>, cur: nat, pid: int, i: nat)
    requires |ps1| == |ps|
  {
    i < |ps| && ps[i].parent == Some(cur) && ps[i].state == ZOMBIE
    && (forall j :: 0 <= j < i ==> !(ps[j].parent == Some(cur) && ps[j].state == ZOMBIE))
    && pid == ps[i].pid && ps1[i].state == UNUSED && ps1[i].pid == 0
    && ps1[i].parent == None && ps1[i].killed == 0
    && (forall j :: 0 <= j < |ps| && j != i ==> ps1[j] == ps[j])
  }

  /** Reaping keeps pids unique: the cleared slot's pid becomes 0. */
  lemma ReapKeepsPids(ps: seq<Proc>, cur: nat, nextpid: int)
    requires cur < |ps| && PidsOk(ps, nextpid)
    ensures PidsOk(Reap(ps, cur).1, nextpid)
  {
    var ps1 := Reap(ps, cur).1;
    match First(ps, ZombieChildOf(cur))
    case None =>
    case Some(i) =>
      assert ps1 == ps[i := Cleared(ps[i])];
      forall a, b | 0 <= a < b < |ps1| && SamePid(ps1, a, b)
        ensures ps1[a].pid == 0
      {
        if a != i && b != i {
          assert ps1[a] == ps[a] && ps1[b] == ps[b];
          assert SamePid(ps, a, b);
        }
      }
  }

  // ------------------------------------------------------------- wakeup1

  function WakeOne(p: Proc, c: Chan): Proc {
    if p.state == SLEEPING && p.chan == c then p.(state := RUNNABLE) else p
  }

  /** wakeup1(chan) */
  function Wakeup(ps: seq<Proc>, c: Chan): (r: seq<Proc>)
    ensures |r| == |ps|
  {
    seq(|ps|, i requires 0 <= i < |ps| => WakeOne(ps[i], c))
  }

  /** wakeup1 makes exactly the slots sleeping on chan RUNNABLE: afterwards
      none sleeps on it, and every other slot and every other field is
      unchanged. */
  lemma WakeupMeaning(ps: seq<Proc>, c: Chan)
    ensures var r := Wakeup(ps, c);
      (forall i :: 0 <= i < |ps| ==> !(r[i].state == SLEEPING && r[i].chan == c))
      && (forall i :: 0 <= i < |ps| ==>
            r[i] == (if ps[i].state == SLEEPING && ps[i].chan == c then ps[i].(state := RUNNABLE) else ps[i]))
      && (forall i :: 0 <= i < |ps| ==> (r[i].state == UNUSED <==> ps[i].state == UNUSED))
  {
  }

  /** Waking twice on one channel is waking once. */
  lemma WakeupIdempotent(ps: seq<Proc>, c: Chan)
    ensures Wakeup(Wakeup(ps, c), c) == Wakeup(ps, c)
  {
  }

  /** Waking commutes with a change of one slot's parent. */
  lemma WakeupReparent(ps: seq<Proc>, c: Chan, i: nat, par: Option<nat>)
    requires i < |ps|
    ensures Wakeup(ps, c)[i := Wakeup(ps, c)[i].(parent := par)] == Wakeup(ps[i := ps[i].(parent := par)], c)
  {
  }

  /** Waking keeps every pid and which slots are in use. */
  lemma WakeupKeepsPids(ps: seq<Proc>, c: Chan, nextpid: int)
    requires PidsOk(ps, nextpid)
    ensures PidsOk(Wakeup(ps, c), nextpid)
  {
    var r := Wakeup(ps, c);
    assert forall i :: 0 <= i < |ps| ==> r[i].pid == ps[i].pid && (r[i].state == UNUSED <==> ps[i].state == UNUSED);
    PidsKept(ps, r, nextpid);
  }

  // ---------------------------------------------------------------- exit

  /** The first i slots of exit's reparenting loop done: children of cur
      among them have parent `to`. */
  function ReparentUpTo(ps: seq<Proc>, cur: nat, to: Option<nat>, n: nat): (r: seq<Proc>)
    ensures |r| == |ps|
  {
    seq(|ps|, i requires 0 <= i < |ps| =>
      if i < n && ps[i].parent == Some(cur) then ps[i].(parent := to) else ps[i])
  }

  predicate HasZombieChild(ps: seq<Proc>, cur: nat, n: nat) {
    exists j :: 0 <= j < n && j < |ps| && ps[j].parent == Some(cur) && ps[j].state == ZOMBIE
  }

  /** exit() by the process in slot cur, with `init` the slot of initproc:
      it panics for init; otherwise it wakes its parent, hands every child
      to init (waking init when one of them is a zombie) and becomes a
      ZOMBIE. Closing files, releasing cwd and the final switch are not
      part of the table. */
  function Exit(ps: seq<Proc>, cur: nat, init: Option<nat>): (Outcome, seq<Proc>)
    requires cur < |ps|
  {
    if init == Some(cur) then (Panic("init exiting"), ps)
    else
      var ps1 := Wakeup(ps, ChanOf(ps[cur].parent));
      var ps2 := ReparentUpTo(ps1, cur, init, |ps|);
      var ps3 := if HasZombieChild(ps1, cur, |ps|) then Wakeup(ps2, ChanOf(init)) else ps2;
      (Done, ps3[cur := ps3[cur].(state := ZOMBIE)])
  }

  /** After exit no slot has the exiting process as parent: each former
      child has init as parent, the caller is a ZOMBIE, and no slot changes
      its pid or whether it is in use, apart from the caller. */
  lemma ExitOrphansGoToInit(ps: seq<Proc>, cur: nat, init: Option<nat>)
    requires cur < |ps| && init != Some(cur)
    ensures Exit(ps, cur, init).0 == Done && Exit(ps, cur, init).1[cur].state == ZOMBIE
    ensures forall i :: 0 <= i < |ps| ==> ExitSlot(ps, cur, init, i)
  {
    forall i | 0 <= i < |ps|
      ensures ExitSlot(ps, cur, init, i)
    {
      ExitSlotHolds(ps, cur, init, i);
    }
  }

  /** What exit does to slot i: the pid stays, a child of the caller gets
      init as parent, any other parent stays, so no slot but the caller's
      own can still name the caller as parent; and only the caller's slot
      can change between UNUSED and in use. Any other slot is woken when it
      sleeps on the caller's parent, and again on init's channel when some
      child of the caller is a zombie; no other field changes. */
  predicate ExitSlot(ps: seq<Proc>, cur: nat, init: Option<nat>, i: nat)
    requires i < |ps| && cur < |ps|
  {
    var r := Exit(ps, cur, init).1;
    var woken := WakeOne(ps[i], ChanOf(ps[cur].parent));
    |r| == |ps|
    && r[i].pid == ps[i].pid
    && r[i].parent == (if ps[i].parent == Some(cur) then init else ps[i].parent)
    && (init != Some(cur) ==> r[i].parent != Some(cur))
    && (i != cur ==> (r[i].state == UNUSED <==> ps[i].state == UNUSED))
    && (init != Some(cur) && i != cur ==>
          r[i] == (if HasZombieChild(ps, cur, |ps|) then WakeOne(woken, ChanOf(init)) else woken).(parent := r[i].parent))
  }

  lemma ExitSlotHolds(ps: seq<Proc>, cur: nat, init: Option<nat>, i: nat)
    requires i < |ps| && cur < |ps| && init != Some(cur)
    ensures ExitSlot(ps, cur, init, i)
  {
    var ps1 := Wakeup(ps, ChanOf(ps[cur].parent));
    var ps2 := ReparentUpTo(ps1, cur, init, |ps|);
    var ps3 := if HasZombieChild(ps1, cur, |ps|) then Wakeup(ps2, ChanOf(init)) else ps2;
    assert ps1[i] == WakeOne(ps[i], ChanOf(ps[cur].parent));
    assert ps2[i] == if ps1[i].parent == Some(cur) then ps1[i].(parent := init) else ps1[i];
    assert ps3[i] == ps2[i] || ps3[i] == WakeOne(ps2[i], ChanOf(init));
    assert HasZombieChild(ps1, cur, |ps|) == HasZombieChild(ps, cur, |ps|) by {
      assert forall j :: 0 <= j < |ps| ==> ps1[j].parent == ps[j].parent && (ps1[j].state == ZOMBIE <==> ps[j].state == ZOMBIE);
    }
  }

  /** exit by init panics and changes nothing. */
  lemma ExitInitPanics(ps: seq<Proc>, cur: nat)
    requires cur < |ps|
    ensures Exit(ps, cur, Some(cur)).0.Panic? && Exit(ps, cur, Some(cur)).1 == ps
  {
  }

  // ---------------------------------------------------------------- kill

  function KillOne(p: Proc): Proc {
    p.(killed := 1, state := if p.state == SLEEPING then RUNNABLE else p.state)
  }

  /** kill(pid): 0 and the first slot with that pid killed (and woken when
      sleeping), or -1 with nothing changed. */
  function Kill(ps: seq<Proc>, pid: int): (int, seq<Proc>) {
    match First(ps, HasPid(pid))
    case None => (-1, ps)
    case Some(i) => (0, ps[i := KillOne(ps[i])])
  }

  /** kill(pid) marks the first slot holding the pid, whatever its state
      (so kill(0) marks the first UNUSED slot, whose pid is 0): it returns 0
      iff some slot holds the pid, that slot gets killed = 1 and leaves
      SLEEPING for RUNNABLE, and no other slot changes. */
  lemma KillMeaning(ps: seq<Proc>, pid: int)
    ensures var (r, ps1) := Kill(ps, pid);
      |ps1| == |ps|
      && (r == 0 <==> exists i :: 0 <= i < |ps| && ps[i].pid == pid)
      && (r != 0 ==> r == -1 && ps1 == ps)
      && (r == 0 ==> exists i :: (0 <= i < |ps| && ps[i].pid == pid
                                   && (forall j :: 0 <= j < i ==> ps[j].pid != pid)
                                   && ps1[i].killed == 1
                                   && ps1[i].state == (if ps[i].state == SLEEPING then RUNNABLE else ps[i].state)
                                   && (forall j :: 0 <= j < |ps| && j != i ==> ps1[j] == ps[j])))
  {
    var f := First(ps, HasPid(pid));
    if f.Some? {
      assert HasPid(pid)(ps[f.value]);
      assert forall j :: 0 <= j < f.value ==> !HasPid(pid)(ps[j]);
    } else {
      assert forall j :: 0 <= j < |ps| ==> !HasPid(pid)(ps[j]);
    }
  }

  /** With unique pids, kill(pid) for a positive pid marks exactly the
      process with that pid: whichever slot holds it is the one killed. */
  lemma KillUniquePid(ps: seq<Proc>, pid: int, nextpid: int)
    requires PidsOk(ps, nextpid) && pid > 0
    ensures var (r, ps1) := Kill(ps, pid);
      forall i :: 0 <= i < |ps| && ps[i].pid == pid ==>
        r == 0 && ps1[i].killed == 1 && ps1[i].state == (if ps[i].state == SLEEPING then RUNNABLE else ps[i].state)
        && (forall j :: 0 <= j < |ps| && j != i ==> ps1[j] == ps[j])
  {
    var f := First(ps, HasPid(pid));
    if f.Some? {
      var i := f.value;
      assert HasPid(pid)(ps[i]);
      forall k | 0 <= k < |ps| && ps[k].pid == pid
        ensures k == i
      {
        assert HasPid(pid)(ps[k]);
        if k > i {
          assert SamePid(ps, i, k);
        }
      }
    } else {
      assert forall j :: 0 <= j < |ps| ==> !HasPid(pid)(ps[j]);
    }
  }

  // ------------------------------------------------------------- signals

  /** (int) on a uint: two's complement. */
  function ToInt(u: uint32): (r: int)
    ensures -0x8000_0000 <= r < 0x8000_0000
  {
    if u < 0x8000_0000 then u else u - UINT_MOD
  }

  /** (uint) on an int. */
  function ToUint(x: int): (r: uint32)
    requires -0x8000_0000 <= x < 0x8000_0000
  {
    if x < 0 then x + UINT_MOD else x
  }

  /** The mask sigsetmask stores is the one siggetmask reads back, and the
      old mask it hands back is the one siggetmask read before. */
  lemma MaskRoundTrip(x: int, u: uint32)
    requires -0x8000_0000 <= x < 0x8000_0000
    ensures ToInt(ToUint(x)) == x
    ensures ToUint(ToInt(u)) == u
  {
  }

  /** `mask |= 1 << k` on the `uint` blocked mask: bit k is added unless it
      is already set (the sum stays below 2^32). */
  function SetMaskBit(mask: uint32, k: nat): uint32 {
    if k < 32 && (mask / Pow2(k)) % 2 == 0 then (mask + Pow2(k)) % UINT_MOD else mask
  }

  /** sigsethandler's three-way choice, as written: the handler it stores
      for `hand` and the blocked mask afterwards. */
  function SetHandler(hand: int, mask: uint32, sig: nat): (int, uint32) {
    if hand <= 0 then (SIG_DFL, mask)
    else if hand == -2 then (-2, SetMaskBit(mask, sig))
    else (hand, mask)
  }

  /** The -2 branch sits after `hand <= 0` and is never taken: every
      non-positive handler stores the default -1, a positive one is stored
      as it is, and the blocked mask never changes. */
  lemma SetHandlerMeaning(hand: int, mask: uint32, sig: nat)
    ensures SetHandler(hand, mask, sig) == (if hand <= 0 then SIG_DFL else hand, mask)
    ensures SetHandler(-2, mask, sig) == (SIG_DFL, mask)
  {
  }

  // ----------------------------------------------------- adjustallpticks

  /** adjustallpticks for one slot; `chosen` is i == ind. */
  function TickOne(p: Proc, chosen: bool): Proc {
    var t := p.tick;
    var t1 :=
      if p.state == SLEEPING then t.(ptSleep := t.ptSleep + 1)
      else if chosen then t.(ptCpu := t.ptCpu + 1)
      else if p.state == RUNNABLE then t.(ptWait := t.ptWait + 1)
      else t;
    p.(tick := if p.state != UNUSED then t1.(ptReal := t1.ptReal + 1) else t1)
  }

  /** adjustallpticks(ind) */
  function AdjustTicks(ps: seq<Proc>, ind: int): (r: seq<Proc>)
    ensures |r| == |ps|
  {
    seq(|ps|, i requires 0 <= i < |ps| => TickOne(ps[i], i == ind))
  }

  /** adjustallpticks: every slot in use gains one real tick; a sleeping
      slot gains a sleep tick, else slot ind a cpu tick whatever its state,
      else a RUNNABLE slot a wait tick; no slot gains more than one of the
      three, and nothing but the counters changes. */
  lemma AdjustTicksMeaning(ps: seq<Proc>, ind: int, i: nat)
    requires i < |ps|
    ensures var p, q := ps[i], AdjustTicks(ps, ind)[i];
      q == p.(tick := q.tick)
      && q.tick.ptReal == p.tick.ptReal + (if p.state != UNUSED then 1 else 0)
      && q.tick.ptSleep == p.tick.ptSleep + (if p.state == SLEEPING then 1 else 0)
      && q.tick.ptCpu == p.tick.ptCpu + (if p.state != SLEEPING && i == ind then 1 else 0)
      && q.tick.ptWait == p.tick.ptWait + (if p.state == RUNNABLE && i != ind then 1 else 0)
      && (q.tick.ptSleep - p.tick.ptSleep) + (q.tick.ptCpu - p.tick.ptCpu) + (q.tick.ptWait - p.tick.ptWait) <= 1
  {
  }

  /** Tick accounting keeps pids and states. */
  lemma AdjustKeepsPids(ps: seq<Proc>, ind: int, nextpid: int)
    requires PidsOk(ps, nextpid)
    ensures PidsOk(AdjustTicks(ps, ind), nextpid)
  {
    var r := AdjustTicks(ps, ind);
    assert forall i :: 0 <= i < |ps| ==> r[i].pid == ps[i].pid && r[i].state == ps[i].state;
    PidsKept(ps, r, nextpid);
  }

  // ---------------------------------------------------- table bookkeeping

  /** Rewriting one slot keeps pids unique when its pid stays and a slot
      put in use has a positive pid. */
  lemma SetKeepsPids(ps: seq<Proc>, i: nat, p: Proc, nextpid: int)
    requires PidsOk(ps, nextpid) && i < |ps| && p.pid == ps[i].pid
    requires p.state != UNUSED ==> p.pid > 0
    ensures PidsOk(ps[i := p], nextpid)
  {
    var r := ps[i := p];
    forall a, b | 0 <= a < b < |r| && SamePid(r, a, b)
      ensures r[a].pid == 0
    {
      assert r[a].pid == ps[a].pid && r[b].pid == ps[b].pid;
      assert SamePid(ps, a, b);
    }
  }

  /** One more step of exit's reparenting loop. */
  lemma ReparentStep(ps: seq<Proc>, cur: nat, to: Option<nat>, i: nat)
    requires i < |ps|
    ensures ReparentUpTo(ps, cur, to, i + 1) ==
      if ps[i].parent == Some(cur) then ReparentUpTo(ps, cur, to, i)[i := ps[i].(parent := to)]
      else ReparentUpTo(ps, cur, to, i)
  {
  }

  /** A table change that keeps every pid and puts no slot out of use
      keeps pids unique, provided a slot put in use has a positive pid. */
  lemma PidsKept(ps: seq<Proc>, r: seq<Proc>, nextpid: int)
    requires PidsOk(ps, nextpid) && |r| == |ps|
    requires forall i :: 0 <= i < |ps| ==> r[i].pid == ps[i].pid
    requires forall i :: 0 <= i < |ps| && r[i].state != UNUSED ==> ps[i].state != UNUSED
    ensures PidsOk(r, nextpid)
  {
    forall a, b | 0 <= a < b < |r| && SamePid(r, a, b)
      ensures r[a].pid == 0
    {
      assert SamePid(ps, a, b);
    }
  }

  /** exit keeps pids unique: no pid changes and only the caller's slot,
      already in use, changes state between in use and not. */
  lemma ExitKeepsPids(ps: seq<Proc>, cur: nat, init: Option<nat>, nextpid: int)
    requires PidsOk(ps, nextpid) && cur < |ps| && ps[cur].state != UNUSED && init != Some(cur)
    ensures PidsOk(Exit(ps, cur, init).1, nextpid)
  {
    ExitOrphansGoToInit(ps, cur, init);
    var r := Exit(ps, cur, init).1;
    forall i | 0 <= i < |ps|
      ensures r[i].pid == ps[i].pid && (r[i].state != UNUSED ==> ps[i].state != UNUSED)
    {
      assert ExitSlot(ps, cur, init, i);
    }
    PidsKept(ps, r, nextpid);
  }

  // ---------------------------------------------------------------- fork

  /** What fork writes into the child's slot: it shares the parent's page
      directory and size, names the parent, and is a RUNNABLE user process
      (kernelmode 0). */
  function ForkChild(child: Proc, par: Proc, cur: nat): Proc {
    child.(pgdir := par.pgdir, sz := par.sz, parent := Some(cur), state := RUNNABLE, kernelmode := 0)
  }

  /** fork() by the process in slot cur: the pid it returns (-1 when
      allocproc fails), the new table and the new nextpid. */
  function Fork(ps: seq<Proc>, nextpid: int, cur: nat, ticks: int, kstack: nat): (int, seq<Proc>, int)
    requires cur < |ps|
  {
    var (s, ps1, np) := Alloc(ps, nextpid, ticks, kstack);
    match s
    case None => (-1, ps1, np)
    case Some(i) => (ps1[i].pid, ps1[i := ForkChild(ps1[i], ps[cur], cur)], np)
  }

  /** fork fails exactly when no slot is free or kalloc fails; otherwise
      the child's pid is the old nextpid, which no slot held before. The
      table keeps its length and pids stay unique. */
  lemma ForkMeaning(ps: seq<Proc>, nextpid: int, cur: nat, ticks: int, kstack: nat)
    requires PidsOk(ps, nextpid) && nextpid > 0 && cur < |ps| && ps[cur].state != UNUSED
    ensures var (pid, ps1, np) := Fork(ps, nextpid, cur, ticks, kstack);
      |ps1| == |ps| && PidsOk(ps1, np)
      && (pid != -1 <==> First(ps, IsUnused).Some? && kstack != 0)
      && (pid != -1 ==> pid == nextpid && forall j :: 0 <= j < |ps| ==> ps[j].pid != pid)
  {
    AllocKeepsPids(ps, nextpid, ticks, kstack);
    var (s, ps1, np) := Alloc(ps, nextpid, ticks, kstack);
    if s.Some? {
      var i := s.value;
      SetKeepsPids(ps1, i, ForkChild(ps1[i], ps[cur], cur), np);
    }
  }

  /** The child fork fills in. */
  lemma ForkChildSlot(ps: seq<Proc>, nextpid: int, cur: nat, ticks: int, kstack: nat, i: nat)
    requires cur < |ps| && i < |ps| && ps[i].state == UNUSED && kstack != 0
    requires forall j :: 0 <= j < i ==> ps[j].state != UNUSED
    ensures var (pid, ps1, _) := Fork(ps, nextpid, cur, ticks, kstack);
      pid == ps1[i].pid == nextpid && ps1[i].parent == Some(cur) && ps1[i].state == RUNNABLE
      && ps1[i].pgdir == ps[cur].pgdir && ps1[i].sz == ps[cur].sz && ps1[i].kernelmode == 0
      && (forall j :: 0 <= j < |ps| && j != i ==> ps1[j] == ps[j])
  {
    FirstIs(ps, IsUnused, i);
  }
}
