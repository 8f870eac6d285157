// kernel/proc.c: the process table ptable.proc[NPROC] and the globals
// beside it (nextpid, initproc, newproc, rrindex, runnables, loadavg and
// shortestprocessnext's static running[] and openind), with the loops that
// scan and update them. Each method is proved against the table function
// of ProcModel or SchedRules that says what it computes.
module Proc {
  import opened Param
  import opened Wrappers
  import opened ProcModel
  import opened SchedRules

  /** A zeroed struct proc, as the table starts out. */
  function Empty(): Proc {
    Proc(0, 0, 0, UNUSED, 0, None, NoChan, 0, 0, 0, DefaultHandlers(), Ticks(0, 0, 0, 0), 0, 0)
  }

  /** sched's kernel-mode pre-check looks for a RUNNABLE slot with
      kernelmode != 0. */
  function KernelReady(p: Proc): bool {
    p.state == RUNNABLE && p.kernelmode != 0
  }

  /** The table exit's reparenting loop has built after i slots, `woke`
      telling whether it has woken init yet. */
  function ExitLoopTable(ps1: seq<Proc>, cur: nat, init: Option<nat>, i: nat, woke: bool): seq<Proc> {
    if woke then Wakeup(ReparentUpTo(ps1, cur, init, i), ChanOf(init)) else ReparentUpTo(ps1, cur, init, i)
  }

  lemma ExitLoopStep(ps1: seq<Proc>, cur: nat, init: Option<nat>, i: nat, woke: bool)
    requires i < |ps1|
    ensures var t := ExitLoopTable(ps1, cur, init, i, woke);
      |t| == |ps1| && t[i].parent == ps1[i].parent && (t[i].state == ZOMBIE <==> ps1[i].state == ZOMBIE)
      && (ps1[i].parent == Some(cur) ==> t[i := t[i].(parent := init)] == ExitLoopTable(ps1, cur, init, i + 1, woke))
      && (ps1[i].parent != Some(cur) ==> t == ExitLoopTable(ps1, cur, init, i + 1, woke))
  {
    ReparentStep(ps1, cur, init, i);
    var r := ReparentUpTo(ps1, cur, init, i);
    assert r[i] == ps1[i];
    if woke {
      WakeupReparent(r, ChanOf(init), i, init);
      assert Wakeup(r, ChanOf(init))[i] == WakeOne(r[i], ChanOf(init));
    }
  }

  lemma ExitLoopWake(ps1: seq<Proc>, cur: nat, init: Option<nat>, i: nat, woke: bool)
    ensures Wakeup(ExitLoopTable(ps1, cur, init, i, woke), ChanOf(init)) == ExitLoopTable(ps1, cur, init, i, true)
  {
    if woke {
      WakeupIdempotent(ReparentUpTo(ps1, cur, init, i), ChanOf(init));
    }
  }

  /** The reparenting loop starts from the woken table with nothing found,
      and after all slots it leaves the table exit's specification builds. */
  lemma ExitLoopEnds(ps1: seq<Proc>, cur: nat, init: Option<nat>)
    ensures !HasZombieChild(ps1, cur, 0) && ExitLoopTable(ps1, cur, init, 0, false) == ps1
    ensures var woke := HasZombieChild(ps1, cur, |ps1|);
      var ps2 := ReparentUpTo(ps1, cur, init, |ps1|);
      ExitLoopTable(ps1, cur, init, |ps1|, woke) == if woke then Wakeup(ps2, ChanOf(init)) else ps2
  {
    assert ReparentUpTo(ps1, cur, init, 0) == ps1;
  }

  lemma HasZombieStep(ps: seq<Proc>, cur: nat, i: nat)
    requires i < |ps|
    ensures HasZombieChild(ps, cur, i + 1) <==>
      HasZombieChild(ps, cur, i) || (ps[i].parent == Some(cur) && ps[i].state == ZOMBIE)
  {
    if HasZombieChild(ps, cur, i + 1) && !(ps[i].parent == Some(cur) && ps[i].state == ZOMBIE) {
      var j :| 0 <= j < i + 1 && j < |ps| && ps[j].parent == Some(cur) && ps[j].state == ZOMBIE;
      assert j < i;
    }
  }

  class ProcTable {
    /** ptable.proc */
    const procs: array<Proc>
    var nextpid: int
    var initproc: Option<nat>
    /** Set by allocproc, read and cleared by the idle loop. */
    var newproc: bool
    var rrindex: int
    var runnables: nat
    /** The load average in units of 1/10000, on a C `uint`. */
    var loadavg: uint32
    /** shortestprocessnext's static running[NCPU] (slots, not pointers). */
    const running: array<Option<nat>>
    var openind: int

    /** Unique pids below nextpid; rrindex names a slot; and only the last entry of running[] is ever
        set, because the pinned-slot loop leaves openind at NCPU-1 whenever
        it falls through. */
    predicate Valid()
      reads this, procs, running
    {
      procs.Length == NPROC && running.Length == NCPU
      && nextpid > 0 && PidsOk(procs[..], nextpid)
      && 0 <= rrindex < NPROC
      && (forall c :: 0 <= c < NCPU - 1 ==> running[c] == None)
      && (running[NCPU - 1].Some? ==> running[NCPU - 1].value < NPROC)
      && (openind == -1 || openind == NCPU - 2 || openind == NCPU - 1)
    }

    /** The globals a scheduling policy leaves alone. */
    twostate predicate CountsKept()
      reads this
    {
      nextpid == old(nextpid) && initproc == old(initproc) && newproc == old(newproc)
      && runnables == old(runnables) && loadavg == old(loadavg)
    }

    constructor ()
      ensures Valid() && fresh(procs) && fresh(running)
      ensures forall i :: 0 <= i < NPROC ==> procs[i].state == UNUSED
      ensures nextpid == 1 && initproc == None && rrindex == 0 && loadavg == 0 && openind == -1
    {
      procs := new Proc[NPROC](_ => Empty());
      running := new Option<nat>[NCPU](_ => None);
      nextpid := 1;
      initproc := None;
      newproc := false;
      rrindex := 0;
      runnables := 0;
      loadavg := 0;
      openind := -1;
    }

    /** The scan every table loop that stops at the first match performs:
        the lowest slot whose process satisfies f, or NPROC. */
    method FindFirst(f: Proc -> bool) returns (i: nat)
      requires procs.Length == NPROC
      ensures i <= NPROC
      ensures i < NPROC ==> First(procs[..], f) == Some(i)
      ensures i == NPROC ==> First(procs[..], f).None?
    {
      i := 0;
      while i < NPROC && !f(procs[i])
        invariant 0 <= i <= NPROC
        invariant forall j :: 0 <= j < i ==> !f(procs[j])
      {
        i := i + 1;
      }
      if i < NPROC {
        FirstIs(procs[..], f, i);
      } else {
        assert forall j :: 0 <= j < |procs[..]| ==> !f(procs[..][j]);
      }
    }

    /** allocproc(); `kstack` is what kalloc returns for the kernel stack
        (0 when out of memory). */
    method AllocProc(ticks: int, kstack: nat) returns (r: Option<nat>)
      requires Valid()
      modifies this, procs
      ensures Valid()
      ensures (r, procs[..], nextpid) == Alloc(old(procs[..]), old(nextpid), ticks, kstack)
      ensures newproc == (old(newproc) || First(old(procs[..]), IsUnused).Some?)
      ensures initproc == old(initproc) && rrindex == old(rrindex) && openind == old(openind)
      ensures runnables == old(runnables) && loadavg == old(loadavg)
    {
      var i := FindFirst(IsUnused);
      if i == NPROC {
        return None;
      }
      AllocKeepsPids(procs[..], nextpid, ticks, kstack);
      var p := procs[i];
      p := p.(pending := 0, blocked := 0, handlers := DefaultHandlers(),
              tick := Ticks(ticks, 0, 0, 0), eticks := 0);
      newproc := true;
      p := p.(state := EMBRYO, pid := nextpid);
      nextpid := nextpid + 1;
      p := p.(kstack := kstack);
      if kstack == 0 {
        p := p.(state := UNUSED);
        r := None;
      } else {
        r := Some(i);
      }
      procs[i] := p;
    }

    /** userinit(): the first process, with `kstack` from kalloc and
        `pgdir` from setupkvm (0 when out of memory). At boot the table is
        empty and the kernel stack is allocated; otherwise allocproc's null
        result would be dereferenced. */
    method UserInit(ticks: int, kstack: nat, pgdir: nat) returns (o: Outcome)
      requires Valid() && kstack != 0 && First(procs[..], IsUnused).Some?
      modifies this, procs
      ensures Valid()
      ensures var i := First(old(procs[..]), IsUnused).value;
        initproc == Some(i) && nextpid == old(nextpid) + 1
        && (o.Done? <==> pgdir != 0)
        && (o.Done? ==>
              procs[..] == Alloc(old(procs[..]), old(nextpid), ticks, kstack).1[i := procs[i]]
              && procs[i].state == RUNNABLE && procs[i].sz == PGSIZE && procs[i].pgdir == pgdir
              && procs[i].pid == old(nextpid))
    {
      var p := AllocProc(ticks, kstack);
      var i := p.value;
      initproc := p;
      if pgdir == 0 {
        return Panic("userinit: out of memory?");
      }
      var q := procs[i];
      q := q.(pgdir := pgdir);
      q := q.(sz := PGSIZE);
      q := q.(state := RUNNABLE);
      SetKeepsPids(procs[..], i, q, nextpid);
      procs[i] := q;
      o := Done;
    }

    /** fork() by the process in slot cur, which is running it; `kstack`
        is what kalloc returns for the child's kernel stack. Sharing the
        user pages copy-on-write is ForkShare in CopyUvm. */
    method Fork(cur: nat, ticks: int, kstack: nat) returns (pid: int)
      requires Valid() && cur < NPROC && procs[cur].state == RUNNING
      modifies this, procs
      ensures Valid()
      ensures (pid, procs[..], nextpid) == ProcModel.Fork(old(procs[..]), old(nextpid), cur, ticks, kstack)
      ensures initproc == old(initproc) && rrindex == old(rrindex) && openind == old(openind)
    {
      var np := AllocProc(ticks, kstack);
      if np.None? {
        return -1;
      }
      var i := np.value;
      assert i != cur;
      var child := procs[i];
      child := child.(pgdir := procs[cur].pgdir);
      child := child.(sz := procs[cur].sz, parent := Some(cur));
      pid := child.pid;
      child := child.(state := RUNNABLE);
      child := child.(kernelmode := 0);
      SetKeepsPids(procs[..], i, child, nextpid);
      procs[i] := child;
    }

    /** exit() by the process in slot cur, which is running it. */
    method Exit(cur: nat) returns (o: Outcome)
      requires Valid() && cur < NPROC && procs[cur].state == RUNNING
      modifies procs
      ensures Valid()
      ensures (o, procs[..]) == ProcModel.Exit(old(procs[..]), cur, initproc)
    {
      hide ExitLoopTable, Wakeup, ReparentUpTo, HasZombieChild;
      if initproc == Some(cur) {
        return Panic("init exiting");
      }
      Wakeup1(ChanOf(procs[cur].parent));
      ghost var ps1 := procs[..];
      ExitLoopEnds(ps1, cur, initproc);
      var woke := false;
      var i := 0;
      while i < NPROC
        invariant 0 <= i <= NPROC
        invariant woke == HasZombieChild(ps1, cur, i)
        invariant procs[..] == ExitLoopTable(ps1, cur, initproc, i, woke)
      {
        ExitLoopStep(ps1, cur, initproc, i, woke);
        HasZombieStep(ps1, cur, i);
        if procs[i].parent == Some(cur) {
          procs[i] := procs[i].(parent := initproc);
          if procs[i].state == ZOMBIE {
            ExitLoopWake(ps1, cur, initproc, i + 1, woke);
            Wakeup1(ChanOf(initproc));
            woke := true;
          }
        }
        i := i + 1;
      }
      procs[cur] := procs[cur].(state := ZOMBIE);
      o := Done;
      ExitKeepsPids(old(procs[..]), cur, initproc, nextpid);
    }

    /** wait()'s scan for the first zombie child of cur, noting whether it
        passed any child. */
    method ScanChildren(cur: nat) returns (i: nat, havekids: bool)
      requires procs.Length == NPROC
      ensures i <= NPROC
      ensures i < NPROC ==> First(procs[..], ZombieChildOf(cur)) == Some(i)
      ensures i == NPROC ==> First(procs[..], ZombieChildOf(cur)).None?
      ensures i == NPROC ==> (havekids <==> First(procs[..], ChildOf(cur)).Some?)
    {
      havekids := false;
      i := 0;
      while i < NPROC
        invariant 0 <= i <= NPROC
        invariant forall j :: 0 <= j < i ==> !ZombieChildOf(cur)(procs[j])
        invariant havekids <==> exists j :: 0 <= j < i && ChildOf(cur)(procs[j])
      {
        if procs[i].parent != Some(cur) {
          i := i + 1;
          continue;
        }
        havekids := true;
        assert ChildOf(cur)(procs[i]);
        if procs[i].state == ZOMBIE {
          break;
        }
        i := i + 1;
      }
      if i < NPROC {
        FirstIs(procs[..], ZombieChildOf(cur), i);
      } else {
        assert forall j :: 0 <= j < |procs[..]| ==> !ZombieChildOf(cur)(procs[..][j]);
        if havekids {
          var j :| 0 <= j < i && ChildOf(cur)(procs[j]);
          assert ChildOf(cur)(procs[..][j]);
        } else {
          assert forall j :: 0 <= j < |procs[..]| ==> !ChildOf(cur)(procs[..][j]);
        }
      }
    }

    /** One scan of wait() by the process in slot cur. Freeing the reaped
        child's kernel stack and page directory is not part of the table. */
    method Wait(cur: nat) returns (r: WaitResult)
      requires Valid() && cur < NPROC
      modifies procs
      ensures Valid()
      ensures (r, procs[..]) == Reap(old(procs[..]), cur)
    {
      var i, havekids := ScanChildren(cur);
      if i == NPROC {
        if !havekids || procs[cur].killed != 0 {
          return NoChild;
        }
        return Sleeps;
      }
      ReapKeepsPids(procs[..], cur, nextpid);
      var p := procs[i];
      var pid := p.pid;
      p := p.(kstack := 0);
      p := p.(pid := 0, parent := None);
      p := p.(killed := 0, state := UNUSED);
      procs[i] := p;
      return Reaped(pid);
    }

    /** wakeup1(chan) */
    method Wakeup1(c: Chan)
      requires procs.Length == NPROC
      modifies procs
      ensures procs[..] == Wakeup(old(procs[..]), c)
    {
      var i := 0;
      while i < NPROC
        invariant 0 <= i <= NPROC
        invariant forall j :: 0 <= j < i ==> procs[j] == WakeOne(old(procs[j]), c)
        invariant forall j :: i <= j < NPROC ==> procs[j] == old(procs[j])
      {
        if procs[i].state == SLEEPING && procs[i].chan == c {
          procs[i] := procs[i].(state := RUNNABLE);
        }
        i := i + 1;
      }
    }

    /** wakeup(chan): wakeup1 under the table lock. */
    method WakeupAll(c: Chan)
      requires Valid()
      modifies procs
      ensures Valid()
      ensures procs[..] == Wakeup(old(procs[..]), c)
    {
      Wakeup1(c);
      WakeupKeepsPids(old(procs[..]), c, nextpid);
    }

    /** kill(pid) */
    method Kill(pid: int) returns (r: int)
      requires Valid()
      modifies procs
      ensures Valid()
      ensures (r, procs[..]) == ProcModel.Kill(old(procs[..]), pid)
    {
      var i := FindFirst(HasPid(pid));
      if i == NPROC {
        return -1;
      }
      var p := procs[i];
      p := p.(killed := 1);
      if p.state == SLEEPING {
        p := p.(state := RUNNABLE);
      }
      SetKeepsPids(procs[..], i, p, nextpid);
      procs[i] := p;
      return 0;
    }

    /** sigsethandler(sig, hand) by the process in slot cur. The source
        does not check sig; the model requires it to index func[]. */
    method SigSetHandler(cur: nat, sig: int, hand: int) returns (r: int)
      requires Valid() && cur < NPROC && 0 <= sig < NSIG
      modifies procs
      ensures Valid()
      ensures old(procs[cur].killed) != 0 ==> r == -1 && procs[..] == old(procs[..])
      ensures var (h, m) := SetHandler(hand, old(procs[cur].blocked), sig);
        old(procs[cur].killed) == 0 ==>
          r == 0 && procs[..] == old(procs[..])[cur := old(procs[cur]).(handlers := old(procs[cur].handlers)[sig := h], blocked := m)]
      ensures old(procs[cur].killed) == 0 ==>
        procs[cur].handlers[sig] == (if hand <= 0 then SIG_DFL else hand) && procs[cur].blocked == old(procs[cur].blocked)
    {
      if procs[cur].killed != 0 {
        return -1;
      }
      var (h, m) := SetHandler(hand, procs[cur].blocked, sig);
      SetHandlerMeaning(hand, procs[cur].blocked, sig);
      procs[cur] := procs[cur].(handlers := procs[cur].handlers[sig := h], blocked := m);
      SetKeepsPids(old(procs[..]), cur, procs[cur], nextpid);
      r := 0;
    }

    /** siggetmask() by the process in slot cur: the blocked mask as an
        int, or -1 for a killed caller, which a caller cannot tell from a
        mask with every bit set. */
    method SigGetMask(cur: nat) returns (r: int)
      requires Valid() && cur < NPROC
      ensures -0x8000_0000 <= r < 0x8000_0000
      ensures procs[cur].killed != 0 ==> r == -1
      ensures procs[cur].killed == 0 ==> ToUint(r) == procs[cur].blocked
      ensures r == -1 <==> procs[cur].killed != 0 || procs[cur].blocked == UINT_MOD - 1
    {
      if procs[cur].killed != 0 {
        return -1;
      }
      r := ToInt(procs[cur].blocked);
      MaskRoundTrip(r, procs[cur].blocked);
    }

    /** sigsetmask(maskp) by the process in slot cur: `mask` is *maskp and
        `out` what *maskp holds afterwards (the old mask). */
    method SigSetMask(cur: nat, mask: int) returns (r: int, out: int)
      requires Valid() && cur < NPROC && -0x8000_0000 <= mask < 0x8000_0000
      modifies procs
      ensures Valid()
      ensures old(procs[cur].killed) != 0 ==> r == -1 && out == mask && procs[..] == old(procs[..])
      ensures old(procs[cur].killed) == 0 ==>
        r == 0 && out == ToInt(old(procs[cur].blocked))
        && procs[..] == old(procs[..])[cur := old(procs[cur]).(blocked := ToUint(mask))]
      ensures old(procs[cur].killed) == 0 ==> ToInt(procs[cur].blocked) == mask
    {
      out := mask;
      if procs[cur].killed != 0 {
        return -1, out;
      }
      var oldmask := ToInt(procs[cur].blocked);
      procs[cur] := procs[cur].(blocked := ToUint(mask));
      out := oldmask;
      MaskRoundTrip(mask, 0);
      SetKeepsPids(old(procs[..]), cur, procs[cur], nextpid);
      r := 0;
    }

    /** adjustallpticks(ind) */
    method AdjustAllPticks(ind: int)
      requires Valid()
      modifies procs
      ensures Valid()
      ensures procs[..] == AdjustTicks(old(procs[..]), ind)
    {
      var i := 0;
      while i < NPROC
        invariant 0 <= i <= NPROC
        invariant forall j :: 0 <= j < i ==> procs[j] == TickOne(old(procs[j]), j == ind)
        invariant forall j :: i <= j < NPROC ==> procs[j] == old(procs[j])
      {
        var p := procs[i];
        var t := p.tick;
        if p.state == SLEEPING {
          t := t.(ptSleep := t.ptSleep + 1);
        } else if i == ind {
          t := t.(ptCpu := t.ptCpu + 1);
        } else if p.state == RUNNABLE {
          t := t.(ptWait := t.ptWait + 1);
        }
        if p.state != UNUSED {
          t := t.(ptReal := t.ptReal + 1);
        }
        procs[i] := p.(tick := t);
        i := i + 1;
      }
      assert procs[..] == AdjustTicks(old(procs[..]), ind);
      AdjustKeepsPids(old(procs[..]), ind, nextpid);
    }

    /** roundrobin() */
    method RoundRobin() returns (r: Option<nat>)
      requires Valid()
      modifies this, procs
      ensures Valid() && CountsKept() && openind == old(openind)
      ensures r == RRPick(old(procs[..]), old(rrindex))
      ensures rrindex == if r.Some? then r.value else old(rrindex)
      ensures procs[..] == AdjustTicks(old(procs[..]), rrindex)
    {
      var i := 0;
      while i < NPROC && procs[(i + rrindex + 1) % NPROC].state != RUNNABLE
        invariant 0 <= i <= NPROC
        invariant RRScan(procs[..], rrindex, i) == RRPick(procs[..], rrindex)
      {
        i := i + 1;
      }
      if i < NPROC {
        r := Some((i + rrindex + 1) % NPROC);
        rrindex := r.value;
      } else {
        r := None;
      }
      AdjustAllPticks(rrindex);
    }

    /** The scan shortestprocessnext (remaining false) and
        shortestremainingtime (remaining true) share: -1 or the slot
        ShortestChoice describes. */
    method ScanShortest(remaining: bool) returns (num: int)
      requires Valid()
      ensures -1 <= num < NPROC
      ensures ShortestChoice(procs[..], remaining, if num < 0 then None else Some(num))
    {
      num := -1;
      var i := 0;
      while i < NPROC
        invariant 0 <= i <= NPROC && -1 <= num < i
        invariant num < 0 <==> forall j :: 0 <= j < i ==> !Eligible(procs[j])
        invariant num >= 0 ==> Eligible(procs[num])
        invariant forall j :: 0 <= j < i && Eligible(procs[j]) ==> procs[j].eticks >= 0
        invariant num >= 0 ==> forall j :: 0 <= j < i && Eligible(procs[j]) ==> Beats(procs[..], remaining, num, j)
      {
        if procs[i].state != RUNNABLE || procs[i].kernelmode == 1 {
          i := i + 1;
          continue;
        }
        if procs[i].eticks < 0 {
          num := i;
          assert SomeNegative(procs[..]) by { assert procs[..][i] == procs[i]; }
          return;
        }
        if num < 0 {
          num := i;
          i := i + 1;
          continue;
        }
        if remaining {
          var comp := procs[i].eticks - procs[i].tick.ptCpu;
          var org := procs[num].eticks - procs[num].tick.ptCpu;
          if comp < org {
            num := i;
          }
        } else if procs[i].eticks <= procs[num].eticks {
          num := i;
        }
        i := i + 1;
      }
    }

    /** shortestprocessnext(): a pinned slot still RUNNABLE first, else the
        scan's choice, which it pins in running[openind] = running[NCPU-1]. */
    method ShortestProcessNext() returns (r: Option<nat>)
      requires Valid()
      modifies this, procs, running
      ensures Valid() && CountsKept() && rrindex == old(rrindex)
      ensures var pin := old(running[NCPU - 1]);
        pin.Some? && old(procs[pin.value].state) == RUNNABLE ==>
          r == pin && openind == NCPU - 2 && running[..] == old(running[..])
          && procs[..] == AdjustTicks(old(procs[..]), pin.value)
      ensures var pin := old(running[NCPU - 1]);
        !(pin.Some? && old(procs[pin.value].state) == RUNNABLE) ==>
          ShortestChoice(old(procs[..]), false, r) && openind == NCPU - 1
          && running[..] == (if r.Some? then old(running[..])[NCPU - 1 := r] else old(running[..]))
          && procs[..] == AdjustTicks(old(procs[..]), if r.Some? then r.value else -1)
    {
      var c, last := 0, openind;
      while c < NCPU && !(running[c].Some? && procs[running[c].value].state == RUNNABLE)
        invariant 0 <= c <= NCPU
        invariant c > 0 ==> last == c - 1
        invariant c == 0 ==> last == openind
        invariant c == NCPU ==> !(running[NCPU - 1].Some? && procs[running[NCPU - 1].value].state == RUNNABLE)
      {
        last := c;
        c := c + 1;
      }
      openind := last;
      if c < NCPU {
        assert c == NCPU - 1;
        AdjustAllPticks(running[c].value);
        return running[c];
      }
      var num := ScanShortest(false);
      if num > -1 {
        running[openind] := Some(num);
        AdjustAllPticks(num);
        return Some(num);
      }
      AdjustAllPticks(num);
      return None;
    }

    /** shortestremainingtime() */
    method ShortestRemainingTime() returns (r: Option<nat>)
      requires Valid()
      modifies procs
      ensures Valid()
      ensures ShortestChoice(old(procs[..]), true, r)
      ensures procs[..] == AdjustTicks(old(procs[..]), if r.Some? then r.value else -1)
    {
      var num := ScanShortest(true);
      AdjustAllPticks(num);
      if num > -1 {
        return Some(num);
      }
      return None;
    }

    /** sched's count of the processes competing for a CPU. */
    method CountRunnables() returns (count: nat)
      requires procs.Length == NPROC
      ensures count == CountActive(procs[..]) && count <= NPROC
    {
      count := 0;
      var i := 0;
      while i < NPROC
        invariant 0 <= i <= NPROC && count == CountActive(procs[..i])
      {
        assert procs[..i + 1][..i] == procs[..i];
        if procs[i].state == RUNNABLE || procs[i].state == RUNNING {
          count := count + 1;
        }
        i := i + 1;
      }
      assert procs[..NPROC] == procs[..];
    }

    /** The selection half of sched() under policy POLICY (0 round robin,
        1 shortest process next, 2 shortest remaining time): count the
        competing processes, update the load average, then prefer the
        lowest RUNNABLE kernel-mode slot over the policy, and mark the
        chosen slot RUNNING. */
    method Sched(policy: nat) returns (r: Option<nat>)
      requires Valid() && policy < 3
      modifies this, procs, running
      ensures Valid()
      ensures runnables == CountActive(old(procs[..])) && loadavg == LoadAvgAsWritten(old(loadavg), runnables)
      ensures var k := First(old(procs[..]), KernelReady);
        k.Some? ==>
          r == k && rrindex == old(rrindex) && running[..] == old(running[..])
          && procs[..] == AdjustTicks(old(procs[..]), k.value)[k.value := AdjustTicks(old(procs[..]), k.value)[k.value].(state := RUNNING)]
      ensures First(old(procs[..]), KernelReady).None? && policy == 0 ==> r == RRPick(old(procs[..]), old(rrindex))
      ensures First(old(procs[..]), KernelReady).None? && policy == 2 ==> ShortestChoice(old(procs[..]), true, r)
      ensures var pin := old(running[NCPU - 1]);
        (First(old(procs[..]), KernelReady).None? && policy == 1
         && !(pin.Some? && old(procs[pin.value].state) == RUNNABLE)) ==> ShortestChoice(old(procs[..]), false, r)
      ensures var pin := old(running[NCPU - 1]);
        (First(old(procs[..]), KernelReady).None? && policy == 1
         && pin.Some? && old(procs[pin.value].state) == RUNNABLE) ==> r == pin
      ensures r.Some? ==> r.value < NPROC && old(procs[r.value].state) == RUNNABLE && procs[r.value].state == RUNNING
    {
      UpdateLoad();
      r := Select(policy);
    }

    /** sched's bookkeeping before it picks: the number of competing
        processes and the load average decayed towards it, in the code's
        `uint` and `int` arithmetic; below an average of 430 and 28
        competing processes that is the intended average. */
    method UpdateLoad()
      requires Valid()
      modifies this
      ensures Valid()
      ensures runnables == CountActive(procs[..]) && loadavg == LoadAvgAsWritten(old(loadavg), runnables)
      ensures old(loadavg) <= 429 && runnables <= 27 ==> loadavg == LoadAvg(old(loadavg), runnables)
      ensures nextpid == old(nextpid) && initproc == old(initproc) && newproc == old(newproc)
      ensures rrindex == old(rrindex) && openind == old(openind)
    {
      var count := CountRunnables();
      runnables := count;
      ghost var avg := loadavg;
      if avg <= 429 && runnables <= 27 {
        LoadAvgAgrees(avg, runnables);
      }
      loadavg := (9992328 * loadavg) % UINT_MOD / 10000000;
      loadavg := (loadavg + DivTrunc(Int32(7672 * runnables * 10000), 10000000)) % UINT_MOD;
    }

    /** sched's choice once the load is updated: the chosen slot gets
        RUNNING. */
    method Select(policy: nat) returns (r: Option<nat>)
      requires Valid() && policy < 3
      modifies this, procs, running
      ensures Valid() && runnables == old(runnables) && loadavg == old(loadavg)
      ensures var k := First(old(procs[..]), KernelReady);
        k.Some? ==>
          r == k && rrindex == old(rrindex) && running[..] == old(running[..])
          && procs[..] == AdjustTicks(old(procs[..]), k.value)[k.value := AdjustTicks(old(procs[..]), k.value)[k.value].(state := RUNNING)]
      ensures First(old(procs[..]), KernelReady).None? && policy == 0 ==> r == RRPick(old(procs[..]), old(rrindex))
      ensures First(old(procs[..]), KernelReady).None? && policy == 2 ==> ShortestChoice(old(procs[..]), true, r)
      ensures var pin := old(running[NCPU - 1]);
        (First(old(procs[..]), KernelReady).None? && policy == 1
         && !(pin.Some? && old(procs[pin.value].state) == RUNNABLE)) ==> ShortestChoice(old(procs[..]), false, r)
      ensures var pin := old(running[NCPU - 1]);
        (First(old(procs[..]), KernelReady).None? && policy == 1
         && pin.Some? && old(procs[pin.value].state) == RUNNABLE) ==> r == pin
      ensures r.Some? ==> r.value < NPROC && old(procs[r.value].state) == RUNNABLE && procs[r.value].state == RUNNING
    {
      r := Choose(policy);
      if r.Some? {
        AdjustTicksMeaning(old(procs[..]), r.value, r.value);
      }
      Dispatch(r);
    }

    /** The choice itself: the lowest RUNNABLE kernel-mode slot, otherwise
        the policy's pick; every slot's ticks are charged for the pick. */
    method Choose(policy: nat) returns (r: Option<nat>)
      requires Valid() && policy < 3
      modifies this, procs, running
      ensures Valid() && runnables == old(runnables) && loadavg == old(loadavg)
      ensures var k := First(old(procs[..]), KernelReady);
        k.Some? ==> r == k && rrindex == old(rrindex) && running[..] == old(running[..])
      ensures First(old(procs[..]), KernelReady).None? && policy == 0 ==> r == RRPick(old(procs[..]), old(rrindex))
      ensures First(old(procs[..]), KernelReady).None? && policy == 2 ==> ShortestChoice(old(procs[..]), true, r)
      ensures var pin := old(running[NCPU - 1]);
        (First(old(procs[..]), KernelReady).None? && policy == 1
         && !(pin.Some? && old(procs[pin.value].state) == RUNNABLE)) ==> ShortestChoice(old(procs[..]), false, r)
      ensures var pin := old(running[NCPU - 1]);
        (First(old(procs[..]), KernelReady).None? && policy == 1
         && pin.Some? && old(procs[pin.value].state) == RUNNABLE) ==> r == pin
      ensures r.Some? ==>
        r.value < NPROC && old(procs[r.value].state) == RUNNABLE && procs[..] == AdjustTicks(old(procs[..]), r.value)
    {
      var k := FindFirst(KernelReady);
      if k < NPROC {
        AdjustAllPticks(k);
        r := Some(k);
      } else if policy == 0 {
        r := RoundRobin();
        RRPickMeaning(old(procs[..]), old(rrindex));
      } else if policy == 1 {
        r := ShortestProcessNext();
      } else {
        r := ShortestRemainingTime();
      }
    }

    /** The chosen process, if any, becomes RUNNING. */
    method Dispatch(r: Option<nat>)
      requires Valid()
      requires r.Some? ==> r.value < NPROC && procs[r.value].state == RUNNABLE
      modifies procs
      ensures Valid()
      ensures procs[..] == if r.Some? then old(procs[..])[r.value := old(procs[r.value]).(state := RUNNING)] else old(procs[..])
    {
      if r.Some? {
        var p := procs[r.value].(state := RUNNING);
        SetKeepsPids(procs[..], r.value, p, nextpid);
        procs[r.value] := p;
      }
    }
  }
}
