/** Mini-OS locks as interleaved steps.  One CPU runs any number of threads; only a region
    with interrupts disabled is a single step, everything else can be preempted, so even
    count++ is a separate load and store. */
module LockCommon {
  /** What a thread does next: enter one of the lock's functions, or run its next step. */
  datatype Event = Acquire(tid: nat) | TryAcquire(tid: nat) | Release(tid: nat) | Step(tid: nat)
}

/** ___lock_init, ___lock_acquire, ___lock_try_acquire, ___lock_release. */
module PlainLock {
  import opened Common
  import opened LockCommon

  /** The lock's busy flag, changed only with interrupts disabled. */
  class Lock {
    var busy: bool

    constructor ()
      ensures !busy
    {
      busy := false;
    }

    /** Interrupts disabled: one turn of the acquire loop, and the whole of try-acquire. */
    method TakeIfFree() returns (ret: int)
      modifies this
      ensures (busy, ret) == Take(old(busy))
      ensures busy && (ret == 0 || ret == -1) && (ret == 0 <==> !old(busy))
    {
      ret := -1;
      if !busy {
        busy := true;
        ret := 0;
      }
    }

    /** The thread's next step. */
    method Advance(th: Thread) returns (next: Thread)
      modifies this
      ensures (busy, next) == StepThread(old(busy), th)
    {
      next := th;
      match th.pc
      case Idle =>
      case InAcquire =>
        var ret := TakeIfFree();
        if ret == 0 {
          next := Thread(Idle, true, 0);
        }
      case InTry =>
        var ret := TakeIfFree();
        next := Thread(Idle, th.holds || ret == 0, ret);
      case InRelease =>
        busy := false;
        next := Thread(Idle, false, 0);
    }
  }

  function Take(busy: bool): (bool, int) {
    (true, if busy then -1 else 0)
  }

  datatype Pc = Idle | InAcquire | InTry | InRelease

  /** ret is the result of the thread's last call. */
  datatype Thread = Thread(pc: Pc, holds: bool, ret: int)

  datatype System = System(busy: bool, threads: seq<Thread>)

  /** A thread releases only what it holds. */
  predicate Enabled(s: System, e: Event) {
    && e.tid < |s.threads|
    && var th := s.threads[e.tid];
       match e
       case Acquire(_) => th.pc.Idle?
       case TryAcquire(_) => th.pc.Idle?
       case Release(_) => th.pc.Idle? && th.holds
       case Step(_) => !th.pc.Idle?
  }

  function StepThread(busy: bool, th: Thread): (bool, Thread) {
    match th.pc
    case Idle => (busy, th)
    case InAcquire =>
      var (b, ret) := Take(busy);
      (b, if ret == 0 then Thread(Idle, true, 0) else th)
    case InTry =>
      var (b, ret) := Take(busy);
      (b, Thread(Idle, th.holds || ret == 0, ret))
    case InRelease => (false, Thread(Idle, false, 0))
  }

  function Exec(s: System, e: Event): System
    requires Enabled(s, e)
  {
    var th := s.threads[e.tid];
    var (busy, th') :=
      match e
      case Acquire(_) => (s.busy, th.(pc := InAcquire))
      case TryAcquire(_) => (s.busy, th.(pc := InTry))
      case Release(_) => (s.busy, th.(pc := InRelease))
      case Step(_) => StepThread(s.busy, th);
    System(busy, s.threads[e.tid := th'])
  }

  function Run(s: System, es: seq<Event>): Option<System> {
    if es == [] then Some(s)
    else match Run(s, es[..|es| - 1])
      case None => None
      case Some(t) => if Enabled(t, es[|es| - 1]) then Some(Exec(t, es[|es| - 1])) else None
  }

  predicate Boot(s: System) {
    !s.busy && forall t :: 0 <= t < |s.threads| ==> s.threads[t] == Thread(Idle, false, 0)
  }

  /** The lock is busy exactly when some thread holds it, and at most one does. */
  ghost predicate Inv(s: System) {
    && (forall t :: 0 <= t < |s.threads| && s.threads[t].holds ==> s.busy)
    && (s.busy ==> exists t :: 0 <= t < |s.threads| && s.threads[t].holds)
    && (forall t, u :: 0 <= t < u < |s.threads| ==> !(s.threads[t].holds && s.threads[u].holds))
    && (forall t :: 0 <= t < |s.threads| && s.threads[t].pc.InRelease? ==> s.threads[t].holds)
  }

  lemma ExecKeepsInv(s: System, e: Event)
    requires Inv(s) && Enabled(s, e)
    ensures Inv(Exec(s, e))
  {
    var s' := Exec(s, e);
    assert forall t :: 0 <= t < |s.threads| && t != e.tid ==> s'.threads[t] == s.threads[t];
    if s'.busy {
      if s.busy {
        var t :| 0 <= t < |s.threads| && s.threads[t].holds;
        assert s'.threads[t].holds;
      } else {
        assert s'.threads[e.tid].holds;
      }
    }
  }

  /** Main result: mutual exclusion over every interleaving. */
  lemma {:induction false} MutualExclusion(s: System, es: seq<Event>)
    requires Boot(s) && Run(s, es).Some?
    ensures Inv(Run(s, es).value)
  {
    if es != [] {
      MutualExclusion(s, es[..|es| - 1]);
      ExecKeepsInv(Run(s, es[..|es| - 1]).value, es[|es| - 1]);
    }
  }

  predicate Free(s: System) {
    forall t :: 0 <= t < |s.threads| ==> !s.threads[t].holds
  }

  /** What a call does, in every state that any interleaving reaches: acquire returns exactly
      when nobody held the lock, and then holds it; try-acquire always returns, with 0 and
      the lock exactly when nobody held it; release frees the lock.  A caller's own
      earlier hold stays. */
  lemma CallsDo(s: System, es: seq<Event>, t: nat)
    requires Boot(s) && Run(s, es).Some?
    requires Enabled(Run(s, es).value, Step(t))
    ensures var before := Run(s, es).value; var after := Exec(before, Step(t));
            var th, th' := before.threads[t], after.threads[t];
            match th.pc
            case InAcquire =>
              && (th'.pc.Idle? <==> Free(before)) && (th'.holds <==> th.holds || Free(before))
              && (th'.pc.Idle? ==> th'.ret == 0) && (!th'.pc.Idle? ==> th' == th)
            case InTry =>
              && th'.pc.Idle? && (th'.holds <==> th.holds || Free(before))
              && th'.ret == if Free(before) then 0 else -1
            case InRelease => th' == Thread(Idle, false, 0) && Free(after)
            case Idle => false
  {
    MutualExclusion(s, es);
    var before := Run(s, es).value;
    ExecKeepsInv(before, Step(t));
    assert before.busy <==> !Free(before);
  }
}

module RecursiveLock {
  import opened Common
  import opened LockCommon

  datatype LockState = LockState(owner: Option<nat>, count: int)

  /** The lock's owner and nesting count. */
  class Lock {
    var owner: Option<nat>
    var count: int

    ghost function View(): LockState
      reads this
    {
      LockState(owner, count)
    }

    /** The source initialises the owner only: count is whatever the memory held. */
    constructor (garbage: int)
      ensures View() == LockState(None, garbage)
    {
      owner := None;
      count := garbage;
    }

    /** Interrupts disabled: one turn of the acquire loop. */
    method Claim(me: nat) returns (got: bool)
      modifies this`owner
      ensures got == old(owner).None?
      ensures View() == Claimed(old(View()), me)
    {
      got := owner.None?;
      if got {
        owner := Some(me);
      }
    }

    /** Interrupts disabled: the whole of try-acquire, which also refuses the owner. */
    method TryAcquireRegion(me: nat) returns (ret: int)
      modifies this
      ensures ret == if old(owner).None? then 0 else -1
      ensures View() == if ret == 0 then LockState(Some(me), old(count) + 1) else old(View())
    {
      ret := -1;
      if owner.None? {
        ret := 0;
        owner := Some(me);
        count := count + 1;
      }
    }

    /** Interrupts disabled: the end of the outermost release. */
    method Clear()
      modifies this`owner
      ensures View() == LockState(None, old(count))
    {
      owner := None;
    }

    /** The thread's next step: the functions cut at every point where another thread can
        run. */
    method Advance(me: nat, th: Thread) returns (next: Thread)
      modifies this
      ensures (View(), next) == StepThread(old(View()), me, th)
    {
      next := th;
      match th.pc
      case Idle =>
      case Bug =>
      case AcqCheck =>
        next := th.(pc := if owner != Some(me) then AcqSpin else AcqLoad);
      case AcqSpin =>
        var got := Claim(me);
        if got {
          next := th.(pc := AcqLoad);
        }
      case AcqLoad =>
        next := th.(pc := AcqStore(count));
      case AcqStore(k) =>
        count := k + 1;
        next := Thread(Idle, th.depth + 1, 0);
      case TryRegion =>
        var ret := TryAcquireRegion(me);
        next := Thread(Idle, if ret == 0 then th.depth + 1 else th.depth, ret);
      case RelCheck =>
        next := th.(pc := if owner != Some(me) then Bug else RelLoad);
      case RelLoad =>
        next := th.(pc := RelStore(count));
      case RelStore(k) =>
        count := k - 1;
        next := if count != 0 then Thread(Idle, th.depth - 1, 0) else th.(pc := RelClear);
      case RelClear =>
        Clear();
        next := Thread(Idle, th.depth - 1, 0);
    }
  }

  function Claimed(l: LockState, me: nat): LockState {
    if l.owner.None? then l.(owner := Some(me)) else l
  }

  /** Where a thread is, with the value of count it has loaded. */
  datatype Pc =
    | Idle
    | AcqCheck | AcqSpin | AcqLoad | AcqStore(loaded: int)
    | TryRegion
    | RelCheck | RelLoad | RelStore(loaded: int) | RelClear
    | Bug

  /** depth counts the thread's completed acquires without a completed release; ret is the
      result of its last call. */
  datatype Thread = Thread(pc: Pc, depth: int, ret: int)

  datatype System = System(lock: LockState, threads: seq<Thread>)

  /** A thread releases only what it holds and never nests INT_MAX deep. */
  predicate Enabled(s: System, e: Event) {
    && e.tid < |s.threads|
    && var th := s.threads[e.tid];
       match e
       case Acquire(_) => th.pc.Idle? && th.depth < INT_MAX
       case TryAcquire(_) => th.pc.Idle? && th.depth < INT_MAX
       case Release(_) => th.pc.Idle? && th.depth > 0
       case Step(_) => !th.pc.Idle? && !th.pc.Bug?
  }

  function StepThread(l: LockState, me: nat, th: Thread): (LockState, Thread) {
    match th.pc
    case Idle => (l, th)
    case Bug => (l, th)
    case AcqCheck => (l, th.(pc := if l.owner != Some(me) then AcqSpin else AcqLoad))
    case AcqSpin => (Claimed(l, me), if l.owner.None? then th.(pc := AcqLoad) else th)
    case AcqLoad => (l, th.(pc := AcqStore(l.count)))
    case AcqStore(k) => (l.(count := k + 1), Thread(Idle, th.depth + 1, 0))
    case TryRegion =>
      if l.owner.None? then (LockState(Some(me), l.count + 1), Thread(Idle, th.depth + 1, 0))
      else (l, Thread(Idle, th.depth, -1))
    case RelCheck => (l, th.(pc := if l.owner != Some(me) then Bug else RelLoad))
    case RelLoad => (l, th.(pc := RelStore(l.count)))
    case RelStore(k) =>
      (l.(count := k - 1), if k - 1 != 0 then Thread(Idle, th.depth - 1, 0) else th.(pc := RelClear))
    case RelClear => (l.(owner := None), Thread(Idle, th.depth - 1, 0))
  }

  function Exec(s: System, e: Event): System
    requires Enabled(s, e)
  {
    var th := s.threads[e.tid];
    var (l', th') :=
      match e
      case Acquire(_) => (s.lock, th.(pc := AcqCheck))
      case TryAcquire(_) => (s.lock, th.(pc := TryRegion))
      case Release(_) => (s.lock, th.(pc := RelCheck))
      case Step(_) => StepThread(s.lock, e.tid, th);
    System(l', s.threads[e.tid := th'])
  }

  function Run(s: System, es: seq<Event>): Option<System> {
    if es == [] then Some(s)
    else match Run(s, es[..|es| - 1])
      case None => None
      case Some(t) => if Enabled(t, es[|es| - 1]) then Some(Exec(t, es[|es| - 1])) else None
  }

  /** Threads at rest around a freshly initialised lock with the given initial count. */
  predicate Boot(s: System, count: int) {
    s.lock == LockState(None, count) && forall t :: 0 <= t < |s.threads| ==> s.threads[t] == Thread(Idle, 0, 0)
  }

  predicate Owning(th: Thread) {
    || th.depth > 0
    || th.pc.AcqLoad? || th.pc.AcqStore?
    || th.pc.RelCheck? || th.pc.RelLoad? || th.pc.RelStore? || th.pc.RelClear?
  }

  /** What count holds while this thread owns the lock: its nesting depth, except between
      the last decrement and the clearing of the owner. */
  function CountFor(th: Thread): int {
    if th.pc.RelClear? then th.depth - 1 else th.depth
  }

  predicate ThreadOk(l: LockState, me: nat, th: Thread) {
    && !th.pc.Bug? && 0 <= th.depth <= INT_MAX
    && (Owning(th) <==> l.owner == Some(me))
    && (Owning(th) ==> l.count == CountFor(th))
    && (th.pc.AcqSpin? ==> th.depth == 0)
    && (th.pc.RelCheck? || th.pc.RelLoad? || th.pc.RelStore? ==> th.depth > 0)
    && (th.pc.RelClear? ==> th.depth == 1)
    && (th.pc.AcqCheck? || th.pc.AcqSpin? || th.pc.AcqLoad? || th.pc.AcqStore? || th.pc.TryRegion? ==>
          th.depth < INT_MAX)
    && (th.pc.AcqStore? || th.pc.RelStore? ==> th.pc.loaded == l.count)
  }

  ghost predicate Inv(s: System) {
    && (forall t :: 0 <= t < |s.threads| ==> ThreadOk(s.lock, t, s.threads[t]))
    && (s.lock.owner.None? ==> s.lock.count == 0)
    && (s.lock.owner.Some? ==> s.lock.owner.value < |s.threads|)
  }

  lemma ExecKeepsInv(s: System, e: Event)
    requires Inv(s) && Enabled(s, e)
    ensures Inv(Exec(s, e))
  {
    var s' := Exec(s, e);
    assert ThreadOk(s.lock, e.tid, s.threads[e.tid]);
    forall t | 0 <= t < |s'.threads| ensures ThreadOk(s'.lock, t, s'.threads[t]) {
      if t != e.tid {
        assert ThreadOk(s.lock, t, s.threads[t]) && s'.threads[t] == s.threads[t];
      }
    }
  }

  /** Main result: over every interleaving count is the owner's nesting depth (one less
      between the last decrement and the clearing of the owner), and BUG_ON never fires. */
  lemma {:induction false} RunKeepsInv(s: System, es: seq<Event>)
    requires Boot(s, 0) && Run(s, es).Some?
    ensures Inv(Run(s, es).value)
  {
    if es != [] {
      RunKeepsInv(s, es[..|es| - 1]);
      ExecKeepsInv(Run(s, es[..|es| - 1]).value, es[|es| - 1]);
    }
  }

  /** At most one thread is inside, and it is the recorded owner. */
  lemma MutualExclusion(s: System, es: seq<Event>, t: nat, u: nat)
    requires Boot(s, 0) && Run(s, es).Some?
    requires t < |Run(s, es).value.threads| && u < |Run(s, es).value.threads|
    requires Run(s, es).value.threads[t].depth > 0 && Run(s, es).value.threads[u].depth > 0
    ensures t == u && Run(s, es).value.lock.owner == Some(t)
  {
    RunKeepsInv(s, es);
    var end := Run(s, es).value;
    assert ThreadOk(end.lock, t, end.threads[t]) && ThreadOk(end.lock, u, end.threads[u]);
  }

  /** The owner changes only when a waiting thread claims a free lock, or when the owner
      itself finishes its outermost release. */
  lemma OwnerChanges(s: System, es: seq<Event>, e: Event)
    requires Boot(s, 0) && Run(s, es).Some? && Enabled(Run(s, es).value, e)
    ensures var before := Run(s, es).value; var after := Exec(before, e);
            before.lock.owner != after.lock.owner ==>
              match before.lock.owner
              case None => after.lock.owner == Some(e.tid)
              case Some(o) =>
                && after.lock.owner == None && e == Step(o)
                && before.threads[o].depth == 1 && after.threads[o].depth == 0
                && after.threads[o].pc.Idle? && after.lock.count == 0
  {
    RunKeepsInv(s, es);
    var before := Run(s, es).value;
    assert ThreadOk(before.lock, e.tid, before.threads[e.tid]);
  }

  /** What the source assumes about count on increment and decrement always holds. */
  lemma CountInRange(s: System, es: seq<Event>, t: nat)
    requires Boot(s, 0) && Run(s, es).Some? && t < |Run(s, es).value.threads|
    ensures var end := Run(s, es).value; var pc := end.threads[t].pc;
            && (pc.AcqLoad? || pc.AcqStore? ==> 0 <= end.lock.count < INT_MAX)
            && (pc.TryRegion? && end.lock.owner.None? ==> end.lock.count < INT_MAX)
            && (pc.RelLoad? || pc.RelStore? ==> end.lock.count > 0)
  {
    RunKeepsInv(s, es);
    var end := Run(s, es).value;
    assert ThreadOk(end.lock, t, end.threads[t]);
  }

  predicate Acquiring(pc: Pc) {
    pc.AcqCheck? || pc.AcqSpin? || pc.AcqLoad? || pc.AcqStore?
  }

  predicate Releasing(pc: Pc) {
    pc.RelCheck? || pc.RelLoad? || pc.RelStore? || pc.RelClear?
  }

  /** What a call does, in every state that any interleaving reaches: acquire stays in its
      loop while another thread owns the lock and returns only with one level more, owning
      it; try-acquire gains its level exactly when nobody, not even the caller, owned the
      lock; release returns with one level less, and the lock has an owner exactly if the
      caller has levels left. */
  lemma CallsDo(s: System, es: seq<Event>, t: nat)
    requires Boot(s, 0) && Run(s, es).Some? && Enabled(Run(s, es).value, Step(t))
    ensures var before := Run(s, es).value; var after := Exec(before, Step(t));
            var th, th', owner := before.threads[t], after.threads[t], before.lock.owner;
            && (Acquiring(th.pc) ==>
                  && (owner.Some? && owner.value != t ==> Acquiring(th'.pc) && th'.depth == th.depth)
                  && (Acquiring(th'.pc) ==> th'.depth == th.depth)
                  && (!Acquiring(th'.pc) ==> th' == Thread(Idle, th.depth + 1, 0) && after.lock.owner == Some(t)))
            && (th.pc.TryRegion? ==>
                  && th' == (if owner.None? then Thread(Idle, th.depth + 1, 0) else Thread(Idle, th.depth, -1))
                  && (owner.None? ==> after.lock.owner == Some(t)))
            && (Releasing(th.pc) ==>
                  if Releasing(th'.pc) then th'.depth == th.depth
                  else th' == Thread(Idle, th.depth - 1, 0) && (after.lock.owner == Some(t) <==> th'.depth > 0))
  {
    RunKeepsInv(s, es);
    var before := Run(s, es).value;
    assert ThreadOk(before.lock, t, before.threads[t]);
    ExecKeepsInv(before, Step(t));
    assert ThreadOk(Exec(before, Step(t)).lock, t, Exec(before, Step(t)).threads[t]);
  }

  // ------------------------------------------------------------- calls without interference

  function StepWhileBusy(s: System, t: nat, fuel: nat): System
    requires t < |s.threads|
    decreases fuel
  {
    if fuel == 0 || !Enabled(s, Step(t)) then s else StepWhileBusy(Exec(s, Step(t)), t, fuel - 1)
  }

  /** An acquire takes at most four steps if nobody else owns the lock: first or nested. */
  lemma AcquireAlone(s: System, t: nat)
    requires t < |s.threads| && s.threads[t].pc.Idle? && 0 <= s.threads[t].depth < INT_MAX
    requires s.lock.owner == None || s.lock.owner == Some(t)
    ensures StepWhileBusy(Exec(s, Acquire(t)), t, 4) ==
            System(LockState(Some(t), s.lock.count + 1), s.threads[t := Thread(Idle, s.threads[t].depth + 1, 0)])
  {
    var s1 := Exec(s, Acquire(t));
    var s2 := Exec(s1, Step(t));
    var s3 := Exec(s2, Step(t));
    var s4 := Exec(s3, Step(t));
    assert StepWhileBusy(s3, t, 2) == StepWhileBusy(s4, t, 1);
    assert StepWhileBusy(s2, t, 3) == StepWhileBusy(s4, t, 1);
    if s.lock.owner == None {
      var s5 := Exec(s4, Step(t));
      assert s5.threads == s.threads[t := Thread(Idle, s.threads[t].depth + 1, 0)];
    } else {
      assert s4.threads == s.threads[t := Thread(Idle, s.threads[t].depth + 1, 0)];
    }
  }

  /** A release takes at most four steps; it clears the owner exactly when count was 1. */
  lemma ReleaseAlone(s: System, t: nat)
    requires t < |s.threads| && s.threads[t].pc.Idle? && s.threads[t].depth > 0 && s.lock.owner == Some(t)
    ensures StepWhileBusy(Exec(s, Release(t)), t, 4) ==
            System(LockState(if s.lock.count == 1 then None else Some(t), s.lock.count - 1),
                   s.threads[t := Thread(Idle, s.threads[t].depth - 1, 0)])
  {
    var s1 := Exec(s, Release(t));
    var s2 := Exec(s1, Step(t));
    var s3 := Exec(s2, Step(t));
    var s4 := Exec(s3, Step(t));
    assert StepWhileBusy(s3, t, 2) == StepWhileBusy(s4, t, 1);
    assert StepWhileBusy(s2, t, 3) == StepWhileBusy(s4, t, 1);
    if s.lock.count == 1 {
      var s5 := Exec(s4, Step(t));
      assert s5.threads == s.threads[t := Thread(Idle, s.threads[t].depth - 1, 0)];
    } else {
      assert s4.threads == s.threads[t := Thread(Idle, s.threads[t].depth - 1, 0)];
    }
  }

  /** One thread, alone, acquires and then releases. */
  function AcquireThenRelease(s: System, t: nat): System
    requires t < |s.threads| && s.threads[t].pc.Idle? && s.threads[t].depth == 0
  {
    var held := StepWhileBusy(Exec(s, Acquire(t)), t, 4);
    if t < |held.threads| && Enabled(held, Release(t)) then
      var let := Exec(held, Release(t));
      StepWhileBusy(let, t, 4)
    else held
  }

  /** ___lock_init_recursive does not set count.  A first acquire and release gives the
      lock back exactly when the memory happened to hold 0 there; otherwise the owner stays
      recorded although nobody holds the lock. */
  lemma InitNeedsZeroCount(s: System, t: nat, garbage: int)
    requires Boot(s, garbage) && t < |s.threads|
    ensures AcquireThenRelease(s, t).threads[t] == Thread(Idle, 0, 0)
    ensures AcquireThenRelease(s, t).lock.owner.None? <==> garbage == 0
    ensures garbage != 0 ==> AcquireThenRelease(s, t).lock.owner == Some(t)
  {
    AcquireAlone(s, t);
    ReleaseAlone(StepWhileBusy(Exec(s, Acquire(t)), t, 4), t);
  }
}
