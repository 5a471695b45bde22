/** Lazy FPU switching: a CPU's register file is a cache of one vCPU's save area, guarded by
    CR0.TS and the vCPU's dirtied flag.  The run-level result is that no vCPU can tell it
    from a private register file. */
module LazyFpu {

  type Image = seq<bv8>

  /** Register contents, split into lazily and eagerly switched components. */
  datatype XState = XState(lazyPart: Image, nonlazyPart: Image)

  /** Repair: the source gives two of these masks the same value and the lazy one the value
      0; they name component sets. */
  datatype Mask = All | Lazy | NonLazy

  /** What xsave and xrstor move: the components in the mask. */
  function Moved(into: XState, from: XState, mask: Mask): XState {
    match mask
    case All => from
    case Lazy => into.(lazyPart := from.lazyPart)
    case NonLazy => into.(nonlazyPart := from.nonlazyPart)
  }

  datatype VcpuState = VcpuState(
    idle: bool, fullyEager: bool, xstateAll: bool,
    area: XState, nonlazyUsed: bool, initialised: bool, dirtied: bool)

  datatype CpuState = CpuState(regs: XState, ts: bool)

  // --------------------------------------------------------------- the five operations

  function SaveMask(v: VcpuState): Mask {
    if v.dirtied then (if v.nonlazyUsed then All else Lazy)
    else if v.xstateAll then All else NonLazy
  }

  function RestoreLazy(c: CpuState, v: VcpuState): (CpuState, VcpuState) {
    if v.dirtied then (c.(ts := false), v)
    else (CpuState(Moved(c.regs, v.area, Lazy), false), v.(initialised := true, dirtied := true))
  }

  predicate NeedsSave(v: VcpuState) {
    v.dirtied || v.nonlazyUsed
  }

  function Save(c: CpuState, v: VcpuState): (CpuState, VcpuState) {
    if NeedsSave(v) then (c.(ts := false), v.(area := Moved(v.area, c.regs, SaveMask(v)), dirtied := false))
    else (c, v)
  }

  function SaveAndTrap(c: CpuState, v: VcpuState): (CpuState, VcpuState) {
    var (c', v') := Save(c, v);
    (c'.(ts := true), v')
  }

  function SaveAndEnable(c: CpuState, v: VcpuState): (CpuState, VcpuState) {
    var (c', v') := Save(c, v);
    (c'.(ts := false), v')
  }

  class Vcpu {
    const idle: bool
    const fullyEager: bool
    const xstateAll: bool
    var area: XState
    var nonlazyUsed: bool
    var initialised: bool
    var dirtied: bool

    ghost function View(): VcpuState
      reads this
    {
      VcpuState(idle, fullyEager, xstateAll, area, nonlazyUsed, initialised, dirtied)
    }

    constructor (idle: bool, fullyEager: bool, xstateAll: bool, area: XState)
      ensures View() == VcpuState(idle, fullyEager, xstateAll, area, false, false, false)
    {
      this.idle := idle;
      this.fullyEager := fullyEager;
      this.xstateAll := xstateAll;
      this.area := area;
      nonlazyUsed, initialised, dirtied := false, false, false;
    }

    /** The source asserts that an undirtied vCPU is only saved for nonlazy state. */
    method XsaveMask() returns (mask: Mask)
      requires dirtied || nonlazyUsed
      ensures mask == SaveMask(View())
    {
      if dirtied {
        return if nonlazyUsed then All else Lazy;
      }
      return if xstateAll then All else NonLazy;
    }
  }

  class Cpu {
    var regs: XState
    var ts: bool

    ghost function View(): CpuState
      reads this
    {
      CpuState(regs, ts)
    }

    constructor (regs: XState)
      ensures View() == CpuState(regs, true)
    {
      this.regs, ts := regs, true;
    }

    // Repair: the four hardware primitives are empty stubs in the source.
    method Clts()
      modifies this`ts
      ensures !ts
    {
      ts := false;
    }

    method Stts()
      modifies this`ts
      ensures ts
    {
      ts := true;
    }

    method Xsave(v: Vcpu, mask: Mask)
      modifies v`area
      ensures v.area == Moved(old(v.area), regs, mask)
    {
      v.area := Moved(v.area, regs, mask);
    }

    method Xrstor(v: Vcpu, mask: Mask)
      modifies this`regs
      ensures regs == Moved(old(regs), v.area, mask)
    {
      regs := Moved(regs, v.area, mask);
    }

    method FpuXrstor(v: Vcpu, mask: Mask)
      modifies this`regs
      ensures regs == Moved(old(regs), v.area, mask)
    {
      Xrstor(v, mask);
    }

    method FpuXsave(v: Vcpu)
      requires NeedsSave(v.View())
      modifies v`area
      ensures v.area == Moved(old(v.area), regs, SaveMask(old(v.View())))
    {
      var mask := v.XsaveMask();
      Xsave(v, mask);
    }

    method VcpuRestoreFpuLazy(v: Vcpu)
      requires RestoreAsserts(v.View())
      modifies this, v`initialised, v`dirtied
      ensures (View(), v.View()) == RestoreLazy(old(View()), old(v.View()))
      ensures !ts && v.dirtied && regs.nonlazyPart == old(regs.nonlazyPart)
      ensures regs.lazyPart == if old(v.dirtied) then old(regs.lazyPart) else v.area.lazyPart
      ensures v.initialised == (old(v.dirtied) ==> old(v.initialised))
    {
      Clts();
      if v.dirtied {
        return;
      }
      FpuXrstor(v, Lazy);
      v.initialised := true;
      v.dirtied := true;
    }

    method SaveFpu(v: Vcpu) returns (saved: bool)
      requires SaveAsserts(v.View())
      modifies this`ts, v`area, v`dirtied
      ensures saved == NeedsSave(old(v.View()))
      ensures (View(), v.View()) == Save(old(View()), old(v.View()))
    {
      if !v.dirtied && !v.nonlazyUsed {
        return false;
      }
      Clts();
      FpuXsave(v);
      v.dirtied := false;
      return true;
    }

    method VcpuSaveFpu(v: Vcpu)
      requires SaveAsserts(v.View())
      modifies this`ts, v`area, v`dirtied
      ensures (View(), v.View()) == SaveAndTrap(old(View()), old(v.View()))
    {
      var _ := SaveFpu(v);
      Stts();
    }

    method SaveFpuEnable(current: Vcpu)
      requires SaveAsserts(current.View())
      modifies this`ts, current`area, current`dirtied
      ensures (View(), current.View()) == SaveAndEnable(old(View()), old(current.View()))
    {
      var saved := SaveFpu(current);
      if !saved {
        Clts();
      }
    }
  }

  /** The source's ASSERTs on entry to the two operations. */
  predicate RestoreAsserts(v: VcpuState) {
    !v.idle && (!v.dirtied ==> !v.fullyEager)
  }

  predicate SaveAsserts(v: VcpuState) {
    NeedsSave(v) ==> !v.idle
  }

  // ------------------------------------------------------ the machine and its private ideal

  /** Several CPUs, each running one vCPU, any number of vCPUs.  inHyp marks a CPU between
      save_fpu_enable and the closing stts. */
  datatype Machine = Machine(cpus: seq<CpuState>, cur: seq<nat>, inHyp: seq<bool>, vcpus: seq<VcpuState>)

  /** The same schedule over private register files. */
  datatype Ideal = Ideal(cur: seq<nat>, files: seq<Image>)

  datatype Event =
    | GuestOp(cpu: nat, op: Image -> Image)   // traps into the lazy restore when TS is set
    | GuestSetsTs(cpu: nat)                   // a paravirtualised guest sets its CR0.TS
    | StartsNonlazy(cpu: nat, vcpu: nat)      // the running vCPU starts using nonlazy state
    | Switch(cpu: nat, next: nat)             // context switch through vcpu_save_fpu
    | HypBegin(cpu: nat)                      // save_fpu_enable
    | HypOp(cpu: nat, op: Image -> Image)     // hypervisor use of the registers
    | HypEnd(cpu: nat)                        // stts

  /** What a guest operation sees: its vCPU and the register contents it works on. */
  datatype Observation = Observation(vcpu: nat, seen: Image)

  predicate WellFormed(m: Machine) {
    && |m.cpus| == |m.cur| == |m.inHyp|
    && (forall c :: 0 <= c < |m.cur| ==> m.cur[c] < |m.vcpus|)
    && (forall c, d :: 0 <= c < d < |m.cur| ==> m.cur[c] != m.cur[d])
  }

  /** Scheduling only: no condition mentions the FPU. */
  predicate Enabled(m: Machine, e: Event)
    requires WellFormed(m)
  {
    && e.cpu < |m.cpus|
    && match e
       case GuestOp(c, _) => !m.inHyp[c] && !m.vcpus[m.cur[c]].idle
       case GuestSetsTs(c) => !m.inHyp[c] && !m.vcpus[m.cur[c]].idle
       case StartsNonlazy(c, v) => !m.inHyp[c] && m.cur[c] == v && !m.vcpus[v].idle
       case Switch(c, w) =>
         !m.inHyp[c] && w < |m.vcpus| && forall d :: 0 <= d < |m.cur| && d != c ==> m.cur[d] != w
       case HypBegin(c) => !m.inHyp[c]
       case HypOp(c, _) => m.inHyp[c]
       case HypEnd(c) => m.inHyp[c]
  }

  function Operate(c: CpuState, op: Image -> Image): CpuState {
    c.(regs := c.regs.(lazyPart := op(c.regs.lazyPart)))
  }

  function Updated(m: Machine, c: nat, u: (CpuState, VcpuState)): Machine
    requires WellFormed(m) && c < |m.cpus|
  {
    m.(cpus := m.cpus[c := u.0], vcpus := m.vcpus[m.cur[c] := u.1])
  }

  function Exec(m: Machine, e: Event): Machine
    requires WellFormed(m) && Enabled(m, e)
  {
    var c := e.cpu;
    var cpu, v := m.cpus[c], m.vcpus[m.cur[c]];
    match e
    case GuestOp(_, op) =>
      var (cpu', v') := if cpu.ts then RestoreLazy(cpu, v) else (cpu, v);
      Updated(m, c, (Operate(cpu', op), v'))
    case GuestSetsTs(_) => Updated(m, c, (cpu.(ts := true), v))
    case StartsNonlazy(_, _) => Updated(m, c, (cpu, v.(nonlazyUsed := true)))
    case Switch(_, w) => Updated(m, c, SaveAndTrap(cpu, v)).(cur := m.cur[c := w])
    case HypBegin(_) => Updated(m, c, SaveAndEnable(cpu, v)).(inHyp := m.inHyp[c := true])
    case HypOp(_, op) => Updated(m, c, (Operate(cpu, op), v))
    case HypEnd(_) => Updated(m, c, (cpu.(ts := true), v)).(inHyp := m.inHyp[c := false])
  }

  function Observed(m: Machine, e: Event): seq<Observation>
    requires WellFormed(m) && Enabled(m, e)
  {
    if e.GuestOp? then
      var cpu, v := m.cpus[e.cpu], m.vcpus[m.cur[e.cpu]];
      [Observation(m.cur[e.cpu], (if cpu.ts then RestoreLazy(cpu, v).0 else cpu).regs.lazyPart)]
    else []
  }

  predicate IdealEnabled(i: Ideal, e: Event) {
    && (e.GuestOp? || e.Switch? ==> e.cpu < |i.cur|)
    && (e.GuestOp? ==> i.cur[e.cpu] < |i.files|)
  }

  function IdealExec(i: Ideal, e: Event): Ideal
    requires IdealEnabled(i, e)
  {
    match e
    case GuestOp(c, op) => i.(files := i.files[i.cur[c] := op(i.files[i.cur[c]])])
    case Switch(c, w) => i.(cur := i.cur[c := w])
    case _ => i
  }

  function IdealObserved(i: Ideal, e: Event): seq<Observation>
    requires IdealEnabled(i, e)
  {
    if e.GuestOp? then [Observation(i.cur[e.cpu], i.files[i.cur[e.cpu]])] else []
  }

  /** An idle vCPU has no FPU state; any other may use nonlazy state unless its saves would
      then move all components, and is not switched eagerly. */
  predicate VcpuOk(v: VcpuState) {
    if v.idle then !v.dirtied && !v.nonlazyUsed
    else !v.fullyEager && !(v.nonlazyUsed && v.xstateAll)
  }

  /** A CPU and its current vCPU: registers in hypervisor use are clean and usable; with TS
      clear and no hypervisor use the vCPU is dirtied. */
  predicate PairOk(c: CpuState, v: VcpuState, inHyp: bool) {
    && (inHyp ==> !v.dirtied && !c.ts)
    && (!inHyp && !c.ts ==> v.dirtied)
  }

  ghost predicate IsCurrent(cur: seq<nat>, v: nat) {
    exists c :: 0 <= c < |cur| && cur[c] == v
  }

  /** Only a current vCPU can be dirtied, and every CPU agrees with its current vCPU. */
  ghost predicate Inv(m: Machine) {
    && WellFormed(m)
    && (forall v :: 0 <= v < |m.vcpus| ==> VcpuOk(m.vcpus[v]) && (m.vcpus[v].dirtied ==> IsCurrent(m.cur, v)))
    && (forall c :: 0 <= c < |m.cur| ==> PairOk(m.cpus[c], m.vcpus[m.cur[c]], m.inHyp[c]))
  }

  /** Each private file is in the registers exactly when its vCPU is dirtied, in the save
      area otherwise. */
  ghost predicate Refines(m: Machine, i: Ideal) {
    && Inv(m)
    && i.cur == m.cur && |i.files| == |m.vcpus|
    && (forall v :: 0 <= v < |m.vcpus| && !m.vcpus[v].dirtied ==> m.vcpus[v].area.lazyPart == i.files[v])
    && (forall c :: 0 <= c < |m.cur| && m.vcpus[m.cur[c]].dirtied ==>
          m.cpus[c].regs.lazyPart == i.files[m.cur[c]])
  }

  /** The ASSERTs of the operation the event performs; hypervisor use must not trap. */
  predicate AssertsPass(m: Machine, e: Event)
    requires WellFormed(m) && Enabled(m, e)
  {
    var cpu, v := m.cpus[e.cpu], m.vcpus[m.cur[e.cpu]];
    && (e.GuestOp? && cpu.ts ==> RestoreAsserts(v))
    && (e.Switch? || e.HypBegin? ==> SaveAsserts(v))
    && (e.HypOp? ==> !cpu.ts)
  }

  lemma AssertsHold(m: Machine, e: Event)
    requires Inv(m) && Enabled(m, e)
    ensures AssertsPass(m, e)
  {
    assert m.cur[e.cpu] < |m.vcpus|;
  }

  /** No vCPU whose saves move all components starts using nonlazy state. */
  predicate Harmless(m: Machine, e: Event) {
    e.StartsNonlazy? && e.vcpu < |m.vcpus| ==> m.vcpus[e.vcpu].idle || !m.vcpus[e.vcpu].xstateAll
  }

  lemma UpdateKeepsInv(m: Machine, c: nat, u: (CpuState, VcpuState), inHyp: bool)
    requires Inv(m) && c < |m.cpus| && VcpuOk(u.1) && PairOk(u.0, u.1, inHyp)
    ensures Inv(Updated(m, c, u).(inHyp := m.inHyp[c := inHyp]))
  {
    assert m.cur[c] < |m.vcpus| && IsCurrent(m.cur, m.cur[c]);
  }

  lemma SwitchKeepsInv(m: Machine, c: nat, w: nat)
    requires Inv(m) && c < |m.cpus| && m.cpus[c].ts && !m.inHyp[c] && !m.vcpus[m.cur[c]].dirtied
    requires w < |m.vcpus| && forall d :: 0 <= d < |m.cur| && d != c ==> m.cur[d] != w
    ensures Inv(m.(cur := m.cur[c := w])) && !m.vcpus[w].dirtied
  {
    var cur' := m.cur[c := w];
    assert !IsCurrent(m.cur, w) || m.cur[c] == w;
    forall v | 0 <= v < |m.vcpus| && m.vcpus[v].dirtied ensures IsCurrent(cur', v) {
      var d :| 0 <= d < |m.cur| && m.cur[d] == v;
      assert cur'[d] == v;
    }
  }

  /** The true state of a vCPU as its CPU and save area hold it. */
  predicate Holds(c: CpuState, v: VcpuState, file: Image) {
    (if v.dirtied then c.regs.lazyPart else v.area.lazyPart) == file
  }

  lemma UpdateRefines(m: Machine, i: Ideal, c: nat, u: (CpuState, VcpuState), inHyp: bool, file: Image)
    requires Refines(m, i) && c < |m.cpus|
    requires VcpuOk(u.1) && PairOk(u.0, u.1, inHyp) && Holds(u.0, u.1, file)
    ensures Refines(Updated(m, c, u).(inHyp := m.inHyp[c := inHyp]), i.(files := i.files[m.cur[c] := file]))
  {
    UpdateKeepsInv(m, c, u, inHyp);
  }

  lemma SwitchRefines(m: Machine, i: Ideal, c: nat, w: nat)
    requires Refines(m, i) && c < |m.cpus| && m.cpus[c].ts && !m.inHyp[c] && !m.vcpus[m.cur[c]].dirtied
    requires w < |m.vcpus| && forall d :: 0 <= d < |m.cur| && d != c ==> m.cur[d] != w
    ensures Refines(m.(cur := m.cur[c := w]), i.(cur := i.cur[c := w])) && !m.vcpus[w].dirtied
  {
    SwitchKeepsInv(m, c, w);
  }

  /** One event keeps the invariant and the place of every private file, and shows the guest
      what its private file would. */
  lemma ExecRefines(m: Machine, i: Ideal, e: Event)
    requires Refines(m, i) && Enabled(m, e) && Harmless(m, e)
    ensures IdealEnabled(i, e)
    ensures Refines(Exec(m, e), IdealExec(i, e))
    ensures Observed(m, e) == IdealObserved(i, e)
    ensures e.Switch? ==> !Exec(m, e).vcpus[e.next].dirtied
  {
    var c := e.cpu;
    var cpu, v, hyp, file := m.cpus[c], m.vcpus[m.cur[c]], m.inHyp[c], i.files[m.cur[c]];
    assert VcpuOk(v) && PairOk(cpu, v, hyp) && Holds(cpu, v, file);
    assert m.inHyp[c := hyp] == m.inHyp && i.files[m.cur[c] := file] == i.files;
    match e
    case GuestOp(_, op) =>
      var (cpu', v') := if cpu.ts then RestoreLazy(cpu, v) else (cpu, v);
      UpdateRefines(m, i, c, (Operate(cpu', op), v'), hyp, op(file));
    case GuestSetsTs(_) => UpdateRefines(m, i, c, (cpu.(ts := true), v), hyp, file);
    case StartsNonlazy(_, _) => UpdateRefines(m, i, c, (cpu, v.(nonlazyUsed := true)), hyp, file);
    case Switch(_, w) =>
      UpdateRefines(m, i, c, SaveAndTrap(cpu, v), hyp, file);
      SwitchRefines(Updated(m, c, SaveAndTrap(cpu, v)), i, c, w);
    case HypBegin(_) => UpdateRefines(m, i, c, SaveAndEnable(cpu, v), true, file);
    case HypOp(_, op) => UpdateRefines(m, i, c, (Operate(cpu, op), v), hyp, file);
    case HypEnd(_) => UpdateRefines(m, i, c, (cpu.(ts := true), v), false, file);
  }

  // ------------------------------------------------------------------------------ runs

  /** The machine at the end of a schedule and everything its guests saw; or the fact that
      the scheduler could not have produced the schedule, or that an ASSERT failed. */
  datatype Outcome<S> = Illegal | AssertFailed | Reached(state: S, trace: seq<Observation>)

  function Then(o: Outcome<Machine>, e: Event): Outcome<Machine> {
    if !o.Reached? then o
    else if !WellFormed(o.state) || !Enabled(o.state, e) then Illegal
    else if !AssertsPass(o.state, e) then AssertFailed
    else Reached(Exec(o.state, e), o.trace + Observed(o.state, e))
  }

  function IdealThen(o: Outcome<Ideal>, e: Event): Outcome<Ideal> {
    if !o.Reached? then o
    else if !IdealEnabled(o.state, e) then Illegal
    else Reached(IdealExec(o.state, e), o.trace + IdealObserved(o.state, e))
  }

  function Run(m: Machine, es: seq<Event>): Outcome<Machine> {
    if es == [] then Reached(m, []) else Then(Run(m, es[..|es| - 1]), es[|es| - 1])
  }

  function IdealRun(i: Ideal, es: seq<Event>): Outcome<Ideal> {
    if es == [] then Reached(i, []) else IdealThen(IdealRun(i, es[..|es| - 1]), es[|es| - 1])
  }

  /** Nothing saved or loaded yet: TS set everywhere, no vCPU dirtied. */
  ghost predicate Booted(m: Machine) {
    && WellFormed(m)
    && (forall v :: 0 <= v < |m.vcpus| ==> !m.vcpus[v].dirtied)
    && (forall c :: 0 <= c < |m.cpus| ==> m.cpus[c].ts && !m.inHyp[c])
  }

  function IdealOf(m: Machine): Ideal {
    Ideal(m.cur, seq(|m.vcpus|, v requires 0 <= v < |m.vcpus| => m.vcpus[v].area.lazyPart))
  }

  /** The schedule fails no ASSERT, and its guests see what private register files show. */
  ghost predicate Transparent(m: Machine, es: seq<Event>) {
    var o, ideal := Run(m, es), IdealRun(IdealOf(m), es);
    !o.AssertFailed? && (o.Reached? ==> ideal.Reached? && o.trace == ideal.trace)
  }

  predicate OnlyStart(es: seq<Event>, starters: set<nat>) {
    forall k :: 0 <= k < |es| && es[k].StartsNonlazy? ==> es[k].vcpu in starters
  }

  /** Before the run a vCPU is as the invariant wants it, and if it may start using nonlazy
      state its saves do not then move all components. */
  predicate VcpuFit(v: VcpuState, mayStart: bool) {
    VcpuOk(v) && (mayStart && !v.idle ==> !v.xstateAll)
  }

  predicate Fit(m: Machine, starters: set<nat>) {
    forall v :: 0 <= v < |m.vcpus| ==> VcpuFit(m.vcpus[v], v in starters)
  }

  predicate SameFlags(v: VcpuState, w: VcpuState) {
    v.idle == w.idle && v.fullyEager == w.fullyEager && v.xstateAll == w.xstateAll
  }

  predicate FlagsKept(m: Machine, n: Machine) {
    |m.vcpus| == |n.vcpus| && forall v :: 0 <= v < |m.vcpus| ==> SameFlags(m.vcpus[v], n.vcpus[v])
  }

  /** The two runs of a schedule belong together. */
  ghost predicate Follows(m: Machine, o: Outcome<Machine>, ideal: Outcome<Ideal>) {
    && !o.AssertFailed?
    && (o.Reached? ==>
          && ideal.Reached? && o.trace == ideal.trace
          && Refines(o.state, ideal.state) && FlagsKept(m, o.state))
  }

  lemma ThenFollows(m: Machine, o: Outcome<Machine>, ideal: Outcome<Ideal>, e: Event, starters: set<nat>)
    requires Fit(m, starters) && Follows(m, o, ideal) && (e.StartsNonlazy? ==> e.vcpu in starters)
    ensures Follows(m, Then(o, e), IdealThen(ideal, e))
  {
    if o.Reached? && Enabled(o.state, e) {
      assert e.StartsNonlazy? ==> VcpuFit(m.vcpus[e.vcpu], true) && SameFlags(m.vcpus[e.vcpu], o.state.vcpus[e.vcpu]);
      AssertsHold(o.state, e);
      ExecRefines(o.state, ideal.state, e);
    }
  }

  /** Main result: over every schedule of guest operations, context switches (with
      migration between CPUs) and hypervisor FPU use, with nonlazy state in use or coming
      into use, no ASSERT fails and every guest sees what a private register file would
      show. */
  lemma {:induction false} LazyFpuIsPrivate(m: Machine, es: seq<Event>, starters: set<nat>)
    requires Booted(m) && Fit(m, starters) && OnlyStart(es, starters)
    ensures Follows(m, Run(m, es), IdealRun(IdealOf(m), es))
    ensures Transparent(m, es)
  {
    if es == [] {
      assert forall v :: 0 <= v < |m.vcpus| ==> VcpuFit(m.vcpus[v], v in starters);
    } else {
      var most, e := es[..|es| - 1], es[|es| - 1];
      LazyFpuIsPrivate(m, most, starters);
      ThenFollows(m, Run(m, most), IdealRun(IdealOf(m), most), e, starters);
    }
  }

  predicate NonlazyKept(m: Machine, n: Machine) {
    |m.cpus| == |n.cpus| && forall c :: 0 <= c < |m.cpus| ==> n.cpus[c].regs.nonlazyPart == m.cpus[c].regs.nonlazyPart
  }

  lemma ExecKeepsNonlazy(m: Machine, e: Event)
    requires WellFormed(m) && Enabled(m, e)
    ensures NonlazyKept(m, Exec(m, e))
  {
  }

  /** Over every schedule, of whatever machine, no event touches a nonlazy register. */
  lemma {:induction false} NonlazyRegistersKept(m: Machine, es: seq<Event>)
    ensures Run(m, es).Reached? ==> NonlazyKept(m, Run(m, es).state)
  {
    if es != [] {
      var most, e := es[..|es| - 1], es[|es| - 1];
      NonlazyRegistersKept(m, most);
      if Run(m, es).Reached? {
        ExecKeepsNonlazy(Run(m, most).state, e);
      }
    }
  }

  // --------------------------------------------------- the condition cannot be weakened

  lemma RunThen(m: Machine, es: seq<Event>, e: Event)
    ensures Run(m, es + [e]) == Then(Run(m, es), e)
    ensures IdealRun(IdealOf(m), es + [e]) == IdealThen(IdealRun(IdealOf(m), es), e)
  {
    assert (es + [e])[..|es|] == es;
  }

  /** One CPU with its current vCPU. */
  datatype Local = Local(cpu: CpuState, vs: VcpuState, hyp: bool)

  /** Events on a CPU that neither switch nor show anything to the guest. */
  predicate Quiet(l: Local, v: nat, e: Event) {
    match e
    case HypBegin(_) => !l.hyp && SaveAsserts(l.vs)
    case HypOp(_, _) => l.hyp && !l.cpu.ts
    case HypEnd(_) => l.hyp
    case StartsNonlazy(_, w) => !l.hyp && !l.vs.idle && w == v
    case _ => false
  }

  function QuietThen(l: Local, e: Event): Local {
    match e
    case HypBegin(_) =>
      var (cpu, vs) := SaveAndEnable(l.cpu, l.vs);
      Local(cpu, vs, true)
    case HypOp(_, op) => l.(cpu := Operate(l.cpu, op))
    case HypEnd(_) => l.(cpu := l.cpu.(ts := true), hyp := false)
    case StartsNonlazy(_, _) => l.(vs := l.vs.(nonlazyUsed := true))
    case _ => l
  }

  /** The vCPU v is current on CPU c, with nothing seen so far and its private file as it
      was at boot. */
  ghost predicate Stands(o: Outcome<Machine>, ideal: Outcome<Ideal>, files: seq<Image>, c: nat, v: nat, l: Local) {
    && o.Reached? && ideal.Reached? && o.trace == ideal.trace == []
    && WellFormed(o.state) && c < |o.state.cpus|
    && o.state.cur[c] == v && l == Local(o.state.cpus[c], o.state.vcpus[v], o.state.inHyp[c])
    && c < |ideal.state.cur| && ideal.state.cur[c] == v < |files| && ideal.state.files == files
  }

  ghost predicate StandsAfter(m: Machine, es: seq<Event>, c: nat, v: nat, l: Local) {
    Stands(Run(m, es), IdealRun(IdealOf(m), es), IdealOf(m).files, c, v, l)
  }

  lemma QuietStands(o: Outcome<Machine>, ideal: Outcome<Ideal>, files: seq<Image>, c: nat, v: nat, l: Local, e: Event)
    requires Stands(o, ideal, files, c, v, l) && e.cpu == c && Quiet(l, v, e)
    ensures Stands(Then(o, e), IdealThen(ideal, e), files, c, v, QuietThen(l, e))
  {
  }

  lemma QuietStep(m: Machine, es: seq<Event>, c: nat, v: nat, l: Local, e: Event)
    requires StandsAfter(m, es, c, v, l) && e.cpu == c && Quiet(l, v, e)
    ensures StandsAfter(m, es + [e], c, v, QuietThen(l, e))
  {
    RunThen(m, es, e);
    QuietStands(Run(m, es), IdealRun(IdealOf(m), es), IdealOf(m).files, c, v, l, e);
  }

  predicate Exposed(l: Local) {
    !l.hyp && l.cpu.ts && !l.vs.idle && l.vs.xstateAll && l.vs.nonlazyUsed && !l.vs.dirtied
  }

  /** A save that moves all components of an undirtied vCPU takes what the hypervisor left
      in the registers into the save area. */
  lemma Scribble(m: Machine, es: seq<Event>, c: nat, v: nat, l: Local, other: Image)
    returns (es': seq<Event>, l': Local)
    requires StandsAfter(m, es, c, v, l) && Exposed(l)
    ensures Exposed(l') && l'.cpu.regs.lazyPart == other && l'.vs.fullyEager == l.vs.fullyEager
    ensures l.cpu.regs.lazyPart == other ==> l'.vs.area.lazyPart == other
    ensures (forall k :: 0 <= k < |es'| && es'[k].StartsNonlazy? ==> es'[k] in es)
    ensures StandsAfter(m, es', c, v, l')
  {
    var begin, op, end := HypBegin(c), HypOp(c, (_: Image) => other), HypEnd(c);
    QuietStep(m, es, c, v, l, begin);
    var l1 := QuietThen(l, begin);
    QuietStep(m, es + [begin], c, v, l1, op);
    var l2 := QuietThen(l1, op);
    QuietStep(m, es + [begin] + [op], c, v, l2, end);
    es', l' := es + [begin] + [op] + [end], QuietThen(l2, end);
  }

  /** The guest sees a save area that is not its private file. */
  lemma Differs(m: Machine, es: seq<Event>, c: nat, v: nat, l: Local)
    requires StandsAfter(m, es, c, v, l) && Exposed(l) && !l.vs.fullyEager
    requires l.vs.area.lazyPart != IdealOf(m).files[v]
    ensures !Transparent(m, es + [GuestOp(c, (x: Image) => x)])
  {
    var use := GuestOp(c, (x: Image) => x);
    RunThen(m, es, use);
    var o, ideal := Then(Run(m, es), use), IdealThen(IdealRun(IdealOf(m), es), use);
    assert o.trace == [Observation(v, l.vs.area.lazyPart)];
    assert ideal.trace == [Observation(v, IdealOf(m).files[v])];
    assert o.trace[0] != ideal.trace[0];
  }

  lemma Leak(m: Machine, es: seq<Event>, c: nat, v: nat, l: Local) returns (es': seq<Event>)
    requires StandsAfter(m, es, c, v, l) && Exposed(l) && !l.vs.fullyEager
    ensures forall k :: 0 <= k < |es'| && es'[k].StartsNonlazy? ==> es'[k] in es
    ensures !Transparent(m, es')
  {
    var other: Image := IdealOf(m).files[v] + [0];
    var l1, l2;
    es', l1 := Scribble(m, es, c, v, l, other);
    es', l2 := Scribble(m, es', c, v, l1, other);
    Differs(m, es', c, v, l2);
    es' := es' + [GuestOp(c, (x: Image) => x)];
  }

  /** The vCPU can be brought onto a CPU, unless an ASSERT fails on the way. */
  lemma BringIn(m: Machine, v: nat) returns (es: seq<Event>, c: nat, l: Local)
    requires Booted(m) && |m.cpus| > 0 && v < |m.vcpus|
    ensures forall k :: 0 <= k < |es| ==> !es[k].StartsNonlazy?
    ensures !Transparent(m, es) ||
            (StandsAfter(m, es, c, v, l) && l.vs == m.vcpus[v] && l.cpu.ts && !l.hyp)
  {
    if d: nat :| d < |m.cur| && m.cur[d] == v {
      es, c, l := [], d, Local(m.cpus[d], m.vcpus[v], false);
    } else {
      SwitchIn(m, v);
      es, c := [Switch(0, v)], 0;
      l := Local(SaveAndTrap(m.cpus[0], m.vcpus[m.cur[0]]).0, m.vcpus[v], false);
    }
  }

  lemma SwitchIn(m: Machine, v: nat)
    requires Booted(m) && |m.cpus| > 0 && v < |m.vcpus| && forall d :: 0 <= d < |m.cur| ==> m.cur[d] != v
    ensures var cpu := SaveAndTrap(m.cpus[0], m.vcpus[m.cur[0]]).0;
            || !Transparent(m, [Switch(0, v)])
            || StandsAfter(m, [Switch(0, v)], 0, v, Local(cpu, m.vcpus[v], false))
  {
    var e := Switch(0, v);
    RunThen(m, [], e);
    assert [] + [e] == [e] && Enabled(m, e);
  }

  /** A vCPU that is not fit makes some schedule fail. */
  lemma Unfit(m: Machine, starters: set<nat>, v: nat) returns (es: seq<Event>)
    requires Booted(m) && |m.cpus| > 0 && v < |m.vcpus| && !VcpuFit(m.vcpus[v], v in starters)
    ensures OnlyStart(es, starters) && !Transparent(m, es)
  {
    var c, l;
    es, c, l := BringIn(m, v);
    if Transparent(m, es) {
      if l.vs.idle {
        RunThen(m, es, HypBegin(c));
        es := es + [HypBegin(c)];
      } else if l.vs.fullyEager {
        RunThen(m, es, GuestOp(c, (x: Image) => x));
        es := es + [GuestOp(c, (x: Image) => x)];
      } else {
        if !l.vs.nonlazyUsed {
          QuietStep(m, es, c, v, l, StartsNonlazy(c, v));
          es, l := es + [StartsNonlazy(c, v)], QuietThen(l, StartsNonlazy(c, v));
        }
        es := Leak(m, es, c, v, l);
      }
    }
  }

  /** The exact condition, for every machine with a CPU and every choice of vCPUs that may
      start using nonlazy state: all schedules are transparent if and only if no idle vCPU
      uses nonlazy state, no other is fully eager, and none both uses (or may use) nonlazy
      state and saves all components for it. */
  lemma PrivateIff(m: Machine, starters: set<nat>)
    requires Booted(m) && |m.cpus| > 0
    ensures Fit(m, starters) <==> forall es :: OnlyStart(es, starters) ==> Transparent(m, es)
  {
    if Fit(m, starters) {
      forall es | OnlyStart(es, starters) ensures Transparent(m, es) {
        LazyFpuIsPrivate(m, es, starters);
      }
    } else {
      var v :| 0 <= v < |m.vcpus| && !VcpuFit(m.vcpus[v], v in starters);
      var es := Unfit(m, starters, v);
    }
  }

  /** A save of an undirtied vCPU keeps the lazy state in its area unless it moves all
      components while the registers hold something else. */
  lemma UndirtiedSaveIff(c: CpuState, v: VcpuState)
    requires !v.dirtied
    ensures Save(c, v).1.area.lazyPart == v.area.lazyPart <==>
            !(v.nonlazyUsed && v.xstateAll) || c.regs.lazyPart == v.area.lazyPart
  {
  }

  /** A save writes back every component in use: the lazy state of a dirtied vCPU, the
      nonlazy state of one that used it.  Of the others a dirtied save leaves the nonlazy
      part of the save area alone. */
  lemma SaveCoversUse(c: CpuState, v: VcpuState)
    ensures var after := Save(c, v).1;
            && !after.dirtied && after == v.(area := after.area, dirtied := false)
            && Save(c, v).0.regs == c.regs
            && (v.dirtied ==> after.area.lazyPart == c.regs.lazyPart)
            && (v.nonlazyUsed ==> after.area.nonlazyPart == c.regs.nonlazyPart)
            && (!v.nonlazyUsed ==> after.area.nonlazyPart == v.area.nonlazyPart)
            && (!v.dirtied && !v.nonlazyUsed ==> Save(c, v) == (c, v))
  {
  }
}
