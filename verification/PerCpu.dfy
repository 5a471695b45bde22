/** Per-CPU data areas: the page order they are allocated with, and their allocation and
    deferred freeing over CPU hot-plug. */
module PerCpu {
  import opened BitScan
  import opened Common

  const PAGE_SHIFT_SIZE: nat := 4096

  // ------------------------------------------------------------------------ page orders

  /** Number of binary digits. */
  function Digits(n: nat): nat {
    if n == 0 then 0 else 1 + Digits(n / 2)
  }

  /** The order for a size, with size - 1 computed in 64 bits. */
  function Order(size: nat): nat {
    Digits((size + U64 - 1) % U64 / PAGE_SHIFT_SIZE)
  }

  lemma {:induction false} DigitsExact(n: nat, k: nat)
    ensures k >= Digits(n) <==> n < Pow2(k)
    decreases k
  {
    if k > 0 {
      DigitsExact(n / 2, k - 1);
    }
  }

  /** Main result: an order is large enough exactly when it is at least Order(size). */
  lemma OrderIsLeast(size: nat, k: nat)
    requires 1 <= size < U64
    ensures k >= Order(size) <==> PAGE_SHIFT_SIZE * Pow2(k) >= size
  {
    assert (size + U64 - 1) % U64 == size - 1;
    DigitsExact((size - 1) / PAGE_SHIFT_SIZE, k);
  }

  method GetOrderFromBytes(size: nat) returns (order: nat)
    requires size < U64
    ensures order == Order(size)
    ensures size >= 1 ==> PAGE_SHIFT_SIZE * Pow2(order) >= size
    ensures size >= 1 && order > 0 ==> PAGE_SHIFT_SIZE * Pow2(order - 1) < size
  {
    var s: nat := (size + U64 - 1) % U64 / PAGE_SHIFT_SIZE;
    order := 0;
    while s != 0
      invariant Order(size) == order + Digits(s)
    {
      s := s / 2;
      order := order + 1;
    }
    if size >= 1 {
      OrderIsLeast(size, order);
      if order > 0 {
        OrderIsLeast(size, order - 1);
      }
    }
  }

  // -------------------------------------------------------------- areas, on values

  /** The address of the per-CPU template, its size, the offset that marks "no area" (in the
      source 2^63 - start, cut to 32 bits), and whether offline CPUs are parked. */
  datatype Config = Config(start: nat, size: nat, marker: nat, park: bool)

  /** Conversion to a 32-bit unsigned. */
  function Cut(x: nat): nat {
    if x < U32 then x else x % U32
  }

  /** Offsets per CPU, CPUs whose free is queued, allocated blocks with their orders, and
      whether anything was freed that was not allocated with that order. */
  datatype State = State(offsets: seq<nat>, pending: set<nat>, heap: map<nat, nat>, badFree: bool)

  predicate HasArea(c: Config, s: State, cpu: nat) requires cpu < |s.offsets| {
    s.offsets[cpu] != c.marker
  }

  function InitArea(c: Config, s: State, cpu: nat, block: Option<nat>): (State, int)
    requires cpu < |s.offsets| && (block.Some? ==> block.value >= c.start)
  {
    if HasArea(c, s, cpu) then (s, 0)
    else match block
      case None => (s, -1)
      case Some(p) =>
        (s.(offsets := s.offsets[cpu := Cut(p - c.start)], heap := s.heap[p := Order(c.size)]), 0)
  }

  function FreeQueued(s: State, cpu: nat): State {
    s.(pending := s.pending + {cpu})
  }

  function FreeNow(c: Config, s: State, cpu: nat): State
    requires cpu < |s.offsets|
  {
    var p := c.start + s.offsets[cpu];
    var matches := p in s.heap && s.heap[p] == Order(c.size);
    s.(offsets := s.offsets[cpu := c.marker],
       pending := s.pending - {cpu},
       heap := s.heap - {p},
       badFree := s.badFree || !matches)
  }

  datatype Action = UpPrepare | UpCanceled | Dead | Remove | Other

  function Notify(c: Config, s: State, a: Action, cpu: nat, block: Option<nat>): (State, int)
    requires cpu < |s.offsets| && (block.Some? ==> block.value >= c.start)
  {
    match a
    case UpPrepare => InitArea(c, s, cpu, block)
    case UpCanceled => (if c.park then s else FreeQueued(s, cpu), 0)
    case Dead => (if c.park then s else FreeQueued(s, cpu), 0)
    case Remove => (if c.park then FreeQueued(s, cpu) else s, 0)
    case Other => (s, 0)
  }

  /** Success is 0; an error number is or-ed into 0x8000. */
  function NotifierCode(rc: int): int requires rc == 0 || rc == -1 {
    if rc == 0 then 0 else 0x8001
  }

  class Areas {
    const cfg: Config
    const offsets: array<nat>
    var pending: set<nat>
    var heap: map<nat, nat>
    var badFree: bool

    ghost function View(): State
      reads this, offsets
    {
      State(offsets[..], pending, heap, badFree)
    }

    /** CPU 0 uses the template itself; every other CPU starts without an area. */
    constructor (cfg: Config, cpus: nat)
      requires cpus >= 1
      ensures this.cfg == cfg && fresh(offsets) && Booted(cfg, View()) && |View().offsets| == cpus
    {
      this.cfg := cfg;
      offsets := new nat[cpus](_ => 0);
      pending, heap, badFree := {}, map[], false;
      new;
      for cpu := 1 to cpus
        modifies offsets
        invariant offsets[0] == 0
        invariant forall k :: 1 <= k < cpu ==> offsets[k] == cfg.marker
      {
        offsets[cpu] := cfg.marker;
      }
    }

    /** block is what the page allocator returns, if it is asked. */
    method InitPercpuArea(cpu: nat, block: Option<nat>) returns (rc: int)
      requires cpu < offsets.Length && cfg.size < U64 && (block.Some? ==> block.value >= cfg.start)
      modifies this`heap, offsets
      ensures (View(), rc) == InitArea(cfg, old(View()), cpu, block)
      ensures rc == 0 <==> old(offsets[cpu]) != cfg.marker || block.Some?
      ensures rc == 0 || rc == -1
    {
      if offsets[cpu] != cfg.marker {
        return 0;
      }
      var lim := GetOrderFromBytes(cfg.size);
      if block.None? {
        return -1;
      }
      heap := heap[block.value := lim];
      offsets[cpu] := Cut(block.value - cfg.start);
      return 0;
    }

    method FreePercpuArea(cpu: nat)
      modifies this`pending
      ensures View() == FreeQueued(old(View()), cpu)
    {
      pending := pending + {cpu};
    }

    /** The queued callback. */
    method FreeCallback(cpu: nat)
      requires cpu < offsets.Length && cfg.size < U64
      modifies this, offsets
      ensures View() == FreeNow(cfg, old(View()), cpu)
    {
      var p := cfg.start + offsets[cpu];
      var lim := GetOrderFromBytes(cfg.size);
      if !(p in heap && heap[p] == lim) {
        badFree := true;
      }
      heap := heap - {p};
      pending := pending - {cpu};
      offsets[cpu] := cfg.marker;
    }

    method CpuPercpuCallback(action: Action, cpu: nat, block: Option<nat>) returns (code: int)
      requires cpu < offsets.Length && cfg.size < U64 && (block.Some? ==> block.value >= cfg.start)
      modifies this, offsets
      ensures View() == Notify(cfg, old(View()), action, cpu, block).0
      ensures code == NotifierCode(Notify(cfg, old(View()), action, cpu, block).1)
      ensures code == 0 <==> !(action.UpPrepare? && old(offsets[cpu]) == cfg.marker && block.None?)
      ensures code == 0 || code == 0x8001
    {
      var rc := 0;
      match action {
        case UpPrepare =>
          rc := InitPercpuArea(cpu, block);
        case UpCanceled | Dead =>
          if !cfg.park {
            FreePercpuArea(cpu);
          }
        case Remove =>
          if cfg.park {
            FreePercpuArea(cpu);
          }
        case Other =>
      }
      return if rc == 0 then 0 else 0x8000 + -rc;
    }
  }

  // ------------------------------------------------------------------- hot-plug runs

  predicate Booted(c: Config, s: State) {
    && |s.offsets| >= 1 && s.pending == {} && s.heap == map[] && !s.badFree
    && forall k :: 1 <= k < |s.offsets| ==> !HasArea(c, s, k)
  }

  /** Where a CPU stands in the hot-plug protocol. */
  datatype Phase = Absent | Prepared | Down

  datatype Event =
    | Hotplug(action: Action, cpu: nat, block: Option<nat>)
    | GracePeriodEnds(cpu: nat)

  datatype Host = Host(s: State, phase: seq<Phase>)

  /** Blocks the allocator can return: not in use, above the template by less than INT_MAX
      as the source assumes, and not at the marker's own offset. */
  predicate Allocatable(c: Config, s: State, p: nat) {
    p !in s.heap && c.start < p < c.start + INT_MAX && p - c.start != c.marker
  }

  /** The protocol for CPUs other than 0, with each deferred free completed before the CPU's
      next event. */
  predicate Legal(c: Config, h: Host, e: Event) {
    && 0 < e.cpu < |h.s.offsets| && |h.phase| == |h.s.offsets|
    && match e
       case GracePeriodEnds(cpu) => cpu in h.s.pending
       case Hotplug(action, cpu, block) =>
         && cpu !in h.s.pending
         && (block.Some? ==> Allocatable(c, h.s, block.value))
         && match action
            case UpPrepare => h.phase[cpu] != Prepared
            case UpCanceled => h.phase[cpu] == Prepared
            case Dead => h.phase[cpu] == Prepared
            case Remove => h.phase[cpu] == Down
            case Other => true
  }

  function Exec(c: Config, h: Host, e: Event): Host
    requires Legal(c, h, e)
  {
    match e
    case GracePeriodEnds(cpu) => h.(s := FreeNow(c, h.s, cpu))
    case Hotplug(action, cpu, block) =>
      var (s', rc) := Notify(c, h.s, action, cpu, block);
      var phase' :=
        match action
        case UpPrepare => if rc == 0 then Prepared else h.phase[cpu]
        case UpCanceled => Down
        case Dead => Down
        case Remove => Absent
        case Other => h.phase[cpu];
      Host(s', h.phase[cpu := phase'])
  }

  function Run(c: Config, h: Host, es: seq<Event>): Option<Host> {
    if es == [] then Some(h)
    else match Run(c, h, es[..|es| - 1])
      case None => None
      case Some(g) => if Legal(c, g, es[|es| - 1]) then Some(Exec(c, g, es[|es| - 1])) else None
  }

  /** The block of a CPU that has an area. */
  function BlockOf(c: Config, s: State, cpu: nat): nat requires cpu < |s.offsets| {
    c.start + s.offsets[cpu]
  }

  /** The CPU owns the block p: it has an area, and it lies there. */
  predicate Owns(c: Config, s: State, cpu: nat, p: nat) {
    1 <= cpu < |s.offsets| && HasArea(c, s, cpu) && BlockOf(c, s, cpu) == p
  }

  ghost predicate Owned(c: Config, s: State, p: nat) {
    exists k: nat :: Owns(c, s, k, p)
  }

  /** Allocated blocks correspond one-to-one to CPUs with areas, each block has the order a
      later free will use, and nothing else was ever freed. */
  ghost predicate OneToOne(c: Config, s: State) {
    && !s.badFree
    && (forall p: nat :: p in s.heap <==> Owned(c, s, p))
    && (forall p: nat :: p in s.heap ==> s.heap[p] == Order(c.size))
    && (forall p, j: nat, k: nat :: Owns(c, s, j, p) && Owns(c, s, k, p) ==> j == k)
  }

  /** Whether a CPU that has no free queued has an area. */
  predicate AreaExpected(c: Config, phase: Phase) {
    phase == Prepared || (c.park && phase == Down)
  }

  ghost predicate Inv(c: Config, h: Host) {
    && OneToOne(c, h.s) && |h.phase| == |h.s.offsets|
    && (forall k :: 1 <= k < |h.s.offsets| ==>
          (HasArea(c, h.s, k) <==> AreaExpected(c, h.phase[k]) || k in h.s.pending))
    && (forall k :: k in h.s.pending && 1 <= k < |h.phase| ==> !AreaExpected(c, h.phase[k]))
  }

  lemma AllocateKeepsOneToOne(c: Config, s: State, cpu: nat, p: nat)
    requires OneToOne(c, s) && 1 <= cpu < |s.offsets| && !HasArea(c, s, cpu) && Allocatable(c, s, p)
    ensures OneToOne(c, InitArea(c, s, cpu, Some(p)).0)
    ensures HasArea(c, InitArea(c, s, cpu, Some(p)).0, cpu)
  {
    var s' := InitArea(c, s, cpu, Some(p)).0;
    assert forall k: nat, q: nat :: Owns(c, s', k, q) <==> (k == cpu && q == p) || Owns(c, s, k, q);
    assert Owns(c, s', cpu, p) && !Owned(c, s, p);
    forall q: nat ensures q in s'.heap <==> Owned(c, s', q) {
      if Owned(c, s, q) {
        var k: nat :| Owns(c, s, k, q);
        assert Owns(c, s', k, q);
      }
    }
  }

  lemma FreeKeepsOneToOne(c: Config, s: State, cpu: nat)
    requires OneToOne(c, s) && 1 <= cpu < |s.offsets| && HasArea(c, s, cpu)
    ensures OneToOne(c, FreeNow(c, s, cpu))
  {
    var s', p := FreeNow(c, s, cpu), BlockOf(c, s, cpu);
    assert Owns(c, s, cpu, p) && Owned(c, s, p);
    assert forall k: nat, q: nat :: Owns(c, s', k, q) <==> k != cpu && Owns(c, s, k, q);
    forall q: nat ensures q in s'.heap <==> Owned(c, s', q) {
      if q in s.heap && q != p {
        var k: nat :| Owns(c, s, k, q);
        assert Owns(c, s', k, q);
      }
    }
  }

  lemma QueueKeepsOneToOne(c: Config, s: State, cpu: nat)
    requires OneToOne(c, s)
    ensures OneToOne(c, FreeQueued(s, cpu))
  {
    var s' := FreeQueued(s, cpu);
    assert forall k: nat, q: nat :: Owns(c, s', k, q) <==> Owns(c, s, k, q);
    forall q: nat ensures Owned(c, s', q) <==> Owned(c, s, q) {
      if k: nat :| Owns(c, s, k, q) {
        assert Owns(c, s', k, q);
      }
    }
  }

  /** In a consistent state a deferred free is a good one exactly when the CPU has an area. */
  lemma FreeIsGoodIff(c: Config, s: State, cpu: nat)
    requires OneToOne(c, s) && 1 <= cpu < |s.offsets|
    ensures !FreeNow(c, s, cpu).badFree <==> HasArea(c, s, cpu)
  {
    var p := BlockOf(c, s, cpu);
    assert HasArea(c, s, cpu) ==> Owns(c, s, cpu, p);
    if Owned(c, s, p) {
      var k: nat :| Owns(c, s, k, p);
      assert s.offsets[k] == s.offsets[cpu];
    }
  }

  lemma ExecKeepsInv(c: Config, h: Host, e: Event)
    requires Inv(c, h) && Legal(c, h, e)
    ensures Inv(c, Exec(c, h, e))
  {
    match e
    case GracePeriodEnds(cpu) => FreeKeepsOneToOne(c, h.s, cpu);
    case Hotplug(action, cpu, block) =>
      QueueKeepsOneToOne(c, h.s, cpu);
      if action.UpPrepare? && !HasArea(c, h.s, cpu) && block.Some? {
        AllocateKeepsOneToOne(c, h.s, cpu, block.value);
      }
  }

  /** Main result: over every legal hot-plug sequence, with allocations failing at will,
      blocks and areas correspond one-to-one and each block is freed once, with the order it
      was allocated with. */
  lemma {:induction false} HotplugKeepsInv(c: Config, h: Host, es: seq<Event>)
    requires Booted(c, h.s) && |h.phase| == |h.s.offsets|
    requires forall k :: 0 <= k < |h.phase| ==> h.phase[k] == Absent
    requires Run(c, h, es).Some?
    ensures Inv(c, Run(c, h, es).value)
  {
    if es != [] {
      HotplugKeepsInv(c, h, es[..|es| - 1]);
      ExecKeepsInv(c, Run(c, h, es[..|es| - 1]).value, es[|es| - 1]);
    }
  }
}
