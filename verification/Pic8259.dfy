/** The pair of 8259A interrupt controllers and the driver that caches their mask.  The
    chips follow the Intel 8259A datasheet: ICW1 to ICW4, OCW1 and OCW3. */
module Pic8259 {
  import opened BitScan

  /** A bit pattern is the set of its one bits, so bitwise or, and, and-not are union,
      intersection and difference. */
  type Bits = set<nat>

  type Line = i: nat | i < 16

  // The bytes the driver writes.
  const ALL_ONES: Bits := {0, 1, 2, 3, 4, 5, 6, 7}  // 0xff
  const ALL_ZEROS: Bits := {}  // 0x00
  const ICW1: Bits := {0, 4}  // 0x11
  const MASTER_ICW3: Bits := {2}  // 0x04
  const SLAVE_ICW3: Bits := {1}  // 0x02
  const ICW4_AUTO_EOI: Bits := {0, 1}  // 0x03
  const ICW4_NORMAL_EOI: Bits := {0}  // 0x01
  const OCW3_READ_ISR: Bits := {0, 1, 3}  // 0x0b
  const OCW3_READ_IRR: Bits := {1, 3}  // 0x0a

  /** The byte outb writes for a number. */
  function Byte(n: nat): (b: Bits)
    ensures forall k: nat :: k in b <==> k < 8 && n / Pow2(k) % 2 == 1
  {
    set k: nat | k < 8 && n / Pow2(k) % 2 == 1
  }

  datatype Stage = Ready | WantIcw2 | WantIcw3 | WantIcw4

  /** One chip: its initialisation sequence, mask register, request and service registers,
      and which of the latter two a read returns. */
  datatype Chip = Chip(
    stage: Stage, icw1: Bits, icw2: Bits, icw3: Bits, icw4: Bits,
    imr: Bits, irr: Bits, isr: Bits, readIsr: bool)

  /** A write with A0 = 0: ICW1 restarts initialisation, clears the mask register and selects
      the IRR; OCW3 selects a register; an OCW2 changes nothing modelled here. */
  function Command(c: Chip, v: Bits): Chip {
    if 4 in v then c.(stage := WantIcw2, icw1 := v, imr := ALL_ZEROS, readIsr := false)
    else if 3 in v && 1 in v then c.(readIsr := 0 in v)
    else c
  }

  /** A write with A0 = 1: the next initialisation word, or OCW1, the mask register. */
  function Data(c: Chip, v: Bits): Chip {
    var last := if 0 in c.icw1 then WantIcw4 else Ready;
    match c.stage
    case Ready => c.(imr := v)
    case WantIcw2 => c.(icw2 := v, stage := if 1 in c.icw1 then last else WantIcw3)
    case WantIcw3 => c.(icw3 := v, stage := last)
    case WantIcw4 => c.(icw4 := v, stage := Ready)
  }

  function ReadCommand(c: Chip): Bits {
    if c.readIsr then c.isr else c.irr
  }

  datatype Port = MasterCommand | MasterData | SlaveCommand | SlaveData

  /** The driver's cached mask and both chips. */
  datatype Pic = Pic(cached: Bits, master: Chip, slave: Chip)

  function Out(p: Pic, v: Bits, port: Port): Pic {
    match port
    case MasterCommand => p.(master := Command(p.master, v))
    case MasterData => p.(master := Data(p.master, v))
    case SlaveCommand => p.(slave := Command(p.slave, v))
    case SlaveData => p.(slave := Data(p.slave, v))
  }

  // The two bytes of the cached mask.
  function Low(m: Bits): Bits { set i | i in m && i < 8 }

  function High(m: Bits): (h: Bits)
    ensures forall i: nat :: i in h <==> i < 8 && i + 8 in m
  {
    set i | i in m && 8 <= i < 16 :: i - 8
  }

  /** irq & 8 */
  predicate OnSlave(irq: Line) {
    irq / 8 % 2 == 1
  }

  /** The bit of a chip register that belongs to a line. */
  predicate LineBit(master: Bits, slave: Bits, irq: Line) {
    if irq < 8 then irq in master else irq - 8 in slave
  }

  // ------------------------------------------------------------ the operations on values

  function WriteHalf(p: Pic, irq: Line): Pic {
    if OnSlave(irq) then Out(p, High(p.cached), SlaveData) else Out(p, Low(p.cached), MasterData)
  }

  function Disabled(p: Pic, irq: Line): Pic {
    WriteHalf(p.(cached := p.cached + {irq}), irq)
  }

  function Enabled(p: Pic, irq: Line): Pic {
    WriteHalf(p.(cached := p.cached - {irq}), irq)
  }

  function Initialised(c: Chip, icw2: Bits, icw3: Bits, icw4: Bits, imr: Bits): Chip {
    Chip(Ready, ICW1, icw2, icw3, icw4, imr, c.irr, c.isr, false)
  }

  /** Both chips fully initialised, IRR selected, masks restored from the cache. */
  function Reset(p: Pic, first: nat, autoEoi: bool): Pic {
    Pic(p.cached,
        Initialised(p.master, Byte(first), MASTER_ICW3,
                    if autoEoi then ICW4_AUTO_EOI else ICW4_NORMAL_EOI, Low(p.cached)),
        Initialised(p.slave, Byte(first + 8), SLAVE_ICW3, ICW4_NORMAL_EOI, High(p.cached)))
  }

  class Driver {
    var cachedIrqMask: Bits
    var master: Chip
    var slave: Chip

    ghost function View(): Pic
      reads this
    {
      Pic(cachedIrqMask, master, slave)
    }

    /** Every line masked in the cache, the chips in any state. */
    constructor (master: Chip, slave: Chip)
      ensures View() == Pic(AllLines(), master, slave)
    {
      this.cachedIrqMask, this.master, this.slave := AllLines(), master, slave;
    }

    method Outb(v: Bits, port: Port)
      modifies this`master, this`slave
      ensures View() == Out(old(View()), v, port)
    {
      match port
      case MasterCommand => master := Command(master, v);
      case MasterData => master := Data(master, v);
      case SlaveCommand => slave := Command(slave, v);
      case SlaveData => slave := Data(slave, v);
    }

    method DisableIrq(irq: Line)
      modifies this
      ensures View() == Disabled(old(View()), irq)
    {
      cachedIrqMask := cachedIrqMask + {irq};
      if OnSlave(irq) {
        Outb(High(cachedIrqMask), SlaveData);
      } else {
        Outb(Low(cachedIrqMask), MasterData);
      }
    }

    method EnableIrq(irq: Line)
      modifies this
      ensures View() == Enabled(old(View()), irq)
    {
      cachedIrqMask := cachedIrqMask - {irq};
      if OnSlave(irq) {
        Outb(High(cachedIrqMask), SlaveData);
      } else {
        Outb(Low(cachedIrqMask), MasterData);
      }
    }

    method Mask()
      modifies this`master, this`slave
      ensures View() == Pic(old(cachedIrqMask), Data(old(master), ALL_ONES), Data(old(slave), ALL_ONES))
    {
      Outb(ALL_ONES, SlaveData);
      Outb(ALL_ONES, MasterData);
    }

    method Unmask()
      modifies this`master, this`slave
      ensures View() == Pic(old(cachedIrqMask), Data(old(master), Low(old(cachedIrqMask))),
                            Data(old(slave), High(old(cachedIrqMask))))
    {
      Outb(High(cachedIrqMask), SlaveData);
      Outb(Low(cachedIrqMask), MasterData);
    }

    /** From any chip state, even in the middle of an initialisation sequence. */
    method Init(first: nat, autoEoi: bool)
      modifies this`master, this`slave
      ensures View() == Reset(old(View()), first, autoEoi)
    {
      Outb(ALL_ONES, MasterData);
      Outb(ALL_ONES, SlaveData);
      IcwsToMaster(Byte(first), if autoEoi then ICW4_AUTO_EOI else ICW4_NORMAL_EOI);
      IcwsToSlave(Byte(first + 8));
      Outb(Low(cachedIrqMask), MasterData);
      Outb(High(cachedIrqMask), SlaveData);
    }

    method IcwsToMaster(icw2: Bits, icw4: Bits)
      modifies this`master, this`slave
      ensures slave == old(slave) && master == Initialised(old(master), icw2, MASTER_ICW3, icw4, ALL_ZEROS)
    {
      Outb(ICW1, MasterCommand);
      Outb(icw2, MasterData);
      Outb(MASTER_ICW3, MasterData);
      Outb(icw4, MasterData);
    }

    method IcwsToSlave(icw2: Bits)
      modifies this`master, this`slave
      ensures master == old(master) && slave == Initialised(old(slave), icw2, SLAVE_ICW3, ICW4_NORMAL_EOI, ALL_ZEROS)
    {
      Outb(ICW1, SlaveCommand);
      Outb(icw2, SlaveData);
      Outb(SLAVE_ICW3, SlaveData);
      Outb(ICW4_NORMAL_EOI, SlaveData);
    }

    /** Nonzero exactly when the line's bit is set in the selected register. */
    method IrqPending(irq: Line) returns (ret: Bits)
      ensures ret != {} <==> LineBit(ReadCommand(master), ReadCommand(slave), irq)
    {
      var mask: Bits := {irq};
      if irq < 8 {
        ret := ReadCommand(master) * mask;
      } else {
        ret := ReadCommand(slave) * High(mask);
        assert High(mask) == {irq - 8};
      }
      assert irq < 8 && irq in ReadCommand(master) ==> irq in ret;
      assert irq >= 8 && irq - 8 in ReadCommand(slave) ==> irq - 8 in ret;
    }

    /** Nonzero exactly when the line is in service; leaves the IRR selected. */
    method IrqReal(irq: Line) returns (value: Bits)
      modifies this`master, this`slave
      ensures value != {} <==> LineBit(old(master.isr), old(slave.isr), irq)
      ensures View() == Queried(old(View()), irq)
    {
      var irqmask: Bits := {irq};
      if irq < 8 {
        Outb(OCW3_READ_ISR, MasterCommand);
        value := ReadCommand(master) * irqmask;
        Outb(OCW3_READ_IRR, MasterCommand);
        assert irq in master.isr ==> irq in value;
        return;
      }
      Outb(OCW3_READ_ISR, SlaveCommand);
      value := ReadCommand(slave) * High(irqmask);
      Outb(OCW3_READ_IRR, SlaveCommand);
      assert High(irqmask) == {irq - 8};
      assert irq - 8 in slave.isr ==> irq - 8 in value;
    }
  }

  function AllLines(): Bits {
    {0, 1, 2, 3, 4, 5, 6, 7, 8, 9, 10, 11, 12, 13, 14, 15}
  }

  /** After a query of the in-service register the queried chip has the IRR selected. */
  function Queried(p: Pic, irq: Line): Pic {
    if irq < 8 then p.(master := p.master.(readIsr := false)) else p.(slave := p.slave.(readIsr := false))
  }

  /** The number that the low n bits of a byte stand for. */
  function ValueUpTo(b: Bits, n: nat): nat {
    if n == 0 then 0 else ValueUpTo(b, n - 1) + (if n - 1 in b then Pow2(n - 1) else 0)
  }

  function Value(b: Bits): nat {
    ValueUpTo(b, 8)
  }

  lemma NextDigit(n: nat, p: nat)
    requires p > 0
    ensures n % (2 * p) == n % p + (if n / p % 2 == 1 then p else 0)
  {
    var q := n / p;
    var d := if q % 2 == 1 then p else 0;
    OddTimes(q / 2, p);
    TimesDouble(q / 2, p);
    QuotientUnique(n, 2 * p, q / 2, n % p + d);
  }

  lemma {:induction false} ByteValueUpTo(n: nat, k: nat)
    requires k <= 8
    ensures ValueUpTo(Byte(n), k) == n % Pow2(k)
  {
    if k > 0 {
      ByteValueUpTo(n, k - 1);
      NextDigit(n, Pow2(k - 1));
    }
  }

  /** A byte written for a number reads as the number modulo 256. */
  lemma ByteValue(n: nat)
    ensures Value(Byte(n)) == n % 0x100
  {
    ByteValueUpTo(n, 8);
    Pow2Sum(4, 4);
    assert Pow2(4) == 16;
  }

  /** What init leaves in the initialisation words: the vector bases 8 apart, the
      cascade on line 2 of the master, both in 8086 mode, and automatic end of interrupt on
      the master exactly when asked for, on the slave never. */
  lemma InitWords(p: Pic, first: nat, autoEoi: bool)
    ensures var q := Reset(p, first, autoEoi);
            && q.master.icw1 == {0, 4} && q.slave.icw1 == {0, 4}
            && Value(q.master.icw2) == first % 0x100 && Value(q.slave.icw2) == (first + 8) % 0x100
            && (forall line: nat :: line in q.master.icw3 <==> line == 2)
            && q.slave.icw3 == {1}
            && 0 in q.master.icw4 && 0 in q.slave.icw4
            && (1 in q.master.icw4 <==> autoEoi) && 1 !in q.slave.icw4
            && q.master.icw4 <= {0, 1} && q.slave.icw4 <= {0, 1}
            && q.master.irr == p.master.irr && q.master.isr == p.master.isr
            && q.slave.irr == p.slave.irr && q.slave.isr == p.slave.isr
  {
    ByteValue(first);
    ByteValue(first + 8);
  }

  predicate SameWords(c: Chip, d: Chip) {
    c.icw1 == d.icw1 && c.icw2 == d.icw2 && c.icw3 == d.icw3 && c.icw4 == d.icw4
  }

  lemma ExecKeepsWords(p: Pic, op: Op)
    requires p.master.stage.Ready? && p.slave.stage.Ready? && !op.Init?
    ensures SameWords(Exec(p, op).master, p.master) && SameWords(Exec(p, op).slave, p.slave)
  {
  }

  predicate InitialisedFor(p: Pic, first: nat, autoEoi: bool) {
    && p.master.icw2 == Byte(first) && p.slave.icw2 == Byte(first + 8)
    && p.master.icw3 == {2} && p.slave.icw3 == {1}
    && (1 in p.master.icw4 <==> autoEoi) && 1 !in p.slave.icw4
  }

  /** No operation but init changes an initialisation word: over every run they are those of
      the last init. */
  lemma {:induction false} WordsStay(any: Pic, first: nat, autoEoi: bool, ops: seq<Op>)
    ensures var last := LastInit(ops, (first, autoEoi));
            InitialisedFor(Run(Reset(any, first, autoEoi), ops), last.0, last.1)
  {
    if ops != [] {
      var most, last := ops[..|ops| - 1], ops[|ops| - 1];
      var before := Run(Reset(any, first, autoEoi), most);
      WordsStay(any, first, autoEoi, most);
      if !last.Init? {
        RunAgrees(any, first, autoEoi, most);
        ExecKeepsWords(before, last);
      }
    }
  }

  function LastInit(ops: seq<Op>, initially: (nat, bool)): (nat, bool) {
    if ops == [] then initially
    else match ops[|ops| - 1]
      case Init(first, autoEoi) => (first, autoEoi)
      case _ => LastInit(ops[..|ops| - 1], initially)
  }

  // ------------------------------------------------------------------------------ runs

  datatype Op =
    | Enable(irq: Line) | Disable(irq: Line)
    | MaskAll | UnmaskAll | Init(first: nat, autoEoi: bool)
    | Real(irq: Line) | Pending(irq: Line)
    | Environment(masterIrr: Bits, masterIsr: Bits, slaveIrr: Bits, slaveIsr: Bits)

  function Exec(p: Pic, op: Op): Pic {
    match op
    case Enable(irq) => Enabled(p, irq)
    case Disable(irq) => Disabled(p, irq)
    case MaskAll => Pic(p.cached, Data(p.master, ALL_ONES), Data(p.slave, ALL_ONES))
    case UnmaskAll => Pic(p.cached, Data(p.master, Low(p.cached)), Data(p.slave, High(p.cached)))
    case Init(first, autoEoi) => Reset(p, first, autoEoi)
    case Real(irq) => Queried(p, irq)
    case Pending(_) => p
    case Environment(mirr, misr, sirr, sisr) =>
      p.(master := p.master.(irr := mirr, isr := misr), slave := p.slave.(irr := sirr, isr := sisr))
  }

  function Run(p: Pic, ops: seq<Op>): Pic {
    if ops == [] then p else Exec(Run(p, ops[..|ops| - 1]), ops[|ops| - 1])
  }

  /** The line's latest enable or disable decides; before any, the initial cache does. */
  function MaskedByCalls(ops: seq<Op>, initially: bool, irq: Line): bool {
    if ops == [] then initially
    else
      var earlier := MaskedByCalls(ops[..|ops| - 1], initially, irq);
      match ops[|ops| - 1]
      case Enable(i) => i != irq && earlier
      case Disable(i) => i == irq || earlier
      case _ => earlier
  }

  /** mask_8259A was called and nothing has written this half's mask since. */
  function MaskedSince(ops: seq<Op>, onSlave: bool): bool {
    if ops == [] then false
    else
      var earlier := MaskedSince(ops[..|ops| - 1], onSlave);
      match ops[|ops| - 1]
      case Enable(i) => OnSlave(i) != onSlave && earlier
      case Disable(i) => OnSlave(i) != onSlave && earlier
      case MaskAll => true
      case UnmaskAll => false
      case Init(_, _) => false
      case _ => earlier
  }

  predicate Agrees(p: Pic, ops: seq<Op>) {
    && p.master.stage.Ready? && p.slave.stage.Ready?
    && !p.master.readIsr && !p.slave.readIsr
    && p.master.imr == (if MaskedSince(ops, false) then ALL_ONES else Low(p.cached))
    && p.slave.imr == (if MaskedSince(ops, true) then ALL_ONES else High(p.cached))
  }

  lemma OtherHalfUntouched(m: Bits, irq: Line)
    ensures OnSlave(irq) <==> irq >= 8
    ensures OnSlave(irq) ==> Low(m + {irq}) == Low(m - {irq}) == Low(m)
    ensures !OnSlave(irq) ==> High(m + {irq}) == High(m - {irq}) == High(m)
  {
  }

  lemma ExecAgrees(p: Pic, before: seq<Op>, op: Op)
    requires Agrees(p, before)
    ensures Agrees(Exec(p, op), before + [op])
  {
    assert (before + [op])[..|before|] == before;
    match op
    case Enable(i) => OtherHalfUntouched(p.cached, i);
    case Disable(i) => OtherHalfUntouched(p.cached, i);
    case _ =>
  }

  /** Main result: after an initialisation from any state and any operations, each mask
      register holds its byte of the cache, or 0xff since the last mask_8259A, and both
      chips are ready with the IRR selected. */
  lemma {:induction false} RunAgrees(any: Pic, first: nat, autoEoi: bool, ops: seq<Op>)
    ensures Agrees(Run(Reset(any, first, autoEoi), ops), ops)
  {
    if ops != [] {
      RunAgrees(any, first, autoEoi, ops[..|ops| - 1]);
      ExecAgrees(Run(Reset(any, first, autoEoi), ops[..|ops| - 1]), ops[..|ops| - 1], ops[|ops| - 1]);
      assert ops[..|ops| - 1] + [ops[|ops| - 1]] == ops;
    }
  }

  /** The cache is the fold of the enable and disable calls. */
  lemma {:induction false} CacheIsFold(p: Pic, ops: seq<Op>, irq: Line)
    ensures irq in Run(p, ops).cached <==> MaskedByCalls(ops, irq in p.cached, irq)
  {
    if ops != [] {
      CacheIsFold(p, ops[..|ops| - 1], irq);
    }
  }

  predicate MaskedInHardware(p: Pic, irq: Line) {
    LineBit(p.master.imr, p.slave.imr, irq)
  }

  /** A line is masked in hardware exactly when its latest call disabled it, or its half is
      still masked as a whole; so what the cache masks the hardware masks, and right after
      unmask_8259A or init the two sets of enabled lines are equal. */
  lemma HardwareMask(any: Pic, first: nat, autoEoi: bool, ops: seq<Op>, irq: Line)
    ensures var p := Run(Reset(any, first, autoEoi), ops);
            var byCalls := MaskedByCalls(ops, irq in any.cached, irq);
            && (irq in p.cached <==> byCalls)
            && (MaskedInHardware(p, irq) <==> byCalls || MaskedSince(ops, OnSlave(irq)))
            && (ops == [] || ops[|ops| - 1].UnmaskAll? || ops[|ops| - 1].Init? ==>
                  (MaskedInHardware(p, irq) <==> byCalls))
  {
    var boot := Reset(any, first, autoEoi);
    var p := Run(boot, ops);
    RunAgrees(any, first, autoEoi, ops);
    CacheIsFold(boot, ops, irq);
    OtherHalfUntouched(p.cached, irq);
  }

  /** In any order of calls a pending query reads the IRR, and a query of the in-service
      register leaves that so. */
  lemma QueriesReadTheRightRegister(any: Pic, first: nat, autoEoi: bool, ops: seq<Op>, irq: Line)
    ensures var p := Run(Reset(any, first, autoEoi), ops);
            && ReadCommand(p.master) == p.master.irr && ReadCommand(p.slave) == p.slave.irr
            && Exec(p, Real(irq)) == p
  {
    RunAgrees(any, first, autoEoi, ops);
  }
}
