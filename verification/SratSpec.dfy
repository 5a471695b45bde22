/** SRAT callbacks on values (ACPI 6.4 section 5.2.16): what one table entry does to the
    NUMA state, and what holds after every sequence of entries. */
module SratSpec {
  import opened Common
  import opened PxmTable
  import opened Coverage

  const NR_NODE_MEMBLKS: nat := 2000
  const MAX_LOCAL_APIC: nat := 256

  // Record lengths of ACPI 6.4 sections 5.2.16.1 to 5.2.16.3.
  const PROCESSOR_LENGTH: nat := 16
  const MEMORY_LENGTH: nat := 40
  const X2APIC_LENGTH: nat := 24

  // Flag bits of ACPI 6.4 section 5.2.16.
  const ENABLED: bv32 := 1
  const HOT_PLUGGABLE: bv32 := 2

  type LocalApicId = x: nat | x < MAX_LOCAL_APIC

  datatype Entry =
    | X2Apic(length: nat, flags: bv32, x2ApicId: nat, domain: bv32)
    | Processor(length: nat, flags: bv32, apicId: LocalApicId, lo: bv32, hi0: bv32, hi1: bv32, hi2: bv32)
    | Memory(length: nat, flags: bv32, base: nat, size: nat, domain: bv32)

  datatype Block = Block(range: Range, node: nat, hotplug: bool)

  datatype Config = Config(numaOff: bool, rev: int)

  datatype State = State(
    reg: Registry,
    nodes: seq<Range>,
    parsed: set<nat>,
    blocks: seq<Block>,
    apic: seq<nat>,
    acpiNuma: int)

  /** Array lengths of the source, and stored ids that index the node array. */
  ghost predicate Shape(s: State) {
    && |s.reg.slots| == |s.nodes| == MAX_NUMNODES
    && |s.apic| == MAX_LOCAL_APIC
    && |s.blocks| <= NR_NODE_MEMBLKS
    && forall i :: 0 <= i < |s.reg.slots| && Occupied(s.reg.slots[i]) ==> s.reg.slots[i].node < MAX_NUMNODES
  }

  predicate Disabled(c: Config, s: State) {
    s.acpiNuma < 0 || c.numaOff
  }

  function Bad(s: State): State {
    s.(reg := s.reg.(slots := Cleared(s.reg.slots)),
       apic := seq(|s.apic|, i => NUMA_NO_NODE),
       acpiNuma := -1)
  }

  predicate LengthOk(e: Entry) {
    match e
    case X2Apic(length, _, _, _) => length >= X2APIC_LENGTH
    case Processor(length, _, _, _, _, _, _) => length == PROCESSOR_LENGTH
    case Memory(length, _, _, _, _) => length == MEMORY_LENGTH
  }

  /** An entry that the callbacks go on to register.  As in the source, a processor entry
      counts as enabled when any flag is set, the other two when the enabled bit is. */
  predicate Registers(e: Entry) {
    match e
    case X2Apic(_, flags, id, _) => flags & ENABLED != 0 && id < MAX_LOCAL_APIC
    case Processor(_, flags, _, _, _, _, _) => flags != 0
    case Memory(_, flags, _, _, _) => flags & ENABLED != 0
  }

  function AddByte(w: bv32, b: bv32, n: bv32): bv32 requires n < 32 {
    w | (b << n)
  }

  function DomainBits(c: Config, e: Entry): bv32 requires e.Processor? {
    if c.rev >= 2 then AddByte(AddByte(AddByte(e.lo, e.hi0, 8), e.hi1, 16), e.hi2, 24) else e.lo
  }

  /** From revision 2 on the domain has these bytes, lowest first. */
  lemma DomainBytes(c: Config, e: Entry)
    requires c.rev >= 2 && e.Processor?
    requires e.lo < 0x100 && e.hi0 < 0x100 && e.hi1 < 0x100 && e.hi2 < 0x100
    ensures var w := DomainBits(c, e);
            && w & 0xff == e.lo && (w >> 8) & 0xff == e.hi0
            && (w >> 16) & 0xff == e.hi1 && w >> 24 == e.hi2
  {
  }

  /** And every word is the domain of some bytes. */
  lemma BytesOfDomain(c: Config, e: Entry, w: bv32)
    requires c.rev >= 2 && e.Processor?
    requires e.lo == w & 0xff && e.hi0 == (w >> 8) & 0xff && e.hi1 == (w >> 16) & 0xff && e.hi2 == w >> 24
    ensures DomainBits(c, e) == w
  {
  }

  function Pxm(c: Config, e: Entry): nat {
    match e
    case X2Apic(_, _, _, domain) => domain as nat
    case Processor(_, _, _, _, _, _, _) => DomainBits(c, e) as nat
    case Memory(_, _, _, _, domain) => (if c.rev < 2 then domain & 0xff else domain) as nat
  }

  predicate HotPluggable(e: Entry) requires e.Memory? {
    e.flags & HOT_PLUGGABLE != 0
  }

  /** The end of a block is computed in 32 bits. */
  function BlockRange(e: Entry): Range requires e.Memory? {
    Range(e.base, (e.base + e.size) % U32)
  }

  /** Two areas conflict when they share an address or are equal; empty blocks never do. */
  predicate Conflicts(b: Block, r: Range) {
    && b.range.start != b.range.end
    && ((b.range.end > r.start && b.range.start < r.end) || b.range == r)
  }

  function FirstConflict(blocks: seq<Block>, r: Range): (i: nat)
    ensures i <= |blocks|
    ensures forall j :: 0 <= j < i ==> !Conflicts(blocks[j], r)
    ensures i < |blocks| ==> Conflicts(blocks[i], r)
  {
    if blocks == [] || Conflicts(blocks[0], r) then 0 else 1 + FirstConflict(blocks[1..], r)
  }

  /** A block that conflicts with an earlier one is accepted only if the first such block
      has the same node and the same hotplug flag. */
  predicate Acceptable(blocks: seq<Block>, b: Block) {
    var i := FirstConflict(blocks, b.range);
    i < |blocks| ==> blocks[i].node == b.node && blocks[i].hotplug == b.hotplug
  }

  function Accept(s: State, b: Block): State
    requires b.node < |s.nodes|
  {
    var grown :=
      if b.node !in s.parsed then b.range
      else Range(Min(s.nodes[b.node].start, b.range.start), Max(s.nodes[b.node].end, b.range.end));
    var s' := s.(blocks := s.blocks + [b]);
    if b.hotplug then s' else s'.(nodes := s.nodes[b.node := grown], parsed := s.parsed + {b.node})
  }

  /** The entry reaches the registration of its domain. */
  predicate Reaches(c: Config, s: State, e: Entry) {
    && !Disabled(c, s) && LengthOk(e) && Registers(e)
    && !(e.Memory? && |s.blocks| >= NR_NODE_MEMBLKS)
  }

  /** What a callback does once its domain is registered as a node. */
  function Commit(s: State, e: Entry, node: nat): State
    requires node < |s.nodes| && |s.apic| == MAX_LOCAL_APIC && Registers(e)
  {
    match e
    case X2Apic(_, _, id, _) => s.(apic := s.apic[id := node], acpiNuma := 1)
    case Processor(_, _, id, _, _, _, _) => s.(apic := s.apic[id := node], acpiNuma := 1)
    case Memory(_, _, _, _, _) =>
      var b := Block(BlockRange(e), node, HotPluggable(e));
      if Acceptable(s.blocks, b) then Accept(s, b) else Bad(s)
  }

  /** The effect of one SRAT entry. */
  function Callback(c: Config, s: State, e: Entry): (s': State)
    requires Shape(s)
    ensures Shape(s')
  {
    if Reaches(c, s, e) then
      var (reg, node) := Setup(s.reg, Pxm(c, e));
      if node == NUMA_NO_NODE then Bad(s.(reg := reg)) else Commit(s.(reg := reg), e, node)
    else if Disabled(c, s) || (LengthOk(e) && !Registers(e)) then s
    else Bad(s)
  }

  function Callbacks(c: Config, s: State, entries: seq<Entry>): (s': State)
    requires Shape(s)
    ensures Shape(s')
  {
    if entries == [] then s
    else Callback(c, Callbacks(c, s, entries[..|entries| - 1]), entries[|entries| - 1])
  }

  ghost predicate Boots(s: State) {
    && Shape(s) && Boot(s.reg)
    && s.parsed == {} && s.blocks == []
    && forall id :: 0 <= id < |s.apic| ==> s.apic[id] == NUMA_NO_NODE
  }

  // ------------------------------------------------------------ hulls of memory blocks

  predicate PlainBlock(b: Block, n: nat) {
    b.node == n && !b.hotplug
  }

  /** The smallest range around all non-hotplug blocks of node n. */
  ghost predicate IsHull(blocks: seq<Block>, n: nat, r: Range) {
    && (forall i :: 0 <= i < |blocks| && PlainBlock(blocks[i], n) ==>
          r.start <= blocks[i].range.start && blocks[i].range.end <= r.end)
    && (exists i :: 0 <= i < |blocks| && PlainBlock(blocks[i], n) && blocks[i].range.start == r.start)
    && (exists i :: 0 <= i < |blocks| && PlainBlock(blocks[i], n) && blocks[i].range.end == r.end)
  }

  ghost predicate Hulls(s: State) {
    && |s.nodes| == MAX_NUMNODES
    && (forall n :: n in s.parsed ==> n < MAX_NUMNODES && IsHull(s.blocks, n, s.nodes[n]))
    && (forall i :: 0 <= i < |s.blocks| && !s.blocks[i].hotplug ==> s.blocks[i].node in s.parsed)
  }

  lemma HullStep(blocks: seq<Block>, b: Block, n: nat, r: Range)
    requires IsHull(blocks, n, r)
    ensures !PlainBlock(b, n) ==> IsHull(blocks + [b], n, r)
    ensures PlainBlock(b, n) ==>
              IsHull(blocks + [b], n, Range(Min(r.start, b.range.start), Max(r.end, b.range.end)))
  {
    var bs := blocks + [b];
    var i :| 0 <= i < |blocks| && PlainBlock(blocks[i], n) && blocks[i].range.start == r.start;
    var j :| 0 <= j < |blocks| && PlainBlock(blocks[j], n) && blocks[j].range.end == r.end;
    assert bs[i] == blocks[i] && bs[j] == blocks[j] && bs[|blocks|] == b;
  }

  lemma AcceptKeepsHulls(s: State, b: Block)
    requires Hulls(s) && b.node < MAX_NUMNODES
    ensures Hulls(Accept(s, b))
  {
    var s' := Accept(s, b);
    forall n | n in s'.parsed ensures n < MAX_NUMNODES && IsHull(s'.blocks, n, s'.nodes[n]) {
      if n in s.parsed {
        HullStep(s.blocks, b, n, s.nodes[n]);
      } else {
        assert s'.blocks[|s.blocks|] == b;
        assert forall i :: 0 <= i < |s.blocks| ==> s'.blocks[i] == s.blocks[i] && !PlainBlock(s.blocks[i], n);
      }
    }
  }

  /** s' is s with the memory entry's own block, an acceptable one, added for node n. */
  ghost predicate AcceptedFor(s: State, e: Entry, s': State, n: nat)
    requires e.Memory?
  {
    && n < |s.nodes|
    && Acceptable(s.blocks, Block(BlockRange(e), n, HotPluggable(e)))
    && s' == Accept(s.(reg := s'.reg), Block(BlockRange(e), n, HotPluggable(e)))
  }

  /** One entry either leaves blocks and node ranges untouched, or is a memory entry that
      was accepted and adds exactly its own block; an entry that goes bad adds nothing. */
  lemma CallbackOnBlocks(c: Config, s: State, e: Entry)
    requires Shape(s)
    ensures var s' := Callback(c, s, e);
            || (s'.blocks == s.blocks && s'.nodes == s.nodes && s'.parsed == s.parsed)
            || (e.Memory? && !Disabled(c, s) && !Disabled(c, s') && exists n: nat :: AcceptedFor(s, e, s', n))
  {
    if Reaches(c, s, e) && e.Memory? {
      var (reg, node) := Setup(s.reg, Pxm(c, e));
      var b := Block(BlockRange(e), node, HotPluggable(e));
      if node != NUMA_NO_NODE && Acceptable(s.blocks, b) {
        assert Callback(c, s, e) == Accept(s.(reg := reg), b);
        assert AcceptedFor(s, e, Callback(c, s, e), node);
      }
    }
  }

  /** Main result: after any entries each parsed node's range is the hull of its accepted
      non-hotplug blocks. */
  lemma {:induction false} CallbacksKeepHulls(c: Config, s: State, entries: seq<Entry>)
    requires Shape(s) && Hulls(s)
    ensures Hulls(Callbacks(c, s, entries))
  {
    if entries != [] {
      var most, e := entries[..|entries| - 1], entries[|entries| - 1];
      var before := Callbacks(c, s, most);
      CallbacksKeepHulls(c, s, most);
      CallbackOnBlocks(c, before, e);
      var after := Callback(c, before, e);
      if after.blocks != before.blocks {
        var n: nat :| AcceptedFor(before, e, after, n);
        AcceptKeepsHulls(before.(reg := after.reg), Block(BlockRange(e), n, HotPluggable(e)));
      }
    }
  }

  /** Some accepted non-hotplug block holds the address. */
  ghost predicate InPlainBlock(blocks: seq<Block>, a: nat) {
    exists i :: 0 <= i < |blocks| && !blocks[i].hotplug && Within(a, blocks[i].range)
  }

  ghost predicate BlocksCover(blocks: seq<Block>, e820: seq<MapEntry>) {
    forall i, a: nat :: 0 <= i < |e820| && e820[i].ram && Within(a, RamRange(e820[i])) ==> InPlainBlock(blocks, a)
  }

  /** If the accepted non-hotplug blocks cover the RAM, so do the node ranges. */
  lemma BlocksCoverNodesCover(c: Config, boot: State, entries: seq<Entry>, e820: seq<MapEntry>)
    requires Boots(boot)
    requires BlocksCover(Callbacks(c, boot, entries).blocks, e820)
    ensures MapCovered(Callbacks(c, boot, entries).nodes, Callbacks(c, boot, entries).parsed, e820)
  {
    var s := Callbacks(c, boot, entries);
    CallbacksKeepHulls(c, boot, entries);
    forall i, a: nat | 0 <= i < |e820| && e820[i].ram && Within(a, RamRange(e820[i]))
      ensures Covered(s.nodes, s.parsed, a)
    {
      assert InPlainBlock(s.blocks, a);
      var j :| 0 <= j < |s.blocks| && !s.blocks[j].hotplug && Within(a, s.blocks[j].range);
      assert PlainBlock(s.blocks[j], s.blocks[j].node);
      assert Within(a, s.nodes[s.blocks[j].node]);
    }
  }

  ghost predicate ValidRange(blocks: seq<Block>, r: Range, node: nat) {
    exists i :: 0 <= i < |blocks|
      && blocks[i].range.start <= r.start && r.end <= blocks[i].range.end && blocks[i].node == node
  }

  /** valid_numa_range never turns false again. */
  lemma {:induction false} CallbacksKeepValidRange(c: Config, s: State, entries: seq<Entry>, r: Range, node: nat)
    requires Shape(s) && ValidRange(s.blocks, r, node)
    ensures ValidRange(Callbacks(c, s, entries).blocks, r, node)
  {
    if entries != [] {
      var most, e := entries[..|entries| - 1], entries[|entries| - 1];
      CallbacksKeepValidRange(c, s, most, r, node);
      var before := Callbacks(c, s, most);
      CallbackOnBlocks(c, before, e);
      var i :| 0 <= i < |before.blocks| && before.blocks[i].range.start <= r.start
        && r.end <= before.blocks[i].range.end && before.blocks[i].node == node;
      assert Callback(c, before, e).blocks[i] == before.blocks[i];
    }
  }

  /** An accepted block validates each of its subranges, from then on. */
  lemma AcceptedBlockValid(c: Config, s: State, e: Entry, later: seq<Entry>, r: Range)
    requires Shape(s) && Callback(c, s, e).blocks != s.blocks
    requires e.Memory? && BlockRange(e).start <= r.start && r.end <= BlockRange(e).end
    ensures var b := Callback(c, s, e).blocks[|s.blocks|];
            b.range == BlockRange(e) && ValidRange(Callbacks(c, Callback(c, s, e), later).blocks, r, b.node)
  {
    CallbackOnBlocks(c, s, e);
    var s' := Callback(c, s, e);
    assert s'.blocks[|s.blocks|].range == BlockRange(e);
    CallbacksKeepValidRange(c, s', later, r, s'.blocks[|s.blocks|].node);
  }

  /** Every accepted block agreed in node and hotplug flag with the first earlier block it
      conflicts with. */
  ghost predicate ConflictRule(blocks: seq<Block>) {
    forall k :: 0 <= k < |blocks| ==> Acceptable(blocks[..k], blocks[k])
  }

  lemma {:induction false} CallbacksKeepConflictRule(c: Config, s: State, entries: seq<Entry>)
    requires Shape(s) && ConflictRule(s.blocks)
    ensures ConflictRule(Callbacks(c, s, entries).blocks)
  {
    if entries != [] {
      var most, e := entries[..|entries| - 1], entries[|entries| - 1];
      CallbacksKeepConflictRule(c, s, most);
      CallbackKeepsConflictRule(c, Callbacks(c, s, most), e);
    }
  }

  lemma CallbackKeepsConflictRule(c: Config, s: State, e: Entry)
    requires Shape(s) && ConflictRule(s.blocks)
    ensures ConflictRule(Callback(c, s, e).blocks)
  {
    CallbackOnBlocks(c, s, e);
    var s' := Callback(c, s, e);
    if s'.blocks != s.blocks {
      var n: nat :| AcceptedFor(s, e, s', n);
      AppendKeepsConflictRule(s.blocks, Block(BlockRange(e), n, HotPluggable(e)));
    }
  }

  lemma AppendKeepsConflictRule(blocks: seq<Block>, b: Block)
    requires ConflictRule(blocks) && Acceptable(blocks, b)
    ensures ConflictRule(blocks + [b])
  {
    var bs := blocks + [b];
    forall k | 0 <= k < |bs| ensures Acceptable(bs[..k], bs[k]) {
      assert bs[..k] == blocks[..k];
      assert k == |blocks| ==> blocks[..k] == blocks;
    }
  }

  lemma ConflictMeansOverlap(b: Block, r: Range)
    requires b.range.start < b.range.end && r.start < r.end
    ensures Conflicts(b, r) <==> exists a: nat :: Within(a, b.range) && Within(a, r)
  {
    if Conflicts(b, r) {
      var a := Max(b.range.start, r.start);
      assert Within(a, b.range) && Within(a, r);
    }
  }

  /** An area conflicts with its own like unless it is empty, be its end before its start. */
  lemma LikeConflicts(b: Block)
    ensures Conflicts(b, b.range) <==> b.range.start != b.range.end
  {
  }

  /** The exact meaning for ordered ranges: a common address, or an empty range strictly
      inside a block. */
  lemma ConflictsExact(b: Block, r: Range)
    requires b.range.start <= b.range.end && r.start <= r.end
    ensures Conflicts(b, r) <==>
            || (exists a: nat :: Within(a, b.range) && Within(a, r))
            || (r.start == r.end && b.range.start < r.start < b.range.end)
  {
    if b.range.start < b.range.end && r.start < r.end {
      ConflictMeansOverlap(b, r);
    }
  }

  /** The new block agrees in node with every earlier block it conflicts with. */
  ghost predicate Agrees(blocks: seq<Block>, b: Block) {
    forall j :: 0 <= j < |blocks| && Conflicts(blocks[j], b.range) ==> blocks[j].node == b.node
  }

  /** Conflicting blocks belong to one node. */
  ghost predicate OneNode(blocks: seq<Block>) {
    forall k :: 0 <= k < |blocks| ==> Agrees(blocks[..k], blocks[k])
  }

  /** The conflicts behind the first one, which the rule does not look at. */
  ghost predicate LaterAgree(blocks: seq<Block>, b: Block) {
    forall j :: FirstConflict(blocks, b.range) < j < |blocks| && Conflicts(blocks[j], b.range) ==>
      blocks[j].node == b.node
  }

  lemma OneNodePrefix(blocks: seq<Block>, b: Block)
    ensures OneNode(blocks + [b]) <==> OneNode(blocks) && Agrees(blocks, b)
  {
    var bs := blocks + [b];
    assert bs[..|blocks|] == blocks;
    assert forall k :: 0 <= k < |blocks| ==> bs[..k] == blocks[..k] && bs[k] == blocks[k];
  }

  /** An acceptable block keeps "conflicting blocks belong to one node" exactly when it
      agrees with the conflicts behind the first. */
  lemma AppendKeepsOneNodeIff(blocks: seq<Block>, b: Block)
    requires OneNode(blocks) && Acceptable(blocks, b)
    ensures OneNode(blocks + [b]) <==> LaterAgree(blocks, b)
  {
    OneNodePrefix(blocks, b);
    assert forall j :: 0 <= j < |blocks| && Conflicts(blocks[j], b.range) ==> j >= FirstConflict(blocks, b.range);
  }

  /** The block that an entry is about to add. */
  function NewBlock(c: Config, s: State, e: Entry): Block requires e.Memory? {
    Block(BlockRange(e), Setup(s.reg, Pxm(c, e)).1, HotPluggable(e))
  }

  /** The entry passes every check of the callback. */
  predicate Adds(c: Config, s: State, e: Entry) {
    && e.Memory? && Reaches(c, s, e)
    && NewBlock(c, s, e).node != NUMA_NO_NODE && Acceptable(s.blocks, NewBlock(c, s, e))
  }

  lemma BlocksAfter(c: Config, s: State, e: Entry)
    requires Shape(s)
    ensures Callback(c, s, e).blocks == s.blocks + (if Adds(c, s, e) then [NewBlock(c, s, e)] else [])
  {
  }

  /** What a caller could check before each entry. */
  ghost predicate EntriesAgree(c: Config, s: State, entries: seq<Entry>)
    requires Shape(s)
  {
    forall i :: 0 <= i < |entries| && Adds(c, Callbacks(c, s, entries[..i]), entries[i]) ==>
      LaterAgree(Callbacks(c, s, entries[..i]).blocks, NewBlock(c, Callbacks(c, s, entries[..i]), entries[i]))
  }

  lemma EntriesAgreeFront(c: Config, s: State, most: seq<Entry>, e: Entry)
    requires Shape(s)
    ensures EntriesAgree(c, s, most + [e]) <==>
            && EntriesAgree(c, s, most)
            && var before := Callbacks(c, s, most);
               Adds(c, before, e) ==> LaterAgree(before.blocks, NewBlock(c, before, e))
  {
    var all := most + [e];
    assert forall i :: 0 <= i < |most| ==> all[..i] == most[..i] && all[i] == most[i];
    assert all[..|most|] == most;
  }

  /** Exact condition, over all entries from boot: conflicting blocks belong to one node if
      and only if each accepted entry agrees with the conflicts behind its first. */
  lemma {:induction false} OneNodeIff(c: Config, boot: State, entries: seq<Entry>)
    requires Boots(boot)
    ensures OneNode(Callbacks(c, boot, entries).blocks) <==> EntriesAgree(c, boot, entries)
  {
    if entries != [] {
      var most, e := entries[..|entries| - 1], entries[|entries| - 1];
      var before := Callbacks(c, boot, most);
      assert most + [e] == entries;
      OneNodeIff(c, boot, most);
      EntriesAgreeFront(c, boot, most, e);
      BlocksAfter(c, before, e);
      if Adds(c, before, e) {
        OneNodePrefix(before.blocks, NewBlock(c, before, e));
        if OneNode(before.blocks) {
          AppendKeepsOneNodeIff(before.blocks, NewBlock(c, before, e));
        }
      } else {
        assert before.blocks + [] == before.blocks;
      }
    }
  }

  function Plain(base: nat, size: nat, domain: bv32): (e: Entry)
    ensures e.Memory?
  {
    Memory(MEMORY_LENGTH, ENABLED, base, size, domain)
  }

  lemma PlainEntry(c: Config, s: State, base: nat, size: nat, domain: bv32)
    requires domain < 2 && base + size < U32
    requires Shape(s) && !Disabled(c, s) && |s.blocks| < NR_NODE_MEMBLKS
    ensures var e := Plain(base, size, domain);
            && Reaches(c, s, e) && Pxm(c, e) == domain as nat
            && BlockRange(e) == Range(base, base + size) && !HotPluggable(e)
  {
    assert domain & 0xff == domain;
  }

  lemma PlainAdds(c: Config, s: State, base: nat, size: nat, domain: bv32, node: nat)
    requires domain < 2 && base + size < U32
    requires Shape(s) && !Disabled(c, s) && |s.blocks| < NR_NODE_MEMBLKS
    requires Setup(s.reg, domain as nat).1 == node < MAX_NUMNODES
    requires Acceptable(s.blocks, Block(Range(base, base + size), node, false))
    ensures var s' := Callback(c, s, Plain(base, size, domain));
            && s'.blocks == s.blocks + [Block(Range(base, base + size), node, false)]
            && s'.reg == Setup(s.reg, domain as nat).0 && !Disabled(c, s')
  {
    PlainEntry(c, s, base, size, domain);
    BlocksAfter(c, s, Plain(base, size, domain));
  }

  lemma OverlapSteps(c: Config, boot: State)
    requires Boots(boot) && !Disabled(c, boot)
    ensures var s1 := Callback(c, boot, Plain(0, 10, 0));
            var s2 := Callback(c, s1, Plain(20, 10, 1));
            var s3 := Callback(c, s2, Plain(5, 20, 0));
            s3.blocks == [Block(Range(0, 10), 0, false), Block(Range(20, 30), 1, false), Block(Range(5, 25), 0, false)]
  {
    var s1 := Callback(c, boot, Plain(0, 10, 0));
    PlainAdds(c, boot, 0, 10, 0, 0);
    assert s1.reg == Registry(boot.reg.slots[0 := Slot(0, 0)], 1);
    var s2 := Callback(c, s1, Plain(20, 10, 1));
    PlainAdds(c, s1, 20, 10, 1, 1);
    assert s2.reg == Registry(s1.reg.slots[1 := Slot(1, 1)], 2);
    PlainAdds(c, s2, 5, 20, 0, 0);
  }

  lemma ThreeCallbacks(c: Config, s: State, a: Entry, b: Entry, d: Entry)
    requires Shape(s)
    ensures Callbacks(c, s, [a, b, d]) == Callback(c, Callback(c, Callback(c, s, a), b), d)
  {
    assert [a, b, d][..2] == [a, b] && [a, b][..1] == [a] && [a][..0] == [];
    assert Callbacks(c, s, [a]) == Callback(c, s, a);
    assert Callbacks(c, s, [a, b]) == Callback(c, Callback(c, s, a), b);
  }

  /** Three entries of two domains, each accepted, of which the last overlaps both others. */
  lemma OverlapAcrossNodes(c: Config, boot: State) returns (entries: seq<Entry>)
    requires Boots(boot) && !Disabled(c, boot)
    ensures entries == [Plain(0, 10, 0), Plain(20, 10, 1), Plain(5, 20, 0)]
    ensures Callbacks(c, boot, entries).blocks ==
            [Block(Range(0, 10), 0, false), Block(Range(20, 30), 1, false), Block(Range(5, 25), 0, false)]
    ensures !OneNode(Callbacks(c, boot, entries).blocks)
  {
    entries := [Plain(0, 10, 0), Plain(20, 10, 1), Plain(5, 20, 0)];
    ThreeCallbacks(c, boot, entries[0], entries[1], entries[2]);
    OverlapSteps(c, boot);
    var blocks := Callbacks(c, boot, entries).blocks;
    assert blocks[..2][1] == blocks[1];
    assert !Agrees(blocks[..2], blocks[2]);
  }

  // ------------------------------------------------------------ APIC ids to domains

  /** The table is consistent: ids are distinct, and until the SRAT is rejected the id
      counter counts the occupied slots. */
  ghost predicate TableOk(c: Config, s: State) {
    && Shape(s) && Ids(s.reg)
    && (!Disabled(c, s) ==> s.reg.nodesFound == |OccupiedSlots(s.reg.slots)|)
  }

  lemma CallbackKeepsTable(c: Config, s: State, e: Entry)
    requires TableOk(c, s)
    ensures TableOk(c, Callback(c, s, e))
  {
    if !Disabled(c, s) {
      SetupCounts(s.reg, Pxm(c, e));
    }
  }

  predicate NamesApic(e: Entry, id: nat) {
    match e
    case X2Apic(_, _, i, _) => i == id
    case Processor(_, _, i, _, _, _, _) => i == id
    case Memory(_, _, _, _, _) => false
  }

  /** The entry assigns its APIC id a node. */
  predicate AssignsApic(c: Config, s: State, e: Entry) {
    && !e.Memory? && !Disabled(c, s) && LengthOk(e) && Registers(e)
    && Setup(s.reg, Pxm(c, e)).1 != NUMA_NO_NODE
  }

  datatype Attribution = Unassigned | Domain(pxm: nat)

  /** Proximity domain of the last accepted entry for an APIC id; a rejected SRAT forgets
      every earlier entry. */
  ghost function LastDomain(c: Config, s: State, entries: seq<Entry>, id: nat): Attribution
    requires Shape(s)
  {
    if entries == [] then Unassigned
    else
      var most, e := entries[..|entries| - 1], entries[|entries| - 1];
      var before := Callbacks(c, s, most);
      if !Disabled(c, before) && Disabled(c, Callback(c, before, e)) then Unassigned
      else if AssignsApic(c, before, e) && NamesApic(e, id) then Domain(Pxm(c, e))
      else LastDomain(c, s, most, id)
  }

  ghost predicate Attributed(s: State, id: nat, d: Attribution) requires id < |s.apic| {
    match d
    case Unassigned => s.apic[id] == NUMA_NO_NODE
    case Domain(p) => Registered(s.reg.slots, s.apic[id], p)
  }

  lemma CommitAttributes(c: Config, s: State, e: Entry, node: nat, id: nat, d: Attribution)
    requires Shape(s) && Registers(e) && !Disabled(c, s) && id < MAX_LOCAL_APIC && node < MAX_NUMNODES
    requires Attributed(s, id, d) && Registered(s.reg.slots, node, Pxm(c, e))
    ensures var s' := Commit(s, e, node);
            Attributed(s', id,
              if Disabled(c, s') then Unassigned
              else if NamesApic(e, id) then Domain(Pxm(c, e))
              else d)
  {
  }

  lemma CallbackAttributes(c: Config, s: State, e: Entry, id: nat, d: Attribution)
    requires TableOk(c, s) && id < MAX_LOCAL_APIC && Attributed(s, id, d)
    ensures var s' := Callback(c, s, e);
            Attributed(s', id,
              if !Disabled(c, s) && Disabled(c, s') then Unassigned
              else if AssignsApic(c, s, e) && NamesApic(e, id) then Domain(Pxm(c, e))
              else d)
  {
    if Reaches(c, s, e) {
      var (reg, node) := Setup(s.reg, Pxm(c, e));
      if node != NUMA_NO_NODE {
        SetupCounts(s.reg, Pxm(c, e));
        SetupRoundTrip(s.reg, Pxm(c, e));
        if d.Domain? {
          SetupKeepsRegistered(s.reg, Pxm(c, e), s.apic[id], d.pxm);
        }
        CommitAttributes(c, s.(reg := reg), e, node, id, d);
      }
    }
  }

  lemma {:induction false} CallbacksAttribute(c: Config, boot: State, entries: seq<Entry>, id: nat)
    requires Boots(boot) && id < MAX_LOCAL_APIC
    ensures TableOk(c, Callbacks(c, boot, entries))
    ensures Attributed(Callbacks(c, boot, entries), id, LastDomain(c, boot, entries, id))
  {
    if entries == [] {
      assert OccupiedSlots(boot.reg.slots) == {};
    } else {
      var most, e := entries[..|entries| - 1], entries[|entries| - 1];
      CallbacksAttribute(c, boot, most, id);
      CallbackKeepsTable(c, Callbacks(c, boot, most), e);
      CallbackAttributes(c, Callbacks(c, boot, most), e, id, LastDomain(c, boot, most, id));
    }
  }

  /** Main result: after any entries an APIC id has a node exactly when some entry for it
      was accepted (and the SRAT not rejected since), and node_to_pxm of that node is the
      proximity domain of the last such entry. */
  lemma ApicMapsToLastDomain(c: Config, boot: State, entries: seq<Entry>, id: nat)
    requires Boots(boot) && id < MAX_LOCAL_APIC
    ensures var s := Callbacks(c, boot, entries);
            match LastDomain(c, boot, entries, id)
            case Unassigned => s.apic[id] == NUMA_NO_NODE
            case Domain(p) => s.apic[id] < MAX_NUMNODES && NodeToPxm(s.reg.slots, s.apic[id]) == p
  {
    CallbacksAttribute(c, boot, entries, id);
    var s := Callbacks(c, boot, entries);
    if LastDomain(c, boot, entries, id).Domain? {
      var p := LastDomain(c, boot, entries, id).pxm;
      var i :| 0 <= i < |s.reg.slots| && s.reg.slots[i] == Slot(p, s.apic[id]);
      assert Occupied(s.reg.slots[i]);
      RegisteredRoundTrip(s.reg, s.apic[id], p);
    }
  }

  /** After bad_srat every APIC id is unassigned and no later entry changes anything. */
  lemma {:induction false} BadIsFinal(c: Config, s: State, later: seq<Entry>)
    requires Shape(s)
    ensures Callbacks(c, Bad(s), later) == Bad(s)
    ensures forall id :: 0 <= id < MAX_LOCAL_APIC ==> Bad(s).apic[id] == NUMA_NO_NODE
    ensures forall p :: PxmToNode(Bad(s).reg.slots, p) == NUMA_NO_NODE
    ensures Bad(s).reg == Step(s.reg, BadSrat) && Bad(s).acpiNuma < 0
    ensures Bad(s).nodes == s.nodes && Bad(s).parsed == s.parsed && Bad(s).blocks == s.blocks
  {
    if later != [] {
      BadIsFinal(c, s, later[..|later| - 1]);
    }
  }

  // ------------------------------------------------- which entries do what, field by field

  /** A disabled SRAT stays as it is: rejected earlier, or NUMA switched off. */
  lemma {:induction false} DisabledKeeps(c: Config, s: State, entries: seq<Entry>)
    requires Shape(s) && (s.acpiNuma < 0 || c.numaOff)
    ensures Callbacks(c, s, entries) == s
  {
    if entries != [] {
      DisabledKeeps(c, s, entries[..|entries| - 1]);
    }
  }

  /** A record of the wrong length rejects the SRAT. */
  lemma WrongLengthRejects(c: Config, s: State, e: Entry)
    requires Shape(s) && s.acpiNuma >= 0 && !c.numaOff
    requires match e
             case X2Apic(length, _, _, _) => length < 24
             case Processor(length, _, _, _, _, _, _) => length != 16
             case Memory(length, _, _, _, _) => length != 40
    ensures Callback(c, s, e) == Bad(s)
  {
  }

  /** A record of the right length without an enabling flag, or for an APIC id that is too
      large, changes nothing. */
  lemma NotEnabledSkipped(c: Config, s: State, e: Entry)
    requires Shape(s)
    requires match e
             case X2Apic(length, flags, id, _) => length >= 24 && (flags & 1 == 0 || id >= 256)
             case Processor(length, flags, _, _, _, _, _) => length == 16 && flags == 0
             case Memory(length, flags, _, _, _) => length == 40 && flags & 1 == 0
    ensures Callback(c, s, e) == s
  {
  }

  predicate Enabled(e: Entry) {
    match e
    case X2Apic(length, flags, id, _) => length >= 24 && flags & 1 == 1 && id < 256
    case Processor(length, flags, _, _, _, _, _) => length == 16 && flags != 0
    case Memory(length, flags, _, _, _) => length == 40 && flags & 1 == 1
  }

  lemma EnabledReaches(c: Config, s: State, e: Entry)
    requires Shape(s) && s.acpiNuma >= 0 && !c.numaOff && Enabled(e)
    ensures Reaches(c, s, e) <==> (e.Memory? ==> |s.blocks| < 2000)
  {
    BitOne(e.flags);
  }

  lemma BitOne(flags: bv32)
    ensures flags & 1 == 0 || flags & 1 == 1
    ensures flags & 2 == 0 || flags & 2 == 2
  {
  }

  /** The domain an entry names, in its own field: all 32 bits for an x2APIC or from table
      revision 2 on, the lowest byte otherwise. */
  lemma DomainField(c: Config, e: Entry)
    ensures e.X2Apic? ==> Pxm(c, e) == e.domain as nat
    ensures e.Memory? && c.rev >= 2 ==> Pxm(c, e) == e.domain as nat
    ensures e.Memory? && c.rev < 2 ==> Pxm(c, e) == (e.domain & 0xff) as nat
    ensures e.Processor? && c.rev < 2 ==> Pxm(c, e) == e.lo as nat
    ensures e.Processor? && c.rev >= 2 ==> Pxm(c, e) == DomainBits(c, e) as nat
  {
  }

  /** An enabled APIC entry gives its APIC id the node of its domain, and no other id any;
      or there is no node left, and the SRAT is rejected. */
  lemma ApicEntry(c: Config, s: State, e: Entry, domain: nat)
    requires Shape(s) && s.acpiNuma >= 0 && !c.numaOff && Enabled(e) && !e.Memory? && Pxm(c, e) == domain
    ensures var (reg, node) := Setup(s.reg, domain);
            var s', id := Callback(c, s, e), if e.X2Apic? then e.x2ApicId else e.apicId;
            if node == NUMA_NO_NODE then s' == Bad(s.(reg := reg))
            else
              && s'.apic[id] == node && (forall k :: 0 <= k < |s.apic| && k != id ==> s'.apic[k] == s.apic[k])
              && s'.acpiNuma == 1 && s'.reg == reg
              && s'.nodes == s.nodes && s'.parsed == s.parsed && s'.blocks == s.blocks
  {
    EnabledReaches(c, s, e);
  }

  /** An enabled memory entry is accepted exactly when there is room for its block, there is
      a node for its domain, and the first earlier block it conflicts with, if any, has the
      same node and the same hotplug bit; otherwise the SRAT is rejected. */
  lemma MemoryEntryIff(c: Config, s: State, e: Entry)
    requires Shape(s) && s.acpiNuma >= 0 && !c.numaOff && e.Memory? && Enabled(e)
    ensures var r := Range(e.base, (e.base + e.size) % 0x1_0000_0000);
            var hotplug, node := e.flags & 2 == 2, Setup(s.reg, Pxm(c, e)).1;
            var fits := |s.blocks| < 2000 && node != NUMA_NO_NODE
                        && forall i :: 0 <= i < |s.blocks| && Conflicts(s.blocks[i], r)
                              && (forall j :: 0 <= j < i ==> !Conflicts(s.blocks[j], r))
                              ==> s.blocks[i].node == node && s.blocks[i].hotplug == hotplug;
            if fits then
              && Callback(c, s, e).blocks == s.blocks + [Block(r, node, hotplug)]
              && Callback(c, s, e).acpiNuma == s.acpiNuma && Callback(c, s, e).apic == s.apic
            else
              && Callback(c, s, e).acpiNuma == -1 && Callback(c, s, e).blocks == s.blocks
              && Callback(c, s, e).nodes == s.nodes && Callback(c, s, e).parsed == s.parsed
              && (forall k :: 0 <= k < |s.apic| ==> Callback(c, s, e).apic[k] == NUMA_NO_NODE)
              && (forall p :: PxmToNode(Callback(c, s, e).reg.slots, p) == NUMA_NO_NODE)
  {
    EnabledReaches(c, s, e);
    BitOne(e.flags);
    var b := Block(BlockRange(e), Setup(s.reg, Pxm(c, e)).1, HotPluggable(e));
    var f := FirstConflict(s.blocks, b.range);
    assert f < |s.blocks| ==> Conflicts(s.blocks[f], b.range);
  }

  /** The range of a block is the one announced exactly when its end does not wrap. */
  lemma BlockRangeIff(e: Entry)
    requires e.Memory? && e.base < 0x1_0000_0000 && e.size < 0x1_0000_0000
    ensures BlockRange(e) == Range(e.base, e.base + e.size) <==> e.base + e.size < 0x1_0000_0000
  {
  }

  // ----------------------------------------------------- blocks and entries, over runs

  /** The address range and hotplug bit that a memory entry announces. */
  datatype Piece = Piece(start: nat, end: nat, hotplug: bool)

  function Announces(e: Entry): seq<Piece> {
    if e.Memory? && e.flags & 1 == 1 then [Piece(e.base, (e.base + e.size) % 0x1_0000_0000, e.flags & 2 == 2)] else []
  }

  function Announced(entries: seq<Entry>): seq<Piece> {
    if entries == [] then [] else Announced(entries[..|entries| - 1]) + Announces(entries[|entries| - 1])
  }

  function Pieces(blocks: seq<Block>): seq<Piece> {
    seq(|blocks|, i requires 0 <= i < |blocks| => Piece(blocks[i].range.start, blocks[i].range.end, blocks[i].hotplug))
  }

  lemma CallbackPieces(c: Config, s: State, e: Entry)
    requires Shape(s) && s.acpiNuma >= 0 && !c.numaOff
    ensures var s' := Callback(c, s, e);
            if s'.acpiNuma < 0 then s'.blocks == s.blocks else Pieces(s'.blocks) == Pieces(s.blocks) + Announces(e)
  {
    BitOne(e.flags);
    BlocksAfter(c, s, e);
  }

  /** Conservation: unless the SRAT is rejected, the blocks are the ranges that the enabled
      memory entries announce, all of them, in order; after a rejection they are those of
      the entries before the rejected one. */
  lemma {:induction false} BlocksAreAnnounced(c: Config, boot: State, entries: seq<Entry>) returns (k: nat)
    requires Boots(boot) && boot.acpiNuma >= 0 && !c.numaOff
    ensures k <= |entries| && Pieces(Callbacks(c, boot, entries).blocks) == Announced(entries[..k])
    ensures Callbacks(c, boot, entries).acpiNuma >= 0 ==> k == |entries|
  {
    k := |entries|;
    assert entries[..k] == entries;
    if entries != [] {
      var most, e := entries[..|entries| - 1], entries[|entries| - 1];
      var before := Callbacks(c, boot, most);
      var j := BlocksAreAnnounced(c, boot, most);
      if before.acpiNuma >= 0 {
        CallbackPieces(c, before, e);
        assert most[..j] == most;
      }
      if Callbacks(c, boot, entries).acpiNuma < 0 {
        k := j;
        assert entries[..k] == most[..k];
      }
    }
  }

  /** The block comes from the memory entry, which is enabled; while the SRAT stands its
      node is registered for the entry's domain. */
  ghost predicate ComesFrom(c: Config, s: State, b: Block, e: Entry) {
    && e.Memory? && e.flags & 1 == 1 && b.hotplug == (e.flags & 2 == 2)
    && b.range == Range(e.base, (e.base + e.size) % 0x1_0000_0000)
    && (s.acpiNuma >= 0 ==> Registered(s.reg.slots, b.node, Pxm(c, e)))
  }

  ghost predicate HasOrigin(c: Config, s: State, b: Block, entries: seq<Entry>) {
    exists k :: 0 <= k < |entries| && ComesFrom(c, s, b, entries[k])
  }

  lemma CallbackKeepsOrigin(c: Config, s: State, e: Entry, b: Block, origin: Entry)
    requires TableOk(c, s) && ComesFrom(c, s, b, origin)
    ensures ComesFrom(c, Callback(c, s, e), b, origin)
  {
    if Reaches(c, s, e) {
      SetupKeepsRegistered(s.reg, Pxm(c, e), b.node, Pxm(c, origin));
    }
  }

  lemma NewBlockOrigin(c: Config, s: State, e: Entry)
    requires TableOk(c, s) && Adds(c, s, e)
    ensures ComesFrom(c, Callback(c, s, e), NewBlock(c, s, e), e)
  {
    BitOne(e.flags);
    SetupCounts(s.reg, Pxm(c, e));
    SetupRoundTrip(s.reg, Pxm(c, e));
  }

  ghost predicate AllHaveOrigins(c: Config, s: State, entries: seq<Entry>) {
    forall i :: 0 <= i < |s.blocks| ==> HasOrigin(c, s, s.blocks[i], entries)
  }

  lemma CallbackKeepsOrigins(c: Config, s: State, most: seq<Entry>, e: Entry)
    requires TableOk(c, s) && AllHaveOrigins(c, s, most)
    ensures AllHaveOrigins(c, Callback(c, s, e), most + [e])
  {
    var s', all := Callback(c, s, e), most + [e];
    BlocksAfter(c, s, e);
    forall i | 0 <= i < |s'.blocks| ensures HasOrigin(c, s', s'.blocks[i], all) {
      if i < |s.blocks| {
        assert HasOrigin(c, s, s.blocks[i], most);
        var k :| 0 <= k < |most| && ComesFrom(c, s, s.blocks[i], most[k]);
        CallbackKeepsOrigin(c, s, e, s.blocks[i], most[k]);
        assert all[k] == most[k];
      } else {
        NewBlockOrigin(c, s, e);
        assert all[|most|] == e;
      }
    }
  }

  /** Every block comes from an enabled memory entry of the list. */
  lemma {:induction false} BlocksHaveOrigins(c: Config, boot: State, entries: seq<Entry>)
    requires Boots(boot)
    ensures AllHaveOrigins(c, Callbacks(c, boot, entries), entries)
  {
    if entries != [] {
      var most, e := entries[..|entries| - 1], entries[|entries| - 1];
      BlocksHaveOrigins(c, boot, most);
      CallbacksAttribute(c, boot, most, 0);
      CallbackKeepsOrigins(c, Callbacks(c, boot, most), most, e);
      assert most + [e] == entries;
    }
  }

  /** While the SRAT stands, node_to_pxm takes each block's node back to the domain of the
      entry that announced the block. */
  lemma BlockNodeMapsBack(c: Config, boot: State, entries: seq<Entry>, i: nat) returns (k: nat)
    requires Boots(boot)
    requires Callbacks(c, boot, entries).acpiNuma >= 0 && i < |Callbacks(c, boot, entries).blocks|
    ensures var s := Callbacks(c, boot, entries);
            && k < |entries| && entries[k].Memory? && ComesFrom(c, s, s.blocks[i], entries[k])
            && NodeToPxm(s.reg.slots, s.blocks[i].node) == Pxm(c, entries[k])
  {
    var s := Callbacks(c, boot, entries);
    BlocksHaveOrigins(c, boot, entries);
    CallbacksAttribute(c, boot, entries, 0);
    assert HasOrigin(c, s, s.blocks[i], entries);
    k :| 0 <= k < |entries| && ComesFrom(c, s, s.blocks[i], entries[k]);
    RegisteredRoundTrip(s.reg, s.blocks[i].node, Pxm(c, entries[k]));
  }

  ghost predicate SomeAssigned(s: State) {
    exists id :: 0 <= id < |s.apic| && s.apic[id] != NUMA_NO_NODE
  }

  lemma CallbackCounts(c: Config, s: State, e: Entry)
    requires Shape(s) && (s.acpiNuma == 1 <==> SomeAssigned(s)) && -1 <= s.acpiNuma <= 1
    ensures var s' := Callback(c, s, e); (s'.acpiNuma == 1 <==> SomeAssigned(s')) && -1 <= s'.acpiNuma <= 1
  {
    var s' := Callback(c, s, e);
    if Enabled(e) && !e.Memory? && s.acpiNuma >= 0 && !c.numaOff {
      ApicEntry(c, s, e, Pxm(c, e));
      var id := if e.X2Apic? then e.x2ApicId else e.apicId;
      assert s'.acpiNuma == 1 ==> s'.apic[id] != NUMA_NO_NODE;
    } else if e.Memory? || !Reaches(c, s, e) {
      assert s'.apic == s.apic || s'.acpiNuma == -1;
    }
    BitOne(e.flags);
  }

  /** The coverage check is reached, acpi_numa being positive, exactly when some APIC id has
      a node. */
  lemma {:induction false} PositiveIffAssigned(c: Config, boot: State, entries: seq<Entry>)
    requires Boots(boot) && boot.acpiNuma == 0
    ensures var s := Callbacks(c, boot, entries);
            -1 <= s.acpiNuma <= 1 && (s.acpiNuma > 0 <==> SomeAssigned(s))
  {
    if entries != [] {
      PositiveIffAssigned(c, boot, entries[..|entries| - 1]);
      CallbackCounts(c, Callbacks(c, boot, entries[..|entries| - 1]), entries[|entries| - 1]);
    }
  }

  lemma CallbackRegistry(c: Config, s: State, e: Entry) returns (calls: seq<Call>)
    requires Shape(s)
    ensures Callback(c, s, e).reg == Run(s.reg, calls) && |calls| <= 2
    ensures Callback(c, s, e).acpiNuma >= 0 ==> OnlySetups(calls)
  {
    var setup := SetupNode(Pxm(c, e));
    assert [setup][..0] == [] && [BadSrat][..0] == [] && [setup, BadSrat][..1] == [setup];
    assert Run(s.reg, [setup]) == Setup(s.reg, Pxm(c, e)).0;
    assert Run(s.reg, [BadSrat]) == Bad(s).reg;
    assert Run(s.reg, [setup, BadSrat]) == Step(Run(s.reg, [setup]), BadSrat);
    calls := if Callback(c, s, e).reg == s.reg then []
             else if Reaches(c, s, e) then (if Callback(c, s, e).acpiNuma < 0 then [setup, BadSrat] else [setup])
             else [BadSrat];
  }

  /** The table under the callbacks is a table under some run of registrations and
      clearings, so everything proved about those runs holds of it. */
  lemma {:induction false} RegistryRun(c: Config, boot: State, entries: seq<Entry>) returns (calls: seq<Call>)
    requires Boots(boot)
    ensures Callbacks(c, boot, entries).reg == Run(boot.reg, calls) && |calls| <= 2 * |entries|
    ensures boot.acpiNuma >= 0 && Callbacks(c, boot, entries).acpiNuma >= 0 ==> OnlySetups(calls)
  {
    calls := [];
    if entries != [] {
      var most, e := entries[..|entries| - 1], entries[|entries| - 1];
      var earlier := RegistryRun(c, boot, most);
      var last := CallbackRegistry(c, Callbacks(c, boot, most), e);
      RunConcat(boot.reg, earlier, last);
      calls := earlier + last;
    }
  }
}
