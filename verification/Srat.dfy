/** The SRAT driver: file-level tables updated in place by the table callbacks, and the
    check that the node ranges cover all RAM. */
module SratDriver {
  import opened Common
  import opened PxmTable
  import opened Coverage
  import opened SratSpec

  class Srat {
    const cfg: Config

    const pxm2node: array<Slot>
    var nodesFound: nat

    const nodes: array<Range>
    var memoryNodesParsed: set<nat>

    const nodeMemblkRange: array<Range>
    const memblkNodeid: array<nat>
    const memblkHotplug: array<bool>
    var numNodeMemblks: nat

    const apicidToNode: array<nat>
    var acpiNuma: int

    /** The tables are separate pieces of storage. */
    ghost predicate Distinct() {
      && (pxm2node as object != nodes) && (pxm2node as object != nodeMemblkRange)
      && (pxm2node as object != memblkNodeid) && (pxm2node as object != memblkHotplug)
      && (pxm2node as object != apicidToNode) && nodes != nodeMemblkRange
      && (nodes as object != memblkNodeid) && (nodes as object != memblkHotplug)
      && (nodes as object != apicidToNode) && (nodeMemblkRange as object != memblkNodeid)
      && (nodeMemblkRange as object != memblkHotplug) && (nodeMemblkRange as object != apicidToNode)
      && (memblkNodeid as object != memblkHotplug) && memblkNodeid != apicidToNode
      && (memblkHotplug as object != apicidToNode)
    }

    ghost predicate Valid()
      reads this, pxm2node
    {
      && pxm2node.Length == nodes.Length == MAX_NUMNODES
      && apicidToNode.Length == MAX_LOCAL_APIC
      && nodeMemblkRange.Length == memblkNodeid.Length == memblkHotplug.Length == NR_NODE_MEMBLKS
      && numNodeMemblks <= NR_NODE_MEMBLKS
      && Distinct()
      && nodesFound < U32
      && forall i :: 0 <= i < MAX_NUMNODES && Occupied(pxm2node[i]) ==> pxm2node[i].node < MAX_NUMNODES
    }

    ghost function Table(): Registry
      reads this, pxm2node
    {
      Registry(pxm2node[..], nodesFound)
    }

    ghost function Blocks(): (bs: seq<Block>)
      requires Valid()
      reads this, pxm2node, nodeMemblkRange, memblkNodeid, memblkHotplug
      ensures |bs| == numNodeMemblks
    {
      seq(numNodeMemblks,
          i requires 0 <= i < numNodeMemblks && Valid()
            reads this, pxm2node, nodeMemblkRange, memblkNodeid, memblkHotplug =>
            Block(nodeMemblkRange[i], memblkNodeid[i], memblkHotplug[i]))
    }

    ghost function View(): (s: State)
      requires Valid()
      reads this, pxm2node, nodes, nodeMemblkRange, memblkNodeid, memblkHotplug, apicidToNode
      ensures Shape(s)
    {
      State(Table(), nodes[..], memoryNodesParsed, Blocks(), apicidToNode[..], acpiNuma)
    }

    constructor (cfg: Config, acpiNuma: int)
      ensures Valid() && fresh(pxm2node) && fresh(nodes) && fresh(nodeMemblkRange)
      ensures fresh(memblkNodeid) && fresh(memblkHotplug) && fresh(apicidToNode)
      ensures this.cfg == cfg && Boots(View()) && View().acpiNuma == acpiNuma
    {
      this.cfg := cfg;
      pxm2node := new Slot[MAX_NUMNODES](_ => Slot(0, NUMA_NO_NODE));
      nodesFound := 0;
      nodes := new Range[MAX_NUMNODES](_ => Range(0, 0));
      memoryNodesParsed := {};
      nodeMemblkRange := new Range[NR_NODE_MEMBLKS](_ => Range(0, 0));
      memblkNodeid := new nat[NR_NODE_MEMBLKS](_ => 0);
      memblkHotplug := new bool[NR_NODE_MEMBLKS](_ => false);
      numNodeMemblks := 0;
      apicidToNode := new nat[MAX_LOCAL_APIC](_ => NUMA_NO_NODE);
      this.acpiNuma := acpiNuma;
    }

    method PxmToNodeId(pxm: nat) returns (node: nat)
      requires Valid()
      ensures node == PxmToNode(pxm2node[..], pxm)
      ensures node == NUMA_NO_NODE <==> !Known(pxm2node[..], pxm)
      ensures node != NUMA_NO_NODE ==> Registered(pxm2node[..], node, pxm)
    {
      LookupExact(pxm2node[..], pxm);
      if pxm < pxm2node.Length && Matches(OfPxm(pxm), pxm2node[pxm]) {
        return pxm2node[pxm].node;
      }
      var i := 0;
      while i < pxm2node.Length
        invariant i <= pxm2node.Length
        invariant forall j :: 0 <= j < i ==> !Matches(OfPxm(pxm), pxm2node[..][j])
      {
        if Matches(OfPxm(pxm), pxm2node[i]) {
          assert Matches(OfPxm(pxm), pxm2node[..][i]);
          return pxm2node[i].node;
        }
        i := i + 1;
      }
      return NUMA_NO_NODE;
    }

    method NodeIdToPxm(n: nat) returns (pxm: nat)
      requires Valid()
      ensures pxm == NodeToPxm(pxm2node[..], n)
    {
      if n < pxm2node.Length && pxm2node[n].node == n {
        return pxm2node[n].pxm;
      }
      var i := 0;
      while i < pxm2node.Length
        invariant i <= pxm2node.Length
        invariant forall j :: 0 <= j < i ==> !Matches(OfNode(n), pxm2node[..][j])
      {
        if pxm2node[i].node == n {
          assert Matches(OfNode(n), pxm2node[..][i]);
          return pxm2node[i].pxm;
        }
        i := i + 1;
      }
      return 0;
    }

    method SetupNode(pxm: nat) returns (node: nat)
      requires Valid()
      modifies this`nodesFound, pxm2node
      ensures Valid()
      ensures (Table(), node) == Setup(old(Table()), pxm)
    {
      ghost var t := pxm2node[..];
      var idx := pxm2node.Length;
      if pxm < pxm2node.Length {
        if Matches(OfPxm(pxm), pxm2node[pxm]) {
          return pxm2node[pxm].node;
        }
        if !Occupied(pxm2node[pxm]) {
          idx := pxm;
        }
      }
      if idx == pxm2node.Length {
        idx := 0;
        while idx < pxm2node.Length && Occupied(pxm2node[idx])
          invariant idx <= pxm2node.Length
          invariant forall j :: 0 <= j < idx ==> !Matches(Free, t[j])
        {
          idx := idx + 1;
        }
        assert idx < |t| ==> Matches(Free, t[idx]);
        if idx == pxm2node.Length {
          return NUMA_NO_NODE;
        }
      }
      assert idx == TargetSlot(t, pxm);
      node := nodesFound;
      nodesFound := (nodesFound + 1) % U32;
      if node >= MAX_NUMNODES {
        return NUMA_NO_NODE;
      }
      pxm2node[idx] := Slot(pxm, node);
      assert pxm2node[..] == t[idx := Slot(pxm, node)];
    }

    method ValidNumaRange(start: nat, end: nat, node: nat) returns (r: int)
      requires Valid()
      ensures r == 0 || r == 1
      ensures r == 1 <==> ValidRange(Blocks(), Range(start, end), node)
      ensures r == 1 <==> exists i :: 0 <= i < numNodeMemblks && memblkNodeid[i] == node
                            && nodeMemblkRange[i].start <= start && end <= nodeMemblkRange[i].end
    {
      var i := 0;
      while i < numNodeMemblks
        invariant i <= numNodeMemblks
        invariant forall j :: 0 <= j < i ==>
          var b := Blocks()[j]; !(b.range.start <= start && end <= b.range.end && b.node == node)
        invariant forall j :: 0 <= j < i ==>
          !(memblkNodeid[j] == node && nodeMemblkRange[j].start <= start && end <= nodeMemblkRange[j].end)
      {
        var nd := nodeMemblkRange[i];
        assert Blocks()[i] == Block(nd, memblkNodeid[i], memblkHotplug[i]);
        if nd.start <= start && nd.end >= end && memblkNodeid[i] == node {
          return 1;
        }
        i := i + 1;
      }
      return 0;
    }

    /** Index of the first conflicting block, -1 for none. */
    method ConflictingMemblks(start: nat, end: nat) returns (r: int)
      requires Valid()
      ensures var i := FirstConflict(Blocks(), Range(start, end));
              r == if i < numNodeMemblks then i else -1
    {
      var i := 0;
      while i < numNodeMemblks
        invariant i <= numNodeMemblks
        invariant forall j :: 0 <= j < i ==> !Conflicts(Blocks()[j], Range(start, end))
      {
        var nd := nodeMemblkRange[i];
        assert Blocks()[i] == Block(nd, memblkNodeid[i], memblkHotplug[i]);
        if nd.start != nd.end {
          if nd.end > start && nd.start < end {
            return i;
          }
          if nd.end == end && nd.start == start {
            return i;
          }
        }
        i := i + 1;
      }
      return -1;
    }

    /** Replaces the node's range by its intersection with [start, end). */
    method CutoffNode(i: nat, start: nat, end: nat)
      requires Valid() && i < MAX_NUMNODES
      modifies nodes
      ensures Intersection(old(nodes[i]), nodes[i], Range(start, end))
      ensures forall j :: 0 <= j < MAX_NUMNODES && j != i ==> nodes[j] == old(nodes[j])
    {
      if nodes[i].start < start {
        nodes[i] := nodes[i].(start := start);
        if nodes[i].end < nodes[i].start {
          nodes[i] := nodes[i].(start := nodes[i].end);
        }
      }
      if nodes[i].end > end {
        nodes[i] := nodes[i].(end := end);
        if nodes[i].start > nodes[i].end {
          nodes[i] := nodes[i].(start := nodes[i].end);
        }
      }
    }

    method BadSrat()
      requires Valid()
      modifies this`acpiNuma, pxm2node, apicidToNode
      ensures Valid() && View() == Bad(old(View()))
    {
      acpiNuma := -1;
      for i := 0 to MAX_LOCAL_APIC
        modifies apicidToNode
        invariant forall j :: 0 <= j < i ==> apicidToNode[j] == NUMA_NO_NODE
      {
        apicidToNode[i] := NUMA_NO_NODE;
      }
      for i := 0 to pxm2node.Length
        modifies pxm2node
        invariant forall j :: 0 <= j < i ==> pxm2node[j] == Slot(old(pxm2node[j].pxm), NUMA_NO_NODE)
        invariant forall j :: i <= j < pxm2node.Length ==> pxm2node[j] == old(pxm2node[j])
      {
        pxm2node[i] := Slot(pxm2node[i].pxm, NUMA_NO_NODE);
      }
      assert pxm2node[..] == Cleared(old(pxm2node[..]));
      assert apicidToNode[..] == Bad(old(View())).apic;
      assert Blocks() == old(Blocks());
    }

    /** Registers the domain of a processor entry and records it for the APIC id. */
    method AssignApic(e: Entry, id: nat, pxm: nat) returns (node: nat)
      requires Valid() && Reaches(cfg, View(), e) && !e.Memory? && NamesApic(e, id) && pxm == Pxm(cfg, e)
      modifies this`nodesFound, this`acpiNuma, pxm2node, apicidToNode
      ensures Valid() && View() == Callback(cfg, old(View()), e)
    {
      ghost var s := View();
      node := SetupNode(pxm);
      assert Blocks() == s.blocks;
      assert View() == s.(reg := Setup(s.reg, pxm).0);
      if node == NUMA_NO_NODE {
        BadSrat();
        return;
      }
      apicidToNode[id] := node;
      acpiNuma := 1;
      assert Blocks() == s.blocks;
      assert View() == Commit(s.(reg := Setup(s.reg, pxm).0), e, node);
    }

    method X2ApicAffinity(e: Entry)
      requires Valid() && e.X2Apic?
      modifies this, pxm2node, apicidToNode
      ensures Valid() && View() == Callback(cfg, old(View()), e)
    {
      if acpiNuma < 0 || cfg.numaOff {
        return;
      }
      if e.length < X2APIC_LENGTH {
        BadSrat();
        return;
      }
      if e.flags & ENABLED == 0 {
        return;
      }
      if e.x2ApicId >= MAX_LOCAL_APIC {
        return;
      }
      assert Reaches(cfg, old(View()), e);
      var _ := AssignApic(e, e.x2ApicId, Pxm(cfg, e));
    }

    method ProcessorAffinity(e: Entry)
      requires Valid() && e.Processor?
      modifies this, pxm2node, apicidToNode
      ensures Valid() && View() == Callback(cfg, old(View()), e)
    {
      if acpiNuma < 0 || cfg.numaOff {
        return;
      }
      if e.length != PROCESSOR_LENGTH {
        BadSrat();
        return;
      }
      if !(e.flags != 0 && ENABLED != 0) {
        return;
      }
      var pxm := ProcessorDomain(e);
      assert Reaches(cfg, old(View()), e);
      var _ := AssignApic(e, e.apicId, pxm as nat);
    }

    method ProcessorDomain(e: Entry) returns (pxm: bv32)
      requires e.Processor?
      ensures pxm == DomainBits(cfg, e)
    {
      pxm := e.lo;
      if cfg.rev >= 2 {
        pxm := AddByte(pxm, e.hi0, 8);
        pxm := AddByte(pxm, e.hi1, 16);
        pxm := AddByte(pxm, e.hi2, 24);
      }
    }

    method MemoryAffinity(e: Entry)
      requires Valid() && e.Memory?
      modifies this, pxm2node, nodes, nodeMemblkRange, memblkNodeid, memblkHotplug, apicidToNode
      ensures Valid() && View() == Callback(cfg, old(View()), e)
    {
      if acpiNuma < 0 || cfg.numaOff {
        return;
      }
      if e.length != MEMORY_LENGTH {
        BadSrat();
        return;
      }
      if e.flags & ENABLED == 0 {
        return;
      }
      var start := e.base;
      var end := (start + e.size) % U32;
      if numNodeMemblks >= NR_NODE_MEMBLKS {
        BadSrat();
        return;
      }
      var pxm := MemoryDomain(e);
      assert Reaches(cfg, old(View()), e);
      var node := SetupNode(pxm);
      assert Blocks() == old(Blocks());
      assert View() == old(View()).(reg := Setup(old(View()).reg, pxm).0);
      if node == NUMA_NO_NODE {
        BadSrat();
        return;
      }
      CommitMemory(e, start, end, node);
    }

    method MemoryDomain(e: Entry) returns (domain: nat)
      requires e.Memory?
      ensures domain == Pxm(cfg, e)
    {
      var pxm := e.domain;
      if cfg.rev < 2 {
        pxm := pxm & 0xff;
      }
      domain := pxm as nat;
    }

    /** The conflict check of the memory callback and what follows it.  Repair: -1 from the
        conflict search means that nothing conflicts. */
    method CommitMemory(e: Entry, start: nat, end: nat, node: nat)
      requires Valid() && e.Memory? && Registers(e) && Range(start, end) == BlockRange(e)
      requires node < MAX_NUMNODES && numNodeMemblks < NR_NODE_MEMBLKS
      modifies this, pxm2node, nodes, nodeMemblkRange, memblkNodeid, memblkHotplug, apicidToNode
      ensures Valid() && View() == Commit(old(View()), e, node)
    {
      var i := ConflictingMemblks(start, end);
      if i >= 0 {
        assert Blocks()[i] == Block(nodeMemblkRange[i], memblkNodeid[i], memblkHotplug[i]);
        if memblkNodeid[i] == node {
          var mismatch := (e.flags & HOT_PLUGGABLE == 0) != !memblkHotplug[i];
          if mismatch {
            BadSrat();
            return;
          }
        } else {
          BadSrat();
          return;
        }
      }
      AddMemblk(start, end, node, e.flags & HOT_PLUGGABLE != 0);
    }

    /** The tail of the memory callback, after every check has passed. */
    method AddMemblk(start: nat, end: nat, node: nat, hotplug: bool)
      requires Valid() && node < MAX_NUMNODES && numNodeMemblks < NR_NODE_MEMBLKS
      modifies this`memoryNodesParsed, this`numNodeMemblks, nodes, nodeMemblkRange, memblkNodeid, memblkHotplug
      ensures Valid() && View() == Accept(old(View()), Block(Range(start, end), node, hotplug))
    {
      ghost var s := View();
      if !hotplug {
        if node !in memoryNodesParsed {
          memoryNodesParsed := memoryNodesParsed + {node};
          nodes[node] := Range(start, end);
        } else {
          if start < nodes[node].start {
            nodes[node] := nodes[node].(start := start);
          }
          if nodes[node].end < end {
            nodes[node] := nodes[node].(end := end);
          }
        }
      }
      nodeMemblkRange[numNodeMemblks] := Range(start, end);
      memblkNodeid[numNodeMemblks] := node;
      memblkHotplug[numNodeMemblks] := hotplug;
      numNodeMemblks := numNodeMemblks + 1;
      assert Blocks() == s.blocks + [Block(Range(start, end), node, hotplug)];
      assert nodes[..] == Accept(s, Block(Range(start, end), node, hotplug)).nodes;
      assert memoryNodesParsed == Accept(s, Block(Range(start, end), node, hotplug)).parsed;
    }

    /** 1 if and only if every address of every RAM range lies in some parsed node. */
    method NodesCoverMemory(e820: seq<MapEntry>) returns (r: int)
      requires Valid()
      ensures r == 0 || r == 1
      ensures r == 1 <==> MapCovered(nodes[..], memoryNodesParsed, e820)
    {
      var i := 0;
      while i < |e820|
        invariant i <= |e820|
        invariant MapCovered(nodes[..], memoryNodesParsed, e820[..i])
      {
        if e820[i].ram {
          var ram := RamRange(e820[i]);
          var start: nat, end: nat := ram.start, ram.end;
          while true
            invariant ram.start <= start && end <= ram.end
            invariant forall a: nat :: Within(a, ram) && !Within(a, Range(start, end)) ==>
              Covered(nodes[..], memoryNodesParsed, a)
            decreases end - start
          {
            var start', end', found := TrimPass(start, end);
            assert found ==> end' - start' < end - start;
            if !found && start < end {
              assert Within(start, ram);
            }
            start, end := start', end';
            if !(found && start < end) {
              break;
            }
          }
          if start < end {
            assert Within(start, ram) && !Covered(nodes[..], memoryNodesParsed, start);
            return 0;
          }
          assert RangeCovered(nodes[..], memoryNodesParsed, ram);
        }
        assert e820[..i + 1] == e820[..i] + [e820[i]];
        i := i + 1;
      }
      assert e820[..|e820|] == e820;
      return 1;
    }

    /** One pass over the parsed nodes: trims the range from both sides, removes only
        covered addresses, shrinks the range if it reports progress, and otherwise leaves a
        first address that no parsed node covers. */
    method TrimPass(start0: nat, end0: nat) returns (start: nat, end: nat, found: bool)
      requires Valid()
      ensures start0 <= start && end <= end0
      ensures forall a: nat :: Within(a, Range(start0, end0)) && !Within(a, Range(start, end)) ==>
                Covered(nodes[..], memoryNodesParsed, a)
      ensures found ==> end - start < end0 - start0
      ensures !found ==> start == start0 && end == end0
      ensures !found && start < end ==> !Covered(nodes[..], memoryNodesParsed, start)
    {
      start, end, found := start0, end0, false;
      var j := 0;
      while j < MAX_NUMNODES
        invariant j <= MAX_NUMNODES
        invariant start0 <= start && end <= end0
        invariant forall a: nat :: Within(a, Range(start0, end0)) && !Within(a, Range(start, end)) ==>
          Covered(nodes[..], memoryNodesParsed, a)
        invariant found ==> end - start < end0 - start0
        invariant !found ==> start == start0 && end == end0
        invariant !found && start < end ==>
          forall n :: 0 <= n < j && n in memoryNodesParsed ==> !Within(start, nodes[n])
      {
        if j in memoryNodesParsed {
          var nd := nodes[j];
          assert forall a: nat :: Within(a, nd) ==> Within(a, nodes[..][j]);
          if start < nd.end && end > nd.start {
            if start >= nd.start {
              start := nd.end;
              found := true;
            }
            if end <= nd.end {
              end := nd.start;
              found := true;
            }
          }
        }
        j := j + 1;
      }
    }

    /** Up to the coverage decision: clips every node to the window, then passes (0) exactly
        when each RAM address lies in the window and in some parsed node as it was before
        clipping; otherwise the SRAT is rejected. */
    method ScanNodes(start: nat, end: nat, e820: seq<MapEntry>) returns (r: int)
      requires Valid()
      modifies this`acpiNuma, nodes, pxm2node, apicidToNode
      ensures Valid() && (r == 0 || r == -1)
      ensures old(acpiNuma) > 0 ==>
                (r == 0 <==>
                 forall i, a: nat :: 0 <= i < |e820| && e820[i].ram && Within(a, RamRange(e820[i])) ==>
                   Within(a, Range(start, end)) && Covered(old(nodes[..]), memoryNodesParsed, a))
      ensures old(acpiNuma) <= 0 ==> r == -1
      ensures Clipped(old(nodes[..]), nodes[..], Range(start, end))
      ensures var clipped := old(View()).(nodes := nodes[..]);
              View() == if old(acpiNuma) > 0 && r == -1 then Bad(clipped) else clipped
    {
      for i := 0 to MAX_NUMNODES
        modifies nodes
        invariant forall n :: 0 <= n < i ==> Intersection(old(nodes[n]), nodes[n], Range(start, end))
        invariant forall n :: i <= n < MAX_NUMNODES ==> nodes[n] == old(nodes[n])
      {
        CutoffNode(i, start, end);
      }
      assert Blocks() == old(Blocks());
      if acpiNuma <= 0 {
        return -1;
      }
      ClippedCover(old(nodes[..]), nodes[..], memoryNodesParsed, Range(start, end));
      var ok := NodesCoverMemory(e820);
      if ok == 0 {
        BadSrat();
        return -1;
      }
      return 0;
    }
  }
}
