/** The table that maps ACPI proximity domains to dense node ids.

    This module specifies the table on values and proves what holds over every run of
    registrations and clearings; module Srat updates the table in place and is proved
    against these functions. */
module PxmTable {
  import opened Common

  const MAX_NUMNODES: nat := 1000

  /** Repair: the source defines the marker as 0, which is also a node id.  The marker is
      kept outside the id range, as the source's own (commented out) build check asks. */
  const NUMA_NO_NODE: nat := 0xffff

  datatype Slot = Slot(pxm: nat, node: nat)

  /** The table together with the counter of ids handed out, a 32-bit unsigned. */
  datatype Registry = Registry(slots: seq<Slot>, nodesFound: nat)

  datatype Query = Free | OfPxm(pxm: nat) | OfNode(node: nat)

  predicate Occupied(s: Slot) {
    s.node != NUMA_NO_NODE
  }

  predicate Matches(q: Query, s: Slot) {
    match q
    case Free => !Occupied(s)
    case OfPxm(p) => s.pxm == p && Occupied(s)
    case OfNode(n) => s.node == n
  }

  /** Index of the first slot that answers the query, |t| when none does. */
  function First(t: seq<Slot>, q: Query): (i: nat)
    ensures i <= |t|
    ensures forall j :: 0 <= j < i ==> !Matches(q, t[j])
    ensures i < |t| ==> Matches(q, t[i])
  {
    if t == [] || Matches(q, t[0]) then 0 else 1 + First(t[1..], q)
  }

  function PxmToNode(t: seq<Slot>, pxm: nat): nat {
    if pxm < |t| && Matches(OfPxm(pxm), t[pxm]) then t[pxm].node
    else
      var i := First(t, OfPxm(pxm));
      if i < |t| then t[i].node else NUMA_NO_NODE
  }

  function NodeToPxm(t: seq<Slot>, n: nat): nat {
    if n < |t| && Matches(OfNode(n), t[n]) then t[n].pxm
    else
      var i := First(t, OfNode(n));
      if i < |t| then t[i].pxm else 0
  }

  predicate InOwnSlot(t: seq<Slot>, pxm: nat) {
    pxm < |t| && Matches(OfPxm(pxm), t[pxm])
  }

  /** Where a new registration of pxm goes: its own slot if free, else the first free slot. */
  function TargetSlot(t: seq<Slot>, pxm: nat): (i: nat)
    ensures i <= |t|
    ensures i < |t| ==> !Occupied(t[i])
  {
    if pxm < |t| && !Occupied(t[pxm]) then pxm else First(t, Free)
  }

  function Setup(r: Registry, pxm: nat): (Registry, nat) {
    if InOwnSlot(r.slots, pxm) then (r, r.slots[pxm].node)
    else
      var i := TargetSlot(r.slots, pxm);
      if i == |r.slots| then (r, NUMA_NO_NODE)
      else
        var counted := r.(nodesFound := (r.nodesFound + 1) % U32);
        if r.nodesFound >= MAX_NUMNODES then (counted, NUMA_NO_NODE)
        else (counted.(slots := r.slots[i := Slot(pxm, r.nodesFound)]), r.nodesFound)
  }

  /** What bad_srat does to the table: ids go, domains and the id counter stay. */
  function Cleared(t: seq<Slot>): (c: seq<Slot>)
    ensures |c| == |t|
    ensures forall i :: 0 <= i < |t| ==> c[i] == Slot(t[i].pxm, NUMA_NO_NODE)
  {
    seq(|t|, i requires 0 <= i < |t| => Slot(t[i].pxm, NUMA_NO_NODE))
  }

  datatype Call = SetupNode(pxm: nat) | BadSrat

  function Step(r: Registry, c: Call): Registry {
    match c
    case SetupNode(p) => Setup(r, p).0
    case BadSrat => r.(slots := Cleared(r.slots))
  }

  function Run(r: Registry, calls: seq<Call>): Registry {
    if calls == [] then r else Step(Run(r, calls[..|calls| - 1]), calls[|calls| - 1])
  }

  predicate AllFree(t: seq<Slot>) {
    |t| == MAX_NUMNODES && forall i :: 0 <= i < |t| ==> !Occupied(t[i])
  }

  predicate Boot(r: Registry) {
    AllFree(r.slots) && r.nodesFound == 0
  }

  // ---------------------------------------------------------------- stable lookups

  /** A domain stored away from its own slot found that slot (if it exists) taken by
      another domain, and every slot before its first occurrence taken. */
  ghost predicate Placed(t: seq<Slot>) {
    forall i :: 0 <= i < |t| && Occupied(t[i]) && t[i].pxm != i ==> PlacedAway(t, t[i].pxm)
  }

  ghost predicate PlacedAway(t: seq<Slot>, p: nat) {
    && (p < |t| ==> Occupied(t[p]) && t[p].pxm != p)
    && forall j :: 0 <= j < First(t, OfPxm(p)) ==> Occupied(t[j])
  }

  /** Filling a free slot cannot move the first occurrence of a domain all of whose
      earlier slots are taken. */
  lemma FillKeepsFirst(t: seq<Slot>, i: nat, s: Slot, p: nat)
    requires i < |t| && !Occupied(t[i]) && Occupied(s)
    requires First(t, OfPxm(p)) < |t|
    requires forall j :: 0 <= j < First(t, OfPxm(p)) ==> Occupied(t[j])
    ensures First(t[i := s], OfPxm(p)) == First(t, OfPxm(p))
  {
    var u, f := t[i := s], First(t, OfPxm(p));
    assert u[f] == t[f];
    assert forall j :: 0 <= j < f ==> u[j] == t[j];
  }

  lemma SetupKeepsPlaced(r: Registry, pxm: nat)
    requires Placed(r.slots)
    ensures Placed(Setup(r, pxm).0.slots)
  {
    var t, u := r.slots, Setup(r, pxm).0.slots;
    if u != t {
      var i := TargetSlot(t, pxm);
      assert u == t[i := Slot(pxm, r.nodesFound)];
      forall k | 0 <= k < |u| && Occupied(u[k]) && u[k].pxm != k
        ensures PlacedAway(u, u[k].pxm)
      {
        var p := u[k].pxm;
        if k != i {
          assert u[k] == t[k] && PlacedAway(t, p);
          FillKeepsFirst(t, i, u[i], p);
        } else if First(t, OfPxm(p)) < |t| {
          var f := First(t, OfPxm(p));
          assert t[f].pxm == p;
          assert f != p && PlacedAway(t, p);
          FillKeepsFirst(t, i, u[i], p);
        } else {
          assert forall j :: 0 <= j < i ==> u[j] == t[j] && Occupied(t[j]);
          assert First(u, OfPxm(p)) == i;
        }
      }
    }
  }

  /** Once a domain has an answer no registration, of it or of any other, changes it. */
  lemma SetupKeepsLookup(r: Registry, pxm: nat, p: nat)
    requires Placed(r.slots)
    requires PxmToNode(r.slots, p) != NUMA_NO_NODE
    ensures PxmToNode(Setup(r, pxm).0.slots, p) == PxmToNode(r.slots, p)
  {
    var t, u := r.slots, Setup(r, pxm).0.slots;
    if u != t && !InOwnSlot(t, p) {
      var i, f := TargetSlot(t, pxm), First(t, OfPxm(p));
      assert f < |t| && t[f].pxm == p && PlacedAway(t, p);
      FillKeepsFirst(t, i, u[i], p);
      assert u[f] == t[f];
      assert p < |u| ==> u[p] == t[p];
    }
  }

  /** Some slot holds the domain with an id. */
  ghost predicate Known(t: seq<Slot>, pxm: nat) {
    exists i :: 0 <= i < |t| && t[i].pxm == pxm && Occupied(t[i])
  }

  /** Some slot holds the domain with this id. */
  ghost predicate Registered(t: seq<Slot>, node: nat, pxm: nat) {
    node != NUMA_NO_NODE && exists i :: 0 <= i < |t| && t[i] == Slot(pxm, node)
  }

  /** A domain has an answer exactly when an occupied slot holds it, and the answer is an id
      stored with that very domain: the one in its own slot, if that is its, and else the
      one in the first slot that holds it. */
  lemma LookupExact(t: seq<Slot>, pxm: nat)
    ensures PxmToNode(t, pxm) != NUMA_NO_NODE <==> Known(t, pxm)
    ensures Known(t, pxm) ==> Registered(t, PxmToNode(t, pxm), pxm)
    ensures forall i :: 0 <= i < |t| && t[i].pxm == pxm && Occupied(t[i]) && i == pxm ==> PxmToNode(t, pxm) == t[i].node
    ensures forall i :: 0 <= i < |t| && t[i].pxm == pxm && Occupied(t[i])
                        && (forall j :: 0 <= j < i || (j == pxm < |t|) ==> t[j].pxm != pxm || !Occupied(t[j]))
                        ==> PxmToNode(t, pxm) == t[i].node
  {
    var f := First(t, OfPxm(pxm));
    if i :| 0 <= i < |t| && t[i].pxm == pxm && Occupied(t[i]) {
      assert Matches(OfPxm(pxm), t[i]) && f <= i;
    }
    if f < |t| {
      assert t[f] == Slot(pxm, t[f].node);
    }
    if InOwnSlot(t, pxm) {
      assert t[pxm] == Slot(pxm, t[pxm].node);
    }
  }

  /** The first registration of a domain answers with the id it returned. */
  lemma FirstRegistration(r: Registry, pxm: nat)
    requires !Known(r.slots, pxm)
    requires Setup(r, pxm).1 != NUMA_NO_NODE
    ensures PxmToNode(Setup(r, pxm).0.slots, pxm) == Setup(r, pxm).1
  {
    var t, u := r.slots, Setup(r, pxm).0.slots;
    var i := TargetSlot(t, pxm);
    var f, g := First(t, OfPxm(pxm)), First(u, OfPxm(pxm));
    assert f == |t|;
    assert Matches(OfPxm(pxm), u[i]) && g <= i;
    assert forall j :: 0 <= j < i ==> u[j] == t[j] && !Matches(OfPxm(pxm), t[j]);
  }

  lemma {:induction false} RunPlaced(r: Registry, calls: seq<Call>)
    requires Placed(r.slots)
    ensures Placed(Run(r, calls).slots)
  {
    if calls != [] {
      var before, last := calls[..|calls| - 1], calls[|calls| - 1];
      RunPlaced(r, before);
      match last {
        case SetupNode(p) => SetupKeepsPlaced(Run(r, before), p);
        case BadSrat =>
      }
    }
  }

  predicate OnlySetups(calls: seq<Call>) {
    forall i :: 0 <= i < |calls| ==> calls[i].SetupNode?
  }

  lemma {:induction false} LookupStableFrom(r: Registry, later: seq<Call>, p: nat)
    requires Placed(r.slots) && OnlySetups(later)
    requires PxmToNode(r.slots, p) != NUMA_NO_NODE
    ensures PxmToNode(Run(r, later).slots, p) == PxmToNode(r.slots, p)
  {
    if later != [] {
      var most := later[..|later| - 1];
      LookupStableFrom(r, most, p);
      RunPlaced(r, most);
      SetupKeepsLookup(Run(r, most), later[|later| - 1].pxm, p);
    }
  }

  lemma {:induction false} RunConcat(r: Registry, a: seq<Call>, b: seq<Call>)
    ensures Run(r, a + b) == Run(Run(r, a), b)
  {
    if b == [] {
      assert a + b == a;
    } else {
      RunConcat(r, a, b[..|b| - 1]);
      assert (a + b)[..|a + b| - 1] == a + b[..|b| - 1];
    }
  }

  /** Main result: from any state a boot can reach, with any earlier clearings, an answer
      of pxm_to_node survives every later sequence of registrations, and it is an id stored
      with that domain then and now. */
  lemma LookupStable(boot: Registry, history: seq<Call>, later: seq<Call>, p: nat)
    requires Boot(boot) && OnlySetups(later)
    requires PxmToNode(Run(boot, history).slots, p) != NUMA_NO_NODE
    ensures PxmToNode(Run(boot, history + later).slots, p) == PxmToNode(Run(boot, history).slots, p)
    ensures Registered(Run(boot, history).slots, PxmToNode(Run(boot, history).slots, p), p)
    ensures Registered(Run(boot, history + later).slots, PxmToNode(Run(boot, history).slots, p), p)
  {
    LookupExact(Run(boot, history).slots, p);
    LookupExact(Run(boot, history + later).slots, p);
    RunPlaced(boot, history);
    LookupStableFrom(Run(boot, history), later, p);
    RunConcat(boot, history, later);
  }

  // ------------------------------------------------------- distinct ids, full table

  /** Occupied slots hold pairwise distinct ids below the counter. */
  ghost predicate Ids(r: Registry) {
    && |r.slots| == MAX_NUMNODES
    && (forall i :: 0 <= i < |r.slots| && Occupied(r.slots[i]) ==>
          r.slots[i].node < r.nodesFound && r.slots[i].node < MAX_NUMNODES)
    && (forall i, j :: 0 <= i < j < |r.slots| && Occupied(r.slots[i]) && Occupied(r.slots[j]) ==>
          r.slots[i].node != r.slots[j].node)
  }

  predicate HandsOutId(r: Registry, pxm: nat) {
    !InOwnSlot(r.slots, pxm) && TargetSlot(r.slots, pxm) < |r.slots|
  }

  /** One registration keeps the ids distinct and below the counter exactly when it does
      not wrap the 32-bit counter while some slot is still occupied. */
  lemma SetupKeepsIdsIff(r: Registry, pxm: nat)
    requires Ids(r) && r.nodesFound < U32
    ensures Ids(Setup(r, pxm).0) <==>
            !(HandsOutId(r, pxm) && r.nodesFound == U32 - 1
              && exists i :: 0 <= i < |r.slots| && Occupied(r.slots[i]))
  {
    var u := Setup(r, pxm).0;
    if HandsOutId(r, pxm) {
      if r.nodesFound == U32 - 1 {
        assert u.nodesFound == 0 && u.slots == r.slots;
        if i :| 0 <= i < |r.slots| && Occupied(r.slots[i]) {
          assert !(u.slots[i].node < u.nodesFound);
        }
      } else if r.nodesFound < MAX_NUMNODES {
        var k := TargetSlot(r.slots, pxm);
        assert forall i :: 0 <= i < |u.slots| && i != k ==> u.slots[i] == r.slots[i];
      }
    }
  }

  lemma StepKeepsIds(r: Registry, c: Call)
    requires Ids(r) && r.nodesFound < U32 - 1
    ensures Ids(Step(r, c)) && Step(r, c).nodesFound <= r.nodesFound + 1
  {
    match c
    case SetupNode(p) => SetupKeepsIdsIff(r, p);
    case BadSrat =>
  }

  /** The counter is at most the number of calls made, so it cannot wrap in a run shorter
      than 2^32 calls; over every such run the ids stay distinct. */
  lemma {:induction false} RunIds(boot: Registry, calls: seq<Call>)
    requires Boot(boot) && |calls| < U32
    ensures Ids(Run(boot, calls))
    ensures Run(boot, calls).nodesFound <= |calls|
  {
    if calls != [] {
      var before := calls[..|calls| - 1];
      RunIds(boot, before);
      StepKeepsIds(Run(boot, before), calls[|calls| - 1]);
    }
  }

  ghost function OccupiedSlots(t: seq<Slot>): set<nat> {
    set i: nat | i < |t| && Occupied(t[i])
  }

  lemma {:induction false} BelowSize(s: set<nat>, n: nat)
    requires forall x :: x in s ==> x < n
    ensures |s| <= n
    ensures |s| == n ==> forall x: nat :: x < n ==> x in s
  {
    if n == 0 {
      assert s == {};
    } else {
      BelowSize(s - {n - 1}, n - 1);
      if n - 1 in s {
        assert |s - {n - 1}| == |s| - 1;
      } else {
        assert s - {n - 1} == s;
      }
    }
  }

  lemma FillCounts(t: seq<Slot>, i: nat, s: Slot)
    requires i < |t| && !Occupied(t[i]) && Occupied(s)
    ensures |OccupiedSlots(t[i := s])| == |OccupiedSlots(t)| + 1
    ensures |OccupiedSlots(t)| < |t|
  {
    assert OccupiedSlots(t[i := s]) == OccupiedSlots(t) + {i};
    BelowSize(OccupiedSlots(t), |t|);
    assert i !in OccupiedSlots(t);
  }

  /** While the counter counts the occupied slots, a registration is refused exactly when
      the domain is not in its own slot and no slot is free, and the count is kept. */
  lemma SetupCounts(r: Registry, pxm: nat)
    requires Ids(r) && r.nodesFound == |OccupiedSlots(r.slots)|
    ensures Ids(Setup(r, pxm).0)
    ensures Setup(r, pxm).0.nodesFound == |OccupiedSlots(Setup(r, pxm).0.slots)|
    ensures Setup(r, pxm).1 == NUMA_NO_NODE <==>
            !InOwnSlot(r.slots, pxm) && forall i :: 0 <= i < |r.slots| ==> Occupied(r.slots[i])
  {
    var i := TargetSlot(r.slots, pxm);
    if HandsOutId(r, pxm) {
      FillCounts(r.slots, i, Slot(pxm, 0));
      FillCounts(r.slots, i, Slot(pxm, r.nodesFound));
    }
    BelowSize(OccupiedSlots(r.slots), |r.slots|);
    SetupKeepsIdsIff(r, pxm);
  }

  /** Main result: before any clearing the counter is the number of occupied slots, for
      runs of every length. */
  lemma {:induction false} RunCounts(boot: Registry, calls: seq<Call>)
    requires Boot(boot) && OnlySetups(calls)
    ensures Ids(Run(boot, calls))
    ensures Run(boot, calls).nodesFound == |OccupiedSlots(Run(boot, calls).slots)|
  {
    if calls == [] {
      assert OccupiedSlots(boot.slots) == {};
    } else {
      RunCounts(boot, calls[..|calls| - 1]);
      SetupCounts(Run(boot, calls[..|calls| - 1]), calls[|calls| - 1].pxm);
    }
  }

  lemma RunAppend(r: Registry, calls: seq<Call>, c: Call)
    ensures Run(r, calls + [c]) == Step(Run(r, calls), c)
  {
    assert (calls + [c])[..|calls|] == calls;
  }

  lemma RegisterThenClear(r: Registry)
    requires AllFree(r.slots) && r.nodesFound < MAX_NUMNODES
    ensures AllFree(Step(Step(r, SetupNode(0)), BadSrat).slots)
    ensures Step(Step(r, SetupNode(0)), BadSrat).nodesFound == r.nodesFound + 1
  {
    assert TargetSlot(r.slots, 0) == 0;
  }

  lemma {:induction false} RegisterAndClear(boot: Registry, k: nat) returns (calls: seq<Call>)
    requires Boot(boot) && k < MAX_NUMNODES
    ensures AllFree(Run(boot, calls).slots) && Run(boot, calls).nodesFound == k
  {
    calls := [];
    if k > 0 {
      var fewer := RegisterAndClear(boot, k - 1);
      RunAppend(boot, fewer, SetupNode(0));
      RunAppend(boot, fewer + [SetupNode(0)], BadSrat);
      RegisterThenClear(Run(boot, fewer));
      calls := fewer + [SetupNode(0)] + [BadSrat];
    }
  }

  predicate OnlyFirstStands(r: Registry) {
    |r.slots| == MAX_NUMNODES && r.slots[0] == Slot(0, MAX_NUMNODES - 1) && !Occupied(r.slots[1])
  }

  lemma RefusedCounts(r: Registry)
    requires OnlyFirstStands(r) && MAX_NUMNODES <= r.nodesFound
    ensures OnlyFirstStands(Setup(r, 1).0) && Setup(r, 1).0.nodesFound == (r.nodesFound + 1) % U32
  {
  }

  lemma RegisterLast(r: Registry)
    requires AllFree(r.slots) && r.nodesFound == MAX_NUMNODES - 1
    ensures OnlyFirstStands(Setup(r, 0).0) && Setup(r, 0).0.nodesFound == MAX_NUMNODES
  {
    assert TargetSlot(r.slots, 0) == 0;
  }

  lemma {:induction false} RefuseUntil(boot: Registry, k: nat) returns (calls: seq<Call>)
    requires Boot(boot) && MAX_NUMNODES <= k < U32
    ensures OnlyFirstStands(Run(boot, calls)) && Run(boot, calls).nodesFound == k
  {
    if k == MAX_NUMNODES {
      calls := RegisterAndClear(boot, MAX_NUMNODES - 1);
      RunAppend(boot, calls, SetupNode(0));
      RegisterLast(Run(boot, calls));
      calls := calls + [SetupNode(0)];
    } else {
      calls := RefuseUntil(boot, k - 1);
      RunAppend(boot, calls, SetupNode(1));
      RefusedCounts(Run(boot, calls));
      calls := calls + [SetupNode(1)];
    }
  }

  /** Without the bound on the number of calls the claim is false: register and clear one
      domain 999 times, register it once more, then let refused calls of another domain
      wrap the counter. */
  lemma WrapBreaksIds(boot: Registry) returns (calls: seq<Call>)
    requires Boot(boot)
    ensures !Ids(Run(boot, calls))
  {
    calls := RefuseUntil(boot, U32 - 1);
    RunAppend(boot, calls, SetupNode(1));
    RefusedCounts(Run(boot, calls));
    calls := calls + [SetupNode(1)];
    assert Occupied(Run(boot, calls).slots[0]);
  }

  // ----------------------------------------------------------------- the way back

  /** The slot of an id is unique, so node_to_pxm finds the domain stored with it. */
  lemma NodeToPxmOf(r: Registry, i: nat)
    requires Ids(r) && i < |r.slots| && Occupied(r.slots[i])
    ensures NodeToPxm(r.slots, r.slots[i].node) == r.slots[i].pxm
  {
    var n := r.slots[i].node;
    var f := First(r.slots, OfNode(n));
    assert Matches(OfNode(n), r.slots[i]);
    assert f <= i && r.slots[f].node == n;
    assert f == i;
  }

  /** An id stored nowhere has no domain. */
  lemma UnknownNode(t: seq<Slot>, node: nat)
    requires forall i :: 0 <= i < |t| ==> t[i].node != node
    ensures NodeToPxm(t, node) == 0
  {
  }

  lemma RegisteredRoundTrip(r: Registry, node: nat, pxm: nat)
    requires Ids(r) && Registered(r.slots, node, pxm)
    ensures NodeToPxm(r.slots, node) == pxm
  {
    var i :| 0 <= i < |r.slots| && r.slots[i] == Slot(pxm, node);
    NodeToPxmOf(r, i);
  }

  /** Round trip: node_to_pxm(setup_node(p)) == p whenever setup_node succeeds. */
  lemma SetupRoundTrip(r: Registry, pxm: nat)
    requires Ids(r) && Ids(Setup(r, pxm).0)
    requires Setup(r, pxm).1 != NUMA_NO_NODE
    ensures Registered(Setup(r, pxm).0.slots, Setup(r, pxm).1, pxm)
    ensures NodeToPxm(Setup(r, pxm).0.slots, Setup(r, pxm).1) == pxm
  {
    var i := if InOwnSlot(r.slots, pxm) then pxm else TargetSlot(r.slots, pxm);
    assert Setup(r, pxm).0.slots[i] == Slot(pxm, Setup(r, pxm).1);
    NodeToPxmOf(Setup(r, pxm).0, i);
  }

  lemma SetupKeepsRegistered(r: Registry, pxm: nat, node: nat, p: nat)
    requires Registered(r.slots, node, p)
    ensures Registered(Setup(r, pxm).0.slots, node, p)
  {
    var i :| 0 <= i < |r.slots| && r.slots[i] == Slot(p, node);
    assert Occupied(r.slots[i]);
    assert Setup(r, pxm).0.slots[i] == r.slots[i];
  }
}
