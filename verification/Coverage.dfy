/** Address ranges of NUMA nodes: when they cover the RAM of an e820 map, and what
    clipping a node to a window keeps. */
module Coverage {
  import opened Common

  /** Half-open: the end address is not part of the range. */
  datatype Range = Range(start: nat, end: nat)

  datatype MapEntry = MapEntry(ram: bool, addr: nat, size: nat)

  predicate Within(a: nat, r: Range) {
    r.start <= a < r.end
  }

  /** The end of a map entry is computed in 64 bits without an overflow check. */
  function RamRange(e: MapEntry): Range {
    Range(e.addr, (e.addr + e.size) % U64)
  }

  ghost predicate Covered(nodes: seq<Range>, parsed: set<nat>, a: nat) {
    exists n :: n in parsed && n < |nodes| && Within(a, nodes[n])
  }

  ghost predicate RangeCovered(nodes: seq<Range>, parsed: set<nat>, r: Range) {
    forall a: nat :: Within(a, r) ==> Covered(nodes, parsed, a)
  }

  ghost predicate MapCovered(nodes: seq<Range>, parsed: set<nat>, e820: seq<MapEntry>) {
    forall i :: 0 <= i < |e820| && e820[i].ram ==> RangeCovered(nodes, parsed, RamRange(e820[i]))
  }

  function Min(a: nat, b: nat): nat { if a < b then a else b }

  function Max(a: nat, b: nat): nat { if a < b then b else a }

  /** The ordered range that holds exactly the addresses of both: an empty overlap
      collapses to a single point. */
  function Clip(r: Range, w: Range): (c: Range)
    ensures c.start <= c.end
    ensures r.start <= r.end ==> forall a: nat :: Within(a, c) <==> Within(a, r) && Within(a, w)
  {
    var end := Min(r.end, w.end);
    Range(Min(Max(r.start, w.start), end), end)
  }

  /** Each range now is the earlier one intersected with the window. */
  ghost predicate Clipped(was: seq<Range>, now: seq<Range>, w: Range) {
    && |was| == |now|
    && forall n :: 0 <= n < |now| ==> Intersection(was[n], now[n], w)
  }

  ghost predicate Intersection(was: Range, now: Range, w: Range) {
    && (forall a: nat :: Within(a, now) <==> Within(a, was) && Within(a, w))
    && (was.start <= was.end ==> now == Clip(was, w))
  }

  /** Clipped nodes cover exactly what lies in the window and was covered before. */
  lemma ClippedCover(was: seq<Range>, now: seq<Range>, parsed: set<nat>, w: Range)
    requires Clipped(was, now, w)
    ensures forall a: nat :: Covered(now, parsed, a) <==> Within(a, w) && Covered(was, parsed, a)
  {
    forall a: nat
      ensures Covered(now, parsed, a) <==> Within(a, w) && Covered(was, parsed, a)
    {
      if Covered(now, parsed, a) {
        var n :| n in parsed && n < |now| && Within(a, now[n]);
        assert Intersection(was[n], now[n], w);
      }
      if Within(a, w) && Covered(was, parsed, a) {
        var n :| n in parsed && n < |was| && Within(a, was[n]);
        assert Intersection(was[n], now[n], w);
      }
    }
  }

  /** The addresses of a map entry are its own exactly when its end does not wrap; an entry
      whose end wraps has none. */
  lemma RamRangeIff(e: MapEntry)
    requires e.addr < 0x1_0000_0000_0000_0000 && e.size < 0x1_0000_0000_0000_0000
    ensures (forall a: nat :: Within(a, RamRange(e)) <==> e.addr <= a < e.addr + e.size) <==>
            e.size == 0 || e.addr + e.size < 0x1_0000_0000_0000_0000
    ensures e.addr + e.size >= 0x1_0000_0000_0000_0000 ==> forall a: nat :: !Within(a, RamRange(e))
  {
    if e.size > 0 && e.addr + e.size >= 0x1_0000_0000_0000_0000 {
      assert !Within(e.addr, RamRange(e));
    }
  }
}
