/** The AMD microcode container: skipping patch sections up to the next container header. */
module AmdContainer {
  import opened Bytes
  import opened Common

  const EINVAL: int := 101
  const ENODATA: int := 4

  const CONTAINER_MAGIC: nat := 0x00414d44
  const EQUIV_TABLE_TYPE: nat := 0
  const PATCH_TYPE: nat := 1
  const SECTION_HEADER: nat := 8
  const MIN_SECTION: nat := 32

  // ------------------------------------------------------------- what a container holds

  /** A patch of at least 24 bytes whose section size fits 32 bits. */
  predicate WellFormed(patch: seq<byte>) {
    MIN_SECTION <= |patch| + SECTION_HEADER < U32
  }

  predicate AllWellFormed(ps: seq<seq<byte>>) {
    forall i :: 0 <= i < |ps| ==> WellFormed(ps[i])
  }

  function Section(patch: seq<byte>): (s: seq<byte>)
    ensures |s| == |patch| + SECTION_HEADER
  {
    Le32(PATCH_TYPE) + Le32(|patch|) + patch
  }

  function Serialize(ps: seq<seq<byte>>): seq<byte> {
    if ps == [] then [] else Section(ps[0]) + Serialize(ps[1..])
  }

  function ContainerHeader(): (h: seq<byte>)
    ensures |h| == SECTION_HEADER
  {
    Le32(CONTAINER_MAGIC) + Le32(EQUIV_TABLE_TYPE)
  }

  /** b starts with the patches ps and then a container header. */
  ghost predicate LandsAfter(b: seq<byte>, ps: seq<seq<byte>>) {
    AllWellFormed(ps) && Serialize(ps) + ContainerHeader() <= b
  }

  /** b consists of one or more patches and nothing else. */
  ghost predicate OnlyPatches(b: seq<byte>, ps: seq<seq<byte>>) {
    AllWellFormed(ps) && ps != [] && b == Serialize(ps)
  }

  /** A container header stands at offset k, after well-formed patches only. */
  ghost predicate Lands(b: seq<byte>, k: nat) {
    exists ps :: LandsAfter(b, ps) && |Serialize(ps)| == k
  }

  ghost predicate Exhausted(b: seq<byte>) {
    exists ps :: OnlyPatches(b, ps)
  }

  // ----------------------------------------------------------------- one section as code

  predicate AtContainer(b: seq<byte>) {
    |b| >= SECTION_HEADER && Word(b, 0) == CONTAINER_MAGIC && Word(b, 4) == EQUIV_TABLE_TYPE
  }

  /** len + 8 in 32 bits, without a check for overflow. */
  function Plus8(len: nat): nat requires len < U32 {
    if len + SECTION_HEADER < U32 then len + SECTION_HEADER else len + SECTION_HEADER - U32
  }

  /** Size of the section at the front. */
  function SectionSize(b: seq<byte>): nat requires |b| >= SECTION_HEADER {
    Plus8(Word(b, 4))
  }

  predicate AtPatch(b: seq<byte>) {
    |b| >= SECTION_HEADER && Word(b, 0) == PATCH_TYPE && MIN_SECTION <= SectionSize(b) <= |b|
  }

  lemma HeaderBytes(b: seq<byte>)
    requires |b| >= 8
    ensures AtContainer(b) <==> b[..8] == ContainerHeader()
  {
    assert b[..8] == b[0..4] + b[4..8];
    if AtContainer(b) {
      Le32OfWord(b, 0);
      Le32OfWord(b, 4);
    }
    if b[..8] == ContainerHeader() {
      assert b[0..4] == b[..8][0..4] && b[4..8] == b[..8][4..8];
      WordOfLe32(b, 0, CONTAINER_MAGIC);
      WordOfLe32(b, 4, EQUIV_TABLE_TYPE);
    }
  }

  /** The bytes that mark a container and a patch, and the least size of a patch. */
  lemma MarkerBytes(patch: seq<byte>)
    ensures ContainerHeader() == [0x44, 0x4d, 0x41, 0, 0, 0, 0, 0]
    ensures Section(patch)[..4] == [1, 0, 0, 0] && Section(patch)[8..] == patch
    ensures WellFormed(patch) <==> 24 <= |patch| < 0xffff_fff8
    ensures WellFormed(patch) ==> Word(Section(patch), 4) == |patch|
  {
    assert Section(patch)[..4] == Le32(1);
    assert Section(patch)[4..8] == Le32(|patch|);
    LittleEndian(1);
    LittleEndian(0);
    LittleEndian(0x00414d44);
    if WellFormed(patch) {
      WordOfLe32(Section(patch), 4, |patch|);
    }
  }

  lemma LittleEndian(n: nat)
    ensures Le32(n) == [n % 0x100, n / 0x100 % 0x100, n / 0x100 / 0x100 % 0x100, n / 0x100 / 0x100 / 0x100 % 0x100]
  {
    var a, b, c := n / 0x100, n / 0x100 / 0x100, n / 0x100 / 0x100 / 0x100;
    assert ToLe(c, 1) == [c % 0x100];
    assert ToLe(b, 2) == [b % 0x100] + ToLe(c, 1);
    assert ToLe(a, 3) == [a % 0x100] + ToLe(b, 2);
  }

  lemma PatchHeader(b: seq<byte>)
    requires AtPatch(b)
    ensures MIN_SECTION <= SectionSize(b) < U32
    ensures b[0..4] == Le32(PATCH_TYPE) && b[4..8] == Le32(SectionSize(b) - SECTION_HEADER)
  {
    Le32OfWord(b, 0);
    Le32OfWord(b, 4);
  }

  lemma PatchBytes(b: seq<byte>) returns (patch: seq<byte>)
    requires AtPatch(b)
    ensures WellFormed(patch) && |Section(patch)| == SectionSize(b)
    ensures b == Section(patch) + b[SectionSize(b)..]
  {
    var n := SectionSize(b);
    PatchHeader(b);
    patch := b[8..n];
    assert b[..n] == b[0..4] + b[4..8] + patch;
  }

  lemma FrontOfSection(patch: seq<byte>, tail: seq<byte>)
    requires WellFormed(patch)
    ensures var b := Section(patch) + tail;
            !AtContainer(b) && AtPatch(b) && SectionSize(b) == |Section(patch)| && b[SectionSize(b)..] == tail
  {
    var b := Section(patch) + tail;
    assert b[0..4] == Le32(PATCH_TYPE);
    WordOfLe32(b, 0, PATCH_TYPE);
    assert b[4..8] == Le32(|patch|);
    WordOfLe32(b, 4, |patch|);
  }

  // --------------------------------------------------------- decompositions are unique

  lemma Associative(a: seq<byte>, b: seq<byte>, c: seq<byte>)
    ensures a + b + c == a + (b + c)
  {
  }

  /** What the front of a decomposed buffer looks like, and what is left behind it. */
  lemma FrontDecides(b: seq<byte>, ps: seq<seq<byte>>)
    requires LandsAfter(b, ps) || OnlyPatches(b, ps)
    ensures ps == [] ==> AtContainer(b)
    ensures ps != [] ==> !AtContainer(b) && AtPatch(b) && SectionSize(b) == |Section(ps[0])|
    ensures ps != [] && LandsAfter(b, ps) ==> LandsAfter(b[SectionSize(b)..], ps[1..])
    ensures ps != [] && OnlyPatches(b, ps) ==> b[SectionSize(b)..] == Serialize(ps[1..])
  {
    var n := |Serialize(ps)|;
    assert b == Serialize(ps) + b[n..];
    if LandsAfter(b, ps) {
      assert b[n..][..8] == (Serialize(ps) + ContainerHeader())[n..] == ContainerHeader();
    }
    if ps == [] {
      HeaderBytes(b);
    } else {
      var rest := Serialize(ps[1..]);
      Associative(Section(ps[0]), rest, b[n..]);
      FrontOfSection(ps[0], rest + b[n..]);
      Associative(Section(ps[0]), rest, ContainerHeader());
    }
  }

  lemma PrependPatch(patch: seq<byte>, tail: seq<byte>, ps: seq<seq<byte>>)
    requires WellFormed(patch)
    ensures Serialize([patch] + ps) == Section(patch) + Serialize(ps)
    ensures LandsAfter(tail, ps) ==> LandsAfter(Section(patch) + tail, [patch] + ps)
    ensures AllWellFormed(ps) && tail == Serialize(ps) ==> OnlyPatches(Section(patch) + tail, [patch] + ps)
  {
    assert ([patch] + ps)[1..] == ps;
    Associative(Section(patch), Serialize(ps), ContainerHeader());
    assert AllWellFormed(ps) ==> AllWellFormed([patch] + ps);
  }

  /** Skipping a patch shifts every landing by its section size. */
  lemma SkipOne(b: seq<byte>)
    requires AtPatch(b)
    ensures var n := SectionSize(b);
            && (forall k: nat :: Lands(b, k) ==> k >= n && Lands(b[n..], k - n))
            && (forall k: nat :: Lands(b[n..], k) ==> Lands(b, n + k))
            && (Exhausted(b) <==> b[n..] == [] || Exhausted(b[n..]))
  {
    var n, patch := SectionSize(b), b;
    patch := PatchBytes(b);
    forall k: nat | Lands(b, k) ensures k >= n && Lands(b[n..], k - n) {
      var ps :| LandsAfter(b, ps) && |Serialize(ps)| == k;
      FrontDecides(b, ps);
    }
    forall k: nat | Lands(b[n..], k) ensures Lands(b, n + k) {
      var ps :| LandsAfter(b[n..], ps) && |Serialize(ps)| == k;
      PrependPatch(patch, b[n..], ps);
    }
    SkipExhausted(b, patch);
  }

  lemma SkipExhausted(b: seq<byte>, patch: seq<byte>)
    requires AtPatch(b) && WellFormed(patch) && |Section(patch)| == SectionSize(b)
    requires b == Section(patch) + b[SectionSize(b)..]
    ensures Exhausted(b) <==> b[SectionSize(b)..] == [] || Exhausted(b[SectionSize(b)..])
  {
    var tail := b[SectionSize(b)..];
    if Exhausted(b) {
      var ps :| OnlyPatches(b, ps);
      FrontDecides(b, ps);
      assert tail != [] ==> OnlyPatches(tail, ps[1..]);
    }
    if tail == [] {
      PrependPatch(patch, tail, []);
      assert OnlyPatches(b, [patch] + []);
    } else if Exhausted(tail) {
      var ps :| OnlyPatches(tail, ps);
      PrependPatch(patch, tail, ps);
    }
  }

  /** At a container header the only landing is here; at anything else but a patch there is
      none, and nothing is exhausted. */
  lemma StopHere(b: seq<byte>)
    requires AtContainer(b) || !AtPatch(b)
    ensures !Exhausted(b)
    ensures forall k: nat :: Lands(b, k) <==> AtContainer(b) && k == 0
  {
    forall ps | LandsAfter(b, ps) || OnlyPatches(b, ps) ensures ps == [] && AtContainer(b) {
      FrontDecides(b, ps);
    }
    if AtContainer(b) {
      HeaderBytes(b);
      assert Serialize([]) + ContainerHeader() == b[..8];
      assert LandsAfter(b, []) && |Serialize([])| == 0;
    }
  }

  lemma FrontWords(data: seq<byte>, offset: nat, end: nat)
    requires offset + 8 <= end <= |data|
    ensures Word(data[offset..end], 0) == Word(data, offset)
    ensures Word(data[offset..end], 4) == Word(data, offset + 4)
  {
    SliceOfSlice(data, offset, end, 0, 4);
    SliceOfSlice(data, offset, end, 4, 8);
  }

  /** Wherever the buffer lands, the result is 0 and the skipped length is that place. */
  ghost predicate LandsNowhereElse(b: seq<byte>, r: int, skipped: int) {
    forall k: nat :: Lands(b, k) ==> r == 0 && skipped == k
  }

  /** A serialised list of patches followed by a container header lands on that header. */
  lemma SerializedLands(ps: seq<seq<byte>>, behind: seq<byte>)
    requires AllWellFormed(ps)
    ensures Lands(Serialize(ps) + ContainerHeader() + behind, |Serialize(ps)|)
  {
    assert LandsAfter(Serialize(ps) + ContainerHeader() + behind, ps);
  }

  /** The header test of the loop, on the words in place. */
  method ReadHeader(data: seq<byte>, offset: nat, end: nat) returns (container: bool, patch: bool, size: nat)
    requires offset + 8 <= end <= |data|
    ensures container == AtContainer(data[offset..end])
    ensures !container ==> patch == AtPatch(data[offset..end])
    ensures patch && !container ==> size == SectionSize(data[offset..end])
  {
    FrontWords(data, offset, end);
    container := Word(data, offset) == CONTAINER_MAGIC && Word(data, offset + 4) == EQUIV_TABLE_TYPE;
    size := Plus8(Word(data, offset + 4));
    patch := Word(data, offset) == PATCH_TYPE && !(size < 32 || end - offset < size);
  }

  /** Main result: 0 exactly when well-formed patches lead to a container header, and then
      the offset is the one place such a header can be; -ENODATA exactly when one or more
      well-formed patches are all there is; -EINVAL otherwise.  offset + sizeLeft stays
      constant, and every skipped section has at least 32 bytes. */
  method ContainerFastForward(data: seq<byte>, size: nat, offset0: nat) returns (r: int, offset: nat)
    requires offset0 + size <= |data| && offset0 + size < U32
    ensures offset0 <= offset <= offset0 + size
    ensures r == 0 || r == -ENODATA || r == -EINVAL
    ensures r == 0 ==> Lands(data[offset0..offset0 + size], offset - offset0)
    ensures LandsNowhereElse(data[offset0..offset0 + size], r, offset - offset0)
    ensures r == -ENODATA <==> Exhausted(data[offset0..offset0 + size])
    ensures r == -ENODATA ==> offset == offset0 + size
  {
    ghost var end, all := offset0 + size, data[offset0..offset0 + size];
    offset := offset0;
    var sizeLeft: nat := size;
    while true
      invariant offset0 <= offset <= end && offset + sizeLeft == end
      invariant forall k: nat :: Lands(all, k) ==> k >= offset - offset0 && Lands(data[offset..end], k - (offset - offset0))
      invariant forall k: nat :: Lands(data[offset..end], k) ==> Lands(all, offset - offset0 + k)
      invariant Exhausted(all) <==> Exhausted(data[offset..end])
      decreases sizeLeft
    {
      ghost var b := data[offset..end];
      if sizeLeft < 8 {
        StopHere(b);
        return -EINVAL, offset;
      }
      var container, patch, sectionSize := ReadHeader(data, offset, offset + sizeLeft);
      if container {
        StopHere(b);
        assert Lands(b, 0);
        return 0, offset;
      }
      if !patch {
        StopHere(b);
        return -EINVAL, offset;
      }
      SkipOne(b);
      sizeLeft := sizeLeft - sectionSize;
      offset := offset + sectionSize;
      assert b[sectionSize..] == data[offset..end];
      if sizeLeft == 0 {
        NothingLands(data[offset..end]);
        return -ENODATA, offset;
      }
    }
  }

  lemma NothingLands(b: seq<byte>)
    requires b == []
    ensures forall k: nat :: !Lands(b, k)
  {
  }
}
