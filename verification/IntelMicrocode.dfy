/** The Intel microcode loader: the checksum test of an update image, signature matching,
    and the revision a CPU records.  The image layout is that of the "Microcode Update
    Facilities" section of the Intel SDM, volume 3A. */
module IntelMicrocode {
  import opened BitScan
  import opened Bytes
  import opened Common

  const HEADER_SIZE: nat := 48
  const EXT_HEADER_SIZE: nat := 20
  const EXT_SIGNATURE_SIZE: nat := 12
  const DEFAULT_DATASIZE: nat := 2000

  const EINVAL: int := 101
  const EFAULT: int := 14
  const ENOMEM: int := 12
  const EIO: int := 5

  // ---------------------------------------------------------------------------- layout

  function Revision(img: seq<byte>): nat requires |img| >= HEADER_SIZE { Word(img, 4) }

  function DataSize(img: seq<byte>): nat requires |img| >= HEADER_SIZE {
    if Word(img, 28) != 0 then Word(img, 28) else DEFAULT_DATASIZE
  }

  function TotalSize(img: seq<byte>): nat requires |img| >= HEADER_SIZE {
    if Word(img, 32) != 0 then Word(img, 32) else DEFAULT_DATASIZE + HEADER_SIZE
  }

  /** The buffer holds the whole image its header announces. */
  predicate Buffered(img: seq<byte>) {
    |img| >= HEADER_SIZE && |img| >= TotalSize(img)
  }

  predicate SizesOk(img: seq<byte>) requires Buffered(img) {
    DataSize(img) + HEADER_SIZE <= TotalSize(img)
  }

  predicate VersionsOk(img: seq<byte>) requires Buffered(img) {
    Word(img, 20) == 1 && Word(img, 0) == 1
  }

  /** Byte offset of the extended signature table. */
  function ExtOffset(img: seq<byte>): nat requires |img| >= HEADER_SIZE {
    HEADER_SIZE + DataSize(img)
  }

  function ExtSize(img: seq<byte>): nat requires Buffered(img) && SizesOk(img) {
    TotalSize(img) - ExtOffset(img)
  }

  predicate ExtShapeOk(img: seq<byte>) requires Buffered(img) && SizesOk(img) {
    ExtSize(img) >= EXT_HEADER_SIZE && (ExtSize(img) - EXT_HEADER_SIZE) % EXT_SIGNATURE_SIZE == 0
  }

  function ExtCount(img: seq<byte>): nat
    requires Buffered(img) && SizesOk(img) && ExtSize(img) >= EXT_HEADER_SIZE
  {
    Word(img, ExtOffset(img))
  }

  predicate ExtCountOk(img: seq<byte>)
    requires Buffered(img) && SizesOk(img) && ExtSize(img) >= EXT_HEADER_SIZE
  {
    ExtSize(img) == ExtCount(img) * EXT_SIGNATURE_SIZE + EXT_HEADER_SIZE
  }

  predicate SizesPass(img: seq<byte>) requires Buffered(img) {
    && SizesOk(img) && VersionsOk(img)
    && (ExtSize(img) != 0 ==> ExtShapeOk(img) && ExtCountOk(img))
  }

  // The same tests as a 32-bit unsigned long makes them, sums unchecked.

  function MainSize32(img: seq<byte>): nat requires |img| >= HEADER_SIZE {
    (DataSize(img) + HEADER_SIZE) % U32
  }

  predicate ExtShapeOk32(extSize: nat) {
    extSize >= EXT_HEADER_SIZE && (extSize - EXT_HEADER_SIZE) % EXT_SIGNATURE_SIZE == 0
  }

  function TableSize32(count: nat): nat {
    (count * EXT_SIGNATURE_SIZE + EXT_HEADER_SIZE) % U32
  }

  predicate SizesPass32(img: seq<byte>) requires Buffered(img) {
    && MainSize32(img) <= TotalSize(img) && VersionsOk(img)
    && var extSize := TotalSize(img) - MainSize32(img);
       extSize != 0 ==> ExtShapeOk32(extSize) && TableSize32(Word(img, MainSize32(img))) == extSize
  }

  predicate DataWraps(img: seq<byte>) requires |img| >= HEADER_SIZE {
    DataSize(img) + HEADER_SIZE >= U32
  }

  predicate CountWraps(img: seq<byte>) requires Buffered(img) {
    && MainSize32(img) + EXT_HEADER_SIZE <= TotalSize(img)
    && Word(img, MainSize32(img)) * EXT_SIGNATURE_SIZE + EXT_HEADER_SIZE >= U32
  }

  /** The 32-bit tests pass exactly the right images and those for which a sum wraps: on
      the images they pass they are right if and only if neither sum wraps. */
  lemma SizesPassIff(img: seq<byte>)
    requires Buffered(img)
    ensures SizesPass(img) <==> SizesPass32(img) && !DataWraps(img) && !CountWraps(img)
  {
    if !DataWraps(img) {
      assert MainSize32(img) == ExtOffset(img);
      if SizesOk(img) && ExtSize(img) >= EXT_HEADER_SIZE {
        TableSizeIff(ExtCount(img), ExtSize(img));
      }
    }
  }

  lemma TableSizeIff(count: nat, extSize: nat)
    requires extSize < U32
    ensures extSize == count * EXT_SIGNATURE_SIZE + EXT_HEADER_SIZE <==>
            TableSize32(count) == extSize && count * EXT_SIGNATURE_SIZE + EXT_HEADER_SIZE < U32
  {
  }

  /** Byte offset of the i-th extended signature: sig, pf and checksum words. */
  function SignatureOffset(img: seq<byte>, i: nat): nat requires |img| >= HEADER_SIZE {
    ExtOffset(img) + EXT_HEADER_SIZE + EXT_SIGNATURE_SIZE * i
  }

  predicate HasSignature(img: seq<byte>, i: nat) {
    |img| >= HEADER_SIZE && SignatureOffset(img, i) + EXT_SIGNATURE_SIZE <= |img|
  }

  /** The image with the header's sig, cksum and pf replaced by those of an extended entry. */
  function Substituted(img: seq<byte>, i: nat): (s: seq<byte>)
    requires HasSignature(img, i)
    ensures |s| == |img|
  {
    var o := SignatureOffset(img, i);
    img[..12] + img[o..o + 4] + img[o + 8..o + 12] + img[20..24] + img[o + 4..o + 8] + img[28..]
  }

  // ------------------------------------------------------------------------- checksums

  function Words(img: seq<byte>, off: nat, n: nat): (ws: seq<nat>)
    requires off + 4 * n <= |img|
    ensures |ws| == n
  {
    seq(n, i requires 0 <= i < n => Word(img, off + 4 * i))
  }

  function Sum(ws: seq<nat>): nat {
    if ws == [] then 0 else ws[0] + Sum(ws[1..])
  }

  /** The whole words of header and data. */
  function MainWords(img: seq<byte>, dataSize: nat): seq<nat>
    requires HEADER_SIZE + dataSize <= |img|
  {
    Words(img, 0, (HEADER_SIZE + dataSize) / 4)
  }

  lemma {:induction false} SumReplace(ws: seq<nat>, k: nat, x: nat)
    requires k < |ws|
    ensures Sum(ws[k := x]) == Sum(ws) - ws[k] + x
  {
    if k == 0 {
      assert ws[k := x][1..] == ws[1..];
    } else {
      assert ws[k := x][1..] == ws[1..][k - 1 := x];
      SumReplace(ws[1..], k - 1, x);
    }
  }

  lemma SubstitutedWords(img: seq<byte>, i: nat, n: nat)
    requires HasSignature(img, i) && 12 <= n && 4 * n <= |img|
    ensures var o := SignatureOffset(img, i);
            Words(Substituted(img, i), 0, n) ==
            Words(img, 0, n)[3 := Word(img, o)][4 := Word(img, o + 8)][6 := Word(img, o + 4)]
  {
    var o, s := SignatureOffset(img, i), Substituted(img, i);
    var ws := Words(img, 0, n)[3 := Word(img, o)][4 := Word(img, o + 8)][6 := Word(img, o + 4)];
    forall k | 0 <= k < n ensures Word(s, 4 * k) == ws[k] {
      SubstitutedSlices(img, i);
      if k < 3 {
        assert s[4 * k..4 * k + 4] == img[4 * k..4 * k + 4];
      } else if k >= 7 {
        assert s[4 * k..4 * k + 4] == img[4 * k..4 * k + 4];
      }
    }
  }

  lemma SubstitutedSlices(img: seq<byte>, i: nat)
    requires HasSignature(img, i)
    ensures var o, s := SignatureOffset(img, i), Substituted(img, i);
            && s[..12] == img[..12] && s[28..] == img[28..]
            && s[12..16] == img[o..o + 4] && s[16..20] == img[o + 8..o + 8 + 4]
            && s[20..24] == img[20..24] && s[24..28] == img[o + 4..o + 4 + 4]
  {
  }

  /** The incremental form: substituting an extended entry changes the main sum by the
      difference of the three words. */
  lemma IncrementalSum(img: seq<byte>, i: nat, dataSize: nat)
    requires HasSignature(img, i) && HEADER_SIZE + dataSize <= |img|
    ensures var o := SignatureOffset(img, i);
            Sum(MainWords(Substituted(img, i), dataSize)) ==
            Sum(MainWords(img, dataSize))
            - (Word(img, 12) + Word(img, 24) + Word(img, 16))
            + (Word(img, o) + Word(img, o + 4) + Word(img, o + 8))
  {
    var n, o := (HEADER_SIZE + dataSize) / 4, SignatureOffset(img, i);
    var ws := Words(img, 0, n);
    SubstitutedWords(img, i, n);
    SumReplace(ws, 3, Word(img, o));
    SumReplace(ws[3 := Word(img, o)], 4, Word(img, o + 8));
    SumReplace(ws[3 := Word(img, o)][4 := Word(img, o + 8)], 6, Word(img, o + 4));
  }

  ghost predicate SubstitutedSumsToZero(img: seq<byte>, i: nat, dataSize: nat)
    requires HEADER_SIZE + dataSize <= |img|
  {
    HasSignature(img, i) && Sum(MainWords(Substituted(img, i), dataSize)) % U32 == 0
  }

  /** Full recomputation: the size and version rules hold, header and data sum to 0, and if
      there is an extended table it has its announced size, sums to 0, and each of its
      entries, substituted into the header, gives an image that sums to 0 as well. */
  ghost predicate Accepted(img: seq<byte>)
    requires Buffered(img)
  {
    && SizesOk(img) && VersionsOk(img)
    && Sum(MainWords(img, DataSize(img))) % U32 == 0
    && (ExtSize(img) != 0 ==>
          && ExtShapeOk(img) && ExtCountOk(img)
          && Sum(Words(img, ExtOffset(img), ExtSize(img) / 4)) % U32 == 0
          && forall i: nat :: i < ExtCount(img) ==>
               SubstitutedSumsToZero(img, i, DataSize(img)))
  }

  /** A size of 0 in the header stands for the sizes of old images. */
  lemma DefaultSizes(img: seq<byte>)
    requires |img| >= 48
    ensures Word(img, 28) == 0 ==> DataSize(img) == 2000
    ensures Word(img, 28) != 0 ==> DataSize(img) == Word(img, 28)
    ensures Word(img, 32) == 0 ==> TotalSize(img) == 2048
    ensures Word(img, 32) != 0 ==> TotalSize(img) == Word(img, 32)
  {
  }

  /** An accepted image, field by field: both versions are 1, the sizes fit, every word of
      header and data and every word of the table is part of a zero sum, and the table is
      as long as its count says. */
  lemma AcceptedFields(img: seq<byte>)
    requires Buffered(img) && Accepted(img)
    ensures Word(img, 0) == 1 && Word(img, 20) == 1
    ensures 48 + DataSize(img) <= TotalSize(img)
    ensures Sum(Words(img, 0, (48 + DataSize(img)) / 4)) % U32 == 0
    ensures TotalSize(img) != 48 + DataSize(img) ==>
              && TotalSize(img) == 48 + DataSize(img) + 20 + 12 * Word(img, 48 + DataSize(img))
              && Sum(Words(img, 48 + DataSize(img), (TotalSize(img) - 48 - DataSize(img)) / 4)) % U32 == 0
  {
  }

  lemma SameResidue(base: nat, delta: int)
    requires base % U32 == 0
    ensures (base + delta) % U32 == delta % U32
  {
    var q := base / U32;
    assert base + delta == delta + q * U32;
    AddMultiple(delta, q);
  }

  lemma AddResidue(x: nat, w: nat)
    ensures (x % U32 + w) % U32 == (x + w) % U32
  {
    assert x + w == (x % U32 + w) + (x / U32) * U32;
    AddMultiple(x % U32 + w, x / U32);
  }

  /** Counts the words down and adds them up in 32 bits. */
  method SumDown(img: seq<byte>, off: nat, n: nat) returns (sum: nat)
    requires off + 4 * n <= |img|
    ensures sum == Sum(Words(img, off, n)) % U32
  {
    sum := 0;
    var i := n;
    ghost var ws := Words(img, off, n);
    while i > 0
      invariant 0 <= i <= n
      invariant sum == Sum(ws[i..]) % U32
    {
      i := i - 1;
      assert ws[i..][0] == ws[i] && ws[i..][1..] == ws[i + 1..];
      AddResidue(Sum(ws[i + 1..]), ws[i]);
      sum := (sum + Word(img, off + 4 * i)) % U32;
    }
    assert ws[0..] == ws;
  }

  /** With a zero main sum, the difference of the three words decides the full sum. */
  lemma IncrementalTest(img: seq<byte>, i: nat, dataSize: nat)
    requires HasSignature(img, i) && HEADER_SIZE + dataSize <= |img|
    requires Sum(MainWords(img, dataSize)) % U32 == 0
    ensures var o := SignatureOffset(img, i);
            SubstitutedSumsToZero(img, i, dataSize) <==>
            (0 - (Word(img, 12) + Word(img, 24) + Word(img, 16))
             + (Word(img, o) + Word(img, o + 4) + Word(img, o + 8))) % U32 == 0
  {
    IncrementalSum(img, i, dataSize);
    SameResidue(Sum(MainWords(img, dataSize)),
                Sum(MainWords(Substituted(img, i), dataSize)) - Sum(MainWords(img, dataSize)));
  }

  /** The loop over the extended entries, entered when the main sum is 0; None when it
      leaves the buffer. */
  method CheckSignatures(img: seq<byte>, mainSize: nat, origSum: nat, extSigcount: nat) returns (ok: Option<bool>)
    requires |img| >= HEADER_SIZE && origSum == 0
    ensures ok.None? ==> exists k: nat :: k < extSigcount && !EntryInside(img, mainSize, k)
    ensures mainSize == ExtOffset(img) <= |img| && Sum(MainWords(img, DataSize(img))) % U32 == origSum ==>
              (ok == Some(true) <==> forall k: nat :: k < extSigcount ==> SubstitutedSumsToZero(img, k, DataSize(img)))
  {
    ghost var exact := mainSize == ExtOffset(img) <= |img| && Sum(MainWords(img, DataSize(img))) % U32 == origSum;
    var i := 0;
    while i < extSigcount
      invariant i <= extSigcount
      invariant exact ==> forall k: nat :: k < i ==> SubstitutedSumsToZero(img, k, DataSize(img))
    {
      if !EntryInside(img, mainSize, i) {
        assert exact ==> !SubstitutedSumsToZero(img, i, DataSize(img));
        return None;
      }
      var o := mainSize + EXT_HEADER_SIZE + EXT_SIGNATURE_SIZE * i;
      var sum := (origSum - (Word(img, 12) + Word(img, 24) + Word(img, 16))
                  + (Word(img, o) + Word(img, o + 4) + Word(img, o + 8))) % U32;
      if exact {
        IncrementalTest(img, i, DataSize(img));
      }
      if sum != 0 {
        return Some(false);
      }
      i := i + 1;
    }
    return Some(true);
  }

  predicate EntryInside(img: seq<byte>, mainSize: nat, i: nat) {
    mainSize + EXT_HEADER_SIZE + EXT_SIGNATURE_SIZE * i + EXT_SIGNATURE_SIZE <= |img|
  }

  /** The table's shape is right and its announced size, in 32 bits, is not. */
  predicate CountFault32(img: seq<byte>)
    requires Buffered(img) && MainSize32(img) <= TotalSize(img)
  {
    && TotalSize(img) != MainSize32(img)
    && ExtShapeOk32(TotalSize(img) - MainSize32(img))
    && TableSize32(Word(img, MainSize32(img))) != TotalSize(img) - MainSize32(img)
  }

  /** The tests of the extended table, in 32 bits; count is the number of its entries. */
  method CheckTable(img: seq<byte>, mainSize: nat) returns (err: int, count: nat)
    requires Buffered(img) && VersionsOk(img) && mainSize == MainSize32(img) <= TotalSize(img)
    ensures err == 0 || err == -EINVAL || err == -EFAULT
    ensures err == 0 <==> SizesPass32(img) && Sum(Words(img, mainSize, (TotalSize(img) - mainSize) / 4)) % U32 == 0
    ensures err == 0 && TotalSize(img) != mainSize ==> count == Word(img, mainSize)
    ensures err == -EFAULT <==> CountFault32(img)
  {
    err, count := 0, 0;
    var extTableSize := TotalSize(img) - mainSize;
    if extTableSize != 0 {
      if extTableSize < EXT_HEADER_SIZE || (extTableSize - EXT_HEADER_SIZE) % EXT_SIGNATURE_SIZE != 0 {
        return -EINVAL, 0;
      }
      count := Word(img, mainSize);
      if extTableSize != (count * EXT_SIGNATURE_SIZE + EXT_HEADER_SIZE) % U32 {
        return -EFAULT, count;
      }
      var extSum := SumDown(img, mainSize, extTableSize / 4);
      if extSum != 0 {
        return -EINVAL, count;
      }
    }
  }

  predicate SumsPass32(img: seq<byte>)
    requires Buffered(img) && MainSize32(img) <= TotalSize(img)
  {
    && Sum(Words(img, MainSize32(img), (TotalSize(img) - MainSize32(img)) / 4)) % U32 == 0
    && Sum(Words(img, 0, MainSize32(img) / 4)) % U32 == 0
  }

  /** Every extended entry, substituted, gives a zero sum. */
  ghost predicate EntriesPass(img: seq<byte>)
    requires Buffered(img) && ExtOffset(img) <= TotalSize(img)
  {
    ExtShapeOk32(TotalSize(img) - ExtOffset(img)) ==>
      forall k: nat :: k < Word(img, ExtOffset(img)) ==> SubstitutedSumsToZero(img, k, DataSize(img))
  }

  /** Without a wrap the 32-bit terms are those of the full recomputation. */
  lemma AcceptedIn32(img: seq<byte>)
    requires Buffered(img) && !DataWraps(img) && !CountWraps(img)
    ensures MainSize32(img) == ExtOffset(img)
    ensures Accepted(img) <==> SizesPass32(img) && SumsPass32(img) && EntriesPass(img)
    ensures MainSize32(img) <= TotalSize(img) && CountFault32(img) <==>
            SizesOk(img) && ExtSize(img) != 0 && ExtShapeOk(img) && !ExtCountOk(img)
  {
    SizesPassIff(img);
    if SizesPass(img) {
      assert Words(img, ExtOffset(img), 0) == [];
    }
  }

  /** With 32-bit sizes and offsets.  Without a wrap the result is exact; with one, None says
      that the loop over the entries leaves the buffer. */
  method SanityCheck(img: seq<byte>) returns (r: Option<int>)
    requires Buffered(img)
    ensures !DataWraps(img) && !CountWraps(img) ==>
              && r.Some? && (r.value == 0 <==> Accepted(img))
              && (r.value == -EFAULT <==>
                  SizesOk(img) && VersionsOk(img) && ExtSize(img) != 0 && ExtShapeOk(img) && !ExtCountOk(img))
    ensures r.None? ==> CountWraps(img)
    ensures r.Some? ==> r.value == 0 || r.value == -EINVAL || r.value == -EFAULT
    ensures r == None || r == Some(0) ==> SizesPass32(img) && SumsPass32(img)
    ensures MainSize32(img) == TotalSize(img) ==> (r == Some(0) <==> SizesPass32(img) && SumsPass32(img))
  {
    if MainSize32(img) > TotalSize(img) {
      return Some(-EINVAL);
    }
    if Word(img, 20) != 1 || Word(img, 0) != 1 {
      return Some(-EINVAL);
    }
    r := CheckSums(img, MainSize32(img));
    if !DataWraps(img) && !CountWraps(img) {
      AcceptedIn32(img);
    }
  }

  lemma EntriesInside(img: seq<byte>)
    requires Buffered(img) && SizesPass32(img) && !CountWraps(img) && MainSize32(img) != TotalSize(img)
    ensures forall k: nat :: k < Word(img, MainSize32(img)) ==> EntryInside(img, MainSize32(img), k)
  {
  }

  /** The table tests, the two sums and the loop over the entries. */
  method CheckSums(img: seq<byte>, mainSize: nat) returns (r: Option<int>)
    requires Buffered(img) && VersionsOk(img) && mainSize == MainSize32(img) <= TotalSize(img)
    ensures r.Some? ==> r.value == 0 || r.value == -EINVAL || r.value == -EFAULT
    ensures r == Some(-EFAULT) <==> CountFault32(img)
    ensures r == None || r == Some(0) ==> SizesPass32(img) && SumsPass32(img)
    ensures r == None ==> CountWraps(img)
    ensures mainSize == TotalSize(img) ==> (r == Some(0) <==> SizesPass32(img) && SumsPass32(img))
    ensures mainSize == ExtOffset(img) ==>
              (r == Some(0) <==> SizesPass32(img) && SumsPass32(img) && EntriesPass(img))
  {
    var err, extSigcount := CheckTable(img, mainSize);
    if err != 0 {
      return Some(err);
    }
    var origSum := SumDown(img, 0, mainSize / 4);
    if origSum != 0 {
      return Some(-EINVAL);
    }
    if TotalSize(img) == mainSize {
      return Some(0);
    }
    if !CountWraps(img) {
      EntriesInside(img);
    }
    var ok := CheckSignatures(img, mainSize, origSum, extSigcount);
    return if ok.None? then None else if ok.value then Some(0) else Some(-EINVAL);
  }

  lemma {:induction false} AddMultiple(x: int, q: nat)
    ensures (x + q * U32) % U32 == x % U32
  {
    if q > 0 {
      AddMultiple(x, q - 1);
      assert x + q * U32 == (x + (q - 1) * U32) + U32;
    }
  }

  // --------------------------------------------------------------- matching and loading

  /** What the loader keeps for one CPU. */
  datatype CpuUcode = CpuUcode(sig: nat, pf: nat, rev: nat, stored: Option<seq<byte>>)

  /** p & q is not 0. */
  predicate SharesBit(p: nat, q: nat) {
    p != 0 && q != 0 && ((p % 2 == 1 && q % 2 == 1) || SharesBit(p / 2, q / 2))
  }

  /** Bit k of n. */
  predicate Bit(n: nat, k: nat) {
    n / Pow2(k) % 2 == 1
  }

  lemma NextBit(n: nat, k: nat)
    ensures Bit(n, k + 1) <==> Bit(n / 2, k)
  {
    HalvedQuotient(n, Pow2(k));
  }

  /** The two masks share a bit if and only if some bit is set in both. */
  lemma {:induction false} SharesBitIff(p: nat, q: nat)
    ensures SharesBit(p, q) <==> exists k: nat :: Bit(p, k) && Bit(q, k)
    decreases p
  {
    if p == 0 || q == 0 {
      return;
    }
    SharesBitIff(p / 2, q / 2);
    assert Bit(p, 0) <==> p % 2 == 1;
    assert Bit(q, 0) <==> q % 2 == 1;
    if k: nat :| Bit(p, k) && Bit(q, k) {
      if k > 0 {
        NextBit(p, k - 1);
        NextBit(q, k - 1);
      }
    }
    if k: nat :| Bit(p / 2, k) && Bit(q / 2, k) {
      NextBit(p, k);
      NextBit(q, k);
    }
  }

  /** The platform mask of an update allows the CPU's: some bit is set in both, or both are 0. */
  ghost predicate AllowedMask(p: nat, pf: nat) {
    (p == 0 && pf == 0) || exists k: nat :: Bit(p, k) && Bit(pf, k)
  }

  /** The image names the CPU, in its header or in an extended entry. */
  ghost predicate Names(img: seq<byte>, sig: nat, pf: nat)
    requires Buffered(img) && Accepted(img)
  {
    || (Word(img, 12) == sig && AllowedMask(Word(img, 24), pf))
    || exists i: nat :: EntryNames(img, i, sig, pf)
  }

  ghost predicate EntryNames(img: seq<byte>, i: nat, sig: nat, pf: nat)
    requires Buffered(img) && Accepted(img)
  {
    var table := 48 + DataSize(img);
    && TotalSize(img) > table && i < Word(img, table)
    && table + 20 + 12 * i + 12 <= TotalSize(img)
    && Word(img, table + 20 + 12 * i) == sig && AllowedMask(Word(img, table + 20 + 12 * i + 4), pf)
  }

  predicate Matches(u: CpuUcode, rev: nat, sig: nat, pf: nat) {
    && sig == u.sig
    && (SharesBit(pf, u.pf) || (pf == 0 && u.pf == 0))
    && rev > u.rev
  }

  /** The primary or some extended signature matches and the header revision is newer. */
  ghost predicate AnyMatch(u: CpuUcode, img: seq<byte>)
    requires Buffered(img) && Accepted(img)
  {
    || Matches(u, Revision(img), Word(img, 12), Word(img, 24))
    || (ExtSize(img) != 0 && exists i: nat :: i < ExtCount(img) && SignatureMatches(u, img, i))
  }

  lemma MatchesIff(u: CpuUcode, rev: nat, sig: nat, pf: nat)
    ensures Matches(u, rev, sig, pf) <==> sig == u.sig && AllowedMask(pf, u.pf) && rev > u.rev
  {
    SharesBitIff(pf, u.pf);
  }

  lemma EntryMatchesIff(u: CpuUcode, img: seq<byte>, i: nat)
    requires Buffered(img) && Accepted(img) && ExtSize(img) != 0 && i < ExtCount(img)
    ensures SignatureMatches(u, img, i) <==> EntryNames(img, i, u.sig, u.pf) && Word(img, 4) > u.rev
  {
    var o := SignatureOffset(img, i);
    assert o + 12 <= TotalSize(img);
    MatchesIff(u, Revision(img), Word(img, o), Word(img, o + 4));
  }

  /** The image matches exactly when it is newer than the CPU's revision and names the CPU. */
  lemma AnyMatchIff(u: CpuUcode, img: seq<byte>)
    requires Buffered(img) && Accepted(img)
    ensures AnyMatch(u, img) <==> Word(img, 4) > u.rev && Names(img, u.sig, u.pf)
  {
    MatchesIff(u, Revision(img), Word(img, 12), Word(img, 24));
    if ExtSize(img) != 0 {
      forall i: nat | i < ExtCount(img)
        ensures SignatureMatches(u, img, i) <==> EntryNames(img, i, u.sig, u.pf) && Word(img, 4) > u.rev
      {
        EntryMatchesIff(u, img, i);
      }
    }
  }

  predicate SignatureMatches(u: CpuUcode, img: seq<byte>, i: nat) {
    && HasSignature(img, i)
    && var o := SignatureOffset(img, i);
       Matches(u, Revision(img), Word(img, o), Word(img, o + 4))
  }

  /** The copy loop compares its signed index with the size cast to a signed int: an image
      of 2^31 bytes or more leaves the destination as it was allocated. */
  function Copied(before: seq<byte>, src: seq<byte>): seq<byte>
    requires |before| == |src|
  {
    if |src| <= INT_MAX then src else before
  }

  class Uci {
    var sig: nat
    var pf: nat
    var rev: nat
    var mc: array?<byte>

    ghost predicate Valid()
      reads this
    {
      mc != null ==> mc.Length >= HEADER_SIZE
    }

    ghost function View(): CpuUcode
      reads this, mc
    {
      CpuUcode(sig, pf, rev, if mc == null then None else Some(mc[..]))
    }

    constructor (sig: nat, pf: nat, rev: nat)
      ensures Valid() && View() == CpuUcode(sig, pf, rev, None)
    {
      this.sig, this.pf, this.rev, this.mc := sig, pf, rev, null;
    }

    method UpdateMatch(hdrRev: nat, s: nat, p: nat) returns (r: bool)
      ensures r == Matches(View(), hdrRev, s, p)
      ensures r <==> s == sig && AllowedMask(p, pf) && hdrRev > rev
    {
      SharesBitIff(p, pf);
      return s == sig && (SharesBit(p, pf) || (p == 0 && pf == 0)) && hdrRev > rev;
    }

    method FindMatch(img: seq<byte>) returns (found: bool)
      requires Buffered(img) && Accepted(img)
      ensures found == AnyMatch(View(), img)
      ensures found <==> Word(img, 4) > rev && Names(img, sig, pf)
    {
      AnyMatchIff(View(), img);
      found := UpdateMatch(Revision(img), Word(img, 12), Word(img, 24));
      if found || TotalSize(img) <= DataSize(img) + HEADER_SIZE {
        return;
      }
      var extSigcount := Word(img, ExtOffset(img));
      var i := 0;
      while i < extSigcount
        invariant i <= extSigcount
        invariant forall k: nat :: k < i ==> !SignatureMatches(View(), img, k)
      {
        assert HasSignature(img, i);
        var o := SignatureOffset(img, i);
        var hit := UpdateMatch(Revision(img), Word(img, o), Word(img, o + 4));
        assert hit == SignatureMatches(View(), img, i);
        if hit {
          return true;
        }
        i := i + 1;
      }
      return false;
    }

    static method CopyImage(dst: array<byte>, src: seq<byte>)
      requires dst.Length == |src| < U32
      modifies dst
      ensures dst[..] == Copied(old(dst[..]), src)
    {
      var bound := if |src| <= INT_MAX then |src| else |src| - U32;
      var i := 0;
      while i < bound
        invariant i == 0 || i <= bound
        invariant dst[..i] == src[..i] && dst[i..] == old(dst[i..])
      {
        dst[i] := src[i];
        i := i + 1;
      }
      assert bound == |src| ==> dst[..] == src;
    }

    /** newMc is what the allocator returned for the image, null on failure. */
    method GetMatchingMicrocode(img: seq<byte>, newMc: array?<byte>) returns (r: int)
      requires Valid() && Buffered(img) && Accepted(img)
      requires newMc != null ==> newMc != mc && newMc.Length == TotalSize(img)
      modifies this`mc, newMc
      ensures Valid()
      ensures r == if !AnyMatch(old(View()), img) then 0 else if newMc == null then -ENOMEM else 1
      ensures r != 0 <==> Word(img, 4) > old(rev) && Names(img, old(sig), old(pf))
      ensures r == 1 ==> mc == newMc && newMc[..] == Copied(old(if newMc == null then [] else newMc[..]), img[..TotalSize(img)])
      ensures View() == Step(old(View()), old(Match(img, if newMc == null then None else Some(newMc[..]))))
    {
      var found := FindMatch(img);
      if !found {
        return 0;
      }
      if newMc == null {
        return -ENOMEM;
      }
      CopyImage(newMc, img[..TotalSize(img)]);
      mc := newMc;
      return 1;
    }

    /** running is the revision the CPU reports after the update was written to it. */
    method ApplyMicrocode(running: nat) returns (r: int)
      requires Valid()
      modifies this`rev
      ensures r == if old(mc) == null then -EINVAL else if running != Revision(mc[..]) then -EIO else 0
      ensures View() == Step(old(View()), Apply(running))
    {
      if mc == null {
        return -EINVAL;
      }
      if running != Revision(mc[..]) {
        return -EIO;
      }
      rev := running;
      return 0;
    }
  }

  // ---------------------------------------------------------------- runs of the loader

  function Applied(u: CpuUcode, running: nat): CpuUcode {
    if u.stored.Some? && |u.stored.value| >= HEADER_SIZE && Revision(u.stored.value) == running
    then u.(rev := running) else u
  }

  datatype Event =
    | Match(img: seq<byte>, buffer: Option<seq<byte>>)
    | Apply(running: nat)

  /** Match events carry a sanity-checked image and a buffer of its size, or none. */
  ghost predicate Legal(e: Event) {
    e.Match? ==>
      && Buffered(e.img) && Accepted(e.img)
      && (e.buffer.Some? ==> |e.buffer.value| == TotalSize(e.img))
  }

  ghost predicate Stores(u: CpuUcode, e: Event) {
    e.Match? && Legal(e) && AnyMatch(u, e.img) && e.buffer.Some?
  }

  ghost predicate Applies(u: CpuUcode, e: Event) {
    && e.Apply? && u.stored.Some?
    && |u.stored.value| >= HEADER_SIZE && Revision(u.stored.value) == e.running
  }

  ghost function Step(u: CpuUcode, e: Event): CpuUcode {
    if e.Apply? then Applied(u, e.running)
    else if Stores(u, e) then u.(stored := Some(Copied(e.buffer.value, e.img[..TotalSize(e.img)])))
    else u
  }

  ghost function Run(u: CpuUcode, es: seq<Event>): CpuUcode {
    if es == [] then u else Step(Run(u, es[..|es| - 1]), es[|es| - 1])
  }

  /** The stored image is byte for byte the matched one exactly when its size fits a signed
      int (or the allocated memory held the image already). */
  lemma StoredCopyIff(u: CpuUcode, e: Event)
    requires Stores(u, e)
    ensures Step(u, e).stored == Some(e.img[..TotalSize(e.img)]) <==>
            TotalSize(e.img) <= INT_MAX || e.buffer.value == e.img[..TotalSize(e.img)]
  {
  }

  /** The stored image is never older than the recorded revision. */
  ghost predicate NotOlder(u: CpuUcode) {
    u.stored.Some? ==> |u.stored.value| >= HEADER_SIZE && Revision(u.stored.value) >= u.rev
  }

  /** A newer image waits to be applied. */
  ghost predicate Pending(u: CpuUcode) {
    u.stored.Some? && |u.stored.value| >= HEADER_SIZE && Revision(u.stored.value) > u.rev
  }

  /** What a match stores: the image, or for a size that a signed int cannot hold whatever
      the allocated memory held. */
  predicate Copies(e: Event) {
    e.Match? && |e.img| >= HEADER_SIZE && TotalSize(e.img) <= INT_MAX
  }

  ghost predicate StoresNotOlder(u: CpuUcode, e: Event) {
    Stores(u, e) ==> Copies(e) || Revision(e.buffer.value) >= u.rev
  }

  ghost predicate StoresNewer(u: CpuUcode, e: Event) {
    Stores(u, e) ==> Copies(e) || Revision(e.buffer.value) > u.rev
  }

  lemma CopyRevision(img: seq<byte>)
    requires Buffered(img)
    ensures TotalSize(img) >= HEADER_SIZE ==> Revision(img[..TotalSize(img)]) == Revision(img)
  {
    if TotalSize(img) >= HEADER_SIZE {
      SliceOfSlice(img, 0, TotalSize(img), 4, 8);
    }
  }

  /** Storing keeps the order exactly when what is stored is not older than the record, and
      leaves something to apply exactly when it is newer. */
  lemma StoreKeepsOrderIff(u: CpuUcode, e: Event)
    requires Stores(u, e)
    ensures NotOlder(Step(u, e)) <==> StoresNotOlder(u, e)
    ensures Pending(Step(u, e)) <==> StoresNewer(u, e)
  {
    CopyRevision(e.img);
  }

  lemma StepKeepsOrder(u: CpuUcode, e: Event)
    requires NotOlder(u) && Legal(e) && StoresNotOlder(u, e)
    ensures NotOlder(Step(u, e)) && Step(u, e).rev >= u.rev
    ensures !Applies(u, e) ==> Step(u, e).rev == u.rev
    ensures !Applies(u, e) && StoresNewer(u, e) && (Stores(u, e) || Pending(u)) ==> Pending(Step(u, e))
    ensures Applies(u, e) && Pending(u) ==> Step(u, e).rev > u.rev
  {
    if Stores(u, e) {
      StoreKeepsOrderIff(u, e);
    }
  }

  /** Every event of the run is legal and stores nothing older than the record it meets. */
  ghost predicate Orderly(u: CpuUcode, es: seq<Event>) {
    forall i :: 0 <= i < |es| ==> Legal(es[i]) && StoresNotOlder(Run(u, es[..i]), es[i])
  }

  lemma RunFront(u: CpuUcode, es: seq<Event>, k: nat)
    requires k <= |es|
    ensures forall i :: 0 <= i < k ==> es[..k][..i] == es[..i] && es[..k][i] == es[i]
  {
  }

  /** Main result: over every sequence of match and apply steps that stores nothing older
      than the record, the recorded revision never decreases. */
  lemma {:induction false} RevisionNeverDecreases(u: CpuUcode, es: seq<Event>)
    requires NotOlder(u) && Orderly(u, es)
    ensures NotOlder(Run(u, es)) && Run(u, es).rev >= u.rev
  {
    if es != [] {
      RunFront(u, es, |es| - 1);
      RevisionNeverDecreases(u, es[..|es| - 1]);
      StepKeepsOrder(Run(u, es[..|es| - 1]), es[|es| - 1]);
    }
  }

  /** And the condition on a step is exact: the step may be followed by an apply that lowers
      the revision if and only if the step stores something older. */
  lemma OrderIff(u: CpuUcode, e: Event)
    requires NotOlder(u) && Legal(e)
    ensures StoresNotOlder(u, e) <==>
            forall running: nat :: Step(Step(u, e), Apply(running)).rev >= u.rev
  {
    if StoresNotOlder(u, e) {
      StepKeepsOrder(u, e);
      assert forall running: nat :: NotOlder(Step(u, e)) ==> Applied(Step(u, e), running).rev >= Step(u, e).rev;
    } else {
      StoreKeepsOrderIff(u, e);
      var running := Revision(Step(u, e).stored.value);
      assert Step(Step(u, e), Apply(running)).rev == running;
    }
  }

  /** After a match, through any steps that apply nothing and store nothing that is not
      newer, the next apply that succeeds raises the recorded revision strictly. */
  lemma {:induction false} FirstApplyAfterMatchRises(u: CpuUcode, hit: Event, idle: seq<Event>, apply: Event)
    requires NotOlder(u) && Stores(u, hit) && StoresNewer(u, hit)
    requires forall i :: 0 <= i < |idle| ==>
               var before := Run(Step(u, hit), idle[..i]);
               Legal(idle[i]) && !Applies(before, idle[i]) && StoresNewer(before, idle[i])
    ensures var before := Run(Step(u, hit), idle);
            && before.rev == u.rev && NotOlder(before) && Pending(before)
            && (Applies(before, apply) ==> Step(before, apply).rev > u.rev)
  {
    if idle == [] {
      StepKeepsOrder(u, hit);
    } else {
      var most, last := idle[..|idle| - 1], idle[|idle| - 1];
      RunFront(u, idle, |most|);
      FirstApplyAfterMatchRises(u, hit, most, apply);
      StepKeepsOrder(Run(Step(u, hit), most), last);
    }
  }

  /** The stored bytes are what some match step of the run copied, from an accepted image
      that names the CPU. */
  ghost predicate StoredFrom(u: CpuUcode, es: seq<Event>, now: CpuUcode, i: nat) {
    && i < |es| && es[i].Match? && Legal(es[i]) && es[i].buffer.Some?
    && Names(es[i].img, u.sig, u.pf)
    && now.stored == Some(Copied(es[i].buffer.value, es[i].img[..TotalSize(es[i].img)]))
  }

  /** Over every run that begins with nothing stored, the CPU's signature and mask stay, and
      what is stored was copied from an image for that CPU. */
  lemma {:induction false} StoredIsForTheCpu(u: CpuUcode, es: seq<Event>)
    requires u.stored.None?
    ensures Run(u, es).sig == u.sig && Run(u, es).pf == u.pf
    ensures Run(u, es).stored.Some? ==> exists i: nat :: StoredFrom(u, es, Run(u, es), i)
  {
    if es != [] {
      var most, e := es[..|es| - 1], es[|es| - 1];
      var before := Run(u, most);
      StoredIsForTheCpu(u, most);
      if Stores(before, e) {
        AnyMatchIff(before, e.img);
        assert StoredFrom(u, es, Run(u, es), |most|);
      } else if before.stored.Some? {
        var i: nat :| StoredFrom(u, most, before, i);
        assert es[i] == most[i];
        assert StoredFrom(u, es, Run(u, es), i);
      }
    }
  }

  // ------------------------------------------------------------------- concrete images

  function Encoded(ws: seq<nat>): (s: seq<byte>)
    ensures |s| == 4 * |ws|
  {
    if ws == [] then [] else Le32(ws[0]) + Encoded(ws[1..])
  }

  /** Words written in front of a buffer are read back. */
  lemma {:induction false} EncodedWord(ws: seq<nat>, tail: seq<byte>, k: nat)
    requires k < |ws| && forall i :: 0 <= i < |ws| ==> ws[i] < U32
    ensures Word(Encoded(ws) + tail, 4 * k) == ws[k]
  {
    var b, rest := Encoded(ws) + tail, Encoded(ws[1..]) + tail;
    assert b == Le32(ws[0]) + rest;
    if k == 0 {
      assert b[0..4] == Le32(ws[0]);
      WordOfLe32(b, 0, ws[0]);
    } else {
      EncodedWord(ws[1..], tail, k - 1);
      assert b[4 * k..4 * k + 4] == rest[4 * (k - 1)..4 * (k - 1) + 4];
    }
  }

  lemma EncodedWords(ws: seq<nat>, tail: seq<byte>)
    requires forall i :: 0 <= i < |ws| ==> ws[i] < U32
    ensures Words(Encoded(ws) + tail, 0, |ws|) == ws
    ensures forall k :: 0 <= k < |ws| ==> Word(Encoded(ws) + tail, 4 * k) == ws[k]
  {
    forall k | 0 <= k < |ws| ensures Word(Encoded(ws) + tail, 4 * k) == ws[k] {
      EncodedWord(ws, tail, k);
    }
  }

  /** The words of a header: version, revision, date, sig, checksum, loader version, pf,
      data size, total size, three reserved. */
  function HeaderWords(rev: nat, cksum: nat, dataSize: nat, totalSize: nat): (ws: seq<nat>)
    ensures |ws| == 12
  {
    [1, rev, 0, 0, cksum, 1, 0, dataSize, totalSize, 0, 0, 0]
  }

  lemma HeaderRead(rev: nat, cksum: nat, dataSize: nat, totalSize: nat, tail: seq<byte>)
    requires rev < U32 && cksum < U32 && 0 < dataSize < U32 && 0 < totalSize < U32
    ensures var img := Encoded(HeaderWords(rev, cksum, dataSize, totalSize)) + tail;
            && Revision(img) == rev && DataSize(img) == dataSize && TotalSize(img) == totalSize
            && Word(img, 0) == 1 && Word(img, 20) == 1 && Word(img, 12) == 0 && Word(img, 24) == 0
  {
    var ws := HeaderWords(rev, cksum, dataSize, totalSize);
    EncodedWords(ws, tail);
    var img := Encoded(ws) + tail;
    assert Word(img, 4 * 1) == ws[1] && Word(img, 4 * 7) == ws[7] && Word(img, 4 * 8) == ws[8];
    assert Word(img, 4 * 0) == ws[0] && Word(img, 4 * 5) == ws[5];
    assert Word(img, 4 * 3) == ws[3] && Word(img, 4 * 6) == ws[6];
  }

  /** A data size whose sum with the header size wraps: a header that announces one byte in
      all meets the size tests of SanityCheck, has no words to sum, and is no update. */
  lemma WrappedDataPasses() returns (img: seq<byte>)
    ensures Buffered(img) && DataWraps(img) && SizesPass32(img) && !Accepted(img)
    ensures MainSize32(img) == TotalSize(img) && SumsPass32(img)
  {
    HeaderRead(0, 0, U32 - 47, 1, []);
    img := Encoded(HeaderWords(0, 0, U32 - 47, 1)) + [];
  }

  lemma WordBehind(front: seq<byte>, s: seq<byte>, off: nat)
    requires off + 4 <= |s|
    ensures Word(front + s, |front| + off) == Word(s, off)
  {
    assert (front + s)[|front| + off..|front| + off + 4] == s[off..off + 4];
  }

  /** A count whose table size wraps: 2^30 entries are announced where none fits. */
  lemma WrappedCountPasses() returns (img: seq<byte>)
    ensures Buffered(img) && CountWraps(img) && SizesPass32(img) && !Accepted(img)
  {
    img := OneTableImage(0x4000_0000);
    SizesPassIff(img);
  }

  /** A header, one word of data and a table header with the given count. */
  lemma OneTableImage(count: nat) returns (img: seq<byte>)
    requires count < U32
    ensures |img| == 72 && Buffered(img) && TotalSize(img) == 72 && DataSize(img) == 4
    ensures VersionsOk(img) && Word(img, 52) == count
  {
    var table := TableBehindData(count);
    HeaderRead(0, 0, 4, 72, table);
    img := Encoded(HeaderWords(0, 0, 4, 72)) + table;
    WordBehind(Encoded(HeaderWords(0, 0, 4, 72)), table, 4);
  }

  lemma TableBehindData(count: nat) returns (s: seq<byte>)
    requires count < U32
    ensures |s| == 24 && Word(s, 4) == count
  {
    s := Zeros(4) + (Le32(count) + Zeros(16));
    assert s[4..8] == Le32(count);
    WordOfLe32(s, 4, count);
  }

  lemma {:induction false} SumOfBoth(a: seq<nat>, b: seq<nat>)
    ensures Sum(a + b) == Sum(a) + Sum(b)
  {
    if a == [] {
      assert a + b == b;
    } else {
      SumOfBoth(a[1..], b);
      assert (a + b)[1..] == a[1..] + b;
    }
  }

  lemma SumOfThree(x: nat, y: nat, z: nat)
    ensures Sum([x, y, z]) == x + y + z
  {
    assert [x, y, z][1..] == [y, z] && [y, z][1..] == [z] && [z][1..] == [];
    assert Sum([z]) == z && Sum([y, z]) == y + z;
  }

  lemma HeaderSum(rev: nat, cksum: nat, dataSize: nat, totalSize: nat)
    ensures Sum(HeaderWords(rev, cksum, dataSize, totalSize)) == 2 + rev + cksum + dataSize + totalSize
  {
    var a, b, c, d := [1, rev, 0], [0, cksum, 1], [0, dataSize, totalSize], [0, 0, 0];
    assert HeaderWords(rev, cksum, dataSize, totalSize) == a + (b + (c + d));
    SumOfBoth(a, b + (c + d));
    SumOfBoth(b, c + d);
    SumOfBoth(c, d);
    SumOfThree(1, rev, 0);
    SumOfThree(0, cksum, 1);
    SumOfThree(0, dataSize, totalSize);
    SumOfThree(0, 0, 0);
  }

  lemma {:induction false} SumOfZeros(ws: seq<nat>)
    requires forall i :: 0 <= i < |ws| ==> ws[i] == 0
    ensures Sum(ws) == 0
  {
    if ws != [] {
      SumOfZeros(ws[1..]);
    }
  }

  lemma {:induction false} FromZeros(s: seq<byte>)
    requires forall i :: 0 <= i < |s| ==> s[i] == 0
    ensures FromLe(s) == 0
  {
    if s != [] {
      FromZeros(s[1..]);
    }
  }

  function Zeros(n: nat): (s: seq<byte>)
    ensures |s| == n && forall i :: 0 <= i < n ==> s[i] == 0
  {
    seq(n, _ => 0)
  }

  lemma PaddedSum(ws: seq<nat>, n: nat)
    requires forall i :: 0 <= i < |ws| ==> ws[i] < U32
    ensures Sum(Words(Encoded(ws) + Zeros(4 * n), 0, |ws| + n)) == Sum(ws)
  {
    var img := Encoded(ws) + Zeros(4 * n);
    var all := Words(img, 0, |ws| + n);
    EncodedWords(ws, Zeros(4 * n));
    assert all[..|ws|] == ws;
    forall k | |ws| <= k < |all| ensures all[k] == 0 {
      FromZeros(img[4 * k..4 * k + 4]);
    }
    SumOfZeros(all[|ws|..]);
    SumOfBoth(all[..|ws|], all[|ws|..]);
    assert all[..|ws|] + all[|ws|..] == all;
  }

  /** What must be added for a sum of 0. */
  function Complement(x: nat): (y: nat)
    ensures y < U32 && (x + y) % U32 == 0
  {
    AddResidue(x, (U32 - x % U32) % U32);
    (U32 - x % U32) % U32
  }

  /** For every revision and every number of data words that 32-bit sizes allow there is an
      accepted image, with zero data and no extended table. */
  lemma ZeroImage(rev: nat, n: nat) returns (img: seq<byte>)
    requires rev < U32 && 0 < n && HEADER_SIZE + 4 * n < U32
    ensures |img| == HEADER_SIZE + 4 * n && Buffered(img) && Accepted(img)
    ensures Revision(img) == rev && TotalSize(img) == |img| && Word(img, 12) == 0 && Word(img, 24) == 0
  {
    var d, t := 4 * n, HEADER_SIZE + 4 * n;
    var cksum := Complement(2 + rev + d + t);
    var ws := HeaderWords(rev, cksum, d, t);
    img := Encoded(ws) + Zeros(d);
    HeaderRead(rev, cksum, d, t, Zeros(d));
    HeaderSum(rev, cksum, d, t);
    PaddedSum(ws, n);
    assert (HEADER_SIZE + d) / 4 == |ws| + n;
    assert MainWords(img, d) == Words(img, 0, |ws| + n);
  }

  /** An accepted image of 2^31 bytes and more is not copied.  On a CPU with revision 5 it
      matches by its revision 7; if the allocated memory held zeros, the next apply records
      revision 0. */
  lemma HugeImageLowersRevision() returns (u: CpuUcode, hit: Event)
    ensures NotOlder(u) && Legal(hit) && Stores(u, hit) && !StoresNotOlder(u, hit)
    ensures Step(Step(u, hit), Apply(0)).rev < u.rev
  {
    var img := ZeroImage(7, 0x2000_0000);
    u := CpuUcode(0, 0, 5, None);
    hit := Match(img, Some(Zeros(|img|)));
    FromZeros(Zeros(|img|)[4..8]);
    OrderIff(u, hit);
  }
}
