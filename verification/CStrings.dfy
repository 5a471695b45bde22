/** String and memory routines of a libc, on bytes in memory with pointers as offsets. */
module CStrings {
  import opened Bytes
  import opened Common

  /** Conversion of an int to a signed char. */
  function SChar(x: int): (c: int)
    ensures -0x80 <= c < 0x80
  {
    var low := x % 0x100;
    if low < 0x80 then low else low - 0x100
  }

  /** A NUL-terminated string of length n starts at p. */
  predicate IsString(m: seq<byte>, p: nat, n: nat) {
    && p + n < |m| && m[p + n] == 0
    && forall k :: p <= k < p + n ==> m[k] != 0
  }

  ghost predicate Terminated(m: seq<byte>, p: nat) {
    exists n: nat :: IsString(m, p, n)
  }

  /** The memory of exactly one string, up to and including its NUL. */
  predicate EndsAtNul(s: seq<byte>) {
    |s| > 0 && IsString(s, 0, |s| - 1)
  }

  /** The characters of such a string. */
  function Chars(s: seq<byte>): (t: seq<byte>)
    requires EndsAtNul(s)
    ensures |t| == |s| - 1
  {
    s[..|s| - 1]
  }

  method Strlen(m: seq<byte>, s: nat) returns (n: nat)
    requires Terminated(m, s)
    ensures IsString(m, s, n)
  {
    ghost var len: nat :| IsString(m, s, len);
    var sc := s;
    while m[sc] != 0
      invariant s <= sc <= s + len
      invariant forall k :: s <= k < sc ==> m[k] != 0
      decreases s + len - sc
    {
      sc := sc + 1;
    }
    return sc - s;
  }

  /** The two blocks differ first at index k. */
  predicate DifferAt(cs: seq<byte>, ct: seq<byte>, k: nat) {
    && k < |cs| && k < |ct|
    && cs[..k] == ct[..k] && cs[k] != ct[k]
  }

  /** Difference of two unsigned chars, cut to a signed char. */
  function Difference(a: int, b: int): int {
    SChar(a - b)
  }

  lemma DifferenceShows(a: byte, b: byte)
    ensures Difference(a, b) == 0 <==> a == b
  {
  }

  /** 0 exactly for equal blocks, although the difference is cut to a signed char.  Only the
      two blocks of count bytes are read. */
  method Memcmp(cs: seq<byte>, ct: seq<byte>, count: nat) returns (res: int)
    requires count == |cs| == |ct|
    ensures res == 0 <==> cs == ct
    ensures res != 0 ==> exists k: nat :: DifferAt(cs, ct, k) && res == Difference(cs[k], ct[k])
  {
    res := 0;
    var i := 0;
    while i < count
      invariant i <= count && res == 0
      invariant cs[..i] == ct[..i]
    {
      DifferenceShows(cs[i], ct[i]);
      res := Difference(cs[i], ct[i]);
      if res != 0 {
        assert DifferAt(cs, ct, i);
        return;
      }
      i := i + 1;
    }
    assert cs[..i] == cs && ct[..i] == ct;
  }

  /** The cut forgets multiples of 256. */
  lemma CutForgets(x: int, k: int)
    requires -1 <= k <= 1
    ensures SChar(x + 0x100 * k) == SChar(x)
  {
    assert (x + 0x100 * k) % 0x100 == x % 0x100;
  }

  /** Comparing signed instead of unsigned chars makes no difference after the cut. */
  lemma SignedDifference(a: byte, b: byte)
    ensures Difference(SChar(a), SChar(b)) == Difference(a, b)
  {
    var i, j := if a < 0x80 then 0 else 1, if b < 0x80 then 0 else 1;
    assert SChar(a) == a - 0x100 * i && SChar(b) == b - 0x100 * j;
    CutForgets(a - b, j - i);
  }

  /** 0 exactly for equal strings; the characters compared are signed, and nothing behind
      either NUL is read. */
  method Strcmp(cs: seq<byte>, ct: seq<byte>) returns (res: int)
    requires EndsAtNul(cs) && EndsAtNul(ct)
    ensures res == 0 <==> cs == ct
    ensures res != 0 ==> exists k: nat :: DifferAt(cs, ct, k) && res == Difference(cs[k], ct[k])
  {
    var i := 0;
    while true
      invariant i < |cs| && i < |ct|
      invariant cs[..i] == ct[..i]
      decreases |cs| - i
    {
      SignedDifference(cs[i], ct[i]);
      DifferenceShows(cs[i], ct[i]);
      res := Difference(SChar(cs[i]), SChar(ct[i]));
      if res != 0 || cs[i] == 0 {
        break;
      }
      i := i + 1;
    }
    if res != 0 {
      assert DifferAt(cs, ct, i);
    } else {
      assert cs == cs[..i] + [0] && ct == ct[..i] + [0];
    }
  }

  /** The documented sign of the result, less than 0 exactly when the first block is less,
      holds exactly when the first difference fits a signed char. */
  lemma SignIff(a: byte, b: byte)
    requires a != b
    ensures (Difference(a, b) < 0 <==> a < b) <==> b - 0x80 <= a < b + 0x80
  {
  }

  /** Otherwise the sign is wrong: 200 compares as less than 50. */
  lemma WrongSign()
    ensures Difference(200, 50) < 0
  {
  }

  /** When the result is not negative, as the annotation of strcmp demands: the first byte
      is not less and by less than 128, or it is less by more than 128. */
  lemma NonnegativeIff(a: byte, b: byte)
    ensures Difference(a, b) >= 0 <==> b <= a < b + 0x80 || a < b - 0x80
  {
  }

  /** The needle occurs in the haystack at index k. */
  predicate OccursAt(hay: seq<byte>, needle: seq<byte>, k: nat) {
    k + |needle| <= |hay| && hay[k..k + |needle|] == needle
  }

  /** The first index where the needle occurs, None exactly when it occurs nowhere.  Both
      sequences end at their NUL, so no access lies outside the two strings, and the blocks
      compared hold characters only. */
  method Strstr(s1: seq<byte>, s2: seq<byte>) returns (r: Option<nat>)
    requires EndsAtNul(s1) && EndsAtNul(s2)
    ensures r.None? ==> forall k: nat :: !OccursAt(Chars(s1), Chars(s2), k)
    ensures r.Some? ==> OccursAt(Chars(s1), Chars(s2), r.value)
    ensures r.Some? ==> forall k: nat :: k < r.value ==> !OccursAt(Chars(s1), Chars(s2), k)
  {
    assert IsString(s2, 0, |s2| - 1) && IsString(s1, 0, |s1| - 1);
    var l2 := Strlen(s2, 0);
    LengthUnique(s2, 0, l2, |s2| - 1);
    if l2 == 0 {
      return Some(0);
    }
    var l1 := Strlen(s1, 0);
    LengthUnique(s1, 0, l1, |s1| - 1);
    var p := 0;
    while l1 >= l2
      invariant p + l1 == |s1| - 1
      invariant forall k: nat :: k < p ==> !OccursAt(Chars(s1), Chars(s2), k)
    {
      l1 := l1 - 1;
      assert p + l2 <= |Chars(s1)|;
      var c := Memcmp(s1[p..p + l2], s2[..l2], l2);
      SliceOfSlice(s1, 0, |s1| - 1, p, p + l2);
      if c == 0 {
        return Some(p);
      }
      p := p + 1;
    }
    return None;
  }

  lemma LengthUnique(m: seq<byte>, p: nat, a: nat, b: nat)
    requires IsString(m, p, a) && IsString(m, p, b)
    ensures a == b
  {
  }

  /** Memory with n bytes at dest replaced by the n bytes at src. */
  function Spliced(m: seq<byte>, dest: nat, src: nat, n: nat): (r: seq<byte>)
    requires dest + n <= |m| && src + n <= |m|
    ensures |r| == |m|
  {
    m[..dest] + m[src..src + n] + m[dest + n..]
  }

  lemma SplicedAt(m: seq<byte>, dest: nat, src: nat, n: nat, k: nat)
    requires dest + n <= |m| && src + n <= |m| && k < |m|
    ensures Spliced(m, dest, src, n)[k] == if dest <= k < dest + n then m[src + (k - dest)] else m[k]
  {
  }

  lemma SpliceOneMore(m: seq<byte>, dest: nat, src: nat, i: nat)
    requires dest + i < |m| && src + i < |m|
    requires dest <= src || src + i < dest
    ensures Spliced(m, dest, src, i)[src + i] == m[src + i]
    ensures Spliced(m, dest, src, i)[dest + i := m[src + i]] == Spliced(m, dest, src, i + 1)
  {
    SplicedAt(m, dest, src, i, src + i);
    var s, t := Spliced(m, dest, src, i)[dest + i := m[src + i]], Spliced(m, dest, src, i + 1);
    forall k | 0 <= k < |m| ensures s[k] == t[k] {
      SplicedAt(m, dest, src, i, k);
      SplicedAt(m, dest, src, i + 1, k);
    }
  }

  /** The copying loop of strcpy and strcat: the source string with its NUL replaces what is
      at dest, and everything else in memory stays.  The two may overlap if the destination
      does not start inside the source. */
  method Strcpy(mem: array<byte>, dest: nat, src: nat, ghost l: nat)
    requires IsString(mem[..], src, l) && dest + l < mem.Length
    requires dest <= src || src + l < dest
    modifies mem
    ensures mem[..] == Spliced(old(mem[..]), dest, src, l + 1)
  {
    ghost var was := mem[..];
    var i := 0;
    while true
      invariant i <= l
      invariant mem[..] == Spliced(was, dest, src, i)
      decreases l - i
    {
      SpliceOneMore(was, dest, src, i);
      NulAtEnd(was, src, l, i);
      ghost var before := mem[..];
      var c := mem[src + i];
      mem[dest + i] := c;
      assert mem[..] == before[dest + i := before[src + i]];
      if c == 0 {
        break;
      }
      i := i + 1;
    }
  }

  lemma NulAtEnd(m: seq<byte>, p: nat, n: nat, i: nat)
    requires IsString(m, p, n) && i <= n
    ensures m[p + i] == 0 <==> i == n
  {
  }

  /** The loop as steps on memory: None when it runs off the end. */
  function CopyFrom(m: seq<byte>, dest: nat, src: nat): Option<seq<byte>>
    decreases |m| - dest
  {
    if dest >= |m| || src >= |m| then None
    else
      var after := m[dest := m[src]];
      if m[src] == 0 then Some(after) else CopyFrom(after, dest + 1, src + 1)
  }

  /** With the source's NUL overwritten before it is read, no NUL is ever met. */
  lemma {:induction false} CopyRunsOff(m: seq<byte>, dest: nat, src: nat)
    requires src < dest && forall k :: src <= k < dest && k < |m| ==> m[k] != 0
    ensures CopyFrom(m, dest, src).None?
    decreases |m| - dest
  {
    if dest < |m| {
      CopyRunsOff(m[dest := m[src]], dest + 1, src + 1);
    }
  }

  lemma {:induction false} CopyArrives(m: seq<byte>, dest: nat, src: nat, l: nat, i: nat)
    requires IsString(m, src, l) && dest + l < |m| && i <= l
    requires dest <= src || src + l < dest
    ensures CopyFrom(Spliced(m, dest, src, i), dest + i, src + i) == Some(Spliced(m, dest, src, l + 1))
    decreases l - i
  {
    SpliceOneMore(m, dest, src, i);
    if i < l {
      CopyArrives(m, dest, src, l, i + 1);
    }
  }

  /** The copy succeeds if and only if the destination does not start inside the source,
      behind its first byte; otherwise the loop overwrites the NUL and runs off the end. */
  lemma CopySucceedsIff(m: seq<byte>, dest: nat, src: nat, l: nat)
    requires IsString(m, src, l) && dest + l < |m|
    ensures CopyFrom(m, dest, src) == Some(Spliced(m, dest, src, l + 1)) <==> dest <= src || src + l < dest
    ensures CopyFrom(m, dest, src).None? <==> src < dest <= src + l
  {
    if dest <= src || src + l < dest {
      CopyArrives(m, dest, src, l, 0);
      assert Spliced(m, dest, src, 0) == m;
    } else {
      CopyRunsOff(m, dest, src);
    }
  }

  /** Appends the source where the destination string ends. */
  method Strcat(mem: array<byte>, dest: nat, src: nat, ghost n: nat, ghost l: nat)
    requires IsString(mem[..], dest, n) && IsString(mem[..], src, l)
    requires dest + n + l < mem.Length
    requires dest + n <= src || src + l < dest + n
    modifies mem
    ensures mem[..] == Spliced(old(mem[..]), dest + n, src, l + 1)
    ensures IsString(mem[..], dest, n + l)
  {
    ghost var was := mem[..];
    var d := dest;
    while mem[d] != 0
      invariant dest <= d <= dest + n && mem[..] == was
      decreases dest + n - d
    {
      d := d + 1;
    }
    assert was[d] == 0 && d == dest + n;
    Strcpy(mem, d, src, l);
    JoinedString(was, dest, n, src, l);
  }

  lemma JoinedString(m: seq<byte>, dest: nat, n: nat, src: nat, l: nat)
    requires IsString(m, dest, n) && IsString(m, src, l) && dest + n + l < |m|
    ensures IsString(Spliced(m, dest + n, src, l + 1), dest, n + l)
  {
    var j := Spliced(m, dest + n, src, l + 1);
    SplicedAt(m, dest + n, src, l + 1, dest + n + l);
    forall k | dest <= k < dest + n + l ensures j[k] != 0 {
      SplicedAt(m, dest + n, src, l + 1, k);
    }
  }
}
