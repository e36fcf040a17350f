/**
 The kernel's memory routines, which work a byte at a time up to an alignment, then eight bytes at a time,
 then on the remaining bytes.  Memory is a flat array; an address is an index into it.
 */
module ByteMemory {
  import opened Words

  /**
   The bytes at `lo..hi` are those that stood `shift` below them in memory `was`; all others are unchanged.
   A copy from `src` to `dest` shifts by `dest - src`.
   */
  ghost predicate Shifted(was: seq<bv8>, mem: array<bv8>, lo: nat, hi: nat, shift: int)
    reads mem
  {
    && |was| == mem.Length && lo <= hi <= |was| && 0 <= lo - shift && hi - shift <= |was|
    && (forall i {:trigger mem[i]} :: lo <= i < hi ==> mem[i] == was[i - shift])
    && (forall i {:trigger mem[i]} :: 0 <= i < |was| && !(lo <= i < hi) ==> mem[i] == was[i])
  }

  /** A 64-bit store of a value with bytes `b`. */
  method StoreWord(mem: array<bv8>, a: nat, b: seq<bv8>)
    requires a + 8 <= mem.Length && |b| == 8
    modifies mem
    ensures forall i {:trigger mem[i]} :: a <= i < a + 8 ==> mem[i] == b[i - a]
    ensures forall i {:trigger mem[i]} :: 0 <= i < mem.Length && !(a <= i < a + 8) ==> mem[i] == old(mem[i])
  {
    mem[a], mem[a + 1], mem[a + 2], mem[a + 3] := b[0], b[1], b[2], b[3];
    mem[a + 4], mem[a + 5], mem[a + 6], mem[a + 7] := b[4], b[5], b[6], b[7];
  }

  /** A 64-bit load followed by a 64-bit store moves eight bytes, overlapping or not. */
  method CopyWord(mem: array<bv8>, a: nat, shift: int)
    requires a + 8 <= mem.Length && 0 <= a - shift && a - shift + 8 <= mem.Length
    modifies mem
    ensures forall i {:trigger mem[i]} :: a <= i < a + 8 ==> mem[i] == old(mem[i - shift])
    ensures forall i {:trigger mem[i]} :: 0 <= i < mem.Length && !(a <= i < a + 8) ==> mem[i] == old(mem[i])
  {
    var bytes := mem[a - shift..a - shift + 8];
    var w := Word(bytes);
    BytesOfWord(bytes);
    StoreWord(mem, a, Bytes(w));
  }

  /** Copies single bytes upwards from `a`, to the end or up to an address that is aligned after shifting by `skew`. */
  method CopyBytes(mem: array<bv8>, a: nat, shift: int, skew: int, aligning: bool, ghost was: seq<bv8>, ghost lo: nat,
                   hi: nat)
    returns (a': nat)
    requires lo <= a <= hi <= mem.Length && hi - shift <= mem.Length && (shift <= 0 || shift >= hi - lo)
    requires Shifted(was, mem, lo, a, shift)
    modifies mem
    ensures a <= a' <= hi && Shifted(was, mem, lo, a', shift)
    ensures !aligning ==> a' == hi
  {
    a' := a;
    while a' < hi && !(aligning && (a' - skew) % 8 == 0)
      invariant a <= a' <= hi && Shifted(was, mem, lo, a', shift)
    {
      mem[a'] := mem[a' - shift];
      a' := a' + 1;
    }
  }

  /** Copies whole words upwards from `a` while eight bytes are left. */
  method CopyWords(mem: array<bv8>, a: nat, shift: int, ghost was: seq<bv8>, ghost lo: nat, hi: nat) returns (a': nat)
    requires lo <= a <= hi <= mem.Length && hi - shift <= mem.Length && (shift <= 0 || shift >= hi - lo)
    requires Shifted(was, mem, lo, a, shift)
    modifies mem
    ensures a <= a' <= hi && Shifted(was, mem, lo, a', shift) && hi - a' < 8
  {
    a' := a;
    while hi - a' >= 8
      invariant a <= a' <= hi && Shifted(was, mem, lo, a', shift)
    {
      CopyWord(mem, a', shift);
      a' := a' + 8;
    }
  }

  /** All phases of a forward copy. */
  method CopyUp(mem: array<bv8>, lo: nat, hi: nat, shift: int, ghost was: seq<bv8>)
    requires lo <= hi <= mem.Length && hi - shift <= mem.Length && (shift <= 0 || shift >= hi - lo)
    requires Shifted(was, mem, lo, lo, shift)
    modifies mem
    ensures Shifted(was, mem, lo, hi, shift)
  {
    var d := CopyBytes(mem, lo, shift, 0, true, was, lo, hi);
    d := CopyBytes(mem, d, shift, shift, true, was, lo, hi);
    d := CopyWords(mem, d, shift, was, lo, hi);
    d := CopyBytes(mem, d, shift, 0, false, was, lo, hi);
  }

  /** The regions may overlap only with the destination in front. */
  method Memcpy(mem: array<bv8>, dest: nat, src: nat, size: nat)
    requires dest + size <= mem.Length && src + size <= mem.Length
    requires dest <= src || dest >= src + size
    modifies mem
    ensures Shifted(old(mem[..]), mem, dest, dest + size, dest - src)
  {
    CopyUp(mem, dest, dest + size, dest - src, mem[..]);
  }

  /** Moves single bytes downwards from `a`, to the start or to an address below which a shifted byte is aligned. */
  method MoveBytes(mem: array<bv8>, a: nat, shift: nat, skew: int, aligning: bool, ghost was: seq<bv8>, lo: nat,
                   ghost hi: nat)
    returns (a': nat)
    requires lo <= a <= hi && shift <= lo && Shifted(was, mem, a, hi, shift)
    modifies mem
    ensures lo <= a' <= a && Shifted(was, mem, a', hi, shift)
    ensures !aligning ==> a' == lo
  {
    a' := a;
    while a' > lo && !(aligning && (a' - 1 - skew) % 8 == 0)
      invariant lo <= a' <= a && Shifted(was, mem, a', hi, shift)
    {
      a' := a' - 1;
      mem[a'] := mem[a' - shift];
    }
  }

  /** Moves whole words downwards from `a` while eight bytes are left. */
  method MoveWords(mem: array<bv8>, a: nat, shift: nat, ghost was: seq<bv8>, lo: nat, ghost hi: nat) returns (a': nat)
    requires lo <= a <= hi && shift <= lo && Shifted(was, mem, a, hi, shift)
    modifies mem
    ensures lo <= a' <= a && Shifted(was, mem, a', hi, shift) && a' - lo < 8
  {
    a' := a;
    while a' - lo >= 8
      invariant lo <= a' <= a && Shifted(was, mem, a', hi, shift)
    {
      a' := a' - 8;
      CopyWord(mem, a', shift);
    }
  }

  /** All phases of a backward move. */
  method MoveDown(mem: array<bv8>, lo: nat, hi: nat, shift: nat, ghost was: seq<bv8>)
    requires shift <= lo <= hi && Shifted(was, mem, hi, hi, shift)
    modifies mem
    ensures Shifted(was, mem, lo, hi, shift)
  {
    var a := MoveBytes(mem, hi, shift, 0, true, was, lo, hi);
    a := MoveBytes(mem, a, shift, shift, true, was, lo, hi);
    a := MoveWords(mem, a, shift, was, lo, hi);
    a := MoveBytes(mem, a, shift, 0, false, was, lo, hi);
  }

  /** The destination ends up as the source was, and nothing else changes, for every overlap and alignment. */
  method Memmove(mem: array<bv8>, dest: nat, src: nat, size: nat)
    requires dest + size <= mem.Length && src + size <= mem.Length
    modifies mem
    ensures Shifted(old(mem[..]), mem, dest, dest + size, dest - src)
  {
    if dest < src || dest >= src + size {
      Memcpy(mem, dest, src, size);
    } else {
      MoveDown(mem, dest, dest + size, dest - src, mem[..]);
    }
  }

  ghost predicate Same(m: seq<bv8>, d: nat, s: nat, k: nat)
    requires d + k <= |m| && s + k <= |m|
  {
    m[d..d + k] == m[s..s + k]
  }

  /** The first difference is at offset `i` and has value `r`. */
  ghost predicate DiffersAt(m: seq<bv8>, d: nat, s: nat, i: nat, r: int)
    requires d + i < |m| && s + i < |m|
  {
    Same(m, d, s, i) && r == m[d + i] as int - m[s + i] as int && r != 0
  }

  /** Compares bytes from offset `k` on and stops at `to` or at an aligned destination. */
  method CompareBytes(mem: seq<bv8>, dest: nat, src: nat, k: nat, to: nat, aligning: bool) returns (k': nat, r: int)
    requires k <= to && dest + to <= |mem| && src + to <= |mem| && Same(mem, dest, src, k)
    ensures k <= k' <= to && Same(mem, dest, src, k')
    ensures r == 0 && !aligning ==> k' == to
    ensures r != 0 ==> k' < to && DiffersAt(mem, dest, src, k', r)
  {
    k' := k;
    while k' < to && !(aligning && (dest + k') % 8 == 0)
      invariant k <= k' <= to && Same(mem, dest, src, k')
    {
      if mem[dest + k'] != mem[src + k'] {
        return k', mem[dest + k'] as int - mem[src + k'] as int;
      }
      SameAppend(mem, dest, src, k', 1);
      k' := k' + 1;
    }
    r := 0;
  }

  /** Compares whole words from offset `k` on while eight bytes are left. */
  method CompareWords(mem: seq<bv8>, dest: nat, src: nat, k: nat, to: nat) returns (k': nat, r: int)
    requires k <= to && dest + to <= |mem| && src + to <= |mem| && Same(mem, dest, src, k)
    ensures k' <= to && Same(mem, dest, src, k')
    ensures r != 0 ==> k' < to && DiffersAt(mem, dest, src, k', r)
  {
    k', r := k, 0;
    while to - k' >= 8
      invariant k' <= to && Same(mem, dest, src, k') && r == 0
    {
      if Word(mem[dest + k'..dest + k' + 8]) != Word(mem[src + k'..src + k' + 8]) {
        k', r := CompareBytes(mem, dest, src, k', k' + 8, false);
        if r != 0 { return; }
      } else {
        SameWords(mem[dest + k'..dest + k' + 8], mem[src + k'..src + k' + 8]);
        SameAppend(mem, dest, src, k', 8);
        k' := k' + 8;
      }
    }
  }

  /** The difference of the first two bytes that differ, or 0. */
  method Memcmp(mem: seq<bv8>, dest: nat, src: nat, size: nat) returns (r: int)
    requires dest + size <= |mem| && src + size <= |mem|
    ensures r == 0 <==> Same(mem, dest, src, size)
    ensures r != 0 ==> exists i: nat :: i < size && DiffersAt(mem, dest, src, i, r)
  {
    var k: nat;
    k, r := CompareBytes(mem, dest, src, 0, size, true);
    if r == 0 {
      k, r := CompareWords(mem, dest, src, k, size);
    }
    if r == 0 {
      k, r := CompareBytes(mem, dest, src, k, size, false);
    }
    if r != 0 {
      assert mem[dest..dest + size][k] != mem[src..src + size][k];
    }
  }

  lemma SameAppend(m: seq<bv8>, d: nat, s: nat, k: nat, n: nat)
    requires d + k + n <= |m| && s + k + n <= |m| && Same(m, d, s, k) && m[d + k..d + k + n] == m[s + k..s + k + n]
    ensures Same(m, d, s, k + n)
  {
    assert m[d..d + k + n] == m[d..d + k] + m[d + k..d + k + n];
    assert m[s..s + k + n] == m[s..s + k] + m[s + k..s + k + n];
  }

  /** Equal words have equal bytes. */
  lemma SameWords(a: seq<bv8>, b: seq<bv8>)
    requires |a| == |b| == 8 && Word(a) == Word(b)
    ensures a == b
  {
    forall j | 0 <= j < 8 ensures a[j] == b[j] {
      ByteOfWord(a, j);
      ByteOfWord(b, j);
    }
  }

  ghost predicate Filled(was: seq<bv8>, mem: array<bv8>, lo: nat, hi: nat, v: bv8)
    reads mem
  {
    && |was| == mem.Length && lo <= hi <= |was|
    && (forall i {:trigger mem[i]} :: lo <= i < hi ==> mem[i] == v)
    && (forall i {:trigger mem[i]} :: 0 <= i < |was| && !(lo <= i < hi) ==> mem[i] == was[i])
  }

  /** Fills single bytes upwards from `a`, to the end or up to an aligned address. */
  method FillBytes(mem: array<bv8>, a: nat, v: bv8, aligning: bool, ghost was: seq<bv8>, ghost lo: nat, hi: nat)
      returns (a': nat)
    requires lo <= a <= hi <= mem.Length && Filled(was, mem, lo, a, v)
    modifies mem
    ensures a <= a' <= hi && Filled(was, mem, lo, a', v) && (!aligning ==> a' == hi)
  {
    a' := a;
    while a' < hi && !(aligning && a' % 8 == 0)
      invariant a <= a' <= hi && Filled(was, mem, lo, a', v)
    {
      mem[a'] := v;
      a' := a' + 1;
    }
  }

  method FillPattern(v: bv8) returns (pattern: bv64)
    ensures forall j :: 0 <= j < 8 ==> Bytes(pattern)[j] == v
  {
    pattern := v as bv64;
    for i := 1 to 8
      invariant pattern == Pattern(v, i - 1)
    {
      pattern := (pattern << 8) | (v as bv64);
    }
    forall j | 0 <= j < 8 ensures Bytes(pattern)[j] == v { PatternBytes(v, j); }
  }

  method Memset(mem: array<bv8>, start: nat, v: bv8, size: nat)
    requires start + size <= mem.Length
    modifies mem
    ensures Filled(old(mem[..]), mem, start, start + size, v)
  {
    ghost var was := mem[..];
    var a := FillBytes(mem, start, v, true, was, start, start + size);
    var pattern := FillPattern(v);
    while start + size - a >= 8
      invariant start <= a <= start + size && Filled(was, mem, start, a, v)
    {
      StoreWord(mem, a, Bytes(pattern));
      a := a + 8;
    }
    a := FillBytes(mem, a, v, false, was, start, start + size);
  }

  /** The length of the zero-terminated string at `str`; nothing past the aligned word of its terminator is read. */
  method Strlen(mem: seq<bv8>, str: nat, ghost end: nat) returns (n: nat)
    requires str <= end && (end / 8 + 1) * 8 <= |mem| && mem[end] == 0
    requires forall i :: str <= i < end ==> mem[i] != 0
    ensures str + n == end
  {
    var s := str;
    while s % 8 != 0
      invariant str <= s <= end
      decreases end - s
    {
      if mem[s] == 0 {
        return s - str;
      }
      s := s + 1;
    }
    while true
      invariant str <= s <= end && s % 8 == 0
      decreases end - s
    {
      assert s + 8 <= (end / 8 + 1) * 8;
      var v := Word(mem[s..s + 8]);
      ZeroByteTest(mem[s..s + 8]);
      if HasZeroByte(v) {
        for i := 0 to 8
          invariant forall j :: s <= j < s + i ==> mem[j] != 0
        {
          if mem[s + i] == 0 {
            return s - str + i;
          }
        }
      }
      assert end >= s + 8;
      s := s + 8;
    }
  }
}
