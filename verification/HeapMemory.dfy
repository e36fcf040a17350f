/**
 Segment headers of the kernel heap, as they lie in a flat byte memory.

 A header has 32 bytes: seven signature bytes, a flag byte whose lowest bit says that the segment is free,
 and three little-endian 64-bit fields, the size and the addresses of the next and the previous header.
 */
module HeapMemory {

  const HEADER := 32
  const TWO64 := 0x1_0000_0000_0000_0000

  type Mem = seq<bv8>

  /** "HEAPHDR" */
  const SIGNATURE: seq<bv8> := [0x48, 0x45, 0x41, 0x50, 0x48, 0x44, 0x52]

  // ------------------------------------------------------------------------- 64-bit fields

  function Push(x: bv8, bit: bool): bv8 {
    (x << 1) | (if bit then 1 else 0)
  }

  /** The byte that holds the lowest `k` bits of a number. */
  function ByteOf(n: nat, k: nat): bv8
    decreases k
  {
    if k == 0 then 0 else Push(ByteOf(n / 2, k - 1), n % 2 == 1)
  }

  /** The number that the lowest `k` bits of a byte spell. */
  function ValueOf(b: bv8, k: nat): nat
    decreases k
  {
    if k == 0 then 0 else (if b & 1 == 1 then 1 else 0) + 2 * ValueOf(b >> 1, k - 1)
  }

  /** The number that bytes spell, lowest byte first. */
  function Little(b: seq<bv8>): nat {
    if b == [] then 0 else ValueOf(b[0], 8) + 256 * Little(b[1..])
  }

  /** The lowest `k` bytes of a number, lowest first. */
  function Digits(n: nat, k: nat): (b: seq<bv8>)
    ensures |b| == k
    decreases k
  {
    if k == 0 then [] else [ByteOf(n % 256, 8)] + Digits(n / 256, k - 1)
  }

  function Power256(k: nat): nat {
    if k == 0 then 1 else 256 * Power256(k - 1)
  }

  lemma PushPop(x: bv8, bit: bool)
    requires x & 0x80 == 0
    ensures Push(x, bit) >> 1 == x && (Push(x, bit) & 1 == 1 <==> bit)
  {
  }

  /** A byte made of `k` bits leaves the others clear. */
  lemma {:induction false} HighBitsClear(n: nat, k: nat)
    requires k <= 7
    ensures ByteOf(n, k) & HighBits(k) == 0
    decreases k
  {
    if k > 0 {
      HighBitsClear(n / 2, k - 1);
      PushClear(ByteOf(n / 2, k - 1), n % 2 == 1, HighBits(k - 1));
    }
  }

  function HighBits(k: nat): bv8
    requires k <= 7
  {
    if k == 0 then 0xff else if k == 1 then 0xfe else if k == 2 then 0xfc else if k == 3 then 0xf8
    else if k == 4 then 0xf0 else if k == 5 then 0xe0 else if k == 6 then 0xc0 else 0x80
  }

  lemma PushClear(x: bv8, bit: bool, high: bv8)
    requires x & high == 0
    ensures Push(x, bit) & (high << 1) == 0
  {
  }

  function Power2(k: nat): nat {
    if k == 0 then 1 else 2 * Power2(k - 1)
  }

  lemma {:induction false} BitsValue(n: nat, k: nat)
    requires k <= 8 && n < Power2(k)
    ensures ValueOf(ByteOf(n, k), k) == n
    decreases k
  {
    if k > 0 {
      BitsValue(n / 2, k - 1);
      HighBitsClear(n / 2, k - 1);
      TopBitClear(ByteOf(n / 2, k - 1), k - 1);
      PushPop(ByteOf(n / 2, k - 1), n % 2 == 1);
    }
  }

  lemma TopBitClear(x: bv8, k: nat)
    requires k <= 7 && x & HighBits(k) == 0
    ensures x & 0x80 == 0
  {
  }

  lemma ByteValue(n: nat)
    requires n < 256
    ensures ValueOf(ByteOf(n, 8), 8) == n
  {
    assert Power2(8) == 256 by { assert Power2(4) == 16; }
    BitsValue(n, 8);
  }

  lemma {:induction false} LittleDigits(n: nat, k: nat)
    requires n < Power256(k)
    ensures Little(Digits(n, k)) == n
    decreases k
  {
    if k > 0 {
      var low, rest := ByteOf(n % 256, 8), Digits(n / 256, k - 1);
      LittleDigits(n / 256, k - 1);
      LittleCons(low, rest);
      ByteValue(n % 256);
      assert Digits(n, k) == [low] + rest;
    }
  }

  lemma LittleCons(low: bv8, rest: seq<bv8>)
    ensures Little([low] + rest) == ValueOf(low, 8) + 256 * Little(rest)
  {
    assert ([low] + rest)[1..] == rest;
  }

  lemma Power256Of8()
    ensures Power256(8) == TWO64
  {
    assert Power256(4) == 0x1_0000_0000;
    assert Power256(6) == 0x1_0000_0000_0000;
  }

  /** A 64-bit sum. */
  function Sum64(x: nat, y: nat): (r: nat)
    ensures r < TWO64 && (x + y < TWO64 ==> r == x + y)
  {
    (x + y) % TWO64
  }

  function Get64(m: Mem, a: nat): nat
    requires a + 8 <= |m|
  {
    Little(m[a..a + 8])
  }

  function Put64(m: Mem, a: nat, n: nat): (r: Mem)
    requires a + 8 <= |m|
    ensures |r| == |m|
  {
    m[..a] + Digits(n, 8) + m[a + 8..]
  }

  /** The bytes of `m` and `r` outside `lo..hi` are the same. */
  ghost predicate SameOutside(m: Mem, r: Mem, lo: nat, hi: nat) {
    |r| == |m| && forall x :: 0 <= x < |m| && !(lo <= x < hi) ==> r[x] == m[x]
  }

  lemma PutGet(m: Mem, a: nat, n: nat)
    requires a + 8 <= |m| && n < TWO64
    ensures Get64(Put64(m, a, n), a) == n && SameOutside(m, Put64(m, a, n), a, a + 8)
  {
    Power256Of8();
    LittleDigits(n, 8);
    assert Put64(m, a, n)[a..a + 8] == Digits(n, 8);
  }

  lemma SameSlice(m: Mem, r: Mem, lo: nat, hi: nat, a: nat, n: nat)
    requires SameOutside(m, r, lo, hi) && a + n <= |m| && (a + n <= lo || hi <= a)
    ensures m[a..a + n] == r[a..a + n]
  {
  }

  // ------------------------------------------------------------------------- headers

  datatype Header = Header(signed: bool, free: bool, size: nat, next: nat, prev: nat)

  function HeaderAt(m: Mem, a: nat): Header
    requires a + HEADER <= |m|
  {
    Header(m[a..a + 7] == SIGNATURE, m[a + 7] & 1 == 1, Get64(m, a + 8), Get64(m, a + 16), Get64(m, a + 24))
  }

  /** A header depends on its own bytes only. */
  lemma SameHeader(m: Mem, r: Mem, a: nat)
    requires a + HEADER <= |m| && |r| == |m| && forall x :: a <= x < a + HEADER ==> r[x] == m[x]
    ensures HeaderAt(r, a) == HeaderAt(m, a)
  {
    assert m[a..a + 7] == r[a..a + 7];
    assert m[a + 8..a + 16] == r[a + 8..a + 16];
    assert m[a + 16..a + 24] == r[a + 16..a + 24];
    assert m[a + 24..a + 32] == r[a + 24..a + 32];
  }

  lemma HeaderSame(m: Mem, r: Mem, a: nat, b: nat)
    requires SameOutside(m, r, a, a + HEADER) && b + HEADER <= |m| && (b + HEADER <= a || a + HEADER <= b)
    ensures HeaderAt(r, b) == HeaderAt(m, b)
  {
    SameHeader(m, r, b);
  }

  /** `r` is `m` with the header at `a` rewritten to `h`. */
  ghost predicate Rewritten(m: Mem, r: Mem, a: nat, h: Header) {
    a + HEADER <= |m| && SameOutside(m, r, a, a + HEADER) && HeaderAt(r, a) == h
  }

  lemma RewrittenAgain(m: Mem, m1: Mem, r: Mem, a: nat)
    requires a + HEADER <= |m| && SameOutside(m, m1, a, a + HEADER) && SameOutside(m1, r, a, a + HEADER)
    ensures Rewritten(m, r, a, HeaderAt(r, a))
  {
  }

  function SetSignature(m: Mem, a: nat): (r: Mem)
    requires a + HEADER <= |m|
    ensures |r| == |m|
  {
    m[..a] + SIGNATURE + m[a + 7..]
  }

  /** Writes the lowest bit of the flag byte and keeps the reserved bits. */
  function SetFree(m: Mem, a: nat, free: bool): (r: Mem)
    requires a + HEADER <= |m|
    ensures |r| == |m|
  {
    m[a + 7 := (m[a + 7] & 0xfe) | (if free then 1 else 0)]
  }

  function SetSize(m: Mem, a: nat, n: nat): (r: Mem)
    requires a + HEADER <= |m|
    ensures |r| == |m|
  {
    Put64(m, a + 8, n)
  }

  function SetNext(m: Mem, a: nat, b: nat): (r: Mem)
    requires a + HEADER <= |m|
    ensures |r| == |m|
  {
    Put64(m, a + 16, b)
  }

  function SetPrev(m: Mem, a: nat, b: nat): (r: Mem)
    requires a + HEADER <= |m|
    ensures |r| == |m|
  {
    Put64(m, a + 24, b)
  }

  lemma SignatureWritten(m: Mem, a: nat)
    requires a + HEADER <= |m|
    ensures Rewritten(m, SetSignature(m, a), a, HeaderAt(m, a).(signed := true))
  {
    var r := SetSignature(m, a);
    assert r[a..a + 7] == SIGNATURE;
    assert SameOutside(m, r, a, a + 7);
    SameSlice(m, r, a, a + 7, a + 8, 8);
    SameSlice(m, r, a, a + 7, a + 16, 8);
    SameSlice(m, r, a, a + 7, a + 24, 8);
  }

  lemma FreeWritten(m: Mem, a: nat, free: bool)
    requires a + HEADER <= |m|
    ensures Rewritten(m, SetFree(m, a, free), a, HeaderAt(m, a).(free := free))
  {
    var r := SetFree(m, a, free);
    FlagBit(m[a + 7], free);
    assert SameOutside(m, r, a + 7, a + 8);
    SameSlice(m, r, a + 7, a + 8, a, 7);
    SameSlice(m, r, a + 7, a + 8, a + 8, 8);
    SameSlice(m, r, a + 7, a + 8, a + 16, 8);
    SameSlice(m, r, a + 7, a + 8, a + 24, 8);
  }

  lemma FlagBit(flags: bv8, free: bool)
    ensures (((flags & 0xfe) | (if free then 1 else 0)) & 1 == 1) == free
  {
  }

  lemma SizeWritten(m: Mem, a: nat, n: nat)
    requires a + HEADER <= |m| && n < TWO64
    ensures Rewritten(m, SetSize(m, a, n), a, HeaderAt(m, a).(size := n))
  {
    var r := SetSize(m, a, n);
    PutGet(m, a + 8, n);
    SameSlice(m, r, a + 8, a + 16, a, 7);
    SameSlice(m, r, a + 8, a + 16, a + 16, 8);
    SameSlice(m, r, a + 8, a + 16, a + 24, 8);
  }

  lemma NextWritten(m: Mem, a: nat, b: nat)
    requires a + HEADER <= |m| && b < TWO64
    ensures Rewritten(m, SetNext(m, a, b), a, HeaderAt(m, a).(next := b))
  {
    var r := SetNext(m, a, b);
    PutGet(m, a + 16, b);
    SameSlice(m, r, a + 16, a + 24, a, 7);
    SameSlice(m, r, a + 16, a + 24, a + 8, 8);
    SameSlice(m, r, a + 16, a + 24, a + 24, 8);
  }

  lemma PrevWritten(m: Mem, a: nat, b: nat)
    requires a + HEADER <= |m| && b < TWO64
    ensures Rewritten(m, SetPrev(m, a, b), a, HeaderAt(m, a).(prev := b))
  {
    var r := SetPrev(m, a, b);
    PutGet(m, a + 24, b);
    SameSlice(m, r, a + 24, a + 32, a, 7);
    SameSlice(m, r, a + 24, a + 32, a + 8, 8);
    SameSlice(m, r, a + 24, a + 32, a + 16, 8);
  }

  // ------------------------------------------------------------------------- single bits of a header

  predicate LowBit(b: bv8) {
    b & 1 == 1
  }

  /** The lowest bit of byte `j` of a number. */
  predicate FieldBit(n: nat, j: nat)
    decreases j
  {
    if j == 0 then n % 2 == 1 else FieldBit(n / 256, j - 1)
  }

  lemma LowBitOfValue(b: bv8)
    ensures ValueOf(b, 8) % 2 == 1 <==> LowBit(b)
    ensures ValueOf(b, 8) < 256
  {
    ValueBelow(b, 8);
    assert Power2(8) == 256 by { assert Power2(4) == 16; }
  }

  lemma {:induction false} ValueBelow(b: bv8, k: nat)
    ensures ValueOf(b, k) < Power2(k)
    decreases k
  {
    if k > 0 { ValueBelow(b >> 1, k - 1); }
  }

  lemma LowDigit(low: nat, rest: nat)
    requires low < 256
    ensures (low + 256 * rest) / 256 == rest
  {
  }

  lemma Parity(low: nat, half: nat)
    ensures (low + 2 * half) % 2 == low % 2
  {
  }

  lemma FieldStep(low: nat, rest: nat, j: nat)
    requires low < 256
    ensures FieldBit(low + 256 * rest, 0) == (low % 2 == 1)
    ensures j > 0 ==> FieldBit(low + 256 * rest, j) == FieldBit(rest, j - 1)
  {
    LowDigit(low, rest);
    Parity(low, 128 * rest);
  }

  /** The bits of a number with this lowest byte. */
  lemma BitStep(n: nat, low: bv8, rest: nat, j: nat)
    requires n == ValueOf(low, 8) + 256 * rest
    ensures FieldBit(n, 0) == LowBit(low)
    ensures j > 0 ==> FieldBit(n, j) == FieldBit(rest, j - 1)
  {
    LowBitOfValue(low);
    FieldStep(ValueOf(low, 8), rest, j);
  }

  lemma {:induction false} BitOfLittle(b: seq<bv8>, j: nat)
    requires j < |b|
    ensures FieldBit(Little(b), j) == LowBit(b[j])
    decreases j
  {
    BitStep(Little(b), b[0], Little(b[1..]), j);
    if j > 0 { BitOfLittle(b[1..], j - 1); }
  }

  /** The lowest bit of byte `o` of a header. */
  predicate HeaderBit(h: Header, o: nat)
    requires o < HEADER
  {
    if o < 7 then LowBit(SIGNATURE[o]) else if o == 7 then h.free
    else if o < 16 then FieldBit(h.size, o - 8)
    else if o < 24 then FieldBit(h.next, o - 16)
    else FieldBit(h.prev, o - 24)
  }

  lemma FieldBitAt(m: Mem, a: nat, j: nat)
    requires a + 8 <= |m| && j < 8
    ensures LowBit(m[a + j]) == FieldBit(Get64(m, a), j)
  {
    BitOfLittle(m[a..a + 8], j);
  }

  lemma HeaderBitAt(m: Mem, a: nat, o: nat)
    requires a + HEADER <= |m| && o < HEADER && HeaderAt(m, a).signed
    ensures LowBit(m[a + o]) == HeaderBit(HeaderAt(m, a), o)
  {
    if o < 7 {
      assert m[a + o] == m[a..a + 7][o];
    } else if 8 <= o < 16 {
      FieldBitAt(m, a + 8, o - 8);
    } else if 16 <= o < 24 {
      FieldBitAt(m, a + 16, o - 16);
    } else if o >= 24 {
      FieldBitAt(m, a + 24, o - 24);
    }
  }

  lemma SumDiffers(x: nat, y: nat)
    requires 0 < y < TWO64
    ensures Sum64(x, y) != x
  {
  }

  /** A 64-bit field that is added to changes in some byte. */
  lemma SumChanges(m: Mem, r: Mem, a: nat, y: nat) returns (x: nat)
    requires a + 8 <= |m| == |r| && 0 < y < TWO64 && Get64(r, a) == Sum64(Get64(m, a), y)
    ensures a <= x < a + 8 && r[x] != m[x]
  {
    SumDiffers(Get64(m, a), y);
    x := FirstDifference(m, r, a, a + 8);
  }

  lemma FirstDifference(m: Mem, r: Mem, lo: nat, hi: nat) returns (x: nat)
    requires lo <= hi <= |m| == |r| && m[lo..hi] != r[lo..hi]
    ensures lo <= x < hi && r[x] != m[x]
  {
    var j :| 0 <= j < hi - lo && m[lo..hi][j] != r[lo..hi][j];
    x := lo + j;
  }

  /** The fields of a header tell their bytes apart. */
  lemma FieldBytesDiffer(m: Mem, r: Mem, a: nat, x: nat)
    requires a + HEADER <= |m| == |r| && a + 8 <= x < a + HEADER && r[x] != m[x]
    ensures HeaderAt(r, a) != HeaderAt(m, a)
  {
    var f := if x < a + 16 then a + 8 else if x < a + 24 then a + 16 else a + 24;
    assert m[x] == m[f..f + 8][x - f] && r[x] == r[f..f + 8][x - f];
    LittleInjective(m[f..f + 8], r[f..f + 8]);
  }

  lemma {:induction false} LittleInjective(b: seq<bv8>, c: seq<bv8>)
    requires |b| == |c|
    ensures Little(b) == Little(c) <==> b == c
    decreases |b|
  {
    if b != [] && Little(b) == Little(c) {
      LowBitOfValue(b[0]);
      LowBitOfValue(c[0]);
      LittleInjective(b[1..], c[1..]);
      ValueInjective(b[0], c[0]);
      assert b == [b[0]] + b[1..] && c == [c[0]] + c[1..];
    }
  }

  lemma ValueInjective(b: bv8, c: bv8)
    requires ValueOf(b, 8) == ValueOf(c, 8)
    ensures b == c
  {
    BitsEqual(b, c, 8);
  }

  /** Bytes that spell the same number agree in the bits that spell it. */
  lemma {:induction false} BitsEqual(b: bv8, c: bv8, k: nat)
    requires k <= 8 && ValueOf(b, k) == ValueOf(c, k)
    ensures (b ^ c) & !HighBits8(k) == 0
    decreases k
  {
    if k > 0 {
      BitsEqual(b >> 1, c >> 1, k - 1);
      ShiftedEqual(b, c, HighBits8(k - 1));
    }
  }

  function HighBits8(k: nat): bv8
    requires k <= 8
  {
    if k == 8 then 0 else HighBits(k)
  }

  lemma ShiftedEqual(b: bv8, c: bv8, high: bv8)
    requires ((b >> 1) ^ (c >> 1)) & !high == 0 && b & 1 == c & 1
    ensures (b ^ c) & !(high << 1) == 0
  {
  }

  lemma {:induction false} LittleBelow(b: seq<bv8>)
    ensures Little(b) < Power256(|b|)
    decreases |b|
  {
    if b != [] {
      LowBitOfValue(b[0]);
      LittleBelow(b[1..]);
    }
  }

  lemma WordBelow(m: Mem, a: nat)
    requires a + 8 <= |m|
    ensures Get64(m, a) < TWO64
  {
    LittleBelow(m[a..a + 8]);
    Power256Of8();
  }

  // ------------------------------------------------------------------------- memory seen as headers

  /** Headers that are known to be in memory, by address. */
  type Headers = map<nat, Header>

  ghost predicate HeaderIn(m: Mem, v: Headers, a: nat) {
    a in v && a + HEADER <= |m| && HeaderAt(m, a) == v[a]
  }

  ghost predicate Shows(m: Mem, v: Headers) {
    forall a {:trigger HeaderIn(m, v, a)} :: a in v ==> HeaderIn(m, v, a)
  }

  /** Two headers do not overlap. */
  predicate Apart(a: nat, b: nat) {
    a + HEADER <= b || b + HEADER <= a
  }

  /** What is known after a store: the header written, and those it does not overlap. */
  ghost function Write(v: Headers, a: nat, h: Header): Headers {
    (map b | b in v && Apart(b, a) :: v[b])[a := h]
  }

  /** The header at `a` is now `h`, and every header that does not overlap it is as before. */
  ghost predicate Updated(v: Headers, v': Headers, a: nat, h: Header) {
    && a in v' && v'[a] == h
    && (forall b :: b in v && Apart(b, a) ==> b in v' && v'[b] == v[b])
  }

  lemma WriteShows(m: Mem, v: Headers, r: Mem, a: nat, h: Header)
    requires Shows(m, v) && Rewritten(m, r, a, h)
    ensures Shows(r, Write(v, a, h))
  {
    var v' := Write(v, a, h);
    forall b | b in v' ensures HeaderIn(r, v', b) {
      if b != a {
        assert HeaderIn(m, v, b);
        HeaderSame(m, r, a, b);
      }
    }
  }
}
