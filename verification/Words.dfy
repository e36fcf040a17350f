/**
 Little-endian machine words: eight bytes as one 64-bit value.
 */
module Words {

  /** The value of a 64-bit load from eight bytes. */
  function Word(b: seq<bv8>): bv64
    requires |b| == 8
  {
    (b[0] as bv64) | ((b[1] as bv64) << 8) | ((b[2] as bv64) << 16) | ((b[3] as bv64) << 24) |
    ((b[4] as bv64) << 32) | ((b[5] as bv64) << 40) | ((b[6] as bv64) << 48) | ((b[7] as bv64) << 56)
  }

  /** Byte `j` that a 64-bit store writes. */
  function Byte(w: bv64, j: nat): bv8
    requires j < 8
  {
    if j == 0 then (w & 0xff) as bv8
    else if j == 1 then ((w >> 8) & 0xff) as bv8
    else if j == 2 then ((w >> 16) & 0xff) as bv8
    else if j == 3 then ((w >> 24) & 0xff) as bv8
    else if j == 4 then ((w >> 32) & 0xff) as bv8
    else if j == 5 then ((w >> 40) & 0xff) as bv8
    else if j == 6 then ((w >> 48) & 0xff) as bv8
    else ((w >> 56) & 0xff) as bv8
  }

  lemma ByteOfWord(b: seq<bv8>, j: nat)
    requires |b| == 8 && j < 8
    ensures Byte(Word(b), j) == b[j]
  {
    match j {
      case 0 => case 1 => case 2 => case 3 =>
      case 4 => case 5 => case 6 => case 7 =>
    }
  }

  /** The eight bytes of a store, in memory order. */
  function Bytes(w: bv64): (b: seq<bv8>)
    ensures |b| == 8 && forall j :: 0 <= j < 8 ==> b[j] == Byte(w, j)
  {
    [Byte(w, 0), Byte(w, 1), Byte(w, 2), Byte(w, 3), Byte(w, 4), Byte(w, 5), Byte(w, 6), Byte(w, 7)]
  }

  /** Storing a loaded word writes the bytes that were loaded. */
  lemma BytesOfWord(b: seq<bv8>)
    requires |b| == 8
    ensures Bytes(Word(b)) == b
  {
    forall j | 0 <= j < 8 ensures Bytes(Word(b))[j] == b[j] { ByteOfWord(b, j); }
  }

  /** A byte repeated eight times, as the fill pattern is built. */
  function Pattern(v: bv8, n: nat): bv64 {
    if n == 0 then v as bv64 else Widen(Pattern(v, n - 1), v as bv64)
  }

  /** One step of the pattern: `n` bytes become `n + 1`. */
  function Widen(p: bv64, x: bv64): bv64 {
    (p << 8) | x
  }

  /** A step puts the byte in front and moves the others up. */
  lemma WidenWord(b: seq<bv8>, v: bv8)
    requires |b| == 8
    ensures Widen(Word(b), v as bv64) == Word([v, b[0], b[1], b[2], b[3], b[4], b[5], b[6]])
  {
  }

  /** The fill byte `n + 1` times, then zeros. */
  function Repeated(v: bv8, n: nat): (b: seq<bv8>)
    ensures |b| == 8
  {
    if n == 0 then [v, 0, 0, 0, 0, 0, 0, 0]
    else var b := Repeated(v, n - 1); [v, b[0], b[1], b[2], b[3], b[4], b[5], b[6]]
  }

  lemma {:induction false} RepeatedAt(v: bv8, n: nat, j: nat)
    requires j <= n && j < 8
    ensures Repeated(v, n)[j] == v
    decreases n
  {
    if j > 0 { RepeatedAt(v, n - 1, j - 1); }
  }

  lemma FirstByte(v: bv8)
    ensures Word([v, 0, 0, 0, 0, 0, 0, 0]) == v as bv64
  {
  }

  lemma {:induction false} PatternWord(v: bv8, n: nat)
    ensures Pattern(v, n) == Word(Repeated(v, n))
  {
    if n == 0 {
      FirstByte(v);
    } else {
      PatternWord(v, n - 1);
      WidenWord(Repeated(v, n - 1), v);
    }
  }

  /** Every byte of the finished pattern is the fill byte. */
  lemma PatternBytes(v: bv8, j: nat)
    requires j < 8
    ensures Bytes(Pattern(v, 7))[j] == v
  {
    PatternWord(v, 7);
    RepeatedAt(v, 7, j);
    BytesOfWord(Repeated(v, 7));
  }

  /** The borrow test: subtracting one from every byte sets the top bit of a byte that had it clear. */
  predicate HasZeroByte(w: bv64) {
    (w - 0x0101_0101_0101_0101) & !w & 0x8080_8080_8080_8080 != 0
  }

  lemma BorrowTest(w: bv64)
    ensures HasZeroByte(w) <==>
            || w & 0xff == 0 || w & 0xff00 == 0 || w & 0xff_0000 == 0 || w & 0xff00_0000 == 0
            || w & 0xff_0000_0000 == 0 || w & 0xff00_0000_0000 == 0
            || w & 0xff_0000_0000_0000 == 0 || w & 0xff00_0000_0000_0000 == 0
  {
  }

  /** The test holds exactly if some byte of the word is zero. */
  lemma ZeroByteTest(b: seq<bv8>)
    requires |b| == 8
    ensures HasZeroByte(Word(b)) <==> exists j :: 0 <= j < 8 && b[j] == 0
  {
    var w := Word(b);
    BorrowTest(w);
    assert w & 0xff == 0 <==> b[0] == 0;
    assert w & 0xff00 == 0 <==> b[1] == 0;
    assert w & 0xff_0000 == 0 <==> b[2] == 0;
    assert w & 0xff00_0000 == 0 <==> b[3] == 0;
    assert w & 0xff_0000_0000 == 0 <==> b[4] == 0;
    assert w & 0xff00_0000_0000 == 0 <==> b[5] == 0;
    assert w & 0xff_0000_0000_0000 == 0 <==> b[6] == 0;
    assert w & 0xff00_0000_0000_0000 == 0 <==> b[7] == 0;
  }
}
