/**
 The page frame bitmap: one bit per frame, eight frames to a byte, a set bit for a used frame.
 */
module FrameBitmap {

  /** The byte with only bit `k` set. */
  function Mask(k: nat): bv8
    requires k < 8
  {
    if k == 0 then 0x01 else if k == 1 then 0x02 else if k == 2 then 0x04 else if k == 3 then 0x08
    else if k == 4 then 0x10 else if k == 5 then 0x20 else if k == 6 then 0x40 else 0x80
  }

  predicate IsSet(b: bv8, k: nat)
    requires k < 8
  {
    b & Mask(k) > 0
  }

  /** A byte after its bit `k` is first cleared and then, for a used frame, set. */
  function WithBit(b: bv8, k: nat, value: bool): bv8
    requires k < 8
  {
    var cleared := b & !Mask(k);
    if value then cleared | Mask(k) else cleared
  }

  lemma WithBitSets(b: bv8, k: nat, value: bool, j: nat)
    requires k < 8 && j < 8
    ensures IsSet(WithBit(b, k, value), j) == if j == k then value else IsSet(b, j)
  {
    WithBitOne(b, k, value);
    if j != k {
      WithBitOther(b, k, value, j);
    }
  }

  lemma WithBitOne(b: bv8, k: nat, value: bool)
    requires k < 8
    ensures IsSet(WithBit(b, k, value), k) == value
  {
  }

  lemma WithBitOther(b: bv8, k: nat, value: bool, j: nat)
    requires k < 8 && j < 8 && k != j
    ensures IsSet(WithBit(b, k, value), j) == IsSet(b, j)
  {
    var m, n := Mask(k), Mask(j);
    assert m & n == 0;
    assert (b & !m) & n == b & n;
    assert ((b & !m) | m) & n == b & n;
  }

  /**
   The overflow guard lets an index through whose byte is outside the buffer exactly if it is one past the last bit.
   */
  lemma GuardOffByOne(size: nat, index: nat)
    ensures !(index > 8 * size) && index / 8 >= size <==> index == 8 * size
  {
  }

  class PageFrameBitmap {
    const buffer: array<bv8>

    constructor (size: nat)
      ensures fresh(buffer) && buffer.Length == size
      ensures forall i :: 0 <= i < 8 * size ==> Bits()[i]
    {
      buffer := new bv8[size](_ => 0xff);
      new;
      forall i | 0 <= i < 8 * size ensures Bits()[i] {
        AllSet(i % 8);
      }
    }

    static lemma AllSet(k: nat)
      requires k < 8
      ensures IsSet(0xff, k)
    {
    }

    /** The used flags of all frames that have a bit. */
    ghost function Bits(): (bits: seq<bool>)
      reads buffer
      ensures |bits| == 8 * buffer.Length
    {
      seq(8 * buffer.Length, i requires 0 <= i < 8 * buffer.Length reads buffer => IsSet(buffer[i / 8], i % 8))
    }

    /**
     Writes one bit.  The overflow guard of the code admits the index one past the last bit, whose
     byte is not in the buffer: the requires shuts that index out, larger ones are reported.
     */
    method SetPageValue(index: nat, value: bool) returns (ok: bool)
      requires index != 8 * buffer.Length
      modifies buffer
      ensures ok == (index < 8 * buffer.Length)
      ensures Bits() == if ok then old(Bits())[index := value] else old(Bits())
    {
      if index > 8 * buffer.Length {
        return false;
      }
      var byteIdx, bitIdx := index / 8, index % 8;
      ghost var before := buffer[..];
      buffer[byteIdx] := WithBit(buffer[byteIdx], bitIdx, value);
      forall i | 0 <= i < 8 * buffer.Length
        ensures Bits()[i] == if i == index then value else old(Bits())[i]
      {
        if i / 8 == byteIdx {
          WithBitSets(before[byteIdx], bitIdx, value, i % 8);
        }
      }
      return true;
    }

    method IsPageUsed(index: nat) returns (used: bool)
      requires index < 8 * buffer.Length
      ensures used == Bits()[index]
    {
      used := IsSet(buffer[index / 8], index % 8);
    }
  }
}
