/** The bitmap of fetched blocks (pkg/util/bitmap/bitmap.go), refined to a sequence of flags. */
module BitMaps {
  import opened Arithmetic

  /** 1 << uint64(pos) in a byte: a negative position is a shift beyond every bit. */
  function Mask(pos: int): bv8
    requires pos < 8
  {
    if pos < 0 then 0 else (1 as bv8) << pos
  }

  predicate Bit(b: bv8, pos: int)
    requires 0 <= pos < 8
  {
    b & ((1 as bv8) << pos) > 0
  }

  function SetBit(b: bv8, pos: int): bv8
    requires 0 <= pos < 8
  {
    b | ((1 as bv8) << pos)
  }

  lemma SetBitIs(b: bv8, p: int, q: int)
    requires 0 <= p < 8 && 0 <= q < 8
    ensures Bit(SetBit(b, p), q) <==> p == q || Bit(b, q)
  {
    Shifts(p);
    Shifts(q);
  }

  lemma Shifts(p: int)
    requires 0 <= p < 8
    ensures (1 as bv8) << p == [1, 2, 4, 8, 16, 32, 64, 128][p]
  {
  }

  class BitMap {
    const bits: array<bv8>
    const size: int

    ghost predicate Valid()
    {
      size >= 0 && bits.Length == size / 8 + 1
    }

    /** Flag of one index; index `size` itself has one too, since the guard is idx > size. */
    ghost predicate Flag(idx: int)
      requires Valid() && 0 <= idx <= size
      reads bits
    {
      Bit(bits[idx / 8], idx % 8)
    }

    constructor (size: int)
      requires size >= 0
      ensures Valid() && this.size == size && fresh(bits)
      ensures forall idx :: 0 <= idx <= size ==> !Flag(idx)
    {
      this.size := size;
      bits := new bv8[size / 8 + 1](_ => 0);
    }

    /** Below -7 the subscript is negative and the source panics. */
    method Has(idx: int) returns (r: bool)
      requires Valid() && idx > -8
      ensures r <==> 0 <= idx <= size && Flag(idx)
    {
      if idx > size {
        return false;
      }
      r := bits[TruncDiv(idx, 8)] & Mask(TruncMod(idx, 8)) > 0;
    }

    method Set(idx: int)
      requires Valid() && idx > -8
      modifies bits
      ensures forall i :: 0 <= i <= size ==> (Flag(i) <==> i == idx || old(Flag(i)))
    {
      if idx > size {
        return;
      }
      var subscript := TruncDiv(idx, 8);
      ghost var byte := bits[subscript];
      bits[subscript] := bits[subscript] | Mask(TruncMod(idx, 8));
      forall i | 0 <= i <= size
        ensures Flag(i) <==> i == idx || old(Flag(i))
      {
        MaskSets(byte, idx, i);
      }
    }
  }

  /** Or-ing the mask of idx into its byte sets that flag; the mask of a negative index is empty. */
  lemma MaskSets(b: bv8, idx: int, i: int)
    requires idx > -8 && i >= 0
    ensures TruncDiv(i, 8) == i / 8 && (idx < 0 ==> TruncDiv(idx, 8) == 0 && TruncMod(idx, 8) < 0)
    ensures idx >= 0 ==> TruncDiv(idx, 8) == idx / 8 && TruncMod(idx, 8) == idx % 8
    ensures Bit(b | Mask(TruncMod(idx, 8)), i % 8) <==> (idx >= 0 && idx % 8 == i % 8) || Bit(b, i % 8)
  {
    if idx >= 0 {
      SetBitIs(b, idx % 8, i % 8);
    } else {
      assert (-idx) / 8 == 0;
      OrZero(b);
    }
  }

  lemma OrZero(b: bv8)
    ensures b | 0 == b
  {
  }
}
