/**
 * Allocation bitmaps: bit `i` lives in byte `i / 8` under the mask
 * `1 << (i % 8)` (least significant bit first), exactly as the checker's
 * tests, sets and clears address it.
 */
module Bitmap {
  import opened Layout

  /** The mask selecting bit `k` of a byte, `1 << k`. */
  function Mask(k: nat): (m: bv8)
    requires k < 8
    ensures m == (1 as bv8) << k
  {
    if k == 0 then 0x01 else if k == 1 then 0x02 else if k == 2 then 0x04
    else if k == 3 then 0x08 else if k == 4 then 0x10 else if k == 5 then 0x20
    else if k == 6 then 0x40 else 0x80
  }

  /** Bit `i` of the bitmap is set. */
  predicate BitSet(bm: seq<byte>, i: nat)
    requires i / 8 < |bm|
  {
    bm[i / 8] & Mask(i % 8) != 0
  }

  /** Setting bit `k` of a byte sets it and leaves every other bit alone. */
  lemma SetByteBits(x: byte, k: nat)
    requires k < 8
    ensures (x | Mask(k)) & Mask(k) != 0
    ensures forall t :: 0 <= t < 8 && t != k ==> (x | Mask(k)) & Mask(t) == x & Mask(t)
  {
  }

  /** Clearing bit `k` of a byte clears it and leaves every other bit alone. */
  lemma ClearByteBits(x: byte, k: nat)
    requires k < 8
    ensures (x & !Mask(k)) & Mask(k) == 0
    ensures forall t :: 0 <= t < 8 && t != k ==> (x & !Mask(k)) & Mask(t) == x & Mask(t)
  {
  }

  /** Sets bit `i` (`bm[i/8] |= 1 << (i%8)`): bit `i` is set afterwards and
      every other bit, and every other byte, is as before. */
  function SetBit(bm: seq<byte>, i: nat): (r: seq<byte>)
    requires i / 8 < |bm|
    ensures |r| == |bm|
    ensures BitSet(r, i)
    ensures forall j :: 0 <= j < 8 * |bm| && j != i ==> BitSet(r, j) == BitSet(bm, j)
    ensures forall k :: 0 <= k < |bm| && k != i / 8 ==> r[k] == bm[k]
  {
    var r := bm[i / 8 := bm[i / 8] | Mask(i % 8)];
    SetByteBits(bm[i / 8], i % 8);
    forall j | 0 <= j < 8 * |bm| && j != i
      ensures BitSet(r, j) == BitSet(bm, j)
    {
      SetBitOther(bm, i, j);
    }
    r
  }

  /** Clears bit `i` (`bm[i/8] &= ~(1 << (i%8))`): bit `i` is clear afterwards
      and every other bit, and every other byte, is as before. */
  function ClearBit(bm: seq<byte>, i: nat): (r: seq<byte>)
    requires i / 8 < |bm|
    ensures |r| == |bm|
    ensures !BitSet(r, i)
    ensures forall j :: 0 <= j < 8 * |bm| && j != i ==> BitSet(r, j) == BitSet(bm, j)
    ensures forall k :: 0 <= k < |bm| && k != i / 8 ==> r[k] == bm[k]
  {
    var r := bm[i / 8 := bm[i / 8] & !Mask(i % 8)];
    ClearByteBits(bm[i / 8], i % 8);
    forall j | 0 <= j < 8 * |bm| && j != i
      ensures BitSet(r, j) == BitSet(bm, j)
    {
      ClearBitOther(bm, i, j);
    }
    r
  }

  /** Setting bit `i` leaves any other bit `j` as it was. */
  lemma SetBitOther(bm: seq<byte>, i: nat, j: nat)
    requires i / 8 < |bm| && j / 8 < |bm| && j != i
    ensures BitSet(bm[i / 8 := bm[i / 8] | Mask(i % 8)], j) == BitSet(bm, j)
  {
    if j / 8 == i / 8 {
      SetByteBits(bm[i / 8], i % 8);
    }
  }

  /** Clearing bit `i` leaves any other bit `j` as it was. */
  lemma ClearBitOther(bm: seq<byte>, i: nat, j: nat)
    requires i / 8 < |bm| && j / 8 < |bm| && j != i
    ensures BitSet(bm[i / 8 := bm[i / 8] & !Mask(i % 8)], j) == BitSet(bm, j)
  {
    if j / 8 == i / 8 {
      ClearByteBits(bm[i / 8], i % 8);
    }
  }

  /** Setting a bit that is already set, or clearing one that is already
      clear, leaves the bitmap byte-identical. */
  lemma SetClearNoop(bm: seq<byte>, i: nat)
    requires i / 8 < |bm|
    ensures BitSet(bm, i) ==> SetBit(bm, i) == bm
    ensures !BitSet(bm, i) ==> ClearBit(bm, i) == bm
  {
  }

  /** A byte is determined by its eight bits. */
  lemma ByteFromBits(x: byte, y: byte)
    requires forall k :: 0 <= k < 8 ==> (x & Mask(k) != 0) == (y & Mask(k) != 0)
    ensures x == y
  {
    assert (x & Mask(0) != 0) == (y & Mask(0) != 0);
    assert (x & Mask(1) != 0) == (y & Mask(1) != 0);
    assert (x & Mask(2) != 0) == (y & Mask(2) != 0);
    assert (x & Mask(3) != 0) == (y & Mask(3) != 0);
    assert (x & Mask(4) != 0) == (y & Mask(4) != 0);
    assert (x & Mask(5) != 0) == (y & Mask(5) != 0);
    assert (x & Mask(6) != 0) == (y & Mask(6) != 0);
    assert (x & Mask(7) != 0) == (y & Mask(7) != 0);
  }

  /** Two equally long bitmaps that agree on bits 0..8*m-1 and on every byte
      from `m` on are the same bitmap. */
  lemma BitmapExtensionality(a: seq<byte>, b: seq<byte>, m: nat)
    requires |a| == |b| && m <= |a|
    requires forall i :: 0 <= i < 8 * m ==> BitSet(a, i) == BitSet(b, i)
    requires forall k :: m <= k < |a| ==> a[k] == b[k]
    ensures a == b
  {
    forall k | 0 <= k < m
      ensures a[k] == b[k]
    {
      forall t | 0 <= t < 8
        ensures (a[k] & Mask(t) != 0) == (b[k] & Mask(t) != 0)
      {
        var i := 8 * k + t;
        assert i / 8 == k && i % 8 == t;
        assert BitSet(a, i) == BitSet(b, i);
      }
      ByteFromBits(a[k], b[k]);
    }
  }
}
