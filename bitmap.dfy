/**
 * The frame bitmap of the physical memory manager: one bit per 4096-byte
 * frame, bit `k % 8` of byte `k / 8` describing frame `k`, set when the frame
 * is in use and clear when it is free. The C macros `BITMAP_SET`,
 * `BITMAP_UNSET` and `BITMAP_TEST` act on the allocator's byte array; here
 * they are functions on its contents, and the allocator's methods apply them
 * to its array.
 */
module Bitmap {

  /** Bytes per frame (`PAGE_SIZE`). */
  const PAGE_SIZE: nat := 4096

  /** `DIV_ROUND_UP(a, b)`: `a / b` rounded up. */
  function DivRoundUp(a: nat, b: nat): nat
    requires b > 0
  {
    (a + b - 1) / b
  }

  /** `DIV_ROUND_UP(a, b)` is the least `q` with `q * b >= a`. */
  lemma DivRoundUpIsCeiling(a: nat, b: nat)
    requires b > 0
    ensures DivRoundUp(a, b) * b >= a
    ensures DivRoundUp(a, b) == 0 || (DivRoundUp(a, b) - 1) * b < a
  {
    var q, r := (a + b - 1) / b, (a + b - 1) % b;
    assert a + b - 1 == q * b + r && 0 <= r < b;
    assert q * b >= a;
    if q > 0 {
      assert (q - 1) * b == q * b - b;
    }
  }

  /** The physical address of frame `k`. */
  function FrameAddress(k: nat): (addr: nat)
    ensures addr % PAGE_SIZE == 0
    ensures addr / PAGE_SIZE == k
  {
    k * PAGE_SIZE
  }

  /** The mask `1 << j` of bit `j` in a byte. */
  function Bit(j: nat): bv8
    requires j < 8
  {
    if j < 4 then
      if j < 2 then (if j == 0 then 1 else 2) else (if j == 2 then 4 else 8)
    else
      if j < 6 then (if j == 4 then 16 else 32) else (if j == 6 then 64 else 128)
  }

  /** The mask `~(1 << j)` that keeps every bit of a byte but bit `j`. */
  function Mask(j: nat): bv8
    requires j < 8
  {
    if j < 4 then
      if j < 2 then (if j == 0 then 0xFE else 0xFD) else (if j == 2 then 0xFB else 0xF7)
    else
      if j < 6 then (if j == 4 then 0xEF else 0xDF) else (if j == 6 then 0xBF else 0x7F)
  }

  /** `Mask(j)` is the complement of `Bit(j)`. */
  lemma MaskIsComplement(j: nat)
    requires j < 8
    ensures Mask(j) == !Bit(j)
  {
  }

  /** Frame `k` has a byte in a bitmap of `|s|` bytes. */
  predicate Covers(s: seq<bv8>, k: nat)
  {
    k / 8 < |s|
  }

  /** `BITMAP_TEST(k)`: frame `k` is marked in use. */
  predicate TestFrame(s: seq<bv8>, k: nat)
    requires Covers(s, k)
  {
    s[k / 8] & Bit(k % 8) != 0
  }

  /** `BITMAP_SET(k)`: mark frame `k` in use. */
  function SetFrame(s: seq<bv8>, k: nat): (r: seq<bv8>)
    requires Covers(s, k)
    ensures |r| == |s|
    ensures TestFrame(r, k)
  {
    s[k / 8 := s[k / 8] | Bit(k % 8)]
  }

  /** `BITMAP_UNSET(k)`: mark frame `k` free. */
  function UnsetFrame(s: seq<bv8>, k: nat): (r: seq<bv8>)
    requires Covers(s, k)
    ensures |r| == |s|
    ensures !TestFrame(r, k)
  {
    s[k / 8 := s[k / 8] & Mask(k % 8)]
  }

  /** Setting bit `j` of a byte leaves every other bit `m` as it was. */
  lemma SetBitOthers(b: bv8, j: nat, m: nat)
    requires j < 8 && m < 8 && j != m
    ensures (b | Bit(j)) & Bit(m) == b & Bit(m)
  {
  }

  /** Clearing bit `j` of a byte leaves every other bit `m` as it was. */
  lemma UnsetBitOthers(b: bv8, j: nat, m: nat)
    requires j < 8 && m < 8 && j != m
    ensures (b & Mask(j)) & Bit(m) == b & Bit(m)
  {
  }

  /** Two frames share a byte and a bit position only if they are equal. */
  lemma SameSlot(j: nat, k: nat)
    requires j / 8 == k / 8 && j % 8 == k % 8
    ensures j == k
  {
  }

  /** After `BITMAP_SET(k)`, frame `j` is in use iff it is `k` or was in use. */
  lemma TestAfterSet(s: seq<bv8>, k: nat, j: nat)
    requires Covers(s, k) && Covers(s, j)
    ensures TestFrame(SetFrame(s, k), j) == (j == k || TestFrame(s, j))
  {
    if j / 8 == k / 8 && j != k {
      if j % 8 == k % 8 {
        SameSlot(j, k);
      }
      SetBitOthers(s[k / 8], k % 8, j % 8);
    }
  }

  /** After `BITMAP_UNSET(k)`, frame `j` is in use iff it is not `k` and was in use. */
  lemma TestAfterUnset(s: seq<bv8>, k: nat, j: nat)
    requires Covers(s, k) && Covers(s, j)
    ensures TestFrame(UnsetFrame(s, k), j) == (j != k && TestFrame(s, j))
  {
    if j / 8 == k / 8 && j != k {
      if j % 8 == k % 8 {
        SameSlot(j, k);
      }
      UnsetBitOthers(s[k / 8], k % 8, j % 8);
    }
  }

  /** 1 when the bit selected by `mask` is clear in `b`. */
  function ClearAt(b: bv8, mask: bv8): nat
  {
    if b & mask == 0 then 1 else 0
  }

  /** The number of clear bits (free frames) in one bitmap byte. */
  function ClearBits(b: bv8): (n: nat)
    ensures n <= 8
  {
    ClearAt(b, 1) + ClearAt(b, 2) + ClearAt(b, 4) + ClearAt(b, 8)
      + ClearAt(b, 16) + ClearAt(b, 32) + ClearAt(b, 64) + ClearAt(b, 128)
  }

  /** A byte has no clear bit iff it is `0xFF`. */
  lemma ClearBitsZero(b: bv8)
    ensures ClearBits(b) == 0 <==> b == 0xFF
  {
  }

  /** Setting a clear bit removes exactly one clear bit from its byte. */
  lemma ClearBitsSet(b: bv8, j: nat)
    requires j < 8 && b & Bit(j) == 0
    ensures ClearBits(b | Bit(j)) + 1 == ClearBits(b)
  {
  }

  /** Clearing a set bit adds exactly one clear bit to its byte. */
  lemma ClearBitsUnset(b: bv8, j: nat)
    requires j < 8 && b & Bit(j) != 0
    ensures ClearBits(b & Mask(j)) == ClearBits(b) + 1
  {
  }

  /** The number of clear bits in the first `n` bytes of `s`. */
  function ClearPrefix(s: seq<bv8>, n: nat): nat
    requires n <= |s|
  {
    if n == 0 then 0 else ClearPrefix(s, n - 1) + ClearBits(s[n - 1])
  }

  /** The number of free frames a bitmap describes: its clear bits. */
  function ClearCount(s: seq<bv8>): nat
  {
    ClearPrefix(s, |s|)
  }

  /** Replacing byte `i` changes the count of a prefix holding it by that byte's difference. */
  lemma {:induction false} ClearPrefixUpdate(s: seq<bv8>, i: nat, b: bv8, n: nat)
    requires i < |s| && n <= |s|
    ensures ClearPrefix(s[i := b], n) == ClearPrefix(s, n) - (if i < n then ClearBits(s[i]) - ClearBits(b) else 0)
  {
    if n > 0 {
      ClearPrefixUpdate(s, i, b, n - 1);
    }
  }

  /** Replacing one byte changes the count by that byte's difference. */
  lemma ClearCountUpdate(s: seq<bv8>, i: nat, b: bv8)
    requires i < |s|
    ensures ClearCount(s[i := b]) + ClearBits(s[i]) == ClearCount(s) + ClearBits(b)
  {
    ClearPrefixUpdate(s, i, b, |s|);
  }

  /** The first `n` bytes have no free frame iff each of them is `0xFF`. */
  lemma {:induction false} ClearPrefixZero(s: seq<bv8>, n: nat)
    requires n <= |s|
    ensures ClearPrefix(s, n) == 0 <==> forall i :: 0 <= i < n ==> s[i] == 0xFF
  {
    if n > 0 {
      ClearPrefixZero(s, n - 1);
      ClearBitsZero(s[n - 1]);
    }
  }

  /** A bitmap has no free frame iff every byte is `0xFF`. */
  lemma ClearCountZero(s: seq<bv8>)
    ensures ClearCount(s) == 0 <==> forall i :: 0 <= i < |s| ==> s[i] == 0xFF
  {
    ClearPrefixZero(s, |s|);
  }

  /** `BITMAP_SET` on a free frame removes exactly one free frame. */
  lemma SetFrameCount(s: seq<bv8>, k: nat)
    requires Covers(s, k) && !TestFrame(s, k)
    ensures ClearCount(SetFrame(s, k)) + 1 == ClearCount(s)
  {
    var i, j := k / 8, k % 8;
    var b := s[i];
    ClearBitsSet(b, j);
    ClearCountUpdate(s, i, b | Bit(j));
  }

  /** Clearing set bit `j` of byte `i` adds exactly one free frame. */
  lemma UnsetByteCount(s: seq<bv8>, i: nat, j: nat)
    requires i < |s| && j < 8 && s[i] & Bit(j) != 0
    ensures ClearCount(s[i := s[i] & Mask(j)]) == ClearCount(s) + 1
  {
    var b := s[i] & Mask(j);
    ClearBitsUnset(s[i], j);
    ClearCountUpdate(s, i, b);
  }

  /** `BITMAP_UNSET` on a used frame adds exactly one free frame. */
  lemma UnsetFrameCount(s: seq<bv8>, k: nat)
    requires Covers(s, k) && TestFrame(s, k)
    ensures ClearCount(UnsetFrame(s, k)) == ClearCount(s) + 1
  {
    UnsetByteCount(s, k / 8, k % 8);
  }

  /** `BITMAP_UNSET` on a frame that is already free changes nothing. */
  lemma UnsetFreeFrame(s: seq<bv8>, k: nat)
    requires Covers(s, k) && !TestFrame(s, k)
    ensures UnsetFrame(s, k) == s
  {
    var b := s[k / 8];
    assert b & Mask(k % 8) == b by {
      assert b & Bit(k % 8) == 0;
    }
  }

  /** Setting a clear bit and then clearing it gives the byte back. */
  lemma SetUnsetBit(b: bv8, j: nat)
    requires j < 8 && b & Bit(j) == 0
    ensures (b | Bit(j)) & Mask(j) == b
  {
  }

  /** Freeing a frame that was just marked in use restores the bitmap. */
  lemma UnsetAfterSet(s: seq<bv8>, k: nat)
    requires Covers(s, k) && !TestFrame(s, k)
    ensures UnsetFrame(SetFrame(s, k), k) == s
  {
    var i, b := k / 8, s[k / 8];
    SetUnsetBit(b, k % 8);
    assert UnsetFrame(SetFrame(s, k), k) == s[i := b];
  }
}
