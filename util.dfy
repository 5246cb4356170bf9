/**
 * The freestanding byte-memory routines of the kernel's utility library:
 * `memcpy`, `memset`, `memmove` and `memcmp`. Memory is one byte array and
 * a pointer is an index into it; each routine returns the pointer the C
 * routine returns.
 */
module Util {

  /** An `unsigned char`. */
  newtype byte = x: int | 0 <= x < 256

  /** `(uint8_t)c`: the low eight bits of the `int` fill value. */
  function ByteOf(c: int): (b: byte)
    ensures b as int == c % 256
  {
    (c % 256) as byte
  }

  /**
   * The loop of `memset`, for an array of any element type: the `n`
   * elements at `s` become `v`; no other element changes.
   */
  method Fill<T>(mem: array<T>, s: nat, v: T, n: nat)
    requires s + n <= mem.Length
    modifies mem
    ensures forall i :: s <= i < s + n ==> mem[i] == v
    ensures forall i :: 0 <= i < mem.Length && !(s <= i < s + n) ==> mem[i] == old(mem[i])
  {
    var i := 0;
    while i < n
      invariant i <= n
      invariant forall k :: s <= k < s + i ==> mem[k] == v
      invariant forall k :: 0 <= k < mem.Length && !(s <= k < s + i) ==> mem[k] == old(mem[k])
    {
      mem[s + i] := v;
      i := i + 1;
    }
  }

  /**
   * `memset(s, c, n)`: the `n` bytes at `s` become `(uint8_t)c`; no other
   * byte changes.
   */
  method Memset(mem: array<byte>, s: nat, c: int, n: nat) returns (r: nat)
    requires s + n <= mem.Length
    modifies mem
    ensures r == s
    ensures forall i :: s <= i < s + n ==> mem[i] == ByteOf(c)
    ensures forall i :: 0 <= i < mem.Length && !(s <= i < s + n) ==> mem[i] == old(mem[i])
  {
    Fill(mem, s, ByteOf(c), n);
    return s;
  }

  /** The `n` bytes at `a` and the `n` bytes at `b` do not overlap. */
  predicate Disjoint(a: nat, b: nat, n: nat)
  {
    a + n <= b || b + n <= a
  }

  /**
   * `memcpy(dest, src, n)`: the `n` bytes at `dest` become the `n` bytes
   * that were at `src`; no other byte changes. Both pointers are declared
   * `restrict`, so the caller must pass regions that do not overlap.
   */
  method Memcpy(mem: array<byte>, dest: nat, src: nat, n: nat) returns (r: nat)
    requires dest + n <= mem.Length && src + n <= mem.Length
    requires Disjoint(dest, src, n)
    modifies mem
    ensures r == dest
    ensures mem[dest..dest + n] == old(mem[src..src + n])
    ensures forall i :: 0 <= i < mem.Length && !(dest <= i < dest + n) ==> mem[i] == old(mem[i])
  {
    ghost var before := mem[..];
    var i := 0;
    while i < n
      invariant i <= n
      invariant forall j :: dest <= j < dest + i ==> mem[j] == before[j - dest + src]
      invariant forall j :: 0 <= j < mem.Length && !(dest <= j < dest + i) ==> mem[j] == before[j]
    {
      mem[dest + i] := mem[src + i];
      i := i + 1;
    }
    assert mem[dest..dest + n] == before[src..src + n];
    return dest;
  }

  /**
   * `memmove(dest, src, n)`: like `memcpy`, but the regions may overlap.
   * It copies front to back when the source lies above the destination
   * and back to front when it lies below, so every byte is read before it
   * is overwritten.
   */
  method Memmove(mem: array<byte>, dest: nat, src: nat, n: nat) returns (r: nat)
    requires dest + n <= mem.Length && src + n <= mem.Length
    modifies mem
    ensures r == dest
    ensures mem[dest..dest + n] == old(mem[src..src + n])
    ensures forall i :: 0 <= i < mem.Length && !(dest <= i < dest + n) ==> mem[i] == old(mem[i])
  {
    ghost var before := mem[..];
    if src > dest {
      var i := 0;
      while i < n
        invariant i <= n
        invariant forall j :: dest <= j < dest + i ==> mem[j] == before[j - dest + src]
        invariant forall j :: 0 <= j < mem.Length && !(dest <= j < dest + i) ==> mem[j] == before[j]
      {
        mem[dest + i] := mem[src + i];
        i := i + 1;
      }
    } else if src < dest {
      var i := n;
      while i > 0
        invariant 0 <= i <= n
        invariant forall j :: dest + i <= j < dest + n ==> mem[j] == before[j - dest + src]
        invariant forall j :: 0 <= j < mem.Length && !(dest + i <= j < dest + n) ==> mem[j] == before[j]
      {
        mem[dest + i - 1] := mem[src + i - 1];
        i := i - 1;
      }
    }
    assert mem[dest..dest + n] == before[src..src + n];
    return dest;
  }

  /**
   * The `memcmp` order on two byte strings of equal length: 0 when they are
   * equal, otherwise -1 or 1 as the first differing byte of `a` is smaller
   * or greater (as an unsigned byte) than that of `b`.
   */
  function Compare(a: seq<byte>, b: seq<byte>): (r: int)
    requires |a| == |b|
    ensures -1 <= r <= 1
  {
    if |a| == 0 then 0
    else if a[0] != b[0] then (if a[0] < b[0] then -1 else 1)
    else Compare(a[1..], b[1..])
  }

  /** `memcmp(s1, s2, n)`: compares the `n` bytes at `s1` with the `n` bytes at `s2`. */
  method Memcmp(mem: array<byte>, s1: nat, s2: nat, n: nat) returns (r: int)
    requires s1 + n <= mem.Length && s2 + n <= mem.Length
    ensures r == Compare(mem[s1..s1 + n], mem[s2..s2 + n])
  {
    ghost var a, b := mem[s1..s1 + n], mem[s2..s2 + n];
    var i := 0;
    while i < n
      invariant i <= n
      invariant Compare(a, b) == Compare(a[i..], b[i..])
    {
      if mem[s1 + i] != mem[s2 + i] {
        assert a[i..][0] == mem[s1 + i] && b[i..][0] == mem[s2 + i];
        return if mem[s1 + i] < mem[s2 + i] then -1 else 1;
      }
      assert a[i..][1..] == a[i + 1..] && b[i..][1..] == b[i + 1..];
      i := i + 1;
    }
    return 0;
  }

  /** `memcmp` returns 0 exactly when the two byte strings are equal. */
  lemma {:induction false} CompareZeroIffEqual(a: seq<byte>, b: seq<byte>)
    requires |a| == |b|
    ensures Compare(a, b) == 0 <==> a == b
  {
    if |a| > 0 && a[0] == b[0] {
      CompareZeroIffEqual(a[1..], b[1..]);
      if a[1..] == b[1..] {
        assert a == [a[0]] + a[1..] && b == [b[0]] + b[1..];
      }
    }
  }

  /** Swapping the operands negates the result. */
  lemma {:induction false} CompareAntisymmetric(a: seq<byte>, b: seq<byte>)
    requires |a| == |b|
    ensures Compare(b, a) == -Compare(a, b)
  {
    if |a| > 0 && a[0] == b[0] {
      CompareAntisymmetric(a[1..], b[1..]);
    }
  }

  /** The result is decided by the first byte at which the strings differ. */
  lemma {:induction false} CompareFirstDifference(a: seq<byte>, b: seq<byte>, k: nat)
    requires |a| == |b| && k < |a|
    requires a[..k] == b[..k] && a[k] != b[k]
    ensures Compare(a, b) == if a[k] < b[k] then -1 else 1
  {
    if k > 0 {
      assert a[0] == a[..k][0] && b[0] == b[..k][0];
      assert a[1..][..k - 1] == a[..k][1..] && b[1..][..k - 1] == b[..k][1..];
      CompareFirstDifference(a[1..], b[1..], k - 1);
    }
  }
}
