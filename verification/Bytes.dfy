/**
 Bytes: little-endian words, and memset, memcpy and memmove over byte arrays.
 */
module Bytes {

  type byte = x: int | 0 <= x < 256

  /** The little-endian 32-bit word at offset o. */
  function WordAt(m: seq<byte>, o: nat): nat
    requires o + 4 <= |m|
  {
    m[o] as int + 256 * m[o + 1] as int + 65536 * m[o + 2] as int + 16777216 * m[o + 3] as int
  }

  /** The little-endian 16-bit word at offset o. */
  function HalfAt(f: seq<byte>, o: nat): nat
    requires o + 2 <= |f|
  {
    f[o] as int + 256 * f[o + 1] as int
  }

  lemma DropByte(v: nat)
    ensures v / 256 / 256 == v / 65536 && v / 65536 / 256 == v / 16777216
  {
    var a, b, c := v / 256, v / 65536, v / 16777216;
    assert 65536 * b <= v < 65536 * b + 65536;
    assert 256 * b <= a < 256 * b + 256;
    assert 16777216 * c <= v < 16777216 * c + 16777216;
    assert 256 * c <= b < 256 * c + 256;
  }

  /** The four bytes of a word. */
  lemma Digits(v: nat)
    ensures v == v % 256 + 256 * (v / 256 % 256) + 65536 * (v / 65536 % 256) + 16777216 * (v / 16777216)
    ensures v < 0x1_0000_0000 ==> v / 16777216 < 256
  {
    var a, b, c := v / 256, v / 65536, v / 16777216;
    DropByte(v);
    assert v == 256 * a + v % 256;
    assert a == 256 * b + a % 256;
    assert b == 256 * c + b % 256;
  }

  function Le16(v: nat): (b: seq<byte>)
    requires v < 65536
    ensures |b| == 2
  {
    [v % 256, v / 256]
  }

  function Le32(v: nat): (b: seq<byte>)
    requires v < 0x1_0000_0000
    ensures |b| == 4
  {
    [v % 256, v / 256 % 256, v / 65536 % 256, v / 16777216]
  }

  /** Four bytes anywhere in memory that spell a word read back as it. */
  lemma WordReadsBack(m: seq<byte>, o: nat, v: nat)
    requires v < 0x1_0000_0000 && o + 4 <= |m| && m[o..o + 4] == Le32(v)
    ensures WordAt(m, o) == v
  {
    Digits(v);
    var b := m[o..o + 4];
    assert b[0] == m[o] && b[1] == m[o + 1] && b[2] == m[o + 2] && b[3] == m[o + 3];
  }

  lemma SliceOfSlice(m: seq<byte>, lo: nat, hi: nat, a: nat, b: nat)
    requires a <= b && lo + b <= hi <= |m|
    ensures m[lo..hi][a..b] == m[lo + a..lo + b]
  {
    var part := m[lo..hi];
    assert forall i :: a <= i < b ==> part[a..b][i - a] == part[i] == m[lo + i];
  }

  lemma HalfReadsBack(m: seq<byte>, o: nat, v: nat)
    requires v < 65536 && o + 2 <= |m| && m[o..o + 2] == Le16(v)
    ensures HalfAt(m, o) == v
  {
    var b := m[o..o + 2];
    assert b[0] == m[o] && b[1] == m[o + 1];
  }

  function Zeros(n: nat): (z: seq<byte>)
    ensures |z| == n && forall i :: 0 <= i < n ==> z[i] == 0
  {
    seq(n, _ => 0)
  }

  method Memset(dst: array<byte>, d: nat, c: byte, n: nat)
    requires d + n <= dst.Length
    modifies dst
    ensures forall x :: d <= x < d + n ==> dst[x] == c
    ensures forall x :: 0 <= x < dst.Length && !(d <= x < d + n) ==> dst[x] == old(dst[x])
  {
    var i := 0;
    while i < n
      invariant i <= n
      invariant forall x :: d <= x < d + i ==> dst[x] == c
      invariant forall x :: 0 <= x < dst.Length && !(d <= x < d + i) ==> dst[x] == old(dst[x])
    {
      dst[d + i] := c;
      i := i + 1;
    }
  }

  /** Ascending copy: right for separate ranges and for ranges that move down. */
  method Memcpy(dst: array<byte>, d: nat, src: array<byte>, s: nat, n: nat)
    requires d + n <= dst.Length && s + n <= src.Length
    requires dst != src || d <= s || s + n <= d
    modifies dst
    ensures forall y :: d <= y < d + n ==> dst[y] == old(src[s + (y - d)])
    ensures forall y :: 0 <= y < dst.Length && !(d <= y < d + n) ==> dst[y] == old(dst[y])
  {
    var i := 0;
    while i < n
      invariant i <= n
      invariant forall y :: d <= y < d + i ==> dst[y] == old(src[s + (y - d)])
      invariant forall y :: 0 <= y < dst.Length && !(d <= y < d + i) ==> dst[y] == old(dst[y])
    {
      dst[d + i] := src[s + i];
      i := i + 1;
    }
  }

  /** The copy is exact for every overlap, because the direction follows the operands. */
  method Memmove(a: array<byte>, d: nat, s: nat, n: nat)
    requires d + n <= a.Length && s + n <= a.Length
    modifies a
    ensures forall y :: d <= y < d + n ==> a[y] == old(a[s + (y - d)])
    ensures forall y :: 0 <= y < a.Length && !(d <= y < d + n) ==> a[y] == old(a[y])
  {
    if d == s || n == 0 {
      return;
    }
    if d < s {
      Memcpy(a, d, a, s, n);
    } else {
      var i := n;
      while i > 0
        invariant 0 <= i <= n
        invariant forall y :: d + i <= y < d + n ==> a[y] == old(a[s + (y - d)])
        invariant forall y :: 0 <= y < a.Length && !(d + i <= y < d + n) ==> a[y] == old(a[y])
      {
        i := i - 1;
        a[d + i] := a[s + i];
      }
    }
  }
}
