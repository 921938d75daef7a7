/** Bytes, and the little-endian integers that the binary formats are made of. */
module Bytes {
  type Byte = x: int | 0 <= x < 256

  function Fill(n: nat, b: Byte): (s: seq<Byte>)
    ensures |s| == n && forall i | 0 <= i < n :: s[i] == b
  {
    seq(n, _ => b)
  }

  function Pow256(width: nat): (p: nat)
    ensures p > 0
  {
    if width == 0 then 1 else 256 * Pow256(width - 1)
  }

  /** The `width` low bytes of `n`, lowest first. */
  function LittleEndian(n: nat, width: nat): (s: seq<Byte>)
    ensures |s| == width
  {
    if width == 0 then [] else [n % 256] + LittleEndian(n / 256, width - 1)
  }

  function FromLittleEndian(s: seq<Byte>): (n: nat)
    ensures n < Pow256(|s|)
  {
    if s == [] then 0 else s[0] + 256 * FromLittleEndian(s[1..])
  }

  lemma {:induction false} LittleEndianInverts(n: nat, width: nat)
    requires n < Pow256(width)
    ensures FromLittleEndian(LittleEndian(n, width)) == n
  {
    if width > 0 {
      LittleEndianInverts(n / 256, width - 1);
      assert LittleEndian(n, width)[1..] == LittleEndian(n / 256, width - 1);
    }
  }

  /** The `width` low bytes of `n`, highest first. */
  function BigEndian(n: nat, width: nat): (s: seq<Byte>)
    ensures |s| == width
  {
    if width == 0 then [] else BigEndian(n / 256, width - 1) + [n % 256]
  }

  lemma {:induction false} BigEndianInjective(m: nat, n: nat, width: nat)
    requires m < Pow256(width) && n < Pow256(width) && BigEndian(m, width) == BigEndian(n, width)
    ensures m == n
  {
    if width > 0 {
      var a, b := BigEndian(m, width), BigEndian(n, width);
      assert a[width - 1] == m % 256 && b[width - 1] == n % 256;
      assert a[..width - 1] == BigEndian(m / 256, width - 1) && b[..width - 1] == BigEndian(n / 256, width - 1);
      BigEndianInjective(m / 256, n / 256, width - 1);
    }
  }

  lemma SplitEqual<T>(a: seq<T>, x: seq<T>, b: seq<T>, y: seq<T>)
    requires |a| == |b| && a + x == b + y
    ensures a == b && x == y
  {
    assert (a + x)[..|a|] == a && (b + y)[..|b|] == b;
    assert (a + x)[|a|..] == x && (b + y)[|b|..] == y;
  }

  predicate OccursAt(s: seq<Byte>, part: seq<Byte>, at: nat) { at + |part| <= |s| && s[at..at + |part|] == part }

  predicate Contains(s: seq<Byte>, part: seq<Byte>) { exists at | 0 <= at <= |s| :: OccursAt(s, part, at) }

  lemma SliceOfSlice(s: seq<Byte>, at: nat, length: nat, i: nat, j: nat)
    requires at + length <= |s| && i <= j <= length
    ensures s[at + i..at + j] == s[at..at + length][i..j]
    ensures s[at..at + j] == s[at..at + i] + s[at + i..at + j]
  {
    var a, b := s[at + i..at + j], s[at..at + length][i..j];
    assert forall k | 0 <= k < j - i :: a[k] == s[at + i + k] && b[k] == s[at + i + k];
  }
}
