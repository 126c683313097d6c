/** Fixed-width integer encodings shared by the two audio containers. */
module Bytes {
  type byte = b: int | 0 <= b < 256

  const TWO31 := 0x8000_0000
  const TWO32 := 0x1_0000_0000
  const TWO63 := 0x8000_0000_0000_0000
  const TWO64 := 0x1_0000_0000_0000_0000

  type int64 = x: int | -TWO63 <= x < TWO63

  function Pow256(k: nat): (p: nat)
    ensures p > 0
  {
    if k == 0 then 1 else 256 * Pow256(k - 1)
  }

  /** The low k bytes of n, least significant first. */
  function LittleEndian(n: nat, k: nat): (s: seq<byte>)
    ensures |s| == k
  {
    if k == 0 then [] else [n % 256] + LittleEndian(n / 256, k - 1)
  }

  function FromLittleEndian(s: seq<byte>): (n: nat)
    ensures n < Pow256(|s|)
  {
    if s == [] then 0 else s[0] + 256 * FromLittleEndian(s[1..])
  }

  /** The low k bytes of n, most significant first. */
  function BigEndian(n: nat, k: nat): (s: seq<byte>)
    ensures |s| == k
  {
    if k == 0 then [] else BigEndian(n / 256, k - 1) + [n % 256]
  }

  function FromBigEndian(s: seq<byte>): (n: nat)
    ensures n < Pow256(|s|)
  {
    if s == [] then 0 else 256 * FromBigEndian(s[..|s| - 1]) + s[|s| - 1]
  }

  lemma {:induction false} LittleEndianRoundTrip(n: nat, k: nat)
    requires n < Pow256(k)
    ensures FromLittleEndian(LittleEndian(n, k)) == n
  {
    if k > 0 {
      LittleEndianRoundTrip(n / 256, k - 1);
      assert LittleEndian(n, k)[1..] == LittleEndian(n / 256, k - 1);
    }
  }

  lemma {:induction false} BigEndianRoundTrip(n: nat, k: nat)
    requires n < Pow256(k)
    ensures FromBigEndian(BigEndian(n, k)) == n
  {
    if k > 0 {
      BigEndianRoundTrip(n / 256, k - 1);
      assert BigEndian(n, k)[..k - 1] == BigEndian(n / 256, k - 1);
    }
  }

  lemma WordSizes()
    ensures Pow256(2) == 0x1_0000 && Pow256(4) == TWO32 && Pow256(8) == TWO64
  {
    assert Pow256(1) == 256;
    assert Pow256(3) == 0x100_0000;
    assert Pow256(5) == 256 * TWO32;
    assert Pow256(7) == 256 * (256 * Pow256(5));
  }

  // Two's complement: Dafny's Euclidean remainder is the unsigned reading of a
  // negative number, and Signed undoes it.
  function Unsigned64(x: int): (u: nat)
    ensures u < TWO64
  {
    x % TWO64
  }

  function Signed64(u: nat): (x: int)
    requires u < TWO64
    ensures -TWO63 <= x < TWO63
  {
    if u < TWO63 then u else u - TWO64
  }

  function Signed32(u: nat): (x: int)
    requires u < TWO32
    ensures -TWO31 <= x < TWO31
  {
    if u < TWO31 then u else u - TWO32
  }

  /** Go's wrap-around on a 64-bit signed result. */
  function Wrap64(x: int): (r: int)
    ensures -TWO63 <= r < TWO63
    ensures -TWO63 <= x < TWO63 ==> r == x
  {
    Signed64(Unsigned64(x))
  }

  /** A product of counts, kept behind a name so that proofs need not open it. */
  function Times(n: nat, f: nat): (p: nat)
    ensures n > 0 && f > 0 ==> p >= f && p >= n
  {
    n * f
  }

  /** The bytes of a plain ASCII literal. */
  function Ascii(s: string): (b: seq<byte>)
    requires forall c :: c in s ==> c < 128 as char
    ensures |b| == |s|
  {
    seq<byte>(|s|, i requires 0 <= i < |s| => assert s[i] in s; s[i] as byte)
  }
}
