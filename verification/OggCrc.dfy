/**
  The Ogg page checksum: the table-driven CRC-32, its bit-at-a-time form, and the
  polynomial long division both of them stand for. A 32-bit register is written as
  its binary expansion, most significant bit first, so that shifts are slices and
  exclusive-or is pointwise.
 */
module OggCrc {
  import opened Bytes

  type bits = seq<bool>
  type word = w: bits | |w| == 32 witness seq(32, i => false)

  function Zeros(n: nat): (z: bits)
    ensures |z| == n && forall i :: 0 <= i < n ==> !z[i]
  {
    seq(n, i => false)
  }

  function Xor(a: bits, b: bits): (c: bits)
    requires |a| == |b|
    ensures |c| == |a| && forall i :: 0 <= i < |a| ==> c[i] == (a[i] != b[i])
  {
    seq(|a|, i requires 0 <= i < |a| => a[i] != b[i])
  }

  /** The low k bits of n, most significant first. */
  function ToBits(n: nat, k: nat): (s: bits)
    ensures |s| == k
  {
    if k == 0 then [] else ToBits(n / 2, k - 1) + [n % 2 == 1]
  }

  function Pow2(k: nat): (p: nat)
    ensures p > 0
  {
    if k == 0 then 1 else 2 * Pow2(k - 1)
  }

  function FromBits(s: bits): (n: nat)
    ensures n < Pow2(|s|)
  {
    if s == [] then 0 else 2 * FromBits(s[..|s| - 1]) + (if s[|s| - 1] then 1 else 0)
  }

  lemma {:induction false} BitsRoundTrip(s: bits)
    ensures ToBits(FromBits(s), |s|) == s
  {
    if s != [] {
      BitsRoundTrip(s[..|s| - 1]);
      assert s == s[..|s| - 1] + [s[|s| - 1]];
    }
  }

  lemma Pow2Sizes()
    ensures Pow2(8) == 256 && Pow2(32) == TWO32
  {
    assert Pow2(4) == 16;
    assert Pow2(12) == 16 * Pow2(8) by { assert Pow2(10) == 4 * Pow2(8); }
    assert Pow2(16) == 16 * Pow2(12) by { assert Pow2(14) == 4 * Pow2(12); }
    assert Pow2(20) == 16 * Pow2(16) by { assert Pow2(18) == 4 * Pow2(16); }
    assert Pow2(24) == 16 * Pow2(20) by { assert Pow2(22) == 4 * Pow2(20); }
    assert Pow2(28) == 16 * Pow2(24) by { assert Pow2(26) == 4 * Pow2(24); }
    assert Pow2(32) == 16 * Pow2(28) by { assert Pow2(30) == 4 * Pow2(28); }
  }

  // ---- The register -----------------------------------------------------------

  /** The generator 0x04C11DB7: the reduction of x^32, highest power first, a hexadecimal digit at a time. */
  function Generator(): word {
    HighBits() + [false, false, false, true] + [true, true, false, true]
    + [true, false, true, true] + [false, true, true, true]
  }

  function HighBits(): (b: bits)
    ensures |b| == 16
  {
    [false, false, false, false] + [false, true, false, false]
    + [true, true, false, false] + [false, false, false, true]
  }

  function Bit(b: bool): nat {
    if b then 1 else 0
  }

  lemma FourBits(a: bits, w: bool, x: bool, y: bool, z: bool)
    ensures FromBits(a + [w, x, y, z]) == 16 * FromBits(a) + 8 * Bit(w) + 4 * Bit(x) + 2 * Bit(y) + Bit(z)
  {
    TwoBits(a, w, x);
    TwoBits(a + [w, x], y, z);
    assert a + [w, x, y, z] == a + [w, x] + [y, z];
  }

  lemma TwoBits(a: bits, x: bool, y: bool)
    ensures FromBits(a + [x, y]) == 4 * FromBits(a) + 2 * Bit(x) + Bit(y)
  {
    OneBit(a, x);
    OneBit(a + [x], y);
    assert a + [x, y] == a + [x] + [y];
  }

  lemma OneBit(a: bits, b: bool)
    ensures FromBits(a + [b]) == 2 * FromBits(a) + Bit(b)
  {
    assert (a + [b])[..|a|] == a;
  }

  /** Its bits are those of the hexadecimal constant. */
  lemma GeneratorIsHex()
    ensures FromBits(Generator()) == 0x04C11DB7
  {
    HighIsHex();
    var d4 := HighBits();
    var d5 := d4 + [false, false, false, true];
    FourBits(d4, false, false, false, true);
    assert FromBits(d5) == 0x4C11;
    var d6 := d5 + [true, true, false, true];
    FourBits(d5, true, true, false, true);
    assert FromBits(d6) == 0x4C11D;
    var d7 := d6 + [true, false, true, true];
    FourBits(d6, true, false, true, true);
    assert FromBits(d7) == 0x4C11DB;
    var d8 := d7 + [false, true, true, true];
    FourBits(d7, false, true, true, true);
    assert FromBits(d8) == 0x4C11DB7;
    assert d8 == Generator();
  }

  lemma HighIsHex()
    ensures FromBits(HighBits()) == 0x04C1
  {
    var d0: bits := [];
    var d1 := d0 + [false, false, false, false];
    FourBits(d0, false, false, false, false);
    assert FromBits(d1) == 0x0;
    var d2 := d1 + [false, true, false, false];
    FourBits(d1, false, true, false, false);
    assert FromBits(d2) == 0x4;
    var d3 := d2 + [true, true, false, false];
    FourBits(d2, true, true, false, false);
    assert FromBits(d3) == 0x4C;
    var d4 := d3 + [false, false, false, true];
    FourBits(d3, false, false, false, true);
    assert FromBits(d4) == 0x4C1;
    assert d4 == HighBits();
  }

  /** One shift: drop the top bit, and if it was set subtract the generator. */
  function Step(g: word, r: word): word {
    if r[0] then Xor(r[1..] + [false], g) else r[1..] + [false]
  }

  function Steps(g: word, r: word, n: nat): word
    decreases n
  {
    if n == 0 then r else Step(g, Steps(g, r, n - 1))
  }

  /** A byte placed in the top eight bits. */
  function TopByte(b: bits): word
    requires |b| == 8
  {
    b + Zeros(24)
  }

  /** The bit-at-a-time CRC: fold each byte into the top of the register, shift eight times. */
  function BitwiseCrc(g: word, data: seq<byte>): word {
    if data == [] then Zeros(32)
    else Steps(g, Xor(BitwiseCrc(g, data[..|data| - 1]), TopByte(ToBits(data[|data| - 1], 8))), 8)
  }

  // ---- Polynomial long division -------------------------------------------------

  /** Bring down one message bit; subtract the divisor when the degree-32 term appears. */
  function DivideBit(g: word, r: word, bit: bool): word {
    var shifted := r[1..] + [bit];
    if r[0] then Xor(shifted, g) else shifted
  }

  /** Remainder of the polynomial whose coefficients are message, starting from remainder r. */
  function Divide(g: word, r: word, message: bits): word {
    if message == [] then r
    else DivideBit(g, Divide(g, r, message[..|message| - 1]), message[|message| - 1])
  }

  /** All bits of a byte string, in transmission order. */
  function MessageBits(data: seq<byte>): bits {
    if data == [] then [] else MessageBits(data[..|data| - 1]) + ToBits(data[|data| - 1], 8)
  }

  // ---- Linearity ---------------------------------------------------------------

  lemma StepLinear(g: word, a: word, b: word)
    ensures Step(g, Xor(a, b)) == Xor(Step(g, a), Step(g, b))
  {
    var ab := Xor(a, b);
    assert ab[1..] + [false] == Xor(a[1..] + [false], b[1..] + [false]);
  }

  lemma {:induction false} StepsLinear(g: word, a: word, b: word, n: nat)
    ensures Steps(g, Xor(a, b), n) == Xor(Steps(g, a, n), Steps(g, b, n))
  {
    if n > 0 {
      StepsLinear(g, a, b, n - 1);
      StepLinear(g, Steps(g, a, n - 1), Steps(g, b, n - 1));
    }
  }

  lemma {:induction false} StepsAdd(g: word, r: word, m: nat, n: nat)
    ensures Steps(g, r, m + n) == Steps(g, Steps(g, r, m), n)
  {
    if n > 0 {
      StepsAdd(g, r, m, n - 1);
    }
  }

  /** While only zeros leave the top, shifting n times is a plain shift. */
  lemma {:induction false} StepsShift(g: word, r: word, n: nat)
    requires n <= 32 && r[..n] == Zeros(n)
    ensures Steps(g, r, n) == r[n..] + Zeros(n)
  {
    if n > 0 {
      assert r[..n - 1] == Zeros(n)[..n - 1];
      assert r[..n - 1] == Zeros(n - 1);
      assert !r[..n][n - 1];
      StepsShift(g, r, n - 1);
      assert r[n - 1..] + Zeros(n - 1) == [false] + (r[n..] + Zeros(n - 1));
      assert (r[n..] + Zeros(n - 1)) + [false] == r[n..] + Zeros(n);
    }
  }

  lemma DivideBitForm(g: word, r: word, bit: bool)
    ensures DivideBit(g, r, bit) == Xor(Step(g, r), Zeros(31) + [bit])
  {
    var shifted, low := r[1..] + [false], Zeros(31) + [bit];
    XorAssoc(shifted, g, low);
    XorAssoc(shifted, low, g);
    assert Xor(g, low) == Xor(low, g);
  }

  lemma DivideBitOfSum(g: word, s: word, low: word, bit: bool)
    requires !low[0]
    ensures DivideBit(g, Xor(s, low), bit) == Xor(Step(g, s), low[1..] + [bit])
  {
    DivideBitForm(g, Xor(s, low), bit);
    StepLinear(g, s, low);
    XorAssoc(Step(g, s), low[1..] + [false], Zeros(31) + [bit]);
  }

  lemma XorZero(a: word)
    ensures Xor(a, Zeros(32)) == a
  {}

  /** One induction step of DivideShort. */
  lemma DivideShortStep(g: word, r: word, m: bits, k: nat)
    requires |m| == k + 1 <= 32
    requires Divide(g, r, m[..k]) == Xor(Steps(g, r, k), Zeros(32 - k) + m[..k])
    ensures Divide(g, r, m) == Xor(Steps(g, r, k + 1), Zeros(31 - k) + m)
  {
    var s: word := Steps(g, r, k);
    var low: word := Zeros(32 - k) + m[..k];
    DivideBitOfSum(g, s, low, m[k]);
  }

  /** Dividing a short message only adds it to the shifted remainder. */
  lemma {:induction false} DivideShort(g: word, r: word, m: bits)
    requires |m| <= 32
    ensures Divide(g, r, m) == Xor(Steps(g, r, |m|), Zeros(32 - |m|) + m)
  {
    if m == [] {
      assert Zeros(32) + m == Zeros(32);
      XorZero(r);
    } else {
      DivideShort(g, r, m[..|m| - 1]);
      DivideShortStep(g, r, m, |m| - 1);
    }
  }

  lemma XorAssoc(a: word, b: word, c: word)
    ensures Xor(Xor(a, b), c) == Xor(a, Xor(b, c))
  {
    assert forall i :: 0 <= i < 32 ==> Xor(Xor(a, b), c)[i] == Xor(a, Xor(b, c))[i];
  }

  lemma {:induction false} DivideAppend(g: word, r: word, m: bits, n: bits)
    ensures Divide(g, r, m + n) == Divide(g, Divide(g, r, m), n)
  {
    if n == [] {
      assert m + n == m;
    } else {
      DivideAppend(g, r, m, n[..|n| - 1]);
      assert (m + n)[..|m + n| - 1] == m + n[..|n| - 1];
    }
  }

  lemma {:induction false} DivideZeros(g: word, r: word, n: nat)
    ensures Divide(g, r, Zeros(n)) == Steps(g, r, n)
  {
    if n > 0 {
      assert Zeros(n)[..n - 1] == Zeros(n - 1);
      DivideZeros(g, r, n - 1);
    }
  }

  /** The CRC register is the remainder of the message with 32 zero bits appended. */
  lemma CrcIsPolynomialRemainder(g: word, data: seq<byte>)
    ensures BitwiseCrc(g, data) == Divide(g, Zeros(32), MessageBits(data) + Zeros(32))
  {
    DivideAppend(g, Zeros(32), MessageBits(data), Zeros(32));
    DivideZeros(g, Divide(g, Zeros(32), MessageBits(data)), 32);
    CrcIsShiftedRemainder(g, data);
  }

  lemma {:induction false} CrcIsShiftedRemainder(g: word, data: seq<byte>)
    ensures BitwiseCrc(g, data) == Steps(g, Divide(g, Zeros(32), MessageBits(data)), 32)
  {
    if data == [] {
      assert Zeros(32)[32..] == [] && Zeros(32)[..32] == Zeros(32);
      StepsShift(g, Zeros(32), 32);
      assert Zeros(32)[32..] + Zeros(32) == Zeros(32);
    } else {
      var init, b := data[..|data| - 1], ToBits(data[|data| - 1], 8);
      var d := Divide(g, Zeros(32), MessageBits(init));
      CrcIsShiftedRemainder(g, init);
      DivideAppend(g, Zeros(32), MessageBits(init), b);
      DivideShort(g, d, b);
      var low: word := Zeros(24) + b;
      StepsLinear(g, Steps(g, d, 8), low, 32);
      StepsAdd(g, d, 8, 32);
      StepsAdd(g, d, 32, 8);
      StepsAdd(g, low, 24, 8);
      StepsShift(g, low, 24);
      StepsLinear(g, BitwiseCrc(g, init), TopByte(b), 8);
    }
  }

  // ---- The table-driven form -----------------------------------------------------

  ghost predicate IsTable(g: word, t: seq<word>) {
    && |t| == 256
    && forall i :: 0 <= i < 256 ==> t[i] == Steps(g, TopByte(ToBits(i, 8)), 8)
  }

  method BuildCrcEntry(g: word, i: byte) returns (r: word)
    ensures r == Steps(g, TopByte(ToBits(i, 8)), 8)
  {
    r := TopByte(ToBits(i, 8));
    for j := 0 to 8
      invariant r == Steps(g, TopByte(ToBits(i, 8)), j)
    {
      if r[0] {
        r := Xor(r[1..] + [false], g);
      } else {
        r := r[1..] + [false];
      }
    }
  }

  /** The table of a generator: 256 entries of eight shifts each. */
  method BuildCrcTable(g: word) returns (table: seq<word>)
    ensures IsTable(g, table)
  {
    var t := new word[256](i => Zeros(32));
    for i := 0 to 256
      invariant forall k :: 0 <= k < i ==> t[k] == Steps(g, TopByte(ToBits(k, 8)), 8)
    {
      t[i] := BuildCrcEntry(g, i);
    }
    table := t[..];
  }

  lemma SplitTop(crc: word, b: bits)
    requires |b| == 8
    ensures Xor(crc, TopByte(b)) == Xor(Zeros(8) + crc[8..], TopByte(Xor(crc[..8], b)))
  {}

  /** One table step equals folding the byte in and shifting eight times. */
  lemma TableStep(g: word, t: seq<word>, crc: word, b: byte)
    requires IsTable(g, t)
    ensures FromBits(Xor(crc[..8], ToBits(b, 8))) < 256
    ensures Xor(crc[8..] + Zeros(8), t[FromBits(Xor(crc[..8], ToBits(b, 8)))])
         == Steps(g, Xor(crc, TopByte(ToBits(b, 8))), 8)
  {
    Pow2Sizes();
    var x := Xor(crc[..8], ToBits(b, 8));
    BitsRoundTrip(x);
    var low: word := Zeros(8) + crc[8..];
    SplitTop(crc, ToBits(b, 8));
    StepsLinear(g, low, TopByte(x), 8);
    assert low[..8] == Zeros(8) && low[8..] == crc[8..];
    StepsShift(g, low, 8);
  }

  /** oggCRC: one table lookup per byte. */
  method OggCrc(g: word, table: seq<word>, data: seq<byte>) returns (crc: word)
    requires IsTable(g, table)
    ensures crc == BitwiseCrc(g, data)
    ensures crc == Divide(g, Zeros(32), MessageBits(data) + Zeros(32))
  {
    crc := Zeros(32);
    for i := 0 to |data|
      invariant crc == BitwiseCrc(g, data[..i])
    {
      TableStep(g, table, crc, data[i]);
      assert data[..i + 1][..i] == data[..i];
      crc := Xor(crc[8..] + Zeros(8), table[FromBits(Xor(crc[..8], ToBits(data[i], 8)))]);
    }
    assert data[..|data|] == data;
    CrcIsPolynomialRemainder(g, data);
  }

  ghost predicate IsOggTable(t: seq<word>) {
    IsTable(Generator(), t)
  }

  /** oggCRCTable. */
  method BuildOggTable() returns (table: seq<word>)
    ensures IsOggTable(table)
  {
    table := BuildCrcTable(Generator());
  }

  /** The checksum as the 32-bit number stored in a page header. */
  function CrcValue(data: seq<byte>): (v: nat)
    ensures v < TWO32
  {
    Pow2Sizes();
    FromBits(BitwiseCrc(Generator(), data))
  }

  method Checksum(table: seq<word>, data: seq<byte>) returns (v: nat)
    requires IsOggTable(table)
    ensures v == CrcValue(data)
  {
    var crc := OggCrc(Generator(), table, data);
    v := FromBits(crc);
  }
}
