/**
 parc_HashCode.c: the 64-bit FNV-1a hash. A hash code is a number below 2^64; multiplication wraps.
 XOR with a byte changes the low eight bits only.
 */
module HashCode {
  import opened Basics
  import opened Bytes

  const TWO_TO_64: int := 0x1_0000_0000_0000_0000
  const FNV1A_PRIME: int := 0x0000_0100_0000_01B3
  const INITIAL_VALUE: int := 0xCBF2_9CE4_8422_2325

  type PARCHashCode = x: int | 0 <= x < 0x1_0000_0000_0000_0000

  /** `hash ^ b` */
  function XorByte(hash: PARCHashCode, b: byte): PARCHashCode {
    Pow2Of64();
    XorBelow(hash, b, 64);
    Xor(hash, b, 64)
  }

  lemma {:induction false} Pow2Of64()
    ensures Pow2(64) == TWO_TO_64
  {
    Pow2Of8();
    Pow2Sum(8, 8);
    Pow2Sum(16, 16);
    Pow2Sum(32, 32);
  }

  function Times(hash: PARCHashCode, factor: nat): PARCHashCode {
    (hash * factor) % TWO_TO_64
  }

  function Step(hash: PARCHashCode, b: byte): PARCHashCode {
    Times(XorByte(hash, b), FNV1A_PRIME)
  }

  function Hash(bytes: seq<byte>, initial: PARCHashCode): PARCHashCode {
    if bytes == [] then initial else Step(Hash(bytes[..|bytes| - 1], initial), bytes[|bytes| - 1])
  }

  method HashImpl(memory: seq<byte>, initialValue: PARCHashCode) returns (hash: PARCHashCode)
    ensures hash == Hash(memory, initialValue)
  {
    hash := initialValue;
    for i := 0 to |memory|
      invariant hash == Hash(memory[..i], initialValue)
    {
      hash := XorByte(hash, memory[i]);
      hash := Times(hash, FNV1A_PRIME);
      assert memory[..i + 1][..i] == memory[..i];
    }
    assert memory[..|memory|] == memory;
  }

  // What a step and some hash codes are, as numbers

  /** Exclusive or, said bit by bit, then the product with the 64-bit FNV prime modulo 2^64. */
  lemma {:induction false} StepMeans(h: PARCHashCode, b: byte, x: nat)
    requires x < 0x1_0000_0000_0000_0000 && forall i: nat :: i < 64 ==> (HasBit(x, i) <==> HasBit(h, i) != HasBit(b, i))
    ensures Step(h, b) == x * 0x100_0000_01B3 % 0x1_0000_0000_0000_0000
  {
    Pow2Of64();
    forall i: nat | i < 64 ensures HasBit(Xor(h, b, 64), i) <==> HasBit(x, i) {
      XorBits(h, b, 64, i);
    }
    XorBelow(h, b, 64);
    SameBits(Xor(h, b, 64), x, 64);
  }

  lemma {:induction false} ModIs(x: int, q: int, r: int)
    requires 0 <= r < TWO_TO_64 && x == q * TWO_TO_64 + r
    ensures x % TWO_TO_64 == r
  {
  }

  /** Exclusive or with a byte changes the low eight bits only. */
  lemma {:induction false} XorByteIs(h: nat, low: byte, b: byte)
    requires 256 * h + low < TWO_TO_64
    ensures XorByte(256 * h + low, b) == 256 * h + Xor(low, b, 8)
  {
    Pow2Of8();
    Pow2Of64();
    XorLow(h, low, b, 64, 8);
  }

  lemma {:induction false} StepIs(h: nat, low: byte, b: byte, c: byte, q: nat, r: PARCHashCode)
    requires 256 * h + low < TWO_TO_64 && Xor(low, b, 8) == c
    requires (256 * h + c) * 0x100_0000_01B3 == q * 0x1_0000_0000_0000_0000 + r
    ensures Step(256 * h + low, b) == r
  {
    XorByteIs(h, low, b);
    ModIs((256 * h + c) * FNV1A_PRIME, q, r);
  }

  /** One more byte `b` of `s`, with the numbers that take its code from `256 * h + low` on worked out. */
  lemma {:induction false} HashNext(
    s: seq<byte>, i: nat, b: byte, h: nat, low: byte, c: byte, q: nat, h': nat, low': byte)
    requires i < |s| && s[i] == b && Hash(s[..i], INITIAL_VALUE) == 256 * h + low && Xor(low, b, 8) == c
    requires (256 * h + c) * 0x100_0000_01B3 == q * 0x1_0000_0000_0000_0000 + (256 * h' + low')
    requires 256 * h' + low' < 0x1_0000_0000_0000_0000
    ensures Hash(s[..i + 1], INITIAL_VALUE) == 256 * h' + low'
  {
    assert s[..i + 1][..i] == s[..i];
    StepIs(h, low, b, c, q, 256 * h' + low');
  }

  lemma {:induction false} LowBytes()
    ensures Xor(0x25, 97, 8) == 0x44 && Xor(0x25, 37, 8) == 0 && Xor(0x25, 102, 8) == 0x43 && Xor(0xD9, 111, 8) == 0xB6
    ensures Xor(0x42, 111, 8) == 0x2D && Xor(0x77, 98, 8) == 0x15 && Xor(0xAF, 97, 8) == 0xCE && Xor(0x0A, 114, 8) == 0x78
  {
  }

  /** The published FNV-1a codes of "a" and "foobar", and that of "%". */
  lemma {:induction false} KnownHashCodes(s: seq<byte>)
    ensures s == [97] ==> Hash(s, INITIAL_VALUE) == 0xAF63_DC4C_8601_EC8C
    ensures s == [102, 111, 111, 98, 97, 114] ==> Hash(s, INITIAL_VALUE) == 0x8594_4171_F739_67E8
    ensures s == [37] ==> Hash(s, INITIAL_VALUE) == 0xAF63_984C_8601_7900
  {
    assert |s| == 1 ==> s[..1] == s;
    if s == [97] {
      HashOfA(s);
    } else if s == [37] {
      HashOfPercent(s);
    } else if s == [102, 111, 111, 98, 97, 114] {
      HashOfFoobar(s);
    }
  }

  lemma {:induction false} HashOfA(s: seq<byte>)
    requires |s| >= 1 && s[0] == 97
    ensures Hash(s[..1], INITIAL_VALUE) == 0xAF63_DC4C_8601_EC8C
  {
    LowBytes();
    assert s[..0] == [];
    HashNext(s, 0, 97, 0xCB_F29C_E484_2223, 0x25, 0x44, 0xCB_F29C_E5DE, 0xAF_63DC_4C86_01EC, 0x8C);
  }

  lemma {:induction false} HashOfPercent(s: seq<byte>)
    requires |s| >= 1 && s[0] == 37
    ensures Hash(s[..1], INITIAL_VALUE) == 0xAF63_984C_8601_7900
  {
    LowBytes();
    assert s[..0] == [];
    HashNext(s, 0, 37, 0xCB_F29C_E484_2223, 0x25, 0x0, 0xCB_F29C_E5DE, 0xAF_6398_4C86_0179, 0x0);
  }

  /** The low byte of the code of "%" is zero: the initial value ends in that very byte. */
  lemma {:induction false} PercentEndsInZero(s: seq<byte>, code: PARCHashCode)
    requires s == [37] && code == Hash(s, INITIAL_VALUE)
    ensures code % 256 == 0
  {
    KnownHashCodes(s);
    LowByteIsZero(code);
  }

  lemma {:induction false} LowByteIsZero(code: PARCHashCode)
    requires code == 0xAF63_984C_8601_7900
    ensures code % 256 == 0
  {
  }

  lemma {:induction false} HashOfFoobar(s: seq<byte>)
    requires |s| == 6 && s[0] == 102 && s[1] == 111 && s[2] == 111 && s[3] == 98 && s[4] == 97 && s[5] == 114
    ensures Hash(s, INITIAL_VALUE) == 0x8594_4171_F739_67E8
  {
    LowBytes();
    assert s[..0] == [];
    HashNext(s, 0, 102, 0xCB_F29C_E484_2223, 0x25, 0x43, 0xCB_F29C_E5DE, 0xAF_63DB_4C86_01EA, 0xD9);
    HashNext(s, 1, 111, 0xAF_63DB_4C86_01EA, 0xD9, 0xB6, 0xAF_63DB_4DB0, 0x8_9859_07B5_41D3, 0x42);
    HashNext(s, 2, 111, 0x8_9859_07B5_41D3, 0x42, 0x2D, 0x8_9859_07C3, 0xDC_B275_18FE_D9D5, 0x77);
    HashNext(s, 3, 98, 0xDC_B275_18FE_D9D5, 0x77, 0x15, 0xDC_B275_1A75, 0xDD_120E_790C_2512, 0xAF);
    HashNext(s, 4, 97, 0xDD_120E_790C_2512, 0xAF, 0xCE, 0xDD_120E_7A83, 0xCA_C165_AFA2_FEF4, 0xA);
    HashNext(s, 5, 114, 0xCA_C165_AFA2_FEF4, 0xA, 0x78, 0xCA_C165_B0FB, 0x85_9441_71F7_3967, 0xE8);
    assert s[..6] == s;
  }

  // Every step is a bijection

  /** The multiplicative inverse of the prime modulo 2^64. */
  const PRIME_INVERSE: int := 0xCE96_5057_AFF6_957B

  function Unstep(hash: PARCHashCode, b: byte): PARCHashCode {
    XorByte(Times(hash, PRIME_INVERSE), b)
  }

  lemma {:induction false} InverseUndoes(x: PARCHashCode)
    ensures Times(Times(x, FNV1A_PRIME), PRIME_INVERSE) == x
    ensures Times(Times(x, PRIME_INVERSE), FNV1A_PRIME) == x
  {
    var k := 0xCE_9650_590F;
    assert FNV1A_PRIME * PRIME_INVERSE == k * TWO_TO_64 + 1;
    var y, a := Times(x, FNV1A_PRIME), (x * FNV1A_PRIME) / TWO_TO_64;
    assert y * PRIME_INVERSE == (k * x - a * PRIME_INVERSE) * TWO_TO_64 + x;
    ModIs(y * PRIME_INVERSE, k * x - a * PRIME_INVERSE, x);
    var z, b := Times(x, PRIME_INVERSE), (x * PRIME_INVERSE) / TWO_TO_64;
    assert z * FNV1A_PRIME == (k * x - b * FNV1A_PRIME) * TWO_TO_64 + x;
    ModIs(z * FNV1A_PRIME, k * x - b * FNV1A_PRIME, x);
  }

  lemma {:induction false} XorUndoes(h: PARCHashCode, b: byte)
    ensures XorByte(XorByte(h, b), b) == h
  {
    Pow2Of64();
    XorTwice(h, b, 64);
  }

  lemma {:induction false} StepInverts(h: PARCHashCode, b: byte)
    ensures Unstep(Step(h, b), b) == h && Step(Unstep(h, b), b) == h
  {
    InverseUndoes(XorByte(h, b));
    InverseUndoes(h);
    XorUndoes(h, b);
    XorUndoes(Times(h, PRIME_INVERSE), b);
  }

  lemma {:induction false} StepSeparatesBytes(h: PARCHashCode, b: byte, c: byte)
    requires b != c
    ensures Step(h, b) != Step(h, c)
  {
    Pow2Of64();
    XorSeparates(h, b, c, 64);
    InverseUndoes(XorByte(h, b));
    InverseUndoes(XorByte(h, c));
  }

  /** Hashing the same bytes keeps different hash values apart, whatever the bytes. */
  lemma {:induction false} HashSeparatesInitials(bytes: seq<byte>, g: PARCHashCode, h: PARCHashCode)
    ensures Hash(bytes, g) == Hash(bytes, h) <==> g == h
  {
    if bytes != [] {
      var init, last := bytes[..|bytes| - 1], bytes[|bytes| - 1];
      HashSeparatesInitials(init, g, h);
      StepInverts(Hash(init, g), last);
      StepInverts(Hash(init, h), last);
    }
  }

  lemma {:induction false} HashConcat(a: seq<byte>, b: seq<byte>, h: PARCHashCode)
    ensures Hash(a + b, h) == Hash(b, Hash(a, h))
  {
    if b == [] {
      assert a + b == a;
    } else {
      HashConcat(a, b[..|b| - 1], h);
      assert (a + b)[..|a + b| - 1] == a + b[..|b| - 1];
    }
  }

  /** Changing exactly one byte always changes the hash code. */
  lemma {:induction false} OneByteChangesHash(bytes: seq<byte>, i: nat, c: byte, h: PARCHashCode)
    requires i < |bytes| && bytes[i] != c
    ensures Hash(bytes, h) != Hash(bytes[i := c], h)
  {
    var a, b := bytes[..i], bytes[i + 1..];
    assert bytes == a + [bytes[i]] + b && bytes[i := c] == a + [c] + b;
    HashConcat(a + [bytes[i]], b, h);
    HashConcat(a + [c], b, h);
    assert (a + [bytes[i]])[..i] == a && (a + [c])[..i] == a;
    StepSeparatesBytes(Hash(a, h), bytes[i], c);
    HashSeparatesInitials(b, Hash(a + [bytes[i]], h), Hash(a + [c], h));
  }
}
