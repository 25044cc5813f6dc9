/**
 The encoding as section 4 of RFC 4648 describes it: the input is one string of bits, most significant
 bit of each byte first, cut into groups of six; zero bits fill the last group, and `=` fills the
 output to a multiple of four characters. The code's quantum-by-quantum encoding is the same.
 */
module Base64Rfc {
  import opened Basics
  import opened Bytes
  import opened Base64Spec

  /** Table 1 of the RFC. */
  const ALPHABET: string :=
    "ABCDEFGHIJKLM" + "NOPQRSTUVWXYZ" + "abcdefghijklm" + "nopqrstuvwxyz" + "0123456789" + "+/"

  /** The code's table is the RFC's alphabet, and its pad is `=`. */
  lemma {:induction false} CodeIsAlphabet(v: sextet)
    ensures |ALPHABET| == 64 && Code(v) == ALPHABET[v] as int && PAD == '=' as int
  {
    if v < 13 {
      assert ALPHABET[v] == "ABCDEFGHIJKLM"[v];
    } else if v < 26 {
      assert ALPHABET[v] == "NOPQRSTUVWXYZ"[v - 13];
    } else if v < 39 {
      assert ALPHABET[v] == "abcdefghijklm"[v - 26];
    } else if v < 52 {
      assert ALPHABET[v] == "nopqrstuvwxyz"[v - 39];
    } else if v < 62 {
      assert ALPHABET[v] == "0123456789"[v - 52];
    }
  }

  /** `b >> k` */
  function Shr(b: nat, k: nat): nat {
    if k == 0 then b else Shr(b / 2, k - 1)
  }

  /** Byte `n` of the input, zero past its end. */
  function ByteAt(bytes: seq<byte>, n: nat): byte {
    if n < |bytes| then bytes[n] else 0
  }

  /** Bit `j` of the input read as one string of bits, zero past its end. */
  function StreamBit(bytes: seq<byte>, j: nat): nat {
    Shr(ByteAt(bytes, j / 8), 7 - j % 8) % 2
  }

  /** The number that `n` bits from bit `j` on spell. */
  function Take(bytes: seq<byte>, j: nat, n: nat): nat {
    if n == 0 then 0 else 2 * Take(bytes, j, n - 1) + StreamBit(bytes, j + n - 1)
  }

  /** The `i`-th group of six bits. */
  function Group(bytes: seq<byte>, i: nat): sextet {
    TakeBelow(bytes, 6 * i, 6);
    Take(bytes, 6 * i, 6)
  }

  /** The `i`-th character of the encoding. */
  function CharAt(bytes: seq<byte>, i: nat): char {
    CodeIsAlphabet(Group(bytes, i));
    if 6 * i < 8 * |bytes| then ALPHABET[Group(bytes, i)] else '='
  }

  lemma {:induction false} TakeBelow(bytes: seq<byte>, j: nat, n: nat)
    requires n <= 6
    ensures Take(bytes, j, n) < Pow2(n) && Pow2(n) <= 64
  {
    if n > 0 { TakeBelow(bytes, j, n - 1); }
    assert Pow2(6) == 64 by { assert Pow2(3) == 8; }
    PowGrows(n, 6);
  }

  lemma {:induction false} PowGrows(m: nat, n: nat)
    requires m <= n
    ensures Pow2(m) <= Pow2(n)
  {
    if m < n { PowGrows(m, n - 1); }
  }

  lemma {:induction false} ShrNext(b: nat, k: nat)
    ensures Shr(b, k + 1) == Shr(b, k) / 2
  {
    if k > 0 { ShrNext(b / 2, k - 1); }
  }

  lemma {:induction false} ShrTwo(b: nat, k: nat)
    ensures Shr(b, k + 2) == Shr(b, k) / 4
  {
    ShrNext(b, k);
    ShrNext(b, k + 1);
  }

  lemma {:induction false} ByteBelow(b: byte)
    ensures Shr(b, 8) == 0 && Shr(b, 2) == b / 4 && Shr(b, 4) == b / 16 && Shr(b, 6) == b / 64
  {
    ShrTwo(b, 0);
    ShrTwo(b, 2);
    ShrTwo(b, 4);
    ShrTwo(b, 6);
  }

  /** The first `k` bits of byte `n` are its top bits. */
  lemma {:induction false} TakeTop(bytes: seq<byte>, n: nat, k: nat)
    requires k <= 8
    ensures Take(bytes, 8 * n, k) == Shr(ByteAt(bytes, n), 8 - k)
  {
    var b := ByteAt(bytes, n);
    if k == 0 {
      ByteBelow(b);
    } else {
      TakeTop(bytes, n, k - 1);
      ShrNext(b, 8 - k);
      var j := 8 * n + k - 1;
      assert j / 8 == n && j % 8 == k - 1;
    }
  }

  lemma {:induction false} TakeSplit(bytes: seq<byte>, j: nat, m: nat, n: nat)
    ensures Take(bytes, j, m + n) == Take(bytes, j, m) * Pow2(n) + Take(bytes, j + m, n)
  {
    if n > 0 {
      TakeSplit(bytes, j, m, n - 1);
      var x, y, p := Take(bytes, j, m), Take(bytes, j + m, n - 1), Pow2(n - 1);
      calc {
        Take(bytes, j, m + n);
        2 * Take(bytes, j, m + (n - 1)) + StreamBit(bytes, j + m + n - 1);
        2 * (x * p + y) + StreamBit(bytes, j + m + n - 1);
        { DoubleProduct(x, p); }
        x * (2 * p) + (2 * y + StreamBit(bytes, j + m + n - 1));
      }
    }
  }

  lemma {:induction false} DoubleProduct(x: int, p: int)
    ensures 2 * (x * p) == x * (2 * p)
  {
  }

  lemma {:induction false} SmallPowers()
    ensures Pow2(2) == 4 && Pow2(4) == 16 && Pow2(6) == 64
  {
    assert Pow2(3) == 8;
  }

  /** A byte is its top bits and its low bits. */
  lemma {:induction false} LowBits(bytes: seq<byte>, n: nat, k: nat)
    requires k == 2 || k == 4 || k == 6
    ensures Take(bytes, 8 * n + (8 - k), k) == ByteAt(bytes, n) % Pow2(k)
    ensures Take(bytes, 8 * n, 8 - k) == ByteAt(bytes, n) / Pow2(k)
  {
    SmallPowers();
    ByteBelow(ByteAt(bytes, n));
    TakeTop(bytes, n, 8);
    TakeTop(bytes, n, 8 - k);
    TakeSplit(bytes, 8 * n, 8 - k, k);
  }

  lemma {:induction false} FirstGroups(bytes: seq<byte>)
    ensures var b0, b1, b2 := ByteAt(bytes, 0), ByteAt(bytes, 1), ByteAt(bytes, 2);
            && Group(bytes, 0) == b0 / 4 && Group(bytes, 1) == b0 % 4 * 16 + b1 / 16
            && Group(bytes, 2) == b1 % 16 * 4 + b2 / 64 && Group(bytes, 3) == b2 % 64
  {
    SmallPowers();
    LowBits(bytes, 0, 2);
    LowBits(bytes, 1, 4);
    LowBits(bytes, 2, 6);
    TakeSplit(bytes, 6, 2, 4);
    TakeSplit(bytes, 12, 4, 2);
  }

  lemma {:induction false} TakeLater(bytes: seq<byte>, j: nat, n: nat)
    requires |bytes| >= 3 && j >= 24
    ensures Take(bytes, j, n) == Take(bytes[3..], j - 24, n)
  {
    if n > 0 {
      TakeLater(bytes, j, n - 1);
      var i := j + n - 1;
      assert (i - 24) / 8 == i / 8 - 3 && (i - 24) % 8 == i % 8;
    }
  }

  lemma {:induction false} LaterChars(bytes: seq<byte>, i: nat)
    requires |bytes| >= 3 && i >= 4
    ensures CharAt(bytes, i) == CharAt(bytes[3..], i - 4)
  {
    TakeLater(bytes, 6 * i, 6);
    assert 6 * i - 24 == 6 * (i - 4);
  }

  lemma {:induction false} FirstChars(bytes: seq<byte>, i: nat)
    requires bytes != [] && i < 4
    ensures EncodeQuantum(bytes[..Min3(|bytes|)])[i] == CharAt(bytes, i) as int
  {
    FirstGroups(bytes);
    CodeIsAlphabet(Group(bytes, i));
  }

  /** The whole encoding of section 4: four characters for every three bytes begun. */
  ghost function RfcEncoding(bytes: seq<byte>): string {
    seq(4 * ((|bytes| + 2) / 3), i requires i >= 0 => CharAt(bytes, i))
  }

  /** The bytes of a text of ASCII characters. */
  ghost predicate Spells(text: seq<byte>, s: string) {
    |text| == |s| && forall i :: 0 <= i < |s| ==> text[i] == s[i] as int
  }

  lemma {:induction false} EncodedLength(bytes: seq<byte>)
    ensures |Encode(bytes)| == 4 * ((|bytes| + 2) / 3)
    decreases |bytes|
  {
    if bytes != [] { EncodedLength(bytes[Min3(|bytes|)..]); }
  }

  /** Past the first quantum, the encoding is that of the rest of the bytes. */
  lemma {:induction false} EncodedLater(bytes: seq<byte>, i: nat)
    requires 4 <= i < |Encode(bytes)|
    ensures |bytes| > 3 && |Encode(bytes)| == 4 + |Encode(bytes[3..])| && Encode(bytes)[i] == Encode(bytes[3..])[i - 4]
  {
    EncodedLength(bytes);
  }

  lemma {:induction false} EncodedChar(bytes: seq<byte>, i: nat)
    requires i < |Encode(bytes)|
    ensures Encode(bytes)[i] == CharAt(bytes, i) as int
    decreases |bytes|
  {
    if i < 4 {
      FirstChars(bytes, i);
    } else {
      EncodedLater(bytes, i);
      EncodedChar(bytes[3..], i - 4);
      LaterChars(bytes, i);
    }
  }

  /** The code's encoding is the RFC's. */
  lemma {:induction false} EncodeIsRfc(bytes: seq<byte>)
    ensures Spells(Encode(bytes), RfcEncoding(bytes))
  {
    EncodedLength(bytes);
    forall i | 0 <= i < |RfcEncoding(bytes)| ensures Encode(bytes)[i] == RfcEncoding(bytes)[i] as int {
      EncodedChar(bytes, i);
    }
  }
}
