/**
 Which texts parcBase64_DecodeArray accepts and what it decodes, said over the alphabet of RFC 4648
 alone: without the code's tables and without its way of gathering quanta.
 */
module Base64Decoding {
  import opened Basics
  import opened Bytes
  import opened Base64Spec
  import opened Base64Rfc

  ghost predicate InAlphabet(c: byte) {
    exists v :: 0 <= v < |ALPHABET| && ALPHABET[v] as int == c
  }

  ghost predicate LineBreak(c: byte) {
    c == '\r' as int || c == '\n' as int
  }

  ghost predicate Legal(c: byte) {
    InAlphabet(c) || c == '=' as int || LineBreak(c)
  }

  ghost predicate AllLegal(text: seq<byte>) {
    forall i :: 0 <= i < |text| ==> Legal(text[i])
  }

  /** The text without its line breaks. */
  ghost function Symbols(text: seq<byte>): seq<byte> {
    if text == [] then []
    else if LineBreak(text[0]) then Symbols(text[1..])
    else [text[0]] + Symbols(text[1..])
  }

  /** Only legal characters, four or a multiple of four besides line breaks, and no line break at the end. */
  ghost predicate Accepted(text: seq<byte>) {
    text == [] ||
    (!LineBreak(text[|text| - 1]) && AllLegal(text) && |Symbols(text)| % 4 == 0)
  }

  /** The symbols before the first character that is not legal. */
  ghost function Usable(text: seq<byte>): seq<byte> {
    if text == [] || !Legal(text[0]) then []
    else if LineBreak(text[0]) then Usable(text[1..])
    else [text[0]] + Usable(text[1..])
  }

  /** The place of a character in the alphabet; a pad counts as zero. */
  ghost function Value(c: byte): nat {
    if InAlphabet(c) then
      var v :| 0 <= v < |ALPHABET| && ALPHABET[v] as int == c;
      v
    else 0
  }

  /** Four numbers of six bits as one of 24. */
  ghost function Word(a: nat, b: nat, c: nat, d: nat): nat {
    ((a * 64 + b) * 64 + c) * 64 + d
  }

  ghost function Length(q: seq<byte>): nat
    requires |q| == 4
  {
    if q[3] != '=' as int then 3 else if q[2] != '=' as int then 2 else if q[1] != '=' as int then 1 else 0
  }

  /** Four symbols as one number of 24 bits, cut into bytes as far as the last symbol that is not a pad. */
  ghost function BlockBytes(q: seq<byte>): seq<nat>
    requires |q| == 4
  {
    var n := Word(Value(q[0]), Value(q[1]), Value(q[2]), Value(q[3]));
    [n / 65536, n / 256 % 256, n % 256][..Length(q)]
  }

  /** All whole blocks of four symbols. */
  ghost function Blocks(s: seq<byte>): seq<nat> {
    if |s| < 4 then [] else BlockBytes(s[..4]) + Blocks(s[4..])
  }

  // The code's tables

  lemma {:induction false} TableBack(c: byte)
    requires DecodeTable(c) < 64
    ensures Code(DecodeTable(c)) == c
  {
  }

  lemma {:induction false} CharMeans(c: byte)
    ensures IsChar(c) <==> InAlphabet(c) || c == '=' as int
    ensures DecodeTable(c) == SKIP <==> LineBreak(c)
    ensures InAlphabet(c) ==> !LineBreak(c) && c != '=' as int
    ensures IsChar(c) ==> ValueOf(c) == Value(c)
  {
    if DecodeTable(c) < 64 {
      TableBack(c);
      CodeIsAlphabet(DecodeTable(c));
      assert ALPHABET[DecodeTable(c)] as int == c;
    }
    forall v | 0 <= v < |ALPHABET| && ALPHABET[v] as int == c ensures DecodeTable(c) == v && c != PAD {
      CodeIsAlphabet(0);
      CodeIsAlphabet(v);
      TablesInvert(v);
    }
    CodeIsAlphabet(0);
  }

  lemma {:induction false} ValueMeans(c: byte)
    requires IsChar(c)
    ensures ValueOf(c) == Value(c)
  {
    CharMeans(c);
  }

  lemma {:induction false} QuantumMeans(q: seq<byte>)
    requires |q| == 4 && forall i :: 0 <= i < 4 ==> IsChar(q[i])
    ensures DecodeQuantum(q) == BlockBytes(q)
  {
    ValueMeans(q[0]);
    ValueMeans(q[1]);
    ValueMeans(q[2]);
    ValueMeans(q[3]);
    SameBytes(q);
  }

  lemma {:induction false} SameBytes(q: seq<byte>)
    requires |q| == 4 && IsChar(q[0]) && IsChar(q[1]) && IsChar(q[2]) && IsChar(q[3])
    requires ValueOf(q[0]) == Value(q[0]) && ValueOf(q[1]) == Value(q[1])
    requires ValueOf(q[2]) == Value(q[2]) && ValueOf(q[3]) == Value(q[3])
    ensures DecodeQuantum(q) == BlockBytes(q)
  {
    CutsApart(Value(q[0]), Value(q[1]), Value(q[2]), Value(q[3]));
    SameLength(q);
  }

  lemma {:induction false} SameLength(q: seq<byte>)
    requires |q| == 4
    ensures Length(q) == DecodedLength(q)
  {
  }

  lemma {:induction false} CutsApart(a: nat, b: nat, c: nat, d: nat)
    requires a < 64 && b < 64 && c < 64 && d < 64
    ensures var n := Word(a, b, c, d);
            n / 65536 == a * 4 + b / 16 && n / 256 % 256 == b % 16 * 16 + c / 4 && n % 256 == c % 4 * 64 + d
  {
    var x, y, z := a * 4 + b / 16, b % 16 * 16 + c / 4, c % 4 * 64 + d;
    var n := Word(a, b, c, d);
    assert b == b / 16 * 16 + b % 16 && c == c / 4 * 4 + c % 4;
    assert n == (x * 256 + y) * 256 + z;
    ModUnique(n, 256, x * 256 + y, z);
    ModUnique(x * 256 + y, 256, x, y);
    ModUnique(n, 65536, x, y * 256 + z);
  }

  // Gathering

  /** A quantum is the next four usable symbols; there is none when fewer are left. */
  lemma {:induction false} GatherMeans(text: seq<byte>, got: seq<byte>)
    requires |got| <= 4 && forall i :: 0 <= i < |got| ==> IsChar(got[i])
    ensures var u, n := Usable(text), 4 - |got|;
            match Gather(text, got)
            case Short => |u| < n
            case Quantum(chars, rest) => |u| >= n && chars == got + u[..n] && Usable(rest) == u[n..]
    decreases |text|
  {
    if |got| < 4 && text != [] {
      CharMeans(text[0]);
      if IsChar(text[0]) {
        GatherMeans(text[1..], got + [text[0]]);
      } else if LineBreak(text[0]) {
        GatherMeans(text[1..], got);
      }
    }
  }

  lemma {:induction false} GatherLegal(text: seq<byte>, got: seq<byte>)
    requires |got| <= 4 && (forall i :: 0 <= i < |got| ==> IsChar(got[i])) && Gather(text, got).Quantum?
    ensures AllLegal(text) <==> AllLegal(Gather(text, got).rest)
    decreases |text|
  {
    if |got| < 4 {
      CharMeans(text[0]);
      LegalTail(text);
      GatherLegal(text[1..], if IsChar(text[0]) then got + [text[0]] else got);
    }
  }

  lemma {:induction false} LegalTail(text: seq<byte>)
    requires text != []
    ensures AllLegal(text) <==> Legal(text[0]) && AllLegal(text[1..])
  {
    if Legal(text[0]) && AllLegal(text[1..]) {
      forall i | 0 <= i < |text| ensures Legal(text[i]) {
        if i > 0 { assert text[i] == text[1..][i - 1]; }
      }
    }
  }

  lemma {:induction false} LegalIsUsable(text: seq<byte>)
    requires AllLegal(text)
    ensures Usable(text) == Symbols(text)
  {
    if text != [] {
      LegalTail(text);
      LegalIsUsable(text[1..]);
    }
  }

  lemma {:induction false} LastIsSymbol(text: seq<byte>)
    requires text != [] && !LineBreak(text[|text| - 1])
    ensures Symbols(text) != []
  {
    if |text| > 1 { LastIsSymbol(text[1..]); }
  }

  // What is decoded, and what is accepted

  /** Whatever the text, the bytes decoded are those of the whole blocks before its first illegal character. */
  lemma {:induction false} DecodesBlocks(text: seq<byte>)
    ensures Decode(text).bytes == Blocks(Usable(text))
    decreases |text|
  {
    if text != [] {
      GatherMeans(text, []);
      match Gather(text, [])
      case Short =>
      case Quantum(chars, rest) =>
        QuantumMeans(chars);
        DecodesBlocks(rest);
        assert chars == Usable(text)[..4];
    }
  }

  lemma {:induction false} BreakMeans(c: byte)
    ensures IsBreak(c) <==> LineBreak(c)
  {
  }

  lemma {:induction false} QuantumKeepsCount(text: seq<byte>)
    requires AllLegal(text) && Gather(text, []).Quantum?
    ensures var rest := Gather(text, []).rest; AllLegal(rest) && |Symbols(text)| == |Symbols(rest)| + 4
  {
    GatherMeans(text, []);
    GatherLegal(text, []);
    LegalIsUsable(text);
    LegalIsUsable(Gather(text, []).rest);
  }

  lemma {:induction false} QuantumKeepsEnd(text: seq<byte>)
    requires text != [] && Gather(text, []).Quantum?
    ensures var rest := Gather(text, []).rest;
            if rest == [] then !LineBreak(text[|text| - 1]) else rest[|rest| - 1] == text[|text| - 1]
  {
    GatherLeavesLast(text, []);
    BreakMeans(text[|text| - 1]);
  }

  lemma {:induction false} AcceptsQuantum(text: seq<byte>)
    requires text != [] && Gather(text, []).Quantum?
    ensures var rest := Gather(text, []).rest; Accepted(text) <==> Accepted(rest)
  {
    GatherLegal(text, []);
    QuantumKeepsEnd(text);
    if AllLegal(text) { QuantumKeepsCount(text); }
    SameAcceptance(text, Gather(text, []).rest);
  }

  lemma {:induction false} SameAcceptance(text: seq<byte>, rest: seq<byte>)
    requires text != [] && (AllLegal(text) <==> AllLegal(rest))
    requires if rest == [] then !LineBreak(text[|text| - 1]) else rest[|rest| - 1] == text[|text| - 1]
    requires AllLegal(text) ==> |Symbols(text)| == |Symbols(rest)| + 4
    ensures Accepted(text) <==> Accepted(rest)
  {
    if AllLegal(text) {
      FourMore(|Symbols(rest)|);
      if rest != [] {
        assert LineBreak(text[|text| - 1]) <==> LineBreak(rest[|rest| - 1]);
      }
    }
  }

  lemma {:induction false} FourMore(n: nat)
    ensures (n + 4) % 4 == 0 <==> n % 4 == 0
  {
  }

  /** Decoding succeeds if and only if the text is acceptable. */
  lemma {:induction false} DecodeAccepts(text: seq<byte>)
    ensures Decode(text).ok <==> Accepted(text)
    decreases |text|
  {
    if text != [] {
      match Gather(text, [])
      case Short =>
        GatherMeans(text, []);
        if Accepted(text) {
          LegalIsUsable(text);
          LastIsSymbol(text);
        }
      case Quantum(_, rest) =>
        AcceptsQuantum(text);
        DecodeAccepts(rest);
    }
  }
}
