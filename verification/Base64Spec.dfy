/**
 parc_Base64.c: what encoding and decoding compute. The bit operations on bytes are written as
 arithmetic: shifts as products and quotients by powers of two, masks as remainders, and `|` of
 disjoint bits as a sum.
 */
module Base64Spec {
  import opened Bytes

  const PAD: byte := 61
  const INVALID: byte := 126
  const SKIP: byte := 95
  const CR: byte := 13
  const LF: byte := 10

  type sextet = x: int | 0 <= x < 64

  /** base64code: A-Z a-z 0-9 + / */
  function Code(v: sextet): byte {
    if v < 26 then 65 + v
    else if v < 52 then 97 + (v - 26)
    else if v < 62 then 48 + (v - 52)
    else if v == 62 then 43
    else 47
  }

  /** decodeTable */
  function DecodeTable(c: byte): byte {
    if c == LF || c == CR then SKIP
    else if c == 43 then 62
    else if c == 47 then 63
    else if 48 <= c <= 57 then c - 48 + 52
    else if 65 <= c <= 90 then c - 65
    else if 97 <= c <= 122 then c - 97 + 26
    else INVALID
  }

  /** A character that goes into a quantum. */
  predicate IsChar(c: byte) {
    DecodeTable(c) < 64 || c == PAD
  }

  predicate IsBreak(c: byte) {
    c == CR || c == LF
  }

  lemma {:induction false} TablesInvert(v: sextet)
    ensures DecodeTable(Code(v)) == v && Code(v) != PAD
  {
  }

  // Encoding

  function EncodeQuantum(q: seq<byte>): (r: seq<byte>)
    requires 1 <= |q| <= 3
    ensures |r| == 4
  {
    var b0 := q[0];
    var b1 := if |q| >= 2 then q[1] else 0;
    var b2 := if |q| >= 3 then q[2] else 0;
    var c2 := if |q| >= 2 then Code(b1 % 16 * 4 + b2 / 64) else PAD;
    var c3 := if |q| >= 3 then Code(b2 % 64) else PAD;
    [Code(b0 / 4), Code(b0 % 4 * 16 + b1 / 16), c2, c3]
  }

  function Min3(n: nat): nat {
    if n < 3 then n else 3
  }

  function Encode(bytes: seq<byte>): seq<byte> {
    if bytes == [] then []
    else EncodeQuantum(bytes[..Min3(|bytes|)]) + Encode(bytes[Min3(|bytes|)..])
  }

  // Decoding

  function ValueOf(c: byte): sextet
    requires IsChar(c)
  {
    if c == PAD then 0 else DecodeTable(c)
  }

  function DecodedLength(q: seq<byte>): nat
    requires |q| == 4
  {
    if q[3] != PAD then 3 else if q[2] != PAD then 2 else if q[1] != PAD then 1 else 0
  }

  function DecodeQuantum(q: seq<byte>): seq<byte>
    requires |q| == 4 && forall i :: 0 <= i < 4 ==> IsChar(q[i])
  {
    var v0, v1, v2, v3 := ValueOf(q[0]), ValueOf(q[1]), ValueOf(q[2]), ValueOf(q[3]);
    [v0 * 4 + v1 / 16, v1 % 16 * 16 + v2 / 4, v2 % 4 * 64 + v3][..DecodedLength(q)]
  }

  datatype Gathered = Quantum(chars: seq<byte>, rest: seq<byte>) | Short

  /** Collect four characters, passing over line breaks; Short when the text ends or is invalid before that. */
  function Gather(text: seq<byte>, got: seq<byte>): (g: Gathered)
    requires |got| <= 4 && forall i :: 0 <= i < |got| ==> IsChar(got[i])
    ensures g.Quantum? ==> |g.chars| == 4 && (forall i :: 0 <= i < 4 ==> IsChar(g.chars[i])) && |g.rest| + 4 <= |text| + |got|
    decreases |text|
  {
    if |got| == 4 then Quantum(got, text)
    else if text == [] then Short
    else if IsChar(text[0]) then Gather(text[1..], got + [text[0]])
    else if DecodeTable(text[0]) == SKIP then Gather(text[1..], got)
    else Short
  }

  /** Whether decoding succeeds, and the bytes appended before it ends either way. */
  datatype Outcome = Outcome(ok: bool, bytes: seq<byte>)

  function Decode(text: seq<byte>): Outcome
    decreases |text|
  {
    if text == [] then Outcome(true, [])
    else
      match Gather(text, [])
      case Short => Outcome(false, [])
      case Quantum(chars, rest) =>
        var r := Decode(rest);
        Outcome(r.ok, DecodeQuantum(chars) + r.bytes)
  }

  /** Four characters decode to three bytes at most, whether or not the text is valid. */
  lemma {:induction false} DecodedAtMost(text: seq<byte>)
    ensures |Decode(text).bytes| <= 3 * (|text| / 4)
    decreases |text|
  {
    if text != [] && Gather(text, []).Quantum? {
      DecodedAtMost(Gather(text, []).rest);
    }
  }

  // Round trip

  lemma {:induction false} QuantumRoundTrip(q: seq<byte>)
    requires 1 <= |q| <= 3
    ensures var e := EncodeQuantum(q); (forall i :: 0 <= i < 4 ==> IsChar(e[i])) && DecodeQuantum(e) == q
  {
    var e := EncodeQuantum(q);
    var b0 := q[0];
    var b1 := if |q| >= 2 then q[1] else 0;
    var b2 := if |q| >= 3 then q[2] else 0;
    TablesInvert(b0 / 4);
    TablesInvert(b0 % 4 * 16 + b1 / 16);
    TablesInvert(b1 % 16 * 4 + b2 / 64);
    TablesInvert(b2 % 64);
    assert ValueOf(e[0]) * 4 + ValueOf(e[1]) / 16 == b0;
    assert |q| >= 2 ==> ValueOf(e[1]) % 16 * 16 + ValueOf(e[2]) / 4 == b1;
    assert |q| >= 3 ==> ValueOf(e[2]) % 4 * 64 + ValueOf(e[3]) == b2;
  }

  lemma {:induction false} GatherExact(q: seq<byte>, rest: seq<byte>, n: nat)
    requires |q| == 4 && n <= 4 && forall i :: 0 <= i < 4 ==> IsChar(q[i])
    ensures Gather(q[n..] + rest, q[..n]) == Quantum(q, rest)
    decreases 4 - n
  {
    if n == 4 {
      assert q[4..] + rest == rest && q[..4] == q;
    } else {
      var t := q[n..] + rest;
      assert t[0] == q[n] && t[1..] == q[n + 1..] + rest && q[..n] + [q[n]] == q[..n + 1];
      GatherExact(q, rest, n + 1);
    }
  }

  /** Decoding an encoding gives back the bytes, for every length. */
  lemma {:induction false} RoundTrip(bytes: seq<byte>)
    ensures Decode(Encode(bytes)) == Outcome(true, bytes)
    decreases |bytes|
  {
    if bytes != [] {
      var n := Min3(|bytes|);
      var q, rest := bytes[..n], bytes[n..];
      var e := EncodeQuantum(q);
      QuantumRoundTrip(q);
      RoundTrip(rest);
      GatherExact(e, Encode(rest), 0);
      assert e[0..] + Encode(rest) == Encode(bytes) && e[..0] == [];
      assert q + rest == bytes;
    }
  }

  // Line breaks

  function Strip(text: seq<byte>): seq<byte> {
    if text == [] then []
    else if IsBreak(text[0]) then Strip(text[1..])
    else [text[0]] + Strip(text[1..])
  }

  lemma {:induction false} GatherStripped(text: seq<byte>, got: seq<byte>)
    requires |got| <= 4 && forall i :: 0 <= i < |got| ==> IsChar(got[i])
    ensures match Gather(text, got)
            case Short => Gather(Strip(text), got) == Short
            case Quantum(chars, rest) => Gather(Strip(text), got) == Quantum(chars, Strip(rest))
    decreases |text|
  {
    if |got| < 4 && text != [] {
      if IsChar(text[0]) {
        GatherStripped(text[1..], got + [text[0]]);
      } else if IsBreak(text[0]) {
        GatherStripped(text[1..], got);
      }
    }
  }

  /** A quantum ends with a character, so a final line break is never part of one. */
  lemma {:induction false} GatherLeavesLast(text: seq<byte>, got: seq<byte>)
    requires |got| < 4 && forall i :: 0 <= i < |got| ==> IsChar(got[i])
    requires text != [] && Gather(text, got).Quantum?
    ensures var rest := Gather(text, got).rest;
            if rest == [] then !IsBreak(text[|text| - 1]) else rest[|rest| - 1] == text[|text| - 1]
    decreases |text|
  {
    var got' := if IsChar(text[0]) then got + [text[0]] else got;
    if |got'| < 4 {
      GatherLeavesLast(text[1..], got');
    }
  }

  lemma {:induction false} StripEmpty(text: seq<byte>)
    requires text != [] && !IsBreak(text[|text| - 1])
    ensures Strip(text) != []
    decreases |text|
  {
    if IsBreak(text[0]) {
      StripEmpty(text[1..]);
    }
  }

  /** Line breaks are ignored exactly where no text ends in one: such a text is always refused. */
  lemma {:induction false} LineBreaksIgnored(text: seq<byte>)
    ensures if text != [] && IsBreak(text[|text| - 1]) then !Decode(text).ok
            else Decode(text) == Decode(Strip(text))
    decreases |text|
  {
    if text != [] {
      GatherStripped(text, []);
      if !IsBreak(text[|text| - 1]) { StripEmpty(text); }
      match Gather(text, [])
      case Short =>
      case Quantum(chars, rest) =>
        GatherLeavesLast(text, []);
        LineBreaksIgnored(rest);
    }
  }
}
