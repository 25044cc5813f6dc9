/**
 parc_Base64.c as it runs: loops over the input that fill a quantum and append to a composer, and the
 rollback of a failed decoding, which rewinds the buffer the composer held at the start.
 */
module Base64 {
  import opened Basics
  import opened Bytes
  import opened Buffers
  import opened BufferComposers
  import opened Base64Spec
  import opened Base64Rfc
  import opened Base64Decoding

  // Encoding

  method EncodeWithPad(output: BufferComposer, quantum: seq<byte>, padLength: nat)
    requires output.Valid() && padLength < 3 && |quantum| >= 3 - padLength
    modifies output`buffer, output.buffer, output.buffer.data
    ensures output.Valid() && output.Contents() == old(output.Contents()) + EncodeQuantum(quantum[..3 - padLength])
    ensures output.SameBuffer() || output.NewBuffer()
  {
    var paddedQuantum := quantum[..3 - padLength] + seq(padLength, _ => 0);
    ghost var code := EncodeQuantum(quantum[..3 - padLength]);
    for index := 0 to 4
      invariant output.Valid() && (output.SameBuffer() || output.NewBuffer())
      invariant output.Contents() == old(output.Contents()) + code[..index]
    {
      Extend(code, index);
      Regroup(old(output.Contents()), code[..index], [code[index]]);
      if index + padLength < 4 {
        var sixbit: sextet;
        match index {
          case 0 => sixbit := paddedQuantum[0] / 4;
          case 1 => sixbit := paddedQuantum[0] % 4 * 16 + paddedQuantum[1] / 16;
          case 2 => sixbit := paddedQuantum[1] % 16 * 4 + paddedQuantum[2] / 64;
          case _ => sixbit := paddedQuantum[2] % 64;
        }
        assert code[index] == Code(sixbit);
        output.PutUint8(Code(sixbit));
      } else {
        output.PutUint8(PAD);
      }
    }
  }

  method EncodeArray(output: BufferComposer, bytes: seq<byte>)
    requires output.Valid()
    modifies output`buffer, output.buffer, output.buffer.data
    ensures output.Valid() && output.Contents() == old(output.Contents()) + Encode(bytes)
    ensures Spells(Encode(bytes), RfcEncoding(bytes))
  {
    var offset := 0;
    ghost var start, done, rest := output.Contents(), [], bytes;
    while offset < |bytes|
      invariant 0 <= offset && rest == bytes[if offset <= |bytes| then offset else |bytes|..]
      invariant output.Valid() && (output.SameBuffer() || output.NewBuffer())
      invariant output.Contents() == start + done && done + Encode(rest) == Encode(bytes)
      decreases |bytes| - offset
    {
      var padLength := 3 - Min3(|bytes| - offset);
      ghost var code := EncodeQuantum(rest[..3 - padLength]);
      EncodeWithPad(output, bytes[offset..], padLength);
      Regroup(start, done, code);
      Regroup(done, code, Encode(rest[3 - padLength..]));
      done, rest := done + code, rest[3 - padLength..];
      offset := offset + 3;
    }
    assert rest == [];
    EncodeIsRfc(bytes);
  }

  // Decoding

  /** The inner loop of parcBase64_DecodeArray. */
  method GatherQuantum(text: seq<byte>, from: nat) returns (quantum: seq<byte>, offset: nat)
    requires from < |text|
    ensures from <= offset <= |text| && |quantum| <= 4
    ensures match Gather(text[from..], [])
            case Short => |quantum| < 4
            case Quantum(chars, rest) => quantum == chars && rest == text[offset..] && offset > from
    ensures |quantum| == 4 <==> |Usable(text[from..])| >= 4
    ensures |quantum| == 4 ==> quantum == Usable(text[from..])[..4] && Usable(text[offset..]) == Usable(text[from..])[4..]
  {
    GatherMeans(text[from..], []);
    quantum, offset := [], from;
    while |quantum| < 4 && offset < |text|
      invariant from <= offset <= |text| && |quantum| <= 4 && forall i :: 0 <= i < |quantum| ==> IsChar(quantum[i])
      invariant offset == from ==> quantum == []
      invariant Gather(text[from..], []) == Gather(text[offset..], quantum)
      decreases |text| - offset
    {
      var c := text[offset];
      var decoded := DecodeTable(c);
      assert text[offset..][0] == c && text[offset..][1..] == text[offset + 1..];
      if decoded < 64 || c == PAD {
        quantum := quantum + [c];
        offset := offset + 1;
      } else if decoded == SKIP {
        offset := offset + 1;
      } else {
        return;
      }
    }
  }

  /** _decode */
  method DecodeInto(output: BufferComposer, quantum: seq<byte>) returns (success: bool)
    requires output.Valid() && |quantum| == 4 && forall i :: 0 <= i < 4 ==> IsChar(quantum[i])
    modifies output`buffer, output.buffer, output.buffer.data
    ensures success && output.Valid() && output.Contents() == old(output.Contents()) + DecodeQuantum(quantum)
    ensures output.KeptOrReplaced(|DecodeQuantum(quantum)| <= old(output.Room()), old(output.buffer))
    ensures |DecodeQuantum(quantum)| <= old(output.Room()) ==> output.Room() == old(output.Room()) - |DecodeQuantum(quantum)|
  {
    var b0, b1, b2 := 0, 0, 0;
    var lengthToAppend := 0;
    for index := 0 to 4
      invariant b0 == (if index > 0 then ValueOf(quantum[0]) * 4 else 0) + if index > 1 then ValueOf(quantum[1]) / 16 else 0
      invariant b1 == (if index > 1 then ValueOf(quantum[1]) % 16 * 16 else 0) + if index > 2 then ValueOf(quantum[2]) / 4 else 0
      invariant b2 == (if index > 2 then ValueOf(quantum[2]) % 4 * 64 else 0) + if index > 3 then ValueOf(quantum[3]) else 0
      invariant lengthToAppend == if index > 3 && quantum[3] != PAD then 3 else if index > 2 && quantum[2] != PAD then 2
                                  else if index > 1 && quantum[1] != PAD then 1 else 0
    {
      var c := quantum[index];
      if c != PAD {
        var value := DecodeTable(c);
        if value == INVALID {
          return false;
        }
        match index {
          case 0 =>
            b0 := b0 + value * 4;
          case 1 =>
            b0 := b0 + value / 16;
            b1 := b1 + value % 16 * 16;
            lengthToAppend := 1;
          case 2 =>
            b1 := b1 + value / 4;
            b2 := b2 + value % 4 * 64;
            lengthToAppend := 2;
          case _ =>
            b2 := b2 + value;
            lengthToAppend := 3;
        }
      }
    }
    output.PutArray([b0, b1, b2][..lengthToAppend]);
    success := true;
  }

  /** One turn of the outer loop of parcBase64_DecodeArray: gather a quantum and append what it decodes to. */
  method DecodeRound(output: BufferComposer, text: seq<byte>, from: nat)
    returns (success: bool, offset: nat, ghost piece: seq<byte>)
    requires output.Valid() && from < |text|
    modifies output`buffer, output.buffer, output.buffer.data
    ensures output.Valid() && output.Contents() == old(output.Contents()) + piece && from <= offset <= |text|
    ensures output.KeptOrReplaced(|piece| <= old(output.Room()), old(output.buffer))
    ensures |piece| <= old(output.Room()) ==> output.Room() == old(output.Room()) - |piece|
    ensures if success then from < offset && Decode(text[from..]) ==
                            Outcome(Decode(text[offset..]).ok, piece + Decode(text[offset..]).bytes)
            else piece == [] && Decode(text[from..]) == Outcome(false, [])
  {
    var quantum;
    quantum, offset := GatherQuantum(text, from);
    success, piece := false, [];
    if |quantum| == 4 {
      success := DecodeInto(output, quantum);
      piece := DecodeQuantum(quantum);
    }
  }

  /** The buffer held at the start, after `bytes` were appended: still in use, or left behind and readable. */
  twostate predicate Tracked(output: BufferComposer, first: Buffer, bytes: seq<byte>)
    requires old(output.Valid()) && output.Valid()
    reads output, output.buffer, output.buffer.data, first, first.data
  {
    && first == old(output.buffer) && first.Valid() && old(first.position) <= first.limit
    && if |bytes| <= old(output.Room()) then output.SameBuffer() && output.Room() == old(output.Room()) - |bytes|
       else output.NewBuffer()
  }

  /** The outer loop of parcBase64_DecodeArray. */
  method DecodeAll(output: BufferComposer, text: seq<byte>) returns (success: bool)
    requires output.Valid()
    modifies output`buffer, output.buffer, output.buffer.data
    ensures output.Valid() && success == Decode(text).ok
    ensures output.Contents() == old(output.Contents()) + Decode(text).bytes
    ensures Tracked(output, old(output.buffer), Decode(text).bytes)
  {
    var offset := 0;
    success := true;
    ghost var first, start, done := output.buffer, output.Contents(), [];
    assert text[0..] == text;
    while offset < |text| && success
      invariant 0 <= offset <= |text| && output.Valid() && output.Contents() == start + done
      invariant if success then Decode(text) == Outcome(Decode(text[offset..]).ok, done + Decode(text[offset..]).bytes)
                else Decode(text) == Outcome(false, done)
      invariant Tracked(output, first, done)
      decreases success, |text| - offset
    {
      var next;
      ghost var piece;
      success, next, piece := DecodeRound(output, text, offset);
      Regroup(start, done, piece);
      Regroup(done, piece, Decode(text[next..]).bytes);
      done := done + piece;
      offset := next;
    }
  }

  /**
   On success the decoded bytes are appended. A failed decoding is rolled back exactly when what had
   been decoded still fitted into the buffer; once the composer has replaced its buffer, the rewind
   reaches only the old one and the decoded bytes stay. Three bytes of room for every four characters
   are always enough.
   */
  method DecodeArray(output: BufferComposer, text: seq<byte>) returns (ok: bool)
    requires output.Valid()
    modifies output`buffer, output.buffer, output.buffer.data
    ensures output.Valid() && ok == Decode(text).ok
    ensures ok <==> Accepted(text)
    ensures Decode(text).bytes == Blocks(Usable(text))
    ensures !ok ==> (output.Contents() == old(output.Contents()) <==> |Decode(text).bytes| <= old(output.Room()))
    ensures ok || |Decode(text).bytes| > old(output.Room()) ==>
              output.Contents() == old(output.Contents()) + Decode(text).bytes
    ensures !ok && 3 * (|text| / 4) <= old(output.Room()) ==> output.Contents() == old(output.Contents())
  {
    DecodedAtMost(text);
    DecodeAccepts(text);
    DecodesBlocks(text);
    var outputBuffer := output.buffer;
    var rewindTo := outputBuffer.position;
    ok := DecodeAll(output, text);
    if !ok {
      ghost var now := output.Contents();
      outputBuffer.SetPosition(rewindTo);
      assert output.buffer == outputBuffer ==> output.Contents() == now[..rewindTo];
    }
  }

  lemma {:induction false} FailsLate()
    ensures Decode([65, 65, 65, 65, 126]) == Outcome(false, [0, 0, 0])
  {
    var q: seq<byte> := [65, 65, 65, 65];
    GatherExact(q, [126], 0);
    assert q[0..] + [126] == [65, 65, 65, 65, 126] && q[..0] == [];
    assert Gather([126], []) == Short;
    assert DecodeQuantum(q) == [0, 0, 0];
  }

  /** `AAAA~` is refused after three bytes; a composer that had room for two keeps all three. */
  method RollbackMissed(incrementHeuristic: nat) returns (output: BufferComposer, ok: bool)
    ensures !ok && output.Valid() && output.Contents() == [0, 0, 0]
  {
    FailsLate();
    output := new BufferComposer.Allocate(2, incrementHeuristic);
    ok := DecodeArray(output, [65, 65, 65, 65, 126]);
  }
}
