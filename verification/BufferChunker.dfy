/**
 parc_BufferChunker.c: iterators that cut a buffer into chunks from the front or from the back. Both
 move the position of the shared buffer as they go, and both size their first chunk by what remains
 behind the buffer's position when they are created.
 */
module BufferChunkers {
  import opened Basics
  import opened Bytes
  import opened Buffers

  // What the two iterations produce

  function ForwardPieces(bytes: seq<byte>, c: nat): seq<seq<byte>>
    requires c > 0
    decreases |bytes|
  {
    if |bytes| <= c then [bytes] else [bytes[..c]] + ForwardPieces(bytes[c..], c)
  }

  function ReversePieces(bytes: seq<byte>, c: nat): seq<seq<byte>>
    requires c > 0
    decreases |bytes|
  {
    if |bytes| <= c then [bytes] else [bytes[|bytes| - c..]] + ReversePieces(bytes[..|bytes| - c], c)
  }

  /** Forward pieces when the first one has length `first`. */
  function ForwardFrom(bytes: seq<byte>, first: nat, c: nat): seq<seq<byte>>
    requires c > 0 && first <= |bytes|
  {
    [bytes[..first]] + if first == |bytes| then [] else ForwardPieces(bytes[first..], c)
  }

  function Join(pieces: seq<seq<byte>>): seq<byte> {
    if pieces == [] then [] else pieces[0] + Join(pieces[1..])
  }

  /** The pieces joined last to first. */
  function JoinReversed(pieces: seq<seq<byte>>): seq<byte> {
    if pieces == [] then [] else JoinReversed(pieces[1..]) + pieces[0]
  }

  /** Every piece is full but the last, which is not longer. */
  predicate Chunked(pieces: seq<seq<byte>>, c: nat) {
    pieces != [] && |pieces[|pieces| - 1]| <= c && forall i :: 0 <= i < |pieces| - 1 ==> |pieces[i]| == c
  }

  /** `k` is ceil(n / c), or one for empty data. */
  predicate IsPieceCount(n: nat, c: nat, k: nat) {
    if n == 0 then k == 1 else k > 0 && (k - 1) * c < n <= k * c
  }

  lemma {:induction false} OneMorePiece(n: nat, c: nat, k: nat)
    requires c > 0 && n > c && IsPieceCount(n - c, c, k)
    ensures IsPieceCount(n, c, k + 1)
  {
    assert (k + 1) * c == k * c + c && k * c == (k - 1) * c + c;
  }

  lemma {:induction false} Cons(x: seq<byte>, rest: seq<seq<byte>>)
    ensures Join([x] + rest) == x + Join(rest) && JoinReversed([x] + rest) == JoinReversed(rest) + x
  {
    assert ([x] + rest)[1..] == rest;
  }

  lemma {:induction false} ChunkedCons(x: seq<byte>, rest: seq<seq<byte>>, c: nat)
    requires |x| == c && Chunked(rest, c)
    ensures Chunked([x] + rest, c)
  {
    var p := [x] + rest;
    assert forall i :: 0 < i < |p| ==> p[i] == rest[i - 1];
  }

  lemma {:induction false} Single(x: seq<byte>)
    ensures Join([x]) == x && JoinReversed([x]) == x
  {
    assert [x] == [x] + [];
    Cons(x, []);
  }

  lemma {:induction false} ForwardJoins(bytes: seq<byte>, c: nat)
    requires c > 0
    ensures Join(ForwardPieces(bytes, c)) == bytes
    decreases |bytes|
  {
    if |bytes| <= c {
      Single(bytes);
    } else {
      ForwardJoins(bytes[c..], c);
      Cons(bytes[..c], ForwardPieces(bytes[c..], c));
      assert bytes[..c] + bytes[c..] == bytes;
    }
  }

  lemma {:induction false} ForwardChunked(bytes: seq<byte>, c: nat)
    requires c > 0
    ensures var p := ForwardPieces(bytes, c); Chunked(p, c) && IsPieceCount(|bytes|, c, |p|)
    decreases |bytes|
  {
    if |bytes| > c {
      var rest := ForwardPieces(bytes[c..], c);
      ForwardChunked(bytes[c..], c);
      OneMorePiece(|bytes|, c, |rest|);
      ChunkedCons(bytes[..c], rest, c);
    }
  }

  /** Forward pieces are full but for the last, there are ceil(n/c) of them, and in order they are the data. */
  lemma {:induction false} ForwardRebuilds(bytes: seq<byte>, c: nat)
    requires c > 0
    ensures var p := ForwardPieces(bytes, c); Join(p) == bytes && Chunked(p, c) && IsPieceCount(|bytes|, c, |p|)
  {
    ForwardJoins(bytes, c);
    ForwardChunked(bytes, c);
  }

  lemma {:induction false} ReverseJoins(bytes: seq<byte>, c: nat)
    requires c > 0
    ensures JoinReversed(ReversePieces(bytes, c)) == bytes
    decreases |bytes|
  {
    if |bytes| <= c {
      Single(bytes);
    } else {
      var n := |bytes| - c;
      ReverseJoins(bytes[..n], c);
      Cons(bytes[n..], ReversePieces(bytes[..n], c));
      assert bytes[..n] + bytes[n..] == bytes;
    }
  }

  lemma {:induction false} ReverseChunked(bytes: seq<byte>, c: nat)
    requires c > 0
    ensures var p := ReversePieces(bytes, c); Chunked(p, c) && IsPieceCount(|bytes|, c, |p|)
    decreases |bytes|
  {
    if |bytes| > c {
      var n := |bytes| - c;
      var rest := ReversePieces(bytes[..n], c);
      ReverseChunked(bytes[..n], c);
      OneMorePiece(|bytes|, c, |rest|);
      ChunkedCons(bytes[n..], rest, c);
    }
  }

  /** Reverse pieces are as many and as full, and joined last to first they are the data. */
  lemma {:induction false} ReverseRebuilds(bytes: seq<byte>, c: nat)
    requires c > 0
    ensures var p := ReversePieces(bytes, c); JoinReversed(p) == bytes && Chunked(p, c) && IsPieceCount(|bytes|, c, |p|)
  {
    ReverseJoins(bytes, c);
    ReverseChunked(bytes, c);
  }

  function Min(a: nat, b: nat): nat {
    if a < b then a else b
  }

  /** Whatever the position, a forward iteration joins to the data. */
  lemma {:induction false} ForwardFromRebuilds(bytes: seq<byte>, first: nat, c: nat)
    requires c > 0 && first <= |bytes|
    ensures Join(ForwardFrom(bytes, first, c)) == bytes
  {
    var rest := if first == |bytes| then [] else ForwardPieces(bytes[first..], c);
    Cons(bytes[..first], rest);
    if first < |bytes| { ForwardJoins(bytes[first..], c); }
    assert bytes[..first] + bytes[first..] == bytes;
  }

  lemma {:induction false} ForwardFromFull(bytes: seq<byte>, c: nat)
    requires c > 0
    ensures ForwardFrom(bytes, Min(|bytes|, c), c) == ForwardPieces(bytes, c)
  {
    if |bytes| <= c {
      assert bytes[..|bytes|] == bytes;
    }
  }

  /** A reverse iteration started with `r` bytes remaining recovers the data exactly when that is all of it. */
  lemma {:induction false} ReverseRecoversIff(bytes: seq<byte>, r: nat, c: nat)
    requires c > 0 && r <= |bytes|
    ensures JoinReversed(ReversePieces(bytes[..r], c)) == bytes <==> r == |bytes|
  {
    ReverseRebuilds(bytes[..r], c);
    if r == |bytes| { assert bytes[..r] == bytes; }
  }

  lemma {:induction false} SliceOfSlice(s: seq<byte>, a: nat, b: nat, p: nat, q: nat)
    requires a <= b <= |s| && p <= q <= b - a
    ensures s[a..b][p..q] == s[a + p..a + q]
  {
    var x, y := s[a..b][p..q], s[a + p..a + q];
    assert |x| == |y| && forall i :: 0 <= i < |x| ==> x[i] == s[a + p + i] == y[i];
  }

  // The iterators

  class ChunkerState {
    var chunkNumber: nat
    var direction: nat
    var atEnd: bool
    var position: nat
    var nextChunkSize: nat

    constructor InitForward(data: Buffer, chunkSize: nat)
      requires data.Valid()
      ensures position == 0 && nextChunkSize == Min(data.Remaining(), chunkSize) && !atEnd && direction == 0
      ensures chunkNumber == 0
    {
      chunkNumber := 0;
      direction := 0;
      position := 0;
      atEnd := false;
      nextChunkSize := if data.Remaining() < chunkSize then data.Remaining() else chunkSize;
    }

    constructor InitReverse(data: Buffer, chunkSize: nat)
      requires data.Valid()
      ensures position + nextChunkSize == data.Remaining() && nextChunkSize == Min(data.Remaining(), chunkSize)
      ensures !atEnd && direction == 1 && chunkNumber == 0
    {
      chunkNumber := 0;
      direction := 1;
      atEnd := false;
      if data.Remaining() < chunkSize {
        position := 0;
        nextChunkSize := data.Remaining();
      } else {
        position := data.Remaining() - chunkSize;
        nextChunkSize := chunkSize;
      }
    }
  }

  class BufferChunker {
    const chunkSize: nat
    const data: Buffer

    constructor (data: Buffer, chunkSize: nat)
      ensures this.data == data && this.chunkSize == chunkSize
    {
      this.data := data;
      this.chunkSize := chunkSize;
    }

    /** All bytes up to the limit, whatever the position. */
    ghost function Whole(): seq<byte>
      requires data.Valid()
      reads this, data, data.data
    {
      data.data[data.arrayOffset..data.arrayOffset + data.limit]
    }

    method AdvanceForward(state: ChunkerState)
      requires data.Valid() && data.position == state.position + state.nextChunkSize
      modifies state
      ensures state.position == data.position
      ensures state.atEnd == (old(state.atEnd) || data.Remaining() == 0)
      ensures data.Remaining() > 0 ==> state.nextChunkSize == Min(data.Remaining(), chunkSize)
      ensures state.direction == old(state.direction) && state.chunkNumber == old(state.chunkNumber)
    {
      state.position := state.position + state.nextChunkSize;
      var remaining := data.Remaining();
      if remaining == 0 {
        state.atEnd := true;
      } else if remaining > chunkSize {
        state.nextChunkSize := chunkSize;
      } else {
        state.nextChunkSize := remaining;
      }
    }

    method AdvanceBackward(state: ChunkerState)
      modifies state
      ensures state.atEnd == (old(state.atEnd) || old(state.nextChunkSize) != chunkSize || old(state.position) == 0)
      ensures old(state.nextChunkSize) == chunkSize && old(state.position) > 0 ==>
                && state.nextChunkSize == Min(chunkSize, old(state.position))
                && state.position == old(state.position) - state.nextChunkSize
      ensures state.direction == old(state.direction) && state.chunkNumber == old(state.chunkNumber)
    {
      var size := state.nextChunkSize;
      if size != chunkSize || state.position == 0 {
        state.atEnd := true;
      } else if state.position < size {
        state.nextChunkSize := state.position;
        state.position := 0;
      } else {
        state.position := state.position - size;
      }
    }

    /** Copy out the bytes at a position, leaving the buffer's position after them. */
    method CopyAt(position: nat, size: nat) returns (slice: seq<byte>)
      requires data.Valid() && position + size <= data.limit
      modifies data`position
      ensures data.Valid() && Whole() == old(Whole())
      ensures data.position == position + size && slice == Whole()[position..position + size]
    {
      data.SetPosition(position);
      var start := data.arrayOffset + data.position;
      slice := data.data[start..start + size];
      SliceOfSlice(data.data[..], data.arrayOffset, data.arrayOffset + data.limit, data.position, data.position + size);
      data.SetPosition(data.position + size);
    }

    /** _ccnxChunker_NextFromBuffer: copy out one chunk and advance. */
    method Next(state: ChunkerState) returns (slice: seq<byte>)
      requires data.Valid() && state.position + state.nextChunkSize <= data.limit
      modifies state, data`position
      ensures data.Valid() && Whole() == old(Whole())
      ensures slice == Whole()[old(state.position)..old(state.position + state.nextChunkSize)]
      ensures state.chunkNumber == old(state.chunkNumber) + 1 && state.direction == old(state.direction)
      ensures old(state.direction) == 0 ==>
                var p := old(state.position + state.nextChunkSize);
                && state.position == p
                && state.atEnd == (old(state.atEnd) || p == data.limit)
                && (p < data.limit ==> state.nextChunkSize == Min(data.limit - p, chunkSize))
      ensures old(state.direction) != 0 ==>
                && state.atEnd == (old(state.atEnd) || old(state.nextChunkSize) != chunkSize || old(state.position) == 0)
                && (old(state.nextChunkSize) == chunkSize && old(state.position) > 0 ==>
                    && state.nextChunkSize == Min(chunkSize, old(state.position))
                    && state.position == old(state.position) - state.nextChunkSize)
    {
      slice := CopyAt(state.position, state.nextChunkSize);
      state.chunkNumber := state.chunkNumber + 1;
      if state.direction == 0 {
        AdvanceForward(state);
      } else {
        AdvanceBackward(state);
      }
    }

    method NextForward(state: ChunkerState, ghost whole: seq<byte>) returns (slice: seq<byte>)
      requires data.Valid() && Whole() == whole && OnForward(state, whole) && !state.atEnd && chunkSize > 0
      modifies state, data`position
      ensures data.Valid() && Whole() == whole && OnForward(state, whole)
      ensures old(ForwardRest(state, whole)) == [slice] + ForwardRest(state, whole)
      ensures state.atEnd || state.position > old(state.position)
    {
      ForwardSplits(whole, state.position, chunkSize);
      slice := Next(state);
    }

    method NextReverse(state: ChunkerState, ghost whole: seq<byte>) returns (slice: seq<byte>)
      requires data.Valid() && Whole() == whole && OnReverse(state, whole) && !state.atEnd && chunkSize > 0
      modifies state, data`position
      ensures data.Valid() && Whole() == whole && OnReverse(state, whole)
      ensures old(ReverseRest(state, whole)) == [slice] + ReverseRest(state, whole)
      ensures state.atEnd || state.position + state.nextChunkSize < old(state.position + state.nextChunkSize)
    {
      ReverseSplits(whole, state.position + state.nextChunkSize, chunkSize);
      slice := Next(state);
    }

    /** A forward iteration past its first chunk. */
    ghost predicate OnForward(state: ChunkerState, whole: seq<byte>)
      reads this, state
    {
      && state.direction == 0 && state.position <= |whole| && (state.atEnd <==> state.position == |whole|)
      && (!state.atEnd ==> state.nextChunkSize == Min(|whole| - state.position, chunkSize))
    }

    /** What a forward iteration has still to produce. */
    ghost function ForwardRest(state: ChunkerState, whole: seq<byte>): seq<seq<byte>>
      requires OnForward(state, whole) && chunkSize > 0
      reads this, state
    {
      if state.atEnd then [] else ForwardPieces(whole[state.position..], chunkSize)
    }

    ghost predicate OnReverse(state: ChunkerState, whole: seq<byte>)
      reads this, state
    {
      && state.direction == 1
      && (!state.atEnd ==>
            && state.position + state.nextChunkSize <= |whole|
            && state.nextChunkSize == Min(chunkSize, state.position + state.nextChunkSize))
    }

    ghost function ReverseRest(state: ChunkerState, whole: seq<byte>): seq<seq<byte>>
      requires OnReverse(state, whole) && chunkSize > 0
      reads this, state
    {
      if state.atEnd then [] else ReversePieces(whole[..state.position + state.nextChunkSize], chunkSize)
    }

    method DrainForward() returns (pieces: seq<seq<byte>>)
      requires data.Valid() && chunkSize > 0
      modifies data`position
      ensures data.Valid() && Whole() == old(Whole())
      ensures pieces == ForwardFrom(Whole(), old(Min(data.Remaining(), chunkSize)), chunkSize)
      ensures Join(pieces) == Whole()
      ensures old(data.position) == 0 ==> pieces == ForwardPieces(Whole(), chunkSize)
    {
      var state := new ChunkerState.InitForward(data, chunkSize);
      ghost var first, whole := state.nextChunkSize, Whole();
      ForwardFromRebuilds(whole, first, chunkSize);
      ForwardFromFull(whole, chunkSize);
      var slice := Next(state);
      pieces := [slice];
      while !state.atEnd
        invariant data.Valid() && Whole() == whole && fresh(state) && OnForward(state, whole)
        invariant ForwardFrom(whole, first, chunkSize) == pieces + ForwardRest(state, whole)
        decreases !state.atEnd, |whole| - state.position
      {
        slice := NextForward(state, whole);
        Regroup(pieces, [slice], ForwardRest(state, whole));
        pieces := pieces + [slice];
      }
    }

    method DrainReverse() returns (pieces: seq<seq<byte>>)
      requires data.Valid() && chunkSize > 0
      modifies data`position
      ensures data.Valid() && Whole() == old(Whole())
      ensures pieces == ReversePieces(Whole()[..old(data.Remaining())], chunkSize)
      ensures JoinReversed(pieces) == Whole() <==> old(data.position) == 0
    {
      var state := new ChunkerState.InitReverse(data, chunkSize);
      ghost var whole, r := Whole(), data.Remaining();
      ReverseRecoversIff(whole, r, chunkSize);
      pieces := [];
      while !state.atEnd
        invariant data.Valid() && Whole() == whole && fresh(state) && OnReverse(state, whole)
        invariant ReversePieces(whole[..r], chunkSize) == pieces + ReverseRest(state, whole)
        decreases !state.atEnd, state.position + state.nextChunkSize
      {
        var slice := NextReverse(state, whole);
        Regroup(pieces, [slice], ReverseRest(state, whole));
        pieces := pieces + [slice];
      }
    }
  }

  lemma {:induction false} ForwardSplits(bytes: seq<byte>, p: nat, c: nat)
    requires c > 0 && p < |bytes|
    ensures var n := Min(|bytes| - p, c);
            ForwardPieces(bytes[p..], c) ==
            [bytes[p..p + n]] + if p + n == |bytes| then [] else ForwardPieces(bytes[p + n..], c)
  {
    var rest, n := bytes[p..], Min(|bytes| - p, c);
    assert rest[..n] == bytes[p..p + n] && rest[n..] == bytes[p + n..];
    if |rest| <= c {
      assert ForwardPieces(rest, c) == [rest] && rest[..n] == rest;
    } else {
      assert ForwardPieces(rest, c) == [rest[..c]] + ForwardPieces(rest[c..], c);
    }
  }

  lemma {:induction false} ReverseSplits(bytes: seq<byte>, e: nat, c: nat)
    requires c > 0 && e <= |bytes|
    ensures var n := Min(c, e);
            ReversePieces(bytes[..e], c) ==
            [bytes[e - n..e]] + if e - n == 0 then [] else ReversePieces(bytes[..e - n], c)
  {
    var rest, n := bytes[..e], Min(c, e);
    assert rest[e - n..] == bytes[e - n..e] && rest[..e - n] == bytes[..e - n];
    if |rest| <= c {
      assert ReversePieces(rest, c) == [rest] && rest[e - n..] == rest;
    } else {
      assert ReversePieces(rest, c) == [rest[e - c..]] + ReversePieces(rest[..e - c], c);
    }
  }
}
