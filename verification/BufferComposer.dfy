/** parc_BufferComposer.c: a buffer that is replaced by a larger one whenever a put would not fit. */
module BufferComposers {
  import opened Bytes
  import opened Buffers

  class BufferComposer {
    var buffer: Buffer
    const incrementHeuristic: nat

    ghost predicate Valid()
      reads this, buffer, buffer.data
    {
      buffer.Valid() && buffer.arrayOffset == 0 && buffer.limit == buffer.capacity
    }

    /** Everything put so far. */
    ghost function Contents(): seq<byte>
      requires Valid()
      reads this, buffer, buffer.data
    {
      buffer.Written()
    }

    /** How much more fits before the buffer has to be replaced. */
    ghost function Room(): nat
      requires Valid()
      reads this, buffer, buffer.data
    {
      buffer.capacity - buffer.position
    }

    /** The old buffer object was kept, or replaced by a new one and left flipped. */
    twostate predicate KeptOrReplaced(kept: bool, was: Buffer)
      reads this, buffer, buffer.data, was, was.data
    {
      if kept then buffer == was && buffer.data == old(was.data) && buffer.capacity == old(was.capacity)
      else fresh(buffer) && fresh(buffer.data) && was.Valid() && was.limit == old(was.position)
    }

    twostate predicate SameBuffer()
      reads this, buffer
    {
      buffer == old(buffer) && buffer.data == old(buffer.data)
    }

    twostate predicate NewBuffer()
      reads this, buffer
    {
      fresh(buffer) && fresh(buffer.data)
    }

    constructor Allocate(size: nat, incrementHeuristic: nat)
      ensures Valid() && fresh(buffer) && fresh(buffer.data) && Contents() == [] && Room() == size
    {
      buffer := new Buffer.Allocate(size);
      this.incrementHeuristic := incrementHeuristic;
    }

    /** _ensureRemaining */
    method EnsureRemaining(required: nat)
      requires Valid()
      modifies this`buffer, buffer
      ensures Valid() && Contents() == old(Contents()) && Room() >= required
      ensures KeptOrReplaced(required <= old(Room()), old(buffer))
      ensures Room() == old(Room()) + if required <= old(Room()) then 0
                                      else if required < incrementHeuristic then incrementHeuristic else required
    {
      if buffer.capacity - buffer.position < required {
        var incrementAmount := required;
        if incrementAmount < incrementHeuristic {
          incrementAmount := incrementHeuristic;
        }
        var newBuffer := new Buffer.Allocate(buffer.capacity + incrementAmount);
        buffer.Flip();
        newBuffer.PutBuffer(buffer);
        buffer := newBuffer;
      }
    }

    method PutArray(bytes: seq<byte>)
      requires Valid()
      modifies this`buffer, buffer, buffer.data
      ensures Valid() && Contents() == old(Contents()) + bytes
      ensures KeptOrReplaced(|bytes| <= old(Room()), old(buffer))
      ensures |bytes| <= old(Room()) ==> Room() == old(Room()) - |bytes|
    {
      if |bytes| > 0 {
        EnsureRemaining(|bytes|);
        buffer.PutArray(bytes);
      }
    }

    method PutUint8(value: byte)
      requires Valid()
      modifies this`buffer, buffer, buffer.data
      ensures Valid() && Contents() == old(Contents()) + [value]
      ensures KeptOrReplaced(1 <= old(Room()), old(buffer))
      ensures 1 <= old(Room()) ==> Room() == old(Room()) - 1
    {
      EnsureRemaining(1);
      buffer.PutUint8(value);
    }

    /** PutUint16, PutUint32 and PutUint64, for 2, 4 and 8 bytes. */
    method PutUint(value: nat, size: nat)
      requires Valid() && size >= 1
      modifies this`buffer, buffer, buffer.data
      ensures Valid() && Contents() == old(Contents()) + BigEndian(value, size)
      ensures KeptOrReplaced(size <= old(Room()), old(buffer))
    {
      EnsureRemaining(size);
      buffer.PutUint(value, size);
    }

    method PutBuffer(source: Buffer)
      requires Valid() && source.Valid() && buffer.Apart(source)
      modifies this`buffer, buffer, buffer.data
      ensures Valid() && Contents() == old(Contents()) + source.Content()
      ensures source.Content() == old(source.Content())
      ensures KeptOrReplaced(old(source.Remaining()) <= old(Room()), old(buffer))
    {
      EnsureRemaining(source.Remaining());
      buffer.PutBuffer(source);
    }

    /** The buffer handed out holds exactly what was put. */
    method ProduceBuffer() returns (produced: Buffer)
      requires Valid()
      modifies buffer
      ensures produced == buffer && produced.Valid() && produced.Content() == old(Contents())
    {
      buffer.Flip();
      produced := buffer;
    }
  }

  // Runs of puts

  /** What is put: bytes, one byte, an integer, or what remains in another buffer. */
  datatype Item = Octets(bytes: seq<byte>) | Octet(octet: byte) | Uint(value: nat, size: nat) | Rest(content: seq<byte>)

  predicate Fits(item: Item) {
    item.Uint? ==> item.size >= 1 && item.value < Pow256(item.size)
  }

  function ImageOf(item: Item): seq<byte> {
    match item
    case Octets(bytes) => bytes
    case Octet(octet) => [octet]
    case Uint(value, size) => BigEndian(value, size)
    case Rest(content) => content
  }

  function Image(items: seq<Item>): seq<byte> {
    if items == [] then [] else Image(items[..|items| - 1]) + ImageOf(items[|items| - 1])
  }

  lemma {:induction false} ImageHead(items: seq<Item>)
    requires items != []
    ensures Image(items) == ImageOf(items[0]) + Image(items[1..])
  {
    if |items| > 1 {
      var n := |items| - 1;
      ImageHead(items[..n]);
      assert items[..n][1..] == items[1..][..n - 1];
    } else {
      assert items[..0] == [] && items[1..] == [];
    }
  }

  lemma {:induction false} UintHead(items: seq<Item>)
    requires items != [] && items[0].Uint? && Fits(items[0])
    ensures var content, n := Image(items), items[0].size;
            n <= |content| && FromBigEndian(content[..n]) == items[0].value && content[n..] == Image(items[1..])
  {
    ImageHead(items);
    BigEndianRoundTrip(items[0].value, items[0].size);
    assert Image(items)[..items[0].size] == BigEndian(items[0].value, items[0].size);
  }

  /** A buffer of its own with these remaining bytes. */
  method BufferOf(content: seq<byte>) returns (buffer: Buffer)
    ensures fresh(buffer) && fresh(buffer.data) && buffer.Valid() && buffer.Content() == content
  {
    buffer := new Buffer.Allocate(|content|);
    buffer.PutArray(content);
    buffer.Flip();
  }

  /** Whatever is put, on whatever initial capacity, the produced buffer is the plain concatenation. */
  method Compose(items: seq<Item>, capacity: nat, incrementHeuristic: nat) returns (produced: Buffer)
    requires forall i :: 0 <= i < |items| ==> Fits(items[i])
    ensures produced.Valid() && fresh(produced)
    ensures produced.Content() == Image(items)
  {
    var composer := new BufferComposer.Allocate(capacity, incrementHeuristic);
    for i := 0 to |items|
      invariant composer.Valid() && fresh(composer) && fresh(composer.buffer) && fresh(composer.buffer.data)
      invariant composer.Contents() == Image(items[..i])
    {
      match items[i] {
        case Octets(bytes) => composer.PutArray(bytes);
        case Octet(octet) => composer.PutUint8(octet);
        case Uint(value, size) => composer.PutUint(value, size);
        case Rest(content) =>
          var source := BufferOf(content);
          composer.PutBuffer(source);
      }
      assert items[..i + 1][..i] == items[..i];
    }
    assert items[..|items|] == items;
    produced := composer.ProduceBuffer();
  }

  method ReadOne(buffer: Buffer, size: nat, ghost items: seq<Item>) returns (value: nat)
    requires buffer.Valid() && buffer.Content() == Image(items)
    requires items != [] && items[0].Uint? && Fits(items[0]) && items[0].size == size
    modifies buffer`position
    ensures buffer.Valid() && value == items[0].value && buffer.Content() == Image(items[1..])
  {
    UintHead(items);
    value := buffer.GetUint(size);
  }

  /** Integers read in the order and sizes in which they were put come back unchanged. */
  method ReadBack(buffer: Buffer, sizes: seq<nat>, ghost items: seq<Item>) returns (values: seq<nat>)
    requires buffer.Valid() && buffer.Content() == Image(items) && |sizes| == |items|
    requires forall i :: 0 <= i < |items| ==> items[i].Uint? && Fits(items[i]) && items[i].size == sizes[i]
    modifies buffer`position
    ensures |values| == |items| && forall i :: 0 <= i < |items| ==> values[i] == items[i].value
    ensures buffer.Valid() && buffer.Content() == []
  {
    values := [];
    ghost var rest := items;
    for i := 0 to |sizes|
      invariant buffer.Valid() && rest == items[i..] && buffer.Content() == Image(rest)
      invariant |values| == i && forall j :: 0 <= j < i ==> values[j] == items[j].value
    {
      var v := ReadOne(buffer, sizes[i], rest);
      values, rest := values + [v], rest[1..];
    }
  }
}
