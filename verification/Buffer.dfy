/**
 parc_Buffer.c: a window `position <= limit <= capacity` on a byte array that several buffers may share,
 with relative puts and gets, comparison and hashing of the remaining bytes.
 The mark is not modelled.
 */
module Buffers {
  import opened Basics
  import opened Bytes
  import opened HashCode

  // Big-endian integers

  function BigEndian(value: nat, n: nat): (s: seq<byte>)
    ensures |s| == n
  {
    if n == 0 then [] else BigEndian(value / 256, n - 1) + [value % 256]
  }

  function FromBigEndian(s: seq<byte>): nat {
    if s == [] then 0 else 256 * FromBigEndian(s[..|s| - 1]) + s[|s| - 1]
  }

  function Pow256(n: nat): nat {
    if n == 0 then 1 else 256 * Pow256(n - 1)
  }

  /** What was put as an integer is read back as that integer. */
  lemma {:induction false} BigEndianRoundTrip(value: nat, n: nat)
    requires value < Pow256(n)
    ensures FromBigEndian(BigEndian(value, n)) == value
  {
    if n > 0 {
      BigEndianRoundTrip(value / 256, n - 1);
    }
  }

  lemma {:induction false} BigEndianInverse(s: seq<byte>)
    ensures FromBigEndian(s) < Pow256(|s|) && BigEndian(FromBigEndian(s), |s|) == s
  {
    if s != [] {
      BigEndianInverse(s[..|s| - 1]);
    }
  }

  /** The bytes of a longer number are the digits to the base 256, most significant first. */
  lemma {:induction false} BigEndianSplits(s: seq<byte>, i: nat)
    requires i <= |s|
    ensures FromBigEndian(s) == FromBigEndian(s[..i]) * Pow256(|s| - i) + FromBigEndian(s[i..])
    decreases |s| - i
  {
    if i == |s| {
      assert s[..i] == s;
    } else {
      var n := |s| - 1;
      BigEndianSplits(s[..n], i);
      assert s[..n][..i] == s[..i] && s[..n][i..] == s[i..][..n - i];
      NextDigit(FromBigEndian(s[..i]), Pow256(n - i), FromBigEndian(s[i..][..n - i]), s[n]);
    }
  }

  lemma {:induction false} NextDigit(a: nat, p: nat, b: nat, d: nat)
    ensures 256 * (a * p + b) + d == a * (256 * p) + (256 * b + d)
  {
  }

  // The order on byte sequences

  datatype Order = Less | Same | Greater

  /** Lexicographic order, a proper prefix first. */
  function Lexicographic(x: seq<byte>, y: seq<byte>): Order {
    if x == [] && y == [] then Same
    else if x == [] then Less
    else if y == [] then Greater
    else if x[0] < y[0] then Less
    else if x[0] > y[0] then Greater
    else Lexicographic(x[1..], y[1..])
  }

  function Flipped(o: Order): Order {
    match o
    case Less => Greater
    case Same => Same
    case Greater => Less
  }

  lemma {:induction false} OrderSame(x: seq<byte>, y: seq<byte>)
    ensures Lexicographic(x, y) == Same <==> x == y
  {
    if x != [] && y != [] {
      OrderSame(x[1..], y[1..]);
      assert x == [x[0]] + x[1..] && y == [y[0]] + y[1..];
    }
  }

  /** A proper prefix of `y`, or the smaller byte at the first difference. */
  ghost predicate Before(x: seq<byte>, y: seq<byte>) {
    x < y || exists i :: SmallerAt(x, y, i)
  }

  ghost predicate SmallerAt(x: seq<byte>, y: seq<byte>, i: int) {
    0 <= i < |x| && i < |y| && x[..i] == y[..i] && x[i] < y[i]
  }

  lemma {:induction false} SmallerLater(x: seq<byte>, y: seq<byte>, i: nat)
    requires x != [] && y != [] && x[0] == y[0]
    ensures SmallerAt(x, y, i + 1) <==> SmallerAt(x[1..], y[1..], i)
  {
    if i + 1 < |x| && i + 1 < |y| {
      assert x[..i + 1] == [x[0]] + x[1..][..i] && y[..i + 1] == [y[0]] + y[1..][..i];
      assert x[1..][..i] == x[..i + 1][1..] && y[1..][..i] == y[..i + 1][1..];
    }
  }

  lemma {:induction false} BeforeTail(x: seq<byte>, y: seq<byte>)
    requires x != [] && y != [] && x[0] == y[0]
    ensures Before(x, y) <==> Before(x[1..], y[1..])
  {
    if i :| SmallerAt(x, y, i) { SmallerLater(x, y, i - 1); }
    if i :| SmallerAt(x[1..], y[1..], i) { SmallerLater(x, y, i); }
    assert x == [x[0]] + x[1..] && y == [y[0]] + y[1..];
  }

  /** What the order is. */
  lemma {:induction false} OrderMeans(x: seq<byte>, y: seq<byte>)
    ensures Lexicographic(x, y) == Less <==> Before(x, y)
  {
    if x != [] && y != [] {
      if x[0] == y[0] {
        OrderMeans(x[1..], y[1..]);
        BeforeTail(x, y);
      } else if x[0] < y[0] {
        assert SmallerAt(x, y, 0);
      } else {
        forall i ensures !SmallerAt(x, y, i) {
          if 0 < i < |x| && i < |y| { assert x[..i][0] != y[..i][0]; }
        }
      }
    }
  }

  lemma {:induction false} OrderFlips(x: seq<byte>, y: seq<byte>)
    ensures Lexicographic(y, x) == Flipped(Lexicographic(x, y))
  {
    if x != [] && y != [] { OrderFlips(x[1..], y[1..]); }
  }

  lemma {:induction false} OrderTransitive(x: seq<byte>, y: seq<byte>, z: seq<byte>)
    requires Lexicographic(x, y) != Greater && Lexicographic(y, z) != Greater
    ensures Lexicographic(x, z) != Greater
    ensures Lexicographic(x, z) == Same ==> Lexicographic(x, y) == Same
  {
    if x != [] && y != [] && z != [] && x[0] == y[0] == z[0] {
      OrderTransitive(x[1..], y[1..], z[1..]);
    }
  }

  /** The same order with NULL, which has no bytes to compare, before every buffer. */
  function NullFirst(x: Option<seq<byte>>, y: Option<seq<byte>>): Order {
    if x.None? && y.None? then Same
    else if x.None? then Less
    else if y.None? then Greater
    else Lexicographic(x.value, y.value)
  }

  lemma {:induction false} NullFirstOrders(x: Option<seq<byte>>, y: Option<seq<byte>>, z: Option<seq<byte>>)
    ensures x.None? && y.Some? ==> NullFirst(x, y) == Less
    ensures NullFirst(x, y) == Same <==> x == y
    ensures NullFirst(y, x) == Flipped(NullFirst(x, y))
    ensures NullFirst(x, y) != Greater && NullFirst(y, z) != Greater ==> NullFirst(x, z) != Greater
  {
    if x.Some? && y.Some? {
      OrderSame(x.value, y.value);
      OrderFlips(x.value, y.value);
      if z.Some? && NullFirst(x, y) != Greater && NullFirst(y, z) != Greater {
        OrderTransitive(x.value, y.value, z.value);
      }
    }
  }

  /** Where the order is decided: the first difference, or the lengths. */
  lemma {:induction false} OrderAt(x: seq<byte>, y: seq<byte>, i: nat)
    requires i <= |x| && i <= |y| && x[..i] == y[..i]
    ensures Lexicographic(x, y) == Lexicographic(x[i..], y[i..])
  {
    if i > 0 {
      assert x[..i][0] == y[..i][0];
      assert x[1..][..i - 1] == x[..i][1..] && y[1..][..i - 1] == y[..i][1..];
      OrderAt(x[1..], y[1..], i - 1);
      assert x[1..][i - 1..] == x[i..] && y[1..][i - 1..] == y[i..];
    }
  }

  // Hash codes of buffers

  function BufferHash(content: seq<byte>): PARCHashCode {
    if content == [] then 0 else Hash(content, INITIAL_VALUE)
  }

  /** Buffers of equal length that differ in exactly one byte never share a hash code. */
  lemma {:induction false} OneByteApart(x: seq<byte>, i: nat, c: byte)
    requires i < |x| && x[i] != c
    ensures BufferHash(x) != BufferHash(x[i := c])
  {
    OneByteChangesHash(x, i, c, INITIAL_VALUE);
  }

  /** `s` with `bytes` written over it from `p` on. */
  ghost function Overwritten(s: seq<byte>, p: nat, bytes: seq<byte>): (r: seq<byte>)
    requires p + |bytes| <= |s|
    ensures |r| == |s|
  {
    s[..p] + bytes + s[p + |bytes|..]
  }

  lemma {:induction false} OverwrittenNone(s: seq<byte>, p: nat)
    requires p <= |s|
    ensures Overwritten(s, p, []) == s
  {
  }

  lemma {:induction false} OverwrittenNext(s: seq<byte>, p: nat, bytes: seq<byte>, i: nat)
    requires p + |bytes| <= |s| && i < |bytes|
    ensures Overwritten(s, p, bytes[..i])[p + i := bytes[i]] == Overwritten(s, p, bytes[..i + 1])
  {
  }

  lemma {:induction false} OverwrittenPart(s: seq<byte>, p: nat, bytes: seq<byte>, a: nat)
    requires a <= p && p + |bytes| <= |s|
    ensures Overwritten(s, p, bytes)[a..p + |bytes|] == s[a..p] + bytes
  {
  }

  lemma {:induction false} OverwrittenKeeps(s: seq<byte>, p: nat, bytes: seq<byte>, from: nat, to: nat)
    requires p + |bytes| <= |s| && from <= to <= |s| && (to <= p || p + |bytes| <= from)
    ensures Overwritten(s, p, bytes)[from..to] == s[from..to]
  {
  }

  lemma {:induction false} SliceOfAll(data: array<byte>, from: nat, to: nat)
    requires from <= to <= data.Length
    ensures data[..][from..to] == data[from..to]
  {
  }

  class Buffer {
    var data: array<byte>
    var arrayOffset: nat
    var position: nat
    var limit: nat
    var capacity: nat

    ghost predicate Valid()
      reads this, data
    {
      position <= limit <= capacity && arrayOffset + capacity <= data.Length
    }

    /** The bytes between the position and the limit. */
    ghost function Content(): seq<byte>
      requires Valid()
      reads this, data
    {
      data[arrayOffset + position..arrayOffset + limit]
    }

    /** The bytes before the position. */
    ghost function Written(): seq<byte>
      requires Valid()
      reads this, data
    {
      data[arrayOffset..arrayOffset + position]
    }

    constructor Allocate(capacity: nat)
      ensures Valid() && fresh(data)
      ensures arrayOffset == 0 && position == 0 && limit == capacity == this.capacity
    {
      data := new byte[capacity](_ => 0);
      arrayOffset := 0;
      position := 0;
      limit := capacity;
      this.capacity := capacity;
    }

    constructor Wrap(data: array<byte>, arrayOffset: nat, position: nat, limit: nat, capacity: nat)
      requires position <= limit <= capacity && arrayOffset + capacity <= data.Length
      ensures Valid()
      ensures this.data == data && this.arrayOffset == arrayOffset && this.position == position
      ensures this.limit == limit && this.capacity == capacity
    {
      this.data, this.arrayOffset, this.position, this.limit, this.capacity :=
        data, arrayOffset, position, limit, capacity;
    }

    function Remaining(): (n: nat)
      requires Valid()
      reads this, data
      ensures n == |Content()|
    {
      limit - position
    }

    method SetPosition(newPosition: nat)
      requires Valid() && newPosition <= limit
      modifies this`position
      ensures Valid() && position == newPosition
    {
      position := newPosition;
    }

    /** What was written becomes what remains. */
    method Flip()
      requires Valid()
      modifies this`position, this`limit
      ensures Valid() && position == 0 && limit == old(position)
      ensures Content() == old(Written())
    {
      limit := position;
      position := 0;
    }

    method PutUint8(value: byte)
      requires Valid() && Remaining() >= 1
      modifies this`position, data
      ensures Valid() && position == old(position) + 1
      ensures Written() == old(Written()) + [value]
      ensures Content() == old(Content())[1..]
    {
      data[arrayOffset + position] := value;
      position := position + 1;
    }

    method PutArray(bytes: seq<byte>)
      requires Valid() && Remaining() >= |bytes|
      modifies this`position, data
      ensures Valid() && position == old(position) + |bytes|
      ensures data[..] == Overwritten(old(data[..]), arrayOffset + old(position), bytes)
      ensures Written() == old(Written()) + bytes
    {
      ghost var s := data[..];
      var p := arrayOffset + position;
      OverwrittenNone(s, p);
      for i := 0 to |bytes|
        invariant position == old(position) && data[..] == Overwritten(s, p, bytes[..i])
      {
        OverwrittenNext(s, p, bytes, i);
        data[p + i] := bytes[i];
      }
      assert bytes[..|bytes|] == bytes;
      OverwrittenPart(s, p, bytes, arrayOffset);
      SetPosition(position + |bytes|);
    }

    /** The bytes to be read from the source and the place they are copied to do not overlap. */
    ghost predicate Apart(source: Buffer)
      reads this, source
    {
      source != this &&
      (source.data == data ==>
         || source.arrayOffset + source.limit <= arrayOffset + position
         || arrayOffset + position + source.limit - source.position <= source.arrayOffset + source.position)
    }

    /** The source keeps its position and its bytes. */
    method PutBuffer(source: Buffer)
      requires Valid() && source.Valid() && Apart(source)
      requires Remaining() >= source.Remaining()
      modifies this`position, data
      ensures Valid() && position == old(position) + source.Remaining()
      ensures Written() == old(Written()) + source.Content() && source.Content() == old(source.Content())
    {
      var from := source.arrayOffset + source.position;
      var to := from + source.Remaining();
      PutSlice(source.data, from, to);
    }

    /** parcByteArray_ArrayCopy to the position, and past it. */
    method PutSlice(source: array<byte>, from: nat, to: nat)
      requires Valid() && from <= to <= source.Length && Remaining() >= to - from
      requires source == data ==> to <= arrayOffset + position || arrayOffset + position + to - from <= from
      modifies this`position, data
      ensures Valid() && position == old(position) + to - from
      ensures Written() == old(Written()) + source[from..to] && source[from..to] == old(source[from..to])
    {
      var bytes := source[from..to];
      ghost var all, p := source[..], arrayOffset + position;
      PutArray(bytes);
      if source == data {
        OverwrittenKeeps(all, p, bytes, from, to);
        SliceOfAll(data, from, to);
      }
    }

    /** parcBuffer_PutUint16, PutUint32 and PutUint64, for 2, 4 and 8 bytes. */
    method PutUint(value: nat, size: nat)
      requires Valid() && size >= 1 && Remaining() >= size
      modifies this`position, data
      ensures Valid() && position == old(position) + size
      ensures Written() == old(Written()) + BigEndian(value, size)
    {
      var i := size - 1;
      while i > 0
        invariant 0 <= i < size && Valid() && position == old(position) + size - 1 - i
        invariant Written() == old(Written()) + BigEndian(value, size)[..size - 1 - i]
      {
        BigEndianDigit(value, size, size - 1 - i);
        PutUint8(Shifted(value, i) % 256);
        i := i - 1;
      }
      BigEndianDigit(value, size, size - 1);
      PutUint8(value % 256);
    }

    method GetUint8() returns (value: byte)
      requires Valid() && Remaining() >= 1
      modifies this`position
      ensures Valid() && position == old(position) + 1
      ensures value == old(Content())[0] && Content() == old(Content())[1..]
    {
      value := data[arrayOffset + position];
      position := position + 1;
    }

    /** parcBuffer_GetUint16, GetUint32 and GetUint64, for 2, 4 and 8 bytes. */
    method GetUint(size: nat) returns (value: nat)
      requires Valid() && Remaining() >= size
      modifies this`position
      ensures Valid() && position == old(position) + size
      ensures value == FromBigEndian(old(Content())[..size]) && Content() == old(Content())[size..]
    {
      value := 0;
      ghost var content := Content();
      for i := 0 to size
        invariant Valid() && position == old(position) + i && Content() == content[i..]
        invariant value == FromBigEndian(content[..i])
      {
        var b := GetUint8();
        assert content[..i + 1][..i] == content[..i];
        value := value * 256 + b;
      }
    }
  }

  /** `value >> (i * 8)` */
  function Shifted(value: nat, i: nat): nat {
    if i == 0 then value else Shifted(value / 256, i - 1)
  }

  lemma {:induction false} BigEndianDigit(value: nat, size: nat, k: nat)
    requires k < size
    ensures BigEndian(value, size)[k] == Shifted(value, size - 1 - k) % 256
  {
    if k < size - 1 {
      BigEndianDigit(value / 256, size - 1, k);
    }
  }

  ghost predicate NullOrValid(b: Buffer?)
    reads b, if b == null then {} else {b.data}
  {
    b != null ==> b.Valid()
  }

  /** The remaining bytes, or nothing for NULL. */
  ghost function ContentOf(b: Buffer?): Option<seq<byte>>
    requires NullOrValid(b)
    reads b, if b == null then {} else {b.data}
  {
    if b == null then None else Some(b.Content())
  }

  /** parcBuffer_Compare */
  method Compare(x: Buffer?, y: Buffer?) returns (order: Order)
    requires NullOrValid(x) && NullOrValid(y)
    ensures order == NullFirst(ContentOf(x), ContentOf(y))
    ensures order == Less <==> y != null && (x == null || Before(x.Content(), y.Content()))
    ensures order == Greater <==> x != null && (y == null || Before(y.Content(), x.Content()))
  {
    NullFirstOrders(ContentOf(x), ContentOf(y), None);
    if x != null && y != null {
      OrderMeans(x.Content(), y.Content());
      OrderMeans(y.Content(), x.Content());
    }
    if x == y {
      return Same;
    }
    if x == null {
      return Less;
    }
    if y == null {
      return Greater;
    }
    order := CompareBytes(x, y);
  }

  /** memcmp over the common length, then the lengths. */
  method CompareBytes(x: Buffer, y: Buffer) returns (order: Order)
    requires x.Valid() && y.Valid()
    ensures order == Lexicographic(x.Content(), y.Content())
  {
    ghost var s, t := x.Content(), y.Content();
    var count := x.Remaining();
    if count > y.Remaining() {
      count := y.Remaining();
    }
    for i := 0 to count
      invariant s[..i] == t[..i]
    {
      var a, b := x.data[x.arrayOffset + x.position + i], y.data[y.arrayOffset + y.position + i];
      if a != b {
        OrderAt(s, t, i);
        return if a < b then Less else Greater;
      }
    }
    OrderAt(s, t, count);
    order := if x.Remaining() > y.Remaining() then Greater
             else if x.Remaining() < y.Remaining() then Less
             else Same;
  }

  /** parcBuffer_Equals holds exactly for buffers with the same remaining bytes, and for NULL with itself. */
  method Equals(x: Buffer?, y: Buffer?) returns (equal: bool)
    requires NullOrValid(x) && NullOrValid(y)
    ensures equal <==> ContentOf(x) == ContentOf(y)
  {
    if x == y {
      return true;
    }
    if x == null || y == null {
      return false;
    }
    NullFirstOrders(ContentOf(x), ContentOf(y), None);
    var order := Compare(x, y);
    equal := order == Same;
  }

  method HashCodeOf(buffer: Buffer) returns (hash: PARCHashCode)
    requires buffer.Valid()
    ensures hash == BufferHash(buffer.Content())
    ensures buffer.Content() == [] ==> hash == 0
  {
    hash := 0;
    if buffer.Remaining() > 0 {
      var start := buffer.arrayOffset + buffer.position;
      hash := HashImpl(buffer.data[start..start + buffer.Remaining()], INITIAL_VALUE);
    }
  }
}
