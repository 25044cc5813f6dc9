/**
 parc_BitVector.c as it runs: bytes with a cached count of the ones and a cached first one, and set
 operations and shifts that change the vector while walking over it.
 */
module BitVectors {
  import opened Basics
  import opened Bytes
  import opened BitVectorSpec

  class BitVector {
    var bitArray: seq<byte>
    var bitLength: nat
    var numberOfBitsSet: nat
    var firstBitSet: nat
    var fillValue: byte

    /** The set the vector represents. */
    ghost function Members(): set<nat>
      reads this
    {
      Bits(bitArray)
    }

    ghost predicate Shape()
      reads this
    {
      bitLength == 8 * |bitArray| && bitLength <= MAX_BIT_VECTOR_INDEX && fillValue == 0
    }

    ghost predicate Valid()
      reads this
    {
      Shape() && numberOfBitsSet == Count(Members()) && IsFirst(Members(), firstBitSet)
    }

    constructor ()
      ensures Valid() && Members() == {} && bitLength == 8
    {
      bitArray := [0];
      bitLength := 8;
      numberOfBitsSet := 0;
      firstBitSet := UNSET;
      fillValue := 0;
      new;
      ZeroesAreEmpty([], 1);
      assert bitArray == [] + seq(1, _ => 0 as byte);
    }

    constructor Copy(source: BitVector)
      requires source.Valid()
      ensures Valid() && Members() == source.Members() && bitLength == source.bitLength
    {
      bitArray := source.bitArray[..source.bitLength / 8];
      bitLength := source.bitLength;
      numberOfBitsSet := source.numberOfBitsSet;
      firstBitSet := source.firstBitSet;
      fillValue := source.fillValue;
      new;
      assert bitArray == source.bitArray;
    }

    /** _parc_bit_vector_resize */
    method Resize(bit: nat)
      requires Shape() && bit < 8192
      modifies this`bitArray, this`bitLength
      ensures Shape() && Members() == old(Members())
      ensures bitLength == if bit < old(bitLength) then old(bitLength) else 8 * (bit / 8 + 1)
    {
      var neededBits := bit + 1;
      if neededBits > bitLength {
        var newSize := neededBits / 8 + if neededBits % 8 != 0 then 1 else 0;
        var oldSize := bitLength / 8 + if bitLength % 8 != 0 then 1 else 0;
        var fill := fillValue;
        ZeroesAreEmpty(bitArray, newSize - oldSize);
        bitArray := bitArray + seq(newSize - oldSize, _ => fill);
        assert bitArray == old(bitArray) + seq(newSize - oldSize, _ => 0 as byte);
        bitLength := newSize * 8;
      }
    }

    /** parcBitVector_Get of an existing vector: -1 beyond the allocated bits, otherwise the bit. */
    method BitAt(bit: nat) returns (value: int)
      requires Shape() && bit < 8192
      ensures value == 1 <==> bit in Members()
      ensures value == -1 <==> bit >= bitLength
      ensures value in {-1, 0, 1}
    {
      if bit >= bitLength {
        return -1;
      }
      value := if BitOf(bitArray[bit / 8], bit % 8) then 1 else 0;
    }

    method NextBitSet(startFrom: nat) returns (next: nat)
      requires Shape() && (startFrom <= firstBitSet ==> IsFirst(Members(), firstBitSet))
      ensures IsNext(Members(), startFrom, next)
      ensures next == 0xFFFF_FFFF <==> forall x :: x in Members() ==> x < startFrom
      ensures next != UNSET ==> next < bitLength
    {
      if startFrom >= bitLength {
        return UNSET;
      }
      if startFrom <= firstBitSet {
        return firstBitSet;
      }
      var at: nat := startFrom / 8;
      var bitInByte: nat := startFrom % 8;
      var allocatedBytes := bitLength / 8;
      while at < allocatedBytes
        invariant at <= allocatedBytes && bitInByte < 8
        invariant startFrom <= 8 * at + bitInByte
        invariant forall x :: x in Members() && startFrom <= x ==> 8 * at + bitInByte <= x
      {
        if bitArray[at] != 0 {
          while bitInByte < 8
            invariant bitInByte <= 8
            invariant startFrom <= 8 * at + bitInByte
            invariant forall x :: x in Members() && startFrom <= x ==> 8 * at + bitInByte <= x
          {
            if BitOf(bitArray[at], bitInByte) {
              assert Bit(bitArray, 8 * at + bitInByte);
              return 8 * at + bitInByte;
            }
            assert !Bit(bitArray, 8 * at + bitInByte);
            bitInByte := bitInByte + 1;
          }
        } else {
          ZeroByteSkipped(bitArray, at);
        }
        at := at + 1;
        bitInByte := 0;
      }
      next := UNSET;
    }

    /** Turn an allocated bit on and count it. */
    method TurnOn(bit: nat)
      requires Shape() && bit < bitLength
      modifies this`bitArray, this`numberOfBitsSet
      ensures Shape() && Members() == old(Members()) + {bit}
      ensures numberOfBitsSet == old(numberOfBitsSet) + if bit in old(Members()) then 0 else 1
    {
      CountInsert(Members(), bit);
      if !Bit(bitArray, bit) {
        bitArray := WithBit(bitArray, bit);
        numberOfBitsSet := numberOfBitsSet + 1;
      } else {
        assert Members() + {bit} == Members();
      }
    }

    /** Turn an allocated bit off and stop counting it. */
    method TurnOff(bit: nat)
      requires Shape() && bit < bitLength && numberOfBitsSet == Count(Members())
      modifies this`bitArray, this`numberOfBitsSet
      ensures Shape() && Members() == old(Members()) - {bit}
      ensures numberOfBitsSet == Count(Members())
    {
      CountInsert(Members(), bit);
      if Bit(bitArray, bit) {
        assert bit in Members();
        bitArray := WithoutBit(bitArray, bit);
        numberOfBitsSet := numberOfBitsSet - 1;
      } else {
        assert Members() - {bit} == Members();
      }
    }

    method Set(bit: nat)
      requires Valid() && bit < 8192
      modifies this
      ensures Valid() && Members() == old(Members()) + {bit}
      ensures bitLength == if bit < old(bitLength) then old(bitLength) else 8 * (bit / 8 + 1)
    {
      if bit >= bitLength {
        Resize(bit);
      }
      MembersBelow(bitArray);
      TurnOn(bit);
      CountInsert(old(Members()), bit);
      FirstAfterInsert(old(Members()), firstBitSet, bit);
      if firstBitSet == UNSET || bit < firstBitSet {
        firstBitSet := bit;
      }
    }

    /** At `bit == bitLength` the source reads and writes past its allocation. */
    method Clear(bit: nat)
      requires Valid() && bit < 8192 && bit != bitLength
      modifies this
      ensures Valid() && Members() == old(Members()) - {bit}
      ensures bitLength == if bit < old(bitLength) then old(bitLength) else 8 * (bit / 8 + 1)
    {
      if bit > bitLength {
        Resize(bit);
      }
      MembersBelow(bitArray);
      TurnOff(bit);
      if bit == firstBitSet {
        firstBitSet := NextBitSet(bit + 1);
      }
      FirstAfterDelete(old(Members()), old(firstBitSet), bit, firstBitSet);
    }

    method Reset()
      requires Shape()
      modifies this
      ensures Valid() && Members() == {}
    {
      numberOfBitsSet := 0;
      firstBitSet := UNSET;
      fillValue := 0;
      bitArray := seq(bitLength / 8, _ => 0 as byte);
      ZeroesAreEmpty([], bitLength / 8);
      assert bitArray == [] + seq(bitLength / 8, _ => 0 as byte);
    }

    /** The next member from `k` on, when fewer than all members lie below `k`. */
    method WalkOn(k: nat) returns (next: nat)
      requires Valid() && Count(Below(Members(), k)) < numberOfBitsSet
      ensures next in Members() && next < bitLength && IsNext(Members(), k, next) && next != UNSET
      ensures Below(Members(), next + 1) == Below(Members(), k) + {next}
      ensures Count(Below(Members(), next + 1)) == Count(Below(Members(), k)) + 1
    {
      next := NextBitSet(k);
      WalkStep(Members(), k, next);
    }

    /** One round of parcBitVector_SetVector, whose operands may be the same vector. */
    method SetNext(from: BitVector, k: nat, ghost a: set<nat>, ghost s: set<nat>) returns (next: nat)
      requires Valid() && from.Valid() && from.Members() == s && Count(Below(s, k)) < from.numberOfBitsSet
      requires Members() == a + Below(s, k) && (from == this ==> a == s)
      modifies this
      ensures Valid() && from.Valid() && from.Members() == s
      ensures Members() == a + Below(s, next + 1) && Count(Below(s, next + 1)) == Count(Below(s, k)) + 1
    {
      next := from.WalkOn(k);
      SetOne(k, next, a, s);
    }

    /** Set the member that a walk over `s` has reached. */
    method SetOne(k: nat, next: nat, ghost a: set<nat>, ghost s: set<nat>)
      requires Valid() && Members() == a + Below(s, k)
      requires IsNext(s, k, next) && next < MAX_BIT_VECTOR_INDEX
      modifies this
      ensures Valid() && Members() == a + Below(s, next + 1)
      ensures a == s ==> Members() == s
    {
      WalkStep(s, k, next);
      UnionStep(a, s, k, next);
      Set(next);
    }

    method SetVector(bitsToSet: BitVector)
      requires Valid() && bitsToSet.Valid()
      modifies this
      ensures Valid() && Members() == old(Members()) + old(bitsToSet.Members())
    {
      var settingBit: nat := 0;
      var i := 0;
      ghost var source := bitsToSet.Members();
      assert Below(source, 0) == {};
      while i < bitsToSet.numberOfBitsSet
        invariant Valid() && bitsToSet.Valid() && bitsToSet.Members() == source
        invariant Members() == old(Members()) + Below(source, settingBit)
        invariant i == Count(Below(source, settingBit))
        decreases Count(source) - i
      {
        var next: nat := SetNext(bitsToSet, settingBit, old(Members()), source);
        settingBit := next + 1;
        i := i + 1;
      }
      WalkEnds(source, settingBit);
    }

    /** The loop of parcBitVector_Or: set every bit of `source`. */
    method SetEach(source: BitVector)
      requires Valid() && source.Valid() && source != this
      modifies this
      ensures Valid() && Members() == old(Members()) + source.Members()
    {
      var bit: nat := 0;
      ghost var s := source.Members();
      MembersBounded(source.bitArray);
      assert Below(s, 0) == {};
      var next: nat := source.NextBitSet(bit);
      while next != UNSET
        invariant Valid() && IsNext(s, bit, next)
        invariant Members() == old(Members()) + Below(s, bit)
        decreases UNSET - bit
      {
        SetOne(bit, next, old(Members()), s);
        bit := next + 1;
        next := source.NextBitSet(bit);
      }
      WalkStep(s, bit, next);
    }

    /** The loop of parcBitVector_And: set every bit of `first` that `second` has. */
    method SetCommon(first: BitVector, second: BitVector)
      requires Valid() && Members() == {} && first.Valid() && second.Valid() && first != this && second != this
      modifies this
      ensures Valid() && Members() == first.Members() * second.Members()
    {
      var bit: nat := 0;
      ghost var s, t := first.Members(), second.Members();
      MembersBounded(first.bitArray);
      var next: nat := first.NextBitSet(bit);
      while next != UNSET
        invariant Valid() && IsNext(s, bit, next)
        invariant Members() == Below(s, bit) * t
        decreases UNSET - bit
      {
        WalkStep(s, bit, next);
        var common := second.BitAt(next);
        if common == 1 {
          Set(next);
        }
        bit := next + 1;
        next := first.NextBitSet(bit);
      }
      WalkStep(s, bit, next);
    }

    method ClearOne(k: nat, next: nat, ghost a: set<nat>, ghost s: set<nat>)
      requires Valid() && Members() == a - Below(s, k)
      requires IsNext(s, k, next) && next < bitLength
      modifies this
      ensures Valid() && Members() == a - Below(s, next + 1)
    {
      WalkStep(s, k, next);
      DifferenceStep(a, s, k, next);
      Clear(next);
    }

    method ClearVector(bitsToClear: BitVector)
      requires Valid() && bitsToClear.Valid()
      modifies this
      ensures Valid() && Members() == old(Members()) - old(bitsToClear.Members())
    {
      if this == bitsToClear {
        Reset();
        return;
      }
      var clearingBit: nat := 0;
      ghost var source := bitsToClear.Members();
      for i := 0 to bitsToClear.numberOfBitsSet
        invariant Valid() && bitsToClear.Valid() && bitsToClear.Members() == source
        invariant Members() == old(Members()) - Below(source, clearingBit)
        invariant i == Count(Below(source, clearingBit))
      {
        var next: nat := bitsToClear.WalkOn(clearingBit);
        if next >= bitLength {
          MembersBounded(bitArray);
          DifferenceEnds(old(Members()), source, clearingBit, next);
          return;
        }
        ClearOne(clearingBit, next, old(Members()), source);
        clearingBit := next + 1;
      }
      WalkEnds(source, clearingBit);
    }

    method Contains(testVector: BitVector) returns (result: bool)
      requires Valid() && testVector.Valid()
      ensures result <==> testVector.Members() <= Members()
    {
      result := true;
      var testBit: nat := 0;
      ghost var source := testVector.Members();
      MembersBounded(testVector.bitArray);
      for i := 0 to testVector.numberOfBitsSet
        invariant result && Below(source, testBit) <= Members()
        invariant i == Count(Below(source, testBit))
      {
        var next: nat := testVector.WalkOn(testBit);
        var bit := BitAt(next);
        if bit != 1 {
          return false;
        }
        testBit := next + 1;
      }
      WalkEnds(source, testBit);
    }

    /** Counts, first bits and the bytes both vectors have. */
    method Equals(other: BitVector) returns (equal: bool)
      requires Valid() && other.Valid()
      ensures equal <==> Members() == other.Members()
    {
      equal := numberOfBitsSet == other.numberOfBitsSet && firstBitSet == other.firstBitSet;
      if equal {
        var byteLength := bitLength / 8;
        if bitLength != other.bitLength && other.bitLength < bitLength {
          byteLength := other.bitLength / 8;
        }
        equal := bitArray[..byteLength] == other.bitArray[..byteLength];
        CountIsSize(Members());
        CountIsSize(other.Members());
        CommonPrefixDecides(bitArray, other.bitArray, byteLength);
      } else {
        SameSetSameFirst(Members(), firstBitSet, other.firstBitSet);
      }
    }

    /** The body of _parcBitVector_LeftShiftOnce's loop: bit 0 falls off. */
    method MoveDown(bit: nat)
      requires Valid() && bit < bitLength
      modifies this
      ensures Valid() && Members() == (old(Members()) + if bit > 0 then {bit - 1} else {}) - {bit}
    {
      if bit > 0 {
        Set(bit - 1);
      }
      Clear(bit);
    }

    method LeftShiftOnce()
      requires Valid()
      modifies this
      ensures Valid() && Members() == Minus(old(Members()), 1)
    {
      ghost var s := Members();
      var bit: nat := 0;
      assert HalfLeft(s, 0) == s;
      var next: nat := NextBitSet(bit);
      while next != UNSET
        invariant Valid() && Members() == HalfLeft(s, bit) && IsNext(Members(), bit, next)
        invariant next != UNSET ==> next < bitLength
        decreases UNSET - bit
      {
        HalfLeftStep(s, bit, next);
        MoveDown(next);
        bit := next + 1;
        next := NextBitSet(bit);
      }
      HalfLeftStep(s, bit, next);
    }

    method LeftShift(count: nat)
      requires Valid()
      modifies this
      ensures Valid() && Members() == Minus(old(Members()), count)
    {
      assert Minus(Members(), 0) == Members();
      for i := 0 to count
        invariant Valid() && Members() == Minus(old(Members()), i)
      {
        LeftShiftOnce();
        MinusMinus(old(Members()), i);
      }
    }

    /** The first clear bit after `bit`; the source stops the program at the index limit. */
    method RunEnd(bit: nat, ghost zero: nat) returns (nextZero: nat)
      requires Valid() && bit in Members() && bit < zero < MAX_BIT_VECTOR_INDEX && zero !in Members()
      ensures bit < nextZero < MAX_BIT_VECTOR_INDEX && nextZero !in Members()
      ensures forall x: nat :: bit <= x < nextZero ==> x in Members()
    {
      nextZero := bit + 1;
      var value := BitAt(nextZero);
      while value == 1
        invariant bit < nextZero <= zero && (value == 1 <==> nextZero in Members())
        invariant forall x: nat :: bit <= x < nextZero ==> x in Members()
        decreases zero - nextZero
      {
        nextZero := nextZero + 1;
        value := BitAt(nextZero);
      }
    }

    /** Move the run `bit .. nextZero - 1` up by one, as the source does: clear its first bit, then set the rest. */
    method MoveRunUp(bit: nat, nextZero: nat)
      requires Valid() && bit < nextZero < MAX_BIT_VECTOR_INDEX && bit < bitLength
      modifies this
      ensures Valid() && Members() == (old(Members()) - {bit}) + Interval(bit + 1, nextZero - bit)
    {
      Clear(bit);
      SetRun(bit + 1, nextZero);
    }

    /** Set `first .. last` one by one. */
    method SetRun(first: nat, last: nat)
      requires Valid() && first <= last < MAX_BIT_VECTOR_INDEX
      modifies this
      ensures Valid() && Members() == old(Members()) + Interval(first, last + 1 - first)
    {
      ghost var s, n: nat := Members(), 0;
      IntervalStep(s, first, 0);
      var b := first;
      while b <= last
        invariant b == first + n && b <= last + 1 && Valid()
        invariant Members() == s + Interval(first, n)
      {
        IntervalStep(s, first, n);
        Set(b);
        b, n := b + 1, n + 1;
      }
    }

    /** Where the run that starts at `next` ends, and what moving it up will achieve. */
    method NextRunEnd(bit: nat, next: nat, ghost s: set<nat>) returns (nextZero: nat)
      requires Valid() && Members() == HalfRight(s, bit) && Resumes(s, bit)
      requires next != UNSET && next < bitLength && IsNext(Members(), bit, next) && CanShift(s)
      ensures bit <= next < nextZero < MAX_BIT_VECTOR_INDEX && Resumes(s, nextZero + 2)
      ensures (Members() - {next}) + Interval(next + 1, nextZero - next) == HalfRight(s, nextZero + 2)
    {
      ghost var zero := RunFits(s, bit, next);
      nextZero := RunEnd(next, zero);
      HalfRightRun(s, bit, next, nextZero);
      HalfRightStep(s, bit, next, nextZero);
    }

    /** One round of _parcBitVector_RightShiftOnce; the scan resumes one bit later than it should. */
    method MoveNextRun(bit: nat, next: nat, ghost s: set<nat>) returns (resume: nat)
      requires Valid() && Members() == HalfRight(s, bit) && Resumes(s, bit)
      requires next != UNSET && next < bitLength && IsNext(Members(), bit, next) && CanShift(s)
      modifies this
      ensures Valid() && Members() == HalfRight(s, resume) && Resumes(s, resume)
      ensures bit < resume < MAX_BIT_VECTOR_INDEX + 2
    {
      var nextZero := NextRunEnd(bit, next, s);
      MoveRunUp(next, nextZero);
      resume := nextZero + 2;
    }

    /** The source stops the program exactly when a bit would be moved to the index limit. */
    method RightShiftOnce()
      requires Valid() && CanShift(Members())
      modifies this
      ensures Valid() && Members() == RightShifted(old(Members()))
    {
      ghost var s := Members();
      var bit: nat := 0;
      assert HalfRight(s, 0) == s;
      var next: nat := NextBitSet(bit);
      while next != UNSET
        invariant Valid() && Resumes(s, bit) && Members() == HalfRight(s, bit) && IsNext(Members(), bit, next)
        invariant next != UNSET ==> next < bitLength
        decreases UNSET - bit
      {
        bit := MoveNextRun(bit, next, s);
        next := NextBitSet(bit);
      }
      HalfRightRest(s, bit);
      HalfRightEnds(s, bit);
    }

    /** Exact for gaps of two or more clear bits, see RightShiftExactIff. */
    method RightShift(count: nat)
      requires Valid() && AllBelow(RightShiftedBy(Members(), count), 8192)
      modifies this
      ensures Valid() && Members() == RightShiftedBy(old(Members()), count)
    {
      ghost var s := Members();
      for i := 0 to count
        invariant Valid() && RightShiftedBy(Members(), count - i) == RightShiftedBy(s, count)
      {
        RightShiftOnlyGrows(RightShifted(Members()), count - i - 1, MAX_BIT_VECTOR_INDEX);
        RightShiftOnlyGrows(Members(), 1, MAX_BIT_VECTOR_INDEX);
        RightShiftOnce();
      }
    }

    /** The cached count. */
    method NumberOfBitsSet() returns (n: nat)
      requires Valid()
      ensures n == |Members()|
    {
      CountIsSize(Members());
      n := numberOfBitsSet;
    }
  }

  /** A vector, or nothing for NULL. */
  ghost function MembersOf(v: BitVector?): set<nat>
    reads v
  {
    if v == null then {} else v.Members()
  }

  method Get(v: BitVector?, bit: nat) returns (value: int)
    requires (v != null ==> v.Shape()) && bit < 8192
    ensures value == 1 <==> bit in MembersOf(v)
    ensures value == -1 <==> v == null || bit >= v.bitLength
    ensures value in {-1, 0, 1}
  {
    if v == null {
      return -1;
    }
    value := v.BitAt(bit);
  }

  method Or(first: BitVector?, second: BitVector?) returns (result: BitVector)
    requires (first != null ==> first.Valid()) && (second != null ==> second.Valid())
    ensures fresh(result) && result.Valid()
    ensures result.Members() == MembersOf(first) + MembersOf(second)
  {
    if first != null {
      result := new BitVector.Copy(first);
      if second != null {
        result.SetEach(second);
      }
    } else if second != null {
      result := new BitVector.Copy(second);
    } else {
      result := new BitVector();
    }
  }

  method And(first: BitVector?, second: BitVector?) returns (result: BitVector)
    requires (first != null ==> first.Valid()) && (second != null ==> second.Valid())
    ensures fresh(result) && result.Valid()
    ensures result.Members() == MembersOf(first) * MembersOf(second)
  {
    result := new BitVector();
    if second == null {
      return;
    }
    if first != null {
      result.SetCommon(first, second);
    }
  }

  lemma {:induction false} SameSetSameFirst(s: set<nat>, f: nat, g: nat)
    ensures IsFirst(s, f) && IsFirst(s, g) ==> f == g
  {
  }

  /** Comparing only the bytes both arrays have is enough once the counts agree. */
  lemma {:induction false} CommonPrefixDecides(a: seq<byte>, b: seq<byte>, n: nat)
    requires n <= |a| && n <= |b| && (n == |a| || n == |b|) && |Bits(a)| == |Bits(b)|
    ensures a[..n] == b[..n] <==> Bits(a) == Bits(b)
  {
    PrefixBits(a, n);
    PrefixBits(b, n);
    if a[..n] == b[..n] {
      assert n == |a| ==> a[..n] == a && Bits(a) <= Bits(b);
      assert n == |b| ==> b[..n] == b && Bits(b) <= Bits(a);
      if n == |a| { SubsetSize(Bits(a), Bits(b)); } else { SubsetSize(Bits(b), Bits(a)); }
    } else if Bits(a) == Bits(b) {
      SameBitsSameBytes(a[..n], b[..n]);
    }
  }

  lemma {:induction false} MembersBounded(bytes: seq<byte>)
    ensures forall x :: x in Bits(bytes) ==> x < 8 * |bytes|
  {
  }

  lemma {:induction false} MembersBelow(bytes: seq<byte>)
    requires 8 * |bytes| <= MAX_BIT_VECTOR_INDEX
    ensures forall x :: x in Bits(bytes) ==> x < UNSET
  {
  }

  lemma {:induction false} ZeroByteSkipped(bytes: seq<byte>, n: nat)
    requires n < |bytes| && bytes[n] == 0
    ensures forall x :: x in Bits(bytes) && 8 * n <= x ==> 8 * n + 8 <= x
  {
    forall x | x in Bits(bytes) && 8 * n <= x ensures 8 * n + 8 <= x {
      ZeroHasNoBits(x % 8);
      assert Bit(bytes, x);
    }
  }
}
