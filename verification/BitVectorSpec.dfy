/** Bytes seen as sets of bit numbers, and the shifts of parc_BitVector.c as functions on sets. */
module BitVectorSpec {
  import opened Basics
  import opened Bytes

  const MAX_BIT_VECTOR_INDEX: nat := 8192

  /** `-1` as an unsigned int: no bit. */
  const UNSET: nat := 0xFFFF_FFFF

  // Bits of a byte array

  /** `b & (1 << i)`, as a truth value. */
  predicate BitOf(b: nat, i: nat) {
    if i == 0 then b % 2 == 1 else BitOf(b / 2, i - 1)
  }

  /** `b | (1 << i)` */
  function TurnedOn(b: byte, i: nat): (r: byte)
    requires i < 8
  {
    if BitOf(b, i) then b
    else
      Pow2Of8();
      OnStaysBelow(b, i, 8);
      b + Pow2(i)
  }

  /** `b & ~(1 << i)` */
  function TurnedOff(b: byte, i: nat): (r: byte)
    requires i < 8
  {
    if BitOf(b, i) then
      OffEffects(b, i, 0);
      b - Pow2(i)
    else b
  }

  lemma {:induction false} OnStaysBelow(b: nat, i: nat, n: nat)
    requires b < Pow2(n) && i < n && !BitOf(b, i)
    ensures b + Pow2(i) < Pow2(n)
  {
    if i > 0 { OnStaysBelow(b / 2, i - 1, n - 1); }
  }

  lemma {:induction false} OnEffects(b: nat, i: nat, j: nat)
    requires !BitOf(b, i)
    ensures BitOf(b + Pow2(i), j) <==> i == j || BitOf(b, j)
  {
    if i == 0 {
      assert (b + 1) / 2 == b / 2;
    } else {
      assert (b + Pow2(i)) / 2 == b / 2 + Pow2(i - 1) && (b + Pow2(i)) % 2 == b % 2;
      if j > 0 { OnEffects(b / 2, i - 1, j - 1); }
    }
  }

  lemma {:induction false} OffEffects(b: nat, i: nat, j: nat)
    requires BitOf(b, i)
    ensures b >= Pow2(i) && (BitOf(b - Pow2(i), j) <==> i != j && BitOf(b, j))
  {
    if i == 0 {
      assert (b - 1) / 2 == b / 2;
    } else {
      OffEffects(b / 2, i - 1, if j > 0 then j - 1 else 0);
      assert (b - Pow2(i)) / 2 == b / 2 - Pow2(i - 1) && (b - Pow2(i)) % 2 == b % 2;
    }
  }

  lemma {:induction false} ZeroHasNoBits(i: nat)
    ensures !BitOf(0, i)
  {
    if i > 0 { ZeroHasNoBits(i - 1); }
  }

  lemma {:induction false} SameBitsSameByte(a: nat, b: nat, n: nat)
    requires a < Pow2(n) && b < Pow2(n) && forall i: nat :: i < n ==> (BitOf(a, i) <==> BitOf(b, i))
    ensures a == b
  {
    if n > 0 {
      forall i: nat | i < n - 1 ensures BitOf(a / 2, i) <==> BitOf(b / 2, i) {
        assert BitOf(a, i + 1) <==> BitOf(b, i + 1);
      }
      SameBitsSameByte(a / 2, b / 2, n - 1);
      assert BitOf(a, 0) <==> BitOf(b, 0);
    }
  }

  predicate Bit(bytes: seq<byte>, i: nat)
    requires i < 8 * |bytes|
  {
    BitOf(bytes[i / 8], i % 8)
  }

  ghost function Bits(bytes: seq<byte>): set<nat> {
    set i: nat | i < 8 * |bytes| && Bit(bytes, i)
  }

  /** `bytes[i / 8] |= 1 << (i % 8)` */
  function WithBit(bytes: seq<byte>, i: nat): (r: seq<byte>)
    requires i < 8 * |bytes|
    ensures |r| == |bytes| && Bits(r) == Bits(bytes) + {i}
  {
    var r := bytes[i / 8 := TurnedOn(bytes[i / 8], i % 8)];
    assert forall j: nat {:trigger Bit(r, j)} :: j < 8 * |bytes| ==> (Bit(r, j) <==> i == j || Bit(bytes, j)) by {
      forall j: nat | j < 8 * |bytes| ensures Bit(r, j) <==> i == j || Bit(bytes, j) {
        if !Bit(bytes, i) { OnEffects(bytes[i / 8], i % 8, j % 8); }
      }
    }
    r
  }

  /** `bytes[i / 8] &= ~(1 << (i % 8))` */
  function WithoutBit(bytes: seq<byte>, i: nat): (r: seq<byte>)
    requires i < 8 * |bytes|
    ensures |r| == |bytes| && Bits(r) == Bits(bytes) - {i}
  {
    var r := bytes[i / 8 := TurnedOff(bytes[i / 8], i % 8)];
    assert forall j: nat {:trigger Bit(r, j)} :: j < 8 * |bytes| ==> (Bit(r, j) <==> i != j && Bit(bytes, j)) by {
      forall j: nat | j < 8 * |bytes| ensures Bit(r, j) <==> i != j && Bit(bytes, j) {
        if Bit(bytes, i) { OffEffects(bytes[i / 8], i % 8, j % 8); }
      }
    }
    r
  }

  lemma {:induction false} ZeroesAreEmpty(bytes: seq<byte>, n: nat)
    ensures Bits(bytes + seq(n, _ => 0 as byte)) == Bits(bytes)
  {
    var r := bytes + seq(n, _ => 0 as byte);
    forall j: nat | j < 8 * |r| ensures Bit(r, j) <==> j < 8 * |bytes| && Bit(bytes, j) {
      ZeroHasNoBits(j % 8);
    }
  }

  lemma {:induction false} PrefixBits(bytes: seq<byte>, n: nat)
    requires n <= |bytes|
    ensures Bits(bytes[..n]) == set i | i in Bits(bytes) && i < 8 * n
  {
    forall i: nat | i < 8 * n ensures Bit(bytes[..n], i) <==> Bit(bytes, i) {
    }
  }

  lemma {:induction false} SameBitsSameBytes(a: seq<byte>, b: seq<byte>)
    requires |a| == |b| && Bits(a) == Bits(b)
    ensures a == b
  {
    forall n | 0 <= n < |a| ensures a[n] == b[n] {
      forall i: nat | i < 8 ensures BitOf(a[n], i) <==> BitOf(b[n], i) {
        assert 8 * n + i in Bits(a) <==> Bit(a, 8 * n + i);
        assert 8 * n + i in Bits(b) <==> Bit(b, 8 * n + i);
      }
      Pow2Of8();
      SameBitsSameByte(a[n], b[n], 8);
    }
  }

  // First and next members

  ghost predicate IsFirst(s: set<nat>, f: nat) {
    if s == {} then f == UNSET else f in s && forall x :: x in s ==> f <= x
  }

  /** `r` is the least member from `k` on, or UNSET. */
  ghost predicate IsNext(s: set<nat>, k: nat, r: nat) {
    if r == UNSET then forall x :: x in s ==> x < k
    else r in s && k <= r && forall x :: x in s && k <= x ==> r <= x
  }

  lemma {:induction false} FirstAfterInsert(s: set<nat>, f: nat, b: nat)
    requires IsFirst(s, f) && b < UNSET && forall x :: x in s ==> x < UNSET
    ensures IsFirst(s + {b}, if f == UNSET || b < f then b else f)
  {
  }

  lemma {:induction false} FirstAfterDelete(s: set<nat>, f: nat, b: nat, next: nat)
    requires IsFirst(s, f) && forall x :: x in s ==> x < UNSET
    requires if b == f then IsNext(s - {b}, b + 1, next) else next == f
    ensures IsFirst(s - {b}, next)
  {
    if b == f {
      assert forall x :: x in s - {b} ==> b + 1 <= x;
    } else if s != {} {
      assert f in s - {b};
    }
  }

  /** The number of members, counted one by one: CountIsSize makes it `|s|`, without the laws of cardinality in every proof. */
  ghost function Count(s: set<nat>): nat {
    if s == {} then 0
    else
      var x :| x in s;
      1 + Count(s - {x})
  }

  lemma {:induction false} CountIsSize(s: set<nat>)
    ensures Count(s) == |s|
  {
    if s != {} {
      var x :| x in s && Count(s) == 1 + Count(s - {x});
      CountIsSize(s - {x});
    }
  }

  lemma {:induction false} CountInsert(s: set<nat>, b: nat)
    ensures Count(s + {b}) == Count(s) + if b in s then 0 else 1
    ensures Count(s - {b}) == Count(s) - if b in s then 1 else 0
  {
    CountIsSize(s);
    CountIsSize(s + {b});
    CountIsSize(s - {b});
    if b in s { assert s + {b} == s; } else { assert s - {b} == s; }
  }

  // Walking over a set from member to member

  ghost function Below(s: set<nat>, k: nat): set<nat> {
    set x | x in s && x < k
  }

  ghost function From(s: set<nat>, k: nat): set<nat> {
    set x | x in s && k <= x
  }

  lemma {:induction false} WalkStep(s: set<nat>, k: nat, next: nat)
    requires IsNext(s, k, next)
    ensures if next == UNSET then Below(s, k) == s
            else Below(s, next + 1) == Below(s, k) + {next} && Count(Below(s, next + 1)) == Count(Below(s, k)) + 1
    ensures Count(Below(s, k)) < Count(s) ==> next != UNSET
  {
    if next != UNSET { CountInsert(Below(s, k), next); }
  }

  lemma {:induction false} UnionStep(a: set<nat>, s: set<nat>, k: nat, next: nat)
    requires next in s && Below(s, next + 1) == Below(s, k) + {next}
    ensures (a + Below(s, k)) + {next} == a + Below(s, next + 1)
    ensures a == s ==> a + Below(s, next + 1) == s
  {
  }

  lemma {:induction false} DifferenceStep(a: set<nat>, s: set<nat>, k: nat, next: nat)
    requires next in s && Below(s, next + 1) == Below(s, k) + {next}
    ensures (a - Below(s, k)) - {next} == a - Below(s, next + 1)
  {
  }

  /** Nothing more is taken away once the walk has passed every remaining member. */
  lemma {:induction false} DifferenceEnds(a: set<nat>, s: set<nat>, k: nat, next: nat)
    requires IsNext(s, k, next) && next != UNSET && forall x :: x in a - Below(s, k) ==> x < next
    ensures a - Below(s, k) == a - s
  {
  }

  lemma {:induction false} WalkEnds(s: set<nat>, k: nat)
    ensures Count(Below(s, k)) >= Count(s) <==> Below(s, k) == s
  {
    CountIsSize(s);
    CountIsSize(Below(s, k));
    SubsetSize(Below(s, k), s);
  }

  // Shifts on sets

  ghost function Minus(s: set<nat>, n: nat): set<nat> {
    set b | b in s && n <= b :: b - n
  }

  ghost function Plus(s: set<nat>, n: nat): set<nat> {
    set b | b in s :: b + n
  }

  /**
   The bits that one right shift leaves where they are: a run of ones that starts one clear bit after
   a run that was moved loses its first bit to the skip.
   */
  ghost predicate Skipped(s: set<nat>, q: nat) {
    q >= 2 && q in s && q - 1 !in s && q - 2 in s && !Skipped(s, q - 2)
  }

  ghost function Move(s: set<nat>, q: nat): nat {
    if Skipped(s, q) then q else q + 1
  }

  /** What one right shift does, for every set. */
  ghost function RightShifted(s: set<nat>): set<nat> {
    set q | q in s :: Move(s, q)
  }

  ghost function RightShiftedBy(s: set<nat>, n: nat): set<nat>
    decreases n
  {
    if n == 0 then s else RightShiftedBy(RightShifted(s), n - 1)
  }

  /** Two runs of ones with exactly one clear bit between them. */
  ghost predicate OneBitGap(s: set<nat>) {
    exists q: nat :: GapAt(s, q)
  }

  ghost predicate GapAt(s: set<nat>, q: nat) {
    q in s && q + 1 !in s && q + 2 in s
  }

  lemma {:induction false} MinusMinus(s: set<nat>, n: nat)
    ensures Minus(Minus(s, n), 1) == Minus(s, n + 1)
  {
    forall x ensures x in Minus(s, n + 1) ==> x in Minus(Minus(s, n), 1) {
      if x in Minus(s, n + 1) {
        assert x + 1 + n in s && x + 1 in Minus(s, n);
      }
    }
  }

  /** The set in the middle of a left shift by one: moved below `bit`, untouched from `bit` on. */
  ghost function HalfLeft(s: set<nat>, bit: nat): set<nat> {
    Minus(Below(s, bit), 1) + From(s, bit)
  }

  lemma {:induction false} HalfLeftStep(s: set<nat>, bit: nat, next: nat)
    requires IsNext(HalfLeft(s, bit), bit, next)
    ensures if next == UNSET then HalfLeft(s, bit) == Minus(s, 1)
            else (HalfLeft(s, bit) + if next > 0 then {next - 1} else {}) - {next} == HalfLeft(s, next + 1)
  {
    assert forall x :: x in HalfLeft(s, bit) && bit <= x <==> x in s && bit <= x;
    if next == UNSET {
      assert From(s, bit) == {} && Below(s, bit) == s;
    } else {
      WalkStep(s, bit, next);
      assert Below(s, next + 1) == Below(s, bit) + {next};
      assert From(s, next + 1) == From(s, bit) - {next};
      assert Minus(Below(s, bit) + {next}, 1) == Minus(Below(s, bit), 1) + if next > 0 then {next - 1} else {} by {
        forall x | x in Minus(Below(s, bit), 1) ensures x in Minus(Below(s, bit) + {next}, 1) {
          assert x + 1 in Below(s, bit) + {next};
        }
        if next > 0 { assert next in Below(s, bit) + {next} && next - 1 in Minus(Below(s, bit) + {next}, 1); }
      }
      assert next !in Minus(Below(s, bit), 1);
    }
  }

  lemma {:induction false} PlusPlus(s: set<nat>, n: nat)
    ensures Plus(Plus(s, 1), n) == Plus(s, n + 1)
  {
    forall x | x in s ensures x + n + 1 in Plus(Plus(s, 1), n) {
      assert x + 1 in Plus(s, 1);
    }
  }

  // One right shift, step by step

  /** `a`, `a + 1`, ..., `a + n - 1` */
  ghost function Interval(a: nat, n: nat): (r: set<nat>)
    ensures forall x :: x in r <==> a <= x < a + n
  {
    if n == 0 then {} else Interval(a, n - 1) + {a + n - 1}
  }

  lemma {:induction false} IntervalStep(s: set<nat>, a: nat, n: nat)
    ensures (s + Interval(a, n)) + {a + n} == s + Interval(a, n + 1)
    ensures s + Interval(a, 0) == s
  {
  }

  lemma {:induction false} InRightShifted(s: set<nat>, y: nat)
    ensures y in RightShifted(s) <==> Skipped(s, y) || (y >= 1 && y - 1 in s && !Skipped(s, y - 1))
  {
    if y >= 1 && y - 1 in s && !Skipped(s, y - 1) {
      assert Move(s, y - 1) == y;
    }
    if Skipped(s, y) {
      assert Move(s, y) == y;
    }
  }

  /** The set in the middle of a right shift by one: final below `bit`, untouched from `bit` on. */
  ghost function HalfRight(s: set<nat>, bit: nat): set<nat> {
    Below(RightShifted(s), bit) + From(s, bit)
  }

  /** Where the scan resumes: two past the last run's end, so the bit just before was skipped if set. */
  ghost predicate Resumes(s: set<nat>, bit: nat) {
    bit == 0 || (bit >= 2 && bit - 2 !in s && (bit - 1 in s ==> Skipped(s, bit - 1)))
  }

  /** `r..z-1` is the first run of ones from `bit` on. */
  ghost predicate FirstRun(s: set<nat>, bit: nat, r: nat, z: nat) {
    bit <= r < z && z !in s && (forall x :: x in s && bit <= x ==> r <= x) && (forall x: nat :: r <= x < z ==> x in s)
  }

  lemma {:induction false} RunIsNotSkipped(s: set<nat>, bit: nat, r: nat, z: nat)
    requires Resumes(s, bit) && FirstRun(s, bit, r, z)
    ensures forall x: nat :: r <= x < z ==> x in s && !Skipped(s, x)
    ensures z + 1 in s ==> Skipped(s, z + 1)
  {
    assert r in s && !Skipped(s, r) by {
      if r >= 2 && r - 2 in s {
        assert r - 2 < bit;
      }
    }
    forall x: nat | r < x < z ensures !Skipped(s, x) {
      assert x - 1 in s;
    }
    assert z - 1 in s && !Skipped(s, z - 1);
  }

  /** Moving one run settles every position below the next scan start. */
  lemma {:induction false} RunMoved(s: set<nat>, bit: nat, r: nat, z: nat, y: nat)
    requires Resumes(s, bit) && FirstRun(s, bit, r, z) && bit <= y <= z + 1
    ensures y in RightShifted(s) <==> (y in s && y != r) || r < y <= z
  {
    RunIsNotSkipped(s, bit, r, z);
    InRightShifted(s, y);
    if y <= r {
      assert y >= 1 && y - 1 in s ==> y - 1 < bit;
    } else if y <= z {
      assert y - 1 in s && !Skipped(s, y - 1);
    }
  }

  lemma {:induction false} HalfRightStep(s: set<nat>, bit: nat, r: nat, z: nat)
    requires Resumes(s, bit) && FirstRun(s, bit, r, z)
    ensures Resumes(s, z + 2)
    ensures (HalfRight(s, bit) - {r}) + Interval(r + 1, z - r) == HalfRight(s, z + 2)
  {
    RunIsNotSkipped(s, bit, r, z);
    var next := (HalfRight(s, bit) - {r}) + Interval(r + 1, z - r);
    forall y | y in next ensures y in HalfRight(s, z + 2) {
      if bit <= y <= z + 1 { RunMoved(s, bit, r, z, y); }
    }
    forall y | y in HalfRight(s, z + 2) ensures y in next {
      if bit <= y <= z + 1 { RunMoved(s, bit, r, z, y); }
    }
  }

  ghost predicate AllBelow(s: set<nat>, bound: nat) {
    forall x :: x in s ==> x < bound
  }

  lemma {:induction false} ShiftedBelow(s: set<nat>, bit: nat)
    requires Resumes(s, bit) && AllBelow(s, bit)
    ensures AllBelow(RightShifted(s), bit)
  {
    forall y | y in RightShifted(s) ensures y < bit {
      InRightShifted(s, y);
      if !Skipped(s, y) { assert y - 1 in s; }
    }
  }

  lemma {:induction false} HalfRightEnds(s: set<nat>, bit: nat)
    requires Resumes(s, bit) && From(s, bit) == {}
    ensures HalfRight(s, bit) == RightShifted(s)
  {
    assert AllBelow(s, bit) by {
      forall x | x in s ensures x < bit {
        assert x !in From(s, bit);
      }
    }
    ShiftedBelow(s, bit);
    var a := RightShifted(s);
    assert Below(a, bit) == a;
  }

  /** No bit is moved to the index limit, where the source stops the program. */
  ghost predicate CanShift(s: set<nat>) {
    AllBelow(RightShifted(s), 8192)
  }

  /** Whatever the bound, a set whose right shift stays below it is below it itself. */
  lemma {:induction false} RightShiftOnlyGrows(s: set<nat>, n: nat, bound: nat)
    requires AllBelow(RightShiftedBy(s, n), bound)
    ensures AllBelow(s, bound)
    decreases n
  {
    assert RightShiftedBy(s, n) == if n == 0 then s else RightShiftedBy(RightShifted(s), n - 1);
    if n > 0 {
      RightShiftOnlyGrows(RightShifted(s), n - 1, bound);
      forall x | x in s ensures x < bound {
        assert Move(s, x) in RightShifted(s);
      }
    }
  }

  lemma {:induction false} RunToTop(s: set<nat>, bit: nat, r: nat, z: nat)
    requires Resumes(s, bit) && FirstRun(s, bit, r, z)
    ensures z in RightShifted(s)
  {
    RunIsNotSkipped(s, bit, r, z);
    assert Move(s, z - 1) == z;
  }

  /** If no bit is moved to the index limit, every run that is moved ends below it. */
  lemma {:induction false} RunFits(s: set<nat>, bit: nat, r: nat) returns (z: nat)
    requires Resumes(s, bit) && IsNext(HalfRight(s, bit), bit, r) && r != UNSET
    requires CanShift(s) && r < MAX_BIT_VECTOR_INDEX
    ensures r < z < MAX_BIT_VECTOR_INDEX && z !in HalfRight(s, bit)
  {
    z := FirstClear(HalfRight(s, bit), r, MAX_BIT_VECTOR_INDEX);
    if z == MAX_BIT_VECTOR_INDEX {
      TopClear(s, bit);
      HalfRightRun(s, bit, r, z);
      RunToTop(s, bit, r, z);
      assert false;
    }
  }

  lemma {:induction false} TopClear(s: set<nat>, bit: nat)
    requires CanShift(s)
    ensures AllBelow(s, MAX_BIT_VECTOR_INDEX) && AllBelow(HalfRight(s, bit), MAX_BIT_VECTOR_INDEX)
  {
    RightShiftOnlyGrows(s, 1, MAX_BIT_VECTOR_INDEX);
  }

  lemma {:induction false} FirstClear(s: set<nat>, r: nat, top: nat) returns (z: nat)
    requires r <= top
    ensures r <= z <= top && (z < top ==> z !in s) && forall x: nat :: r <= x < z ==> x in s
    decreases top - r
  {
    z := r;
    if r < top && r in s {
      z := FirstClear(s, r + 1, top);
    }
  }

  /** From the scan position on, the half-shifted set still shows the original runs. */
  lemma {:induction false} HalfRightRun(s: set<nat>, bit: nat, r: nat, z: nat)
    requires IsNext(HalfRight(s, bit), bit, r) && r != UNSET && r < z && z !in HalfRight(s, bit)
    requires forall x: nat :: r <= x < z ==> x in HalfRight(s, bit)
    ensures FirstRun(s, bit, r, z)
  {
    forall x: nat | r <= x < z ensures x in s {
      assert x in HalfRight(s, bit);
    }
    forall x | x in s && bit <= x ensures r <= x {
      assert x in HalfRight(s, bit);
    }
  }

  lemma {:induction false} HalfRightRest(s: set<nat>, bit: nat)
    requires IsNext(HalfRight(s, bit), bit, UNSET)
    ensures From(s, bit) == {}
  {
    assert forall x :: x in From(s, bit) ==> x in HalfRight(s, bit);
  }

  // Sizes of images

  ghost function Image(a: set<nat>, f: nat -> nat): set<nat> {
    set x | x in a :: f(x)
  }

  lemma {:induction false} ImageSize(a: set<nat>, f: nat -> nat)
    ensures |Image(a, f)| <= |a|
    ensures (forall x, y :: x in a && y in a && f(x) == f(y) ==> x == y) ==> |Image(a, f)| == |a|
  {
    if a != {} {
      var e :| e in a;
      var b := a - {e};
      ImageSize(b, f);
      assert Image(a, f) == Image(b, f) + {f(e)};
    }
  }

  // What right shifts keep and when they are exact

  lemma {:induction false} OneShiftKeepsCount(s: set<nat>)
    ensures |RightShifted(s)| == |s|
  {
    var f := (q: nat) => Move(s, q);
    ImageSize(s, f);
    assert RightShifted(s) == Image(s, f);
  }

  /** Every right shift keeps the number of set bits. */
  lemma {:induction false} RightShiftKeepsCount(s: set<nat>, n: nat)
    ensures |RightShiftedBy(s, n)| == |s|
    decreases n
  {
    if n > 0 {
      OneShiftKeepsCount(s);
      RightShiftKeepsCount(RightShifted(s), n - 1);
    }
  }

  lemma {:induction false} NoGapNoSkip(s: set<nat>)
    requires !OneBitGap(s)
    ensures RightShifted(s) == Plus(s, 1)
  {
    forall q | q in s ensures !Skipped(s, q) {
      if q >= 2 {
        assert !GapAt(s, q - 2);
      }
    }
  }

  /** The first gap of one clear bit makes a skip. */
  lemma {:induction false} GapSkips(s: set<nat>, q: nat)
    requires GapAt(s, q)
    ensures exists p :: Skipped(s, p)
  {
    if Skipped(s, q) {
    } else {
      assert Skipped(s, q + 2);
    }
  }

  /** No bit is moved by more than one. */
  lemma {:induction false} AtMostOneStep(s: set<nat>, k: nat)
    ensures |From(RightShifted(s), k + 1)| <= |From(s, k)|
    ensures Skipped(s, k) ==> |From(RightShifted(s), k + 1)| < |From(s, k)|
  {
    var a := if Skipped(s, k) then From(s, k) - {k} else From(s, k);
    var f := (x: nat) => Move(s, x);
    ImageSize(a, f);
    forall y | y in From(RightShifted(s), k + 1) ensures y in Image(a, f) {
      var x :| x in s && y == Move(s, x);
      assert x in a && f(x) == y;
    }
    SubsetSize(From(RightShifted(s), k + 1), Image(a, f));
  }

  lemma {:induction false} NeverAhead(s: set<nat>, k: nat, n: nat)
    ensures |From(RightShiftedBy(s, n), k + n)| <= |From(s, k)|
    decreases n
  {
    if n > 0 {
      var u, m := RightShifted(s), k + 1;
      AtMostOneStep(s, k);
      NeverAhead(u, m, n - 1);
      assert m + (n - 1) == k + n;
    }
  }

  /** A bit once left behind is never made up for. */
  lemma {:induction false} StaysBehind(s: set<nat>, k: nat, n: nat)
    requires n > 0 && Skipped(s, k)
    ensures |From(RightShiftedBy(s, n), k + n)| < |From(s, k)|
  {
    var u, m := RightShifted(s), k + 1;
    AtMostOneStep(s, k);
    NeverAhead(u, m, n - 1);
    assert m + (n - 1) == k + n;
  }

  lemma {:induction false} PlusFrom(s: set<nat>, k: nat, n: nat)
    ensures |From(Plus(s, n), k + n)| == |From(s, k)|
  {
    var f := (x: nat) => x + n;
    ImageSize(From(s, k), f);
    forall y | y in From(Plus(s, n), k + n) ensures y in Image(From(s, k), f) {
      assert y == f(y - n) && y - n in From(s, k);
    }
    forall x | x in From(s, k) ensures f(x) in From(Plus(s, n), k + n) {
      assert x + n in Plus(s, n);
    }
    assert From(Plus(s, n), k + n) == Image(From(s, k), f);
  }

  lemma {:induction false} PlusKeepsGaps(s: set<nat>, n: nat)
    requires !OneBitGap(s)
    ensures !OneBitGap(Plus(s, n))
  {
    forall q: nat ensures !GapAt(Plus(s, n), q) {
      if q in Plus(s, n) {
        assert !GapAt(s, q - n);
        assert q + 1 - n in s ==> q + 1 in Plus(s, n);
      }
    }
  }

  lemma {:induction false} NoGapShiftsExactly(s: set<nat>, n: nat)
    requires !OneBitGap(s)
    ensures RightShiftedBy(s, n) == Plus(s, n)
    decreases n
  {
    if n > 0 {
      NoGapNoSkip(s);
      PlusKeepsGaps(s, 1);
      NoGapShiftsExactly(Plus(s, 1), n - 1);
      PlusPlus(s, n - 1);
    }
  }

  /** A right shift by any positive count is exact if and only if no two runs of ones are one clear bit apart. */
  lemma {:induction false} RightShiftExactIff(s: set<nat>, n: nat)
    requires n > 0
    ensures RightShiftedBy(s, n) == Plus(s, n) <==> !OneBitGap(s)
  {
    if OneBitGap(s) {
      var q: nat :| GapAt(s, q);
      GapSkips(s, q);
      var p :| Skipped(s, p);
      StaysBehind(s, p, n);
      PlusFrom(s, p, n);
    } else {
      NoGapShiftsExactly(s, n);
    }
  }

  /** Bits 0 and 2, shifted right by one, become 1 and 2. */
  lemma {:induction false} RightShiftDistorts()
    ensures RightShiftedBy({0, 2}, 1) == {1, 2} && Plus({0, 2}, 1) == {1, 3}
  {
    assert !Skipped({0, 2}, 0) && Skipped({0, 2}, 2);
    assert RightShiftedBy({0, 2}, 1) == RightShiftedBy(RightShifted({0, 2}), 0);
  }
}
