/** Whole runs of the open-addressing table, when its retry loops end, and how a second copy arises. */
module HashCodeTableRuns {
  import opened Basics
  import opened HashCodeTableSpec
  import opened HashCodeTableProofs

  datatype Op<K, D> = AddOp(key: K, data: D) | DelOp(key: K)

  // Runs in which Add is only called for a key that Get reports absent

  ghost predicate Allowed<K, D>(hash: K -> nat, t: Table<K, D>, op: Op<K, D>)
    requires |t.slots| > 0
  {
    op.AddOp? ==> Get(hash, t, op.key) == None && AddReturns(hash, t, op.key)
  }

  ghost function Apply<K, D>(hash: K -> nat, t: Table<K, D>, op: Op<K, D>): (r: Table<K, D>)
    requires |t.slots| > 0 && Allowed(hash, t, op)
  {
    match op
    case AddOp(k, d) => Add(hash, t, k, d).0
    case DelOp(k) => Del(hash, t, k)
  }

  ghost function ApplyMap<K, D>(m: map<K, D>, op: Op<K, D>): map<K, D> {
    match op
    case AddOp(k, d) => m[k := d]
    case DelOp(k) => Without(m, k)
  }

  ghost function RunMap<K, D>(m: map<K, D>, ops: seq<Op<K, D>>): map<K, D>
    decreases |ops|
  {
    if ops == [] then m else RunMap(ApplyMap(m, ops[0]), ops[1..])
  }

  /** `states` is a run of `ops`: each state follows from the one before, by an allowed call. */
  ghost predicate IsRun<K, D>(hash: K -> nat, states: seq<Table<K, D>>, ops: seq<Op<K, D>>) {
    && |states| == |ops| + 1
    && (forall i :: 0 <= i < |ops| ==>
          |states[i].slots| > 0 && Allowed(hash, states[i], ops[i]) && states[i + 1] == Apply(hash, states[i], ops[i]))
  }

  lemma {:induction false} ApplyRefines<K(!new), D(!new)>(hash: K -> nat, t: Table<K, D>, op: Op<K, D>)
    requires Inv(hash, t) && Allowed(hash, t, op)
    ensures Inv(hash, Apply(hash, t, op)) && Abs(Apply(hash, t, op).slots) == ApplyMap(Abs(t.slots), op)
  {
    match op
    case AddOp(k, d) =>
      GetAgrees(hash, t, k);
      AddAbsent(hash, t, k, d);
    case DelOp(k) => DelRefines(hash, t, k);
  }

  lemma {:induction false} RunRefines<K(!new), D(!new)>(hash: K -> nat, states: seq<Table<K, D>>, ops: seq<Op<K, D>>)
    requires IsRun(hash, states, ops) && Inv(hash, states[0])
    ensures var t := states[|ops|]; Inv(hash, t) && Abs(t.slots) == RunMap(Abs(states[0].slots), ops)
    decreases |ops|
  {
    if ops != [] {
      ApplyRefines(hash, states[0], ops[0]);
      assert IsRun(hash, states[1..], ops[1..]) by {
        forall i | 0 <= i < |ops[1..]|
          ensures |states[1..][i].slots| > 0 && Allowed(hash, states[1..][i], ops[1..][i])
          ensures states[1..][i + 1] == Apply(hash, states[1..][i], ops[1..][i])
        {
          assert states[1..][i] == states[i + 1] && ops[1..][i] == ops[i + 1] && states[1..][i + 1] == states[i + 2];
        }
      }
      RunRefines(hash, states[1..], ops[1..]);
    }
  }

  lemma {:induction false} CreateEmpty<K(!new), D(!new)>(hash: K -> nat, limit: nat)
    requires limit > 0
    ensures var t := Create<K, D>(limit); Inv(hash, t) && Abs(t.slots) == map[] && Packed(t.slots)
  {
    var t := Create<K, D>(limit);
    assert Occupied(t.slots) == {} && Keys(t.slots) == {};
  }

  /**
   After any run from a fresh table in which only absent keys are added: every entry lies within 20
   probe steps of its home, keys are unique, the size counts the occupied slots, and Get answers from
   the map that the operations mean.
   */
  lemma {:induction false} EveryRunRefinesAMap<K(!new), D(!new)>(
    hash: K -> nat, limit: nat, states: seq<Table<K, D>>, ops: seq<Op<K, D>>, k: K)
    requires limit > 0 && IsRun(hash, states, ops) && states[0] == Create(limit)
    ensures var t := states[|ops|];
            && (forall j :: 0 <= j < |t.slots| && t.slots[j].Used? ==> Dist(hash(t.slots[j].key), j, |t.slots|) < 20)
            && Unique(t.slots) && t.size == |Occupied(t.slots)|
            && |t.slots| > 0 && Get(hash, t, k) == Lookup(RunMap(map[], ops), k)
  {
    CreateEmpty<K, D>(hash, limit);
    RunRefines(hash, states, ops);
    GetAgrees(hash, states[|ops|], k);
  }

  // A freed slot lets a present key in a second time

  /** Add takes the slot of the first step at which it stops, if that is a free one and the table need not grow. */
  lemma {:induction false} AddInPlace<K, D>(hash: K -> nat, t: Table<K, D>, k: K, d: D, i: nat)
    requires 0 < |t.slots| && 4 * t.size < 3 * |t.slots| && i < MAX_PROBE_LENGTH
    requires t.slots[At(hash(k), i, |t.slots|)].Free? && forall x :: 0 <= x < i ==> !Stops(t.slots, hash(k), k, x)
    ensures var j := At(hash(k), i, |t.slots|);
            && AddReturns(hash, t, k)
            && Add(hash, t, k, d) == (t.(slots := t.slots[j := Used(hash(k), k, d)], size := t.size + 1), true)
  {
    assert Stops(t.slots, hash(k), k, i);
    ProbeIs(t.slots, hash(k), k, i);
    assert Prepared(t) == t && Settles(t, hash(k), k, 0);
  }

  /** A table of `limit` slots whose slots `p` and `p + 1`, wrapping around, are as given. */
  ghost function TwoSlots<K, D>(limit: nat, p: nat, first: Slot<K, D>, second: Slot<K, D>): Table<K, D>
    requires p < limit
  {
    Table(EmptySlots(limit)[p := first][At(p, 1, limit) := second],
          (if first.Used? then 1 else 0) + if second.Used? then 1 else 0, 0)
  }

  lemma {:induction false} TwoSlotsAt<K, D>(limit: nat, p: nat, h: nat, first: Slot<K, D>, second: Slot<K, D>)
    requires p < limit && limit >= 2 && h % limit == p
    ensures var t, q := TwoSlots(limit, p, first, second), At(p, 1, limit);
            && q == (if p + 1 == limit then 0 else p + 1) && |t.slots| == limit
            && At(h, 0, limit) == p && At(h, 1, limit) == q
            && t.slots[p] == first && t.slots[q] == second
            && forall j :: 0 <= j < limit && j != p && j != q ==> t.slots[j].Free?
  {
    AtStep(h, 0, limit);
    AtForm(p, 1, limit);
    AtForm(h, 1, limit);
    ModUnique(p, limit, 0, p);
  }

  lemma {:induction false} TwoSlotsSet<K, D>(limit: nat, p: nat, first: Slot<K, D>, second: Slot<K, D>, s: Slot<K, D>)
    requires p < limit && limit >= 2
    ensures var t := TwoSlots(limit, p, first, second);
            && t.slots[p := s] == TwoSlots(limit, p, s, second).slots
            && t.slots[At(p, 1, limit) := s] == TwoSlots(limit, p, first, s).slots
  {
    ModUnique(p, limit, 0, p);
    AtForm(p, 1, limit);
    var t, q := TwoSlots(limit, p, first, second).slots, At(p, 1, limit);
    assert forall j :: 0 <= j < limit ==> t[p := s][j] == TwoSlots(limit, p, s, second).slots[j];
    assert forall j :: 0 <= j < limit ==> t[q := s][j] == TwoSlots(limit, p, first, s).slots[j];
  }

  /**
   In a fresh table of any size, add two keys with the same home, delete the first and add the second
   again, which is still there: it is stored twice.
   */
  lemma {:induction false} SecondCopy<K, D>(hash: K -> nat, limit: nat, x: K, y: K, a: D, b: D, c: D)
    requires limit >= 2 && x != y && hash(x) % limit == hash(y) % limit
    ensures var p, u, v := hash(x) % limit, Used(hash(x), x, a), Used(hash(y), y, b);
            var t0, t1, t2 := Create<K, D>(limit), TwoSlots(limit, p, u, Free), TwoSlots(limit, p, u, v);
            var t3, t4 := TwoSlots(limit, p, Free, v), TwoSlots(limit, p, Used(hash(y), y, c), v);
            && Get(hash, t0, x) == None && AddReturns(hash, t0, x) && Add(hash, t0, x, a) == (t1, true)
            && Get(hash, t1, y) == None && AddReturns(hash, t1, y) && Add(hash, t1, y, b) == (t2, true)
            && Del(hash, t2, x) == t3 && Get(hash, t3, y) == Some(b)
            && AddReturns(hash, t3, y) && Add(hash, t3, y, c) == (t4, true) && !Unique(t4.slots)
  {
    var p, u, v := hash(x) % limit, Used(hash(x), x, a), Used(hash(y), y, b);
    var t0, t1, t2 := Create<K, D>(limit), TwoSlots(limit, p, u, Free), TwoSlots(limit, p, u, v);
    var t3, t4 := TwoSlots(limit, p, Free, v), TwoSlots(limit, p, Used(hash(y), y, c), v);
    assert t0.slots == TwoSlots<K, D>(limit, p, Free, Free).slots;
    TwoSlotsAt<K, D>(limit, p, hash(x), Free, Free);
    TwoSlotsSet(limit, p, Free, Free, u);
    AddInPlace(hash, t0, x, a, 0);
    TwoSlotsAt(limit, p, hash(y), u, Free);
    TwoSlotsSet(limit, p, u, Free, v);
    AddInPlace(hash, t1, y, b, 1);
    TwoSlotsAt(limit, p, hash(x), u, v);
    TwoSlotsSet(limit, p, u, v, Free);
    assert Holds(t2.slots[At(hash(x), 0, limit)], hash(x), x);
    TwoSlotsAt(limit, p, hash(y), Free, v);
    TwoSlotsSet(limit, p, Free, v, Used(hash(y), y, c));
    assert Seek(t3.slots, hash(y), y, 1) == 1;
    AddInPlace(hash, t3, y, c, 0);
    TwoSlotsAt(limit, p, hash(y), Used(hash(y), y, c), v);
  }

  // Growing a table that holds a second copy

  lemma {:induction false} RehashPrefix<K, D>(slots: seq<Slot<K, D>>, n: nat, m: nat, limit: nat)
    requires n <= m <= |slots| && limit > 0
    ensures Rehash(slots[..m], n, limit) == Rehash(slots, n, limit)
  {
    if n > 0 {
      RehashPrefix(slots, n - 1, m, limit);
    }
  }

  /**
   A second copy in slot `j` ends a rehash, into a table of any size, that has got that far: what _expand
   then installs stands for the entries before slot `j` alone, and every later one is lost.
   */
  lemma {:induction false} SecondCopyEndsRehash<K(!new), D(!new)>(hash: K -> nat, slots: seq<Slot<K, D>>, j: nat, limit: nat)
    requires j < |slots| && Hashed(hash, slots) && Unique(slots[..j]) && slots[j].Used? && slots[j].key in Keys(slots[..j])
    requires limit > 0 && Rehash(slots, j, limit).Added?
    ensures Rehash(slots, |slots|, limit) == Duplicate
    ensures var s := Filled(slots, |slots|, limit); Unique(s) && Abs(s) == Abs(slots[..j])
  {
    var before, x := slots[..j], slots[j];
    RehashPrefix(slots, j, j, limit);
    RehashKeeps(hash, before, j, limit);
    assert before[..j] == before;
    var s := Rehash(slots, j, limit).slots;
    SameKeys(s, before);
    PackedUnshadowed(hash, s, x.key);
    InnerAddPresent(hash, s, x.key, x.data);
    FilledStops(slots, j, |slots|, limit);
  }

  /** A table that holds `y` twice from its home on, and `z` at its home further up. */
  ghost function ThreeSlots<K, D>(hash: K -> nat, limit: nat, y: K, z: K, b: D, c: D, d: D): Table<K, D>
    requires limit > 0
  {
    var t := TwoSlots(limit, hash(y) % limit, Used(hash(y), y, c), Used(hash(y), y, b));
    Table(t.slots[hash(z) % limit := Used(hash(z), z, d)], 3, 0)
  }

  lemma {:induction false} ThirdKey<K(!new), D(!new)>(hash: K -> nat, limit: nat, y: K, z: K, b: D, c: D, d: D)
    requires limit > 0 && hash(y) % limit + 1 < hash(z) % limit
    ensures var t := TwoSlots(limit, hash(y) % limit, Used(hash(y), y, c), Used(hash(y), y, b));
            var t' := ThreeSlots(hash, limit, y, z, b, c, d);
            AddReturns(hash, t, z) && Add(hash, t, z, d) == (t', true) && Get(hash, t', z) == Some(d)
  {
    var p, r := hash(y) % limit, hash(z) % limit;
    var t := TwoSlots(limit, p, Used(hash(y), y, c), Used(hash(y), y, b));
    TwoSlotsAt(limit, p, hash(y), Used(hash(y), y, c), Used(hash(y), y, b));
    AtStep(hash(z), 0, limit);
    AddInPlace(hash, t, z, d, 0);
    assert Holds(ThreeSlots(hash, limit, y, z, b, c, d).slots[At(hash(z), 0, limit)], hash(z), z);
  }

  /** With a key stored twice and another one further up, which Get finds: that one is gone once the table has grown. */
  lemma {:induction false} GrowthLosesAKey<K(!new), D(!new)>(
    hash: K -> nat, limit: nat, y: K, z: K, b: D, c: D, d: D, wider: nat)
    requires limit > 0 && hash(y) % limit + 1 < hash(z) % limit && wider > 0
    ensures var t := ThreeSlots(hash, limit, y, z, b, c, d);
            && Get(hash, t, z) == Some(d) && z in Keys(t.slots)
            && Rehash(t.slots, |t.slots|, wider) == Duplicate
            && Keys(Filled(t.slots, |t.slots|, wider)) == {y}
  {
    var p, s := hash(y) % limit, ThreeSlots(hash, limit, y, z, b, c, d).slots;
    ThirdKey(hash, limit, y, z, b, c, d);
    assert s[hash(z) % limit].key == z;
    TwoSlotsAt(limit, p, hash(y), Used(hash(y), y, c), Used(hash(y), y, b));
    assert forall j :: 0 <= j < p ==> s[j].Free?;
    assert s[p].key == y && s[p + 1].key == y;
    OneEntry(s, p, wider);
    assert Keys(s[..p + 1]) == {y} by { assert s[..p + 1][p].key == y; }
    SecondCopyEndsRehash(hash, s, p + 1, wider);
    SameKeys(Filled(s, |s|, wider), s[..p + 1]);
  }

  lemma {:induction false} OneEntry<K, D>(slots: seq<Slot<K, D>>, p: nat, limit: nat)
    requires p < |slots| && limit > 0 && slots[p].Used? && forall j :: 0 <= j < p ==> slots[j].Free?
    ensures Rehash(slots, p + 1, limit).Added?
  {
    NoEntries(slots, p, limit);
    var s := EmptySlots<K, D>(limit);
    assert Stops(s, slots[p].hashcode, slots[p].key, 0);
  }

  lemma {:induction false} NoEntries<K, D>(slots: seq<Slot<K, D>>, n: nat, limit: nat)
    requires n <= |slots| && limit > 0 && forall j :: 0 <= j < n ==> slots[j].Free?
    ensures Rehash(slots, n, limit) == Added(EmptySlots(limit))
  {
    if n > 0 { NoEntries(slots, n - 1, limit); }
  }
}
