/**
 parc_BufferDictionary.c: a dictionary over the open-addressing table. Put of a present key is Add
 (refused), Get, Del, Add. Buffers count as keys by their remaining bytes, which is what
 parcBuffer_Equals and parcBuffer_HashCode look at.
 */
module BufferDictionaries {
  import opened Basics
  import opened Bytes
  import opened Buffers
  import opened HashCode
  import opened HashCodeTableSpec
  import opened HashCodeTableProofs
  import opened HashCodeTableRuns
  import opened HashCodeTableGrowth
  import opened HashCodeTables

  // Replacing a key whose probe path has no gap

  /** Deleting a key and adding it again puts it back into the very same slot. */
  lemma {:induction false} HoleIsRefilled<K(!new), D(!new)>(hash: K -> nat, slots: seq<Slot<K, D>>, k: K, v: D)
    requires |slots| > 0 && Placed(hash, slots) && Unique(slots) && k in Keys(slots) && !Shadowed(hash, slots, k)
    ensures var i := Seek(slots, hash(k), k, 0);
            var j := At(hash(k), i, |slots|);
            && i < Window(|slots|) && slots[j].Used? && slots[j].key == k && slots[j].hashcode == hash(k)
            && !Stuck(slots[j := Free], hash(k), k)
            && InnerAdd(slots[j := Free], hash(k), k, v) == Added(slots[j := Used(hash(k), k, v)])
  {
    var h := hash(k);
    SeekFinds(hash, slots, k);
    var i := Seek(slots, h, k, 0);
    var j := At(h, i, |slots|);
    var freed := slots[j := Free];
    DistAt(h, i, |slots|);
    forall x | 0 <= x < i ensures !Stops(freed, h, k, x) {
      DistAt(h, x, |slots|);
      assert At(h, x, |slots|) != j;
      assert !slots[At(h, x, |slots|)].Free?;
      assert !Holds(slots[At(h, x, |slots|)], h, k);
    }
    ProbeIs(freed, h, k, i);
    assert freed[j := Used(h, k, v)] == slots[j := Used(h, k, v)];
  }

  lemma {:induction false} SamePacking<K, D>(slots: seq<Slot<K, D>>, j: nat, v: D)
    requires j < |slots| && slots[j].Used? && Packed(slots)
    ensures Packed(slots[j := Used(slots[j].hashcode, slots[j].key, v)])
  {
    var s := slots[j := Used(slots[j].hashcode, slots[j].key, v)];
    forall a, i | 0 <= a < |s| && s[a].Used? && 0 <= i < Dist(s[a].hashcode, a, |s|)
      ensures s[At(s[a].hashcode, i, |s|)].Used?
    {
      assert slots[a].Used? && slots[a].hashcode == s[a].hashcode;
      assert slots[At(slots[a].hashcode, i, |slots|)].Used?;
    }
  }

  /** The Del and Add that replace a present key. */
  lemma {:induction false} ReplaceRefines<K(!new), D(!new)>(hash: K -> nat, t: Table<K, D>, k: K, v: D)
    requires Inv(hash, t) && 4 * t.size < 3 * |t.slots|
    requires k in Abs(t.slots) && !Shadowed(hash, t.slots, k)
    ensures var d := Del(hash, t, k);
            && Inv(hash, d) && k !in Abs(d.slots) && AddReturns(hash, d, k)
            && var (t', ok) := Add(hash, d, k, v);
            && ok && Inv(hash, t') && Abs(t'.slots) == Abs(t.slots)[k := v]
            && (Packed(t.slots) ==> Packed(t'.slots))
  {
    var d, h := Del(hash, t, k), hash(k);
    DelRefines(hash, t, k);
    AbsHas(t.slots);
    HoleIsRefilled(hash, t.slots, k, v);
    var j := At(h, Seek(t.slots, h, k, 0), |t.slots|);
    assert d.slots == t.slots[j := Free] && Prepared(d) == d && Settles(d, h, k, 0);
    AddAbsent(hash, d, k, v);
    assert Add(hash, d, k, v).0.slots == t.slots[j := Used(h, k, v)];
    if Packed(t.slots) { SamePacking(t.slots, j, v); }
    PutBack(Abs(t.slots), k, v);
  }

  lemma {:induction false} PutBack<K, D>(m: map<K, D>, k: K, v: D)
    ensures Without(m, k)[k := v] == m[k := v]
  {
  }

  // Put

  /** A Put of this key sees the key if it is there. */
  ghost predicate Visible<K(!new), D>(hash: K -> nat, t: Table<K, D>, k: K)
    requires |t.slots| > 0
  {
    4 * t.size >= 3 * |t.slots| || !Shadowed(hash, t.slots, k)
  }

  lemma {:induction false} RefusedCanBeReplaced<K(!new), D(!new)>(hash: K -> nat, t: Table<K, D>, k: K, v: D)
    requires Inv(hash, t) && AddReturns(hash, t, k) && !Add(hash, t, k, v).1
    ensures var p := Add(hash, t, k, v).0;
            && p == Prepared(t) && Inv(hash, p) && Abs(p.slots) == Abs(t.slots)
            && k in Abs(t.slots) && Visible(hash, t, k)
            && 4 * p.size < 3 * |p.slots| && !Shadowed(hash, p.slots, k)
            && (Packed(t.slots) ==> Packed(p.slots))
  {
    PreparedKeeps(hash, t);
    if k in Abs(t.slots) {
      AddPresent(hash, t, k, v);
      if 4 * t.size >= 3 * |t.slots| {
        ExpandKeeps(hash, t);
        PackedUnshadowed(hash, Prepared(t).slots, k);
      }
    } else {
      AddAbsent(hash, t, k, v);
      assert false;
    }
  }

  /** Both Add calls that a Put makes return. */
  ghost predicate PutReturns<K, D>(hash: K -> nat, t: Table<K, D>, k: K, v: D)
    requires |t.slots| > 0
  {
    && AddReturns(hash, t, k)
    && var (p, ok) := Add(hash, t, k, v);
    && (!ok ==> AddReturns(hash, Del(hash, p, k), k))
  }

  ghost function PutResult<K, D>(hash: K -> nat, t: Table<K, D>, k: K, v: D): (r: (Table<K, D>, Option<D>))
    requires |t.slots| > 0 && PutReturns(hash, t, k, v)
    ensures |r.0.slots| > 0
  {
    var (p, ok) := Add(hash, t, k, v);
    if ok then (p, None) else (Add(hash, Del(hash, p, k), k, v).0, Get(hash, p, k))
  }

  /** If the first Add returns, the Put does: a refused key is deleted and finds its slot again. */
  lemma {:induction false} PutReturnsWithAdd<K(!new), D(!new)>(hash: K -> nat, t: Table<K, D>, k: K, v: D)
    requires Inv(hash, t) && AddReturns(hash, t, k)
    ensures PutReturns(hash, t, k, v)
  {
    var (p, ok) := Add(hash, t, k, v);
    if !ok {
      RefusedCanBeReplaced(hash, t, k, v);
      ReplaceRefines(hash, p, k, v);
    }
  }

  /** Put returns the previous value, or none, and the dictionary becomes the updated map. */
  lemma {:induction false} PutRefines<K(!new), D(!new)>(hash: K -> nat, t: Table<K, D>, k: K, v: D)
    requires Inv(hash, t) && AddReturns(hash, t, k)
    requires k in Abs(t.slots) ==> Visible(hash, t, k)
    ensures PutReturns(hash, t, k, v)
    ensures var (t', previous) := PutResult(hash, t, k, v);
            && previous == Lookup(Abs(t.slots), k)
            && Inv(hash, t') && Abs(t'.slots) == Abs(t.slots)[k := v]
            && (Packed(t.slots) ==> Packed(t'.slots))
  {
    PutReturnsWithAdd(hash, t, k, v);
    if k in Abs(t.slots) {
      AddPresent(hash, t, k, v);
      RefusedCanBeReplaced(hash, t, k, v);
      ReplaceRefines(hash, Prepared(t), k, v);
      GetAgrees(hash, Prepared(t), k);
    } else {
      AddAbsent(hash, t, k, v);
    }
  }

  lemma {:induction false} PutMeans<K(!new), D(!new)>(hash: K -> nat, t: Table<K, D>, k: K, v: D)
    requires Inv(hash, t) && AddReturns(hash, t, k)
    ensures PutReturns(hash, t, k, v)
    ensures (k in Abs(t.slots) ==> Visible(hash, t, k)) ==>
              var (t', previous) := PutResult(hash, t, k, v);
              previous == Lookup(Abs(t.slots), k) && Inv(hash, t') && Abs(t'.slots) == Abs(t.slots)[k := v]
    ensures Packed(t.slots) ==> Inv(hash, PutResult(hash, t, k, v).0) && Packed(PutResult(hash, t, k, v).0.slots)
  {
    PutReturnsWithAdd(hash, t, k, v);
    if Packed(t.slots) { PackedUnshadowed(hash, t.slots, k); }
    if k in Abs(t.slots) ==> Visible(hash, t, k) { PutRefines(hash, t, k, v); }
  }

  /** Put of a present key reports its value exactly when no freed slot hides the key. */
  lemma {:induction false} PutReportsIffVisible<K(!new), D(!new)>(hash: K -> nat, t: Table<K, D>, k: K, v: D)
    requires Inv(hash, t) && AddReturns(hash, t, k) && k in Abs(t.slots)
    ensures PutReturns(hash, t, k, v)
    ensures PutResult(hash, t, k, v).1 == Lookup(Abs(t.slots), k) <==> Visible(hash, t, k)
    ensures Unique(PutResult(hash, t, k, v).0.slots) <==> Visible(hash, t, k)
  {
    PutReturnsWithAdd(hash, t, k, v);
    AddPresent(hash, t, k, v);
    if Visible(hash, t, k) {
      PutRefines(hash, t, k, v);
    }
  }

  // Runs of Put and Get

  /** `states` and `previous` are what a run of `puts` goes through and returns. */
  ghost predicate IsPutRun<K, D>(hash: K -> nat, states: seq<Table<K, D>>, puts: seq<(K, D)>, previous: seq<Option<D>>) {
    && |states| == |puts| + 1 && |previous| == |puts|
    && forall i :: 0 <= i < |puts| ==>
         && |states[i].slots| > 0 && PutReturns(hash, states[i], puts[i].0, puts[i].1)
         && (states[i + 1], previous[i]) == PutResult(hash, states[i], puts[i].0, puts[i].1)
  }

  ghost function PutMap<K, D>(puts: seq<(K, D)>): map<K, D> {
    if puts == [] then map[] else PutMap(puts[..|puts| - 1])[puts[|puts| - 1].0 := puts[|puts| - 1].1]
  }

  /** What the first `n` puts should return. */
  ghost function Previous<K, D>(puts: seq<(K, D)>, n: nat): (r: seq<Option<D>>)
    requires n <= |puts|
    ensures |r| == n && forall i :: 0 <= i < n ==> r[i] == Lookup(PutMap(puts[..i]), puts[i].0)
  {
    if n == 0 then [] else Previous(puts, n - 1) + [Lookup(PutMap(puts[..n - 1]), puts[n - 1].0)]
  }

  lemma {:induction false} PutMapSnoc<K, D>(puts: seq<(K, D)>, n: nat)
    requires n < |puts|
    ensures PutMap(puts[..n + 1]) == PutMap(puts[..n])[puts[n].0 := puts[n].1]
  {
    assert puts[..n + 1][..n] == puts[..n];
  }

  lemma {:induction false} PackedPutRefines<K(!new), D(!new)>(hash: K -> nat, t: Table<K, D>, k: K, v: D)
    requires Inv(hash, t) && Packed(t.slots) && AddReturns(hash, t, k)
    ensures PutReturns(hash, t, k, v)
    ensures var (t', previous) := PutResult(hash, t, k, v);
            && previous == Lookup(Abs(t.slots), k)
            && Inv(hash, t') && Abs(t'.slots) == Abs(t.slots)[k := v] && Packed(t'.slots)
  {
    PackedUnshadowed(hash, t.slots, k);
    PutRefines(hash, t, k, v);
  }

  lemma {:induction false} PutRunRefines<K(!new), D(!new)>(
    hash: K -> nat, states: seq<Table<K, D>>, puts: seq<(K, D)>, previous: seq<Option<D>>, n: nat)
    requires IsPutRun(hash, states, puts, previous) && n <= |puts|
    requires Inv(hash, states[0]) && Packed(states[0].slots) && Abs(states[0].slots) == map[]
    ensures Inv(hash, states[n]) && Packed(states[n].slots) && Abs(states[n].slots) == PutMap(puts[..n])
    ensures n < |puts| ==> previous[n] == Lookup(PutMap(puts[..n]), puts[n].0)
  {
    if n > 0 {
      PutRunRefines(hash, states, puts, previous, n - 1);
      PackedPutRefines(hash, states[n - 1], puts[n - 1].0, puts[n - 1].1);
      assert (states[n - 1 + 1], previous[n - 1]) == PutResult(hash, states[n - 1], puts[n - 1].0, puts[n - 1].1);
      PutMapSnoc(puts, n - 1);
    }
    if n < |puts| {
      PackedPutRefines(hash, states[n], puts[n].0, puts[n].1);
      assert (states[n + 1], previous[n]) == PutResult(hash, states[n], puts[n].0, puts[n].1);
    }
  }

  /** In any run of Puts on a fresh dictionary, every Put returns the key's previous value and every Get agrees with the map. */
  lemma {:induction false} EveryPutRunRefinesAMap<K(!new), D(!new)>(
    hash: K -> nat, limit: nat, states: seq<Table<K, D>>, puts: seq<(K, D)>, previous: seq<Option<D>>, n: nat, k: K)
    requires limit > 0 && IsPutRun(hash, states, puts, previous) && states[0] == Create(limit) && n <= |puts|
    ensures |states[n].slots| > 0 && Get(hash, states[n], k) == Lookup(PutMap(puts[..n]), k)
    ensures n < |puts| ==> previous[n] == Lookup(PutMap(puts[..n]), puts[n].0)
  {
    CreateEmpty<K, D>(hash, limit);
    PutRunRefines(hash, states, puts, previous, n);
    GetAgrees(hash, states[n], k);
  }

  /** Every one of the puts, made in this order, returns. */
  ghost predicate PutsReturn<K, D>(hash: K -> nat, t: Table<K, D>, puts: seq<(K, D)>)
    requires |t.slots| > 0
    decreases |puts|
  {
    puts == [] ||
    (PutReturns(hash, t, puts[0].0, puts[0].1)
     && PutsReturn(hash, PutResult(hash, t, puts[0].0, puts[0].1).0, puts[1..]))
  }

  ghost function KeysPut<K, D>(puts: seq<(K, D)>): set<K> {
    set i | 0 <= i < |puts| :: puts[i].0
  }

  /** Puts whose keys' hash codes are not too dense all return. */
  lemma {:induction false} RoomyPutsReturn<K(!new), D(!new)>(hash: K -> nat, t: Table<K, D>, puts: seq<(K, D)>)
    requires Inv(hash, t) && Packed(t.slots) && Roomy(hash, Keys(t.slots) + KeysPut(puts))
    ensures PutsReturn(hash, t, puts)
    decreases |puts|
  {
    if puts != [] {
      var (k, v) := puts[0];
      assert puts[0].0 in KeysPut(puts);
      RoomySubset(hash, Keys(t.slots) + {k}, Keys(t.slots) + KeysPut(puts));
      RoomyAddReturns(hash, t, k);
      PackedPutRefines(hash, t, k, v);
      var t' := PutResult(hash, t, k, v).0;
      AbsHas(t.slots);
      AbsHas(t'.slots);
      assert Keys(t'.slots) + KeysPut(puts[1..]) <= Keys(t.slots) + KeysPut(puts) by {
        assert forall i :: 0 <= i < |puts[1..]| ==> puts[1..][i] == puts[i + 1];
      }
      RoomySubset(hash, Keys(t'.slots) + KeysPut(puts[1..]), Keys(t.slots) + KeysPut(puts));
      RoomyPutsReturn(hash, t', puts[1..]);
    }
  }

  // The dictionary as it runs

  type Key = seq<byte>

  const MIN_SIZE: nat := 256

  /** parcBuffer_HashCode of a buffer with these remaining bytes. */
  const KEY_HASH: Key -> nat := (k: Key) => BufferHash(k)

  /** _parcBufferHashCode: the hash code of a key depends on its remaining bytes only. */
  method HashOfKey(buffer: Buffer) returns (hash: nat)
    requires buffer.Valid()
    ensures hash == KEY_HASH(buffer.Content())
  {
    hash := HashCodeOf(buffer);
  }

  class BufferDictionary {
    var hashtable: HashCodeTable<Key, seq<byte>>

    ghost predicate Valid()
      reads this, hashtable, hashtable.hashtable, hashtable.hashtable.entries
    {
      hashtable.Valid() && hashtable.hash == KEY_HASH
    }

    ghost function Contents(): map<Key, seq<byte>>
      reads this, hashtable, hashtable.hashtable, hashtable.hashtable.entries
    {
      hashtable.Contents()
    }

    ghost function Model(): Table<Key, seq<byte>>
      reads this, hashtable, hashtable.hashtable, hashtable.hashtable.entries
    {
      hashtable.Model()
    }

    /** The table object and its slots are the old ones, or new ones. */
    twostate predicate SameTable()
      reads this, hashtable, hashtable.hashtable
    {
      && (hashtable.hashtable == old(hashtable.hashtable)
          || (fresh(hashtable.hashtable) && fresh(hashtable.hashtable.entries)))
      && (hashtable.hashtable == old(hashtable.hashtable) ==>
            hashtable.hashtable.entries == old(hashtable.hashtable.entries))
    }

    constructor ()
      ensures Valid() && Contents() == map[] && Packed(Model().slots) && Model() == Create(256)
      ensures fresh(hashtable) && fresh(hashtable.hashtable) && fresh(hashtable.hashtable.entries)
    {
      hashtable := new HashCodeTable(KEY_HASH, MIN_SIZE);
    }

    method Get(key: Key) returns (value: Option<seq<byte>>)
      requires Valid()
      ensures value == Lookup(Contents(), key)
    {
      value := hashtable.Get(key);
    }

    /** The replaced value and the new map, unless a freed slot hides the key from Add. */
    method Put(key: Key, value: seq<byte>) returns (oldValue: Option<seq<byte>>)
      requires Valid() && AddReturns(KEY_HASH, Model(), key)
      modifies hashtable, hashtable.hashtable, hashtable.hashtable.entries
      ensures SameTable()
      ensures old(PutReturns(KEY_HASH, Model(), key, value))
      ensures (Model(), oldValue) == PutResult(KEY_HASH, old(Model()), key, value)
      ensures old(key in Contents() ==> Visible(KEY_HASH, Model(), key)) ==>
                Valid() && Contents() == old(Contents())[key := value] && oldValue == Lookup(old(Contents()), key)
      ensures old(Packed(Model().slots)) ==> Valid() && Packed(Model().slots)
    {
      ghost var t := Model();
      PutMeans(KEY_HASH, t, key, value);
      oldValue := None;
      var added := hashtable.Add(key, value);
      if !added {
        RefusedCanBeReplaced(KEY_HASH, t, key, value);
        oldValue := Replace(key, value);
      }
    }

    /** The part of Put that runs when Add is refused. */
    method Replace(key: Key, value: seq<byte>) returns (oldValue: Option<seq<byte>>)
      requires Valid() && key in Contents()
      requires !Shadowed(KEY_HASH, Model().slots, key) && 4 * Model().size < 3 * |Model().slots|
      modifies hashtable, hashtable.hashtable, hashtable.hashtable.entries
      ensures SameTable()
      ensures hashtable.Shape() && oldValue == old(HashCodeTableSpec.Get(KEY_HASH, Model(), key))
      ensures var d := old(HashCodeTableSpec.Del(KEY_HASH, Model(), key));
              AddReturns(KEY_HASH, d, key) && Model() == HashCodeTableSpec.Add(KEY_HASH, d, key, value).0
    {
      GetAgrees(KEY_HASH, Model(), key);
      ReplaceRefines(KEY_HASH, Model(), key, value);
      oldValue := hashtable.Get(key);
      hashtable.Del(key);
      var _ := hashtable.Add(key, value);
    }

    /** Put into a dictionary from which nothing was removed. */
    method PutPacked(key: Key, value: seq<byte>) returns (oldValue: Option<seq<byte>>)
      requires Valid() && Packed(Model().slots) && PutReturns(KEY_HASH, Model(), key, value)
      modifies hashtable, hashtable.hashtable, hashtable.hashtable.entries
      ensures SameTable() && Valid() && Packed(Model().slots)
      ensures Model() == PutResult(KEY_HASH, old(Model()), key, value).0
      ensures Contents() == old(Contents())[key := value] && oldValue == Lookup(old(Contents()), key)
    {
      PackedUnshadowed(KEY_HASH, Model().slots, key);
      oldValue := Put(key, value);
    }

    /** Any list of Puts into a dictionary from which nothing was removed. */
    method PutAll(puts: seq<(Key, seq<byte>)>) returns (previous: seq<Option<seq<byte>>>)
      requires Valid() && Packed(Model().slots) && Contents() == map[] && PutsReturn(KEY_HASH, Model(), puts)
      modifies hashtable, hashtable.hashtable, hashtable.hashtable.entries
      ensures Valid() && Contents() == PutMap(puts) && previous == Previous(puts, |puts|)
    {
      previous := [];
      ghost var rest := puts;
      for n := 0 to |puts|
        invariant SameTable() && Valid() && Packed(Model().slots) && Contents() == PutMap(puts[..n])
        invariant rest == puts[n..] && PutsReturn(KEY_HASH, Model(), rest)
        invariant previous == Previous(puts, n)
      {
        PutMapSnoc(puts, n);
        var value := PutPacked(puts[n].0, puts[n].1);
        previous, rest := previous + [value], rest[1..];
      }
      assert puts[..|puts|] == puts;
    }

    method Remove(key: Key) returns (oldValue: Option<seq<byte>>)
      requires Valid() && key in Contents()
      modifies hashtable.hashtable`tableSize, hashtable.hashtable.entries
      ensures Valid() && Contents() == Without(old(Contents()), key)
      ensures Model() == HashCodeTableSpec.Del(KEY_HASH, old(Model()), key)
      ensures oldValue == Lookup(old(Contents()), key)
    {
      oldValue := hashtable.Get(key);
      hashtable.Del(key);
    }
  }

  /** Any list of Puts on a new dictionary, if each of them returns: what they return, and the map that is left. */
  method Perform(puts: seq<(Key, seq<byte>)>) returns (d: BufferDictionary, previous: seq<Option<seq<byte>>>)
    requires PutsReturn(KEY_HASH, Create(MIN_SIZE), puts)
    ensures d.Valid() && d.Contents() == PutMap(puts) && |previous| == |puts|
    ensures forall i :: 0 <= i < |puts| ==> previous[i] == Lookup(PutMap(puts[..i]), puts[i].0)
  {
    d := new BufferDictionary();
    previous := d.PutAll(puts);
  }

  lemma {:induction false} SameHome(percent: Key, code: nat)
    requires percent == [37] && code == KEY_HASH(percent)
    ensures code % 256 == 0 && KEY_HASH([]) == 0
  {
    PercentEndsInZero(percent, BufferHash(percent));
  }

  lemma {:induction false} ForgetfulRun(a: seq<byte>, b: seq<byte>, c: seq<byte>)
    returns (t1: Table<Key, seq<byte>>, t2: Table<Key, seq<byte>>, t3: Table<Key, seq<byte>>)
    ensures var t0 := Create<Key, seq<byte>>(MIN_SIZE);
            PutReturns(KEY_HASH, t0, [], a) && PutResult(KEY_HASH, t0, [], a) == (t1, None)
    ensures |t1.slots| > 0 && PutReturns(KEY_HASH, t1, [37], b) && PutResult(KEY_HASH, t1, [37], b) == (t2, None)
    ensures |t2.slots| > 0 && Del(KEY_HASH, t2, []) == t3
    ensures |t3.slots| > 0 && PutReturns(KEY_HASH, t3, [37], c) && PutResult(KEY_HASH, t3, [37], c).1 == None
  {
    SameHome([37], KEY_HASH([37]));
    SecondCopy(KEY_HASH, MIN_SIZE, [], [37], a, b, c);
    t1 := TwoSlots(MIN_SIZE, 0, Used(KEY_HASH([]), [], a), Free);
    t2 := TwoSlots(MIN_SIZE, 0, Used(KEY_HASH([]), [], a), Used(KEY_HASH([37]), [37], b));
    t3 := TwoSlots(MIN_SIZE, 0, Free, Used(KEY_HASH([37]), [37], b));
  }

  method TwoPuts(a: seq<byte>, b: seq<byte>, ghost t1: Table<Key, seq<byte>>, ghost t2: Table<Key, seq<byte>>)
    returns (d: BufferDictionary)
    requires var t0 := Create<Key, seq<byte>>(MIN_SIZE);
             PutReturns(KEY_HASH, t0, [], a) && PutResult(KEY_HASH, t0, [], a) == (t1, None)
    requires |t1.slots| > 0 && PutReturns(KEY_HASH, t1, [37], b) && PutResult(KEY_HASH, t1, [37], b) == (t2, None)
    ensures d.Valid() && d.Model() == t2 && d.Contents() == map[[] := a, [37] := b]
    ensures fresh(d) && fresh(d.hashtable) && fresh(d.hashtable.hashtable) && fresh(d.hashtable.hashtable.entries)
  {
    d := new BufferDictionary();
    var _ := d.PutPacked([], a);
    var _ := d.PutPacked([37], b);
  }

  method RemoveFirst(a: seq<byte>, b: seq<byte>, ghost t1: Table<Key, seq<byte>>, ghost t2: Table<Key, seq<byte>>)
    returns (d: BufferDictionary, removed: Option<seq<byte>>)
    requires var t0 := Create<Key, seq<byte>>(MIN_SIZE);
             PutReturns(KEY_HASH, t0, [], a) && PutResult(KEY_HASH, t0, [], a) == (t1, None)
    requires |t1.slots| > 0 && PutReturns(KEY_HASH, t1, [37], b) && PutResult(KEY_HASH, t1, [37], b) == (t2, None)
    ensures |t2.slots| > 0 && d.Valid() && d.Model() == Del(KEY_HASH, t2, [])
    ensures fresh(d) && fresh(d.hashtable) && fresh(d.hashtable.hashtable) && fresh(d.hashtable.hashtable.entries)
    ensures removed == Some(a) && d.Contents() == Without(map[[] := a, [37] := b], [])
  {
    d := TwoPuts(a, b, t1, t2);
    removed := d.Remove([]);
  }

  /**
   The keys "" and "%" have the same home in a new dictionary. Put both, Remove "": a Put of "%", which
   Get still finds, reports that there was none.
   */
  method PutAfterRemoveForgets(a: seq<byte>, b: seq<byte>, c: seq<byte>)
    returns (removed: Option<seq<byte>>, found: Option<seq<byte>>, reported: Option<seq<byte>>)
    ensures removed == Some(a) && found == Some(b) && reported == None
  {
    ghost var t1, t2, t3 := ForgetfulRun(a, b, c);
    var d;
    d, removed := RemoveFirst(a, b, t1, t2);
    found := d.Get([37]);
    reported := d.Put([37], c);
  }
}
