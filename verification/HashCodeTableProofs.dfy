/** The open-addressing table refines a finite map. */
module HashCodeTableProofs {
  import opened Basics
  import opened HashCodeTableSpec

  // Probe geometry

  lemma {:induction false} AtForm(h: nat, i: nat, limit: nat)
    requires limit > 0 && i <= limit
    ensures var x := h % limit + i;
            At(h, i, limit) == if x < limit then x else if x < 2 * limit then x - limit else x - 2 * limit
  {
    var q, b := h / limit, h % limit;
    var x := b + i;
    assert h + i == q * limit + x;
    if x < limit {
      ModUnique(h + i, limit, q, x);
    } else {
      assert h + i == (q + 1) * limit + (x - limit);
      if x < 2 * limit {
        ModUnique(h + i, limit, q + 1, x - limit);
      }
    }
  }

  lemma {:induction false} AtStep(h: nat, i: nat, limit: nat)
    requires limit > 0
    ensures At(h, i + 1, limit) == if At(h, i, limit) + 1 == limit then 0 else At(h, i, limit) + 1
    ensures At(h, 0, limit) == h % limit
  {
    var q, r := (h + i) / limit, (h + i) % limit;
    assert h + i + 1 == q * limit + (r + 1);
    if r + 1 < limit {
      ModUnique(h + i + 1, limit, q, r + 1);
    } else {
      assert h + i + 1 == (q + 1) * limit + 0;
      ModUnique(h + i + 1, limit, q + 1, 0);
    }
  }

  /** Within one turn, steps and slots determine each other. */
  lemma {:induction false} AtDist(h: nat, j: nat, limit: nat)
    requires j < limit
    ensures At(h, Dist(h, j, limit), limit) == j
  {
    AtForm(h, Dist(h, j, limit), limit);
  }

  lemma {:induction false} DistAt(h: nat, i: nat, limit: nat)
    requires i < limit
    ensures Dist(h, At(h, i, limit), limit) == i
  {
    AtForm(h, i, limit);
  }

  /** After one full turn a probe revisits the same slots. */
  lemma {:induction false} AtTurn(h: nat, i: nat, limit: nat)
    requires 0 < limit <= i
    ensures At(h, i, limit) == At(h, i - limit, limit)
  {
    var q, r := (h + i - limit) / limit, (h + i - limit) % limit;
    assert h + i == (q + 1) * limit + r;
    ModUnique(h + i, limit, q + 1, r);
  }

  // The map of a table

  lemma {:induction false} AbsHas<K, D(!new)>(slots: seq<Slot<K, D>>)
    requires Unique(slots)
    ensures forall k, d :: Has(slots, k, d) <==> k in Abs(slots) && Abs(slots)[k] == d
    ensures Abs(slots).Keys == Keys(slots)
  {
  }

  lemma {:induction false} AbsIs<K(!new), D(!new)>(slots: seq<Slot<K, D>>, m: map<K, D>)
    requires Unique(slots)
    requires forall k, d :: Has(slots, k, d) <==> k in m && m[k] == d
    ensures Abs(slots) == m
  {
    AbsHas(slots);
    forall k ensures k in Abs(slots) <==> k in m {
      if k in m { assert Has(slots, k, m[k]); }
      if k in Abs(slots) { assert Has(slots, k, Abs(slots)[k]); }
    }
    forall k | k in m ensures Abs(slots)[k] == m[k] {
      assert Has(slots, k, m[k]);
    }
  }

  /** A slot that is filled, or emptied, changes the map in its own key only. */
  lemma {:induction false} FillSlot<K(!new), D(!new)>(slots: seq<Slot<K, D>>, j: nat, h: nat, k: K, d: D)
    requires Unique(slots) && j < |slots| && slots[j].Free? && k !in Keys(slots)
    ensures var s := slots[j := Used(h, k, d)];
            Unique(s) && Abs(s) == Abs(slots)[k := d] && Occupied(s) == Occupied(slots) + {j}
  {
    var s := slots[j := Used(h, k, d)];
    AbsHas(slots);
    forall x, y ensures Has(s, x, y) <==> x in Abs(slots)[k := d] && Abs(slots)[k := d][x] == y {
      if x == k {
        assert s[j].key == k;
      } else if Has(slots, x, y) {
        var i :| 0 <= i < |slots| && slots[i].Used? && slots[i].key == x && slots[i].data == y;
        assert s[i] == slots[i];
      }
    }
    AbsIs(s, Abs(slots)[k := d]);
  }

  lemma {:induction false} FreeSlot<K(!new), D(!new)>(slots: seq<Slot<K, D>>, j: nat)
    requires Unique(slots) && j < |slots| && slots[j].Used?
    ensures var s := slots[j := Free];
            Unique(s) && Abs(s) == Without(Abs(slots), slots[j].key) && Occupied(s) == Occupied(slots) - {j}
  {
    var s, m := slots[j := Free], Without(Abs(slots), slots[j].key);
    AbsHas(slots);
    forall x, y ensures Has(s, x, y) <==> x in m && m[x] == y {
      if x != slots[j].key && Has(slots, x, y) {
        var i :| 0 <= i < |slots| && slots[i].Used? && slots[i].key == x && slots[i].data == y;
        assert s[i] == slots[i];
      }
    }
    AbsIs(s, m);
  }

  lemma {:induction false} SameKeys<K, D(!new)>(a: seq<Slot<K, D>>, b: seq<Slot<K, D>>)
    requires Unique(a) && Unique(b) && Abs(a) == Abs(b)
    ensures Keys(a) == Keys(b)
  {
    AbsHas(a);
    AbsHas(b);
  }

  lemma {:induction false} KeysOfPrefix<K, D>(slots: seq<Slot<K, D>>, n: nat)
    requires n < |slots| && Unique(slots)
    ensures Keys(slots[..n]) <= Keys(slots)
    ensures Keys(slots[..n + 1]) == if slots[n].Used? then Keys(slots[..n]) + {slots[n].key} else Keys(slots[..n])
    ensures slots[n].Used? ==> slots[n].key in Keys(slots) && slots[n].key !in Keys(slots[..n])
  {
    var a, b := slots[..n], slots[..n + 1];
    forall k ensures k in Keys(b) <==> k in Keys(a) || (slots[n].Used? && k == slots[n].key) {
      if k in Keys(a) {
        var i :| 0 <= i < n && a[i].Used? && a[i].key == k;
        assert b[i] == a[i] == slots[i];
      }
      if slots[n].Used? { assert b[n] == slots[n]; }
      if k in Keys(b) {
        var i :| 0 <= i < n + 1 && b[i].Used? && b[i].key == k;
        assert i < n ==> a[i] == b[i];
      }
    }
    forall k | k in Keys(a) ensures k in Keys(slots) {
      var i :| 0 <= i < n && a[i].Used? && a[i].key == k;
      assert slots[i] == a[i];
    }
  }

  // Lookup

  /** The key of a placed entry is found within the window, and nothing else is. */
  lemma {:induction false} SeekFinds<K, D>(hash: K -> nat, slots: seq<Slot<K, D>>, k: K)
    requires |slots| > 0 && Placed(hash, slots) && Unique(slots)
    ensures var i := Seek(slots, hash(k), k, 0);
            && (i < Window(|slots|) <==> k in Keys(slots))
            && (i < Window(|slots|) ==> slots[At(hash(k), i, |slots|)].Used? && slots[At(hash(k), i, |slots|)].key == k)
  {
    if k in Keys(slots) {
      var j :| 0 <= j < |slots| && slots[j].Used? && slots[j].key == k;
      AtDist(hash(k), j, |slots|);
    }
  }

  lemma {:induction false} GetAgrees<K(!new), D(!new)>(hash: K -> nat, t: Table<K, D>, k: K)
    requires Inv(hash, t)
    ensures Get(hash, t, k) == Lookup(Abs(t.slots), k)
  {
    SeekFinds(hash, t.slots, k);
    AbsHas(t.slots);
    var i := Seek(t.slots, hash(k), k, 0);
    if i < Window(|t.slots|) {
      assert Has(t.slots, k, t.slots[At(hash(k), i, |t.slots|)].data);
    }
  }

  lemma {:induction false} DelRefines<K(!new), D(!new)>(hash: K -> nat, t: Table<K, D>, k: K)
    requires Inv(hash, t)
    ensures var t' := Del(hash, t, k); Inv(hash, t') && Abs(t'.slots) == Without(Abs(t.slots), k)
    ensures Del(hash, t, k).size == if k in Abs(t.slots) then t.size - 1 else t.size
  {
    SeekFinds(hash, t.slots, k);
    AbsHas(t.slots);
    var i := Seek(t.slots, hash(k), k, 0);
    if i < Window(|t.slots|) {
      FreeSlot(t.slots, At(hash(k), i, |t.slots|));
    }
  }

  // Adding a key that is absent

  lemma {:induction false} ProbeIs<K, D>(slots: seq<Slot<K, D>>, h: nat, k: K, i: nat)
    requires |slots| > 0 && i < MAX_PROBE_LENGTH && Stops(slots, h, k, i)
    requires forall x :: 0 <= x < i ==> !Stops(slots, h, k, x)
    ensures Probe(slots, h, k, 0) == i
  {
  }

  /** Where an Add finds a free slot, the steps before it are distinct and taken. */
  lemma {:induction false} FirstFree<K, D>(slots: seq<Slot<K, D>>, h: nat, k: K)
    requires |slots| > 0
    requires var i := Probe(slots, h, k, 0); i < MAX_PROBE_LENGTH && slots[At(h, i, |slots|)].Free?
    ensures var i := Probe(slots, h, k, 0);
            && Dist(h, At(h, i, |slots|), |slots|) == i
            && forall x :: 0 <= x < i ==> slots[At(h, x, |slots|)].Used?
  {
    var i := Probe(slots, h, k, 0);
    if i >= |slots| {
      AtTurn(h, i, |slots|);
      assert Stops(slots, h, k, i - |slots|);
    }
    DistAt(h, i, |slots|);
    forall x | 0 <= x < i ensures slots[At(h, x, |slots|)].Used? {
      assert !Stops(slots, h, k, x);
    }
  }

  lemma {:induction false} InnerAddRefines<K(!new), D(!new)>(hash: K -> nat, slots: seq<Slot<K, D>>, k: K, d: D)
    requires |slots| > 0 && Placed(hash, slots) && Unique(slots) && k !in Keys(slots)
    ensures var r := InnerAdd(slots, hash(k), k, d);
            && !r.Duplicate?
            && (r.Added? ==>
                && |r.slots| == |slots| && Placed(hash, r.slots) && Unique(r.slots)
                && Abs(r.slots) == Abs(slots)[k := d]
                && |Occupied(r.slots)| == |Occupied(slots)| + 1)
  {
    var i := Probe(slots, hash(k), k, 0);
    if i < MAX_PROBE_LENGTH {
      var j := At(hash(k), i, |slots|);
      assert Stops(slots, hash(k), k, i);
      FirstFree(slots, hash(k), k);
      FillSlot(slots, j, hash(k), k, d);
    }
  }

  lemma {:induction false} InnerAddPacks<K, D>(slots: seq<Slot<K, D>>, h: nat, k: K, d: D)
    requires |slots| > 0 && Packed(slots)
    ensures var r := InnerAdd(slots, h, k, d); r.Added? ==> Packed(r.slots)
  {
    var r := InnerAdd(slots, h, k, d);
    if r.Added? {
      FirstFree(slots, h, k);
    }
  }

  // Growing

  lemma {:induction false} SnocSlot<K(!new), D(!new)>(slots: seq<Slot<K, D>>, n: nat)
    requires n < |slots| && Unique(slots)
    ensures Unique(slots[..n]) && Unique(slots[..n + 1])
    ensures slots[n].Free? ==> Abs(slots[..n + 1]) == Abs(slots[..n]) && Occupied(slots[..n + 1]) == Occupied(slots[..n])
    ensures slots[n].Used? ==>
              && slots[n].key !in Keys(slots[..n])
              && Abs(slots[..n + 1]) == Abs(slots[..n])[slots[n].key := slots[n].data]
              && Occupied(slots[..n + 1]) == Occupied(slots[..n]) + {n}
  {
    var a, b, x := slots[..n], slots[..n + 1], slots[n];
    AbsHas(a);
    var m := if x.Used? then Abs(a)[x.key := x.data] else Abs(a);
    forall k, d ensures Has(b, k, d) <==> k in m && m[k] == d {
      if Has(a, k, d) {
        var i :| 0 <= i < n && a[i].Used? && a[i].key == k && a[i].data == d;
        assert b[i] == a[i];
      }
      if x.Used? && x.key == k && x.data == d {
        assert b[n] == x;
      }
      if Has(b, k, d) {
        var i :| 0 <= i < n + 1 && b[i].Used? && b[i].key == k && b[i].data == d;
        assert i < n ==> a[i] == b[i];
      }
    }
    AbsIs(b, m);
  }

  /** `s` holds exactly the entries of the first `n` slots, without gaps. */
  ghost predicate Carries<K, D>(hash: K -> nat, s: seq<Slot<K, D>>, slots: seq<Slot<K, D>>, n: nat)
    requires n <= |slots|
  {
    && Placed(hash, s) && Unique(s) && Packed(s)
    && Abs(s) == Abs(slots[..n])
    && |Occupied(s)| == |Occupied(slots[..n])|
  }

  /** The stored hash codes are those of the keys. */
  ghost predicate Hashed<K, D>(hash: K -> nat, slots: seq<Slot<K, D>>) {
    forall j :: 0 <= j < |slots| && slots[j].Used? ==> slots[j].hashcode == hash(slots[j].key)
  }

  lemma {:induction false} CarriesNone<K, D>(hash: K -> nat, slots: seq<Slot<K, D>>, limit: nat)
    ensures Carries(hash, EmptySlots(limit), slots, 0)
  {
    assert Occupied(slots[..0]) == {} == Occupied(EmptySlots<K, D>(limit));
    assert Keys(slots[..0]) == {} == Keys(EmptySlots<K, D>(limit));
  }

  lemma {:induction false} CarriesOneMore<K(!new), D(!new)>(hash: K -> nat, s: seq<Slot<K, D>>, slots: seq<Slot<K, D>>, n: nat)
    requires |s| > 0 && n < |slots| && Hashed(hash, slots) && Unique(slots) && Carries(hash, s, slots, n)
    requires slots[n].Used?
    ensures var r := InnerAdd(s, slots[n].hashcode, slots[n].key, slots[n].data);
            !r.Duplicate? && (r.Added? ==> Carries(hash, r.slots, slots, n + 1))
  {
    var x := slots[n];
    SnocSlot(slots, n);
    AbsHas(s);
    AbsHas(slots[..n]);
    InnerAddRefines(hash, s, x.key, x.data);
    InnerAddPacks(s, x.hashcode, x.key, x.data);
    assert n !in Occupied(slots[..n]);
  }

  /** Rehashing keeps the map, never meets a duplicate, and leaves no gaps. */
  lemma {:induction false} RehashKeeps<K(!new), D(!new)>(hash: K -> nat, slots: seq<Slot<K, D>>, n: nat, limit: nat)
    requires n <= |slots| && limit > 0 && Hashed(hash, slots) && Unique(slots)
    ensures var r := Rehash(slots, n, limit);
            !r.Duplicate? && (r.Added? ==> Carries(hash, r.slots, slots, n))
  {
    if n == 0 {
      CarriesNone(hash, slots, limit);
    } else {
      RehashKeeps(hash, slots, n - 1, limit);
      var r := Rehash(slots, n - 1, limit);
      if r.Added? {
        if slots[n - 1].Used? {
          CarriesOneMore(hash, r.slots, slots, n - 1);
        } else {
          SnocSlot(slots, n - 1);
        }
      }
    }
  }

  lemma {:induction false} RehashStops<K, D>(slots: seq<Slot<K, D>>, n: nat, m: nat, limit: nat)
    requires n <= m <= |slots| && limit > 0 && !Rehash(slots, n, limit).Added?
    ensures Rehash(slots, m, limit) == Rehash(slots, n, limit)
  {
    if n < m {
      RehashStops(slots, n, m - 1, limit);
    }
  }

  /** An entry that cannot be rehashed ends the rehash; the entries before it are in the new table. */
  lemma {:induction false} FilledStops<K, D>(slots: seq<Slot<K, D>>, n: nat, m: nat, limit: nat)
    requires n < m <= |slots| && limit > 0 && Rehash(slots, n, limit).Added? && !Rehash(slots, n + 1, limit).Added?
    ensures Rehash(slots, m, limit) == Rehash(slots, n + 1, limit)
    ensures Filled(slots, m, limit) == Rehash(slots, n, limit).slots
  {
    RehashStops(slots, n + 1, m, limit);
    if n + 1 < m {
      FilledStops(slots, n, m - 1, limit);
    }
  }

  /** _expand keeps the mapping and the size, and makes room under the threshold. */
  lemma {:induction false} ExpandKeeps<K(!new), D(!new)>(hash: K -> nat, t: Table<K, D>)
    requires Inv(hash, t) && CanExpand(t.slots)
    ensures var t' := Expand(t);
            && Inv(hash, t') && Abs(t'.slots) == Abs(t.slots) && t'.size == t.size
            && 4 * t'.size < 3 * |t'.slots|
            && Packed(t'.slots)
  {
    var e: nat :| LeastFactor(t.slots, e) && Expand(t).slots == Rehash(t.slots, |t.slots|, |t.slots| * e).slots;
    RehashKeeps(hash, t.slots, |t.slots|, |t.slots| * e);
    assert t.slots[..|t.slots|] == t.slots;
  }

  lemma {:induction false} PlaceRefines<K(!new), D(!new)>(hash: K -> nat, t: Table<K, D>, k: K, d: D, n: nat)
    requires Inv(hash, t) && 4 * t.size < 3 * |t.slots| && k !in Keys(t.slots)
    requires Settles(t, hash(k), k, n)
    ensures var (t', ok) := Place(t, hash(k), k, d, n);
            ok && Inv(hash, t') && Abs(t'.slots) == Abs(t.slots)[k := d] && t'.size == t.size + 1
    ensures Packed(t.slots) ==> Packed(Place(t, hash(k), k, d, n).0.slots)
    decreases n
  {
    if Stuck(t.slots, hash(k), k) {
      ExpandKeeps(hash, t);
      AbsHas(t.slots);
      AbsHas(Expand(t).slots);
      PlaceRefines(hash, Expand(t), k, d, n - 1);
    } else {
      InnerAddRefines(hash, t.slots, k, d);
      if Packed(t.slots) { InnerAddPacks(t.slots, hash(k), k, d); }
    }
  }

  lemma {:induction false} PreparedKeeps<K(!new), D(!new)>(hash: K -> nat, t: Table<K, D>)
    requires Inv(hash, t) && (4 * t.size >= 3 * |t.slots| ==> CanExpand(t.slots))
    ensures var p := Prepared(t);
            && Inv(hash, p) && Abs(p.slots) == Abs(t.slots) && p.size == t.size
            && 4 * p.size < 3 * |p.slots| && Keys(p.slots) == Keys(t.slots)
            && (|p.slots| > |t.slots| <==> 4 * t.size >= 3 * |t.slots|)
            && (Packed(t.slots) || p != t ==> Packed(p.slots))
  {
    if 4 * t.size >= 3 * |t.slots| {
      ExpandKeeps(hash, t);
    }
    AbsHas(t.slots);
    AbsHas(Prepared(t).slots);
  }

  /** Adding an absent key inserts it, whatever growth happens on the way. */
  lemma {:induction false} AddAbsent<K(!new), D(!new)>(hash: K -> nat, t: Table<K, D>, k: K, d: D)
    requires Inv(hash, t) && AddReturns(hash, t, k) && k !in Abs(t.slots)
    ensures var (t', ok) := Add(hash, t, k, d);
            ok && Inv(hash, t') && Abs(t'.slots) == Abs(t.slots)[k := d] && t'.size == t.size + 1
    ensures Packed(t.slots) ==> Packed(Add(hash, t, k, d).0.slots)
  {
    PreparedKeeps(hash, t);
    AbsHas(t.slots);
    var n: nat :| Settles(Prepared(t), hash(k), k, n) && Add(hash, t, k, d) == Place(Prepared(t), hash(k), k, d, n);
    PlaceRefines(hash, Prepared(t), k, d, n);
  }

  // Adding a key that is present

  /** Some slot between the key's home and the key itself has been freed. */
  ghost predicate Shadowed<K, D>(hash: K -> nat, slots: seq<Slot<K, D>>, k: K)
    requires |slots| > 0
  {
    exists j, i :: 0 <= j < |slots| && slots[j].Used? && slots[j].key == k
                   && 0 <= i < Dist(hash(k), j, |slots|) && slots[At(hash(k), i, |slots|)].Free?
  }

  lemma {:induction false} InnerAddPresent<K(!new), D(!new)>(hash: K -> nat, slots: seq<Slot<K, D>>, k: K, d: D)
    requires |slots| > 0 && Placed(hash, slots) && Unique(slots) && k in Keys(slots)
    ensures !Stuck(slots, hash(k), k)
    ensures var r := InnerAdd(slots, hash(k), k, d);
            if Shadowed(hash, slots, k) then r.Added? && !Unique(r.slots) else r.Duplicate?
  {
    var h := hash(k);
    var j :| 0 <= j < |slots| && slots[j].Used? && slots[j].key == k;
    var x := Dist(h, j, |slots|);
    AtDist(h, j, |slots|);
    assert Stops(slots, h, k, x);
    var i := Probe(slots, h, k, 0);
    assert i <= x;
    var j' := At(h, i, |slots|);
    DistAt(h, i, |slots|);
    if slots[j'].Free? {
      assert i < x;
      var s := slots[j' := Used(h, k, d)];
      assert s[j'].key == k && s[j].key == k && j != j';
    } else {
      assert j' == j;
      forall i' | 0 <= i' < x ensures !slots[At(h, i', |slots|)].Free? {
        assert !Stops(slots, h, k, i');
      }
    }
  }

  /**
   Adding a present key: the call is refused, and the mapping is unchanged, exactly when the table is
   three quarters full (growing packs it first) or no free slot shadows the key. Otherwise a second
   copy of the key is stored.
   */
  lemma {:induction false} AddPresent<K(!new), D(!new)>(hash: K -> nat, t: Table<K, D>, k: K, d: D)
    requires Inv(hash, t) && AddReturns(hash, t, k) && k in Abs(t.slots)
    ensures var (t', ok) := Add(hash, t, k, d);
            var refused := 4 * t.size >= 3 * |t.slots| || !Shadowed(hash, t.slots, k);
            && ok == !refused
            && (refused <==> Unique(t'.slots))
            && (refused ==> t' == Prepared(t) && Inv(hash, t') && Abs(t'.slots) == Abs(t.slots) && t'.size == t.size)
  {
    PreparedKeeps(hash, t);
    AbsHas(t.slots);
    var p := Prepared(t);
    if 4 * t.size >= 3 * |t.slots| {
      PackedUnshadowed(hash, p.slots, k);
    }
    InnerAddPresent(hash, p.slots, k, d);
  }

  lemma {:induction false} PackedUnshadowed<K, D>(hash: K -> nat, slots: seq<Slot<K, D>>, k: K)
    requires |slots| > 0 && Placed(hash, slots) && Packed(slots)
    ensures !Shadowed(hash, slots, k)
  {
  }
}
