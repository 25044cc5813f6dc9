/** When the retry loops of _expand and parcHashCodeTable_Add end. */
module HashCodeTableGrowth {
  import opened Basics
  import opened HashCodeTableSpec
  import opened HashCodeTableProofs

  // Tables wider than every hash code, in which no probe wraps around

  ghost predicate Wide<K(!new)>(hash: K -> nat, keys: set<K>, limit: int) {
    limit > 0 && forall k :: k in keys ==> hash(k) + 20 <= limit
  }

  lemma {:induction false} AtWide(h: nat, i: nat, limit: nat)
    requires h + i < limit
    ensures At(h, i, limit) == h + i
  {
    ModUnique(h + i, limit, 0, h + i);
  }

  lemma {:induction false} DistWide(h: nat, j: nat, limit: nat)
    requires h + MAX_PROBE_LENGTH <= limit && j < limit && Dist(h, j, limit) < MAX_PROBE_LENGTH
    ensures h <= j && Dist(h, j, limit) == j - h
  {
    ModUnique(h, limit, 0, h);
  }

  // One trial into a wide table decides _expand

  /** Wherever the wide table has an entry, the narrow one has one at the same place modulo its size. */
  ghost predicate Covers<K, D>(narrow: seq<Slot<K, D>>, wide: seq<Slot<K, D>>)
    requires |narrow| > 0
  {
    forall p :: 0 <= p < |wide| && wide[p].Used? ==> narrow[At(p, 0, |narrow|)].Used?
  }

  /** A key that finds a place in the narrow table finds one in the wide table, no later. */
  lemma {:induction false} CoveredAdd<K, D>(narrow: seq<Slot<K, D>>, wide: seq<Slot<K, D>>, h: nat, k: K, d: D)
    requires |narrow| > 0 && Covers(narrow, wide) && h + MAX_PROBE_LENGTH <= |wide| && k !in Keys(wide)
    requires InnerAdd(narrow, h, k, d).Added?
    ensures var w := InnerAdd(wide, h, k, d);
            w.Added? && Covers(InnerAdd(narrow, h, k, d).slots, w.slots)
  {
    var i, i' := Probe(narrow, h, k, 0), Probe(wide, h, k, 0);
    FirstFree(narrow, h, k);
    assert At(h + i, 0, |narrow|) == At(h, i, |narrow|);
    AtWide(h, i, |wide|);
    assert wide[h + i].Free?;
    assert Stops(wide, h, k, i);
    assert i' <= i;
    AtWide(h, i', |wide|);
    assert wide[h + i'].Free?;
    assert At(h + i', 0, |narrow|) == At(h, i', |narrow|);
  }

  lemma {:induction false} CoveredRehash<K(!new), D(!new)>(hash: K -> nat, slots: seq<Slot<K, D>>, n: nat, limit: nat, wide: nat)
    requires n <= |slots| && Placed(hash, slots) && Unique(slots) && Wide(hash, Keys(slots), wide)
    requires limit > 0 && Rehash(slots, n, limit).Added?
    ensures Rehash(slots, n, wide).Added? && Covers(Rehash(slots, n, limit).slots, Rehash(slots, n, wide).slots)
  {
    if n > 0 {
      CoveredRehash(hash, slots, n - 1, limit, wide);
      var x, w := slots[n - 1], Rehash(slots, n - 1, wide).slots;
      if x.Used? {
        NewToRehash(hash, slots, n - 1, wide);
        KeysOfPrefix(slots, n - 1);
        CoveredAdd(Rehash(slots, n - 1, limit).slots, w, x.hashcode, x.key, x.data);
      }
    }
  }

  /** While rehashing, the next entry's key is not in the new table yet. */
  lemma {:induction false} NewToRehash<K(!new), D(!new)>(hash: K -> nat, slots: seq<Slot<K, D>>, n: nat, limit: nat)
    requires n < |slots| && slots[n].Used? && Placed(hash, slots) && Unique(slots)
    requires limit > 0 && Rehash(slots, n, limit).Added?
    ensures var s := Rehash(slots, n, limit).slots;
            && Placed(hash, s) && Unique(s) && Packed(s)
            && Keys(s) == Keys(slots[..n]) && slots[n].key !in Keys(s)
  {
    RehashKeeps(hash, slots, n, limit);
    SnocSlot(slots, n);
    AbsHas(slots[..n]);
    AbsHas(Rehash(slots, n, limit).slots);
  }

  lemma {:induction false} LeastExists<K, D>(slots: seq<Slot<K, D>>, from: nat, e: nat)
    requires |slots| > 0 && 2 <= from <= e && Fits(slots, e) && forall x :: 2 <= x < from ==> !Fits(slots, x)
    ensures CanExpand(slots)
    decreases e - from
  {
    if Fits(slots, from) {
      assert LeastFactor(slots, from);
    } else {
      LeastExists(slots, from + 1, e);
    }
  }

  /** _expand ends if and only if one trial, into any table wider than every hash code, takes every entry. */
  lemma {:induction false} CanExpandIff<K(!new), D(!new)>(hash: K -> nat, t: Table<K, D>, e: nat)
    requires Inv(hash, t) && e >= 2 && Wide(hash, Keys(t.slots), |t.slots| * e)
    ensures CanExpand(t.slots) <==> Fits(t.slots, e)
  {
    if CanExpand(t.slots) {
      var f: nat :| LeastFactor(t.slots, f);
      CoveredRehash(hash, t.slots, |t.slots|, |t.slots| * f, |t.slots| * e);
    } else if Fits(t.slots, e) {
      LeastExists(t.slots, 2, e);
    }
  }

  // Growing a wide table changes nothing any more, which decides Add

  lemma {:induction false} WideStaysPut<K(!new), D(!new)>(hash: K -> nat, slots: seq<Slot<K, D>>, n: nat, limit: nat)
    requires n <= |slots| <= limit && Placed(hash, slots) && Unique(slots) && Packed(slots)
    requires Wide(hash, Keys(slots), |slots|)
    ensures Rehash(slots, n, limit) == Added(slots[..n] + EmptySlots(limit - n))
  {
    if n == 0 {
      assert slots[..0] + EmptySlots(limit) == EmptySlots(limit);
    } else {
      WideStaysPut(hash, slots, n - 1, limit);
      OneMoreSlot(slots, n - 1, limit);
      if slots[n - 1].Used? {
        BackToItsSlot(hash, slots, n - 1, limit);
      }
    }
  }

  lemma {:induction false} OneMoreSlot<K, D>(slots: seq<Slot<K, D>>, n: nat, limit: nat)
    requires n < |slots| <= limit
    ensures (slots[..n] + EmptySlots(limit - n))[n := slots[n]] == slots[..n + 1] + EmptySlots(limit - (n + 1))
    ensures slots[n].Free? ==> slots[..n] + EmptySlots(limit - n) == slots[..n + 1] + EmptySlots(limit - (n + 1))
  {
  }

  lemma {:induction false} BackToItsSlot<K(!new), D(!new)>(hash: K -> nat, slots: seq<Slot<K, D>>, n: nat, limit: nat)
    requires n < |slots| <= limit && slots[n].Used? && Placed(hash, slots) && Unique(slots) && Packed(slots)
    requires Wide(hash, Keys(slots), |slots|)
    ensures var s, x := slots[..n] + EmptySlots(limit - n), slots[n];
            InnerAdd(s, x.hashcode, x.key, x.data) == Added(s[n := x])
  {
    var s, x := slots[..n] + EmptySlots(limit - n), slots[n];
    var h := x.hashcode;
    assert x.key in Keys(slots);
    DistWide(h, n, |slots|);
    var i := n - h;
    AtWide(h, i, limit);
    assert s[n].Free?;
    forall y | 0 <= y < i ensures !Stops(s, h, x.key, y) {
      AtWide(h, y, |slots|);
      AtWide(h, y, limit);
      assert slots[At(h, y, |slots|)].Used?;
      assert s[h + y] == slots[h + y];
    }
    assert Stops(s, h, x.key, i);
    ProbeIs(s, h, x.key, i);
  }

  lemma {:induction false} ExpandBy<K, D>(t: Table<K, D>, e: nat)
    requires |t.slots| > 0 && LeastFactor(t.slots, e)
    ensures CanExpand(t.slots) && Expand(t).slots == Rehash(t.slots, |t.slots|, |t.slots| * e).slots
  {
    var f: nat :| LeastFactor(t.slots, f) && Expand(t).slots == Rehash(t.slots, |t.slots|, |t.slots| * f).slots;
    assert LeastFactor(t.slots, f);
    assert e == f;
  }

  lemma {:induction false} WideExpands<K(!new), D(!new)>(hash: K -> nat, t: Table<K, D>)
    requires Inv(hash, t) && Packed(t.slots) && Wide(hash, Keys(t.slots), |t.slots|)
    ensures CanExpand(t.slots) && Expand(t).slots == t.slots + EmptySlots(|t.slots|)
  {
    var n := |t.slots|;
    WideStaysPut(hash, t.slots, n, n * 2);
    assert t.slots[..n] == t.slots;
    ExpandBy(t, 2);
  }

  /** Slots added at the end are out of reach of a probe that does not wrap around. */
  lemma {:induction false} PaddingUnseen<K, D>(slots: seq<Slot<K, D>>, n: nat, h: nat, k: K)
    requires h + MAX_PROBE_LENGTH <= |slots|
    ensures Stuck(slots + EmptySlots(n), h, k) <==> Stuck(slots, h, k)
  {
    var s := slots + EmptySlots(n);
    forall i | 0 <= i < MAX_PROBE_LENGTH ensures Stops(s, h, k, i) <==> Stops(slots, h, k, i) {
      AtWide(h, i, |slots|);
      AtWide(h, i, |s|);
    }
    StuckIff(s, h, k);
    StuckIff(slots, h, k);
  }

  lemma {:induction false} StuckIff<K, D>(slots: seq<Slot<K, D>>, h: nat, k: K)
    requires |slots| > 0
    ensures Stuck(slots, h, k) <==> forall i :: 0 <= i < MAX_PROBE_LENGTH ==> !Stops(slots, h, k, i)
  {
    var i := Probe(slots, h, k, 0);
    assert i < MAX_PROBE_LENGTH ==> Stops(slots, h, k, i);
  }

  /** Growing does not help a key that finds no place in a wide table without gaps. */
  lemma {:induction false} WideStaysStuck<K(!new), D(!new)>(hash: K -> nat, t: Table<K, D>, k: K)
    requires Inv(hash, t) && Packed(t.slots) && Wide(hash, Keys(t.slots) + {k}, |t.slots|)
    ensures CanExpand(t.slots) && (Stuck(Expand(t).slots, hash(k), k) <==> Stuck(t.slots, hash(k), k))
  {
    WideExpands(hash, t);
    PaddingUnseen(t.slots, |t.slots|, hash(k), k);
  }

  lemma {:induction false} WideDecides<K(!new), D(!new)>(hash: K -> nat, t: Table<K, D>, k: K, n: nat)
    requires Inv(hash, t) && Packed(t.slots) && Wide(hash, Keys(t.slots) + {k}, |t.slots|)
    ensures Settles(t, hash(k), k, n) <==> !Stuck(t.slots, hash(k), k)
    decreases n
  {
    if n > 0 && Stuck(t.slots, hash(k), k) {
      WideStaysStuck(hash, t, k);
      ExpandKeeps(hash, t);
      SameKeys(t.slots, Expand(t).slots);
      WideDecides(hash, Expand(t), k, n - 1);
    }
  }

  lemma {:induction false} MoreIsWider(a: nat, b: nat, c: nat)
    requires a >= 2 * b
    ensures a * c >= b * (2 * c)
  {
    assert (a - 2 * b) * c >= 0;
  }

  lemma {:induction false} SettlesWithin<K(!new), D(!new)>(hash: K -> nat, t: Table<K, D>, k: K, n: nat, m: nat)
    requires Inv(hash, t) && n > 0 && Wide(hash, Keys(t.slots) + {k}, |t.slots| * Pow2(n))
    requires Settles(t, hash(k), k, m)
    ensures Settles(t, hash(k), k, n)
    decreases n
  {
    if Stuck(t.slots, hash(k), k) {
      var t' := Expand(t);
      ExpandKeeps(hash, t);
      SameKeys(t.slots, t'.slots);
      MoreIsWider(|t'.slots|, |t.slots|, Pow2(n - 1));
      assert Wide(hash, Keys(t'.slots) + {k}, |t'.slots| * Pow2(n - 1));
      if n == 1 {
        WideDecides(hash, t', k, m - 1);
      } else {
        SettlesWithin(hash, t', k, n - 1, m - 1);
      }
    }
  }

  /** Add returns if and only if it does within as many expansions as doublings pass every hash code. */
  lemma {:induction false} AddReturnsIff<K(!new), D(!new)>(hash: K -> nat, t: Table<K, D>, k: K, n: nat)
    requires Inv(hash, t) && n > 0 && Wide(hash, Keys(t.slots) + {k}, |t.slots| * Pow2(n))
    ensures AddReturns(hash, t, k) <==>
            && (4 * t.size >= 3 * |t.slots| ==> CanExpand(t.slots))
            && Settles(Prepared(t), hash(k), k, n)
  {
    if 4 * t.size >= 3 * |t.slots| ==> CanExpand(t.slots) {
      var p := Prepared(t);
      PreparedKeeps(hash, t);
      if AddReturns(hash, t, k) {
        var m: nat :| Settles(p, hash(k), k, m);
        WiderStill(|t.slots|, |p.slots|, Pow2(n));
        SettlesWithin(hash, p, k, n, m);
      }
    }
  }

  lemma {:induction false} WiderStill(a: nat, b: nat, c: nat)
    requires a <= b
    ensures a * c <= b * c
  {
  }

  /** In a wide table without gaps: Add returns if and only if the key, or a free slot, lies within its 20 steps. */
  lemma {:induction false} WideAddReturnsIff<K(!new), D(!new)>(hash: K -> nat, t: Table<K, D>, k: K)
    requires Inv(hash, t) && Packed(t.slots) && Wide(hash, Keys(t.slots) + {k}, |t.slots|)
    ensures AddReturns(hash, t, k) <==> exists i :: 0 <= i < 20 && Stops(t.slots, hash(k), k, i)
  {
    WideStaysStuck(hash, t, k);
    PreparedKeeps(hash, t);
    StuckIff(t.slots, hash(k), k);
    forall n: nat ensures Settles(Prepared(t), hash(k), k, n) <==> !Stuck(Prepared(t).slots, hash(k), k) {
      WideDecides(hash, Prepared(t), k, n);
    }
    if !Stuck(t.slots, hash(k), k) {
      assert Settles(Prepared(t), hash(k), k, 0);
    }
  }

  // Hash codes that are not too dense let every Add return

  ghost function Between<K(!new)>(hash: K -> nat, keys: set<K>, a: nat, b: nat): set<K> {
    set k | k in keys && a <= hash(k) < b
  }

  /** No stretch of 20 or more hash codes belongs to more keys than it has codes. */
  ghost predicate Roomy<K(!new)>(hash: K -> nat, keys: set<K>) {
    forall a: nat, b: nat :: a + 20 <= b ==> |Between(hash, keys, a, b)| <= b - a
  }

  lemma {:induction false} RoomySubset<K(!new)>(hash: K -> nat, less: set<K>, keys: set<K>)
    requires Roomy(hash, keys) && less <= keys
    ensures Roomy(hash, less)
  {
    forall a: nat, b: nat | a + MAX_PROBE_LENGTH <= b ensures |Between(hash, less, a, b)| <= b - a {
      SubsetSize(Between(hash, less, a, b), Between(hash, keys, a, b));
    }
  }

  /** Where the run of taken slots that ends before `h` begins. */
  lemma {:induction false} RunStart<K, D>(slots: seq<Slot<K, D>>, h: nat) returns (a: nat)
    requires h <= |slots|
    ensures a <= h && (a == 0 || slots[a - 1].Free?) && forall p :: a <= p < h ==> slots[p].Used?
  {
    if h == 0 || slots[h - 1].Free? {
      a := h;
    } else {
      a := RunStart(slots, h - 1);
    }
  }

  ghost function KeysIn<K, D>(slots: seq<Slot<K, D>>, a: nat, b: nat): set<K>
    requires a <= b <= |slots| && forall p :: a <= p < b ==> slots[p].Used?
    decreases b
  {
    if a == b then {} else KeysIn(slots, a, b - 1) + {slots[b - 1].key}
  }

  lemma {:induction false} RunKeyAt<K, D>(slots: seq<Slot<K, D>>, a: nat, b: nat, k: K) returns (p: nat)
    requires a <= b <= |slots| && (forall p :: a <= p < b ==> slots[p].Used?) && k in KeysIn(slots, a, b)
    ensures a <= p < b && slots[p].key == k
    decreases b
  {
    if slots[b - 1].key == k {
      p := b - 1;
    } else {
      p := RunKeyAt(slots, a, b - 1, k);
    }
  }

  lemma {:induction false} NewInRun<K, D>(slots: seq<Slot<K, D>>, a: nat, b: nat)
    requires a <= b < |slots| && Unique(slots) && forall p :: a <= p <= b ==> slots[p].Used?
    ensures slots[b].key !in KeysIn(slots, a, b)
  {
    if slots[b].key in KeysIn(slots, a, b) {
      var p := RunKeyAt(slots, a, b, slots[b].key);
    }
  }

  lemma {:induction false} RunKeys<K, D>(slots: seq<Slot<K, D>>, a: nat, b: nat)
    requires a <= b <= |slots| && Unique(slots) && forall p :: a <= p < b ==> slots[p].Used?
    ensures |KeysIn(slots, a, b)| == b - a
  {
    if a < b {
      RunKeys(slots, a, b - 1);
      NewInRun(slots, a, b - 1);
    }
  }

  /** Every key of a run of taken slots has its home in that run. */
  lemma {:induction false} RunKeysAtHome<K(!new), D>(hash: K -> nat, slots: seq<Slot<K, D>>, a: nat, p: nat)
    requires Placed(hash, slots) && Packed(slots) && Wide(hash, Keys(slots), |slots|)
    requires a <= p < |slots| && slots[p].Used? && (a == 0 || slots[a - 1].Free?)
    ensures a <= hash(slots[p].key) <= p
  {
    var h := slots[p].hashcode;
    assert slots[p].key in Keys(slots);
    DistWide(h, p, |slots|);
    if h < a {
      var i := a - 1 - h;
      AtWide(h, i, |slots|);
      assert false;
    }
  }

  lemma {:induction false} RunKeysBetween<K(!new), D>(hash: K -> nat, slots: seq<Slot<K, D>>, a: nat, b: nat)
    requires Placed(hash, slots) && Packed(slots) && Wide(hash, Keys(slots), |slots|)
    requires a <= b <= |slots| && (a == 0 || slots[a - 1].Free?) && forall p :: a <= p < b ==> slots[p].Used?
    ensures KeysIn(slots, a, b) <= Between(hash, Keys(slots), a, b)
  {
    forall x | x in KeysIn(slots, a, b) ensures x in Between(hash, Keys(slots), a, b) {
      var p := RunKeyAt(slots, a, b, x);
      RunKeysAtHome(hash, slots, a, p);
      assert slots[p].key in Keys(slots);
    }
  }

  lemma {:induction false} OneMoreBetween<K(!new)>(hash: K -> nat, keys: set<K>, run: set<K>, k: K, a: nat, b: nat)
    requires k !in keys && a <= hash(k) < b && run <= Between(hash, keys, a, b)
    ensures |Between(hash, keys + {k}, a, b)| > |run|
  {
    assert k !in run;
    SubsetSize(run + {k}, Between(hash, keys + {k}, a, b));
  }

  /** A key that finds no place in a wide table without gaps: its stretch of hash codes is too dense. */
  lemma {:induction false} StuckIsDense<K(!new), D>(hash: K -> nat, slots: seq<Slot<K, D>>, k: K)
    requires Placed(hash, slots) && Unique(slots) && Packed(slots) && Wide(hash, Keys(slots) + {k}, |slots|)
    requires k !in Keys(slots) && Stuck(slots, hash(k), k)
    ensures !Roomy(hash, Keys(slots) + {k})
  {
    var h := hash(k);
    var b := h + MAX_PROBE_LENGTH;
    var a := RunStart(slots, h);
    StuckIff(slots, h, k);
    forall p | a <= p < b ensures slots[p].Used? {
      if h <= p {
        AtWide(h, p - h, |slots|);
        assert !Stops(slots, h, k, p - h);
      }
    }
    RunKeys(slots, a, b);
    RunKeysBetween(hash, slots, a, b);
    OneMoreBetween(hash, Keys(slots), KeysIn(slots, a, b), k, a, b);
  }

  lemma {:induction false} RoomyRehash<K(!new), D(!new)>(hash: K -> nat, slots: seq<Slot<K, D>>, n: nat, limit: nat)
    requires n <= |slots| && Placed(hash, slots) && Unique(slots)
    requires Wide(hash, Keys(slots), limit) && Roomy(hash, Keys(slots))
    ensures Rehash(slots, n, limit).Added?
  {
    if n > 0 {
      RoomyRehash(hash, slots, n - 1, limit);
      var x, s := slots[n - 1], Rehash(slots, n - 1, limit).slots;
      if x.Used? {
        NewToRehash(hash, slots, n - 1, limit);
        KeysOfPrefix(slots, n - 1);
        RoomySubset(hash, Keys(s) + {x.key}, Keys(slots));
        if Stuck(s, x.hashcode, x.key) { StuckIsDense(hash, s, x.key); }
        InnerAddRefines(hash, s, x.key, x.data);
      }
    }
  }

  lemma {:induction false} HashBound<K(!new)>(hash: K -> nat, keys: set<K>) returns (bound: nat)
    ensures Wide(hash, keys, bound)
  {
    if keys == {} {
      bound := 1;
    } else {
      var k :| k in keys;
      var b := HashBound(hash, keys - {k});
      bound := if hash(k) + MAX_PROBE_LENGTH < b then b else hash(k) + MAX_PROBE_LENGTH;
      forall x | x in keys ensures hash(x) + MAX_PROBE_LENGTH <= bound {
        assert x == k || x in keys - {k};
      }
    }
  }

  lemma {:induction false} TimesAtLeast(a: nat, b: nat)
    requires a > 0
    ensures a * b >= b
  {
    assert (a - 1) * b >= 0;
  }

  lemma {:induction false} RoomyCanExpand<K(!new), D(!new)>(hash: K -> nat, t: Table<K, D>)
    requires Inv(hash, t) && Roomy(hash, Keys(t.slots))
    ensures CanExpand(t.slots)
  {
    var bound := HashBound(hash, Keys(t.slots));
    var e := bound + 2;
    TimesAtLeast(|t.slots|, e);
    RoomyRehash(hash, t.slots, |t.slots|, |t.slots| * e);
    LeastExists(t.slots, 2, e);
  }

  lemma {:induction false} RoomySettles<K(!new), D(!new)>(hash: K -> nat, t: Table<K, D>, k: K, bound: nat) returns (n: nat)
    requires Inv(hash, t) && Roomy(hash, Keys(t.slots) + {k}) && Wide(hash, Keys(t.slots) + {k}, bound)
    ensures Settles(t, hash(k), k, n)
    decreases bound - |t.slots|
  {
    if !Stuck(t.slots, hash(k), k) {
      return 0;
    }
    RoomySubset(hash, Keys(t.slots), Keys(t.slots) + {k});
    RoomyCanExpand(hash, t);
    var t' := Expand(t);
    ExpandKeeps(hash, t);
    SameKeys(t.slots, t'.slots);
    if |t'.slots| < bound {
      var m := RoomySettles(hash, t', k, bound);
      n := m + 1;
    } else {
      if k in Keys(t'.slots) {
        PresentNotStuck(hash, t'.slots, k);
      } else if Stuck(t'.slots, hash(k), k) {
        StuckIsDense(hash, t'.slots, k);
      }
      n := 1;
    }
  }

  lemma {:induction false} PresentNotStuck<K(!new), D(!new)>(hash: K -> nat, slots: seq<Slot<K, D>>, k: K)
    requires |slots| > 0 && Placed(hash, slots) && Unique(slots) && k in Keys(slots)
    ensures !Stuck(slots, hash(k), k)
  {
    var j :| 0 <= j < |slots| && slots[j].Used? && slots[j].key == k;
    InnerAddPresent(hash, slots, k, slots[j].data);
  }

  /** If no stretch of hash codes is too dense, the new key's code included, Add returns. */
  lemma {:induction false} RoomyAddReturns<K(!new), D(!new)>(hash: K -> nat, t: Table<K, D>, k: K)
    requires Inv(hash, t) && Roomy(hash, Keys(t.slots) + {k})
    ensures AddReturns(hash, t, k)
  {
    RoomySubset(hash, Keys(t.slots), Keys(t.slots) + {k});
    RoomyCanExpand(hash, t);
    PreparedKeeps(hash, t);
    var bound := HashBound(hash, Keys(t.slots) + {k});
    var n := RoomySettles(hash, Prepared(t), k, bound);
  }

  // Distinct hash codes are never too dense

  ghost predicate Injective<K(!new)>(hash: K -> nat, keys: set<K>) {
    forall x, y :: x in keys && y in keys && hash(x) == hash(y) ==> x == y
  }

  lemma {:induction false} DistinctBetween<K(!new)>(hash: K -> nat, keys: set<K>, a: nat, b: nat)
    requires Injective(hash, keys) && a <= b
    ensures |Between(hash, keys, a, b)| <= b - a
  {
    var all := Between(hash, keys, a, b);
    if a == b {
      assert all == {};
    } else {
      DistinctBetween(hash, keys, a, b - 1);
      var before := Between(hash, keys, a, b - 1);
      if k :| k in keys && hash(k) == b - 1 {
        assert all == before + {k};
      } else {
        assert all == before;
      }
    }
  }

  lemma {:induction false} DistinctIsRoomy<K(!new)>(hash: K -> nat, keys: set<K>)
    requires Injective(hash, keys)
    ensures Roomy(hash, keys)
  {
    forall a: nat, b: nat | a + MAX_PROBE_LENGTH <= b ensures |Between(hash, keys, a, b)| <= b - a {
      DistinctBetween(hash, keys, a, b);
    }
  }

  /** With pairwise distinct hash codes _expand's retry loop ends. */
  lemma {:induction false} DistinctCanExpand<K(!new), D(!new)>(hash: K -> nat, t: Table<K, D>)
    requires Inv(hash, t) && Injective(hash, Keys(t.slots))
    ensures CanExpand(t.slots)
  {
    DistinctIsRoomy(hash, Keys(t.slots));
    RoomyCanExpand(hash, t);
  }

  /** With pairwise distinct hash codes, the new key's included, Add returns. */
  lemma {:induction false} DistinctAddReturns<K(!new), D(!new)>(hash: K -> nat, t: Table<K, D>, k: K)
    requires Inv(hash, t) && Injective(hash, Keys(t.slots) + {k})
    ensures AddReturns(hash, t, k)
  {
    DistinctIsRoomy(hash, Keys(t.slots) + {k});
    RoomyAddReturns(hash, t, k);
  }

  // When Add never returns

  ghost function Sharing<K>(hash: K -> nat, keys: set<K>, h: nat): set<K> {
    set k | k in keys && hash(k) == h
  }

  ghost function StepKeys<K, D>(slots: seq<Slot<K, D>>, h: nat, n: nat): (r: set<K>)
    requires |slots| > 0
    ensures |r| <= n
    ensures forall i :: 0 <= i < n && slots[At(h, i, |slots|)].Used? ==> slots[At(h, i, |slots|)].key in r
  {
    if n == 0 then {}
    else
      var s := slots[At(h, n - 1, |slots|)];
      StepKeys(slots, h, n - 1) + if s.Used? then {s.key} else {}
  }

  /** No more than 20 stored keys can share a hash code. */
  lemma {:induction false} WindowHolds20<K, D>(hash: K -> nat, slots: seq<Slot<K, D>>, h: nat)
    requires |slots| > 0 && Placed(hash, slots)
    ensures |Sharing(hash, Keys(slots), h)| <= 20
  {
    var r := StepKeys(slots, h, MAX_PROBE_LENGTH);
    forall k | k in Sharing(hash, Keys(slots), h) ensures k in r {
      var j :| 0 <= j < |slots| && slots[j].Used? && slots[j].key == k;
      AtDist(h, j, |slots|);
    }
    SubsetSize(Sharing(hash, Keys(slots), h), r);
  }

  lemma {:induction false} CrowdedIsStuck<K(!new), D(!new)>(hash: K -> nat, t: Table<K, D>, k: K)
    requires Inv(hash, t) && k !in Keys(t.slots)
    requires |Sharing(hash, Keys(t.slots), hash(k))| == 20
    ensures Stuck(t.slots, hash(k), k)
  {
    var x :| x in Sharing(hash, Keys(t.slots), hash(k));
    var j :| 0 <= j < |t.slots| && t.slots[j].Used? && t.slots[j].key == x;
    var r := InnerAdd(t.slots, hash(k), k, t.slots[j].data);
    InnerAddRefines(hash, t.slots, k, t.slots[j].data);
    if r.Added? {
      AbsHas(r.slots);
      AbsHas(t.slots);
      assert Sharing(hash, Keys(r.slots), hash(k)) == Sharing(hash, Keys(t.slots), hash(k)) + {k};
      WindowHolds20(hash, r.slots, hash(k));
      assert false;
    }
  }

  lemma {:induction false} CrowdedNeverSettles<K(!new), D(!new)>(hash: K -> nat, t: Table<K, D>, k: K, n: nat)
    requires Inv(hash, t) && k !in Keys(t.slots)
    requires |Sharing(hash, Keys(t.slots), hash(k))| == 20
    ensures !Settles(t, hash(k), k, n)
    decreases n
  {
    CrowdedIsStuck(hash, t, k);
    if n > 0 && CanExpand(t.slots) {
      ExpandKeeps(hash, t);
      SameKeys(t.slots, Expand(t).slots);
      CrowdedNeverSettles(hash, Expand(t), k, n - 1);
    }
  }

  /** Once 20 stored keys share a hash code, adding another key with that code never returns. */
  lemma {:induction false} CrowdedNeverReturns<K(!new), D(!new)>(hash: K -> nat, t: Table<K, D>, k: K)
    requires Inv(hash, t) && k !in Keys(t.slots)
    requires |Sharing(hash, Keys(t.slots), hash(k))| == 20
    ensures !AddReturns(hash, t, k)
  {
    if 4 * t.size >= 3 * |t.slots| ==> CanExpand(t.slots) {
      PreparedKeeps(hash, t);
      forall n: nat ensures !Settles(Prepared(t), hash(k), k, n) {
        CrowdedNeverSettles(hash, Prepared(t), k, n);
      }
    }
  }
}
