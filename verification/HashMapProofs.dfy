/** The hash map refines a finite map, keeps its load bounds and pays for resizing by amortisation. */
module HashMapProofs {
  import opened Basics
  import opened HashMapSpec

  // Sequences of entries

  lemma {:induction false} MapOfMembers<K, V>(es: seq<Entry<K, V>>)
    requires Distinct(es)
    ensures forall e :: e in es ==> e.key in MapOf(es) && MapOf(es)[e.key] == e.value
    ensures forall k :: k in MapOf(es) ==> Entry(k, MapOf(es)[k]) in es
    ensures |MapOf(es)| == |es|
  {
    if es != [] {
      var n := |es| - 1;
      var init, last := es[..n], es[n];
      MapOfMembers(init);
      assert es == init + [last];
      assert forall e :: e in init ==> e.key != last.key;
      assert last.key !in MapOf(init);
    }
  }

  /** Two duplicate-free lists with the same members describe the same map. */
  lemma {:induction false} SameMembersSameMap<K, V>(es: seq<Entry<K, V>>, m: map<K, V>)
    requires Distinct(es)
    requires forall e :: e in es <==> e.key in m && m[e.key] == e.value
    ensures MapOf(es) == m
  {
    MapOfMembers(es);
    forall k | k in m ensures k in MapOf(es) && MapOf(es)[k] == m[k] {
      assert Entry(k, m[k]) in es;
    }
    forall k | k in MapOf(es) ensures k in m {
      assert Entry(k, MapOf(es)[k]) in es;
    }
  }

  lemma {:induction false} ReplaceAt<K, V>(es: seq<Entry<K, V>>, i: nat, v: V)
    requires i < |es| && Distinct(es)
    ensures var es' := es[i := es[i].(value := v)];
            && Distinct(es')
            && forall e :: e in es' <==> e == Entry(es[i].key, v) || (e in es && e.key != es[i].key)
  {
    var es' := es[i := es[i].(value := v)];
    forall e ensures e in es' <==> e == Entry(es[i].key, v) || (e in es && e.key != es[i].key) {
      assert es'[i] == Entry(es[i].key, v);
      if e in es && e.key != es[i].key {
        var j :| 0 <= j < |es| && es[j] == e;
        assert es'[j] == e;
      }
    }
  }

  lemma {:induction false} DropAt<K, V>(es: seq<Entry<K, V>>, i: nat)
    requires i < |es| && Distinct(es)
    ensures var es' := es[..i] + es[i + 1..];
            Distinct(es') && forall e :: e in es' <==> e in es && e.key != es[i].key
  {
    var es' := es[..i] + es[i + 1..];
    forall e ensures e in es' <==> e in es && e.key != es[i].key {
      if e in es && e.key != es[i].key {
        var j :| 0 <= j < |es| && es[j] == e;
        assert es'[if j < i then j else j - 1] == e;
      }
    }
  }

  // Flattening

  lemma {:induction false} FlattenSnoc<K, V>(a: seq<Bucket<K, V>>, b: Bucket<K, V>)
    ensures Flatten(a + [b]) == Flatten(a) + Elems(b)
  {
    assert (a + [b])[..|a|] == a;
  }

  lemma {:induction false} FlattenConcat<K, V>(a: seq<Bucket<K, V>>, b: seq<Bucket<K, V>>)
    ensures Flatten(a + b) == Flatten(a) + Flatten(b)
  {
    if b == [] {
      assert a + b == a;
    } else {
      var init, last := b[..|b| - 1], b[|b| - 1];
      FlattenConcat(a, init);
      assert b == init + [last];
      Regroup(a, init, [last]);
      FlattenSnoc(a + init, last);
      FlattenSnoc(init, last);
      Regroup(Flatten(a), Flatten(init), Elems(last));
    }
  }

  lemma {:induction false} FlattenCons<K, V>(b: Bucket<K, V>, c: seq<Bucket<K, V>>)
    ensures Flatten([b] + c) == Elems(b) + Flatten(c)
  {
    FlattenConcat([b], c);
    assert [b] == [] + [b];
    FlattenSnoc([], b);
  }

  lemma {:induction false} FlattenSplit<K, V>(bs: seq<Bucket<K, V>>, i: nat)
    requires i < |bs|
    ensures Flatten(bs) == Flatten(bs[..i]) + Elems(bs[i]) + Flatten(bs[i + 1..])
  {
    var a, c := bs[..i], bs[i + 1..];
    assert bs == (a + [bs[i]]) + c;
    FlattenConcat(a + [bs[i]], c);
    FlattenSnoc(a, bs[i]);
  }

  lemma {:induction false} FlattenUpdate<K, V>(bs: seq<Bucket<K, V>>, i: nat, b: Bucket<K, V>)
    requires i < |bs|
    ensures |Flatten(bs[i := b])| == |Flatten(bs)| - |Elems(bs[i])| + |Elems(b)|
  {
    FlattenSplit(bs, i);
    FlattenSplit(bs[i := b], i);
    assert bs[i := b][..i] == bs[..i] && bs[i := b][i + 1..] == bs[i + 1..];
  }

  lemma {:induction false} FlattenMembers<K, V>(bs: seq<Bucket<K, V>>, e: Entry<K, V>)
    ensures e in Flatten(bs) <==> exists i :: 0 <= i < |bs| && e in Elems(bs[i])
  {
    if bs != [] {
      FlattenMembers(bs[..|bs| - 1], e);
    }
  }

  ghost predicate InHome<K, V>(hash: K -> nat, bs: seq<Bucket<K, V>>, e: Entry<K, V>)
    requires |bs| > 0
  {
    e in Elems(bs[Home(hash, e.key, |bs|)])
  }

  /** With every entry in its home bucket, only the home bucket needs to be searched. */
  lemma {:induction false} HomeMembers<K(!new), V(!new)>(hash: K -> nat, bs: seq<Bucket<K, V>>, e: Entry<K, V>)
    requires |bs| > 0 && Homed(hash, bs, |bs|)
    ensures e in Flatten(bs) <==> InHome(hash, bs, e)
  {
    FlattenMembers(bs, e);
  }

  lemma {:induction false} FlattenDistinct<K(!new), V(!new)>(hash: K -> nat, bs: seq<Bucket<K, V>>, capacity: nat)
    requires capacity > 0 && Homed(hash, bs, capacity)
    requires forall i :: 0 <= i < |bs| ==> Distinct(Elems(bs[i]))
    ensures Distinct(Flatten(bs))
  {
    if bs != [] {
      var n := |bs| - 1;
      var init, last := bs[..n], Elems(bs[n]);
      FlattenDistinct(hash, init, capacity);
      forall x, y | x in Flatten(init) && y in last ensures x.key != y.key {
        FlattenMembers(init, x);
        var i :| 0 <= i < n && x in Elems(init[i]);
        assert Home(hash, x.key, capacity) == i && Home(hash, y.key, capacity) == n;
      }
    }
  }

  lemma {:induction false} InvDistinct<K(!new), V(!new)>(hash: K -> nat, t: Table<K, V>)
    requires Inv(hash, t)
    ensures Distinct(Flatten(t.buckets))
    ensures forall e :: e in Flatten(t.buckets) <==> e.key in Abs(t) && Abs(t)[e.key] == e.value
    ensures |Abs(t)| == t.size
  {
    FlattenDistinct(hash, t.buckets, |t.buckets|);
    MapOfMembers(Flatten(t.buckets));
  }

  /** To identify the map of a table, compare it with the home buckets. */
  lemma {:induction false} AbsIs<K(!new), V(!new)>(hash: K -> nat, t: Table<K, V>, m: map<K, V>)
    requires Inv(hash, t)
    requires forall e :: InHome(hash, t.buckets, e) <==> e.key in m && m[e.key] == e.value
    ensures Abs(t) == m
  {
    InvDistinct(hash, t);
    forall e ensures e in Flatten(t.buckets) <==> e.key in m && m[e.key] == e.value {
      HomeMembers(hash, t.buckets, e);
    }
    SameMembersSameMap(Flatten(t.buckets), m);
  }

  /** Bucket `h` holds exactly the map's entries at home there. */
  lemma {:induction false} BucketIsMap<K(!new), V(!new)>(hash: K -> nat, t: Table<K, V>, h: nat)
    requires Inv(hash, t) && h < |t.buckets|
    ensures forall e :: e in Elems(t.buckets[h]) ==> e.key in Abs(t) && Abs(t)[e.key] == e.value
    ensures forall k :: k in Abs(t) && Home(hash, k, |t.buckets|) == h ==> Entry(k, Abs(t)[k]) in Elems(t.buckets[h])
  {
    InvDistinct(hash, t);
    forall e | e in Elems(t.buckets[h]) ensures e in Flatten(t.buckets) {
      HomeMembers(hash, t.buckets, e);
    }
    forall k | k in Abs(t) && Home(hash, k, |t.buckets|) == h ensures Entry(k, Abs(t)[k]) in Elems(t.buckets[h]) {
      HomeMembers(hash, t.buckets, Entry(k, Abs(t)[k]));
    }
  }

  // Lookup

  /** parcHashMap_Get and parcHashMap_Contains agree with the map. */
  lemma {:induction false} FindAgrees<K(!new), V(!new)>(hash: K -> nat, t: Table<K, V>, k: K)
    requires Inv(hash, t)
    ensures Find(hash, t, k) == Lookup(Abs(t), k)
  {
    BucketIsMap(hash, t, Home(hash, k, |t.buckets|));
  }

  lemma {:induction false} PresentCounted<K(!new), V(!new)>(hash: K -> nat, t: Table<K, V>, k: K)
    requires Inv(hash, t) && k in Abs(t)
    ensures t.size > 0
  {
    InvDistinct(hash, t);
  }

  // Storing and unlinking one key

  lemma {:induction false} CreateEmpty<K(!new), V(!new)>(hash: K -> nat, n: nat, m: nat)
    requires n > 0 && m > 0
    ensures var t: Table<K, V> := Table(m, EmptyBuckets(n), 0); Inv(hash, t) && Abs(t) == map[]
    ensures Flatten(EmptyBuckets<K, V>(n)) == []
  {
    EmptyFlatten<K, V>(n);
  }

  lemma {:induction false} EmptyFlatten<K, V>(n: nat)
    ensures Flatten(EmptyBuckets<K, V>(n)) == []
  {
    if n > 0 {
      EmptyFlatten<K, V>(n - 1);
      assert EmptyBuckets<K, V>(n)[..n - 1] == EmptyBuckets<K, V>(n - 1);
    }
  }

  /** Replacing the list of one bucket changes the map only on the keys at home there. */
  lemma {:induction false} SetBucket<K(!new), V(!new)>(hash: K -> nat, t: Table<K, V>, h: nat, es: seq<Entry<K, V>>, m: map<K, V>)
    requires Inv(hash, t) && h < |t.buckets| && Distinct(es)
    requires forall e :: e in es ==> Home(hash, e.key, |t.buckets|) == h && e.key in m && m[e.key] == e.value
    requires forall k :: k in m && Home(hash, k, |t.buckets|) == h ==> Entry(k, m[k]) in es
    requires forall k :: Home(hash, k, |t.buckets|) != h ==> Lookup(m, k) == Lookup(Abs(t), k)
    ensures var t' := t.(buckets := t.buckets[h := Chain(es)], size := t.size - |Elems(t.buckets[h])| + |es|);
            Inv(hash, t') && Abs(t') == m
  {
    var t' := t.(buckets := t.buckets[h := Chain(es)], size := t.size - |Elems(t.buckets[h])| + |es|);
    FlattenUpdate(t.buckets, h, Chain(es));
    assert Inv(hash, t');
    forall x ensures InHome(hash, t'.buckets, x) <==> x.key in m && m[x.key] == x.value {
      var i := Home(hash, x.key, |t.buckets|);
      if i != h {
        BucketIsMap(hash, t, i);
        assert Lookup(m, x.key) == Lookup(Abs(t), x.key);
      }
    }
    AbsIs(hash, t', m);
  }

  lemma {:induction false} AppendRefines<K(!new), V(!new)>(hash: K -> nat, t: Table<K, V>, e: Entry<K, V>)
    requires Inv(hash, t) && e.key !in Abs(t)
    ensures var t' := t.(buckets := Append(hash, t.buckets, e), size := t.size + 1);
            Inv(hash, t') && Abs(t') == Abs(t)[e.key := e.value]
  {
    var h := Home(hash, e.key, |t.buckets|);
    BucketIsMap(hash, t, h);
    SetBucket(hash, t, h, Elems(t.buckets[h]) + [e], Abs(t)[e.key := e.value]);
  }

  lemma {:induction false} StoreRefines<K(!new), V(!new)>(hash: K -> nat, t: Table<K, V>, k: K, v: V)
    requires Inv(hash, t)
    ensures var t' := Store(hash, t, k, v); Inv(hash, t') && Abs(t') == Abs(t)[k := v]
    ensures Store(hash, t, k, v).size == if k in Abs(t) then t.size else t.size + 1
  {
    FindAgrees(hash, t, k);
    var h := Home(hash, k, |t.buckets|);
    var es := Elems(t.buckets[h]);
    var i := IndexIn(es, k);
    if i < |es| {
      BucketIsMap(hash, t, h);
      var es', m := es[i := es[i].(value := v)], Abs(t)[k := v];
      ReplaceAt(es, i, v);
      SetBucket(hash, t, h, es', m);
    } else {
      AppendRefines(hash, t, Entry(k, v));
    }
  }

  lemma {:induction false} DropFromBucket<K(!new), V(!new)>(hash: K -> nat, t: Table<K, V>, h: nat, i: nat)
    requires Inv(hash, t) && h < |t.buckets| && i < |Elems(t.buckets[h])|
    ensures var es := Elems(t.buckets[h]);
            var t' := t.(buckets := t.buckets[h := Chain(es[..i] + es[i + 1..])], size := t.size - 1);
            Inv(hash, t') && Abs(t') == Without(Abs(t), es[i].key)
  {
    var es := Elems(t.buckets[h]);
    BucketIsMap(hash, t, h);
    DropAt(es, i);
    assert es[i] in es;
    SetBucket(hash, t, h, es[..i] + es[i + 1..], Without(Abs(t), es[i].key));
  }

  lemma {:induction false} UnlinkPresent<K(!new), V(!new)>(hash: K -> nat, t: Table<K, V>, k: K)
    requires Inv(hash, t) && k in Abs(t)
    ensures var t' := Unlink(hash, t, k);
            Inv(hash, t') && Abs(t') == Without(Abs(t), k) && t'.size == t.size - 1
  {
    FindAgrees(hash, t, k);
    var h := Home(hash, k, |t.buckets|);
    var es := Elems(t.buckets[h]);
    var i := IndexIn(es, k);
    var t' := t.(buckets := t.buckets[h := Chain(es[..i] + es[i + 1..])], size := t.size - 1);
    assert Unlink(hash, t, k) == t';
    DropFromBucket(hash, t, h, i);
  }

  lemma {:induction false} UnlinkRefines<K(!new), V(!new)>(hash: K -> nat, t: Table<K, V>, k: K)
    requires Inv(hash, t)
    ensures var t' := Unlink(hash, t, k); Inv(hash, t') && Abs(t') == Without(Abs(t), k)
    ensures Unlink(hash, t, k).size == if k in Abs(t) then t.size - 1 else t.size
  {
    FindAgrees(hash, t, k);
    if k in Abs(t) {
      UnlinkPresent(hash, t, k);
    }
  }

  // Resizing

  lemma {:induction false} DistributeSnoc<K, V>(hash: K -> nat, es: seq<Entry<K, V>>, e: Entry<K, V>, bs: seq<Bucket<K, V>>)
    requires |bs| > 0
    ensures Distribute(hash, es + [e], bs) == Append(hash, Distribute(hash, es, bs), e)
  {
    assert (es + [e])[..|es|] == es;
  }

  lemma {:induction false} DistributeRefines<K(!new), V(!new)>(hash: K -> nat, es: seq<Entry<K, V>>, n: nat, m: nat)
    requires n > 0 && m > 0 && Distinct(es)
    ensures var t := Table(m, Distribute(hash, es, EmptyBuckets(n)), |es|);
            Inv(hash, t) && Abs(t) == MapOf(es)
  {
    if es == [] {
      CreateEmpty<K, V>(hash, n, m);
    } else {
      var init, last := es[..|es| - 1], es[|es| - 1];
      DistributeRefines(hash, init, n, m);
      MapOfMembers(init);
      assert forall e :: e in init ==> e.key != last.key;
      AppendRefines(hash, Table(m, Distribute(hash, init, EmptyBuckets(n)), |init|), last);
    }
  }

  lemma {:induction false} ResizeRefines<K(!new), V(!new)>(hash: K -> nat, t: Table<K, V>, newCapacity: nat)
    requires Inv(hash, t)
    ensures var t' := Resize(hash, t, newCapacity);
            Inv(hash, t') && Abs(t') == Abs(t) && t'.size == t.size && t'.minCapacity == t.minCapacity
    ensures |Resize(hash, t, newCapacity).buckets| == if newCapacity < t.minCapacity then |t.buckets| else newCapacity
  {
    if newCapacity >= t.minCapacity {
      InvDistinct(hash, t);
      DistributeRefines(hash, Flatten(t.buckets), newCapacity, t.minCapacity);
    }
  }

  // The load invariant

  /** `capacity` is `min` doubled `k` times, and the load is within its bounds. */
  ghost predicate Load(min: nat, capacity: nat, size: int, k: nat) {
    && capacity == min * Pow2(k)
    && 4 * size < 3 * capacity + 4
    && (k > 0 ==> 4 * size > capacity)
  }

  ghost predicate Loaded<K, V>(t: Table<K, V>, k: nat) {
    Load(t.minCapacity, |t.buckets|, t.size, k)
  }

  ghost predicate Good<K(!new), V(!new)>(hash: K -> nat, t: Table<K, V>) {
    Inv(hash, t) && exists k: nat :: Loaded(t, k)
  }

  lemma {:induction false} Halves(m: nat, k: nat)
    requires m > 0
    ensures k > 0 ==> m * Pow2(k) == 2 * (m * Pow2(k - 1)) && m * Pow2(k - 1) >= m
    ensures k == 0 ==> m * Pow2(k) == m
  {
    if k > 0 {
      PowPositive(k - 1);
      assert m * Pow2(k) == m * (2 * Pow2(k - 1)) == 2 * (m * Pow2(k - 1));
      assert m * Pow2(k - 1) >= m * 1;
    }
  }

  lemma {:induction false} PowPositive(k: nat)
    ensures Pow2(k) >= 1
  {
    if k > 0 { PowPositive(k - 1); }
  }

  lemma {:induction false} LoadAfterPut(min: nat, capacity: nat, size: int, k: nat, capacity': nat, size': int)
    requires min > 0 && size >= 0 && Load(min, capacity, size, k) && size <= size' <= size + 1
    requires capacity' == if 4 * size >= 3 * capacity then 2 * capacity else capacity
    ensures Load(min, capacity', size', if 4 * size >= 3 * capacity then k + 1 else k)
    ensures 2 * capacity >= min
  {
    Halves(min, k);
    Halves(min, k + 1);
  }

  lemma {:induction false} HalvedLoad(min: nat, capacity: nat, size: nat, k: nat)
    requires min > 0 && capacity == min * Pow2(k)
    requires 4 * (size + 1) > 2 * capacity && 4 * size <= 2 * capacity
    ensures Load(min, capacity, size, k)
  {
    Halves(min, k);
    if k > 0 {
      var half := min * Pow2(k - 1);
      assert capacity == 2 * half;
    }
  }

  lemma {:induction false} LoadAfterRemove(min: nat, capacity: nat, size: int, k: nat, size': int)
    requires min > 0 && size' >= 0 && Load(min, capacity, size, k) && size - 1 <= size' <= size
    ensures capacity > min <==> k > 0
    ensures capacity > min ==> capacity / 2 >= min && capacity == 2 * (capacity / 2)
    ensures capacity == min ==> capacity / 2 < min
    ensures Load(min, if 4 * size' <= capacity && k > 0 then capacity / 2 else capacity, size',
                 if 4 * size' <= capacity && k > 0 then k - 1 else k)
  {
    Halves(min, k);
    if k > 0 {
      var half := min * Pow2(k - 1);
      assert capacity == 2 * half && capacity / 2 == half;
      if 4 * size' <= capacity { HalvedLoad(min, half, size', k - 1); }
    }
  }

  /** The map is refined, the load bounds hold, and a full table doubles exactly once. */
  lemma {:induction false} PutRefines<K(!new), V(!new)>(hash: K -> nat, t: Table<K, V>, k: K, v: V)
    requires Good(hash, t)
    ensures var t' := Put(hash, t, k, v);
            Good(hash, t') && Abs(t') == Abs(t)[k := v] && t'.minCapacity == t.minCapacity
    ensures |Put(hash, t, k, v).buckets| == if 4 * t.size >= 3 * |t.buckets| then 2 * |t.buckets| else |t.buckets|
    ensures Put(hash, t, k, v).size == if k in Abs(t) then t.size else t.size + 1
  {
    var p: nat :| Loaded(t, p);
    var g, t' := Grow(hash, t), Put(hash, t, k, v);
    LoadAfterPut(t.minCapacity, |t.buckets|, t.size, p, if 4 * t.size >= 3 * |t.buckets| then 2 * |t.buckets| else |t.buckets|, t.size);
    ResizeRefines(hash, t, 2 * |t.buckets|);
    StoreRefines(hash, g, k, v);
    LoadAfterPut(t.minCapacity, |t.buckets|, t.size, p, |t'.buckets|, t'.size);
    assert Loaded(t', if 4 * t.size >= 3 * |t.buckets| then p + 1 else p);
  }

  /** The map is refined, the load bounds hold, and a sparse table above its minimum halves exactly once. */
  lemma {:induction false} RemoveRefines<K(!new), V(!new)>(hash: K -> nat, t: Table<K, V>, k: K)
    requires Good(hash, t)
    ensures var t' := Remove(hash, t, k);
            Good(hash, t') && Abs(t') == Without(Abs(t), k) && t'.minCapacity == t.minCapacity
    ensures var s := if k in Abs(t) then t.size - 1 else t.size;
            var t' := Remove(hash, t, k);
            && t'.size == s
            && (if 4 * s <= |t.buckets| && |t.buckets| > t.minCapacity then |t.buckets| == 2 * |t'.buckets|
                else |t'.buckets| == |t.buckets|)
  {
    var p: nat :| Loaded(t, p);
    var u, t' := Unlink(hash, t, k), Remove(hash, t, k);
    UnlinkRefines(hash, t, k);
    ResizeRefines(hash, u, |u.buckets| / 2);
    LoadAfterRemove(t.minCapacity, |t.buckets|, t.size, p, u.size);
    assert Loaded(t', if 4 * u.size <= |t.buckets| && p > 0 then p - 1 else p);
  }

  // Runs

  ghost function Apply<K, V>(hash: K -> nat, t: Table<K, V>, op: Op<K, V>): Table<K, V>
    requires t.minCapacity > 0 && |t.buckets| > 0
  {
    match op
    case PutOp(k, v) => Put(hash, t, k, v)
    case RemoveOp(k) => Remove(hash, t, k)
  }

  ghost function ApplyMap<K, V>(m: map<K, V>, op: Op<K, V>): map<K, V> {
    match op
    case PutOp(k, v) => m[k := v]
    case RemoveOp(k) => Without(m, k)
  }

  /** The finite map after a run, by the meaning of the operations alone. */
  ghost function RunMap<K, V>(m: map<K, V>, ops: seq<Op<K, V>>): map<K, V> {
    if ops == [] then m else ApplyMap(RunMap(m, ops[..|ops| - 1]), ops[|ops| - 1])
  }

  lemma {:induction false} ApplyRefines<K(!new), V(!new)>(hash: K -> nat, t: Table<K, V>, op: Op<K, V>)
    requires Good(hash, t)
    ensures Good(hash, Apply(hash, t, op)) && Abs(Apply(hash, t, op)) == ApplyMap(Abs(t), op)
    ensures Apply(hash, t, op).minCapacity == t.minCapacity
  {
    match op
    case PutOp(k, v) => PutRefines(hash, t, k, v);
    case RemoveOp(k) => RemoveRefines(hash, t, k);
  }

  /** The table after a run. */
  ghost function Run<K(!new), V(!new)>(hash: K -> nat, t: Table<K, V>, ops: seq<Op<K, V>>): (r: Table<K, V>)
    requires Good(hash, t)
    ensures Good(hash, r) && r.minCapacity == t.minCapacity
    ensures Abs(r) == RunMap(Abs(t), ops)
    decreases |ops|
  {
    if ops == [] then t
    else
      var s := Run(hash, t, ops[..|ops| - 1]);
      ApplyRefines(hash, s, ops[|ops| - 1]);
      Apply(hash, s, ops[|ops| - 1])
  }

  lemma {:induction false} CreateGood<K(!new), V(!new)>(hash: K -> nat, capacity: nat)
    ensures var t := Create<K, V>(capacity); Good(hash, t) && Abs(t) == map[] && t.size == 0
  {
    var t := Create<K, V>(capacity);
    assert t.buckets == EmptyBuckets(t.minCapacity);
    CreateEmpty<K, V>(hash, t.minCapacity, t.minCapacity);
    Halves(t.minCapacity, 0);
    assert Loaded(t, 0);
  }

  /**
   Whatever is put and removed, the map a fresh table has become is the one the operations mean:
   lookups answer from it, the size is its cardinality, the capacity is minCapacity times a power of
   two and the load stays within its two bounds.
   */
  lemma {:induction false} EveryRunRefinesAMap<K(!new), V(!new)>(hash: K -> nat, capacity: nat, ops: seq<Op<K, V>>, k: K)
    ensures Good(hash, Create<K, V>(capacity))
    ensures var t := Run(hash, Create(capacity), ops);
            && Inv(hash, t)
            && Find(hash, t, k) == Lookup(RunMap(map[], ops), k)
            && t.size == |RunMap<K, V>(map[], ops)|
            && exists p: nat :: Loaded(t, p)
  {
    CreateGood<K, V>(hash, capacity);
    var t := Run(hash, Create(capacity), ops);
    FindAgrees(hash, t, k);
    InvDistinct(hash, t);
  }

  // Amortised cost of resizing

  /** Entries moved by the resize an operation triggers. */
  ghost function Moved<K, V>(hash: K -> nat, t: Table<K, V>, op: Op<K, V>): nat
    requires t.minCapacity > 0 && |t.buckets| > 0
  {
    match op
    case PutOp(_, _) =>
      if 4 * t.size >= 3 * |t.buckets| && 2 * |t.buckets| >= t.minCapacity then |Flatten(t.buckets)| else 0
    case RemoveOp(k) =>
      var u := Unlink(hash, t, k);
      if 4 * u.size <= |u.buckets| && |u.buckets| / 2 >= t.minCapacity then |Flatten(u.buckets)| else 0
  }

  ghost function TotalMoved<K(!new), V(!new)>(hash: K -> nat, t: Table<K, V>, ops: seq<Op<K, V>>): nat
    requires Good(hash, t)
    decreases |ops|
  {
    if ops == [] then 0
    else TotalMoved(hash, t, ops[..|ops| - 1]) + Moved(hash, Run(hash, t, ops[..|ops| - 1]), ops[|ops| - 1])
  }

  ghost function Puts<K, V>(ops: seq<Op<K, V>>): nat {
    if ops == [] then 0 else Puts(ops[..|ops| - 1]) + if ops[|ops| - 1].PutOp? then 1 else 0
  }

  ghost function PutsAt<K, V>(ops: seq<Op<K, V>>): set<nat> {
    set i: nat | i < |ops| && ops[i].PutOp?
  }

  lemma {:induction false} PutsCounts<K, V>(ops: seq<Op<K, V>>)
    ensures Puts(ops) == |PutsAt(ops)|
  {
    if ops == [] {
      assert PutsAt(ops) == {};
    } else {
      var n := |ops| - 1;
      PutsCounts(ops[..n]);
      assert PutsAt(ops) == PutsAt(ops[..n]) + if ops[n].PutOp? then {n} else {};
    }
  }

  lemma {:induction false} RunOneMore<K(!new), V(!new)>(hash: K -> nat, t: Table<K, V>, ops: seq<Op<K, V>>, i: nat)
    requires Good(hash, t) && i < |ops|
    ensures var s := Run(hash, t, ops[..i]);
            && Run(hash, t, ops[..i + 1]) == Apply(hash, s, ops[i])
            && TotalMoved(hash, t, ops[..i + 1]) == TotalMoved(hash, t, ops[..i]) + Moved(hash, s, ops[i])
  {
    Extend(ops, i);
  }

  /** An operation that changes the capacity moves every entry there is at that moment, any other none. */
  lemma {:induction false} MovedMeans<K(!new), V(!new)>(hash: K -> nat, t: Table<K, V>, op: Op<K, V>)
    requires Good(hash, t)
    ensures var t' := Apply(hash, t, op);
            Moved(hash, t, op) == if |t'.buckets| == |t.buckets| then 0 else if op.PutOp? then t.size else t'.size
  {
    match op
    case PutOp(k, v) =>
      var p: nat :| Loaded(t, p);
      Halves(t.minCapacity, p);
      PutRefines(hash, t, k, v);
    case RemoveOp(k) =>
      UnlinkRefines(hash, t, k);
      var u := Unlink(hash, t, k);
      ResizeRefines(hash, u, |u.buckets| / 2);
  }

  /** Twice the potential: grows by at most 8 per Put and 2 per Remove, and pays for every resize. */
  ghost function Potential(min: nat, capacity: nat, size: int): nat {
    var high := 8 * size - 4 * capacity;
    var low := if capacity == min then 0 else capacity - 2 * size;
    if high >= low then high else low
  }

  lemma {:induction false} DoublingPaid(min: nat, capacity: nat, size: nat, size': nat)
    requires 0 < min <= capacity && 4 * size < 3 * capacity + 4 && size <= size' <= size + 1
    ensures var full := 4 * size >= 3 * capacity;
            (if full then 2 * size else 0) + Potential(min, if full then 2 * capacity else capacity, size')
            <= Potential(min, capacity, size) + 8
  {
  }

  lemma {:induction false} HalvingPaid(min: nat, capacity: nat, size: nat, size': nat, capacity': nat)
    requires 0 < min <= capacity && size - 1 <= size' <= size
    requires if 4 * size' <= capacity && capacity > min then capacity == 2 * capacity' else capacity' == capacity
    ensures (if 4 * size' <= capacity && capacity > min then 2 * size' else 0) + Potential(min, capacity', size')
            <= Potential(min, capacity, size) + 2
  {
  }

  lemma {:induction false} PutPaid<K(!new), V(!new)>(hash: K -> nat, t: Table<K, V>, k: K, v: V)
    requires Good(hash, t)
    ensures var t' := Put(hash, t, k, v);
            2 * Moved(hash, t, PutOp(k, v)) + Potential(t.minCapacity, |t'.buckets|, t'.size)
            <= Potential(t.minCapacity, |t.buckets|, t.size) + 8
  {
    var p: nat :| Loaded(t, p);
    Halves(t.minCapacity, p);
    PutRefines(hash, t, k, v);
    DoublingPaid(t.minCapacity, |t.buckets|, t.size, Put(hash, t, k, v).size);
  }

  lemma {:induction false} RemovePaid<K(!new), V(!new)>(hash: K -> nat, t: Table<K, V>, k: K)
    requires Good(hash, t)
    ensures var t' := Remove(hash, t, k);
            2 * Moved<K, V>(hash, t, RemoveOp(k)) + Potential(t.minCapacity, |t'.buckets|, t'.size)
            <= Potential(t.minCapacity, |t.buckets|, t.size) + 2
  {
    var p: nat :| Loaded(t, p);
    var t' := Remove(hash, t, k);
    Halves(t.minCapacity, p);
    RemoveRefines(hash, t, k);
    UnlinkRefines(hash, t, k);
    LoadAfterRemove(t.minCapacity, |t.buckets|, t.size, p, t'.size);
    HalvingPaid(t.minCapacity, |t.buckets|, t.size, t'.size, |t'.buckets|);
  }

  lemma {:induction false} ResizePaid<K(!new), V(!new)>(hash: K -> nat, t: Table<K, V>, op: Op<K, V>)
    requires Good(hash, t)
    ensures var t' := Apply(hash, t, op);
            2 * Moved(hash, t, op) + Potential(t.minCapacity, |t'.buckets|, t'.size)
            <= Potential(t.minCapacity, |t.buckets|, t.size) + if op.PutOp? then 8 else 2
  {
    match op
    case PutOp(k, v) => PutPaid(hash, t, k, v);
    case RemoveOp(k) => RemovePaid(hash, t, k);
  }

  lemma {:induction false} RunPaid<K(!new), V(!new)>(hash: K -> nat, t: Table<K, V>, ops: seq<Op<K, V>>)
    requires Good(hash, t)
    ensures var t' := Run(hash, t, ops);
            2 * TotalMoved(hash, t, ops) + Potential(t.minCapacity, |t'.buckets|, t'.size)
            <= Potential(t.minCapacity, |t.buckets|, t.size) + 8 * Puts(ops) + 2 * (|ops| - Puts(ops))
    decreases |ops|
  {
    if ops != [] {
      var init := ops[..|ops| - 1];
      RunPaid(hash, t, init);
      ResizePaid(hash, Run(hash, t, init), ops[|ops| - 1]);
    }
  }

  /** Over any run on a fresh map, resizing moves at most four entries per Put and one per Remove. */
  lemma {:induction false} AmortisedResizing<K(!new), V(!new)>(hash: K -> nat, capacity: nat, ops: seq<Op<K, V>>)
    ensures Good(hash, Create<K, V>(capacity))
    ensures var puts := |set i: nat | i < |ops| && ops[i].PutOp?|;
            TotalMoved(hash, Create(capacity), ops) <= 4 * puts + (|ops| - puts)
  {
    CreateGood<K, V>(hash, capacity);
    RunPaid(hash, Create(capacity), ops);
    PutsCounts(ops);
    assert PutsAt(ops) == set i: nat | i < |ops| && ops[i].PutOp?;
  }

  /** The map and the cost of a run on a fresh table. */
  lemma {:induction false} FreshRun<K(!new), V(!new)>(hash: K -> nat, capacity: nat, ops: seq<Op<K, V>>)
    ensures Good(hash, Create<K, V>(capacity))
    ensures Abs(Run(hash, Create(capacity), ops)) == RunMap(map[], ops)
    ensures TotalMoved(hash, Create(capacity), ops) <= 4 * |PutsAt(ops)| + (|ops| - |PutsAt(ops)|)
  {
    CreateGood<K, V>(hash, capacity);
    AmortisedResizing(hash, capacity, ops);
  }
}
