/**
 The hash map of parc_HashMap.c as a value: chained buckets, a size and a lower bound for the
 capacity. A bucket is NULL (`Absent`) until its first entry arrives; removal may leave an empty
 list behind. Keys are values and `==` on them is parcObject_Equals.
 */
module HashMapSpec {
  import opened Basics

  datatype Entry<K, V> = Entry(key: K, value: V)

  datatype Bucket<K, V> = Absent | Chain(entries: seq<Entry<K, V>>)

  datatype Table<K, V> = Table(minCapacity: nat, buckets: seq<Bucket<K, V>>, size: int)

  datatype Op<K, V> = PutOp(key: K, value: V) | RemoveOp(key: K)

  function Elems<K, V>(b: Bucket<K, V>): seq<Entry<K, V>> {
    match b
    case Absent => []
    case Chain(es) => es
  }

  /** The entries of all buckets, in bucket order. */
  function Flatten<K, V>(bs: seq<Bucket<K, V>>): seq<Entry<K, V>> {
    if bs == [] then [] else Flatten(bs[..|bs| - 1]) + Elems(bs[|bs| - 1])
  }

  function Home<K>(hash: K -> nat, k: K, capacity: nat): (i: nat)
    requires capacity > 0
    ensures i < capacity
  {
    hash(k) % capacity
  }

  /** The position of the first entry for `k`, or the length of the list. */
  function IndexIn<K(==), V>(es: seq<Entry<K, V>>, k: K): (i: nat)
    ensures i <= |es|
    ensures i < |es| ==> es[i].key == k
    ensures forall j :: 0 <= j < i ==> es[j].key != k
  {
    if es == [] then 0
    else if es[0].key == k then 0
    else 1 + IndexIn(es[1..], k)
  }

  // Operations

  function Create<K, V>(capacity: nat): Table<K, V> {
    var c := if capacity == 0 then 43 else capacity;
    Table(c, seq(c, _ => Absent), 0)
  }

  function Find<K(==), V>(hash: K -> nat, t: Table<K, V>, k: K): Option<V>
    requires |t.buckets| > 0
  {
    var es := Elems(t.buckets[Home(hash, k, |t.buckets|)]);
    var i := IndexIn(es, k);
    if i < |es| then Some(es[i].value) else None
  }

  /** Append an entry to its home bucket, making the bucket if there is none. */
  function Append<K, V>(hash: K -> nat, bs: seq<Bucket<K, V>>, e: Entry<K, V>): (r: seq<Bucket<K, V>>)
    requires |bs| > 0
    ensures |r| == |bs|
  {
    var i := Home(hash, e.key, |bs|);
    bs[i := Chain(Elems(bs[i]) + [e])]
  }

  function Distribute<K, V>(hash: K -> nat, es: seq<Entry<K, V>>, bs: seq<Bucket<K, V>>): (r: seq<Bucket<K, V>>)
    requires |bs| > 0
    ensures |r| == |bs|
  {
    if es == [] then bs else Append(hash, Distribute(hash, es[..|es| - 1], bs), es[|es| - 1])
  }

  function EmptyBuckets<K, V>(n: nat): seq<Bucket<K, V>> {
    seq(n, _ => Absent)
  }

  function Resize<K, V>(hash: K -> nat, t: Table<K, V>, newCapacity: nat): Table<K, V>
    requires t.minCapacity > 0
  {
    if newCapacity < t.minCapacity then t
    else t.(buckets := Distribute(hash, Flatten(t.buckets), EmptyBuckets(newCapacity)))
  }

  function Grow<K, V>(hash: K -> nat, t: Table<K, V>): Table<K, V>
    requires t.minCapacity > 0
  {
    if 4 * t.size >= 3 * |t.buckets| then Resize(hash, t, 2 * |t.buckets|) else t
  }

  function Shrink<K, V>(hash: K -> nat, t: Table<K, V>): Table<K, V>
    requires t.minCapacity > 0
  {
    if 4 * t.size <= |t.buckets| then Resize(hash, t, |t.buckets| / 2) else t
  }

  function Store<K(==), V>(hash: K -> nat, t: Table<K, V>, k: K, v: V): Table<K, V>
    requires |t.buckets| > 0
  {
    var h := Home(hash, k, |t.buckets|);
    var es := Elems(t.buckets[h]);
    var i := IndexIn(es, k);
    if i < |es| then t.(buckets := t.buckets[h := Chain(es[i := es[i].(value := v)])])
    else t.(buckets := Append(hash, t.buckets, Entry(k, v)), size := t.size + 1)
  }

  function Unlink<K(==), V>(hash: K -> nat, t: Table<K, V>, k: K): Table<K, V>
    requires |t.buckets| > 0
  {
    var h := Home(hash, k, |t.buckets|);
    var es := Elems(t.buckets[h]);
    var i := IndexIn(es, k);
    if i < |es| then
      t.(buckets := t.buckets[h := Chain(es[..i] + es[i + 1..])], size := t.size - 1)
    else t
  }

  function Put<K(==), V>(hash: K -> nat, t: Table<K, V>, k: K, v: V): Table<K, V>
    requires t.minCapacity > 0 && |t.buckets| > 0
  {
    Store(hash, Grow(hash, t), k, v)
  }

  function Remove<K(==), V>(hash: K -> nat, t: Table<K, V>, k: K): Table<K, V>
    requires t.minCapacity > 0 && |t.buckets| > 0
  {
    Shrink(hash, Unlink(hash, t, k))
  }

  // The invariant and the finite map a table stands for

  ghost predicate Homed<K(!new), V(!new)>(hash: K -> nat, bs: seq<Bucket<K, V>>, capacity: nat)
    requires capacity > 0
  {
    forall i, e :: 0 <= i < |bs| && e in Elems(bs[i]) ==> hash(e.key) % capacity == i
  }

  ghost predicate Distinct<K, V>(es: seq<Entry<K, V>>) {
    forall i, j :: 0 <= i < j < |es| ==> es[i].key != es[j].key
  }

  ghost predicate Inv<K(!new), V(!new)>(hash: K -> nat, t: Table<K, V>) {
    && 0 < t.minCapacity
    && 0 < |t.buckets|
    && Homed(hash, t.buckets, |t.buckets|)
    && (forall i :: 0 <= i < |t.buckets| ==> Distinct(Elems(t.buckets[i])))
    && t.size == |Flatten(t.buckets)|
  }

  ghost function MapOf<K, V>(es: seq<Entry<K, V>>): map<K, V> {
    if es == [] then map[]
    else MapOf(es[..|es| - 1])[es[|es| - 1].key := es[|es| - 1].value]
  }

  ghost function Abs<K, V>(t: Table<K, V>): map<K, V> {
    MapOf(Flatten(t.buckets))
  }
}
