/**
 parc_HashMap.c as it runs: an array of buckets replaced on every resize, updated in place otherwise,
 and the iterator whose HasNext moves to the next bucket. Each method leaves exactly the table that
 HashMapSpec computes, and what that table means is proved in HashMapProofs.
 */
module HashMaps {
  import opened Basics
  import opened HashMapSpec
  import Spec = HashMapSpec
  import opened HashMapProofs

  class HashMap<K(==, !new), V(!new)> {
    const hash: K -> nat
    const minCapacity: nat
    var buckets: array<Bucket<K, V>>
    var capacity: nat
    var size: nat
    /** Entries appended to new buckets by all resizes so far. */
    ghost var moved: nat

    ghost function Model(): Table<K, V>
      reads this, buckets
    {
      Table(minCapacity, buckets[..], size)
    }

    ghost predicate Valid()
      reads this, buckets
    {
      capacity == buckets.Length && Good(hash, Model())
    }

    constructor (hash: K -> nat, capacity: nat)
      ensures Valid() && fresh(buckets)
      ensures this.hash == hash && Model() == Create(capacity) && Abs(Model()) == map[]
      ensures minCapacity == this.capacity == if capacity > 0 then capacity else 43
      ensures moved == 0
    {
      var c := if capacity == 0 then 43 else capacity;
      this.hash := hash;
      this.minCapacity := c;
      this.capacity := c;
      this.size := 0;
      this.buckets := new Bucket<K, V>[c](_ => Absent);
      this.moved := 0;
      new;
      assert Model() == Create(capacity);
      CreateGood<K, V>(hash, capacity);
    }

    /** _parcHashMap_GetEntry: the position of the entry for `key` in its home bucket. */
    method GetEntry(key: K) returns (bucket: nat, index: nat, found: bool)
      requires capacity == buckets.Length && Inv(hash, Model())
      ensures bucket == hash(key) % capacity
      ensures index == IndexIn(Elems(buckets[bucket]), key)
      ensures found <==> index < |Elems(buckets[bucket])|
      ensures found <==> key in Abs(Model())
      ensures found ==> Elems(buckets[bucket])[index].value == Abs(Model())[key]
    {
      FindAgrees(hash, Model(), key);
      bucket := hash(key) % capacity;
      index, found := 0, false;
      if buckets[bucket] != Absent {
        var es := buckets[bucket].entries;
        while index < |es|
          invariant index <= |es|
          invariant IndexIn(es, key) == index + IndexIn(es[index..], key)
        {
          if es[index].key == key {
            found := true;
            return;
          }
          assert es[index..][1..] == es[index + 1..];
          index := index + 1;
        }
      }
    }

    method Get(key: K) returns (value: Option<V>)
      requires Valid()
      ensures value == Lookup(Abs(Model()), key)
    {
      var bucket, index, found := GetEntry(key);
      value := if found then Some(Elems(buckets[bucket])[index].value) else None;
    }

    method Contains(key: K) returns (present: bool)
      requires Valid()
      ensures present <==> key in Abs(Model())
    {
      var _, _, found := GetEntry(key);
      present := found;
    }

    /** The inner loop of _parcHashMap_Resize: append every entry of one list to its new bucket. */
    method MoveChain(es: seq<Entry<K, V>>, newBuckets: array<Bucket<K, V>>, ghost done: seq<Entry<K, V>>)
      requires newBuckets.Length > 0
      requires newBuckets[..] == Distribute(hash, done, EmptyBuckets(newBuckets.Length))
      modifies this`moved, newBuckets
      ensures newBuckets[..] == Distribute(hash, done + es, EmptyBuckets(newBuckets.Length))
      ensures moved == old(moved) + |es|
    {
      assert done + es[..0] == done;
      for j := 0 to |es|
        invariant newBuckets[..] == Distribute(hash, done + es[..j], EmptyBuckets(newBuckets.Length))
        invariant moved == old(moved) + j
      {
        var newBucket := hash(es[j].key) % newBuckets.Length;
        ghost var before := newBuckets[..];
        assert done + es[..j + 1] == (done + es[..j]) + [es[j]];
        DistributeSnoc(hash, done + es[..j], es[j], EmptyBuckets(newBuckets.Length));
        if newBuckets[newBucket] == Absent {
          newBuckets[newBucket] := Chain([]);
        }
        newBuckets[newBucket] := Chain(newBuckets[newBucket].entries + [es[j]]);
        moved := moved + 1;
        assert newBuckets[..] == Append(hash, before, es[j]);
      }
      assert es[..|es|] == es;
    }

    method Resize(newCapacity: nat)
      requires capacity == buckets.Length && minCapacity > 0
      modifies this`buckets, this`capacity, this`moved
      ensures buckets == old(buckets) || fresh(buckets)
      ensures capacity == buckets.Length
      ensures Model() == Spec.Resize(hash, old(Model()), newCapacity)
      ensures moved == old(moved) + if newCapacity < minCapacity then 0 else |Flatten(old(buckets[..]))|
    {
      if newCapacity < minCapacity {
        return;
      }
      var newBuckets := new Bucket<K, V>[newCapacity](_ => Absent);
      ghost var empty := EmptyBuckets<K, V>(newCapacity);
      assert newBuckets[..] == empty;
      for i := 0 to capacity
        invariant unchanged(this`buckets) && unchanged(this`capacity) && fresh(newBuckets)
        invariant buckets[..] == old(buckets[..])
        invariant newBuckets[..] == Distribute(hash, Flatten(buckets[..i]), empty)
        invariant moved == old(moved) + |Flatten(buckets[..i])|
      {
        MoveChain(Elems(buckets[i]), newBuckets, Flatten(buckets[..i]));
        assert buckets[..i + 1][..i] == buckets[..i];
      }
      assert buckets[..capacity] == buckets[..];
      buckets := newBuckets;
      capacity := newCapacity;
    }

    /** The second half of parcHashMap_Put: replace the value in place or append a new entry. */
    method StoreInPlace(key: K, value: V)
      requires capacity == buckets.Length && Inv(hash, Model())
      modifies this`size, buckets
      ensures Model() == Store(hash, old(Model()), key, value)
    {
      var bucket, index, found := GetEntry(key);
      var es := Elems(buckets[bucket]);
      if found {
        buckets[bucket] := Chain(es[index := Entry(es[index].key, value)]);
      } else {
        if buckets[bucket] == Absent {
          buckets[bucket] := Chain([]);
        }
        buckets[bucket] := Chain(buckets[bucket].entries + [Entry(key, value)]);
        size := size + 1;
      }
    }

    /** The first half of parcHashMap_Remove: unlink the entry from its list. */
    method UnlinkInPlace(key: K) returns (removed: bool)
      requires capacity == buckets.Length && Inv(hash, Model())
      modifies this`size, buckets
      ensures Model() == Unlink(hash, old(Model()), key)
      ensures removed <==> key in old(Abs(Model()))
    {
      var bucket, index, found := GetEntry(key);
      removed := found;
      if found {
        PresentCounted(hash, Model(), key);
        var es := buckets[bucket].entries;
        var rest := es[..index] + es[index + 1..];
        buckets[bucket] := Chain(rest);
        size := size - 1;
        assert buckets[..] == old(buckets[..])[bucket := Chain(rest)];
        assert Model() == old(Model()).(buckets := old(buckets[..])[bucket := Chain(rest)], size := old(size) - 1);
      }
    }

    method Put(key: K, value: V)
      requires Valid()
      modifies this, buckets
      ensures Valid() && (buckets == old(buckets) || fresh(buckets))
      ensures Model() == Spec.Put(hash, old(Model()), key, value)
      ensures Abs(Model()) == old(Abs(Model()))[key := value]
      ensures moved == old(moved) + Moved(hash, old(Model()), PutOp(key, value))
    {
      PutRefines(hash, Model(), key, value);
      ResizeRefines(hash, Model(), 2 * capacity);
      if 4 * size >= 3 * capacity {
        Resize(capacity * 2);
      }
      assert Model() == Grow(hash, old(Model()));
      StoreInPlace(key, value);
    }

    method Remove(key: K) returns (removed: bool)
      requires Valid()
      modifies this, buckets
      ensures Valid() && (buckets == old(buckets) || fresh(buckets))
      ensures Model() == Spec.Remove(hash, old(Model()), key)
      ensures Abs(Model()) == Without(old(Abs(Model())), key)
      ensures removed <==> key in old(Abs(Model()))
      ensures moved == old(moved) + Moved(hash, old(Model()), RemoveOp(key))
    {
      RemoveRefines(hash, Model(), key);
      removed := UnlinkInPlace(key);
      if 4 * size <= capacity {
        Resize(capacity / 2);
      }
    }

    method Step(op: Op<K, V>)
      requires Valid()
      modifies this, buckets
      ensures Valid() && (buckets == old(buckets) || fresh(buckets))
      ensures Model() == Apply(hash, old(Model()), op)
      ensures moved == old(moved) + Moved(hash, old(Model()), op)
    {
      match op {
        case PutOp(k, v) => Put(k, v);
        case RemoveOp(k) => var _ := Remove(k);
      }
    }

    method StepAll(ops: seq<Op<K, V>>)
      requires Valid()
      modifies this, buckets
      ensures Valid()
      ensures Model() == Run(hash, old(Model()), ops)
      ensures moved == old(moved) + TotalMoved(hash, old(Model()), ops)
    {
      ghost var t := Model();
      for i := 0 to |ops|
        invariant Valid() && (buckets == old(buckets) || fresh(buckets))
        invariant Model() == Run(hash, t, ops[..i]) && moved == old(moved) + TotalMoved(hash, t, ops[..i])
      {
        RunOneMore(hash, t, ops, i);
        Step(ops[i]);
      }
      assert ops[..|ops|] == ops;
    }
  }

  /**
   Any run of Put and Remove on a fresh map object: it holds the map the operations mean, and all its
   resizes together moved at most four entries per Put and one per Remove.
   */
  method Perform<K(==, !new), V(!new)>(hash: K -> nat, capacity: nat, ops: seq<Op<K, V>>) returns (m: HashMap<K, V>)
    ensures m.Valid() && Abs(m.Model()) == RunMap(map[], ops)
    ensures m.moved <= 4 * |PutsAt(ops)| + (|ops| - |PutsAt(ops)|)
  {
    m := new HashMap(hash, capacity);
    FreshRun(hash, capacity, ops);
    m.StepAll(ops);
  }
}
