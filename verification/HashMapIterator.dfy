/**
 The key/value iterator of parc_HashMap.c. Its state is a bucket number and a cursor into that
 bucket's list; HasNext itself walks to the next bucket that has something left.
 */
module HashMapIterators {
  import opened HashMapSpec
  import opened HashMapProofs
  import opened HashMaps

  /** _parcHashMap_Init stops the program when no bucket has a list. */
  ghost predicate HasList<K, V>(bs: seq<Bucket<K, V>>) {
    exists i :: 0 <= i < |bs| && bs[i] != Absent
  }

  /** A map that holds anything can be iterated. */
  lemma {:induction false} NonEmptyHasList<K, V>(t: Table<K, V>)
    requires Flatten(t.buckets) != []
    ensures HasList(t.buckets)
  {
    var e := Flatten(t.buckets)[0];
    FlattenMembers(t.buckets, e);
    var i :| 0 <= i < |t.buckets| && e in Elems(t.buckets[i]);
    assert t.buckets[i] != Absent;
  }

  /** The entries of bucket `b` and after; none when `b` has run past the end. */
  ghost function Later<K, V>(bs: seq<Bucket<K, V>>, b: nat): seq<Entry<K, V>> {
    if b < |bs| then Flatten(bs[b..]) else []
  }

  lemma {:induction false} LaterStep<K, V>(bs: seq<Bucket<K, V>>, b: nat)
    requires b < |bs|
    ensures Later(bs, b) == Elems(bs[b]) + Later(bs, b + 1)
    ensures Flatten(bs) == Flatten(bs[..b]) + Later(bs, b)
  {
    var a, c := bs[..b], bs[b + 1..];
    assert bs[b..] == [bs[b]] + c && bs == a + bs[b..];
    FlattenConcat(a, bs[b..]);
    FlattenCons(bs[b], c);
  }

  class HashMapIterator<K(==, !new), V(!new)> {
    const map_: HashMap<K, V>
    var bucket: nat
    var list: seq<Entry<K, V>>
    var pos: nat

    ghost predicate Valid()
      reads this, map_, map_.buckets
    {
      map_.capacity == map_.buckets.Length && pos <= |list|
    }

    /** What is still to be returned. */
    ghost function Pending(): seq<Entry<K, V>>
      requires Valid()
      reads this, map_, map_.buckets
    {
      list[pos..] + Later(map_.buckets[..], bucket + 1)
    }

    constructor (m: HashMap<K, V>)
      requires m.capacity == m.buckets.Length && HasList(m.buckets[..])
      ensures map_ == m && Valid()
      ensures Pending() == Flatten(m.buckets[..])
    {
      map_ := m;
      var i := 0;
      while m.buckets[i] == Absent
        invariant i < m.capacity
        invariant forall j :: 0 <= j < i ==> m.buckets[j] == Absent
        decreases m.capacity - i
      {
        i := i + 1;
      }
      bucket := i;
      list := m.buckets[i].entries;
      pos := 0;
      new;
      AbsentPrefix(m.buckets[..], i);
      LaterStep(m.buckets[..], i);
      assert list[pos..] == list;
    }

    method HasNext() returns (more: bool)
      requires Valid()
      modifies this
      ensures Valid() && Pending() == old(Pending())
      ensures more <==> Pending() != []
      ensures more ==> pos < |list|
    {
      if pos < |list| {
        return true;
      }
      more := false;
      bucket := bucket + 1;
      ghost var bs := map_.buckets[..];
      assert old(Pending()) == Later(bs, bucket);
      while !more && bucket < map_.capacity
        invariant Valid()
        invariant if more then pos < |list| && Pending() == old(Pending())
                  else pos == |list| && Later(bs, bucket) == old(Pending())
        decreases !more, map_.capacity - bucket
      {
        LaterStep(bs, bucket);
        if map_.buckets[bucket] != Absent {
          list := map_.buckets[bucket].entries;
          pos := 0;
          more := pos < |list|;
        }
        if !more {
          bucket := bucket + 1;
        }
      }
      assert !more ==> Later(bs, bucket + 1) == [];
    }

    method Next() returns (current: Entry<K, V>)
      requires Valid() && pos < |list|
      modifies this`pos
      ensures Valid() && [current] + Pending() == old(Pending())
    {
      current := list[pos];
      pos := pos + 1;
    }
  }

  lemma {:induction false} AbsentPrefix<K, V>(bs: seq<Bucket<K, V>>, i: nat)
    requires i <= |bs| && forall j :: 0 <= j < i ==> bs[j] == Absent
    ensures Flatten(bs[..i]) == []
  {
    if i > 0 {
      AbsentPrefix(bs, i - 1);
      assert bs[..i][..i - 1] == bs[..i - 1];
    }
  }

  /** A full iteration returns every entry of the map exactly once. */
  method Drain<K(==, !new), V(!new)>(m: HashMap<K, V>) returns (out: seq<Entry<K, V>>)
    requires m.Valid() && HasList(m.buckets[..])
    ensures out == Flatten(m.buckets[..])
    ensures Distinct(out) && |out| == m.size
    ensures forall e :: e in out <==> e.key in Abs(m.Model()) && Abs(m.Model())[e.key] == e.value
  {
    var it := new HashMapIterator(m);
    out := [];
    var more := it.HasNext();
    while more
      invariant it.Valid() && it.map_ == m && fresh(it)
      invariant out + it.Pending() == Flatten(m.buckets[..])
      invariant more <==> it.Pending() != []
      invariant more ==> it.pos < |it.list|
      decreases |it.Pending()|
    {
      var e := it.Next();
      out := out + [e];
      more := it.HasNext();
    }
    assert out == Flatten(m.buckets[..]);
    InvDistinct(m.hash, m.Model());
  }
}
