/**
 parc_HashCodeTable.c as it runs: probe loops over an array of slots written in place, and growth that
 builds temporary tables until one takes every entry. Each method leaves exactly the table that
 HashCodeTableSpec computes.
 */
module HashCodeTables {
  import opened Basics
  import opened HashCodeTableSpec
  import opened HashCodeTableProofs
  import Spec = HashCodeTableSpec

  datatype AddResult = AddOk | AddDup | AddNoSpace

  lemma {:induction false} CountPrefix<K, D>(slots: seq<Slot<K, D>>, n: nat)
    requires n < |slots|
    ensures |Occupied(slots[..n + 1])| == |Occupied(slots[..n])| + if slots[n].Used? then 1 else 0
  {
    var a, b := slots[..n], slots[..n + 1];
    assert forall i :: 0 <= i < n ==> a[i] == b[i];
    assert n !in Occupied(a);
    assert Occupied(b) == Occupied(a) + if slots[n].Used? then {n} else {};
  }

  class LinearAddressingHashTable<K(==, !new), D(!new)> {
    var entries: array<Slot<K, D>>
    var tableLimit: nat
    var tableSize: int
    var expandThreshold: nat

    ghost predicate Shape()
      reads this, entries
    {
      tableLimit == entries.Length && tableLimit > 0 && expandThreshold == tableLimit - tableLimit / 4
    }

    constructor (limit: nat)
      requires limit > 0
      ensures Shape() && fresh(entries)
      ensures entries[..] == EmptySlots(limit) && tableSize == 0
    {
      entries := new Slot<K, D>[limit](_ => Free);
      tableLimit := limit;
      tableSize := 0;
      expandThreshold := limit - limit / 4;
    }

    /** _innerTableAdd */
    method Add(hashcode: nat, key: K, data: D) returns (result: AddResult)
      requires Shape()
      modifies this`tableSize, entries
      ensures Shape()
      ensures match InnerAdd(old(entries[..]), hashcode, key, data)
              case Added(s) => result == AddOk && entries[..] == s && tableSize == old(tableSize) + 1
              case Duplicate => result == AddDup && entries[..] == old(entries[..]) && tableSize == old(tableSize)
              case NoSpace => result == AddNoSpace && entries[..] == old(entries[..]) && tableSize == old(tableSize)
    {
      var index := hashcode % tableLimit;
      var steps := 0;
      ghost var slots := entries[..];
      AtStep(hashcode, 0, tableLimit);
      while steps < MAX_PROBE_LENGTH
        invariant 0 <= steps <= MAX_PROBE_LENGTH
        invariant index == At(hashcode, steps, tableLimit)
        invariant entries[..] == slots && tableSize == old(tableSize)
        invariant Probe(slots, hashcode, key, 0) == Probe(slots, hashcode, key, steps)
      {
        if entries[index].Free? {
          entries[index] := Used(hashcode, key, data);
          tableSize := tableSize + 1;
          return AddOk;
        }
        if entries[index].hashcode == hashcode && entries[index].key == key {
          return AddDup;
        }
        AtStep(hashcode, steps, tableLimit);
        steps := steps + 1;
        index := index + 1;
        if index == tableLimit {
          index := 0;
        }
      }
      result := AddNoSpace;
    }

    /** _rehash: add every entry of this table to another one. */
    method RehashInto(target: LinearAddressingHashTable<K, D>) returns (result: AddResult)
      requires Shape() && target.Shape() && target != this && target.entries != entries
      requires target.entries[..] == EmptySlots(target.tableLimit) && target.tableSize == 0
      modifies target`tableSize, target.entries
      ensures target.Shape()
      ensures result == match Rehash(entries[..], |entries[..]|, target.tableLimit)
                        case Added(_) => AddOk
                        case Duplicate => AddDup
                        case NoSpace => AddNoSpace
      ensures target.entries[..] == Filled(entries[..], |entries[..]|, target.tableLimit)
      ensures result == AddOk ==> target.tableSize == |Occupied(entries[..])|
    {
      ghost var slots := entries[..];
      for i := 0 to tableLimit
        invariant target.Shape() && entries[..] == slots
        invariant Rehash(slots, i, target.tableLimit) == Added(target.entries[..])
        invariant target.tableSize == |Occupied(slots[..i])|
      {
        CountPrefix(slots, i);
        if entries[i].Used? {
          result := target.Add(entries[i].hashcode, entries[i].key, entries[i].data);
          if result != AddOk {
            FilledStops(slots, i, |slots|, target.tableLimit);
            return;
          }
        }
      }
      assert slots[..|slots|] == slots;
      result := AddOk;
    }
  }

  class HashCodeTable<K(==, !new), D(!new)> {
    const hash: K -> nat
    var hashtable: LinearAddressingHashTable<K, D>
    var expandCount: nat

    ghost predicate Shape()
      reads this, hashtable, hashtable.entries
    {
      hashtable.Shape()
    }

    ghost function Model(): Table<K, D>
      reads this, hashtable, hashtable.entries
    {
      Table(hashtable.entries[..], hashtable.tableSize, expandCount)
    }

    ghost predicate Valid()
      reads this, hashtable, hashtable.entries
    {
      Shape() && Inv(hash, Model())
    }

    /** The map the table stands for. */
    ghost function Contents(): map<K, D>
      reads this, hashtable, hashtable.entries
    {
      Abs(hashtable.entries[..])
    }

    constructor (hash: K -> nat, minimumSize: nat)
      requires minimumSize > 0
      ensures Valid() && fresh(hashtable) && fresh(hashtable.entries)
      ensures this.hash == hash && Model() == Create(minimumSize) && Contents() == map[]
      ensures Packed(hashtable.entries[..])
    {
      this.hash := hash;
      hashtable := new LinearAddressingHashTable(minimumSize);
      expandCount := 0;
      new;
      assert Occupied(hashtable.entries[..]) == {} && Keys(hashtable.entries[..]) == {};
    }

    /** _findIndex */
    method FindIndex(key: K) returns (found: bool, index: nat)
      requires Valid()
      ensures found <==> key in Contents()
      ensures found ==>
                && index == At(hash(key), Seek(Model().slots, hash(key), key, 0), hashtable.tableLimit)
                && Seek(Model().slots, hash(key), key, 0) < Window(hashtable.tableLimit)
                && hashtable.entries[index].Used? && hashtable.entries[index].data == Contents()[key]
      ensures !found ==> Seek(Model().slots, hash(key), key, 0) == Window(hashtable.tableLimit)
    {
      var hashcode := hash(key);
      var limit := hashtable.tableLimit;
      ghost var slots := hashtable.entries[..];
      GetAgrees(hash, Model(), key);
      AtStep(hashcode, 0, limit);
      index := hashcode % limit;
      var start := index;
      var steps := 0;
      while true
        invariant 0 <= steps < Window(limit)
        invariant index == At(hashcode, steps, limit)
        invariant Seek(slots, hashcode, key, 0) == Seek(slots, hashcode, key, steps)
        decreases Window(limit) - steps
      {
        var s := hashtable.entries[index];
        if s.Used? && s.hashcode == hashcode && s.key == key {
          return true, index;
        }
        AtStep(hashcode, steps, limit);
        BackAtStart(hashcode, steps + 1, limit);
        steps := steps + 1;
        index := index + 1;
        if index == limit {
          index := 0;
        }
        if !(index != start && steps < MAX_PROBE_LENGTH) {
          return false, index;
        }
      }
    }

    method Get(key: K) returns (data: Option<D>)
      requires Valid()
      ensures data == Lookup(Contents(), key)
    {
      var found, index := FindIndex(key);
      data := if found then Some(hashtable.entries[index].data) else None;
    }

    method Del(key: K)
      requires Valid()
      modifies hashtable`tableSize, hashtable.entries
      ensures Valid() && Model() == Spec.Del(hash, old(Model()), key)
      ensures Contents() == Without(old(Contents()), key)
    {
      DelRefines(hash, Model(), key);
      var found, index := FindIndex(key);
      if found {
        hashtable.entries[index] := Free;
        hashtable.tableSize := hashtable.tableSize - 1;
      }
    }

    method Length() returns (n: int)
      requires Valid()
      ensures n == |Contents()|
    {
      SizeIsCardinality(hash, Model());
      n := hashtable.tableSize;
    }

    /** _expand */
    method Expand()
      requires Valid() && CanExpand(hashtable.entries[..])
      modifies this`hashtable, this`expandCount
      ensures Valid() && fresh(hashtable) && fresh(hashtable.entries)
      ensures Model() == Spec.Expand(old(Model())) && Contents() == old(Contents())
    {
      ghost var t := Model();
      ghost var least: nat :| LeastFactor(t.slots, least) && Spec.Expand(t) ==
        Table(Rehash(t.slots, |t.slots|, |t.slots| * least).slots, t.size, t.expandCount + least - 1);
      ExpandKeeps(hash, t);
      var expandby := 2;
      while true
        invariant 2 <= expandby <= least
        invariant expandCount == t.expandCount + expandby - 2
        invariant hashtable == old(hashtable) && Shape()
        invariant hashtable.entries[..] == t.slots && hashtable.tableSize == t.size
        decreases least - expandby
      {
        expandCount := expandCount + 1;
        var temp, result := TryRehash(expandby, t);
        if result != AddNoSpace {
          hashtable := temp;
          return;
        }
        expandby := expandby + 1;
      }
    }

    /** One round of _expand: rehash into a fresh table `expandby` times as large. */
    method TryRehash(expandby: nat, ghost t: Table<K, D>) returns (temp: LinearAddressingHashTable<K, D>, result: AddResult)
      requires Shape() && expandby >= 2
      requires Inv(hash, t) && t.slots == hashtable.entries[..] && t.size == hashtable.tableSize
      ensures fresh(temp) && fresh(temp.entries) && temp.Shape()
      ensures result == if Fits(t.slots, expandby) then AddOk else AddNoSpace
      ensures result == AddOk ==>
                && temp.entries[..] == Rehash(t.slots, |t.slots|, |t.slots| * expandby).slots
                && temp.tableSize == t.size
    {
      var limit := hashtable.tableLimit * expandby;
      temp := new LinearAddressingHashTable(limit);
      RehashKeeps(hash, t.slots, |t.slots|, limit);
      result := hashtable.RehashInto(temp);
    }

    method Add(key: K, data: D) returns (ok: bool)
      requires Valid() && AddReturns(hash, Model(), key)
      modifies this, hashtable, hashtable.entries
      ensures Shape() && (hashtable == old(hashtable) || (fresh(hashtable) && fresh(hashtable.entries)))
      ensures hashtable == old(hashtable) ==> hashtable.entries == old(hashtable.entries)
      ensures (Model(), ok) == Spec.Add(hash, old(Model()), key, data)
    {
      ghost var t0 := Model();
      PreparedKeeps(hash, t0);
      if hashtable.tableSize >= hashtable.expandThreshold {
        Expand();
      }
      ghost var t := Prepared(t0);
      ghost var n: nat :| Settles(t, hash(key), key, n)
                          && Spec.Add(hash, t0, key, data) == Place(t, hash(key), key, data, n);
      ok := PlaceKey(key, data, t, n);
    }

    /** One round of the retry loop of parcHashCodeTable_Add. */
    method TryPlace(key: K, data: D, ghost u: Table<K, D>, ghost m: nat) returns (result: AddResult)
      requires Shape() && Model() == u && Inv(hash, u) && Settles(u, hash(key), key, m)
      modifies this, hashtable, hashtable.entries
      ensures Shape()
      ensures if result == AddNoSpace
              then m > 0 && CanExpand(u.slots) && Model() == Spec.Expand(u) && Inv(hash, Model())
                   && Settles(Model(), hash(key), key, m - 1)
                   && Place(u, hash(key), key, data, m) == Place(Model(), hash(key), key, data, m - 1)
                   && fresh(hashtable) && fresh(hashtable.entries)
              else (Model(), result == AddOk) == Place(u, hash(key), key, data, m)
                   && hashtable == old(hashtable) && hashtable.entries == old(hashtable.entries)
    {
      PlaceStep(u, hash(key), key, data, m);
      result := hashtable.Add(hash(key), key, data);
      if result == AddNoSpace {
        ExpandKeeps(hash, u);
        Expand();
      }
    }

    /** The retry loop of parcHashCodeTable_Add, which `n` expansions are enough to end. */
    method PlaceKey(key: K, data: D, ghost t: Table<K, D>, ghost n: nat) returns (ok: bool)
      requires Shape() && Model() == t && Inv(hash, t) && Settles(t, hash(key), key, n)
      modifies this, hashtable, hashtable.entries
      ensures Shape() && (hashtable == old(hashtable) || (fresh(hashtable) && fresh(hashtable.entries)))
      ensures hashtable == old(hashtable) ==> hashtable.entries == old(hashtable.entries)
      ensures (Model(), ok) == Place(t, hash(key), key, data, n)
    {
      ghost var u, m := t, n;
      while true
        invariant Shape() && Model() == u && Inv(hash, u) && Settles(u, hash(key), key, m)
        invariant hashtable == old(hashtable) || (fresh(hashtable) && fresh(hashtable.entries))
        invariant hashtable == old(hashtable) ==> hashtable.entries == old(hashtable.entries)
        invariant Place(t, hash(key), key, data, n) == Place(u, hash(key), key, data, m)
        decreases m
      {
        var result := TryPlace(key, data, u, m);
        if result != AddNoSpace {
          ok := result == AddOk;
          return;
        }
        u, m := Model(), m - 1;
      }
    }
  }

  lemma {:induction false} PlaceStep<K, D>(t: Table<K, D>, h: nat, k: K, d: D, n: nat)
    requires |t.slots| > 0 && Settles(t, h, k, n)
    ensures match InnerAdd(t.slots, h, k, d)
            case Added(s) => Place(t, h, k, d, n) == (t.(slots := s, size := t.size + 1), true)
            case Duplicate => Place(t, h, k, d, n) == (t, false)
            case NoSpace => n > 0 && CanExpand(t.slots) && Settles(Spec.Expand(t), h, k, n - 1)
                            && Place(t, h, k, d, n) == Place(Spec.Expand(t), h, k, d, n - 1)
  {
  }

  lemma {:induction false} BackAtStart(h: nat, i: nat, limit: nat)
    requires 0 < i <= limit
    ensures At(h, i, limit) == At(h, 0, limit) <==> i == limit
  {
    AtForm(h, i, limit);
    AtForm(h, 0, limit);
  }

  lemma {:induction false} SizeIsCardinality<K(!new), D(!new)>(hash: K -> nat, t: Table<K, D>)
    requires Inv(hash, t)
    ensures t.size == |Abs(t.slots)|
  {
    AbsHas(t.slots);
    KeysCount(t.slots, |t.slots|);
    assert t.slots[..|t.slots|] == t.slots;
  }

  lemma {:induction false} KeysCount<K(!new), D(!new)>(slots: seq<Slot<K, D>>, n: nat)
    requires n <= |slots| && Unique(slots)
    ensures |Keys(slots[..n])| == |Occupied(slots[..n])|
  {
    if n == 0 {
      assert Keys(slots[..0]) == {} && Occupied(slots[..0]) == {};
    } else {
      KeysCount(slots, n - 1);
      CountPrefix(slots, n - 1);
      KeysOfPrefix(slots, n - 1);
    }
  }
}
