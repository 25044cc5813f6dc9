/**
 The open-addressing table of parc_HashCodeTable.c as a value: linear probing over at most 20 steps,
 no tombstones, and growth by rehashing into larger tables until every entry fits.
 Keys are values and `==` on them is keyEqualsFunc.
 */
module HashCodeTableSpec {
  import opened Basics

  const MAX_PROBE_LENGTH: nat := 20

  datatype Slot<K, D> = Free | Used(hashcode: nat, key: K, data: D)

  datatype AddOutcome<K, D> = Added(slots: seq<Slot<K, D>>) | Duplicate | NoSpace

  datatype Table<K, D> = Table(slots: seq<Slot<K, D>>, size: int, expandCount: nat)

  // Probe geometry

  /** The slot visited at probe step `i`. */
  function At(h: nat, i: nat, limit: nat): (j: nat)
    requires limit > 0
    ensures j < limit
  {
    (h + i) % limit
  }

  /** The probe step at which slot `j` is first visited. */
  function Dist(h: nat, j: nat, limit: nat): (i: nat)
    requires j < limit
    ensures i < limit
  {
    var b := h % limit;
    if b <= j then j - b else j + limit - b
  }

  predicate Holds<K(==), D>(s: Slot<K, D>, h: nat, k: K) {
    s.Used? && s.hashcode == h && s.key == k
  }

  // Adding to a table that is not grown

  /** _innerTableAdd stops here: a free slot, or the key itself. */
  predicate Stops<K(==), D>(slots: seq<Slot<K, D>>, h: nat, k: K, i: nat)
    requires |slots| > 0
  {
    var s := slots[At(h, i, |slots|)];
    s.Free? || Holds(s, h, k)
  }

  /** The first step, from `i` on, at which an Add stops; 20 when it runs out of steps. */
  function Probe<K(==), D>(slots: seq<Slot<K, D>>, h: nat, k: K, i: nat): (r: nat)
    requires |slots| > 0 && i <= MAX_PROBE_LENGTH
    ensures i <= r <= MAX_PROBE_LENGTH
    ensures r < MAX_PROBE_LENGTH ==> Stops(slots, h, k, r)
    ensures forall x :: i <= x < r ==> !Stops(slots, h, k, x)
    decreases MAX_PROBE_LENGTH - i
  {
    if i == MAX_PROBE_LENGTH || Stops(slots, h, k, i) then i else Probe(slots, h, k, i + 1)
  }

  function InnerAdd<K(==), D>(slots: seq<Slot<K, D>>, h: nat, k: K, d: D): AddOutcome<K, D>
    requires |slots| > 0
  {
    var i := Probe(slots, h, k, 0);
    if i == MAX_PROBE_LENGTH then NoSpace
    else
      var j := At(h, i, |slots|);
      if slots[j].Free? then Added(slots[j := Used(h, k, d)]) else Duplicate
  }

  // Looking up

  /** _findIndex gives up after 20 steps or one full turn. */
  function Window(limit: nat): nat {
    if limit < MAX_PROBE_LENGTH then limit else MAX_PROBE_LENGTH
  }

  /** The first step, from `i` on, at which the key is found; the window's size if it is not. */
  function Seek<K(==), D>(slots: seq<Slot<K, D>>, h: nat, k: K, i: nat): (r: nat)
    requires |slots| > 0 && i <= Window(|slots|)
    ensures i <= r <= Window(|slots|)
    ensures r < Window(|slots|) ==> Holds(slots[At(h, r, |slots|)], h, k)
    ensures forall x :: i <= x < r ==> !Holds(slots[At(h, x, |slots|)], h, k)
    decreases Window(|slots|) - i
  {
    if i == Window(|slots|) || Holds(slots[At(h, i, |slots|)], h, k) then i else Seek(slots, h, k, i + 1)
  }

  function Get<K(==), D>(hash: K -> nat, t: Table<K, D>, k: K): Option<D>
    requires |t.slots| > 0
  {
    var i := Seek(t.slots, hash(k), k, 0);
    if i < Window(|t.slots|) then Some(t.slots[At(hash(k), i, |t.slots|)].data) else None
  }

  function Del<K(==), D>(hash: K -> nat, t: Table<K, D>, k: K): Table<K, D>
    requires |t.slots| > 0
  {
    var i := Seek(t.slots, hash(k), k, 0);
    if i < Window(|t.slots|) then t.(slots := t.slots[At(hash(k), i, |t.slots|) := Free], size := t.size - 1) else t
  }

  // Growing

  function EmptySlots<K, D>(limit: nat): seq<Slot<K, D>> {
    seq(limit, _ => Free)
  }

  /** The first `n` slots rehashed into an empty table. */
  function Rehash<K(==), D>(slots: seq<Slot<K, D>>, n: nat, limit: nat): (r: AddOutcome<K, D>)
    requires n <= |slots| && limit > 0
    ensures r.Added? ==> |r.slots| == limit
  {
    if n == 0 then Added(EmptySlots(limit))
    else
      match Rehash(slots, n - 1, limit)
      case Added(s) =>
        (match slots[n - 1]
         case Free => Added(s)
         case Used(h, k, d) => InnerAdd(s, h, k, d))
      case Duplicate => Duplicate
      case NoSpace => NoSpace
  }

  /** What the new table holds when _rehash of the first `n` slots returns, whatever it reports. */
  function Filled<K(==), D>(slots: seq<Slot<K, D>>, n: nat, limit: nat): seq<Slot<K, D>>
    requires n <= |slots| && limit > 0
  {
    match Rehash(slots, n, limit)
    case Added(s) => s
    case _ => Filled(slots, n - 1, limit)
  }

  predicate Fits<K(==), D>(slots: seq<Slot<K, D>>, factor: nat)
    requires |slots| > 0 && factor > 0
  {
    Rehash(slots, |slots|, |slots| * factor).Added?
  }

  ghost predicate LeastFactor<K, D>(slots: seq<Slot<K, D>>, factor: nat)
    requires |slots| > 0
  {
    2 <= factor && Fits(slots, factor) && forall e :: 2 <= e < factor ==> !Fits(slots, e)
  }

  /** The tables with unique keys for which _expand's retry loop ends; HashCodeTableGrowth.CanExpandIff says which they are. */
  ghost predicate CanExpand<K, D>(slots: seq<Slot<K, D>>)
    requires |slots| > 0
  {
    exists e: nat :: LeastFactor(slots, e)
  }

  ghost function Expand<K, D>(t: Table<K, D>): (r: Table<K, D>)
    requires |t.slots| > 0 && CanExpand(t.slots)
    ensures |r.slots| >= 2 * |t.slots|
  {
    var e: nat :| LeastFactor(t.slots, e);
    Table(Rehash(t.slots, |t.slots|, |t.slots| * e).slots, t.size, t.expandCount + e - 1)
  }

  ghost predicate Stuck<K, D>(slots: seq<Slot<K, D>>, h: nat, k: K)
    requires |slots| > 0
  {
    Probe(slots, h, k, 0) == MAX_PROBE_LENGTH
  }

  /** The retry loop of parcHashCodeTable_Add ends after at most `n` expansions. */
  ghost predicate Settles<K, D>(t: Table<K, D>, h: nat, k: K, n: nat)
    requires |t.slots| > 0
    decreases n
  {
    Stuck(t.slots, h, k) ==> n > 0 && CanExpand(t.slots) && Settles(Expand(t), h, k, n - 1)
  }

  ghost function Place<K, D>(t: Table<K, D>, h: nat, k: K, d: D, n: nat): (r: (Table<K, D>, bool))
    requires |t.slots| > 0 && Settles(t, h, k, n)
    ensures |r.0.slots| > 0
    decreases n
  {
    if Stuck(t.slots, h, k) then Place(Expand(t), h, k, d, n - 1)
    else
      match InnerAdd(t.slots, h, k, d)
      case Added(s) => (t.(slots := s, size := t.size + 1), true)
      case Duplicate => (t, false)
  }

  /** A table at its threshold grows before anything is added. */
  ghost function Prepared<K, D>(t: Table<K, D>): (r: Table<K, D>)
    requires |t.slots| > 0
    requires 4 * t.size >= 3 * |t.slots| ==> CanExpand(t.slots)
    ensures |r.slots| > 0
  {
    if 4 * t.size >= 3 * |t.slots| then Expand(t) else t
  }

  /** The tables with unique keys from which parcHashCodeTable_Add returns; see HashCodeTableGrowth.AddReturnsIff. */
  ghost predicate AddReturns<K, D>(hash: K -> nat, t: Table<K, D>, k: K)
    requires |t.slots| > 0
  {
    && (4 * t.size >= 3 * |t.slots| ==> CanExpand(t.slots))
    && exists n: nat :: Settles(Prepared(t), hash(k), k, n)
  }

  ghost function Add<K, D>(hash: K -> nat, t: Table<K, D>, k: K, d: D): (r: (Table<K, D>, bool))
    requires |t.slots| > 0 && AddReturns(hash, t, k)
    ensures |r.0.slots| > 0
  {
    var n: nat :| Settles(Prepared(t), hash(k), k, n);
    Place(Prepared(t), hash(k), k, d, n)
  }

  function Create<K, D>(limit: nat): Table<K, D> {
    Table(EmptySlots(limit), 0, 0)
  }

  // The invariant and the finite map a table stands for

  ghost predicate Placed<K, D>(hash: K -> nat, slots: seq<Slot<K, D>>) {
    forall j :: 0 <= j < |slots| && slots[j].Used? ==>
      slots[j].hashcode == hash(slots[j].key) && Dist(slots[j].hashcode, j, |slots|) < MAX_PROBE_LENGTH
  }

  ghost predicate Unique<K, D>(slots: seq<Slot<K, D>>) {
    forall i, j :: 0 <= i < j < |slots| && slots[i].Used? && slots[j].Used? ==> slots[i].key != slots[j].key
  }

  /** Every slot from an entry's home up to its own slot is taken. */
  ghost predicate Packed<K, D>(slots: seq<Slot<K, D>>) {
    forall j, i :: 0 <= j < |slots| && slots[j].Used? && 0 <= i < Dist(slots[j].hashcode, j, |slots|) ==>
      slots[At(slots[j].hashcode, i, |slots|)].Used?
  }

  ghost function Occupied<K, D>(slots: seq<Slot<K, D>>): set<nat> {
    set j: nat | j < |slots| && slots[j].Used?
  }

  ghost predicate Inv<K, D>(hash: K -> nat, t: Table<K, D>) {
    && |t.slots| > 0
    && Placed(hash, t.slots)
    && Unique(t.slots)
    && t.size == |Occupied(t.slots)|
    && 4 * t.size < 3 * |t.slots| + 4
  }

  ghost predicate Has<K, D>(slots: seq<Slot<K, D>>, k: K, d: D) {
    exists j :: 0 <= j < |slots| && slots[j].Used? && slots[j].key == k && slots[j].data == d
  }

  ghost function Keys<K, D>(slots: seq<Slot<K, D>>): set<K> {
    set j | 0 <= j < |slots| && slots[j].Used? :: slots[j].key
  }

  ghost function Abs<K, D>(slots: seq<Slot<K, D>>): map<K, D> {
    map k | k in Keys(slots) :: var d :| Has(slots, k, d); d
  }
}
