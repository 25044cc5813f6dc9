# Libparc containers and buffers in Dafny

A model of the data structures in `parc/algol` of Libparc that keep cached or derived state: the chained
hash map and its iterator, the open-addressing hash-code table and the buffer dictionary on top of it, the
bit vector, Base64, the elastic buffer composer over PARCBuffer, the FNV-1a hash, the buffer chunker and
the linked deque. Each is given the simple mathematical object it stands for (a finite map, a set of
numbers, a sequence of bytes), and the code's state is proved to agree with it, over whole runs where
the promise is about runs.

`dafny verify dfyconfig.toml` verifies the project.

## How it is laid out

| file | content |
|---|---|
| `HashMapSpec`, `HashMapProofs`, `HashMap`, `HashMapIterator` | `parc_HashMap.c`: the table as a value; refinement, load and cost proofs; the object updated in place; the iterator |
| `HashCodeTableSpec`, `HashCodeTableProofs`, `HashCodeTableRuns`, `HashCodeTableGrowth`, `HashCodeTable` | `parc_HashCodeTable.c`: probing, adding, growing as functions; what they keep; runs and second copies; when the retry loops end; the object |
| `BufferDictionary` | `parc_BufferDictionary.c`: Put and Get over the table |
| `BitVectorSpec`, `BitVector` | `parc_BitVector.c`: bytes as sets, the two shifts as functions on sets; the object |
| `Base64Spec`, `Base64Rfc`, `Base64Decoding`, `Base64` | `parc_Base64.c`: what is computed; the encoding of section 4 of RFC 4648; which texts are accepted and what they decode to; the loops over a composer |
| `Buffer`, `BufferComposer`, `BufferChunker` | `parc_Buffer.c`, `parc_BufferComposer.c`, `parc_BufferChunker.c` |
| `HashCode`, `Deque` | `parc_HashCode.c`, `parc_Deque.c` |
| `Basics`, `Bytes` | shared notions |

Methods of the classes follow the C functions and are proved to leave exactly the value that a
specification function computes; the lemmas are about those functions. Loops whose bodies are long are
split: a body of a C loop may appear as a method of its own.

Modelling decisions:

- A key is a value and `==` on keys is the equality the C code is given (`parcObject_Equals`,
  `keyEqualsFunc`); a hash is a function of the key. `PARCLinkedList` and its iterator are a sequence and
  an index into it; a NULL bucket and an empty list are kept apart.
- `size_t` and `unsigned` counters are unbounded, except the 64-bit hash, which wraps, and the
  unsigned `-1` of the bit vector. Load factors are compared in integers (`4*size >= 3*capacity`,
  `4*size <= capacity`), which is what the comparison of doubles decides for every size below 2^50.
- Objects are not reference counted and allocation does not fail. A trap or failed assertion of the
  source, a dereference of NULL, an access past an allocation and a loop that never ends appear as
  preconditions, and nothing else does.
- Bit operations on bytes in Base64, hashing and the bit vector are written as arithmetic.

## Where the code and its documentation differ

The model follows the code.

- Add of a present key is documented to be refused. After a Del it can store a second copy: `AddPresent`
  says exactly when, `SecondCopy` shows it for any two keys with the same home in a fresh table of any
  size. `PutReportsIffVisible` carries the condition to the dictionary, `PutAfterRemoveForgets` is a run
  of four calls on a new one. Once a key is stored twice, the next growth ends at the second copy and
  drops every entry after it (`SecondCopyEndsRehash`, `GrowthLosesAKey`).
- `_expand` and `parcHashCodeTable_Add` retry until there is space, which may be forever. `CanExpandIff`:
  `_expand` ends if and only if one trial, into any table that exceeds every hash code by 20, succeeds.
  `AddReturnsIff`: Add returns if and only if it does within the number of doublings that take the table
  past every hash code, because a wider table rehashes to itself (`WideStaysPut`). `RoomyAddReturns` is a
  condition on the hash codes alone: no stretch of 20 or more codes belongs to more keys than it has
  codes. Distinct codes meet it; a 21st key with the same code is never added (`CrowdedNeverReturns`).
  (The file's comment speaks of 10 probes; the code makes 20.)
- `parcBitVector_RightShift` moves bits by `count` only if no two runs of ones are one clear bit apart:
  `RightShifted` is what it does for every set, `RightShiftExactIff` the exact condition,
  `RightShiftDistorts` an input.
- `parcBitVector_Clear` of the bit numbered `bitLength` accesses memory past the array.
- A failed Base64 decoding is documented to rewind the output. It does so exactly when the bytes decoded
  before the failure fitted into the composer's buffer (`DecodeArray`), which three bytes of room for every
  four characters ensure (`DecodedAtMost`); `RollbackMissed` is a call for which it does not.
  Line breaks are documented to be skipped; a text that ends in one is always refused
  (`LineBreaksIgnored`). (The comment gives `~` the code 127; it is 126.)
- `parcDeque_RemoveLast` follows a null pointer when the deque has exactly one element.
- A chunker sizes its first chunk by the position of the shared buffer, which every iteration moves: a
  reverse iteration recovers the data if and only if it starts with the position at 0 (`DrainReverse`,
  `ReverseRecoversIff`). Empty data gives one empty chunk.

## Model

| member | source | states |
|---|---|---|
| HashMapProofs.EveryRunRefinesAMap | parc/algol/parc_HashMap.c:414-545 | for every run of Put and Remove on a fresh map: every lookup answers from the finite map the operations mean, the size is its cardinality, every entry is in its home bucket, the capacity is the minimum times a power of two and the load is within both bounds |
| HashMapProofs.AmortisedResizing | parc/algol/parc_HashMap.c:427-532 | over every run on a fresh map, all resizes together move at most 4 entries per Put and 1 per Remove |
| HashMapProofs.MovedMeans | parc/algol/parc_HashMap.c:427-532 | an operation that changes the capacity moves every entry there is at that moment, any other operation none |
| HashMapProofs.ResizePaid | parc/algol/parc_HashMap.c:485-508 | one operation's moved entries are paid by its charge and the drop of the potential |
| HashMapProofs.PutRefines | parc/algol/parc_HashMap.c:498-532 | Put inserts or replaces in the map, doubles exactly when the load is at least 3/4, and one doubling restores the load bounds |
| HashMapProofs.RemoveRefines | parc/algol/parc_HashMap.c:461-494 | Remove deletes from the map and halves exactly when the load is at most 1/4 above the minimum capacity; one halving restores the load bounds |
| HashMapProofs.ResizeRefines | parc/algol/parc_HashMap.c:427-459 | a resize keeps the map and the size, and is refused below the minimum capacity |
| HashMapProofs.StoreRefines | parc/algol/parc_HashMap.c:510-529 | replacing or appending in the home bucket updates the map at that key only |
| HashMapProofs.UnlinkRefines | parc/algol/parc_HashMap.c:464-483 | unlinking from the home bucket removes that key only |
| HashMapProofs.FindAgrees | parc/algol/parc_HashMap.c:130-153 | the search of one bucket agrees with the map for present and absent keys |
| HashMapProofs.CreateGood | parc/algol/parc_HashMap.c:205-224 | a fresh table is the empty map within its load bounds, for capacity 0 too |
| HashMapProofs.Run | parc/algol/parc_HashMap.c:461-532 | the table after any run keeps the invariant and the load bounds and stands for the run's map |
| HashMaps.HashMap.constructor | parc/algol/parc_HashMap.c:205-224 | the new object is the empty map; its capacity and its minimum are the argument, or 43 for 0 |
| HashMaps.HashMap.GetEntry | parc/algol/parc_HashMap.c:130-153 | the list walk finds the first entry for the key in bucket hash % capacity, and finds one exactly for keys of the map |
| HashMaps.HashMap.Get | parc/algol/parc_HashMap.c:534-545 | returns the key's value in the map, or nothing |
| HashMaps.HashMap.Contains | parc/algol/parc_HashMap.c:414-425 | true exactly for keys of the map |
| HashMaps.HashMap.Resize | parc/algol/parc_HashMap.c:427-459 | the nested loops produce the redistributed table and move each entry once |
| HashMaps.HashMap.Put | parc/algol/parc_HashMap.c:498-532 | in place: the map gains the pair, the table is the specified one, the moved entries are counted |
| HashMaps.HashMap.Remove | parc/algol/parc_HashMap.c:461-494 | in place: the map loses the key, and the result tells whether it was there |
| HashMaps.Perform | parc/algol/parc_HashMap.c:461-532 | any run on a real object ends in the run's map, with the amortised bound on the entries actually moved |
| HashMapIterators.HashMapIterator.constructor | parc/algol/parc_HashMap.c:594-615 | everything in the map is pending |
| HashMapIterators.HashMapIterator.HasNext | parc/algol/parc_HashMap.c:646-665 | true exactly when something is pending; moving to the next bucket never changes what is pending, so repeated calls skip nothing |
| HashMapIterators.HashMapIterator.Next | parc/algol/parc_HashMap.c:627-633 | takes the first pending entry |
| HashMapIterators.Drain | parc/algol/parc_HashMap.c:587-665 | a full iteration returns every entry of the map exactly once, passing over empty lists |
| HashMapIterators.NonEmptyHasList | parc/algol/parc_HashMap.c:603-611 | a map that holds something never meets the iterator's trap |
| HashCodeTableRuns.EveryRunRefinesAMap | parc/algol/parc_HashCodeTable.c:126-372 | in every run from a fresh table that adds only keys Get reports absent: entries lie within 20 probe steps of home, keys are unique, the size counts occupied slots, and Get answers from the run's map |
| HashCodeTableRuns.RunRefines | parc/algol/parc_HashCodeTable.c:305-355 | the same from any table that satisfies the invariant |
| HashCodeTableProofs.GetAgrees | parc/algol/parc_HashCodeTable.c:357-372 | Get agrees with the map for present and absent keys |
| HashCodeTableProofs.SeekFinds | parc/algol/parc_HashCodeTable.c:126-157 | the bounded probe finds exactly the stored keys |
| HashCodeTableProofs.DelRefines | parc/algol/parc_HashCodeTable.c:329-355 | Del removes that key only and keeps the invariant although it leaves a hole |
| HashCodeTableProofs.InnerAddRefines | parc/algol/parc_HashCodeTable.c:159-190 | for an absent key: never a duplicate, and if there is space the map gains the pair |
| HashCodeTableProofs.InnerAddPresent | parc/algol/parc_HashCodeTable.c:159-190 | for a present key: refused exactly when no free slot precedes it on its probe path, otherwise a second copy is stored |
| HashCodeTableProofs.RehashKeeps | parc/algol/parc_HashCodeTable.c:192-206 | rehashing never meets a duplicate, keeps the map and leaves no gap before any entry |
| HashCodeTableProofs.ExpandKeeps | parc/algol/parc_HashCodeTable.c:208-237 | _expand keeps mapping and size, leaves no gaps and gets below the threshold |
| HashCodeTableProofs.AddAbsent | parc/algol/parc_HashCodeTable.c:305-327 | Add of an absent key succeeds, and the map gains the pair across any growth |
| HashCodeTableProofs.AddPresent | parc/algol/parc_HashCodeTable.c:305-327 | Add of a present key is refused, and keys stay unique, if and only if 4 * size >= 3 * limit or no free slot shadows the key |
| HashCodeTableProofs.PreparedKeeps | parc/algol/parc_HashCodeTable.c:264-314 | Add grows before it probes if and only if 4 * size >= 3 * limit; the map is kept, and growing leaves no gaps |
| HashCodeTableRuns.SecondCopy | parc/algol/parc_HashCodeTable.c:159-175 | for every hash, table size and two keys with the same home: add both to a fresh table, delete the first and add the second again, and it is stored twice |
| HashCodeTableRuns.SecondCopyEndsRehash | parc/algol/parc_HashCodeTable.c:192-237 | a second copy ends the rehash with a duplicate at any table size, and the table then installed holds the entries before it and no others |
| HashCodeTableRuns.GrowthLosesAKey | parc/algol/parc_HashCodeTable.c:192-237 | a key that Get finds, stored after a second copy, is gone once the table has grown |
| HashCodeTableGrowth.CanExpandIff | parc/algol/parc_HashCodeTable.c:208-237 | the retry loop of _expand ends if and only if one trial, into any table that exceeds every stored hash code by 20, takes every entry |
| HashCodeTableGrowth.CoveredRehash | parc/algol/parc_HashCodeTable.c:159-206 | if the entries fit any table, they fit every table that exceeds their hash codes by 20, each no further from its home |
| HashCodeTableGrowth.AddReturnsIff | parc/algol/parc_HashCodeTable.c:305-327 | Add returns if and only if it does within n expansions, for any n > 0 doublings that take the table 20 past every hash code |
| HashCodeTableGrowth.WideAddReturnsIff | parc/algol/parc_HashCodeTable.c:305-327 | for a gap-free table that is already that wide, Add returns if and only if the key or a free slot lies within its 20 steps |
| HashCodeTableGrowth.WideStaysPut | parc/algol/parc_HashCodeTable.c:192-206 | rehashing a gap-free table that is already that wide puts every entry back into its own slot |
| HashCodeTableGrowth.StuckIsDense | parc/algol/parc_HashCodeTable.c:159-190 | a key that finds no place in such a table lies in a stretch of 20 or more hash codes that belongs to more keys than it has codes |
| HashCodeTableGrowth.RoomyCanExpand | parc/algol/parc_HashCodeTable.c:208-237 | without such a stretch among the stored keys _expand ends |
| HashCodeTableGrowth.RoomyAddReturns | parc/algol/parc_HashCodeTable.c:305-327 | without such a stretch, the new key included, Add returns |
| HashCodeTableGrowth.DistinctCanExpand | parc/algol/parc_HashCodeTable.c:208-237 | with pairwise distinct hash codes the retry loop of _expand ends |
| HashCodeTableGrowth.DistinctAddReturns | parc/algol/parc_HashCodeTable.c:312-324 | with pairwise distinct hash codes, the new key's included, Add returns |
| HashCodeTableGrowth.WindowHolds20 | parc/algol/parc_HashCodeTable.c:159-190 | at most 20 stored keys share a hash code |
| HashCodeTableGrowth.CrowdedNeverReturns | parc/algol/parc_HashCodeTable.c:305-327 | with 20 stored keys sharing a hash code, Add of another key with it never returns |
| HashCodeTables.LinearAddressingHashTable.Add | parc/algol/parc_HashCodeTable.c:159-190 | the wrapping probe loop has the specified outcome, and changes nothing unless it adds |
| HashCodeTables.LinearAddressingHashTable.RehashInto | parc/algol/parc_HashCodeTable.c:192-206 | the loop rehashes every entry or reports why it stopped, leaves what was rehashed until then, and counts the entries |
| HashCodeTables.HashCodeTable.constructor | parc/algol/parc_HashCodeTable.c:239-269 | the new table is the empty map |
| HashCodeTables.HashCodeTable.FindIndex | parc/algol/parc_HashCodeTable.c:126-157 | the do-while loop finds exactly the keys of the map |
| HashCodeTables.HashCodeTable.Get | parc/algol/parc_HashCodeTable.c:357-372 | returns the key's data in the map, or nothing |
| HashCodeTables.HashCodeTable.Del | parc/algol/parc_HashCodeTable.c:329-355 | in place: the map loses the key |
| HashCodeTables.HashCodeTable.Length | parc/algol/parc_HashCodeTable.c:374-379 | the cached size is the cardinality of the map |
| HashCodeTables.HashCodeTable.Expand | parc/algol/parc_HashCodeTable.c:208-237 | the retry loop ends, and stops at the least factor that fits |
| HashCodeTables.HashCodeTable.Add | parc/algol/parc_HashCodeTable.c:305-327 | the whole call, with its threshold check and retry loop, ends in the specified table and result |
| BufferDictionaries.EveryPutRunRefinesAMap | parc/algol/parc_BufferDictionary.c:143-174 | in every run of Puts on a fresh dictionary each Put returns the key's previous value or none, and every Get agrees with the map of the puts so far |
| BufferDictionaries.Perform | parc/algol/parc_BufferDictionary.c:102-165 | any list of Puts on a new dictionary object, provided each returns: all the returned values, and the map that is left |
| BufferDictionaries.RoomyPutsReturn | parc/algol/parc_BufferDictionary.c:143-165 | a list of Puts whose keys' hash codes are not too dense returns throughout |
| BufferDictionaries.PutReturnsWithAdd | parc/algol/parc_BufferDictionary.c:155-161 | if the first Add of a Put returns, the second does |
| BufferDictionaries.PutRefines | parc/algol/parc_BufferDictionary.c:143-165 | Put returns the previous value, updates the map and restores gap-freeness |
| BufferDictionaries.ReplaceRefines | parc/algol/parc_BufferDictionary.c:156-161 | Del then Add replaces the value and cannot fail to return |
| BufferDictionaries.HoleIsRefilled | parc/algol/parc_BufferDictionary.c:160-161 | the Add after the Del takes the very slot the Del freed |
| BufferDictionaries.PutReportsIffVisible | parc/algol/parc_BufferDictionary.c:143-165 | Put of a present key returns its value, and keeps keys unique, if and only if no freed slot hides the key |
| BufferDictionaries.PutAfterRemoveForgets | parc/algol/parc_BufferDictionary.c:143-187 | on a new dictionary: Put "", Put "%", Remove ""; then Put of "%", which Get finds, returns nothing |
| BufferDictionaries.HashOfKey | parc/algol/parc_BufferDictionary.c:84-89 | a key's hash code is the hash code of its remaining bytes |
| BufferDictionaries.BufferDictionary.constructor | parc/algol/parc_BufferDictionary.c:102-137 | the new dictionary is an empty table of 256 slots, without gaps |
| BufferDictionaries.BufferDictionary.Get | parc/algol/parc_BufferDictionary.c:167-174 | returns the key's value in the map, or nothing |
| BufferDictionaries.BufferDictionary.Put | parc/algol/parc_BufferDictionary.c:143-165 | in place: for an absent or visible key the previous value is returned and the map updated; gap-freeness is kept; the table is kept or new |
| BufferDictionaries.BufferDictionary.Remove | parc/algol/parc_BufferDictionary.c:176-187 | for a present key: returns its value and deletes it |
| HashCode.HashImpl | parc/algol/parc_HashCode.c:71-84 | the loop computes the FNV-1a fold modulo 2^64 |
| HashCode.StepMeans | parc/algol/parc_HashCode.c:79-80 | a step is the exclusive or, said bit by bit, times 0x100000001B3 modulo 2^64 |
| HashCode.KnownHashCodes | parc/algol/parc_HashCode.c:64-84 | "a" and "foobar" have their published codes, and "%" the one whose low byte is 0 |
| Bytes.XorBits | parc/algol/parc_HashCode.c:79 | bit i of the exclusive or is set exactly when bit i of the operands differs |
| HashCode.StepInverts | parc/algol/parc_HashCode.c:79-80 | each step is a bijection on hash codes, with an explicit inverse |
| HashCode.StepSeparatesBytes | parc/algol/parc_HashCode.c:79-80 | different bytes give different hash codes after one step |
| HashCode.HashSeparatesInitials | parc/algol/parc_HashCode.c:71-84 | hashing the same bytes maps two initial values to the same code only if they are equal |
| HashCode.OneByteChangesHash | parc/algol/parc_HashCode.c:71-84 | changing exactly one byte always changes the hash code |
| Buffers.Compare | parc/algol/parc_Buffer.c:537-574 | less exactly when the first operand alone is NULL, or its remaining bytes are a proper prefix or have the smaller byte at the first difference; greater the other way round; whatever the offsets and backing arrays |
| Buffers.OrderMeans | parc/algol/parc_Buffer.c:537-574 | the recursive order is "proper prefix, or smaller at the first difference" |
| Buffers.NullFirstOrders | parc/algol/parc_Buffer.c:537-574 | with NULL included it is a total order: antisymmetric, transitive, equal only for equal operands |
| Buffers.OrderSame | parc/algol/parc_Buffer.c:537-574 | only equal byte sequences compare equal |
| Buffers.OrderFlips | parc/algol/parc_Buffer.c:537-574 | exchanging the operands reverses the order |
| Buffers.OrderTransitive | parc/algol/parc_Buffer.c:537-574 | the order is transitive, and equal at the ends only if equal throughout |
| Buffers.Equals | parc/algol/parc_Buffer.c:524-535 | true exactly for equal remaining bytes, and for NULL with NULL |
| Buffers.HashCodeOf | parc/algol/parc_Buffer.c:937-947 | the hash code is a function of the remaining bytes only, so buffers that compare equal share it; 0 for none |
| Buffers.OneByteApart | parc/algol/parc_Buffer.c:937-947 | buffers of equal length that differ in exactly one byte never share a hash code |
| Buffers.BigEndianRoundTrip | parc/algol/parc_Buffer.c:817-895 | an integer put in n bytes is read back unchanged |
| Buffers.BigEndianInverse | parc/algol/parc_Buffer.c:817-895 | n bytes read as an integer are put back unchanged |
| Buffers.BigEndianSplits | parc/algol/parc_Buffer.c:817-895 | the bytes before any place count 256 to the number of bytes after it |
| Buffers.Buffer.Allocate | parc/algol/parc_Buffer.c:420-434 | position 0, limit at the capacity |
| Buffers.Buffer.SetPosition | parc/algol/parc_Buffer.c:705-720 | moves the position within the limit and nothing else |
| Buffers.Buffer.Flip | parc/algol/parc_Buffer.c:758-770 | what was written becomes what remains |
| Buffers.Buffer.PutUint8 | parc/algol/parc_Buffer.c:848-858 | appends the byte to what is written |
| Buffers.Buffer.PutArray | parc/algol/parc_Buffer.c:907-916 | appends the bytes to what is written |
| Buffers.Buffer.PutBuffer | parc/algol/parc_Buffer.c:924-935 | appends the source's remaining bytes, leaving the source as it was, also within one backing array where the two places do not overlap |
| Buffers.Buffer.PutUint | parc/algol/parc_Buffer.c:860-895 | appends the integer's bytes, most significant first |
| Buffers.Buffer.GetUint8 | parc/algol/parc_Buffer.c:793-803 | takes the first remaining byte |
| Buffers.Buffer.GetUint | parc/algol/parc_Buffer.c:817-846 | takes the integer the next bytes spell, most significant first |
| BufferComposers.Compose | parc/algol/parc_BufferComposer.c:183-319 | for every sequence of puts (arrays, single bytes, integers, other buffers), initial capacity and increment, the produced buffer holds the plain concatenation |
| BufferComposers.ReadBack | parc/algol/parc_BufferComposer.c:213-244 | integers put and then read in the same order and sizes come back unchanged |
| BufferComposers.BufferComposer.EnsureRemaining | parc/algol/parc_BufferComposer.c:108-130 | makes the room, keeps what was put and the limit at the capacity, and replaces the buffer exactly when the room was short, by the larger of the need and the increment |
| BufferComposers.BufferComposer.PutArray | parc/algol/parc_BufferComposer.c:183-194 | appends the bytes, growing if needed |
| BufferComposers.BufferComposer.PutUint8 | parc/algol/parc_BufferComposer.c:202-211 | appends the byte, growing if needed |
| BufferComposers.BufferComposer.PutUint | parc/algol/parc_BufferComposer.c:213-244 | appends the integer's bytes, growing if needed |
| BufferComposers.BufferComposer.PutBuffer | parc/algol/parc_BufferComposer.c:246-255 | appends the source's remaining bytes and leaves the source unchanged |
| BufferComposers.BufferComposer.ProduceBuffer | parc/algol/parc_BufferComposer.c:315-319 | what remains in the produced buffer is everything put |
| BitVectors.BitVector.constructor | parc/algol/parc_BitVector.c:101-115 | the empty set, with the caches in agreement |
| BitVectors.BitVector.Copy | parc/algol/parc_BitVector.c:117-132 | the same set |
| BitVectors.BitVector.Resize | parc/algol/parc_BitVector.c:152-172 | growing keeps the set and allocates whole bytes up to the bit |
| BitVectors.Get | parc/algol/parc_BitVector.c:174-190 | 1 exactly for members, -1 exactly beyond the allocation or for NULL |
| BitVectors.BitVector.NextBitSet | parc/algol/parc_BitVector.c:286-309 | the least member from the start on, or the unsigned -1 exactly when there is none |
| BitVectors.BitVector.Set | parc/algol/parc_BitVector.c:192-209 | inserts; the count stays the cardinality and the first bit the minimum |
| BitVectors.BitVector.Clear | parc/algol/parc_BitVector.c:235-252 | deletes; the caches stay in agreement, also when the first bit goes |
| BitVectors.BitVector.Reset | parc/algol/parc_BitVector.c:225-232 | the empty set |
| BitVectors.BitVector.NumberOfBitsSet | parc/algol/parc_BitVector.c:280-284 | the cached count is the cardinality |
| BitVectors.BitVector.SetVector | parc/algol/parc_BitVector.c:211-223 | union, also with itself |
| BitVectors.BitVector.ClearVector | parc/algol/parc_BitVector.c:254-278 | difference, also with itself and with a longer operand |
| BitVectors.BitVector.Contains | parc/algol/parc_BitVector.c:311-326 | true exactly when the operand's set is included |
| BitVectors.BitVector.Equals | parc/algol/parc_BitVector.c:134-150 | true exactly for equal sets, whatever the allocated lengths |
| BitVectors.CommonPrefixDecides | parc/algol/parc_BitVector.c:140-147 | once the counts agree, the bytes both arrays have decide equality |
| BitVectors.Or | parc/algol/parc_BitVector.c:353-372 | union, a NULL operand counting as empty |
| BitVectors.And | parc/algol/parc_BitVector.c:374-394 | intersection, a NULL operand counting as empty |
| BitVectors.BitVector.LeftShiftOnce | parc/algol/parc_BitVector.c:396-409 | every member moves down by one and 0 falls off, although bits change during the walk |
| BitVectors.BitVector.LeftShift | parc/algol/parc_BitVector.c:411-419 | exactly { b - n : b in S, b >= n } |
| BitVectors.BitVector.RightShiftOnce | parc/algol/parc_BitVector.c:421-440 | for every set whose moved bits stay below 8192, exactly the skipped bits stay and all others move up by one |
| BitVectors.BitVector.RightShift | parc/algol/parc_BitVector.c:442-450 | the same, `count` times |
| BitVectorSpec.RightShiftKeepsCount | parc/algol/parc_BitVector.c:442-450 | a right shift by any count keeps the number of set bits |
| BitVectorSpec.RightShiftExactIff | parc/algol/parc_BitVector.c:421-450 | a right shift by any positive count is { b + n : b in S } if and only if no two runs of ones are exactly one clear bit apart |
| BitVectorSpec.HalfRightStep | parc/algol/parc_BitVector.c:425-436 | moving one run and resuming two bits after its end continues the shift |
| BitVectorSpec.RightShiftDistorts | parc/algol/parc_BitVector.c:425-436 | bits 0 and 2 become 1 and 2 |
| Base64Rfc.EncodeIsRfc | parc/algol/parc_Base64.c:121-167 | the encoding has 4*ceil(n/3) characters, each the letter of the RFC's alphabet for its six bits of the input, or = |
| Base64Rfc.CodeIsAlphabet | parc/algol/parc_Base64.c:88-89 | the code table is the literal alphabet A-Z a-z 0-9 + /, and the pad is = |
| Base64Decoding.DecodeAccepts | parc/algol/parc_Base64.c:276-331 | a text is decoded successfully if and only if it is empty, or has only letters of the alphabet, = and line breaks, a multiple of four besides line breaks, and no line break at its end |
| Base64Decoding.DecodesBlocks | parc/algol/parc_Base64.c:172-323 | every text, valid or not, decodes to the bytes of its whole blocks of four symbols before the first foreign character, each block read as one number of 24 bits |
| Base64Decoding.QuantumMeans | parc/algol/parc_Base64.c:172-227 | four symbols decode to the leading bytes of the number they spell to the base 64, up to the last symbol that is not a pad |
| Base64Spec.RoundTrip | parc/algol/parc_Base64.c:121-331 | decoding an encoding succeeds and gives the original bytes, for every length |
| Base64Spec.QuantumRoundTrip | parc/algol/parc_Base64.c:121-227 | the same for one quantum of one, two or three bytes |
| Base64Spec.TablesInvert | parc/algol/parc_Base64.c:88-113 | the decode table inverts the alphabet |
| Base64Spec.LineBreaksIgnored | parc/algol/parc_Base64.c:286-323 | a text ending in CR or LF is refused; every other text, valid or not, decodes as it does without its line breaks |
| Base64.EncodeWithPad | parc/algol/parc_Base64.c:121-167 | appends the four characters of one quantum |
| Base64.EncodeArray | parc/algol/parc_Base64.c:241-255 | appends the RFC's encoding of all bytes, across composer growth |
| Base64.GatherQuantum | parc/algol/parc_Base64.c:289-318 | the inner loop collects the next four symbols, passing over line breaks, or stops where fewer are left before a foreign character or the end |
| Base64.DecodeInto | parc/algol/parc_Base64.c:172-227 | appends the zero to three bytes that a quantum stands for |
| Base64.DecodeArray | parc/algol/parc_Base64.c:276-331 | success exactly for the acceptable texts, and the appended bytes for every text; after a failure the output is as before if and only if what was decoded fitted the buffer, and otherwise keeps it |
| Base64Spec.DecodedAtMost | parc/algol/parc_Base64.c:172-323 | any text, valid or not, decodes to at most 3 * (n / 4) bytes |
| Base64.RollbackMissed | parc/algol/parc_Base64.c:276-331 | a failing call of DecodeArray, on a composer with two bytes of room, that leaves three bytes behind |
| Deques.Deque.Append | parc/algol/parc_Deque.c:303-322 | the sequence gains an element at the end; links stay mutually consistent and acyclic |
| Deques.Deque.Prepend | parc/algol/parc_Deque.c:324-345 | the sequence gains an element at the front |
| Deques.Deque.RemoveFirst | parc/algol/parc_Deque.c:347-369 | takes the first element, or nothing from an empty deque |
| Deques.Deque.RemoveLast | parc/algol/parc_Deque.c:371-388 | takes the last of two or more elements, or nothing from an empty deque |
| Deques.Deque.GetAtIndex | parc/algol/parc_Deque.c:426-438 | the element at that index of the sequence |
| Deques.Deque.ForwardWalk | parc/algol/parc_Deque.c:289-301 | following `next` from the head reads the sequence |
| Deques.Deque.BackwardWalk | parc/algol/parc_Deque.c:98-109 | following `previous` from the tail reads it backwards |
| Deques.Perform | parc/algol/parc_Deque.c:303-388 | any run that never takes the last of one element leaves a well-linked deque with the sequence the operations mean |
| BufferChunkers.ForwardRebuilds | parc/algol/parc_BufferChunker.c:157-171 | ceil(n/c) pieces, all full but the last, which join to the data |
| BufferChunkers.ReverseRebuilds | parc/algol/parc_BufferChunker.c:173-188 | as many pieces, all full but the last produced, which join last to first to the data |
| BufferChunkers.ForwardFromRebuilds | parc/algol/parc_BufferChunker.c:111-128 | whatever the first size, forward pieces join to the data |
| BufferChunkers.ForwardFromFull | parc/algol/parc_BufferChunker.c:111-128 | an iteration from position 0 with a full first chunk produces exactly the regular forward pieces |
| BufferChunkers.ReverseRecoversIff | parc/algol/parc_BufferChunker.c:130-148 | a reverse iteration recovers the data if and only if all of it remained at the start |
| BufferChunkers.BufferChunker.Next | parc/algol/parc_BufferChunker.c:202-214 | copies the bytes at the state's place and advances in the state's direction |
| BufferChunkers.BufferChunker.DrainForward | parc/algol/parc_BufferChunker.c:111-214 | the pieces a forward iterator returns, and that they join to the data |
| BufferChunkers.BufferChunker.DrainReverse | parc/algol/parc_BufferChunker.c:130-214 | the pieces a reverse iterator returns, and that they recover the data exactly from position 0 |

## Left out

- Everything outside the ten files above: events, files, clocks, JSON, URIs, the red-black tree and the classes built on it.
- Reference counting, destroyers, locks, object validity checks and allocation failure.
- Keys that change after they were stored, and key equality that is not the identity of the modelled values.
- Truncation of a bucket number to `int`, and counters that reach the range of their type.
- `parcHashMap_Equals`, HashCode, Copy, ToJSON, ToString and the clustering number: they rest on list operations or floating point.
- Removal through the hash map's iterator, which changes the size without a resize check, and changes to a map during an iteration.
- BufferDictionaries.BufferDictionary.Remove: requires a present key, because for an absent one the source acquires a NULL object in code outside these files.
- BufferComposers.BufferComposer.PutBuffer: requires a source other than the composer's own buffer, whose bytes it would copy onto themselves.
- PARCBuffer marks, slices, parsing and printing; `parcBuffer_PutBuffer` onto bytes that overlap the source's, which is a `memcpy` onto itself.
- `parcBufferComposer_PutString` and Format, which put the bytes of a string, and `parcBase64_Encode`, Decode and DecodeString, which pass on to the array functions.
- `parcDeque_Copy`, Equals and the iterator: the same walk as GetAtIndex.
- `parcHashCode_HashHashCode`, which hashes a number in the machine's byte order.
- The memory of a deallocated buffer: after growth the rewind of a failed decoding writes to a buffer the composer has released; the model only says that it does not reach the new one.
