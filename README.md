# Cuckoo filter of 16-bit fingerprints, in Dafny

This project models the Go package in `cuckoo.go`: a fixed-size cuckoo filter
whose `totalBuckets` buckets each hold `bucketSize` 16-bit fingerprints, with
`0` marking an empty slot. An item is normalised by `check`, hashed to a
32-bit digest, and mapped to a fingerprint and two candidate buckets by
partial-key cuckoo hashing. `insert` places the fingerprint directly in the
first candidate bucket with room, and otherwise runs a bounded kick loop of at
most `maxKicks` swaps. `lookup` scans both candidate buckets, and `deleteItem`
clears one copy. A `uint32` counter is moved by the deferred `count++` and
`count--`.

The model has four layers, one file each:

- `codec.dfy` (module `Codec`): `check`, the big-endian byte codecs, `hashOf`,
  `fingerprintOf`, `indicesOf`, Go's `^` on integers, and `nextPowerOf2`. It
  proves that for a power-of-two table the alternate-bucket step
  `i ↦ (i ^ fph) % totalBuckets` is an involution.
- `bucket.dfy` (module `Bucket`): `addToBucket`, `containsIn` and `deleteFrom`
  as in-place scans over an `array`, each proved against a function on the
  bucket's contents (`Added`, `Removed`, membership).
- `model.dfy` (module `Model`): the filter as a value. The state is the
  counter plus a `seq<seq<Fingerprint>>` table, and `insert`, `replaceItem`,
  the kick loop, `lookup`, `deleteItem` and the public `Insert`,
  `InsertUnique`, `Lookup` and `Delete` are functions of that state. Their
  contracts keep the table's shape, bound the number of kicks, and conserve
  the multiset of all slots (`Slots`).
- `filter.dfy` (module `Cuckoo`): the `Filter` object, a class whose
  `buckets` are an array of slot arrays updated in place. Every method is
  proved to produce exactly the state and the result that the `Model`
  functions give. `properties.dfy` (module `Properties`) states what the
  operations promise across calls.

The hash function (`murmur3` with seed 59053 in the package) is a parameter:
any function from byte sequences to 32-bit values. Each value that
`rand.Intn` returns during one insertion comes from a `Draws` value whose
entries are constrained to the range `rand.Intn` guarantees.

In several places the code does something other than what its names and
comments suggest; the model follows the code:

- The fingerprint is the top 16 bits of the item's 32-bit digest.
  `fingerprintOf` reads the first two of the four big-endian digest bytes
  that `hashOf` returns (cuckoo.go:151-152, cuckoo.go:137). It is not the
  item's own first two bytes.
- During a kick, `replaceItem` computes the next bucket from the hash of the
  fingerprint it has just written (`fp`), not from the fingerprint it
  displaced (cuckoo.go:181-184). The model keeps this.
  `FirstKickTargetsOtherCandidate` states the effect for the first kick, the
  one made with the incoming item's own fingerprint from one of its candidate
  buckets, in a table whose number of buckets is a power of two: the
  displaced fingerprint is sent to the incoming item's other candidate
  bucket, whatever that fingerprint is. `EvictedFingerprintMisplaced` gives a concrete hash and
  table in which an `Insert` that succeeds leaves two earlier items unfindable
  even though no fingerprint was dropped; `EvictedFingerprintMisplacedHolds`
  states it on those values with nothing assumed.
- A fingerprint equal to `0` aliases the empty marker, as written. When a
  candidate bucket has an empty slot, inserting it changes no slot but bumps
  the counter, looking it up succeeds, and deleting it "succeeds" on an empty
  slot, so the counter can wrap from 0 to 0xFFFF_FFFF
  (`ZeroFingerprintAliases`, `EmptyFilterLookup`). When both candidate
  buckets are full, the kick loop writes that `0` over a real fingerprint,
  which is then carried on and may be dropped.
- When the kick loop gives up, the last displaced fingerprint is dropped. For
  an item whose fingerprint is not `0`, the number of non-empty slots then
  stays what it was (`InsertOccupancy`); with a `0` fingerprint it can fall.
  For every item, the counter moves by one exactly when `Insert` or `Delete`
  reports success (`CounterFollowsResult`).
- `InsertUnique` is not idempotent once the kick loop has run. A successful
  kicked `insert` can move the inserted item's own fingerprint out of both
  its candidate buckets, because each kick sends the displaced fingerprint to
  a bucket derived from the fingerprint written (cuckoo.go:181-184). `Lookup`
  then misses the item, and a second `InsertUnique` inserts it again and
  bumps the counter again (`InsertUniqueRepeats`, and
  `InsertUniqueRepeatsHolds` on the concrete values). `InsertUniqueOnce`
  therefore assumes that the first call finds the item or places it without
  kicking.

## Model

| member | source | states |
|---|---|---|
| `Codec.Check` | cuckoo.go:221-231 | fails exactly on the empty item; a one-byte item `[b]` becomes `[0, b]`; longer items pass unchanged |
| `Codec.CheckIdempotent` | cuckoo.go:221-231 | checking an already checked item gives it back unchanged, so `InsertUnique`'s second `check` inside `Lookup` is harmless |
| `Codec.PutUint16` | cuckoo.go:182 | the two big-endian bytes written into `tempBytes` decode back to the fingerprint |
| `Codec.Uint16RoundTrip` | cuckoo.go:137 | re-encoding the fingerprint read from two bytes gives those two bytes back |
| `Codec.HashOf` | cuckoo.go:128-133 | returns the digest of the item and four bytes whose big-endian value is that digest |
| `Codec.FingerprintOf` | cuckoo.go:136-140 | the fingerprint is the big-endian value of the first two bytes; `fph` is the digest of the fingerprint's two-byte encoding |
| `Codec.FingerprintIsHighHalf` | cuckoo.go:128-140 | the fingerprint of an item is its digest divided by 2^16, its top 16 bits |
| `Codec.Uint16` | cuckoo.go:137 | the big-endian reading of two bytes: the high byte of the result is the first byte and the low byte the second |
| `Codec.Xor` | cuckoo.go:145 | Go's `^` on non-negative integers: the result is at most the sum of the operands and has the sum's parity (its lowest bit is the XOR of the lowest bits); `XorCancel`, `XorBound` and `XorMod` give the rest |
| `Codec.XorCancel` | cuckoo.go:145 | applying `^ b` twice gives back the original value |
| `Codec.XorBound` | cuckoo.go:145 | `^` of two values below 2^k stays below 2^k |
| `Codec.XorMod` | cuckoo.go:145 | reducing modulo 2^k commutes with `^` |
| `Codec.AltIndex` | cuckoo.go:145 | `(i ^ h) % totalBuckets` is a valid bucket index |
| `Codec.IndicesOf` | cuckoo.go:143-147 | `i1` is the digest modulo `totalBuckets`, both indices are below `totalBuckets`, and `i2` is the alternate of `i1` for `fph` |
| `Codec.AltIndexInvolution` | cuckoo.go:143-147 | with a power-of-two table, taking the alternate bucket twice with the same `fph` returns to the start |
| `Codec.IndicesSymmetric` | cuckoo.go:143-147 | with a power-of-two table, `i1` is the alternate of `i2`, so either candidate gives the other |
| `Codec.NextPowerOf2` | cuckoo.go:76-86 | returns a power of two in [4, 2^31]; for v ≤ 2^31 it is the least such value ≥ v, and exactly 2^31 otherwise |
| `Codec.QuarterOfPowerOf2` | cuckoo.go:70-73 | a power of two of at least 4 divided by `defaultBucketSize` is a power of two of at least 1, with nothing lost |
| `Bucket.Added` | cuckoo.go:114-125 | `fp` is written into the lowest empty slot, the length is kept, and a bucket without an empty slot is unchanged |
| `Bucket.Removed` | cuckoo.go:89-100 | the lowest slot holding `fp` is emptied, the length is kept, and a bucket without `fp` is unchanged |
| `Bucket.AddedSlots` | cuckoo.go:114-125 | adding trades one empty slot for `fp` in the bucket's multiset of slots |
| `Bucket.RemovedSlots` | cuckoo.go:89-100 | removing trades one `fp` for an empty slot in the bucket's multiset of slots |
| `Bucket.SwapSlot` | cuckoo.go:181 | the swap trades the old slot value for the new one in the bucket's multiset |
| `Bucket.RemoveAfterAdd` | cuckoo.go:89-125 | deleting a non-zero fingerprint just added to a bucket that lacked it restores the bucket |
| `Bucket.AddToBucket` | cuckoo.go:114-125 | returns true exactly when the bucket had an empty slot, and leaves the bucket as `Added` says |
| `Bucket.ContainsIn` | cuckoo.go:103-111 | returns true exactly when some slot equals `fp`, and changes nothing |
| `Bucket.DeleteFrom` | cuckoo.go:89-100 | returns true exactly when some slot equals `fp`, and leaves the bucket as `Removed` says |
| `Model.EmptyTable` | cuckoo.go:44-52 | `totalBuckets` buckets of `bucketSize` empty slots |
| `Model.SlotsUpdate` | cuckoo.go:181 | replacing one bucket trades its slots for the new bucket's in the table's multiset of slots |
| `Model.TradeSlots` | cuckoo.go:181 | a bucket change that trades one value for another does the same to the whole table |
| `Model.CandidatesOf` | cuckoo.go:150-153 | fingerprint = digest / 2^16, `i1` = digest mod `totalBuckets`, `i2` = alternate of `i1` for the fingerprint's digest, both in range |
| `Model.CandidatesSymmetric` | cuckoo.go:143-153 | with a power-of-two table, each candidate bucket of an item is the alternate of the other |
| `Model.Inc` | cuckoo.go:157 | the `uint32` `count++`: one more, except that 0xFFFF_FFFF wraps to 0 |
| `Model.Dec` | cuckoo.go:209 | the `uint32` `count--`: one less, except that 0 wraps to 0xFFFF_FFFF |
| `Model.ReplaceItem` | cuckoo.go:178-186 | bucket `i` becomes itself with only the chosen slot set to `fp`, every other bucket is unchanged; returns the displaced value and, as the next bucket, exactly `(i ^ hash(PutUint16(fp))) % totalBuckets`, the alternate of `i` for the digest of the fingerprint just written; conserves the table's slots |
| `Model.KickLoop` | cuckoo.go:165-174 | at most `maxKicks` kicks in all; failure only after exactly `maxKicks`; success leaves nothing in hand; every slot value is conserved except the one in hand |
| `Model.InsertTable` | cuckoo.go:150-175 | when bucket `i1` has room, `fp` goes into its lowest empty slot; otherwise, when `i2` has room, into `i2`'s; otherwise the result is the kick loop from the bucket `first` picks; success without a kick happens exactly when a candidate bucket has room; slot values are conserved up to the one dropped on failure |
| `Model.LookupTable` | cuckoo.go:194 | true exactly when the two candidate buckets together hold at least one copy of the fingerprint; `Properties.OccurrencesLookup` gives the same with a bucket shared by both candidates counted once |
| `Model.LookupItem` | cuckoo.go:189-199 | a hit means the item's fingerprint is somewhere in the table; `Properties.DeleteOccupancy` shows `deleteItem` succeeds exactly on a hit and `Properties.LookupAfterDirectInsert` that a direct insertion makes it one |
| `Model.Lookup` | cuckoo.go:265-275 | `[]` is never found, `[b]` is looked up as `[0, b]`, longer items as they are; `Properties.LookupAfterDirectInsert`, `Properties.EmptyFilterLookup` and `Properties.OccurrencesLookup` characterise the result |
| `Model.DeleteTable` | cuckoo.go:202-218 | succeeds exactly when `lookup` would; when `i1` holds the fingerprint its lowest matching slot there is cleared, otherwise the lowest matching slot of `i2`; touches only the two candidate buckets; a failure changes nothing; success trades one copy of the fingerprint for an empty slot |
| `Model.InsertItem` | cuckoo.go:150-175 | `insert` with its deferred `count++` keeps the table's shape |
| `Model.DeleteItem` | cuckoo.go:202-218 | `deleteItem` with its deferred `count--` keeps the table's shape |
| `Model.Insert` | cuckoo.go:235-245 | `Filter.Insert` keeps the table's shape |
| `Model.Delete` | cuckoo.go:278-288 | `Filter.Delete` keeps the table's shape |
| `Model.InsertUnique` | cuckoo.go:248-262 | `Filter.InsertUnique` keeps the table's shape |
| `Properties.EmptyItemRejected` | cuckoo.go:235-282 | every public operation returns false on the empty item and leaves counter and buckets untouched |
| `Properties.OneByteItemPadded` | cuckoo.go:225-227 | every public operation treats `[b]` exactly as `[0, b]` |
| `Properties.LookupAfterDirectInsert` | cuckoo.go:150-199 | when a candidate bucket has room, `Insert` succeeds, bumps the counter by one, and `Lookup` then finds the item |
| `Properties.OccurrencesLookup` | cuckoo.go:189-199 | `lookup` is true exactly when the candidate buckets hold at least one copy of the fingerprint |
| `Properties.AddedCount` | cuckoo.go:114-125 | adding a non-zero fingerprint to a bucket with room adds exactly one copy |
| `Properties.RemovedCount` | cuckoo.go:89-100 | removing a non-zero fingerprint that is present takes away exactly one copy |
| `Properties.DirectInsertOccurrences` | cuckoo.go:161-163 | a direct placement of a non-zero fingerprint adds exactly one copy to the candidate buckets |
| `Properties.DeleteOccurrences` | cuckoo.go:202-218 | a successful delete of a non-zero fingerprint removes exactly one copy; a failed one means there was none |
| `Properties.IncDec` | cuckoo.go:155-159 | the wrapping `count++` and `count--` undo each other |
| `Properties.IncNoWrap` | cuckoo.go:155-159 | below 2^32 - 1, `count++` adds exactly one |
| `Properties.DeleteTwiceAfterTwoInserts` | cuckoo.go:150-218 | after two direct inserts of an absent item, the first delete leaves it findable, the second makes it unfindable, and the counter is back where it started |
| `Properties.InsertThenDeleteRestores` | cuckoo.go:150-218 | deleting an absent item right after inserting it directly gives back the exact previous filter state |
| `Properties.KickLoopDropsOccupied` | cuckoo.go:165-174 | a kick loop starting at a full bucket with a non-zero fingerprint drops a non-zero fingerprint when it gives up |
| `Properties.CounterFollowsResult` | cuckoo.go:155-159 | for every item, zero fingerprint and kick loop included, `Insert` moves the counter up by one (wrapping) exactly when it reports success and `Delete` moves it down by one exactly when it reports success |
| `Properties.InsertOccupancy` | cuckoo.go:150-175 | for a non-zero fingerprint: success fills exactly one more slot and bumps the counter; failure leaves the counter and the number of filled slots unchanged |
| `Properties.DeleteOccupancy` | cuckoo.go:202-218 | for a non-zero fingerprint: `Delete` succeeds exactly when `Lookup` does, then empties exactly one slot and decrements the counter; failure changes nothing |
| `Properties.InsertUniqueHit` | cuckoo.go:248-256 | when `Lookup` already finds the item, `InsertUnique` returns true and changes nothing |
| `Properties.InsertUniqueOnce` | cuckoo.go:248-262 | when the first `InsertUnique` of an item finds it or places it without kicking, a second one finds it and changes nothing, and the counter moved by at most one |
| `Properties.ZeroFingerprintAliases` | cuckoo.go:89-125 | for fingerprint 0: `Lookup` is true exactly when a candidate bucket has room; `Insert` then changes no slot but bumps the counter; `Delete` changes no slot but decrements the counter, wrapping from 0 to 0xFFFF_FFFF |
| `Properties.EmptyFilterLookup` | cuckoo.go:44-52 | in a freshly made filter, `Lookup` is true exactly for the items whose fingerprint is 0 |
| `Properties.FillEmptyWithEmpty` | cuckoo.go:114-125 | writing 0 into, or clearing, the first empty slot leaves a bucket unchanged |
| `Properties.FirstKickTargetsOtherCandidate` | cuckoo.go:178-186 | with a power-of-two table, a kick made with the item's own fingerprint sends the displaced fingerprint to the item's other candidate bucket, whatever that fingerprint is |
| `Properties.CandidatesOfDigest` | cuckoo.go:128-147 | an item's fingerprint and candidate buckets follow from its digest alone: top 16 bits, digest modulo `totalBuckets`, and the alternate of that for the fingerprint's digest |
| `Properties.DemoCandidatesA` | cuckoo.go:143-147 | under `DemoHash` with four buckets, A has fingerprint 1 and candidate buckets 0 and 1 |
| `Properties.DemoCandidatesB` | cuckoo.go:143-147 | B has fingerprint 2 and candidate buckets 0 and 2 |
| `Properties.DemoCandidatesC` | cuckoo.go:143-147 | C has fingerprint 3 and candidate buckets 1 and 2 |
| `Properties.DemoKick1` | cuckoo.go:178-186 | the first kick of the counterexample: fingerprint 2 is displaced from bucket 0 and sent to bucket 1 |
| `Properties.DemoKick2` | cuckoo.go:178-186 | the second kick: fingerprint 3 is displaced from bucket 1 and sent to bucket 3 |
| `Properties.DemoKickLoop` | cuckoo.go:165-174 | the kick loop of the counterexample succeeds after two kicks |
| `Properties.DemoInsert` | cuckoo.go:150-175 | the counterexample's `Insert` succeeds and yields the table `[[1], [2], [0], [3]]` |
| `Properties.EvictedFingerprintMisplaced` | cuckoo.go:178-186 | two items found before a successful `Insert` are not found after it |
| `Properties.DemoFound` | cuckoo.go:189-199 | B and C are found in the table before A is inserted |
| `Properties.DemoLost` | cuckoo.go:189-199 | B and C are not found in the table after A is inserted |
| `Properties.LoopCandidates` | cuckoo.go:143-152 | under `LoopHash` with four buckets, A has fingerprint 1 and candidate buckets 0 and 1 |
| `Properties.LoopKick1` | cuckoo.go:178-186 | the first kick writes 1 into bucket 0, displaces 2 and sends it to bucket 1 |
| `Properties.LoopKick2` | cuckoo.go:178-186 | the second kick writes 2 into bucket 1, displaces 3 and sends it to bucket 0 |
| `Properties.LoopKick3` | cuckoo.go:178-186 | the third kick writes 3 into bucket 0, displaces A's fingerprint 1 and sends it to bucket 3 |
| `Properties.LoopKick4` | cuckoo.go:178-186 | on re-insertion, the first kick writes 1 into bucket 0, displaces 3 and sends it to bucket 1 |
| `Properties.LoopKick5` | cuckoo.go:178-186 | on re-insertion, the second kick writes 3 into bucket 1, displaces 2 and sends it to bucket 2 |
| `Properties.LoopFirstInsert` | cuckoo.go:165-172 | the first kick loop succeeds after three kicks with table `[[3],[2],[0],[1]]` |
| `Properties.LoopSecondInsert` | cuckoo.go:165-172 | the second kick loop succeeds after two kicks with table `[[1],[3],[2],[1]]` |
| `Properties.LoopInsertFirst` | cuckoo.go:150-175 | the first `insert` of A returns true and moves the counter from 2 to 3 |
| `Properties.LoopInsertSecond` | cuckoo.go:150-175 | the second `insert` of A returns true and moves the counter from 3 to 4 |
| `Properties.InsertUniqueRepeats` | cuckoo.go:248-262 | `InsertUnique(A)` succeeds, `Lookup(A)` is false afterwards, and a second `InsertUnique(A)` inserts it again, counter 2 to 3 to 4 |
| `Properties.EvictedFingerprintMisplacedHolds` | cuckoo.go:178-186 | on the concrete hash and tables, with no hypothesis: both tables are well formed, B and C are found before the `Insert` of A, it succeeds, and neither is found after it |
| `Properties.InsertUniqueRepeatsHolds` | cuckoo.go:248-262 | on the concrete hash and tables, with no hypothesis: two `InsertUnique(A)` calls both succeed, with `Lookup(A)` false before and after the first, counter 2 to 3 to 4 |
| `Properties.KickedInsert` | cuckoo.go:150-175 | when both candidate buckets are full, `Insert` returns what the kick loop from the drawn bucket returns, with that loop's table, and bumps the counter exactly on success |
| `Cuckoo.InitBuckets` | cuckoo.go:44-52 | `totalBuckets` fresh, pairwise distinct arrays of `bucketSize` empty slots |
| `Cuckoo.Filter.constructor` | cuckoo.go:59-68 | a valid filter with the given configuration, a zero counter and an empty table |
| `Cuckoo.Filter.Table` | cuckoo.go:34 | the buckets, read as a table, have `totalBuckets` rows of `bucketSize` slots |
| `Cuckoo.Filter.AddAt` | cuckoo.go:161 | `addToBucket` on one bucket of the filter changes that row of the table only, as `Added` says |
| `Cuckoo.Filter.DeleteAt` | cuckoo.go:213 | `deleteFrom` on one bucket of the filter changes that row of the table only, as `Removed` says |
| `Cuckoo.Filter.RowChanged` | cuckoo.go:34 | when one bucket array changed, the table changed in that row only |
| `Cuckoo.Filter.ReplaceItem` | cuckoo.go:178-186 | the new table, next bucket and displaced fingerprint are those of `Model.ReplaceItem` |
| `Cuckoo.Filter.KickFrom` | cuckoo.go:165-174 | the loop leaves the table and returns the flag that `Model.KickLoop` gives |
| `Cuckoo.Filter.Place` | cuckoo.go:161-174 | the table and flag are those of `Model.InsertTable` |
| `Cuckoo.Filter.InsertItem` | cuckoo.go:150-175 | new counter, table and result are those of `Model.InsertItem` |
| `Cuckoo.Filter.LookupItem` | cuckoo.go:189-199 | changes nothing and returns `Model.LookupItem` of the current state |
| `Cuckoo.Filter.DeleteItem` | cuckoo.go:202-218 | new counter, table and result are those of `Model.DeleteItem` |
| `Cuckoo.Filter.Insert` | cuckoo.go:235-245 | new counter, table and result are those of `Model.Insert` |
| `Cuckoo.Filter.InsertUnique` | cuckoo.go:248-262 | new counter, table and result are those of `Model.InsertUnique` |
| `Cuckoo.Filter.Lookup` | cuckoo.go:265-275 | changes nothing and returns `Model.Lookup` of the current state |
| `Cuckoo.Filter.Delete` | cuckoo.go:278-288 | new counter, table and result are those of `Model.Delete` |
| `Cuckoo.Filter.Count` | cuckoo.go:291-296 | returns the counter and changes nothing |
| `Cuckoo.StdFilter` | cuckoo.go:55-57 | an empty filter of 4 << 20 buckets of 4 slots, with 500 kicks |
| `Cuckoo.NewFilter` | cuckoo.go:70-73 | an empty filter of 4-slot buckets whose number is the least power of two of buckets holding `count` slots (one bucket at least) when `count` ≤ 2^31, and 2^29 buckets when `count` is larger |

## Left out

- The `sync.RWMutex` and its locking are not modelled: the model is the
  sequential behaviour of each call. The race between `InsertUnique`'s
  `Lookup` and its `insert` needs concurrent callers and is not modelled
  either.
- The `murmur3` hash, its seed 59053, and the `Reset`/`Write`/`Sum32` protocol
  are not modelled. The hash is a parameter: any deterministic function from
  bytes to 32-bit values. `Cuckoo.StdFilter` and `Cuckoo.NewFilter` take it as
  an argument.
- `math/rand` is not modelled as randomness. The values it returns are given
  by a `Draws` value: `first < 2` for the starting victim bucket, and one slot
  number below `bucketSize` per kick.
- `LoadFactor` is not modelled, because it is `float64` division.
- The shared global buffer `tempBytes` is modelled as the two-byte big-endian
  encoding of the fingerprint. Sharing it only matters under concurrency.
- `Cuckoo.Filter.constructor` requires `totalBuckets` and `bucketSize` to be
  non-zero. With zero buckets, `insert` would divide by zero. With zero-slot
  buckets, `rand.Intn(0)` would panic. `newFilter` is unexported and is only
  called with non-zero sizes.
- `Cuckoo.Filter.constructor` takes `maxKicks` as a parameter, while
  `newFilter` always uses 500. `StdFilter` and `NewFilter` pass
  `DefaultMaxKicks` (500).
- `Model.InsertItem`, `Model.DeleteItem`, `Model.Insert`, `Model.Delete` and
  `Model.InsertUnique`: their own contracts state only that the table keeps
  its shape. What they compute is stated by the lemmas of module
  `Properties`, and the `Filter` methods are proved equal to them.
