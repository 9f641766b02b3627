/** What the filter operations promise, stated over the value model: lookups
    after insertions, deletions that undo insertions, the counter, the kick
    loop's bookkeeping, and the places where the code behaves differently
    from a textbook cuckoo filter. */
module Properties {
  import opened Codec
  import opened Bucket
  import opened Model

  // ---------------------------------------------------------------------
  // Items that `check` rejects

  /** An empty item is refused by every public operation, which leave the
      filter untouched. */
  lemma EmptyItemRejected(c: Config, s: State, d: Draws)
    requires WellFormed(c, s.table) && DrawsFit(c, d)
    ensures Insert(c, s, [], d) == (s, false)
    ensures InsertUnique(c, s, [], d) == (s, false)
    ensures !Lookup(c, s, [])
    ensures Delete(c, s, []) == (s, false)
  {
  }

  /** A one-byte item is the same item as that byte with a zero byte in
      front, for every public operation. */
  lemma OneByteItemPadded(c: Config, s: State, b: Byte, d: Draws)
    requires WellFormed(c, s.table) && DrawsFit(c, d)
    ensures Insert(c, s, [b], d) == Insert(c, s, [0, b], d)
    ensures InsertUnique(c, s, [b], d) == InsertUnique(c, s, [0, b], d)
    ensures Lookup(c, s, [b]) == Lookup(c, s, [0, b])
    ensures Delete(c, s, [b]) == Delete(c, s, [0, b])
  {
    assert Check([b]) == Check([0, b]);
  }

  // ---------------------------------------------------------------------
  // Lookup after insert

  /** When a candidate bucket has an empty slot, `Insert` places the
      fingerprint without kicking and `Lookup` then finds the item. */
  lemma LookupAfterDirectInsert(c: Config, s: State, x: seq<Byte>, d: Draws)
    requires WellFormed(c, s.table) && DrawsFit(c, d) && Check(x).Some?
    requires HasRoom(s.table, CandidatesOf(c, Check(x).value))
    ensures Insert(c, s, x, d).1
    ensures Insert(c, s, x, d).0.count == Inc(s.count)
    ensures Lookup(c, Insert(c, s, x, d).0, x)
  {
    var y := Check(x).value;
    var cand := CandidatesOf(c, y);
    var t := s.table;
    if Empty in t[cand.i1] {
      assert InsertTable(c, t, cand, d).table[cand.i1] == Added(t[cand.i1], cand.fp);
    } else {
      assert InsertTable(c, t, cand, d).table[cand.i2] == Added(t[cand.i2], cand.fp);
    }
  }

  // ---------------------------------------------------------------------
  // Occurrences of an item's fingerprint in its candidate buckets

  /** How many copies of the item's fingerprint its candidate buckets hold;
      a bucket that is both candidates is counted once. */
  function Occurrences(t: Table, cand: Candidates): nat
    requires cand.i1 < |t| && cand.i2 < |t|
  {
    multiset(t[cand.i1])[cand.fp] + if cand.i1 == cand.i2 then 0 else multiset(t[cand.i2])[cand.fp]
  }

  /** `lookup` reports whether there is at least one copy. */
  lemma OccurrencesLookup(t: Table, cand: Candidates)
    requires cand.i1 < |t| && cand.i2 < |t|
    ensures LookupTable(t, cand) <==> Occurrences(t, cand) > 0
  {
  }

  /** Adding a non-empty fingerprint to a bucket with room adds one copy. */
  lemma AddedCount(s: seq<Fingerprint>, fp: Fingerprint)
    requires Empty in s && fp != Empty
    ensures multiset(Added(s, fp))[fp] == multiset(s)[fp] + 1
  {
    AddedSlots(s, fp);
    assert (multiset(Added(s, fp)) + multiset{Empty})[fp] == (multiset(s) + multiset{fp})[fp];
  }

  /** Removing a non-empty fingerprint that is there takes one copy away. */
  lemma RemovedCount(s: seq<Fingerprint>, fp: Fingerprint)
    requires fp in s && fp != Empty
    ensures multiset(Removed(s, fp))[fp] == multiset(s)[fp] - 1
  {
    RemovedSlots(s, fp);
    assert (multiset(Removed(s, fp)) + multiset{fp})[fp] == (multiset(s) + multiset{Empty})[fp];
  }

  /** A direct insertion of a non-empty fingerprint adds exactly one copy. */
  lemma DirectInsertOccurrences(c: Config, t: Table, cand: Candidates, d: Draws)
    requires WellFormed(c, t) && cand.i1 < c.totalBuckets && cand.i2 < c.totalBuckets
    requires DrawsFit(c, d) && cand.fp != Empty && HasRoom(t, cand)
    ensures InsertTable(c, t, cand, d).ok
    ensures Occurrences(InsertTable(c, t, cand, d).table, cand) == Occurrences(t, cand) + 1
  {
    var u := InsertTable(c, t, cand, d).table;
    if Empty in t[cand.i1] {
      assert u == t[cand.i1 := Added(t[cand.i1], cand.fp)];
      AddedCount(t[cand.i1], cand.fp);
    } else {
      assert u == t[cand.i2 := Added(t[cand.i2], cand.fp)];
      AddedCount(t[cand.i2], cand.fp);
    }
  }

  /** A deletion of a non-empty fingerprint removes exactly one copy when it
      succeeds. */
  lemma DeleteOccurrences(t: Table, cand: Candidates)
    requires cand.i1 < |t| && cand.i2 < |t| && cand.fp != Empty
    ensures DeleteTable(t, cand).1 ==> Occurrences(DeleteTable(t, cand).0, cand) == Occurrences(t, cand) - 1
    ensures !DeleteTable(t, cand).1 ==> Occurrences(t, cand) == 0
  {
    var u := DeleteTable(t, cand).0;
    if cand.fp in t[cand.i1] {
      assert u == t[cand.i1 := Removed(t[cand.i1], cand.fp)];
      RemovedCount(t[cand.i1], cand.fp);
    } else if cand.fp in t[cand.i2] {
      assert u == t[cand.i2 := Removed(t[cand.i2], cand.fp)];
      RemovedCount(t[cand.i2], cand.fp);
    }
  }

  lemma IncNoWrap(n: U32)
    requires n < 0xFFFF_FFFF
    ensures Inc(n) == n + 1
  {
  }

  lemma IncDec(n: U32)
    ensures Dec(Inc(n)) == n && Inc(Dec(n)) == n
  {
  }

  /** For every item, whatever its fingerprint and whether or not the kick
      loop runs, `Insert` moves the counter up by one exactly when it
      reports success and `Delete` moves it down by one exactly when it
      reports success; otherwise the counter stays. */
  lemma CounterFollowsResult(c: Config, s: State, x: seq<Byte>, d: Draws)
    requires WellFormed(c, s.table) && DrawsFit(c, d)
    ensures Insert(c, s, x, d).0.count == if Insert(c, s, x, d).1 then Inc(s.count) else s.count
    ensures Delete(c, s, x).0.count == if Delete(c, s, x).1 then Dec(s.count) else s.count
  {
  }

  /** An item inserted twice (both times into a bucket with room) can be
      deleted twice: after the first delete it is still found, after the
      second it is gone and the counter is back where it started. */
  lemma DeleteTwiceAfterTwoInserts(c: Config, s: State, x: seq<Byte>, d1: Draws, d2: Draws)
    requires WellFormed(c, s.table) && DrawsFit(c, d1) && DrawsFit(c, d2) && Check(x).Some?
    requires CandidatesOf(c, Check(x).value).fp != Empty
    requires !Lookup(c, s, x)
    requires HasRoom(s.table, CandidatesOf(c, Check(x).value))
    requires HasRoom(Insert(c, s, x, d1).0.table, CandidatesOf(c, Check(x).value))
    ensures var s1 := Insert(c, s, x, d1).0;
            var s2 := Insert(c, s1, x, d2).0;
            var s3 := Delete(c, s2, x).0;
            var s4 := Delete(c, s3, x).0;
            && Insert(c, s, x, d1).1 && Insert(c, s1, x, d2).1
            && Delete(c, s2, x).1 && Lookup(c, s3, x)
            && Delete(c, s3, x).1 && !Lookup(c, s4, x)
            && s4.count == s.count
  {
    var cand := CandidatesOf(c, Check(x).value);
    var s1 := Insert(c, s, x, d1).0;
    var s2 := Insert(c, s1, x, d2).0;
    var s3 := Delete(c, s2, x).0;
    var s4 := Delete(c, s3, x).0;
    OccurrencesLookup(s.table, cand);
    DirectInsertOccurrences(c, s.table, cand, d1);
    DirectInsertOccurrences(c, s1.table, cand, d2);
    OccurrencesLookup(s2.table, cand);
    DeleteOccurrences(s2.table, cand);
    OccurrencesLookup(s3.table, cand);
    DeleteOccurrences(s3.table, cand);
    OccurrencesLookup(s4.table, cand);
    IncDec(Inc(s.count));
    IncDec(s.count);
  }

  /** Deleting an item right after inserting it, into a bucket with room and
      with no copy of its fingerprint before, gives back the exact state. */
  lemma InsertThenDeleteRestores(c: Config, s: State, x: seq<Byte>, d: Draws)
    requires WellFormed(c, s.table) && DrawsFit(c, d) && Check(x).Some?
    requires CandidatesOf(c, Check(x).value).fp != Empty
    requires !Lookup(c, s, x)
    requires HasRoom(s.table, CandidatesOf(c, Check(x).value))
    ensures Delete(c, Insert(c, s, x, d).0, x) == (s, true)
  {
    var cand := CandidatesOf(c, Check(x).value);
    var t := s.table;
    var u := Insert(c, s, x, d).0.table;
    if Empty in t[cand.i1] {
      assert u == t[cand.i1 := Added(t[cand.i1], cand.fp)];
      RemoveAfterAdd(t[cand.i1], cand.fp);
      AddedSlots(t[cand.i1], cand.fp);
      assert cand.fp in u[cand.i1];
      assert u[cand.i1 := Removed(u[cand.i1], cand.fp)] == t;
    } else {
      assert cand.i1 != cand.i2;
      assert u == t[cand.i2 := Added(t[cand.i2], cand.fp)];
      RemoveAfterAdd(t[cand.i2], cand.fp);
      assert cand.fp !in u[cand.i1];
      assert cand.fp in u[cand.i2];
      assert u[cand.i2 := Removed(u[cand.i2], cand.fp)] == t;
    }
    IncDec(s.count);
  }

  // ---------------------------------------------------------------------
  // Occupancy and the kick loop

  /** A kick loop that starts at a full bucket with a real fingerprint in
      hand only ever carries real fingerprints: if it gives up, it drops one. */
  lemma {:induction false} KickLoopDropsOccupied(c: Config, t: Table, ri: U32, fp: Fingerprint, slots: seq<nat>, k: nat)
    requires WellFormed(c, t) && ri < c.totalBuckets
    requires SlotsFit(c, slots) && k <= c.maxKicks
    requires Empty !in t[ri] && fp != Empty
    ensures !KickLoop(c, t, ri, fp, slots, k).ok ==> KickLoop(c, t, ri, fp, slots, k).carried != Empty
    decreases c.maxKicks - k
  {
    if k < c.maxKicks {
      var (t1, j, rfp) := ReplaceItem(c, t, ri, fp, slots[k]);
      assert rfp in t[ri];
      if Empty !in t1[j] {
        KickLoopDropsOccupied(c, t1, j, rfp, slots, k + 1);
      }
    }
  }

  /** A successful `Insert` of an item whose fingerprint is not zero fills
      exactly one more slot and bumps the counter; a failed one leaves the
      counter alone and the number of filled slots the same, because the
      fingerprint dropped at the end of the kick loop balances the new one. */
  lemma InsertOccupancy(c: Config, s: State, x: seq<Byte>, d: Draws)
    requires WellFormed(c, s.table) && DrawsFit(c, d) && Check(x).Some?
    requires CandidatesOf(c, Check(x).value).fp != Empty
    ensures var (s1, ok) := Insert(c, s, x, d);
            && (ok ==> s1.count == Inc(s.count) && Occupied(s1.table) == Occupied(s.table) + 1)
            && (!ok ==> s1.count == s.count && Occupied(s1.table) == Occupied(s.table))
  {
    var cand := CandidatesOf(c, Check(x).value);
    var t := s.table;
    var o := InsertTable(c, t, cand, d);
    if !HasRoom(t, cand) {
      KickLoopDropsOccupied(c, t, if d.first == 0 then cand.i1 else cand.i2, cand.fp, d.slots, 0);
    }
    assert (Slots(o.table) + multiset{o.carried})[Empty] == (Slots(t) + multiset{cand.fp})[Empty];
    assert |Slots(o.table) + multiset{o.carried}| == |Slots(t) + multiset{cand.fp}|;
  }

  /** A successful `Delete` of an item whose fingerprint is not zero empties
      exactly one slot and lowers the counter; a failed one changes nothing. */
  lemma DeleteOccupancy(c: Config, s: State, x: seq<Byte>)
    requires WellFormed(c, s.table) && Check(x).Some?
    requires CandidatesOf(c, Check(x).value).fp != Empty
    ensures var (s1, ok) := Delete(c, s, x);
            && (ok <==> Lookup(c, s, x))
            && (ok ==> s1.count == Dec(s.count) && Occupied(s1.table) == Occupied(s.table) - 1)
            && (!ok ==> s1 == s)
  {
    var cand := CandidatesOf(c, Check(x).value);
    var t := s.table;
    var (u, ok) := DeleteTable(t, cand);
    if ok {
      assert (Slots(u) + multiset{cand.fp})[Empty] == (Slots(t) + multiset{Empty})[Empty];
      assert |Slots(u) + multiset{cand.fp}| == |Slots(t) + multiset{Empty}|;
    }
  }

  // ---------------------------------------------------------------------
  // InsertUnique

  /** `InsertUnique` of an item that `Lookup` finds reports success and
      changes nothing, the counter included. */
  lemma InsertUniqueHit(c: Config, s: State, x: seq<Byte>, d: Draws)
    requires WellFormed(c, s.table) && DrawsFit(c, d)
    requires Lookup(c, s, x)
    ensures InsertUnique(c, s, x, d) == (s, true)
  {
    CheckIdempotent(x);
  }

  /** Repeating `InsertUnique` of an item adds it at most once: once the
      first call has placed it directly, the second finds it and changes
      nothing, and the counter has moved by at most one. */
  lemma InsertUniqueOnce(c: Config, s: State, x: seq<Byte>, d1: Draws, d2: Draws)
    requires WellFormed(c, s.table) && DrawsFit(c, d1) && DrawsFit(c, d2) && Check(x).Some?
    requires Lookup(c, s, x) || HasRoom(s.table, CandidatesOf(c, Check(x).value))
    ensures var (s1, ok1) := InsertUnique(c, s, x, d1);
            && ok1
            && (s1.count == s.count || s1.count == Inc(s.count))
            && InsertUnique(c, s1, x, d2) == (s1, true)
  {
    var y := Check(x).value;
    CheckIdempotent(x);
    if Lookup(c, s, y) {
      InsertUniqueHit(c, s, x, d1);
      InsertUniqueHit(c, s, x, d2);
    } else {
      var s1 := InsertItem(c, s, y, d1).0;
      assert InsertUnique(c, s, x, d1).0 == s1;
      CheckIdempotent(y);
      LookupAfterDirectInsert(c, s, y, d1);
      assert Insert(c, s, y, d1).0 == s1;
      InsertUniqueHit(c, s1, x, d2);
    }
  }

  // ---------------------------------------------------------------------
  // The zero fingerprint

  /** An item whose fingerprint is 0 is indistinguishable from an empty
      slot: `Lookup` finds it exactly when a candidate bucket has room,
      `Insert` then "places" it without changing any bucket, and `Delete`
      reports success and lowers the counter (from 0 it wraps to
      0xFFFF_FFFF) while the buckets stay as they are. */
  lemma ZeroFingerprintAliases(c: Config, s: State, x: seq<Byte>, d: Draws)
    requires WellFormed(c, s.table) && DrawsFit(c, d) && Check(x).Some?
    requires CandidatesOf(c, Check(x).value).fp == Empty
    ensures Lookup(c, s, x) <==> HasRoom(s.table, CandidatesOf(c, Check(x).value))
    ensures Lookup(c, s, x) ==> Insert(c, s, x, d) == (State(Inc(s.count), s.table), true)
    ensures Lookup(c, s, x) ==> Delete(c, s, x) == (State(Dec(s.count), s.table), true)
    ensures Lookup(c, s, x) && s.count == 0 ==> Delete(c, s, x).0.count == 0xFFFF_FFFF
  {
    var cand := CandidatesOf(c, Check(x).value);
    var t := s.table;
    if Empty in t[cand.i1] {
      FillEmptyWithEmpty(t[cand.i1]);
      assert t[cand.i1 := t[cand.i1]] == t;
    } else if Empty in t[cand.i2] {
      FillEmptyWithEmpty(t[cand.i2]);
      assert t[cand.i2 := t[cand.i2]] == t;
    }
  }

  /** A freshly made filter holds nothing, yet `Lookup` reports every item
      whose fingerprint is 0 as present. */
  lemma EmptyFilterLookup(c: Config, x: seq<Byte>)
    requires c.totalBuckets != 0 && c.bucketSize != 0 && Check(x).Some?
    ensures WellFormed(c, EmptyTable(c.totalBuckets, c.bucketSize))
    ensures Lookup(c, State(0, EmptyTable(c.totalBuckets, c.bucketSize)), x)
            <==> CandidatesOf(c, Check(x).value).fp == Empty
  {
    var t := EmptyTable(c.totalBuckets, c.bucketSize);
    var cand := CandidatesOf(c, Check(x).value);
    assert t[cand.i1][0] == Empty;
    assert forall v :: v in t[cand.i1] ==> v == Empty;
    assert forall v :: v in t[cand.i2] ==> v == Empty;
  }

  /** Writing the empty marker into the first empty slot, or clearing the
      first empty slot, leaves the bucket as it is. */
  lemma FillEmptyWithEmpty(s: seq<Fingerprint>)
    requires Empty in s
    ensures Added(s, Empty) == s && Removed(s, Empty) == s
  {
    var j := FirstIndex(s, Empty).value;
    assert s[j := Empty] == s;
  }

  // ---------------------------------------------------------------------
  // Where a kicked fingerprint goes

  /** With a power-of-two table, a `replaceItem` call made with the item's
      own fingerprint sends the displaced fingerprint to the item's other
      candidate bucket, whatever that displaced fingerprint is: the next
      bucket depends only on the fingerprint written, so it is in general
      not a candidate bucket of the item that was displaced. */
  lemma FirstKickTargetsOtherCandidate(c: Config, t: Table, x: seq<Byte>, slot: nat)
    requires WellFormed(c, t) && IsPowerOf2(c.totalBuckets) && slot < c.bucketSize
    ensures var cand := CandidatesOf(c, x);
            ReplaceItem(c, t, cand.i1, cand.fp, slot).1 == cand.i2 &&
            ReplaceItem(c, t, cand.i2, cand.fp, slot).1 == cand.i1
  {
    CandidatesSymmetric(c, x);
  }

  /** When both candidate buckets are full, `Insert` is the kick loop from
      the bucket `first` picks, and its success bumps the counter. */
  lemma KickedInsert(c: Config, s: State, x: seq<Byte>, d: Draws, cand: Candidates, o: Outcome)
    requires WellFormed(c, s.table) && DrawsFit(c, d) && Check(x) == Some(x)
    requires CandidatesOf(c, x) == cand && !HasRoom(s.table, cand)
    requires KickLoop(c, s.table, if d.first == 0 then cand.i1 else cand.i2, cand.fp, d.slots, 0) == o
    ensures Insert(c, s, x, d) == (State(if o.ok then Inc(s.count) else s.count, o.table), o.ok)
  {
  }

  /** The candidates of an item follow from its digest `h` alone. */
  lemma CandidatesOfDigest(c: Config, x: seq<Byte>, h: U32, cand: Candidates)
    requires c.totalBuckets != 0 && c.hash(x) == h
    requires cand.fp == h / 0x1_0000 && cand.i1 == h % c.totalBuckets
    requires cand.i2 == AltIndex(cand.i1, c.hash(PutUint16(cand.fp)), c.totalBuckets)
    ensures CandidatesOf(c, x) == cand
  {
  }

  /** A hash on which the quirk shows: items A = [0x0A, 0x0A],
      B = [0x0B, 0x0B] and C = [0x0C, 0x0C] get fingerprints 1, 2 and 3,
      A and B share first bucket 0, C's first bucket is 1, and the
      fingerprint f is hashed, as [0, f], to f. */
  function DemoHash(x: seq<Byte>): U32 {
    if x == [0x0A, 0x0A] then 0x0001_0000
    else if x == [0x0B, 0x0B] then 0x0002_0000
    else if x == [0x0C, 0x0C] then 0x0003_0001
    else if x == [0, 1] then 1
    else if x == [0, 2] then 2
    else if x == [0, 3] then 3
    else 0
  }

  const Demo := Config(DemoHash, 4, 1, 2)

  /** The candidates of A, B and C under `DemoHash` with four buckets. */
  lemma DemoCandidatesA(a: seq<Byte>)
    requires a == [0x0A, 0x0A]
    ensures CandidatesOf(Demo, a) == Candidates(1, 0, 1)
  {
    assert PutUint16(1) == [0, 1];
    assert AltIndex(0, 1, 4) == 1 by {
      assert Xor(0, 1) == 1;
    }
    CandidatesOfDigest(Demo, a, 0x0001_0000, Candidates(1, 0, 1));
  }

  lemma DemoCandidatesB(b: seq<Byte>)
    requires b == [0x0B, 0x0B]
    ensures CandidatesOf(Demo, b) == Candidates(2, 0, 2)
  {
    assert PutUint16(2) == [0, 2];
    assert AltIndex(0, 2, 4) == 2 by {
      assert Xor(0, 2) == 2;
    }
    CandidatesOfDigest(Demo, b, 0x0002_0000, Candidates(2, 0, 2));
  }

  lemma DemoCandidatesC(e: seq<Byte>)
    requires e == [0x0C, 0x0C]
    ensures CandidatesOf(Demo, e) == Candidates(3, 1, 2)
  {
    assert PutUint16(3) == [0, 3];
    assert AltIndex(1, 3, 4) == 2 by {
      assert Xor(1, 3) == 2 by {
        assert Xor(0, 1) == 1;
      }
    }
    CandidatesOfDigest(Demo, e, 0x0003_0001, Candidates(3, 1, 2));
  }

  lemma DemoKick1()
    ensures ReplaceItem(Demo, [[2], [3], [0], [0]], 0, 1, 0) == ([[1], [3], [0], [0]], 1, 2)
  {
    var t: Table := [[2], [3], [0], [0]];
    assert PutUint16(1) == [0, 1];
    assert Demo.hash([0, 1]) == 1;
    assert AltIndex(0, 1, 4) == 1 by {
      assert Xor(0, 1) == 1;
    }
    var row: seq<Fingerprint> := t[0][0 := 1];
    assert row == [1];
    assert t[0 := row] == [[1], [3], [0], [0]];
  }

  lemma DemoKick2()
    ensures ReplaceItem(Demo, [[1], [3], [0], [0]], 1, 2, 0) == ([[1], [2], [0], [0]], 3, 3)
  {
    var t: Table := [[1], [3], [0], [0]];
    assert PutUint16(2) == [0, 2];
    assert Demo.hash([0, 2]) == 2;
    assert AltIndex(1, 2, 4) == 3 by {
      assert Xor(1, 2) == 3 by {
        assert Xor(0, 1) == 1;
      }
    }
    var row: seq<Fingerprint> := t[1][0 := 2];
    assert row == [2];
    assert t[1 := row] == [[1], [2], [0], [0]];
  }

  /** The two kicks made when inserting A into the table of
      `EvictedFingerprintMisplaced`. */
  lemma DemoKickLoop(t: Table, slots: seq<nat>)
    requires t == [[2], [3], [0], [0]] && slots == [0, 0]
    requires WellFormed(Demo, t) && SlotsFit(Demo, slots)
    ensures KickLoop(Demo, t, 0, 1, slots, 0) == Outcome([[1], [2], [0], [3]], true, 2, Empty)
  {
    var u: Table := [[1], [3], [0], [0]];
    var v: Table := [[1], [2], [0], [0]];
    DemoKick1();
    DemoKick2();
    assert Added([0], 3) == [3];
    assert v[3 := [3]] == [[1], [2], [0], [3]];
    assert KickLoop(Demo, u, 1, 2, slots, 1) == Outcome([[1], [2], [0], [3]], true, 2, Empty);
  }

  /** Inserting A into the table of `EvictedFingerprintMisplaced`. */
  lemma DemoInsert(t: Table, a: seq<Byte>, d: Draws)
    requires t == [[2], [3], [0], [0]] && a == [0x0A, 0x0A] && d == Draws(0, [0, 0])
    requires WellFormed(Demo, t) && DrawsFit(Demo, d)
    ensures Insert(Demo, State(2, t), a, d) == (State(3, [[1], [2], [0], [3]]), true)
  {
    assert Check(a) == Some(a);
    var cand := CandidatesOf(Demo, a);
    DemoCandidatesA(a);
    assert cand == Candidates(1, 0, 1);
    assert !HasRoom(t, cand) by {
      assert t[0] == [2] && t[1] == [3];
    }
    DemoKickLoop(t, d.slots);
    KickedInsert(Demo, State(2, t), a, d, cand, Outcome([[1], [2], [0], [3]], true, 2, Empty));
  }

  /** Four one-slot buckets and two kicks. B (buckets 0 and 2) sits in
      bucket 0 and C (buckets 1 and 2) in bucket 1, so both are found.
      Inserting A (buckets 0 and 1, both full) kicks B out of bucket 0, but
      B's fingerprint is sent to bucket 1, the alternate computed from A's
      fingerprint; there it kicks C out, and C's fingerprint is sent on to
      bucket 3, the alternate computed from B's. `Insert` reports success,
      yet afterwards neither B nor C is found: items that were inserted are
      lost although no fingerprint was dropped. */
  lemma EvictedFingerprintMisplaced(a: seq<Byte>, b: seq<Byte>, e: seq<Byte>, t: Table, u: Table, d: Draws)
    requires a == [0x0A, 0x0A] && b == [0x0B, 0x0B] && e == [0x0C, 0x0C]
    requires t == [[2], [3], [0], [0]] && u == [[1], [2], [0], [3]] && d == Draws(0, [0, 0])
    requires WellFormed(Demo, t) && WellFormed(Demo, u) && DrawsFit(Demo, d)
    ensures Lookup(Demo, State(2, t), b) && Lookup(Demo, State(2, t), e)
    ensures Insert(Demo, State(2, t), a, d) == (State(3, u), true)
    ensures !Lookup(Demo, State(3, u), b) && !Lookup(Demo, State(3, u), e)
  {
    DemoFound(b, e, t);
    DemoLost(b, e, u);
    DemoInsert(t, a, d);
  }

  /** B and C are found before A is inserted. */
  lemma DemoFound(b: seq<Byte>, e: seq<Byte>, t: Table)
    requires b == [0x0B, 0x0B] && e == [0x0C, 0x0C] && t == [[2], [3], [0], [0]]
    requires WellFormed(Demo, t)
    ensures Lookup(Demo, State(2, t), b) && Lookup(Demo, State(2, t), e)
  {
    DemoCandidatesB(b);
    DemoCandidatesC(e);
    assert Check(b) == Some(b) && Check(e) == Some(e);
    assert t[0] == [2] && t[1] == [3];
  }

  /** B and C are not found after A is inserted. */
  lemma DemoLost(b: seq<Byte>, e: seq<Byte>, u: Table)
    requires b == [0x0B, 0x0B] && e == [0x0C, 0x0C] && u == [[1], [2], [0], [3]]
    requires WellFormed(Demo, u)
    ensures !Lookup(Demo, State(3, u), b) && !Lookup(Demo, State(3, u), e)
  {
    DemoCandidatesB(b);
    DemoCandidatesC(e);
    assert Check(b) == Some(b) && Check(e) == Some(e);
    assert u[0] == [1] && u[1] == [2] && u[2] == [0];
  }

  // ---------------------------------------------------------------------
  // InsertUnique after a kicked insert

  /** A hash under which a kicked `insert` moves the inserted item's own
      fingerprint out of both its candidate buckets: item A = [0x0A, 0x0A]
      gets fingerprint 1 and candidate buckets 0 and 1, and the fingerprints
      1, 2 and 3 are hashed, as [0, f], to 1, 1 and 3. */
  function LoopHash(x: seq<Byte>): U32 {
    if x == [0x0A, 0x0A] then 0x0001_0000
    else if x == [0, 1] || x == [0, 2] then 1
    else if x == [0, 3] then 3
    else 0
  }

  const Loop := Config(LoopHash, 4, 1, 3)

  lemma LoopXor()
    ensures Xor(0, 1) == 1 && Xor(1, 1) == 0 && Xor(0, 3) == 3 && Xor(1, 3) == 2
  {
    assert Xor(0, 1) == 1;
    assert Xor(0, 3) == 3;
  }

  lemma LoopCandidates(a: seq<Byte>)
    requires a == [0x0A, 0x0A]
    ensures CandidatesOf(Loop, a) == Candidates(1, 0, 1)
  {
    assert PutUint16(1) == [0, 1];
    assert AltIndex(0, 1, 4) == 1 by {
      LoopXor();
    }
    CandidatesOfDigest(Loop, a, 0x0001_0000, Candidates(1, 0, 1));
  }

  lemma LoopKick1()
    ensures ReplaceItem(Loop, [[2], [3], [0], [0]], 0, 1, 0) == ([[1], [3], [0], [0]], 1, 2)
  {
    var t: Table := [[2], [3], [0], [0]];
    assert PutUint16(1) == [0, 1];
    assert AltIndex(0, 1, 4) == 1 by {
      LoopXor();
    }
    var row: seq<Fingerprint> := t[0][0 := 1];
    assert row == [1];
    assert t[0 := row] == [[1], [3], [0], [0]];
  }

  lemma LoopKick2()
    ensures ReplaceItem(Loop, [[1], [3], [0], [0]], 1, 2, 0) == ([[1], [2], [0], [0]], 0, 3)
  {
    var t: Table := [[1], [3], [0], [0]];
    assert PutUint16(2) == [0, 2];
    assert AltIndex(1, 1, 4) == 0 by {
      LoopXor();
    }
    var row: seq<Fingerprint> := t[1][0 := 2];
    assert row == [2];
    assert t[1 := row] == [[1], [2], [0], [0]];
  }

  lemma LoopKick3()
    ensures ReplaceItem(Loop, [[1], [2], [0], [0]], 0, 3, 0) == ([[3], [2], [0], [0]], 3, 1)
  {
    var t: Table := [[1], [2], [0], [0]];
    assert PutUint16(3) == [0, 3];
    assert AltIndex(0, 3, 4) == 3 by {
      LoopXor();
    }
    var row: seq<Fingerprint> := t[0][0 := 3];
    assert row == [3];
    assert t[0 := row] == [[3], [2], [0], [0]];
  }

  lemma LoopKick4()
    ensures ReplaceItem(Loop, [[3], [2], [0], [1]], 0, 1, 0) == ([[1], [2], [0], [1]], 1, 3)
  {
    var t: Table := [[3], [2], [0], [1]];
    assert PutUint16(1) == [0, 1];
    assert AltIndex(0, 1, 4) == 1 by {
      LoopXor();
    }
    var row: seq<Fingerprint> := t[0][0 := 1];
    assert row == [1];
    assert t[0 := row] == [[1], [2], [0], [1]];
  }

  lemma LoopKick5()
    ensures ReplaceItem(Loop, [[1], [2], [0], [1]], 1, 3, 0) == ([[1], [3], [0], [1]], 2, 2)
  {
    var t: Table := [[1], [2], [0], [1]];
    assert PutUint16(3) == [0, 3];
    assert AltIndex(1, 3, 4) == 2 by {
      LoopXor();
    }
    var row: seq<Fingerprint> := t[1][0 := 3];
    assert row == [3];
    assert t[1 := row] == [[1], [3], [0], [1]];
  }

  /** The first insertion of A: three kicks, the last of which sends A's
      fingerprint to bucket 3. */
  lemma LoopFirstInsert(t: Table, slots: seq<nat>)
    requires t == [[2], [3], [0], [0]] && slots == [0, 0, 0]
    requires WellFormed(Loop, t) && SlotsFit(Loop, slots)
    ensures KickLoop(Loop, t, 0, 1, slots, 0) == Outcome([[3], [2], [0], [1]], true, 3, Empty)
  {
    LoopKick1();
    LoopKick2();
    LoopKick3();
    var w: Table := [[3], [2], [0], [0]];
    assert Added([0], 1) == [1];
    assert w[3 := [1]] == [[3], [2], [0], [1]];
    var v: Table := [[1], [2], [0], [0]];
    assert KickLoop(Loop, v, 0, 3, slots, 2) == Outcome([[3], [2], [0], [1]], true, 3, Empty);
    var u: Table := [[1], [3], [0], [0]];
    assert KickLoop(Loop, u, 1, 2, slots, 1) == Outcome([[3], [2], [0], [1]], true, 3, Empty);
  }

  /** The second insertion of A: two kicks. */
  lemma LoopSecondInsert(t: Table, slots: seq<nat>)
    requires t == [[3], [2], [0], [1]] && slots == [0, 0, 0]
    requires WellFormed(Loop, t) && SlotsFit(Loop, slots)
    ensures KickLoop(Loop, t, 0, 1, slots, 0) == Outcome([[1], [3], [2], [1]], true, 2, Empty)
  {
    LoopKick4();
    LoopKick5();
    var w: Table := [[1], [3], [0], [1]];
    assert Added([0], 2) == [2];
    assert w[2 := [2]] == [[1], [3], [2], [1]];
    var u: Table := [[1], [2], [0], [1]];
    assert KickLoop(Loop, u, 1, 3, slots, 1) == Outcome([[1], [3], [2], [1]], true, 2, Empty);
  }

  lemma LoopInsertFirst(t: Table, a: seq<Byte>, d: Draws)
    requires t == [[2], [3], [0], [0]] && a == [0x0A, 0x0A] && d == Draws(0, [0, 0, 0])
    requires WellFormed(Loop, t) && DrawsFit(Loop, d)
    ensures Insert(Loop, State(2, t), a, d) == (State(3, [[3], [2], [0], [1]]), true)
  {
    assert Check(a) == Some(a);
    var cand := CandidatesOf(Loop, a);
    LoopCandidates(a);
    assert cand == Candidates(1, 0, 1);
    assert !HasRoom(t, cand) by {
      assert t[0] == [2] && t[1] == [3];
    }
    LoopFirstInsert(t, d.slots);
    KickedInsert(Loop, State(2, t), a, d, cand, Outcome([[3], [2], [0], [1]], true, 3, Empty));
  }

  lemma LoopInsertSecond(t: Table, a: seq<Byte>, d: Draws)
    requires t == [[3], [2], [0], [1]] && a == [0x0A, 0x0A] && d == Draws(0, [0, 0, 0])
    requires WellFormed(Loop, t) && DrawsFit(Loop, d)
    ensures Insert(Loop, State(3, t), a, d) == (State(4, [[1], [3], [2], [1]]), true)
  {
    assert Check(a) == Some(a);
    var cand := CandidatesOf(Loop, a);
    LoopCandidates(a);
    assert cand == Candidates(1, 0, 1);
    assert !HasRoom(t, cand) by {
      assert t[0] == [3] && t[1] == [2];
    }
    LoopSecondInsert(t, d.slots);
    KickedInsert(Loop, State(3, t), a, d, cand, Outcome([[1], [3], [2], [1]], true, 2, Empty));
  }

  /** `InsertUnique` is not idempotent once the kick loop runs. With four
      one-slot buckets holding 2 and 3 in A's candidate buckets 0 and 1,
      `InsertUnique(A)` succeeds after three kicks, the last of which moves
      A's own fingerprint to bucket 3. `Lookup(A)` is then false, so a
      second `InsertUnique(A)` inserts A again and bumps the counter a
      second time. */
  lemma InsertUniqueRepeats(a: seq<Byte>, d: Draws, t: Table, t1: Table, t2: Table)
    requires a == [0x0A, 0x0A] && d == Draws(0, [0, 0, 0])
    requires t == [[2], [3], [0], [0]] && t1 == [[3], [2], [0], [1]] && t2 == [[1], [3], [2], [1]]
    requires WellFormed(Loop, t) && WellFormed(Loop, t1) && DrawsFit(Loop, d)
    ensures !Lookup(Loop, State(2, t), a)
    ensures InsertUnique(Loop, State(2, t), a, d) == (State(3, t1), true)
    ensures !Lookup(Loop, State(3, t1), a)
    ensures InsertUnique(Loop, State(3, t1), a, d) == (State(4, t2), true)
  {
    assert Check(a) == Some(a);
    LoopCandidates(a);
    assert t[0] == [2] && t[1] == [3] && t1[0] == [3] && t1[1] == [2];
    LoopInsertFirst(t, a, d);
    LoopInsertSecond(t1, a, d);
  }

  /** The two counterexamples on their concrete values, with nothing
      assumed. */
  lemma EvictedFingerprintMisplacedHolds()
    ensures var before := State(2, [[2], [3], [0], [0]]);
            var after := State(3, [[1], [2], [0], [3]]);
            && WellFormed(Demo, before.table) && WellFormed(Demo, after.table)
            && Lookup(Demo, before, [0x0B, 0x0B]) && Lookup(Demo, before, [0x0C, 0x0C])
            && Insert(Demo, before, [0x0A, 0x0A], Draws(0, [0, 0])) == (after, true)
            && !Lookup(Demo, after, [0x0B, 0x0B]) && !Lookup(Demo, after, [0x0C, 0x0C])
  {
    EvictedFingerprintMisplaced([0x0A, 0x0A], [0x0B, 0x0B], [0x0C, 0x0C],
      [[2], [3], [0], [0]], [[1], [2], [0], [3]], Draws(0, [0, 0]));
  }

  lemma InsertUniqueRepeatsHolds()
    ensures var s := State(2, [[2], [3], [0], [0]]);
            var s1 := State(3, [[3], [2], [0], [1]]);
            var a: seq<Byte> := [0x0A, 0x0A];
            var d := Draws(0, [0, 0, 0]);
            && WellFormed(Loop, s.table) && WellFormed(Loop, s1.table)
            && !Lookup(Loop, s, a)
            && InsertUnique(Loop, s, a, d) == (s1, true)
            && !Lookup(Loop, s1, a)
            && InsertUnique(Loop, s1, a, d) == (State(4, [[1], [3], [2], [1]]), true)
  {
    InsertUniqueRepeats([0x0A, 0x0A], Draws(0, [0, 0, 0]),
      [[2], [3], [0], [0]], [[3], [2], [0], [1]], [[1], [3], [2], [1]]);
  }
}
