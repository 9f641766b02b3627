/** The filter as a value: the bucket table and the counter, and `insert`,
    `replaceItem`, `lookup`, `deleteItem`, `Insert`, `InsertUnique`, `Lookup`
    and `Delete` as functions of that state. The class in filter.dfy is proved
    to compute exactly these. */
module Model {
  import opened Codec
  import opened Bucket

  type Table = seq<seq<Fingerprint>>

  /** The fixed parameters of a filter: its hash, `totalBuckets` (uint32),
      `bucketSize` (uint8) and `maxKicks` (uint16). */
  datatype Config = Config(hash: Hash, totalBuckets: U32, bucketSize: Byte, maxKicks: U16)

  /** The mutable part of a filter: `count` (uint32) and the buckets. */
  datatype State = State(count: U32, table: Table)

  /** The values `rand.Intn` returns during one insertion: `first` picks the
      starting victim bucket (`rand.Intn(2)`), `slots[k]` the victim slot of
      the k-th kick (`rand.Intn(len(b))`). */
  datatype Draws = Draws(first: nat, slots: seq<nat>)

  /** An item's fingerprint and its two candidate buckets. */
  datatype Candidates = Candidates(fp: Fingerprint, i1: U32, i2: U32)

  /** What `insert` does to the table: the new table, the flag it returns,
      how many times it called `replaceItem`, and the fingerprint it is left
      holding: the one dropped when the kick loop gives up, `Empty` (the
      empty slot it filled) when it succeeds. */
  datatype Outcome = Outcome(table: Table, ok: bool, kicks: nat, carried: Fingerprint)

  /** `totalBuckets` buckets of `bucketSize` slots each. */
  predicate WellFormed(c: Config, t: Table) {
    && c.totalBuckets != 0
    && c.bucketSize != 0
    && |t| == c.totalBuckets
    && forall i :: 0 <= i < |t| ==> |t[i]| == c.bucketSize
  }

  /** The victim slots drawn for the kicks are valid slot numbers. */
  predicate SlotsFit(c: Config, slots: seq<nat>) {
    && |slots| >= c.maxKicks
    && forall k :: 0 <= k < |slots| ==> slots[k] < c.bucketSize
  }

  /** Every draw lies in the range `rand.Intn` promises. */
  predicate DrawsFit(c: Config, d: Draws) {
    d.first < 2 && SlotsFit(c, d.slots)
  }

  /** uint32 `count++` and `count--`, wrapping around. */
  function Inc(n: U32): (r: U32)
    ensures r == if n == 0xFFFF_FFFF then 0 else n + 1
  {
    (n + 1) % 0x1_0000_0000
  }

  function Dec(n: U32): (r: U32)
    ensures r == if n == 0 then 0xFFFF_FFFF else n - 1
  {
    (n - 1) % 0x1_0000_0000
  }

  /** The buckets `initBuckets` makes: every slot empty. */
  function EmptyTable(tb: nat, bs: nat): (r: Table)
    ensures |r| == tb && forall i :: 0 <= i < tb ==> r[i] == seq(bs, _ => Empty)
  {
    seq(tb, _ => seq(bs, _ => Empty))
  }

  // ---------------------------------------------------------------------
  // Counting fingerprints

  /** All slots of the table, empty ones included. */
  function Slots(t: Table): multiset<Fingerprint> {
    if |t| == 0 then multiset{} else Slots(t[..|t| - 1]) + multiset(t[|t| - 1])
  }

  /** Number of slots that are not empty. */
  function Occupied(t: Table): int {
    |Slots(t)| - Slots(t)[Empty]
  }

  /** Replacing one bucket trades its slots for the new bucket's. */
  lemma {:induction false} SlotsUpdate(t: Table, i: nat, row: seq<Fingerprint>)
    requires i < |t|
    ensures Slots(t[i := row]) + multiset(t[i]) == Slots(t) + multiset(row)
    decreases |t|
  {
    var n := |t| - 1;
    var u := t[i := row];
    assert Slots(u) == Slots(u[..n]) + multiset(u[n]);
    if i == n {
      assert u[..n] == t[..n];
    } else {
      var p := t[..n];
      assert u[..n] == p[i := row] && u[n] == t[n] && p[i] == t[i];
      SlotsUpdate(p, i, row);
      assert Slots(t) == Slots(p) + multiset(t[n]);
      AddBoth(Slots(p[i := row]), multiset(t[i]), Slots(p), multiset(row), multiset(t[n]));
    }
  }

  /** Adding `n` to both sides of `a + x == b + y`, on the left of `x` and `y`. */
  lemma AddBoth(a: multiset<Fingerprint>, x: multiset<Fingerprint>, b: multiset<Fingerprint>, y: multiset<Fingerprint>, n: multiset<Fingerprint>)
    requires a + x == b + y
    ensures a + n + x == b + n + y
  {
    assert a + n + x == (a + x) + n;
    assert b + n + y == (b + y) + n;
  }

  /** Every bucket's slots are among the table's. */
  lemma {:induction false} SlotsHoldRow(t: Table, i: nat)
    requires i < |t|
    ensures multiset(t[i]) <= Slots(t)
    decreases |t|
  {
    var n := |t| - 1;
    assert Slots(t) == Slots(t[..n]) + multiset(t[n]);
    if i < n {
      SlotsHoldRow(t[..n], i);
      assert t[..n][i] == t[i];
    }
  }

  lemma MultisetCancel(a: multiset<Fingerprint>, b: multiset<Fingerprint>, m: multiset<Fingerprint>)
    requires a + m == b + m
    ensures a == b
  {
    forall e ensures a[e] == b[e] {
      assert (a + m)[e] == (b + m)[e];
    }
  }

  /** A bucket change that trades `x` for `y` does the same to the table. */
  lemma TradeSlots(t: Table, i: nat, row: seq<Fingerprint>, x: Fingerprint, y: Fingerprint)
    requires i < |t|
    requires multiset(row) + multiset{x} == multiset(t[i]) + multiset{y}
    ensures Slots(t[i := row]) + multiset{x} == Slots(t) + multiset{y}
  {
    SlotsUpdate(t, i, row);
    var a, b, m := Slots(t[i := row]) + multiset{x}, Slots(t) + multiset{y}, multiset(t[i]);
    forall e ensures (a + m)[e] == (b + m)[e] {
      assert (Slots(t[i := row]) + multiset(t[i]))[e] == (Slots(t) + multiset(row))[e];
      assert (multiset(row) + multiset{x})[e] == (multiset(t[i]) + multiset{y})[e];
    }
    MultisetCancel(Slots(t[i := row]) + multiset{x}, Slots(t) + multiset{y}, multiset(t[i]));
  }

  // ---------------------------------------------------------------------
  // Fingerprint and candidate buckets

  /** `hashOf` + `fingerprintOf` + `indicesOf`, as `insert`, `lookup` and
      `deleteItem` run them on a checked item. */
  function CandidatesOf(c: Config, x: seq<Byte>): (r: Candidates)
    requires c.totalBuckets != 0
    ensures r.fp == c.hash(x) / 0x1_0000
    ensures r.i1 == c.hash(x) % c.totalBuckets
    ensures r.i2 == AltIndex(r.i1, c.hash(PutUint16(r.fp)), c.totalBuckets)
    ensures r.i1 < c.totalBuckets && r.i2 < c.totalBuckets
  {
    var (xh, xb) := HashOf(c.hash, x);
    var (fp, fph) := FingerprintOf(c.hash, xb);
    var (i1, i2) := IndicesOf(xh, fph, c.totalBuckets);
    FingerprintIsHighHalf(c.hash, x);
    Candidates(fp, i1, i2)
  }

  /** With a power-of-two table, each candidate bucket of an item is the
      alternate of the other, computed from the fingerprint alone. */
  lemma CandidatesSymmetric(c: Config, x: seq<Byte>)
    requires IsPowerOf2(c.totalBuckets)
    ensures var r := CandidatesOf(c, x);
            var fph := c.hash(PutUint16(r.fp));
            AltIndex(r.i1, fph, c.totalBuckets) == r.i2 &&
            AltIndex(r.i2, fph, c.totalBuckets) == r.i1
  {
    var r := CandidatesOf(c, x);
    AltIndexInvolution(r.i1, c.hash(PutUint16(r.fp)), c.totalBuckets);
  }

  // ---------------------------------------------------------------------
  // insert, replaceItem and the kick loop

  /** `replaceItem`: `fp` takes slot `slot` of bucket `i`, and the fingerprint
      it displaces comes back together with the bucket to try next. That bucket
      is derived from the hash of `fp`, the fingerprint just written, not of
      the one displaced. */
  function ReplaceItem(c: Config, t: Table, i: U32, fp: Fingerprint, slot: nat): (r: (Table, U32, Fingerprint))
    requires WellFormed(c, t) && i < c.totalBuckets && slot < c.bucketSize
    ensures WellFormed(c, r.0) && r.1 < c.totalBuckets
    ensures |r.0| == |t| && forall j :: 0 <= j < |t| && j != i ==> r.0[j] == t[j]
    ensures r.0[i] == t[i][slot := fp] && r.2 == t[i][slot]
    ensures r.1 == AltIndex(i, c.hash(PutUint16(fp)), c.totalBuckets)
    ensures Slots(r.0) + multiset{r.2} == Slots(t) + multiset{fp}
  {
    var row: seq<Fingerprint> := t[i][slot := fp];
    SwapSlot(t[i], slot, fp);
    TradeSlots(t, i, row, t[i][slot], fp);
    (t[i := row], AltIndex(i, c.hash(PutUint16(fp)), c.totalBuckets), t[i][slot])
  }

  /** The kick loop of `insert` from iteration `k` on, with `fp` in hand and
      `ri` the bucket to kick from. It makes at most `maxKicks` calls to
      `replaceItem` in all and keeps every fingerprint it is given except,
      on failure, the one it is left holding. */
  function KickLoop(c: Config, t: Table, ri: U32, fp: Fingerprint, slots: seq<nat>, k: nat): (r: Outcome)
    requires WellFormed(c, t) && ri < c.totalBuckets
    requires SlotsFit(c, slots) && k <= c.maxKicks
    ensures WellFormed(c, r.table)
    ensures k <= r.kicks <= c.maxKicks
    ensures r.ok ==> r.kicks > k
    ensures !r.ok ==> r.kicks == c.maxKicks
    ensures r.ok ==> r.carried == Empty
    ensures Slots(r.table) + multiset{r.carried} == Slots(t) + multiset{fp}
    decreases c.maxKicks - k
  {
    if k == c.maxKicks then Outcome(t, false, k, fp)
    else
      var (t1, j, rfp) := ReplaceItem(c, t, ri, fp, slots[k]);
      if Empty in t1[j] then
        var row := Added(t1[j], rfp);
        AddedSlots(t1[j], rfp);
        TradeSlots(t1, j, row, Empty, rfp);
        Outcome(t1[j := row], true, k + 1, Empty)
      else
        KickLoop(c, t1, j, rfp, slots, k + 1)
  }

  /** `insert` on the table: try bucket `i1`, then `i2`; if both are full,
      kick from the bucket `first` picks. */
  function InsertTable(c: Config, t: Table, cand: Candidates, d: Draws): (r: Outcome)
    requires WellFormed(c, t) && cand.i1 < c.totalBuckets && cand.i2 < c.totalBuckets
    requires DrawsFit(c, d)
    ensures WellFormed(c, r.table)
    ensures r.kicks <= c.maxKicks
    ensures (r.ok && r.kicks == 0) <==> HasRoom(t, cand)
    ensures Empty in t[cand.i1] ==> r == Outcome(t[cand.i1 := Added(t[cand.i1], cand.fp)], true, 0, Empty)
    ensures Empty !in t[cand.i1] && Empty in t[cand.i2] ==>
              r == Outcome(t[cand.i2 := Added(t[cand.i2], cand.fp)], true, 0, Empty)
    ensures !HasRoom(t, cand) ==> r == KickLoop(c, t, if d.first == 0 then cand.i1 else cand.i2, cand.fp, d.slots, 0)
    ensures r.ok ==> r.carried == Empty
    ensures Slots(r.table) + multiset{r.carried} == Slots(t) + multiset{cand.fp}
  {
    if Empty in t[cand.i1] then
      AddedSlots(t[cand.i1], cand.fp);
      TradeSlots(t, cand.i1, Added(t[cand.i1], cand.fp), Empty, cand.fp);
      Outcome(t[cand.i1 := Added(t[cand.i1], cand.fp)], true, 0, Empty)
    else if Empty in t[cand.i2] then
      AddedSlots(t[cand.i2], cand.fp);
      TradeSlots(t, cand.i2, Added(t[cand.i2], cand.fp), Empty, cand.fp);
      Outcome(t[cand.i2 := Added(t[cand.i2], cand.fp)], true, 0, Empty)
    else
      KickLoop(c, t, if d.first == 0 then cand.i1 else cand.i2, cand.fp, d.slots, 0)
  }

  /** A candidate bucket has room, so `insert` places directly. */
  predicate HasRoom(t: Table, cand: Candidates)
    requires cand.i1 < |t| && cand.i2 < |t|
  {
    Empty in t[cand.i1] || Empty in t[cand.i2]
  }

  // ---------------------------------------------------------------------
  // lookup and deleteItem

  /** `lookup` on the table. */
  predicate LookupTable(t: Table, cand: Candidates): (r: bool)
    requires cand.i1 < |t| && cand.i2 < |t|
    ensures r <==> multiset(t[cand.i1])[cand.fp] + multiset(t[cand.i2])[cand.fp] > 0
  {
    cand.fp in t[cand.i1] || cand.fp in t[cand.i2]
  }

  /** `deleteItem` on the table: one occurrence of the fingerprint leaves
      bucket `i1` if it is there, otherwise bucket `i2`. */
  function DeleteTable(t: Table, cand: Candidates): (r: (Table, bool))
    requires cand.i1 < |t| && cand.i2 < |t|
    ensures r.1 <==> LookupTable(t, cand)
    ensures |r.0| == |t|
    ensures forall j :: 0 <= j < |t| && j != cand.i1 && j != cand.i2 ==> r.0[j] == t[j]
    ensures cand.fp in t[cand.i1] ==> r.0 == t[cand.i1 := Removed(t[cand.i1], cand.fp)]
    ensures cand.fp !in t[cand.i1] && cand.fp in t[cand.i2] ==> r.0 == t[cand.i2 := Removed(t[cand.i2], cand.fp)]
    ensures !r.1 ==> r.0 == t
    ensures r.1 ==> Slots(r.0) + multiset{cand.fp} == Slots(t) + multiset{Empty}
  {
    if cand.fp in t[cand.i1] then
      RemovedSlots(t[cand.i1], cand.fp);
      TradeSlots(t, cand.i1, Removed(t[cand.i1], cand.fp), cand.fp, Empty);
      (t[cand.i1 := Removed(t[cand.i1], cand.fp)], true)
    else if cand.fp in t[cand.i2] then
      RemovedSlots(t[cand.i2], cand.fp);
      TradeSlots(t, cand.i2, Removed(t[cand.i2], cand.fp), cand.fp, Empty);
      (t[cand.i2 := Removed(t[cand.i2], cand.fp)], true)
    else
      (t, false)
  }

  // ---------------------------------------------------------------------
  // The package functions with the counter, and the public methods

  /** `insert(f, x)` on a checked item, with its deferred `count++`. */
  function InsertItem(c: Config, s: State, x: seq<Byte>, d: Draws): (r: (State, bool))
    requires WellFormed(c, s.table) && DrawsFit(c, d)
    ensures WellFormed(c, r.0.table)
  {
    var o := InsertTable(c, s.table, CandidatesOf(c, x), d);
    (State(if o.ok then Inc(s.count) else s.count, o.table), o.ok)
  }

  /** `lookup(f, x)` on a checked item. */
  predicate LookupItem(c: Config, s: State, x: seq<Byte>): (r: bool)
    requires WellFormed(c, s.table)
    ensures r ==> CandidatesOf(c, x).fp in Slots(s.table)
  {
    var cand := CandidatesOf(c, x);
    SlotsHoldRow(s.table, cand.i1);
    SlotsHoldRow(s.table, cand.i2);
    LookupTable(s.table, cand)
  }

  /** `deleteItem(f, x)` on a checked item, with its deferred `count--`. */
  function DeleteItem(c: Config, s: State, x: seq<Byte>): (r: (State, bool))
    requires WellFormed(c, s.table)
    ensures WellFormed(c, r.0.table)
  {
    var (t, ok) := DeleteTable(s.table, CandidatesOf(c, x));
    (State(if ok then Dec(s.count) else s.count, t), ok)
  }

  /** `Filter.Insert`. */
  function Insert(c: Config, s: State, x: seq<Byte>, d: Draws): (r: (State, bool))
    requires WellFormed(c, s.table) && DrawsFit(c, d)
    ensures WellFormed(c, r.0.table)
  {
    match Check(x)
    case None => (s, false)
    case Some(y) => InsertItem(c, s, y, d)
  }

  /** `Filter.Lookup`. */
  predicate Lookup(c: Config, s: State, x: seq<Byte>): (r: bool)
    requires WellFormed(c, s.table)
    ensures x == [] ==> !r
    ensures |x| == 1 ==> (r <==> LookupItem(c, s, [0, x[0]]))
    ensures |x| >= 2 ==> (r <==> LookupItem(c, s, x))
  {
    match Check(x)
    case None => false
    case Some(y) => LookupItem(c, s, y)
  }

  /** `Filter.Delete`. */
  function Delete(c: Config, s: State, x: seq<Byte>): (r: (State, bool))
    requires WellFormed(c, s.table)
    ensures WellFormed(c, r.0.table)
  {
    match Check(x)
    case None => (s, false)
    case Some(y) => DeleteItem(c, s, y)
  }

  /** `Filter.InsertUnique`: a checked item that `Lookup` already finds is
      reported as inserted without touching the filter. */
  function InsertUnique(c: Config, s: State, x: seq<Byte>, d: Draws): (r: (State, bool))
    requires WellFormed(c, s.table) && DrawsFit(c, d)
    ensures WellFormed(c, r.0.table)
  {
    match Check(x)
    case None => (s, false)
    case Some(y) => if Lookup(c, s, y) then (s, true) else InsertItem(c, s, y, d)
  }
}
