/** The `Filter` object: its counter and its buckets, held as an array of
    slot arrays that the operations update in place. Every method is proved
    to leave the filter in the state, and to return the value, that the
    functions of module Model prescribe. */
module Cuckoo {
  import opened Codec
  import opened Bucket
  import opened Model

  /** `defaultBucketSize`, `defaultTotalBuckets` (4 << 20) and
      `defaultMaxKicks`. */
  const DefaultBucketSize: Byte := 4
  const DefaultTotalBuckets: U32 := 0x40_0000
  const DefaultMaxKicks: U16 := 500

  /** `initBuckets`: `tb` fresh buckets of `bs` empty slots, no two of them
      the same array. */
  method InitBuckets(tb: U32, bs: Byte) returns (buckets: array<array<Fingerprint>>)
    ensures fresh(buckets) && buckets.Length == tb
    ensures forall i :: 0 <= i < tb ==> fresh(buckets[i])
    ensures forall i :: 0 <= i < tb ==> buckets[i][..] == seq(bs, _ => Empty)
    ensures forall i, j :: 0 <= i < j < tb ==> buckets[i] != buckets[j]
  {
    var none := new Fingerprint[0];
    buckets := new array<Fingerprint>[tb](_ => none);
    for i := 0 to tb
      invariant forall k :: 0 <= k < i ==> fresh(buckets[k])
      invariant forall k :: 0 <= k < i ==> buckets[k][..] == seq(bs, _ => Empty)
      invariant forall k, l :: 0 <= k < l < i ==> buckets[k] != buckets[l]
    {
      var b := new Fingerprint[bs](_ => Empty);
      buckets[i] := b;
    }
  }

  class Filter {
    var count: U32
    const buckets: array<array<Fingerprint>>
    const bucketSize: Byte
    const totalBuckets: U32
    const hash: Hash
    const maxKicks: U16

    /** The slot arrays, one per bucket. */
    ghost const Repr: set<array<Fingerprint>>

    /** `totalBuckets` distinct buckets of `bucketSize` slots. */
    ghost predicate Valid()
      reads buckets
    {
      && totalBuckets != 0
      && bucketSize != 0
      && buckets.Length == totalBuckets
      && (forall i :: 0 <= i < buckets.Length ==> buckets[i] in Repr && buckets[i].Length == bucketSize)
      && (forall i, j :: 0 <= i < j < buckets.Length ==> buckets[i] != buckets[j])
    }

    function Cfg(): Config {
      Config(hash, totalBuckets, bucketSize, maxKicks)
    }

    /** The contents of the buckets. */
    ghost function Table(): (t: Table)
      reads buckets, Repr
      requires Valid()
      ensures WellFormed(Cfg(), t)
    {
      seq(buckets.Length, i requires 0 <= i < buckets.Length && buckets[i] in Repr reads buckets, Repr => buckets[i][..])
    }

    /** The filter as a value of the model. */
    ghost function Snapshot(): State
      reads this, buckets, Repr
      requires Valid()
    {
      State(count, Table())
    }

    /** `newFilter`, with the number of kicks as a parameter: an empty
        filter with a zero counter. */
    constructor (tb: U32, bs: Byte, hash: Hash, maxKicks: U16)
      requires tb != 0 && bs != 0
      ensures Valid() && fresh(Repr)
      ensures Cfg() == Config(hash, tb, bs, maxKicks)
      ensures Snapshot() == State(0, EmptyTable(tb, bs))
    {
      var b := InitBuckets(tb, bs);
      buckets := b;
      bucketSize := bs;
      totalBuckets := tb;
      this.hash := hash;
      this.maxKicks := maxKicks;
      count := 0;
      Repr := set i | 0 <= i < b.Length :: b[i];
      new;
      assert Table() == EmptyTable(tb, bs);
    }

    /** `addToBucket(f.buckets[i], fp)`. */
    method AddAt(i: U32, fp: Fingerprint) returns (ok: bool)
      requires Valid() && i < totalBuckets
      modifies buckets[i]
      ensures Valid()
      ensures ok <==> Empty in old(Table())[i]
      ensures Table() == old(Table())[i := Added(old(Table())[i], fp)]
    {
      ok := AddToBucket(buckets[i], fp);
      RowChanged(old(Table()), i);
    }

    /** `deleteFrom(f.buckets[i], fp)`. */
    method DeleteAt(i: U32, fp: Fingerprint) returns (ok: bool)
      requires Valid() && i < totalBuckets
      modifies buckets[i]
      ensures Valid()
      ensures ok <==> fp in old(Table())[i]
      ensures Table() == old(Table())[i := Removed(old(Table())[i], fp)]
    {
      ok := DeleteFrom(buckets[i], fp);
      RowChanged(old(Table()), i);
    }

    /** When only bucket `i` has changed since the table was `t`, the table
        is `t` with row `i` replaced. */
    lemma RowChanged(t: Table, i: nat)
      requires Valid() && i < buckets.Length && |t| == buckets.Length
      requires forall j :: 0 <= j < |t| && j != i ==> t[j] == buckets[j][..]
      ensures Table() == t[i := buckets[i][..]]
    {
    }

    /** `replaceItem`: `slot` is the value `rand.Intn(len(b))` returned. */
    method ReplaceItem(i: U32, fp: Fingerprint, slot: nat) returns (j: U32, rfp: Fingerprint)
      requires Valid() && i < totalBuckets && slot < bucketSize
      modifies buckets[i]
      ensures Valid()
      ensures (Table(), j, rfp) == Model.ReplaceItem(Cfg(), old(Table()), i, fp, slot)
    {
      var b := buckets[i];
      rfp := b[slot];
      b[slot] := fp;
      RowChanged(old(Table()), i);
      var (rfph, _) := HashOf(hash, PutUint16(fp));
      j := AltIndex(i, rfph, totalBuckets);
    }

    /** The kick loop of `insert`, from bucket `ri` with `fp` in hand;
        `slots` are the values `rand.Intn(len(b))` returns, kick by kick. */
    method KickFrom(ri: U32, fp: Fingerprint, slots: seq<nat>) returns (ok: bool)
      requires Valid() && ri < totalBuckets && SlotsFit(Cfg(), slots)
      modifies Repr
      ensures Valid()
      ensures Table() == KickLoop(Cfg(), old(Table()), ri, fp, slots, 0).table
      ensures ok == KickLoop(Cfg(), old(Table()), ri, fp, slots, 0).ok
    {
      ghost var outcome := KickLoop(Cfg(), Table(), ri, fp, slots, 0);
      var i: U32, f: Fingerprint := ri, fp;
      var k: U16 := 0;
      ok := false;
      while k < maxKicks && !ok
        invariant Valid() && i < totalBuckets && k <= maxKicks
        invariant ok ==> Table() == outcome.table && outcome.ok
        invariant !ok ==> KickLoop(Cfg(), Table(), i, f, slots, k) == outcome
      {
        ghost var before := KickLoop(Cfg(), Table(), i, f, slots, k);
        i, f := ReplaceItem(i, f, slots[k]);
        ghost var t1 := Table();
        ok := AddAt(i, f);
        if ok {
          assert before == Outcome(Table(), true, k + 1, Empty);
        } else {
          assert Table() == t1[i := t1[i]] == t1;
          assert before == KickLoop(Cfg(), t1, i, f, slots, k + 1);
        }
        k := k + 1;
      }
    }

    /** The table part of `insert`: `fp` goes into bucket `i1`, else into
        bucket `i2`, else the kick loop runs from the bucket `d.first`
        picks. */
    method Place(fp: Fingerprint, i1: U32, i2: U32, d: Draws) returns (ok: bool)
      requires Valid() && i1 < totalBuckets && i2 < totalBuckets && DrawsFit(Cfg(), d)
      modifies Repr
      ensures Valid()
      ensures Table() == InsertTable(Cfg(), old(Table()), Candidates(fp, i1, i2), d).table
      ensures ok == InsertTable(Cfg(), old(Table()), Candidates(fp, i1, i2), d).ok
    {
      ghost var t0 := Table();
      ok := AddAt(i1, fp);
      if !ok {
        assert Table() == t0[i1 := t0[i1]] == t0;
        ok := AddAt(i2, fp);
        if !ok {
          assert Table() == t0[i2 := t0[i2]] == t0;
          ok := KickFrom(if d.first == 0 then i1 else i2, fp, d.slots);
        }
      }
    }

    /** `insert`: the fingerprint and candidate buckets of `x`, placement,
        and the deferred `count++` on success. */
    method InsertItem(x: seq<Byte>, d: Draws) returns (ok: bool)
      requires Valid() && DrawsFit(Cfg(), d)
      modifies this, Repr
      ensures Valid()
      ensures (Snapshot(), ok) == Model.InsertItem(Cfg(), old(Snapshot()), x, d)
    {
      var (xh, xb) := HashOf(hash, x);
      var (fp, fph) := FingerprintOf(hash, xb);
      var (i1, i2) := IndicesOf(xh, fph, totalBuckets);
      assert CandidatesOf(Cfg(), x) == Candidates(fp, i1, i2);
      ghost var r := Model.InsertItem(Cfg(), Snapshot(), x, d);
      ok := Place(fp, i1, i2, d);
      assert r == (State(if ok then Inc(count) else count, Table()), ok);
      if ok {
        count := Inc(count);
      }
      assert Snapshot() == r.0;
    }

    /** `lookup`: reads the filter and changes nothing. */
    method LookupItem(x: seq<Byte>) returns (found: bool)
      requires Valid()
      ensures found == Model.LookupItem(Cfg(), Snapshot(), x)
    {
      var (xh, xb) := HashOf(hash, x);
      var (fp, fph) := FingerprintOf(hash, xb);
      var (i1, i2) := IndicesOf(xh, fph, totalBuckets);
      ghost var cand := CandidatesOf(Cfg(), x);
      assert cand == Candidates(fp, i1, i2);
      found := ContainsIn(buckets[i1], fp);
      if !found {
        found := ContainsIn(buckets[i2], fp);
      }
    }

    /** `deleteItem`: one copy leaves bucket `i1`, or else bucket `i2`; the
        counter goes down only on success. */
    method DeleteItem(x: seq<Byte>) returns (ok: bool)
      requires Valid()
      modifies this, Repr
      ensures Valid()
      ensures (Snapshot(), ok) == Model.DeleteItem(Cfg(), old(Snapshot()), x)
    {
      var (xh, xb) := HashOf(hash, x);
      var (fp, fph) := FingerprintOf(hash, xb);
      var (i1, i2) := IndicesOf(xh, fph, totalBuckets);
      ghost var cand := CandidatesOf(Cfg(), x);
      assert cand == Candidates(fp, i1, i2);
      ghost var t0 := Table();
      ok := DeleteAt(i1, fp);
      if !ok {
        assert Table() == t0[i1 := t0[i1]] == t0;
        ok := DeleteAt(i2, fp);
        if !ok {
          assert Table() == t0[i2 := t0[i2]] == t0;
        }
      }
      assert (Table(), ok) == DeleteTable(t0, cand);
      if ok {
        count := Dec(count);
      }
    }

    /** `Filter.Insert`. */
    method Insert(x: seq<Byte>, d: Draws) returns (ok: bool)
      requires Valid() && DrawsFit(Cfg(), d)
      modifies this, Repr
      ensures Valid()
      ensures (Snapshot(), ok) == Model.Insert(Cfg(), old(Snapshot()), x, d)
    {
      var y := Check(x);
      if y.None? {
        return false;
      }
      ok := InsertItem(y.value, d);
    }

    /** `Filter.InsertUnique`: `Lookup` first, then `insert`. */
    method InsertUnique(x: seq<Byte>, d: Draws) returns (ok: bool)
      requires Valid() && DrawsFit(Cfg(), d)
      modifies this, Repr
      ensures Valid()
      ensures (Snapshot(), ok) == Model.InsertUnique(Cfg(), old(Snapshot()), x, d)
    {
      var y := Check(x);
      if y.None? {
        return false;
      }
      var found := Lookup(y.value);
      if found {
        return true;
      }
      ok := InsertItem(y.value, d);
    }

    /** `Filter.Lookup`. */
    method Lookup(x: seq<Byte>) returns (found: bool)
      requires Valid()
      ensures found == Model.Lookup(Cfg(), Snapshot(), x)
    {
      var y := Check(x);
      if y.None? {
        return false;
      }
      found := LookupItem(y.value);
    }

    /** `Filter.Delete`. */
    method Delete(x: seq<Byte>) returns (ok: bool)
      requires Valid()
      modifies this, Repr
      ensures Valid()
      ensures (Snapshot(), ok) == Model.Delete(Cfg(), old(Snapshot()), x)
    {
      var y := Check(x);
      if y.None? {
        return false;
      }
      ok := DeleteItem(y.value);
    }

    /** `Filter.Count`. */
    method Count() returns (n: U32)
      requires Valid()
      ensures n == Snapshot().count
    {
      n := count;
    }
  }

  /** `StdFilter`, with the hash as a parameter. */
  method StdFilter(hash: Hash) returns (f: Filter)
    ensures fresh(f) && f.Valid() && fresh(f.Repr)
    ensures f.Cfg() == Config(hash, DefaultTotalBuckets, DefaultBucketSize, DefaultMaxKicks)
    ensures f.Snapshot() == State(0, EmptyTable(DefaultTotalBuckets, DefaultBucketSize))
  {
    f := new Filter(DefaultTotalBuckets, DefaultBucketSize, hash, DefaultMaxKicks);
  }

  /** `NewFilter`: the least power-of-two number of buckets of
      `DefaultBucketSize` slots that holds `count` items (all slots of a
      table of at most 2^31, 2^29 buckets, when `count` is larger). */
  method NewFilter(count: U32, hash: Hash) returns (f: Filter)
    ensures fresh(f) && f.Valid() && fresh(f.Repr)
    ensures f.bucketSize == DefaultBucketSize && f.maxKicks == DefaultMaxKicks && f.hash == hash
    ensures IsPowerOf2(f.totalBuckets) && 1 <= f.totalBuckets <= 0x2000_0000
    ensures count <= 0x8000_0000 ==> count <= f.totalBuckets * DefaultBucketSize
    ensures count <= 0x8000_0000 ==> f.totalBuckets == 1 || 2 * f.totalBuckets < count
    ensures count > 0x8000_0000 ==> f.totalBuckets == 0x2000_0000
    ensures f.Snapshot() == State(0, EmptyTable(f.totalBuckets, DefaultBucketSize))
  {
    var n := NextPowerOf2(count);
    QuarterOfPowerOf2(n);
    f := new Filter(n / DefaultBucketSize as U32, DefaultBucketSize, hash, DefaultMaxKicks);
  }
}
