/** A bucket is a fixed-length run of fingerprint slots in which 0 marks an
    empty slot. `addToBucket`, `containsIn` and `deleteFrom` scan it left to
    right; the first two write the slot they stop at in place. */
module Bucket {
  import opened Codec

  /** The lowest slot holding `v`, if any. */
  function FirstIndex(s: seq<Fingerprint>, v: Fingerprint): (r: Option<nat>)
    ensures r.None? <==> v !in s
    ensures r.Some? ==> r.value < |s| && s[r.value] == v
    ensures r.Some? ==> forall i :: 0 <= i < r.value ==> s[i] != v
  {
    if |s| == 0 then None
    else if s[0] == v then Some(0)
    else match FirstIndex(s[1..], v)
      case None => None
      case Some(j) => Some(j + 1)
  }

  /** The bucket after `addToBucket(b, fp)`: `fp` is written into the lowest
      empty slot, and a bucket without an empty slot is left as it is. */
  function Added(s: seq<Fingerprint>, fp: Fingerprint): (r: seq<Fingerprint>)
    ensures |r| == |s|
    ensures Empty !in s ==> r == s
    ensures Empty in s ==> fp in r
    ensures forall j :: 0 <= j < |s| && s[j] == Empty && (forall i :: 0 <= i < j ==> s[i] != Empty) ==> r == s[j := fp]
  {
    match FirstIndex(s, Empty)
    case None => s
    case Some(j) => assert s[j := fp][j] == fp; s[j := fp]
  }

  /** The bucket after `deleteFrom(b, fp)`: the lowest slot holding `fp` is
      emptied, and a bucket without `fp` is left as it is. */
  function Removed(s: seq<Fingerprint>, fp: Fingerprint): (r: seq<Fingerprint>)
    ensures |r| == |s|
    ensures fp !in s ==> r == s
    ensures forall j :: 0 <= j < |s| && s[j] == fp && (forall i :: 0 <= i < j ==> s[i] != fp) ==> r == s[j := Empty]
  {
    match FirstIndex(s, fp)
    case None => s
    case Some(j) => s[j := Empty]
  }

  /** Adding trades one empty slot for `fp`: no fingerprint is lost or made up. */
  lemma AddedSlots(s: seq<Fingerprint>, fp: Fingerprint)
    requires Empty in s
    ensures multiset(Added(s, fp)) + multiset{Empty} == multiset(s) + multiset{fp}
  {
    var j := FirstIndex(s, Empty).value;
    assert Added(s, fp) == s[j := fp];
  }

  /** Removing trades one occurrence of `fp` for an empty slot. */
  lemma RemovedSlots(s: seq<Fingerprint>, fp: Fingerprint)
    requires fp in s
    ensures multiset(Removed(s, fp)) + multiset{fp} == multiset(s) + multiset{Empty}
  {
    var j := FirstIndex(s, fp).value;
    assert Removed(s, fp) == s[j := Empty];
  }

  /** Overwriting one slot trades its old value for the new one. */
  lemma SwapSlot(s: seq<Fingerprint>, k: nat, v: Fingerprint)
    requires k < |s|
    ensures multiset(s[k := v]) + multiset{s[k]} == multiset(s) + multiset{v}
  {
  }

  /** Deleting a fingerprint that was just added to a bucket which did not
      hold it restores the bucket. */
  lemma RemoveAfterAdd(s: seq<Fingerprint>, fp: Fingerprint)
    requires Empty in s && fp != Empty && fp !in s
    ensures Removed(Added(s, fp), fp) == s
  {
    var j := FirstIndex(s, Empty).value;
    var t := s[j := fp];
    assert Added(s, fp) == t;
    assert Removed(t, fp) == t[j := Empty];
    assert t[j := Empty] == s;
  }

  /** `addToBucket`. */
  method AddToBucket(b: array<Fingerprint>, fp: Fingerprint) returns (ok: bool)
    modifies b
    ensures ok <==> Empty in old(b[..])
    ensures b[..] == Added(old(b[..]), fp)
  {
    for j := 0 to b.Length
      invariant b[..] == old(b[..])
      invariant forall i :: 0 <= i < j ==> b[i] != Empty
    {
      if b[j] != Empty {
        continue;
      }
      b[j] := fp;
      return true;
    }
    return false;
  }

  /** `containsIn`. */
  method ContainsIn(b: array<Fingerprint>, fp: Fingerprint) returns (found: bool)
    ensures found <==> fp in b[..]
  {
    for i := 0 to b.Length
      invariant forall k :: 0 <= k < i ==> b[k] != fp
    {
      if b[i] == fp {
        return true;
      }
    }
    return false;
  }

  /** `deleteFrom`. */
  method DeleteFrom(b: array<Fingerprint>, fp: Fingerprint) returns (ok: bool)
    modifies b
    ensures ok <==> fp in old(b[..])
    ensures b[..] == Removed(old(b[..]), fp)
  {
    for i := 0 to b.Length
      invariant b[..] == old(b[..])
      invariant forall k :: 0 <= k < i ==> b[k] != fp
    {
      if b[i] != fp {
        continue;
      }
      b[i] := Empty;
      return true;
    }
    return false;
  }
}
