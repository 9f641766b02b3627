/** Input normalisation, fingerprint and bucket-index derivation ("partial-key
    cuckoo hashing"), and the power-of-two sizing used by the constructors.

    Go's `byte`, `uint16` and `uint32` are the integer ranges below; the one
    bitwise operator the filter uses on them, `^`, is `Xor`. */
module Codec {

  type Byte = x: int | 0 <= x < 0x100
  type U16 = x: int | 0 <= x < 0x1_0000
  type U32 = x: int | 0 <= x < 0x1_0000_0000

  /** A 16-bit fingerprint. The value 0 doubles as the empty-slot marker. */
  type Fingerprint = U16

  /** The pluggable 32-bit hash, seen as a deterministic digest of a byte string. */
  type Hash = seq<Byte> -> U32

  /** The empty-slot marker (`emptyFingerprint`, the zero value of the type). */
  const Empty: Fingerprint := 0

  datatype Option<T> = None | Some(value: T)

  function Zeros(n: nat): (r: seq<Byte>)
    ensures |r| == n && forall i :: 0 <= i < n ==> r[i] == 0
  {
    seq(n, _ => 0)
  }

  /** `check`: an empty item is refused; a one-byte item is left-padded with a
      zero byte; longer items pass through. */
  function Check(x: seq<Byte>): (r: Option<seq<Byte>>)
    ensures r.None? <==> |x| == 0
    ensures r.Some? ==> |r.value| == if |x| < 2 then 2 else |x|
    ensures r.Some? ==> r.value == Zeros(|r.value| - |x|) + x
  {
    if |x| == 0 then None
    else if |x| == 1 then Some([0, x[0]])
    else Some(x)
  }

  /** `InsertUnique` hands an already checked item to `Lookup`, which checks
      it again; checking twice changes nothing. */
  lemma CheckIdempotent(x: seq<Byte>)
    requires Check(x).Some?
    ensures Check(Check(x).value) == Check(x)
  {
  }

  // ---------------------------------------------------------------------
  // Big-endian byte encodings

  /** Big-endian value of four bytes. */
  function Uint32(b: seq<Byte>): int
    requires |b| == 4
  {
    b[0] as int * 0x100_0000 + b[1] as int * 0x1_0000 + b[2] as int * 0x100 + b[3]
  }

  /** `binary.BigEndian.Uint16`: big-endian value of the first two bytes. */
  function Uint16(b: seq<Byte>): (r: Fingerprint)
    requires |b| >= 2
    ensures r / 0x100 == b[0] && r % 0x100 == b[1]
  {
    b[0] as int * 0x100 + b[1]
  }

  /** `binary.BigEndian.PutUint16` into the two-byte scratch buffer. */
  function PutUint16(v: Fingerprint): (r: seq<Byte>)
    ensures |r| == 2 && Uint16(r) == v
  {
    [v / 0x100, v % 0x100]
  }

  lemma Uint16RoundTrip(b: seq<Byte>)
    requires |b| == 2
    ensures PutUint16(Uint16(b)) == b
  {
  }

  /** `hashOf`: the digest of `x` and its four big-endian bytes. */
  function HashOf(hash: Hash, x: seq<Byte>): (r: (U32, seq<Byte>))
    ensures r.0 == hash(x)
    ensures |r.1| == 4 && Uint32(r.1) == r.0
  {
    var h := hash(x);
    var h8 := h / 0x100;
    var h16 := h8 / 0x100;
    var h24 := h16 / 0x100;
    assert h == h8 * 0x100 + h % 0x100;
    assert h8 == h16 * 0x100 + h8 % 0x100;
    assert h16 == h24 * 0x100 + h16 % 0x100;
    (h, [h24, h16 % 0x100, h8 % 0x100, h % 0x100])
  }

  /** `fingerprintOf`: the fingerprint is the big-endian value of the first two
      bytes of `xb`, and `fph` the digest of those two bytes. That digest can be
      recomputed from the fingerprint alone, which is what eviction relies on. */
  function FingerprintOf(hash: Hash, xb: seq<Byte>): (r: (Fingerprint, U32))
    requires |xb| >= 2
    ensures r.0 == Uint16(xb)
    ensures r.1 == hash(PutUint16(r.0))
  {
    Uint16RoundTrip(xb[..2]);
    (Uint16(xb), hash(xb[..2]))
  }

  /** The fingerprint of an item is the high half of the item's digest (not
      the item's own first two bytes). */
  lemma FingerprintIsHighHalf(hash: Hash, x: seq<Byte>)
    ensures FingerprintOf(hash, HashOf(hash, x).1).0 == hash(x) / 0x1_0000
  {
    var h := hash(x);
    var h8 := h / 0x100;
    var h16 := h8 / 0x100;
    assert h16 * 0x100 + h8 % 0x100 == h8;
    assert h == 0x1_0000 * h16 + (0x100 * (h8 % 0x100) + h % 0x100);
    DivModUnique(h, 0x1_0000, h16, 0x100 * (h8 % 0x100) + h % 0x100);
  }

  // ---------------------------------------------------------------------
  // Powers of two and exclusive or

  function Pow2(k: nat): (r: nat)
    ensures r >= 1
  {
    if k == 0 then 1 else 2 * Pow2(k - 1)
  }

  ghost predicate IsPowerOf2(n: int) {
    exists k: nat :: n == Pow2(k)
  }

  /** Go's `^`: bitwise exclusive or of two non-negative integers. */
  function Xor(a: nat, b: nat): (r: nat)
    ensures r <= a + b
    ensures r % 2 == (a + b) % 2
    decreases a + b
  {
    if a == 0 && b == 0 then 0
    else 2 * Xor(a / 2, b / 2) + XorBit(a, b)
  }

  /** The lowest bit of `a ^ b`. */
  function XorBit(a: nat, b: nat): nat {
    if a % 2 == b % 2 then 0 else 1
  }

  lemma XorUnfold(a: nat, b: nat)
    ensures Xor(a, b) == 2 * Xor(a / 2, b / 2) + XorBit(a, b)
  {
  }

  lemma Halves(x: nat, e: nat)
    requires e < 2
    ensures (2 * x + e) / 2 == x && (2 * x + e) % 2 == e
  {
  }

  /** Exclusive or with the same value twice is the identity. */
  lemma {:induction false} XorCancel(a: nat, b: nat)
    ensures Xor(Xor(a, b), b) == a
    decreases a + b
  {
    if a != 0 || b != 0 {
      var x := Xor(a / 2, b / 2);
      var e := XorBit(a, b);
      var c := Xor(a, b);
      assert c == 2 * x + e;
      Halves(x, e);
      XorUnfold(c, b);
      XorCancel(a / 2, b / 2);
      assert XorBit(c, b) == a % 2;
      assert a == 2 * (a / 2) + a % 2;
    }
  }

  /** Exclusive or of two k-bit values is a k-bit value. */
  lemma {:induction false} XorBound(a: nat, b: nat, k: nat)
    requires a < Pow2(k) && b < Pow2(k)
    ensures Xor(a, b) < Pow2(k)
  {
    if k > 0 {
      XorUnfold(a, b);
      XorBound(a / 2, b / 2, k - 1);
    }
  }

  lemma MulAtLeast(d: int, m: int)
    requires d > 0 && m >= 1
    ensures d * m >= d
    decreases m
  {
    if m > 1 {
      MulAtLeast(d, m - 1);
      assert d * m == d * (m - 1) + d;
    }
  }

  /** `d * q + r` with `0 <= r < d` is the Euclidean division of `n` by `d`. */
  lemma DivModUnique(n: int, d: int, q: int, r: int)
    requires d > 0 && 0 <= r < d && n == d * q + r
    ensures n / d == q && n % d == r
  {
    var q', r' := n / d, n % d;
    assert n == d * q' + r';
    assert d * (q - q') == r' - r;
    if q > q' {
      MulAtLeast(d, q - q');
    } else if q < q' {
      MulAtLeast(d, q' - q);
    }
  }

  lemma ModDouble(x: nat, e: nat, p: nat)
    requires p > 0 && e < 2
    ensures (2 * x + e) % (2 * p) == 2 * (x % p) + e
  {
    var q := x / p;
    assert x == p * q + x % p;
    assert 2 * x + e == (2 * p) * q + (2 * (x % p) + e);
    DivModUnique(2 * x + e, 2 * p, q, 2 * (x % p) + e);
  }

  lemma HalfOfMod(a: nat, p: nat)
    requires p > 0
    ensures (a % (2 * p)) / 2 == (a / 2) % p
    ensures (a % (2 * p)) % 2 == a % 2
  {
    var h := a / 2;
    ModDouble(h, a % 2, p);
    assert a == 2 * h + a % 2;
    var m := a % (2 * p);
    assert m == 2 * (h % p) + a % 2;
    Halves(h % p, a % 2);
  }

  /** The low k bits of an exclusive or are the exclusive or of the low k bits. */
  lemma {:induction false} XorMod(a: nat, b: nat, k: nat)
    ensures Xor(a, b) % Pow2(k) == Xor(a % Pow2(k), b % Pow2(k))
  {
    if k > 0 {
      var p := Pow2(k - 1);
      assert Pow2(k) == 2 * p;
      var a', b' := a % (2 * p), b % (2 * p);
      XorUnfold(a, b);
      XorUnfold(a', b');
      XorMod(a / 2, b / 2, k - 1);
      HalfOfMod(a, p);
      HalfOfMod(b, p);
      ModDouble(Xor(a / 2, b / 2), XorBit(a, b), p);
      assert XorBit(a', b') == XorBit(a, b);
    }
  }

  // ---------------------------------------------------------------------
  // Bucket indices

  /** The XOR step shared by `indicesOf` and `replaceItem`: `(i ^ h) % tb`. */
  function AltIndex(i: U32, h: U32, tb: U32): (r: U32)
    requires tb != 0
    ensures r < tb
  {
    Xor(i, h) % tb
  }

  /** `indicesOf`: `i1 = xh % tb`, `i2 = (i1 ^ fph) % tb`. */
  function IndicesOf(xh: U32, fph: U32, tb: U32): (r: (U32, U32))
    requires tb != 0
    ensures r.0 < tb && r.1 < tb
    ensures r.0 == xh % tb
    ensures r.1 == AltIndex(r.0, fph, tb)
  {
    var i1 := xh % tb;
    (i1, AltIndex(i1, fph, tb))
  }

  /** For a power-of-two table, stepping to the alternate bucket twice with the
      same fingerprint digest returns to the starting bucket. */
  lemma AltIndexInvolution(i: U32, h: U32, tb: U32)
    requires IsPowerOf2(tb) && i < tb
    ensures AltIndex(AltIndex(i, h, tb), h, tb) == i
  {
    var k: nat :| tb == Pow2(k);
    var hm := h % tb;
    XorMod(i, h, k);
    ModSmall(i, tb);
    var j := Xor(i, hm);
    XorBound(i, hm, k);
    assert AltIndex(i, h, tb) == j;
    XorMod(j, h, k);
    ModSmall(j, tb);
    XorCancel(i, hm);
  }

  lemma ModSmall(x: nat, d: nat)
    requires x < d
    ensures x % d == x
  {
  }

  /** Either candidate bucket of an item is the alternate of the other. */
  lemma IndicesSymmetric(xh: U32, fph: U32, tb: U32)
    requires IsPowerOf2(tb)
    ensures AltIndex(IndicesOf(xh, fph, tb).1, fph, tb) == IndicesOf(xh, fph, tb).0
  {
    AltIndexInvolution(IndicesOf(xh, fph, tb).0, fph, tb);
  }

  // ---------------------------------------------------------------------
  // Sizing

  /** `nextPowerOf2`: the least power of two that is at least `v` and at
      least 4, capped at 2^31 (`1 << 31`) when `v` exceeds that. */
  method NextPowerOf2(v: U32) returns (n: U32)
    ensures IsPowerOf2(n) && 4 <= n <= 0x8000_0000
    ensures v <= 0x8000_0000 ==> v <= n && (n == 4 || n / 2 < v)
    ensures v > 0x8000_0000 ==> n == 0x8000_0000
  {
    var i: nat := 2;
    n := 0;
    while i < 32
      invariant 2 <= i <= 32
      invariant i > 2 ==> n == Pow2(i - 1) < v
    {
      Pow2Below32(i);
      n := Pow2(i);
      if n >= v {
        break;
      }
      i := i + 1;
    }
    if i == 32 {
      Pow2Below32(31);
    }
  }

  lemma {:induction false} Pow2Monotone(j: nat, k: nat)
    requires j <= k
    ensures Pow2(j) <= Pow2(k)
  {
    if j < k {
      Pow2Monotone(j, k - 1);
    }
  }

  lemma {:induction false} Pow2Add(a: nat, b: nat)
    ensures Pow2(a + b) == Pow2(a) * Pow2(b)
  {
    if b > 0 {
      Pow2Add(a, b - 1);
      assert Pow2(a + b) == 2 * Pow2(a + b - 1);
    }
  }

  lemma Pow2Below32(k: nat)
    requires k < 32
    ensures k >= 2 ==> 4 <= Pow2(k)
    ensures k == 2 ==> Pow2(k) == 4
    ensures Pow2(k) <= 0x8000_0000
    ensures k == 31 ==> Pow2(k) == 0x8000_0000
  {
    assert Pow2(8) == 0x100;
    Pow2Add(8, 8);
    Pow2Add(16, 8);
    Pow2Add(24, 7);
    Pow2Monotone(k, 31);
    if k >= 2 {
      Pow2Monotone(2, k);
    }
  }

  lemma Pow2AtLeast4(k: nat)
    ensures Pow2(k) >= 4 ==> k >= 2
  {
    if k < 2 {
      assert Pow2(k) <= 2;
    }
  }

  /** A power of two of at least 4 is four times a power of two. */
  lemma QuarterOfPowerOf2(n: nat)
    requires IsPowerOf2(n) && n >= 4
    ensures IsPowerOf2(n / 4) && n / 4 * 4 == n && n / 4 >= 1
  {
    var k: nat :| n == Pow2(k);
    Pow2AtLeast4(k);
    Pow2Add(2, k - 2);
    assert Pow2(2) == 4;
    assert n / 4 == Pow2(k - 2);
  }
}
