/** Single bits of a byte and bitmaps of bytes: bit `x` of a map is bit `x % 8` of byte `x / 8`. */
module Bits {
  import opened Bytes

  /** `(b & (1 << k)) != 0`. */
  predicate Bit(b: nat, k: nat)
    decreases k, b
  {
    if k == 0 then b % 2 == 1 else Bit(b / 2, k - 1)
  }

  /** `b | (1 << k)`. */
  function SetBit(b: nat, k: nat): (r: nat)
    decreases k, b
  {
    if k == 0 then 2 * (b / 2) + 1 else 2 * SetBit(b / 2, k - 1) + b % 2
  }

  /** `b & ~(1 << k)`. */
  function ClearBit(b: nat, k: nat): (r: nat)
    decreases k, b
  {
    if k == 0 then 2 * (b / 2) else 2 * ClearBit(b / 2, k - 1) + b % 2
  }

  lemma {:induction false} SetBitBits(b: nat, k: nat, j: nat)
    ensures Bit(SetBit(b, k), j) == (j == k || Bit(b, j))
    decreases k
  {
    if k > 0 && j > 0 {
      SetBitBits(b / 2, k - 1, j - 1);
      assert SetBit(b, k) / 2 == SetBit(b / 2, k - 1);
    }
  }

  lemma {:induction false} ClearBitBits(b: nat, k: nat, j: nat)
    ensures Bit(ClearBit(b, k), j) == (j != k && Bit(b, j))
    decreases k
  {
    if k > 0 && j > 0 {
      ClearBitBits(b / 2, k - 1, j - 1);
      assert ClearBit(b, k) / 2 == ClearBit(b / 2, k - 1);
    }
  }

  /** Bit `k` has weight `2^k`. */
  lemma {:induction false} BitWeight(b: nat, k: nat)
    ensures Bit(b, k) <==> b / Pow2(k) % 2 == 1
    ensures SetBit(b, k) == if Bit(b, k) then b else b + Pow2(k)
    ensures ClearBit(b, k) == if Bit(b, k) then b - Pow2(k) else b
    decreases k
  {
    if k > 0 {
      BitWeight(b / 2, k - 1);
      DivTwice(b, Pow2(k - 1));
    }
  }

  lemma {:induction false} DivTwice(b: nat, p: nat)
    requires p > 0
    ensures b / 2 / p == b / (2 * p)
  {
    var q := b / 2 / p;
    assert q * (2 * p) <= b < (q + 1) * (2 * p);
    QuotientIs(b, 2 * p, q);
  }

  lemma {:induction false} QuotientIs(b: nat, d: nat, q: nat)
    requires d > 0 && q * d <= b < (q + 1) * d
    ensures b / d == q
  {
    var r := b / d;
    assert r < q ==> (r + 1) * d <= q * d;
    assert r > q ==> (q + 1) * d <= r * d;
  }

  /** Numbers that agree on their low `n` bits and have no others are equal. */
  lemma {:induction false} SameBits(a: nat, b: nat, n: nat)
    requires a < Pow2(n) && b < Pow2(n)
    requires forall k :: 0 <= k < n ==> Bit(a, k) == Bit(b, k)
    ensures a == b
    decreases n
  {
    if n > 0 {
      assert Bit(a, 0) == Bit(b, 0);
      forall k | 0 <= k < n - 1 ensures Bit(a / 2, k) == Bit(b / 2, k) {
        assert Bit(a, k + 1) == Bit(b, k + 1);
      }
      SameBits(a / 2, b / 2, n - 1);
    }
  }

  function Pow2(n: nat): (r: nat)
    ensures r > 0
    decreases n
  {
    if n == 0 then 1 else 2 * Pow2(n - 1)
  }

  /** Setting or clearing a bit below `n` keeps an `n`-bit number an `n`-bit number. */
  lemma {:induction false} BitRange(b: nat, k: nat, n: nat)
    requires k < n && b < Pow2(n)
    ensures SetBit(b, k) < Pow2(n) && ClearBit(b, k) < Pow2(n)
    decreases k
  {
    var h, r, p := b / 2, b % 2, Pow2(n - 1);
    HalfRange(b, h, r, p);
    if k > 0 {
      BitRange(h, k - 1, n - 1);
      HalfRange(2 * SetBit(h, k - 1) + r, SetBit(h, k - 1), r, p);
      HalfRange(2 * ClearBit(h, k - 1) + r, ClearBit(h, k - 1), r, p);
    }
  }

  lemma HalfRange(b: nat, h: nat, r: nat, p: nat)
    requires b == 2 * h + r && r < 2
    ensures b < 2 * p <==> h < p
  {
  }

  function SetInByte(b: byte, k: nat): (r: byte)
    requires k < 8
    ensures forall j :: 0 <= j < 8 ==> Bit(r, j) == (j == k || Bit(b, j))
  {
    assert Pow2(8) == 256;
    BitRange(b, k, 8);
    assert forall j :: 0 <= j < 8 ==> Bit(SetBit(b, k), j) == (j == k || Bit(b, j)) by {
      forall j | 0 <= j < 8 ensures Bit(SetBit(b, k), j) == (j == k || Bit(b, j)) { SetBitBits(b, k, j); }
    }
    SetBit(b, k)
  }

  function ClearInByte(b: byte, k: nat): (r: byte)
    requires k < 8
    ensures forall j :: 0 <= j < 8 ==> Bit(r, j) == (j != k && Bit(b, j))
  {
    assert Pow2(8) == 256;
    BitRange(b, k, 8);
    assert forall j :: 0 <= j < 8 ==> Bit(ClearBit(b, k), j) == (j != k && Bit(b, j)) by {
      forall j | 0 <= j < 8 ensures Bit(ClearBit(b, k), j) == (j != k && Bit(b, j)) { ClearBitBits(b, k, j); }
    }
    ClearBit(b, k)
  }

  predicate AllSet(b: nat) { forall k :: 0 <= k < 8 ==> Bit(b, k) }

  predicate NoneSet(b: nat) { forall k :: 0 <= k < 8 ==> !Bit(b, k) }

  /** A byte is 0xFF exactly when all its bits are set, and 0 exactly when none is. */
  lemma {:induction false} FullByte(b: byte)
    ensures b == 255 <==> AllSet(b)
    ensures b == 0 <==> NoneSet(b)
  {
    var ones, none := Pow2(8) - 1, Pow2(0) - 1;
    forall k | 0 <= k < 8 ensures Bit(ones, k) && !Bit(none, k) { OnesBits(8, k); OnesBits(0, k); }
    if AllSet(b) { SameBits(b, ones, 8); }
    if NoneSet(b) { SameBits(b, none, 8); }
  }

  lemma {:induction false} OnesBits(n: nat, k: nat)
    ensures Bit(Pow2(n) - 1, k) == (k < n)
    decreases k
  {
    if n == 0 {
      ZeroBits(k);
    } else {
      assert (Pow2(n) - 1) / 2 == Pow2(n - 1) - 1;
      if k > 0 {
        OnesBits(n - 1, k - 1);
      }
    }
  }

  lemma {:induction false} ZeroBits(k: nat)
    ensures !Bit(0, k)
  {
    if k > 0 {
      ZeroBits(k - 1);
    }
  }

  // ----- bitmaps -----

  predicate BitAt(bm: seq<byte>, x: nat)
    requires x < 8 * |bm|
  {
    Bit(bm[x / 8], x % 8)
  }

  function SetAt(bm: seq<byte>, x: nat): (r: seq<byte>)
    requires x < 8 * |bm|
    ensures |r| == |bm|
    ensures forall y {:trigger BitAt(r, y)} :: 0 <= y < 8 * |bm| ==> BitAt(r, y) == (y == x || BitAt(bm, y))
  {
    bm[x / 8 := SetInByte(bm[x / 8], x % 8)]
  }

  function ClearAt(bm: seq<byte>, x: nat): (r: seq<byte>)
    requires x < 8 * |bm|
    ensures |r| == |bm|
    ensures forall y {:trigger BitAt(r, y)} :: 0 <= y < 8 * |bm| ==> BitAt(r, y) == (y != x && BitAt(bm, y))
  {
    bm[x / 8 := ClearInByte(bm[x / 8], x % 8)]
  }

  /** Bitmaps with the same bits are the same bytes. */
  lemma {:induction false} SameBitmap(a: seq<byte>, b: seq<byte>)
    requires |a| == |b|
    requires forall x {:trigger BitAt(a, x)} :: 0 <= x < 8 * |a| ==> BitAt(a, x) == BitAt(b, x)
    ensures a == b
  {
    assert Pow2(8) == 256;
    forall i | 0 <= i < |a| ensures a[i] == b[i] {
      forall k | 0 <= k < 8 ensures Bit(a[i], k) == Bit(b[i], k) {
        assert BitAt(a, 8 * i + k) == BitAt(b, 8 * i + k);
      }
      SameBits(a[i], b[i], 8);
    }
  }

  /** The number of zero bits among the first `n`. */
  function Zeros(bm: seq<byte>, n: nat): (c: nat)
    requires n <= 8 * |bm|
    ensures c <= n
    decreases n, bm
  {
    if n == 0 then 0 else Zeros(bm, n - 1) + (if BitAt(bm, n - 1) then 0 else 1)
  }

  function Free(bm: seq<byte>): (c: nat) {
    Zeros(bm, 8 * |bm|)
  }

  lemma {:induction false} ZerosSame(a: seq<byte>, b: seq<byte>, n: nat)
    requires |a| == |b| && n <= 8 * |a|
    requires forall x {:trigger BitAt(b, x)} :: 0 <= x < n ==> BitAt(a, x) == BitAt(b, x)
    ensures Zeros(a, n) == Zeros(b, n)
    decreases n
  {
    if n > 0 {
      ZerosSame(a, b, n - 1);
      assert BitAt(a, n - 1) == BitAt(b, n - 1);
    }
  }

  /** Two maps that differ in one bit, zero in `a` and one in `b`, differ by one in their zeros. */
  lemma {:induction false} ZerosDiffer(a: seq<byte>, b: seq<byte>, x: nat, n: nat)
    requires |a| == |b| && x < n <= 8 * |a| && !BitAt(a, x) && BitAt(b, x)
    requires forall y {:trigger BitAt(b, y)} :: 0 <= y < n && y != x ==> BitAt(a, y) == BitAt(b, y)
    ensures Zeros(b, n) == Zeros(a, n) - 1
    decreases n
  {
    if n - 1 == x {
      ZerosSame(a, b, n - 1);
    } else {
      ZerosDiffer(a, b, x, n - 1);
      assert BitAt(a, n - 1) == BitAt(b, n - 1);
    }
  }

  lemma {:induction false} FreeSet(bm: seq<byte>, x: nat)
    requires x < 8 * |bm| && !BitAt(bm, x)
    ensures Free(SetAt(bm, x)) == Free(bm) - 1
  {
    ZerosDiffer(bm, SetAt(bm, x), x, 8 * |bm|);
  }

  lemma {:induction false} FreeClear(bm: seq<byte>, x: nat)
    requires x < 8 * |bm| && BitAt(bm, x)
    ensures Free(ClearAt(bm, x)) == Free(bm) + 1
  {
    ZerosDiffer(ClearAt(bm, x), bm, x, 8 * |bm|);
  }

  /** A map whose zero bits are exactly `[lo, hi)`. */
  lemma {:induction false} ZerosInterval(bm: seq<byte>, lo: nat, hi: nat, n: nat)
    requires lo <= hi && n <= 8 * |bm|
    requires forall x {:trigger BitAt(bm, x)} :: 0 <= x < n ==> BitAt(bm, x) == !(lo <= x < hi)
    ensures Zeros(bm, n) == if n <= lo then 0 else if n <= hi then n - lo else hi - lo
    decreases n
  {
    if n > 0 {
      ZerosInterval(bm, lo, hi, n - 1);
      assert BitAt(bm, n - 1) == !(lo <= n - 1 < hi);
    }
  }

  /** A positive count of zeros means there is one. */
  lemma {:induction false} SomeZero(bm: seq<byte>, n: nat) returns (x: nat)
    requires n <= 8 * |bm| && Zeros(bm, n) > 0
    ensures x < n && !BitAt(bm, x)
    decreases n
  {
    if !BitAt(bm, n - 1) {
      x := n - 1;
    } else {
      x := SomeZero(bm, n - 1);
    }
  }

  /** And the other way round. */
  lemma {:induction false} ZerosPositive(bm: seq<byte>, x: nat, n: nat)
    requires x < n <= 8 * |bm| && !BitAt(bm, x)
    ensures Zeros(bm, n) > 0
    decreases n
  {
    if x < n - 1 {
      ZerosPositive(bm, x, n - 1);
    }
  }

  /** The least zero bit of a byte that is not full. */
  function FirstZero(b: byte): (k: nat)
    requires b != 255
    ensures k < 8 && !Bit(b, k) && forall j :: 0 <= j < k ==> Bit(b, j)
  {
    FullByte(b);
    FirstZeroFrom(b, 0)
  }

  function FirstZeroFrom(b: byte, i: nat): (k: nat)
    requires i < 8 && exists j :: i <= j < 8 && !Bit(b, j)
    ensures i <= k < 8 && !Bit(b, k) && forall j :: i <= j < k ==> Bit(b, j)
    decreases 8 - i
  {
    if !Bit(b, i) then i else FirstZeroFrom(b, i + 1)
  }

  /** The scan `for (k = 0; k < 8 && (b & (1 << k)) != 0; k++);`. */
  method ScanByte(b: byte) returns (k: nat)
    ensures k <= 8 && (k == 8 <==> b == 255)
    ensures b != 255 ==> k == FirstZero(b)
  {
    k := 0;
    while k < 8 && Bit(b, k)
      invariant k <= 8 && forall j :: 0 <= j < k ==> Bit(b, j)
    {
      k := k + 1;
    }
    FullByte(b);
  }
}
