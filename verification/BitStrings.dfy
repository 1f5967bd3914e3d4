/**
 Bit strings, most significant bit first, and their packing into octets.  This is
 the common meaning of the two bit writers and of the bit reader.
 */
module BitStrings {

  type BitString = seq<bool>

  /** One byte of a blob, as an unsigned value. */
  type Octet = x: int | 0 <= x < 256

  function Pow2(n: nat): (p: int)
    ensures p >= 1
  {
    if n == 0 then 1 else 2 * Pow2(n - 1)
  }

  /** The `n` low bits of `v`, most significant first. */
  function ToBits(v: int, n: nat): (s: BitString)
    requires 0 <= v < Pow2(n)
    ensures |s| == n
  {
    if n == 0 then [] else ToBits(v / 2, n - 1) + [v % 2 == 1]
  }

  function FromBits(s: BitString): (v: nat)
    ensures v < Pow2(|s|)
  {
    if s == [] then 0 else 2 * FromBits(s[..|s| - 1]) + (if s[|s| - 1] then 1 else 0)
  }

  lemma {:induction false} FromBitsToBits(v: int, n: nat)
    requires 0 <= v < Pow2(n)
    ensures FromBits(ToBits(v, n)) == v
  {
    if n == 0 {
    } else {
      FromBitsToBits(v / 2, n - 1);
      assert ToBits(v, n)[..n - 1] == ToBits(v / 2, n - 1);
    }
  }

  lemma {:induction false} ToBitsFromBits(s: BitString)
    ensures ToBits(FromBits(s), |s|) == s
  {
    if s == [] {
    } else {
      ToBitsFromBits(s[..|s| - 1]);
      assert s == s[..|s| - 1] + [s[|s| - 1]];
    }
  }

  lemma {:induction false} HalfOfQuotient(v: int, k: nat)
    requires 0 <= v
    ensures v / Pow2(k) / 2 == v / Pow2(k + 1)
  {
    var p := Pow2(k);
    var q, r := v / p, v % p;
    assert v == p * q + r;
    var h, b := q / 2, q % 2;
    assert q == 2 * h + b;
    assert v == (2 * p) * h + (p * b + r) by {
      assert p * q == p * (2 * h + b) == 2 * p * h + p * b;
    }
    assert 0 <= p * b + r < 2 * p;
    QuotientUnique(v, 2 * p, h, p * b + r);
  }

  lemma QuotientUnique(v: int, d: int, q: int, r: int)
    requires d > 0 && v == d * q + r && 0 <= r < d
    ensures v / d == q && v % d == r
  {
    var q', r' := v / d, v % d;
    assert v == d * q' + r' && 0 <= r' < d;
    var e := q - q';
    assert d * e == r' - r by {
      assert d * e == d * q - d * q';
    }
    ProductBounds(d, e);
  }

  lemma ProductBounds(d: int, e: int)
    requires d > 0
    ensures e > 0 ==> d * e >= d
    ensures e < 0 ==> d * e <= -d
  {
    if e > 0 {
      PositiveProduct(d, e);
    } else if e < 0 {
      PositiveProduct(d, -e);
    }
  }

  lemma {:induction false} PositiveProduct(d: int, e: int)
    requires d > 0 && e > 0
    ensures d * e >= d && d * -e <= -d
    decreases e
  {
    if e > 1 {
      PositiveProduct(d, e - 1);
      assert d * e == d * (e - 1) + d;
      assert d * -e == d * -(e - 1) - d;
    }
  }

  lemma {:induction false} QuotientInRange(v: int, n: nat, k: nat)
    requires 0 <= v < Pow2(n) && k <= n
    ensures 0 <= v / Pow2(k) < Pow2(n - k)
    decreases k
  {
    if k == 0 {
    } else {
      QuotientInRange(v, n, k - 1);
      HalfOfQuotient(v, k - 1);
    }
  }

  /** Bit `j` of the string is the arithmetic shift-and-mask of the value. */
  lemma {:induction false} BitOfValue(v: int, n: nat, j: nat)
    requires 0 <= v < Pow2(n) && j < n
    ensures ToBits(v, n)[j] <==> (v / Pow2(n - 1 - j)) % 2 == 1
  {
    if j < n - 1 {
      BitOfValue(v / 2, n - 1, j);
      HalfTwice(v, n - 2 - j);
    }
  }

  lemma {:induction false} HalfTwice(v: int, k: nat)
    requires 0 <= v
    ensures v / 2 / Pow2(k) == v / Pow2(k + 1)
  {
    if k == 0 {
    } else {
      HalfTwice(v, k - 1);
      HalfOfQuotient(v / 2, k - 1);
      HalfOfQuotient(v, k);
    }
  }

  // ------------------------------------------------------------------ octets

  function OctetBits(b: Octet): (s: BitString)
    ensures |s| == 8
  {
    assert Pow2(8) == 256;
    ToBits(b, 8)
  }

  function OctetOf(s: BitString): (b: Octet)
    requires |s| == 8
    ensures OctetBits(b) == s
  {
    assert Pow2(8) == 256;
    ToBitsFromBits(s);
    FromBits(s)
  }

  /** Bitwise disjunction of two bytes. */
  function Or(a: Octet, b: Octet): (c: Octet)
  {
    OctetOf(seq(8, i requires 0 <= i < 8 => OctetBits(a)[i] || OctetBits(b)[i]))
  }

  lemma OctetsEqual(a: Octet, b: Octet)
    requires OctetBits(a) == OctetBits(b)
    ensures a == b
  {
    assert Pow2(8) == 256;
    FromBitsToBits(a, 8);
    FromBitsToBits(b, 8);
  }

  /** `0x80 ushr k`. */
  function Mask(k: nat): (m: Octet)
    requires k < 8
  {
    DivisorsOf128(k);
    128 / Pow2(k)
  }

  lemma DivisorsOf128(k: nat)
    requires k < 8
    ensures Pow2(k) * Pow2(7 - k) == 128
    ensures 128 / Pow2(k) == Pow2(7 - k) <= 128
  {
    assert Pow2(1) == 2 && Pow2(2) == 4 && Pow2(3) == 8 && Pow2(4) == 16;
    assert Pow2(5) == 32 && Pow2(6) == 64 && Pow2(7) == 128;
    assert k == 0 || k == 1 || k == 2 || k == 3 || k == 4 || k == 5 || k == 6 || k == 7;
  }

  /** The only set bit of `Mask(k)` is bit `k`, counted from the top. */
  lemma MaskBits(k: nat, j: nat)
    requires k < 8 && j < 8
    ensures OctetBits(Mask(k))[j] <==> j == k
  {
    DivisorsOf128(k);
    assert Pow2(8) == 256;
    OneHot(8, 7 - k, j);
  }

  lemma {:induction false} OneHot(n: nat, i: nat, j: nat)
    requires i < n && j < n
    ensures 0 <= Pow2(i) < Pow2(n)
    ensures ToBits(Pow2(i), n)[j] <==> j == n - 1 - i
  {
    Pow2Monotone(i, n);
    if i == 0 {
      ZeroBits(n - 1);
    } else {
      assert Pow2(i) / 2 == Pow2(i - 1) && Pow2(i) % 2 == 0;
      if j < n - 1 {
        OneHot(n - 1, i - 1, j);
      }
    }
  }

  lemma {:induction false} Pow2Monotone(i: nat, n: nat)
    requires i < n
    ensures 2 * Pow2(i) <= Pow2(n)
    decreases n
  {
    if i < n - 1 {
      Pow2Monotone(i, n - 1);
    }
  }

  lemma {:induction false} ZeroBits(n: nat)
    ensures forall j :: 0 <= j < n ==> !ToBits(0, n)[j]
  {
    if n == 0 {
    } else {
      ZeroBits(n - 1);
    }
  }

  // ------------------------------------------------------------------- bytes

  /** Bit `i` of a byte string: bit `i % 8`, from the top, of byte `i / 8`. */
  function BitOf(bytes: seq<Octet>, i: int): bool
    requires 0 <= i < 8 * |bytes|
  {
    OctetBits(bytes[i / 8])[i % 8]
  }

  function Unpack(bytes: seq<Octet>): (s: BitString)
    ensures |s| == 8 * |bytes|
    ensures forall i :: 0 <= i < |s| ==> s[i] == BitOf(bytes, i)
  {
    seq(8 * |bytes|, i requires 0 <= i < 8 * |bytes| => BitOf(bytes, i))
  }

  function BytesFor(bits: nat): nat
  {
    (bits + 7) / 8
  }

  function BitOrZero(s: BitString, i: nat): bool
  {
    i < |s| && s[i]
  }

  /** The bytes of a completed blob: the bits, zero-padded once to a byte boundary. */
  function Pack(s: BitString): (bytes: seq<Octet>)
    ensures |bytes| == BytesFor(|s|)
    ensures forall i :: 0 <= i < 8 * |bytes| ==> BitOf(bytes, i) == BitOrZero(s, i)
  {
    var bytes := seq(BytesFor(|s|), k requires 0 <= k < BytesFor(|s|) =>
                     OctetOf(seq(8, j requires 0 <= j < 8 => BitOrZero(s, 8 * k + j))));
    assert forall i :: 0 <= i < 8 * |bytes| ==> BitOf(bytes, i) == BitOrZero(s, i) by {
      forall i | 0 <= i < 8 * |bytes| ensures BitOf(bytes, i) == BitOrZero(s, i) {
        var k, j := i / 8, i % 8;
        assert bytes[k] == OctetOf(seq(8, j' requires 0 <= j' < 8 => BitOrZero(s, 8 * k + j')));
        assert i == 8 * k + j;
      }
    }
    bytes
  }

  lemma BytesEqual(a: seq<Octet>, b: seq<Octet>)
    requires |a| == |b|
    requires forall i :: 0 <= i < 8 * |a| ==> BitOf(a, i) == BitOf(b, i)
    ensures a == b
  {
    forall k | 0 <= k < |a| ensures a[k] == b[k] {
      forall j | 0 <= j < 8 ensures OctetBits(a[k])[j] == OctetBits(b[k])[j] {
        assert BitOf(a, 8 * k + j) == BitOf(b, 8 * k + j);
        assert (8 * k + j) / 8 == k && (8 * k + j) % 8 == j;
      }
      OctetsEqual(a[k], b[k]);
    }
  }

  /** True when `pad` is what follows a complete message: less than a byte, all zero. */
  predicate IsPadding(pad: BitString)
  {
    |pad| < 8 && forall i :: 0 <= i < |pad| ==> !pad[i]
  }

  lemma PackedIsPadded(s: BitString)
    ensures s <= Unpack(Pack(s)) && IsPadding(Unpack(Pack(s))[|s|..])
  {
    var u := Unpack(Pack(s));
    assert forall i :: 0 <= i < |u| ==> u[i] == BitOf(Pack(s), i) == BitOrZero(s, i);
  }

  lemma PaddedIsPacked(bytes: seq<Octet>, s: BitString)
    requires s <= Unpack(bytes) && IsPadding(Unpack(bytes)[|s|..])
    ensures bytes == Pack(s)
  {
    var u := Unpack(bytes);
    assert |bytes| == BytesFor(|s|) by {
      assert |u[|s|..]| == 8 * |bytes| - |s|;
    }
    forall i | 0 <= i < 8 * |bytes| ensures BitOf(bytes, i) == BitOf(Pack(s), i) {
      assert u[i] == BitOf(bytes, i);
      assert i >= |s| ==> u[i] == u[|s|..][i - |s|];
    }
    BytesEqual(bytes, Pack(s));
  }

  // ------------------------------------------------ prefix form of a bit field

  /** A field of `w` bits holding `v`, followed by `rest`. */
  function Put(v: int, w: nat, rest: BitString): (s: BitString)
    requires 0 <= v < Pow2(w)
    ensures |s| == w + |rest|
  {
    ToBits(v, w) + rest
  }

  /** Two's complement of `v` in `w` bits. */
  function Complement(v: int, w: nat): (u: nat)
    requires w > 0 && -Pow2(w - 1) <= v < Pow2(w - 1)
    ensures u < Pow2(w)
  {
    if v < 0 then v + Pow2(w) else v
  }

  /** The signed reading of `w` raw bits. */
  function SignExtend(u: nat, w: nat): (v: int)
    requires w > 0 && u < Pow2(w)
    ensures -Pow2(w - 1) <= v < Pow2(w - 1)
    ensures Complement(v, w) == u
  {
    if u >= Pow2(w - 1) then u - Pow2(w) else u
  }
}
