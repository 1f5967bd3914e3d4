/**
 The bit-level input and output of both implementations: the phone's writer, which
 sets bits in a growing byte buffer; the phone's cursor reader; and the server's
 writer, which keeps a list of bits.  All three are specified by bit strings.
 */
module BitIo {
  import opened BitStrings
  import opened Results

  ghost predicate IsLong(value: int) {
    0 - Pow2(63) <= value < Pow2(63)
  }

  predicate Fits(value: int, bits: nat) {
    0 <= value < Pow2(bits)
  }

  predicate FitsSigned(value: int, bits: nat)
    requires bits > 0
  {
    0 - Pow2(bits - 1) <= value < Pow2(bits - 1)
  }

  /** The 64-bit pattern of a signed long, as an unsigned number. */
  function Unsigned64(value: int): int {
    if value < 0 then value + Pow2(64) else value
  }

  /** Setting one bit of a byte string leaves every other bit alone. */
  lemma SetOneBit(bytes: seq<Octet>, p: nat, i: nat)
    requires p < 8 * |bytes| && i < 8 * |bytes|
    ensures BitOf(bytes[p / 8 := Or(bytes[p / 8], Mask(p % 8))], i) <==> BitOf(bytes, i) || i == p
  {
    MaskBits(p % 8, i % 8);
  }

  /** Writing `bit` just past `p` bits that are followed by zeros only. */
  lemma AppendOneBit(was: seq<Octet>, now: seq<Octet>, p: nat, bit: bool)
    requires p < 8 * |was|
    requires forall i :: p <= i < 8 * |was| ==> !BitOf(was, i)
    requires now == if bit then was[p / 8 := Or(was[p / 8], Mask(p % 8))] else was
    ensures Unpack(now)[..p + 1] == Unpack(was)[..p] + [bit]
    ensures forall i :: p + 1 <= i < 8 * |now| ==> !BitOf(now, i)
  {
    forall i | 0 <= i < 8 * |now|
      ensures BitOf(now, i) <==> BitOf(was, i) || (bit && i == p)
    {
      SetOneBit(was, p, i);
    }
  }

  /** `(value ushr i) and 1`. */
  function BitAt(u: nat, i: nat): (bit: int)
    ensures bit == 0 || bit == 1
  {
    (u / Pow2(i)) % 2
  }

  /** The bits of a field above position `i`: those written when round `i` is reached. */
  function TopBits(u: nat, bits: nat, i: nat): (s: BitString)
    requires Fits(u, bits) && i <= bits
    ensures |s| == bits - i
  {
    QuotientInRange(u, bits, i);
    ToBits(u / Pow2(i), bits - i)
  }

  lemma TopBitsEnds(u: nat, bits: nat)
    requires Fits(u, bits)
    ensures TopBits(u, bits, bits) == [] && TopBits(u, bits, 0) == ToBits(u, bits)
  {
  }

  lemma TopBitsNext(u: nat, bits: nat, i: nat)
    requires Fits(u, bits) && i < bits
    ensures TopBits(u, bits, i) == TopBits(u, bits, i + 1) + [BitAt(u, i) == 1]
  {
    QuotientInRange(u, bits, i);
    HalfOfQuotient(u, i);
  }

  class BitWriter {
    var buf: array<Octet>
    var bitPos: nat
    ghost var Repr: set<object>

    /** Bits past the cursor are zero, so setting a bit never has to clear one. */
    ghost predicate Valid()
      reads this, Repr
      ensures Valid() ==> this in Repr && buf in Repr
    {
      && Repr == {this, buf}
      && bitPos <= 8 * buf.Length
      && forall i :: bitPos <= i < 8 * buf.Length ==> !BitOf(buf[..], i)
    }

    ghost function Contents(): (s: BitString)
      requires Valid()
      reads this, Repr
      ensures |s| == bitPos
    {
      Unpack(buf[..])[..bitPos]
    }

    constructor (initialBytes: nat := 32)
      ensures Valid() && fresh(Repr)
      ensures Contents() == []
    {
      buf := new Octet[initialBytes](_ => 0);
      bitPos := 0;
      new;
      Repr := {this, buf};
      assert Pow2(8) == 256;
      ZeroBits(8);
    }

    method Ensure(bitsNeeded: nat)
      requires Valid()
      modifies Repr
      ensures Valid() && fresh(Repr - old(Repr)) && bitPos == old(bitPos)
      ensures bitsNeeded <= 8 * buf.Length
      ensures Contents() == old(Contents())
    {
      var bytesNeeded := (bitsNeeded + 7) / 8;
      if bytesNeeded > buf.Length {
        var size := if bytesNeeded >= buf.Length * 2 then bytesNeeded else buf.Length * 2;
        var was := buf;
        var grown := new Octet[size](i requires 0 <= i < size reads was =>
                                     if i < was.Length then was[i] else 0);
        assert Pow2(8) == 256;
        ZeroBits(8);
        buf := grown;
        Repr := {this, buf};
        assert forall i :: 0 <= i < 8 * was.Length ==> BitOf(grown[..], i) == BitOf(was[..], i);
      }
    }

    /** One round of the writing loop: sets the next bit if it is one, and advances. */
    method PutBit(bit: bool)
      requires Valid() && bitPos < 8 * buf.Length
      modifies Repr
      ensures Valid() && buf == old(buf) && Repr == old(Repr) && bitPos == old(bitPos) + 1
      ensures Contents() == old(Contents()) + [bit]
    {
      ghost var was := buf[..];
      if bit {
        buf[bitPos / 8] := Or(buf[bitPos / 8], Mask(bitPos % 8));
      }
      AppendOneBit(was, buf[..], bitPos, bit);
      bitPos := bitPos + 1;
    }

    /** Appends the low `bits` bits of `value`, or refuses a value that does not fit. */
    method Write(value: int, bits: nat) returns (r: Result<()>)
      requires Valid()
      requires 1 <= bits <= 64
      requires bits == 64 ==> IsLong(value)
      modifies Repr
      ensures Valid() && fresh(Repr - old(Repr))
      ensures r == if bits == 64 || Fits(value, bits) then Ok(()) else Err(Encoding)
      ensures r.Ok? ==> Fits(Unsigned64(value), bits)
      ensures r.Ok? ==> Contents() == old(Contents()) + ToBits(Unsigned64(value), bits)
      ensures r.Err? ==> Contents() == old(Contents())
    {
      if bits < 64 {
        var max := Pow2(bits) - 1;
        if value < 0 || value > max {
          return Err(Encoding);
        }
      }
      var u := Unsigned64(value);
      Ensure(bitPos + bits);
      WriteBits(u, bits);
      r := Ok(());
    }

    /** The writing loop: one bit a round, from the top. */
    method WriteBits(u: nat, bits: nat)
      requires Valid() && Fits(u, bits) && bitPos + bits <= 8 * buf.Length
      modifies Repr
      ensures Valid() && Repr == old(Repr)
      ensures Contents() == old(Contents()) + ToBits(u, bits)
    {
      hide ToBits, Pow2, BitOf, Unpack, Contents, TopBits, BitAt;
      ghost var before := Contents();
      TopBitsEnds(u, bits);
      for i := bits downto 0
        invariant Valid() && buf == old(buf) && Repr == old(Repr)
        invariant bitPos == |before| + (bits - i)
        invariant Contents() == before + TopBits(u, bits, i)
      {
        TopBitsNext(u, bits, i);
        PutBit(BitAt(u, i) == 1);
      }
    }

    /** `Write` on a value that a validator has passed: it is never refused. */
    method WriteFitting(value: int, bits: nat)
      requires Valid()
      requires 1 <= bits < 64 && Fits(value, bits)
      modifies Repr
      ensures Valid() && fresh(Repr - old(Repr))
      ensures Contents() == old(Contents()) + ToBits(value, bits)
    {
      var _ := Write(value, bits);
    }

    /** Appends a two's-complement value. */
    method WriteSigned(value: int, bits: nat) returns (r: Result<()>)
      requires Valid()
      requires 1 <= bits <= 32
      modifies Repr
      ensures Valid() && fresh(Repr - old(Repr))
      ensures r == if FitsSigned(value, bits) then Ok(()) else Err(Encoding)
      ensures r.Ok? ==> Contents() == old(Contents()) + ToBits(Complement(value, bits), bits)
      ensures r.Err? ==> Contents() == old(Contents())
    {
      var min := 0 - Pow2(bits - 1);
      var max := Pow2(bits - 1) - 1;
      if value < min || value > max {
        return Err(Encoding);
      }
      LowBits(value, bits);
      r := Write(value % Pow2(bits), bits);
    }

    /** The completed blob, zero-padded to a byte boundary. */
    method ToByteArray() returns (bytes: seq<Octet>)
      requires Valid()
      ensures bytes == Pack(Contents())
    {
      bytes := buf[..(bitPos + 7) / 8];
      forall i | 0 <= i < 8 * |bytes|
        ensures BitOf(bytes, i) == BitOf(Pack(Contents()), i)
      {
        assert BitOf(bytes, i) == BitOf(buf[..], i);
        assert i < bitPos ==> Contents()[i] == BitOf(buf[..], i);
      }
      BytesEqual(bytes, Pack(Contents()));
    }
  }

  /** Masking a signed value to its low bits gives its two's complement. */
  lemma LowBits(value: int, bits: nat)
    requires bits > 0 && FitsSigned(value, bits)
    ensures value % Pow2(bits) == Complement(value, bits)
  {
    var d := Pow2(bits);
    assert d == 2 * Pow2(bits - 1);
    if value < 0 {
      QuotientUnique(value, d, -1, value + d);
    } else {
      QuotientUnique(value, d, 0, value);
    }
  }

  /** The top bit of a raw field is its sign. */
  lemma SignBit(raw: nat, bits: nat)
    requires bits > 0 && Fits(raw, bits)
    ensures (raw / Pow2(bits - 1)) % 2 == 1 <==> raw >= Pow2(bits - 1)
  {
    var s := Pow2(bits - 1);
    if raw >= s {
      QuotientUnique(raw, s, 1, raw - s);
    } else {
      QuotientUnique(raw, s, 0, raw);
    }
  }

  /** Shifting and masking a byte gives the addressed bit. */
  lemma BitRead(bytes: seq<Octet>, p: nat)
    requires p < 8 * |bytes|
    ensures (bytes[p / 8] / Pow2(7 - p % 8)) % 2 == if BitOf(bytes, p) then 1 else 0
  {
    assert Pow2(8) == 256;
    BitOfValue(bytes[p / 8], 8, p % 8);
  }

  lemma FromNoBits()
    ensures FromBits([]) == 0
  {
  }

  lemma ShortFieldIsUnsigned(v: int, bits: nat)
    requires bits < 64 && Fits(v, bits)
    ensures SignedLong(v) == v
  {
    Pow2Monotone(bits, 64);
  }

  lemma FromBitsNext(s: BitString, n: nat)
    requires n < |s|
    ensures FromBits(s[..n + 1]) == 2 * FromBits(s[..n]) + (if s[n] then 1 else 0)
  {
    assert s[..n + 1][..n] == s[..n];
  }

  class BitReader {
    const buf: seq<Octet>
    var bitPos: nat

    ghost predicate Valid()
      reads this
    {
      bitPos <= 8 * |buf|
    }

    /** The bits not read yet. */
    ghost function Remaining(): (s: BitString)
      requires Valid()
      reads this
    {
      Unpack(buf)[bitPos..]
    }

    constructor (buf: seq<Octet>)
      ensures Valid() && this.buf == buf
      ensures Remaining() == Unpack(buf)
    {
      this.buf := buf;
      bitPos := 0;
    }

    /** Reads an unsigned field; a 64-bit field comes back as a signed long. */
    method Read(bits: nat) returns (r: Result<int>)
      requires Valid()
      requires 1 <= bits <= 64
      modifies this
      ensures Valid()
      ensures r.Ok? <==> bits <= |old(Remaining())|
      ensures r.Err? ==> r.error == Decoding && Remaining() == old(Remaining())
      ensures bitPos == old(bitPos) + (if r.Ok? then bits else 0)
      ensures r.Ok? ==> Remaining() == old(Remaining())[bits..]
      ensures r.Ok? ==> r.value == SignedLong(FromBits(old(Remaining())[..bits]))
      ensures r.Ok? && bits < 64 ==> r.value == FromBits(old(Remaining())[..bits])
    {
      hide FromBits, SignedLong, BitOf, Pow2;
      if bits > |buf| * 8 - bitPos {
        return Err(Decoding);
      }
      ghost var before := Remaining();
      ghost var start := bitPos;
      var v := 0;
      FromNoBits();
      assert before[..0] == [];
      for n := 0 to bits
        invariant bitPos == start + n <= 8 * |buf|
        invariant v == FromBits(before[..n])
      {
        var bit := (buf[bitPos / 8] / Pow2(7 - bitPos % 8)) % 2;
        BitRead(buf, bitPos);
        assert before[n] == BitOf(buf, bitPos);
        v := 2 * v + bit;
        FromBitsNext(before, n);
        bitPos := bitPos + 1;
      }
      if bits < 64 {
        ShortFieldIsUnsigned(v, bits);
      }
      r := Ok(SignedLong(v));
    }

    /** `Read`, narrowed to a 32-bit integer; up to 31 bits that changes nothing. */
    method ReadInt(bits: nat) returns (r: Result<int>)
      requires Valid()
      requires 1 <= bits <= 64
      modifies this
      ensures Valid()
      ensures r.Ok? <==> bits <= |old(Remaining())|
      ensures r.Err? ==> r.error == Decoding && Remaining() == old(Remaining())
      ensures r.Ok? ==> Remaining() == old(Remaining())[bits..]
      ensures r.Ok? ==> r.value == Narrow(SignedLong(FromBits(old(Remaining())[..bits])))
      ensures r.Ok? && bits <= 31 ==> r.value == FromBits(old(Remaining())[..bits])
    {
      var v :- Read(bits);
      if bits <= 31 {
        NarrowField(v, bits);
      }
      r := Ok(Narrow(v));
    }

    /** Reads a two's-complement field. */
    method ReadSigned(bits: nat) returns (r: Result<int>)
      requires Valid()
      requires 1 <= bits <= 32
      modifies this
      ensures Valid()
      ensures r.Ok? <==> bits <= |old(Remaining())|
      ensures r.Err? ==> r.error == Decoding && Remaining() == old(Remaining())
      ensures r.Ok? ==> Remaining() == old(Remaining())[bits..]
      ensures r.Ok? ==> r.value == SignExtend(FromBits(old(Remaining())[..bits]), bits)
    {
      var raw :- Read(bits);
      var signBit := Pow2(bits - 1);
      SignBit(raw, bits);
      if (raw / signBit) % 2 == 1 {
        r := Ok(raw - Pow2(bits));
      } else {
        r := Ok(raw);
      }
    }

    /** Accepts exactly a remainder that is padding. */
    method RequireOnlyZeroPaddingLeft() returns (r: Result<()>)
      requires Valid()
      modifies this
      ensures Valid()
      ensures r == if IsPadding(old(Remaining())) then Ok(()) else Err(Decoding)
    {
      if |buf| * 8 - bitPos >= 8 {
        return Err(Decoding);
      }
      ghost var before := Remaining();
      ghost var start := bitPos;
      while |buf| * 8 - bitPos > 0
        invariant Valid() && start <= bitPos
        invariant forall i :: 0 <= i < bitPos - start ==> !before[i]
        decreases |buf| * 8 - bitPos
      {
        var at := bitPos;
        assert Remaining()[..1] == [before[at - start]];
        var next := Read(1);
        var bit := next.value;
        assert FromBits([before[at - start]]) == if before[at - start] then 1 else 0;
        if bit != 0 {
          return Err(Decoding);
        }
      }
      r := Ok(());
    }
  }

  /** A 64-bit pattern as a signed long. */
  function SignedLong(u: nat): int {
    if u >= Pow2(63) then u - Pow2(64) else u
  }

  lemma NarrowField(v: int, bits: nat)
    requires bits <= 31 && Fits(v, bits)
    ensures Narrow(v) == v
  {
    if bits < 31 {
      Pow2Monotone(bits, 31);
    }
    QuotientUnique(v + Pow2(31), Pow2(32), 0, v + Pow2(31));
  }

  /** `toInt()`: the low 32 bits, as a signed value. */
  function Narrow(v: int): int {
    (v + Pow2(31)) % Pow2(32) - Pow2(31)
  }

  /** The server's writer: a list of bits. */
  class ListBitWriter {
    var bitList: seq<int>

    ghost predicate Valid()
      reads this
    {
      forall i :: 0 <= i < |bitList| ==> bitList[i] == 0 || bitList[i] == 1
    }

    ghost function Contents(): (s: BitString)
      reads this
      ensures |s| == |bitList|
    {
      seq(|bitList|, i requires 0 <= i < |bitList| reads this => bitList[i] == 1)
    }

    constructor ()
      ensures Valid() && Contents() == []
    {
      bitList := [];
    }

    method Write(value: int, bits: nat) returns (r: Result<()>)
      requires Valid()
      requires bits >= 1
      modifies this
      ensures Valid()
      ensures r == if Fits(value, bits) then Ok(()) else Err(Encoding)
      ensures r.Ok? ==> Contents() == old(Contents()) + ToBits(value, bits)
      ensures r.Err? ==> Contents() == old(Contents())
    {
      hide TopBits, BitAt, ToBits, Pow2;
      var top := Pow2(bits) - 1;
      if value < 0 || value > top {
        return Err(Encoding);
      }
      ghost var before := Contents();
      TopBitsEnds(value, bits);
      for i := bits downto 0
        invariant Valid()
        invariant Contents() == before + TopBits(value, bits, i)
      {
        TopBitsNext(value, bits, i);
        ghost var was := Contents();
        bitList := bitList + [BitAt(value, i)];
        assert Contents() == was + [BitAt(value, i) == 1];
      }
      r := Ok(());
    }

    method WriteSigned(value: int, bits: nat) returns (r: Result<()>)
      requires Valid()
      requires bits >= 1
      modifies this
      ensures Valid()
      ensures r == if FitsSigned(value, bits) then Ok(()) else Err(Encoding)
      ensures r.Ok? ==> Contents() == old(Contents()) + ToBits(Complement(value, bits), bits)
      ensures r.Err? ==> Contents() == old(Contents())
    {
      var low, high := 0 - Pow2(bits - 1), Pow2(bits - 1) - 1;
      if value < low || value > high {
        return Err(Encoding);
      }
      LowBits(value, bits);
      r := Write(value % Pow2(bits), bits);
    }

    method ToBytes() returns (bytes: seq<Octet>)
      requires Valid()
      ensures bytes == Pack(Contents())
    {
      var out := new Octet[(|bitList| + 7) / 8](_ => 0);
      assert Pow2(8) == 256;
      ZeroBits(8);
      for i := 0 to |bitList|
        invariant forall k :: 0 <= k < 8 * out.Length ==>
                    BitOf(out[..], k) == (k < i && bitList[k] == 1)
      {
        ghost var was := out[..];
        if bitList[i] != 0 {
          out[i / 8] := Or(out[i / 8], Mask(i % 8));
          forall k: nat | k < 8 * |was|
            ensures BitOf(out[..], k) <==> BitOf(was, k) || k == i
          {
            assert out[..] == was[i / 8 := Or(was[i / 8], Mask(i % 8))];
            SetOneBit(was, i, k);
          }
        }
      }
      bytes := out[..];
      BytesEqual(bytes, Pack(Contents()));
    }
  }
}
