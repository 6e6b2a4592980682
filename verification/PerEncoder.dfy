/** The encoder: a buffer of octets and a cursor (byteIndex, bitOffset), bitOffset counting the bits
    of the current octet that are still free. Every method is proved to append exactly the bits
    that PerSpec gives for it. */
module PerEncoder {
  import opened Bits
  import opened PerSpec
  import opened PerRoundTrip
  import opened Wrappers

  // ---------- one octet ----------

  /** The low o bits of octet x are zero. */
  predicate Clean(x: Byte, o: nat)
    requires o <= 8
  {
    BitsOf(x, 8)[8 - o..] == Zeros(o)
  }

  /** A field of n bits put into an octet whose low o bits are free. */
  lemma FieldOr(x: Byte, o: nat, v: nat, n: nat)
    requires n <= o <= 8 && Clean(x, o) && v < Pow2(n)
    ensures var y := BitOr(x, Shl(v, o - n)); y < 256 && BitsOf(y, 8) == BitsOf(x, 8)[..8 - o] + BitsOf(v, n) + Zeros(o - n)
  {
    hide BitsOf, Shl, Pow2, BitOr;
    var (s, k) := (Shl(v, o - n), o - n);
    ShlBits(v, k, 8 - k);
    HighBits(v, 8 - o, n);
    ShlBelow(v, n, k);
    PowGrows(o, 8);
    OctetBelow(x);
    OrBelow(x, s, 8);
    OctetBelow(BitOr(x, s));
    var (a, b, y) := (BitsOf(x, 8), BitsOf(s, 8), BitsOf(BitOr(x, s), 8));
    forall i | 0 <= i < 8 ensures y[i] == (a[i] || b[i]) { OrBits(x, s, 8, i); }
    MergeBits(a, b, y, o, BitsOf(v, n));
  }

  lemma MergeBits(a: seq<bool>, b: seq<bool>, y: seq<bool>, o: nat, w: seq<bool>)
    requires |w| <= o <= 8 == |a| == |b| == |y| && a[8 - o..] == Zeros(o)
    requires b == Zeros(8 - o) + w + Zeros(o - |w|)
    requires forall i | 0 <= i < 8 :: y[i] == (a[i] || b[i])
    ensures y == a[..8 - o] + w + Zeros(o - |w|)
  {
    forall i | 0 <= i < 8 ensures y[i] == (if i < 8 - o then a[i] else b[i]) {
      if i >= 8 - o { assert a[8 - o..][i - (8 - o)] == Zeros(o)[i - (8 - o)]; }
    }
  }

  // ---------- the buffer ----------

  /** What has been written: whole octets, then the used bits of the current one. */
  ghost function StreamOf(d: seq<Byte>, i: nat, o: nat): (s: seq<bool>)
    requires i < |d| && o <= 8
    ensures |s| == 8 * i + 8 - o
  {
    Flat(d[..i]) + BitsOf(d[i], 8)[..8 - o]
  }

  lemma SameStream(d: seq<Byte>, e: seq<Byte>, i: nat, o: nat)
    requires i < |d| && i < |e| && o <= 8 && d[..i] == e[..i] && (o < 8 ==> d[i] == e[i])
    ensures StreamOf(d, i, o) == StreamOf(e, i, o)
  {}

  lemma PutField(d: seq<Byte>, i: nat, o: nat, v: nat, n: nat)
    requires i < |d| && n <= o <= 8 && Clean(d[i], o) && v < Pow2(n)
    ensures var y := BitOr(d[i], Shl(v, o - n));
            && y < 256
            && StreamOf(d[i := y], i, o - n) == StreamOf(d, i, o) + BitsOf(v, n) && Clean(y, o - n)
  {
    FieldOr(d[i], o, v, n);
    var y := BitOr(d[i], Shl(v, o - n));
    hide BitsOf, Shl, Pow2, BitOr, Flat;
    assert d[i := y][..i] == d[..i];
  }

  lemma NextOctet(d: seq<Byte>, i: nat)
    requires i + 1 < |d|
    ensures StreamOf(d, i + 1, 8) == StreamOf(d, i, 0)
  {
    assert d[..i + 1] == d[..i] + [d[i]];
    FlatAppend(d[..i], [d[i]]);
    FlatOne(d[i]);
  }

  lemma PutOctets(d: seq<Byte>, e: seq<Byte>, i: nat, w: seq<Byte>)
    requires i + |w| < |d| == |e| && e[..i] == d[..i] && e[i..i + |w|] == w
    ensures StreamOf(e, i + |w|, 8) == StreamOf(d, i, 8) + Flat(w)
  {
    hide *;
    var (p, q) := (d[..i], e[..i + |w|]);
    assert q == p + w by { Rejoin(e, i, i + |w|); }
    assert StreamOf(e, i + |w|, 8) == Flat(q) by { StreamOctets(e, i + |w|); }
    assert StreamOf(d, i, 8) == Flat(p) by { StreamOctets(d, i); }
    FlatAppend(p, w);
  }

  lemma Rejoin(e: seq<Byte>, i: nat, j: nat)
    requires i <= j <= |e|
    ensures e[..j] == e[..i] + e[i..j]
  {}

  lemma StreamOctets(d: seq<Byte>, i: nat)
    requires i < |d|
    ensures StreamOf(d, i, 8) == Flat(d[..i])
  {
    hide Flat, BitsOf;
    assert BitsOf(d[i], 8)[..0] == [];
  }

  lemma ZeroClean()
    ensures forall o | 0 <= o <= 8 :: Clean(0, o)
  {
    ZeroBits(8);
    hide BitsOf;
  }

  class Encoder {
    var data: array<Byte>
    var byteIndex: nat
    var bitOffset: int
    var dynamic: bool
    var sizes: seq<Size>

    /** The cursor is inside the buffer, and the unused bits of the octet it is in are zero. */
    ghost predicate Valid() reads this`data, this`byteIndex, this`bitOffset, data {
      0 <= bitOffset <= 8 && byteIndex < data.Length && (bitOffset < 8 ==> Clean(data[byteIndex], bitOffset))
    }

    ghost function Stream(): (s: seq<bool>)
      requires Valid()
      reads this`data, this`byteIndex, this`bitOffset, data
      ensures |s| == 8 * byteIndex + 8 - bitOffset
    {
      StreamOf(data[..], byteIndex, bitOffset)
    }

    /** The outcome of a call that should append e to s0: it does, or it gives e's reason for
        refusing, or the buffer has a fixed size and e does not fit with two octets to spare. */
    ghost predicate Did(stat: Stat, s0: seq<bool>, e: Enc) reads this, data {
      if stat == Ok then Valid() && e.Enc? && Stream() == s0 + e.bits
      else (e.Bad? && stat == e.why) || (stat == BufOvflw && Full(s0, e))
    }

    ghost predicate Full(s0: seq<bool>, e: Enc) reads this {
      !dynamic && (e.Enc? ==> 8 * data.Length <= |s0| + |e.bits| + 16)
    }

    lemma DidMeans(stat: Stat, s0: seq<bool>, e: Enc)
      requires Did(stat, s0, e)
      ensures stat == Ok ==> Valid() && e.Enc? && Stream() == s0 + e.bits
      ensures stat == BufOvflw && e.Enc? ==> !dynamic && 8 * data.Length <= |s0| + |e.bits| + 16
      ensures dynamic && e.Enc? ==> stat == Ok
      ensures e.Bad? ==> stat == e.why || stat == BufOvflw
    {
    }

    /** Without room for two octets behind the cursor nothing fits. */
    lemma NothingFits()
      requires Valid() && !dynamic && byteIndex + 2 >= data.Length
      ensures forall e: Enc :: Full(Stream(), e)
    {
      hide StreamOf;
    }

    /** No size given: a buffer that grows. */
    constructor (size: nat, dynamic: bool)
      requires size > 0
      ensures Valid() && Stream() == [] && this.dynamic == dynamic && sizes == [] && fresh(data)
    {
      data := new Byte[size](_ => 0);
      byteIndex, bitOffset, sizes := 0, 8, [];
      this.dynamic := dynamic;
      new;
      assert data[..0] == [];
    }

    method ExpandBuffer(nbytes: nat) returns (stat: Stat)
      modifies this`data
      ensures stat == if dynamic then Ok else BufOvflw
      ensures stat == Ok ==> fresh(data) && data.Length >= old(data.Length) + nbytes && data[..old(data.Length)] == old(data[..])
      ensures stat != Ok ==> data == old(data)
    {
      if !dynamic { return BufOvflw; }
      var grow := if nbytes < 2048 then 2048 else nbytes;
      var old_ := data;
      data := new Byte[old_.Length + grow](i requires 0 <= i < old_.Length + grow reads old_ => if i < old_.Length then old_[i] else 0);
      assert data[..old_.Length] == old_[..];
      return Ok;
    }

    /** Room for nbytes more octets and the one the cursor will stand in. */
    method CheckBuffer(nbytes: nat) returns (stat: Stat)
      requires Valid()
      modifies this`data
      ensures stat == if dynamic || byteIndex + nbytes + 1 < old(data.Length) then Ok else BufOvflw
      ensures stat == Ok ==> byteIndex + nbytes + 1 < data.Length && (fresh(data) || data == old(data))
      ensures stat == Ok ==> Valid() && Stream() == old(Stream()) && data[byteIndex] == old(data[byteIndex])
      ensures stat != Ok ==> data == old(data)
    {
      stat := Ok;
      if byteIndex + nbytes + 1 >= data.Length {
        stat := ExpandBuffer(nbytes + 1);
        if stat == Ok {
          assert data[..byteIndex] == data[..old(data.Length)][..byteIndex];
          assert data[byteIndex] == data[..old(data.Length)][byteIndex];
          SameStream(old(data[..]), data[..], byteIndex, bitOffset);
        }
      }
    }

    method EncodeBit(value: bool) returns (stat: Stat)
      requires Valid() && (bitOffset == 1 ==> byteIndex + 1 < data.Length)
      modifies this, data
      ensures Did(stat, old(Stream()), Enc([value]))
      ensures dynamic == old(dynamic) && sizes == old(sizes) && (fresh(data) || data == old(data))
      ensures old(bitOffset) > 1 ==> stat == Ok && bitOffset == old(bitOffset) - 1 && byteIndex == old(byteIndex) && data == old(data)
    {
      hide StreamOf, Clean, BitsOf, BitOr, Shl, Flat, Pow2;
      ghost var s0 := Stream();
      ZeroClean();
      if bitOffset == 8 { data[byteIndex] := 0; }
      assert Stream() == s0 by { SameStream(old(data[..]), data[..], byteIndex, bitOffset); }
      bitOffset := bitOffset - 1;
      stat := Ok;
      if bitOffset < 0 {
        stat := CarryOn();
        if stat != Ok { return; }
      }
      SetBit(value);
      if bitOffset == 0 {
        NextByte();
      }
    }

    /** bitOffset was 0: the bit goes into the next octet. */
    method CarryOn() returns (stat: Stat)
      requires bitOffset == -1 && byteIndex < data.Length
      modifies this`byteIndex, this`bitOffset, this`data, data
      ensures (stat == Ok || (stat == BufOvflw && !dynamic && old(byteIndex) + 1 >= data.Length)) && (fresh(data) || data == old(data))
      ensures stat == Ok ==> bitOffset == 7 && byteIndex < data.Length && Clean(data[byteIndex], 8)
      ensures stat == Ok ==> StreamOf(data[..], byteIndex, 8) == StreamOf(old(data[..]), old(byteIndex), 0)
    {
      hide StreamOf, Clean, BitsOf;
      stat := Ok;
      byteIndex := byteIndex + 1;
      if byteIndex >= data.Length {
        stat := ExpandBuffer(1);
        if stat != Ok { return; }
        assert data[..byteIndex] == data[..old(data.Length)][..byteIndex];
      }
      data[byteIndex] := 0;
      bitOffset := 7;
      ZeroClean();
      StartOctet(old(data[..]), data[..], byteIndex);
    }

    /** The bit at bitOffset, which is the highest free one. */
    method SetBit(value: bool)
      requires 0 <= bitOffset <= 7 && byteIndex < data.Length && Clean(data[byteIndex], bitOffset + 1)
      modifies data
      ensures Valid() && Stream() == old(StreamOf(data[..], byteIndex, bitOffset + 1)) + [value]
    {
      ghost var d := data[..];
      PutField(d, byteIndex, bitOffset + 1, if value then 1 else 0, 1) by { OneBit(value, bitOffset); }
      OneBit(value, bitOffset);
      hide StreamOf, Clean, BitsOf, BitOr, Shl, Flat, Pow2;
      if value { data[byteIndex] := BitOr(data[byteIndex], Shl(1, bitOffset)); }
      assert data[..] == d[byteIndex := BitOr(d[byteIndex], Shl(if value then 1 else 0, bitOffset))];
    }

    /** From the end of an octet to the start of the next one. */
    method NextByte()
      requires Valid() && bitOffset == 0 && byteIndex + 1 < data.Length
      modifies this`byteIndex, this`bitOffset, data
      ensures Valid() && Stream() == old(Stream()) && bitOffset == 8 && byteIndex == old(byteIndex) + 1 && data[byteIndex] == 0
    {
      hide StreamOf, Clean, BitsOf;
      bitOffset := 8;
      byteIndex := byteIndex + 1;
      data[byteIndex] := 0;
      StartOctet(old(data[..]), data[..], byteIndex);
    }

    /** The low nbits of value. */
    method EncodeBits(value: U32, nbits: nat) returns (stat: Stat)
      requires Valid() && nbits <= 32 && (bitOffset == 0 ==> nbits < 32)
      modifies this, data
      ensures Did(stat, old(Stream()), Enc(BitsOf(value, nbits)))
      ensures dynamic == old(dynamic) && sizes == old(sizes) && (fresh(data) || data == old(data))
      ensures stat == Ok <==> dynamic || nbits == 0 || nbits < old(bitOffset) || old(byteIndex) + (nbits + 7) / 8 + 1 < old(data.Length)
    {
      hide StreamOf, Clean, BitsOf, BitOr, Shl, Shr, Low, Flat, Pow2;
      if nbits == 0 { return Ok; }
      ZeroClean();
      var v: nat := if nbits < 32 then Low(value, nbits) else value;
      assert v < Pow2(nbits) && BitsOf(v, nbits) == BitsOf(value, nbits) by { Masked(value, nbits); }
      if bitOffset == 8 {
        data[byteIndex] := 0;
        SameStream(old(data[..]), data[..], byteIndex, bitOffset);
      }
      ghost var s0 := Stream();
      if nbits < bitOffset {
        OrField(v, nbits);
        return Ok;
      }
      stat := CheckBuffer((nbits + 7) / 8);
      if stat != Ok { return; }
      BitsAcross(v, nbits);
    }

    /** A field or'ed into the free bits of the current octet. */
    method OrField(v: nat, n: nat)
      requires Valid() && n <= bitOffset && Clean(data[byteIndex], bitOffset) && v < Pow2(n)
      modifies this`bitOffset, data
      ensures Valid() && Stream() == old(Stream()) + BitsOf(v, n) && bitOffset == old(bitOffset) - n
    {
      hide StreamOf, Clean, BitsOf, BitOr, Shl, Pow2;
      PutField(data[..], byteIndex, bitOffset, v, n);
      ghost var d := data[..];
      bitOffset := bitOffset - n;
      data[byteIndex] := BitOr(data[byteIndex], Shl(v, bitOffset)) % 256;
      assert data[..] == d[byteIndex := BitOr(d[byteIndex], Shl(v, bitOffset))];
    }

    /** A whole octet assigned, and the next one started. */
    method PutOctet(x: Byte)
      requires Valid() && bitOffset == 8 && byteIndex + 1 < data.Length
      modifies this`byteIndex, this`bitOffset, data
      ensures Valid() && Stream() == old(Stream()) + BitsOf(x, 8) && bitOffset == 8
      ensures byteIndex == old(byteIndex) + 1 && data[byteIndex] == 0
    {
      hide StreamOf, Clean, BitsOf;
      ghost var d := data[..];
      data[byteIndex] := x;
      AssignOctet(d, byteIndex, x);
      assert data[..] == d[byteIndex := x];
      bitOffset := 0;
      ZeroClean0(x);
      NextByte();
    }

    /** A field that reaches past the current octet. */
    method BitsAcross(v: nat, nbits: nat)
      requires Valid() && Clean(data[byteIndex], bitOffset) && bitOffset <= nbits <= 32 && nbits > 0 && (bitOffset == 0 ==> nbits < 32)
      requires v < Pow2(nbits) && byteIndex + (nbits + 7) / 8 + 1 < data.Length
      modifies this`byteIndex, this`bitOffset, data
      ensures Valid() && Stream() == old(Stream()) + BitsOf(v, nbits)
    {
      hide StreamOf, Clean, BitsOf, BitOr, Shl, Shr, Low, Flat, Pow2;
      ghost var s0 := Stream();
      var n := nbits - bitOffset;
      ShrBelow(v, bitOffset, n);
      OrField(Shr(v, n), bitOffset);
      NextByte();
      while n >= 8
        invariant 0 <= n <= nbits && bitOffset == 8 && byteIndex + n / 8 < data.Length
        invariant Valid() && data[byteIndex] == 0 && Stream() == s0 + BitsOf(Shr(v, n), nbits - n)
      {
        WholeOctet(v, nbits, n);
        n := n - 8;
        OctetBelow(Shr(v, n));
        PutOctet(Shr(v, n) % 256);
      }
      TailBits(v, n);
      BitsSplit(v, nbits - n, n);
    }

    /** What is left of a field, put into an empty octet. */
    method TailBits(v: nat, n: nat)
      requires Valid() && bitOffset == 8 && data[byteIndex] == 0 && n < 8
      modifies this`bitOffset, data
      ensures Valid() && Stream() == old(Stream()) + BitsOf(v, n) && bitOffset == 8 - n
    {
      hide StreamOf, Clean, BitsOf, Shl, Low, Pow2;
      ghost var d := data[..];
      LastBits(d, byteIndex, v, n);
      bitOffset := 8 - n;
      if n > 0 {
        data[byteIndex] := Shl(Low(v, n), bitOffset) % 256;
      } else {
        data[byteIndex] := 0;
      }
      assert data[..] == d[byteIndex := data[byteIndex]];
    }

    /** The nbits high bits of an octet. Nothing checks the buffer: the caller has. */
    method EncodeBitsFromOctet(value: Byte, nbits: nat)
      requires Valid() && nbits <= 8
      requires (if bitOffset == 8 then nbits == 8 else nbits > bitOffset) ==> byteIndex + 1 < data.Length
      modifies this`byteIndex, this`bitOffset, data
      ensures Valid() && Stream() == old(Stream()) + BitsOf(value, 8)[..nbits]
      ensures nbits == 8 ==> bitOffset == old(bitOffset)
      ensures byteIndex <= old(byteIndex) + 1
    {
      hide StreamOf, Clean, BitsOf, BitOr, Shl, Shr, Low, Flat, Pow2;
      if nbits == 0 { return; }
      OctetParts(value, nbits);
      var u: Byte := if nbits < 8 then HighPart(value, nbits) else value;
      var rshift, lshift := 8 - bitOffset, bitOffset;
      if bitOffset == 8 {
        TopBits(data[..], byteIndex, value, u, nbits);
        ghost var d := data[..];
        data[byteIndex] := u;
        assert data[..] == d[byteIndex := u];
        if nbits == 8 {
          bitOffset := 0;
          NextByte();
        } else {
          bitOffset := bitOffset - nbits;
        }
      } else if nbits <= bitOffset {
        OrPart(u, Shr(value, 8 - nbits), nbits, rshift) by { HighFits(value, nbits, rshift); }
      } else {
        ghost var s0 := Stream();
        OrPart(u, Shr(value, rshift), bitOffset, rshift) by { HighSplits(value, nbits, rshift); }
        NextByte();
        assert Stream() == s0 + BitsOf(value, 8)[..lshift] by { Shifted(value, lshift); }
        ghost var d := data[..];
        RestBits(d, byteIndex, value, u, nbits, lshift);
        data[byteIndex] := Shl(u, lshift) % 256;
        assert data[..] == d[byteIndex := data[byteIndex]];
        bitOffset := lshift - nbits + 8;
      }
    }

    /** data |= u >> rshift, where that is the field v of n bits. */
    method OrPart(u: Byte, ghost v: nat, n: nat, rshift: nat)
      requires Valid() && n <= bitOffset < 8 && rshift == 8 - bitOffset && v < Pow2(n)
      requires Shr(u, rshift) == Shl(v, bitOffset - n)
      modifies this`bitOffset, data
      ensures Valid() && Stream() == old(Stream()) + BitsOf(v, n) && bitOffset == old(bitOffset) - n
    {
      hide StreamOf, Clean, BitsOf, BitOr, Shl, Shr, Pow2;
      PutField(data[..], byteIndex, bitOffset, v, n);
      ghost var d := data[..];
      data[byteIndex] := BitOr(data[byteIndex], Shr(u, rshift));
      bitOffset := bitOffset - n;
      assert data[..] == d[byteIndex := data[byteIndex]];
    }

    /** nbits from a run of octets: copied whole on an octet boundary, bit by bit off it. Both ways
        append the same bits. */
    method EncodeOctets(value: seq<Byte>, nbits: nat) returns (stat: Stat)
      requires Valid() && nbits <= 8 * |value|
      modifies this, data
      ensures Did(stat, old(Stream()), Enc(Flat(value)[..nbits]))
      ensures dynamic == old(dynamic) && sizes == old(sizes) && (fresh(data) || data == old(data))
      ensures stat == Ok <==> dynamic || nbits == 0 || old(byteIndex) + nbits / 8 + 2 < old(data.Length)
    {
      hide StreamOf, Clean, BitsOf, Flat;
      ghost var s0 := Stream();
      var full := nbits / 8;
      if nbits == 0 {
        assert s0 + Flat(value)[..0] == s0;
        return Ok;
      }
      stat := CheckBuffer(full + 1);
      if stat != Ok { return; }
      NoOctets(value);
      if full > 0 { WholeOctets(value[..full]); }
      OctetsThenBits(value, full, nbits % 8);
      if nbits % 8 != 0 {
        EncodeBitsFromOctet(value[full], nbits % 8);
      }
    }

    method WholeOctets(w: seq<Byte>)
      requires Valid() && byteIndex + |w| + 1 < data.Length
      modifies this`byteIndex, this`bitOffset, data
      ensures Valid() && Stream() == old(Stream()) + Flat(w) && byteIndex <= old(byteIndex) + |w|
    {
      hide StreamOf, Clean, Flat;
      if bitOffset == 8 {
        CopyOctets(w);
      } else {
        ShiftOctets(w);
      }
    }

    method ShiftOctets(w: seq<Byte>)
      requires Valid() && bitOffset < 8 && byteIndex + |w| + 1 < data.Length
      modifies this`byteIndex, this`bitOffset, data
      ensures Valid() && Stream() == old(Stream()) + Flat(w) && byteIndex <= old(byteIndex) + |w|
    {
      hide StreamOf, Clean, BitsOf, Flat;
      NoOctets(w);
      for i := 0 to |w|
        invariant Valid() && bitOffset < 8 && byteIndex <= old(byteIndex) + i
        invariant Stream() == old(Stream()) + Flat(w[..i])
      {
        NextOf(w, i);
        EncodeBitsFromOctet(w[i], 8);
      }
      assert w[..|w|] == w;
    }

    method CopyOctets(w: seq<Byte>)
      requires Valid() && bitOffset == 8 && byteIndex + |w| < data.Length
      modifies this`byteIndex, data
      ensures Valid() && Stream() == old(Stream()) + Flat(w) && byteIndex == old(byteIndex) + |w|
    {
      hide StreamOf, Clean, BitsOf, Flat;
      var i := byteIndex;
      forall k | 0 <= k < |w| { data[i + k] := w[k]; }
      byteIndex := i + |w|;
      assert data[i..i + |w|] == w;
      PutOctets(old(data[..]), data[..], i, w);
      data[byteIndex] := 0;
      SameOctets(old(data[..]), data[..], i, w);
    }

    method EncodeByteAlign() returns (stat: Stat)
      requires Valid()
      modifies this, data
      ensures Did(stat, old(Stream()), Enc(Pad(|old(Stream())|)))
      ensures stat == Ok ==> bitOffset == 8
      ensures dynamic == old(dynamic) && sizes == old(sizes) && (fresh(data) || data == old(data))
      ensures stat == Ok <==> dynamic || old(bitOffset) == 8 || old(byteIndex) + 1 < old(data.Length)
    {
      hide StreamOf, Clean, BitsOf;
      ghost var s0 := Stream();
      if bitOffset == 8 {
        assert s0 + Pad(|s0|) == s0;
        return Ok;
      }
      stat := Ok;
      if byteIndex + 1 >= data.Length {
        stat := ExpandBuffer(1);
        if stat != Ok { return; }
        assert data[byteIndex] == data[..old(data.Length)][byteIndex];
        SameStream(old(data[..]), data[..], byteIndex, bitOffset);
      }
      PadOctet(data[..], byteIndex, bitOffset);
      bitOffset := 0;
      ZeroClean0(data[byteIndex]);
      NextByte();
    }

    // ---------- whole numbers ----------

    method EncodeNonNegBinInt(value: U32) returns (stat: Stat)
      requires Valid() && (bitOffset == 0 ==> value < 0x100_0000)
      modifies this, data
      ensures Did(stat, old(Stream()), Enc(BitsOf(value, 8 * OctetCount(value))))
      ensures dynamic == old(dynamic) && sizes == old(sizes) && (fresh(data) || data == old(data))
    {
      var bitcnt := if value == 0 then 1 else BitCount(value);
      RoundsUp(value, bitcnt);
      bitcnt := (bitcnt + 7) / 8 * 8;
      stat := EncodeBits(value, bitcnt);
    }

    method EncodeConsWholeNumber(v: U32, range: U32) returns (stat: Stat)
      requires Valid()
      modifies this, data
      ensures Did(stat, old(Stream()), EncWhole(|old(Stream())|, v, range))
      ensures dynamic == old(dynamic) && sizes == old(sizes) && (fresh(data) || data == old(data))
    {
      hide BitsOf, Pad, Encoder.Valid, Encoder.Stream;
      var range_bitcnt := BitCount(Wrap(range - 1));
      if v >= range && range != 0xFFFF_FFFF { return RangErr; }
      if range <= 255 {
        SmallCount(range);
        stat := EncodeBits(v, range_bitcnt);
      } else if range <= 65536 {
        stat := EncodeAligned(v, if range == 256 then 8 else 16);
      } else {
        stat := EncodeLongWhole(v);
      }
    }

    /** The one-octet and two-octet cases. */
    method EncodeAligned(v: U32, n: nat) returns (stat: Stat)
      requires Valid() && n <= 32
      modifies this, data
      ensures Did(stat, old(Stream()), Enc(Pad(|old(Stream())|) + BitsOf(v, n)))
      ensures dynamic == old(dynamic) && sizes == old(sizes) && (fresh(data) || data == old(data))
    {
      hide BitsOf, Pad, Encoder.Valid, Encoder.Stream;
      ghost var s0 := Stream();
      stat := EncodeByteAlign();
      if stat != Ok { return; }
      stat := EncodeBits(v, n);
      Chain(s0, Pad(|s0|), BitsOf(v, n));
    }

    /** The indefinite-length case. */
    method EncodeLongWhole(v: U32) returns (stat: Stat)
      requires Valid()
      modifies this, data
      ensures Did(stat, old(Stream()), Enc(BitsOf(OctetCount(v) - 1, 2) + Pad(|old(Stream())| + 2) + BitsOf(v, 8 * OctetCount(v))))
      ensures dynamic == old(dynamic) && sizes == old(sizes) && (fresh(data) || data == old(data))
    {
      hide BitsOf, Pad, Encoder.Valid, Encoder.Stream;
      ghost var s0 := Stream();
      var nocts := if v < 256 then 1 else if v < 65536 then 2 else if v < 0x100_0000 then 3 else 4;
      stat := EncodeBits(nocts - 1, 2);
      if stat != Ok { return; }
      stat := EncodeByteAlign();
      if stat != Ok { return; }
      Chain(s0, BitsOf(nocts - 1, 2), Pad(|s0| + 2));
      stat := EncodeNonNegBinInt(v);
      Chain(s0, BitsOf(nocts - 1, 2) + Pad(|s0| + 2), BitsOf(v, 8 * nocts));
    }

    method EncodeConsInteger(value: I32, lower: I32, upper: I32) returns (stat: Stat)
      requires Valid()
      modifies this, data
      ensures Did(stat, old(Stream()), EncInt(|old(Stream())|, value, lower, upper))
      ensures dynamic == old(dynamic) && sizes == old(sizes) && (fresh(data) || data == old(data))
    {
      hide Encoder.Valid, Encoder.Stream, EncWhole;
      if value < lower || value > upper { return ConsVio; }
      var range_value, adjusted_value;
      if (upper > 0 && lower >= 0) || (upper <= 0 && lower < 0) {
        range_value, adjusted_value := Wrap(upper - lower), Wrap(value - lower);
      } else {
        range_value, adjusted_value := Wrap(upper + Abs32(lower)), Wrap(value + Abs32(lower));
      }
      if range_value != 0xFFFF_FFFF { range_value := range_value + 1; }
      if range_value == 0 || lower > upper {
        stat := RangErr;
      } else if lower != upper {
        stat := EncodeConsWholeNumber(adjusted_value, range_value);
      } else {
        stat := Ok;
        assert Stream() + [] == Stream();
      }
    }

    method EncodeConsUnsigned(value: U32, lower: U32, upper: U32) returns (stat: Stat)
      requires Valid()
      modifies this, data
      ensures Did(stat, old(Stream()), EncUns(|old(Stream())|, value, lower, upper))
      ensures dynamic == old(dynamic) && sizes == old(sizes) && (fresh(data) || data == old(data))
    {
      hide Encoder.Valid, Encoder.Stream, EncWhole;
      var range_value := UnsRange(lower, upper);
      if lower != upper {
        stat := EncodeConsWholeNumber(Wrap(value - lower), range_value);
      } else {
        stat := Ok;
        assert Stream() + [] == Stream();
      }
    }

    // ---------- lengths ----------

    method EncodeUnconsLength(n: U32) returns (stat: Stat, enclen: nat)
      requires Valid()
      modifies this, data
      ensures Did(stat, old(Stream()), Enc(Pad(|old(Stream())|) + UnconsForm(n)))
      ensures stat == Ok ==> enclen == Taken([], n)
      ensures dynamic == old(dynamic) && sizes == old(sizes) && (fresh(data) || data == old(data))
    {
      hide StreamOf, BitsOf, Pad, Encoder.Stream, Flat, Clean;
      ghost var s0 := Stream();
      enclen := n;
      stat := EncodeByteAlign();
      if stat != Ok { return; }
      ghost var p := Pad(|s0|);
      if n < 128 {
        stat := EncodeBits(n, 8);
        Chain(s0, p, BitsOf(n, 8));
      } else if n < 16384 {
        stat := EncodeBit(true);
        Chain(s0, p, [true]);
        stat := EncodeBits(n, 15);
        Chain(s0, p + [true], BitsOf(n, 15));
        Chain(p, [true], BitsOf(n, 15));
      } else {
        var multiplier := if n / 16384 < 4 then n / 16384 else 4;
        stat := EncodeMultiplier(multiplier);
        Chain(s0, p, [true, true] + BitsOf(multiplier, 6));
        enclen := 16384 * multiplier;
      }
    }

    /** The octet that announces a fragment. */
    method EncodeMultiplier(m: U32) returns (stat: Stat)
      requires Valid() && bitOffset == 8
      modifies this, data
      ensures Did(stat, old(Stream()), Enc([true, true] + BitsOf(m, 6)))
      ensures dynamic == old(dynamic) && sizes == old(sizes) && (fresh(data) || data == old(data))
    {
      hide StreamOf, BitsOf, Encoder.Stream, Flat, Clean;
      ghost var s0 := Stream();
      stat := EncodeBit(true);
      stat := EncodeBit(true);
      stat := EncodeBits(m, 6);
      assert s0 + [true] + [true] + BitsOf(m, 6) == s0 + ([true, true] + BitsOf(m, 6));
    }

    /** An extension bit at the end of an octet starts the next one unchecked. */
    ghost predicate Room() reads this, data {
      Extendable(sizes) && bitOffset == 1 ==> byteIndex + 1 < data.Length
    }

    /** A length, under the pending size constraint, which it uses up. */
    method EncodeLength(n: U32) returns (stat: Stat, enclen: nat)
      requires Valid() && Room()
      modifies this, data
      ensures Did(stat, old(Stream()), EncLength(|old(Stream())|, old(sizes), n))
      ensures stat == Ok ==> enclen == Taken(old(sizes), n) && sizes == []
      ensures dynamic == old(dynamic) && (fresh(data) || data == old(data))
    {
      hide StreamOf, BitsOf, Pad, Encoder.Stream, Encoder.Valid, Flat, Clean, EncWhole, UnconsForm, CheckSize, Extendable;
      ghost var s0 := Stream();
      enclen := 0;
      var pSize := CheckSize(sizes, n);
      var extendable := IsExtendable(sizes);
      var lower, upper := LowerOf(pSize), UpperOf(pSize);
      if sizes != [] && pSize.None? { return ConsVio, 0; }
      sizes := [];
      stat := Ok;
      ghost var ext: seq<bool> := [];
      if extendable {
        ext := [pSize.None? || pSize.value.extended];
        stat := EncodeBit(pSize.None? || pSize.value.extended);
        if stat != Ok { return; }
      } else {
        assert s0 + ext == s0;
      }
      BoundedLength(old(sizes), |s0|, n);
      ghost var body := EncBounded(|s0| + |ext|, lower, upper, n);
      if upper < 65536 {
        enclen := n;
        if lower != upper {
          stat := EncodeConsWholeNumber(n - lower, upper - lower + 1);
        } else {
          assert Stream() + [] == Stream();
        }
      } else {
        stat, enclen := EncodeUnconsLength(n);
      }
      if body.Enc? { Chain(s0, ext, body.bits); }
    }

    // ---------- strings ----------

    /** One length, its padding and its share of the contents. */
    method EncodeFragment(octets: bool, n: U32, value: seq<Byte>, all: seq<Size>) returns (stat: Stat, enclen: nat)
      requires Valid() && Room() && Span(octets, n) <= 8 * |value|
      modifies this, data
      ensures Did(stat, old(Stream()), EncFragment(|old(Stream())|, old(sizes), all, octets, n, Flat(value)[..Span(octets, n)]))
      ensures stat == Ok ==> enclen == Taken(old(sizes), n) && sizes == []
      ensures dynamic == old(dynamic) && (fresh(data) || data == old(data))
    {
      hide StreamOf, BitsOf, Pad, Encoder.Stream, Encoder.Valid, Flat, Clean, Extendable, AlignTest, Taken, Encoder.Room, EncLength;
      ghost var (s0, cur, bits) := (Stream(), sizes, Flat(value)[..Span(octets, n)]);
      ghost var h := EncLength(|s0|, cur, n);
      stat, enclen := EncodeLength(n);
      if stat != Ok || enclen == 0 { return; }
      var doAlign := AlignTest(all, n, octets);
      if doAlign.None? { return ConsVio, 0; }
      assert Flat(value)[..Span(octets, enclen)] == bits[..Span(octets, enclen)] by { FirstOf(Flat(value), Span(octets, enclen), Span(octets, n)); }
      ghost var pad := if doAlign.value then Pad(|s0 + h.bits|) else [];
      Chain(h.bits, pad, bits[..Span(octets, enclen)]);
      Chain(s0, h.bits, pad + bits[..Span(octets, enclen)]);
      stat := EncodeItems(value, Span(octets, enclen), doAlign.value);
    }

    /** What follows a length: padding, if it is due, and nbits of the contents. */
    method EncodeItems(value: seq<Byte>, nbits: nat, doAlign: bool) returns (stat: Stat)
      requires Valid() && nbits <= 8 * |value|
      modifies this, data
      ensures Did(stat, old(Stream()), Enc((if doAlign then Pad(|old(Stream())|) else []) + Flat(value)[..nbits]))
      ensures dynamic == old(dynamic) && sizes == old(sizes) && (fresh(data) || data == old(data))
    {
      hide StreamOf, BitsOf, Pad, Encoder.Stream, Encoder.Valid, Flat, Clean;
      ghost var s0 := Stream();
      ghost var pad := if doAlign then Pad(|s0|) else [];
      assert s0 + [] == s0;
      if doAlign {
        stat := EncodeByteAlign();
        if stat != Ok { return; }
      }
      stat := EncodeOctets(value, nbits);
      Chain(s0, pad, Flat(value)[..nbits]);
    }

    /** A string, fragment after fragment, until what a length announces is all that was left. */
    method EncodeFragments(octets: bool, n: U32, value: seq<Byte>, all: seq<Size>) returns (stat: Stat)
      requires Valid() && Room() && Span(octets, n) <= 8 * |value|
      modifies this, data
      ensures Did(stat, old(Stream()), EncString(|old(Stream())|, old(sizes), all, octets, n, Flat(value)[..Span(octets, n)]))
      ensures dynamic == old(dynamic) && (fresh(data) || data == old(data))
    {
      hide StreamOf, BitsOf, Encoder.Stream, Encoder.Valid, Flat, Clean, Extendable, Taken, EncFragment, EncString;
      ghost var s0 := Stream();
      ghost var whole := EncString(|s0|, sizes, all, octets, n, Flat(value)[..Span(octets, n)]);
      var octidx, left := 0, n;
      ghost var sent: seq<bool> := [];
      assert s0 + sent == s0 && value[0..] == value;
      OnlyRest(whole);
      while true
        invariant Valid() && (fresh(data) || data == old(data)) && dynamic == old(dynamic) && Room()
        invariant octidx <= |value| && Span(octets, left) <= 8 * |value[octidx..]| && Stream() == s0 + sent
        invariant whole == Then(Enc(sent), EncString(|Stream()|, sizes, all, octets, left, Flat(value[octidx..])[..Span(octets, left)]))
        decreases left
      {
        ghost var rest := Flat(value[octidx..])[..Span(octets, left)];
        EncUnfold(|Stream()|, sizes, all, octets, left, rest);
        ghost var e := EncFragment(|Stream()|, sizes, all, octets, left, rest);
        var enclen;
        stat, enclen := EncodeFragment(octets, left, value[octidx..], all);
        if stat != Ok { return; }
        Chain(s0, sent, e.bits);
        NoRoom();
        if enclen >= left { return; }
        var k := Span(octets, enclen) / 8;
        WholeSpan(octets, enclen);
        WholeShare(value[octidx..], octets, left, enclen, k);
        LaterOctets(value, octidx, k);
        octidx := octidx + k;
        left := left - enclen;
        ThenMore(sent, e.bits, EncString(|Stream()|, [], all, octets, left, Flat(value[octidx..])[..Span(octets, left)]));
        sent := sent + e.bits;
      }
    }

    ghost method NoRoom()
      ensures sizes == [] ==> Room()
    {}

    method EncodeOctetString(value: seq<Byte>) returns (stat: Stat)
      requires Valid() && Room() && |value| < 0x8000_0000
      modifies this, data
      ensures Did(stat, old(Stream()), EncString(|old(Stream())|, old(sizes), old(sizes), true, |value|, Flat(value)))
      ensures dynamic == old(dynamic) && (fresh(data) || data == old(data))
    {
      assert Flat(value)[..8 * |value|] == Flat(value);
      hide Encoder.Stream, Encoder.Valid, Flat, EncString;
      stat := EncodeFragments(true, |value|, value, sizes);
    }

    method EncodeBitString(numbits: U32, value: seq<Byte>) returns (stat: Stat)
      requires Valid() && Room() && numbits <= 8 * |value| && numbits < 0x8000_0000
      modifies this, data
      ensures Did(stat, old(Stream()), EncString(|old(Stream())|, old(sizes), old(sizes), false, numbits, Flat(value)[..numbits]))
      ensures dynamic == old(dynamic) && (fresh(data) || data == old(data))
    {
      stat := EncodeFragments(false, numbits, value, sizes);
    }

    /** An open type is never empty: a zero octet stands for no contents. */
    method EncodeOpenType(value: seq<Byte>) returns (stat: Stat)
      requires Valid() && Room() && |value| < 0x8000_0000
      modifies this, data
      ensures var v := if value == [] then [0] else value;
              Did(stat, old(Stream()), EncString(|old(Stream())|, old(sizes), [], true, |v|, Flat(v)))
      ensures dynamic == old(dynamic) && (fresh(data) || data == old(data))
    {
      var v: seq<Byte> := if |value| == 0 then [0] else value;
      assert Flat(v)[..8 * |v|] == Flat(v);
      hide Encoder.Stream, Encoder.Valid, Flat, EncString;
      stat := EncodeFragments(true, |v|, v, []);
    }

    // ---------- semi-constrained integers ----------

    /** The octets of a number in two's complement, found by dividing from the low end. */
    method Encode2sCompBinInt(value: I32) returns (stat: Stat)
      requires Valid()
      modifies this, data
      ensures Did(stat, old(Stream()), Enc(BitsOf(Wrap(value), 8 * TwosLen(value))))
      ensures dynamic == old(dynamic) && sizes == old(sizes) && (fresh(data) || data == old(data))
    {
      var lbuf := TwosOctets(value);
      assert Flat(lbuf)[..8 * |lbuf|] == Flat(lbuf);
      hide Encoder.Stream, Encoder.Valid, Flat, BitsOf;
      stat := EncodeOctets(lbuf, 8 * |lbuf|);
    }

    /** The length is found by a scan from the high end. */
    method EncodeSemiConsInteger(value: I32, lower: I32) returns (stat: Stat)
      requires Valid() && Room()
      modifies this, data
      ensures Did(stat, old(Stream()), EncSemi(|old(Stream())|, old(sizes), value, lower))
      ensures dynamic == old(dynamic) && (fresh(data) || data == old(data))
    {
      hide Encoder.Stream, Encoder.Valid, Flat, BitsOf, TwosLen, Pad, Extendable, EncLength;
      ghost var s0 := Stream();
      var v := if lower > -0x8000_0000 then Signed(value - lower) else value;
      var nbytes := SignedLength(v);
      ghost var h := EncLength(|s0|, sizes, nbytes);
      var enclen;
      stat, enclen := EncodeLength(nbytes);
      if stat != Ok { return; }
      stat := EncodeByteAlign();
      if stat != Ok { return; }
      ghost var p := Pad(|s0 + h.bits|);
      stat := Encode2sCompBinInt(v);
      Chain(s0 + h.bits, p, BitsOf(Wrap(v), 8 * nbytes));
      Chain(s0, h.bits, p + BitsOf(Wrap(v), 8 * nbytes));
    }

    // ---------- object identifiers ----------

    method EncodeIdent(ident: U32) returns (stat: Stat)
      requires Valid()
      modifies this, data
      ensures Did(stat, old(Stream()), Enc(EncArc(ident)))
      ensures dynamic == old(dynamic) && sizes == old(sizes) && (fresh(data) || data == old(data))
    {
      hide Encoder.Stream, Encoder.Valid, BitsOf, Shr, EncGroups;
      ghost var s0 := Stream();
      if ident == 0 {
        stat := EncodeBits(0, 8);
        ZeroArc();
        return;
      }
      var nshifts := ArcLen(ident);
      ghost var sent: seq<bool> := [];
      assert s0 + sent == s0;
      assert sent + EncGroups(ident, nshifts) == EncArc(ident);
      stat := Ok;
      while nshifts > 0
        invariant stat == Ok && Valid() && 0 <= nshifts <= 5 && Stream() == s0 + sent && sent + EncGroups(ident, nshifts) == EncArc(ident)
        invariant dynamic == old(dynamic) && sizes == old(sizes) && (fresh(data) || data == old(data))
      {
        ghost var n := nshifts;
        nshifts := nshifts - 1;
        var lv := Shr(ident, 7 * nshifts) % 128;
        if nshifts != 0 { lv := lv + 128; }
        GroupsCons(ident, n);
        Chain(sent, BitsOf(lv, 8), EncGroups(ident, nshifts));
        stat := EncodeBits(lv, 8);
        if stat != Ok { return; }
        Chain(s0, sent, BitsOf(lv, 8));
        sent := sent + BitsOf(lv, 8);
      }
      NoGroups(ident);
      assert sent + [] == sent;
    }

    method EncodeObjectIdentifier(ids: seq<U32>) returns (stat: Stat)
      requires Valid() && Room() && |ids| <= MAX_ARCS
      modifies this, data
      ensures Did(stat, old(Stream()), EncOid(|old(Stream())|, old(sizes), ids))
      ensures dynamic == old(dynamic) && (fresh(data) || data == old(data))
    {
      hide Encoder.Stream, Encoder.Valid, EncArc, EncArcs, EncLength, ArcsLen, ArcLen;
      ghost var s0 := Stream();
      var len := ArcsOctets(ids);
      ghost var h := EncLength(|s0|, sizes, len);
      var enclen;
      stat, enclen := EncodeLength(len);
      if stat != Ok { return; }
      if |ids| < 2 { return InvObjId; }
      if ids[0] > 2 { return InvObjId; }
      if ids[0] != 2 && ids[1] > 39 { return InvObjId; }
      var temp := Wrap(ids[0] as int * 40 + ids[1]);
      ghost var all := [temp] + ids[2..];
      ghost var sent := EncArc(temp);
      FirstArc(temp, ids[2..]);
      stat := EncodeIdent(temp);
      if stat != Ok { return; }
      Chain(s0, h.bits, sent);
      for i := 2 to |ids|
        invariant stat == Ok && Valid() && Stream() == s0 + (h.bits + sent)
        invariant sent + EncArcs(ids[i..]) == EncArcs(all)
        invariant dynamic == old(dynamic) && (fresh(data) || data == old(data))
      {
        ArcsCons(ids[i..]);
        assert ids[i..][1..] == ids[i + 1..];
        Chain(sent, EncArc(ids[i]), EncArcs(ids[i + 1..]));
        stat := EncodeIdent(ids[i]);
        if stat != Ok { return; }
        Chain(s0, h.bits + sent, EncArc(ids[i]));
        Chain(h.bits, sent, EncArc(ids[i]));
        sent := sent + EncArc(ids[i]);
      }
      NoArcs([], 0, []);
      LastArcs(ids, sent);
    }
  }

  lemma StartOctet(d: seq<Byte>, e: seq<Byte>, i: nat)
    requires 0 < i <= |d| && i < |e| && d[..i] == e[..i]
    ensures StreamOf(e, i, 8) == StreamOf(d, i - 1, 0)
  {
    NextOctet(e, i - 1);
    SameStream(d, e, i - 1, 0);
  }

  lemma OneBit(value: bool, o: nat)
    ensures BitsOf(if value then 1 else 0, 1) == [value] && Pow2(1) == 2
    ensures forall x :: BitOr(x, Shl(0, o)) == x
  {
    assert BitsOf(0, 1) == BitsOf(0, 0) + [false];
    assert BitsOf(1, 1) == BitsOf(0, 0) + [true];
    assert Shl(0, o) == 0 by { ShlZero(o); }
  }

  lemma ShlZero(o: nat)
    ensures Shl(0, o) == 0
  {}

  lemma Masked(value: U32, n: nat)
    requires n <= 32
    ensures var v := if n < 32 then Low(value, n) else value; v < Pow2(n) && BitsOf(v, n) == BitsOf(value, n)
  {
    Pow2Big();
    ValBits(value, n);
    LowBits(value, n, n);
  }

  lemma ZeroClean0(x: Byte)
    ensures Clean(x, 0)
  {}

  lemma WholeOctet(v: nat, nbits: nat, n: nat)
    requires 8 <= n <= nbits
    ensures BitsOf(Shr(v, n - 8), nbits - (n - 8)) == BitsOf(Shr(v, n), nbits - n) + BitsOf(Shr(v, n - 8), 8)
  {
    ShrMore(v, n - 8, 8);
    BitsSplit(Shr(v, n - 8), nbits - n, 8);
  }

  lemma AssignOctet(d: seq<Byte>, i: nat, x: Byte)
    requires i < |d|
    ensures StreamOf(d[i := x], i, 0) == StreamOf(d, i, 8) + BitsOf(x, 8)
  {
    assert d[i := x][..i] == d[..i];
  }

  /** The last part of a field, put into an empty octet. */
  lemma LastBits(d: seq<Byte>, i: nat, v: nat, n: nat)
    requires i < |d| && d[i] == 0 && n < 8
    ensures var y := if n > 0 then Shl(Low(v, n), 8 - n) % 256 else 0;
            && StreamOf(d[i := y], i, 8 - n) == StreamOf(d, i, 8) + BitsOf(v, n)
            && Clean(y, 8 - n)
  {
    hide BitsOf, Clean, StreamOf, Shl, Low, BitOr, Pow2;
    ZeroClean();
    LowShlZero(v, 8);
    OrZero(Shl(Low(v, n), 8 - n));
    SameField(v, n);
    PutField(d, i, 8, Low(v, n), n);
  }

  lemma OrZero(x: nat)
    ensures BitOr(0, x) == x
  {}

  lemma SameField(v: nat, n: nat)
    ensures Low(v, n) < Pow2(n) && BitsOf(Low(v, n), n) == BitsOf(v, n)
  {
    ValBits(v, n);
    LowBits(v, n, n);
  }

  lemma LowShlZero(v: nat, k: nat)
    ensures Shl(Low(v, 0), k) == 0
  {
    ShlZero(k);
  }

  // ---------- part of an octet ----------

  lemma {:induction false} ShrShl(v: nat, a: nat, b: nat)
    ensures Shr(Shl(v, a + b), b) == Shl(v, a)
  {
    if b > 0 {
      assert Shl(v, a + b) / 2 == Shl(v, a + (b - 1));
      ShrShl(v, a, b - 1);
    }
  }

  lemma {:induction false} ShlShl(v: nat, a: nat, b: nat)
    ensures Shl(Shl(v, a), b) == Shl(v, a + b)
  {
    if b > 0 { ShlShl(v, a, b - 1); }
  }

  lemma HighFits(value: Byte, n: nat, r: nat)
    requires 1 <= n <= 8 - r && r <= 8
    ensures Shr(if n < 8 then HighPart(value, n) else value, r) == Shl(Shr(value, 8 - n), 8 - r - n)
    ensures Shr(value, 8 - n) < Pow2(n)
  {
    Shifted(value, n);
    ShrShl(Shr(value, 8 - n), 8 - r - n, r);
    assert n == 8 ==> Shr(value, 0) == value && Shl(value, 0) == value;
  }

  lemma HighSplits(value: Byte, n: nat, r: nat)
    requires 8 - r < n <= 8 && r <= 8
    ensures Shr(if n < 8 then HighPart(value, n) else value, r) == Shl(Shr(value, r), 0)
    ensures Shr(value, r) < Pow2(8 - r)
  {
    Shifted(value, 8 - r);
    var (v, k) := (Shr(value, 8 - n), 8 - n);
    ShrShl(v, 0, k);
    ShrMore(value, k, r - k);
    ShrMore(Shl(v, k), k, r - k);
    assert Shl(Shr(value, r), 0) == Shr(value, r) && Shl(v, 0) == v;
  }

  lemma TopBits(d: seq<Byte>, i: nat, value: Byte, u: Byte, n: nat)
    requires i < |d| && n <= 8 && u == (if n < 8 then HighPart(value, n) else value)
    ensures StreamOf(d[i := u], i, 8 - n) == StreamOf(d, i, 8) + BitsOf(value, 8)[..n] && Clean(u, 8 - n)
  {
    OctetParts(value, n);
    StreamOctets(d, i);
    hide BitsOf, Flat, HighPart, Clean;
    assert d[i := u][..i] == d[..i];
    assert BitsOf(u, 8)[..n] == BitsOf(value, 8)[..n];
  }

  lemma RestBits(d: seq<Byte>, i: nat, value: Byte, u: Byte, n: nat, l: nat)
    requires i < |d| && l < n <= 8 && u == (if n < 8 then HighPart(value, n) else value)
    ensures var y := Shl(u, l) % 256;
            && StreamOf(d[i := y], i, l - n + 8) == StreamOf(d, i, 8) + BitsOf(value, 8)[l..n]
            && Clean(y, l - n + 8)
  {
    hide BitsOf, Flat, HighPart, Shl, Shr;
    OctetParts(value, n);
    OctetBelow(Shl(u, l));
    var y := Shl(u, l) % 256;
    ShlBits(u, l, 8);
    BitsSplit(Shl(u, l), l, 8);
    CutRest(BitsOf(u, 8), BitsOf(value, 8), BitsOf(Shr(Shl(u, l), 8), l), BitsOf(Shl(u, l), 8), n, l);
    AtOctet(d, i, y, l - n + 8);
  }

  lemma CutRest(u: seq<bool>, v: seq<bool>, hi: seq<bool>, y: seq<bool>, n: nat, l: nat)
    requires l < n <= 8 == |u| == |v| == |y| && |hi| == l && u == v[..n] + Zeros(8 - n) && hi + y == u + Zeros(l)
    ensures y == v[l..n] + Zeros(l - n + 8)
  {
    assert y == (hi + y)[l..];
    assert Zeros(8 - n) + Zeros(l) == Zeros(l - n + 8);
    assert v[..n][l..] == v[l..n];
  }

  lemma AtOctet(d: seq<Byte>, i: nat, y: Byte, o: nat)
    requires i < |d| && o <= 8
    ensures StreamOf(d[i := y], i, o) == StreamOf(d, i, 8) + BitsOf(y, 8)[..8 - o]
  {
    hide BitsOf, Flat;
    assert d[i := y][..i] == d[..i];
    assert BitsOf(d[i], 8)[..0] == [];
  }

  // ---------- runs of octets ----------

  lemma NextOf(value: seq<Byte>, i: nat)
    requires i < |value|
    ensures Flat(value[..i + 1]) == Flat(value[..i]) + BitsOf(value[i], 8)[..8]
  {
    assert value[..i + 1] == value[..i] + [value[i]];
    FlatAppend(value[..i], [value[i]]);
    FlatOne(value[i]);
  }

  lemma OctetsThenBits(value: seq<Byte>, full: nat, r: nat)
    requires 8 * full + r <= 8 * |value| && r < 8
    ensures Flat(value)[..8 * full + r] == Flat(value[..full]) + if r == 0 then [] else BitsOf(value[full], 8)[..r]
  {
    hide *;
    FlatCut(value, full);
    if r == 0 {
      TakenWhole(Flat(value), Flat(value[..full]), 8 * full);
    } else {
      FlatAt(value, full);
      TakenMore(Flat(value), Flat(value[..full]), BitsOf(value[full], 8), 8 * full, r);
    }
  }

  lemma TakenWhole(b: seq<bool>, w: seq<bool>, i: nat)
    requires i <= |b| && b[..i] == w
    ensures b[..i + 0] == w + []
  {}

  lemma TakenMore(b: seq<bool>, w: seq<bool>, x: seq<bool>, i: nat, r: nat)
    requires r <= 8 == |x| && i + 8 <= |b| && b[..i] == w && b[i..i + 8] == x
    ensures b[..i + r] == w + x[..r]
  {
    SliceTwo(b, i, r);
  }

  lemma SliceTwo(b: seq<bool>, i: nat, r: nat)
    requires r <= 8 && i + 8 <= |b|
    ensures b[..i + r] == b[..i] + b[i..i + 8][..r]
  {}

  lemma NoOctets(value: seq<Byte>)
    ensures Flat(value[..0]) == []
  {}

  lemma SameOctets(d: seq<Byte>, e: seq<Byte>, i: nat, w: seq<Byte>)
    requires i + |w| < |d| == |e| && e[..i] == d[..i] && e[i..i + |w|] == w
    ensures StreamOf(e, i + |w|, 8) == StreamOf(d, i, 8) + Flat(w)
  {
    PutOctets(d, e, i, w);
  }

  /** Padding needs no writing: the unused bits are zero already. */
  lemma PadOctet(d: seq<Byte>, i: nat, o: nat)
    requires i < |d| && o < 8 && Clean(d[i], o)
    ensures StreamOf(d, i, 0) == StreamOf(d, i, o) + Pad(|StreamOf(d, i, o)|)
  {
    hide Flat, BitsOf;
    var b := BitsOf(d[i], 8);
    assert b == b[..8 - o] + b[8 - o..];
    assert Pad(8 * i + 8 - o) == Zeros(o);
  }

  // ---------- composition ----------

  lemma Chain(a: seq<bool>, b: seq<bool>, c: seq<bool>)
    ensures a + b + c == a + (b + c)
  {}

  lemma RoundsUp(v: U32, n: nat)
    requires n == if v == 0 then 1 else BitCount(v)
    ensures (n + 7) / 8 * 8 == 8 * OctetCount(v) <= 32
  {
    hide Pow2;
  }

  lemma SmallCount(range: U32)
    requires 1 <= range <= 255
    ensures BitCount(Wrap(range - 1)) <= 8
  {}

  method IsExtendable(sizes: seq<Size>) returns (r: bool)
    ensures r == Extendable(sizes)
  {
    for i := 0 to |sizes|
      invariant forall j | 0 <= j < i :: !sizes[j].extended
    {
      if sizes[i].extended { return true; }
    }
    return false;
  }

  lemma BoundedLength(sizes: seq<Size>, pos: nat, n: U32)
    ensures var s := CheckSize(sizes, n);
            Taken(sizes, n) == if UpperOf(s) < 65536 then n else Taken([], n)
  {}

  // ---------- fragments ----------

  function OpenContents(value: seq<Byte>): seq<Byte> { if value == [] then [0] else value }

  lemma OnlyRest(e: Enc)
    ensures Then(Enc([]), e) == e
  {
    if e.Enc? { assert [] + e.bits == e.bits; }
  }

  lemma EncUnfold(pos: nat, cur: seq<Size>, all: seq<Size>, octets: bool, n: nat, data: seq<bool>)
    requires |data| == Span(octets, n)
    ensures var (e, k) := (EncFragment(pos, cur, all, octets, n, data), Taken(cur, n));
            EncString(pos, cur, all, octets, n, data) ==
              if e.Bad? || k == n then e
              else Then(e, EncString(pos + |e.bits|, [], all, octets, n - k, data[Span(octets, k)..]))
  {
    hide EncFragment, Taken;
  }

  lemma ThenMore(a: seq<bool>, b: seq<bool>, e: Enc)
    ensures Then(Enc(a), Then(Enc(b), e)) == Then(Enc(a + b), e)
  {
    if e.Enc? { Chain(a, b, e.bits); }
  }

  /** A fragment that leaves something over is a whole number of octets. */
  lemma WholeShare(value: seq<Byte>, octets: bool, n: nat, k: nat, j: nat)
    requires Span(octets, n) <= 8 * |value| && k <= n && Span(octets, k) == 8 * j
    ensures j <= |value| && Flat(value)[..Span(octets, n)][8 * j..] == Flat(value[j..])[..Span(octets, n - k)]
  {
    hide Flat;
    var (s, t) := (Span(octets, k), Span(octets, n));
    FlatCut(value, j);
    assert Span(octets, n - k) == t - s;
    CutTail(Flat(value), s, t);
  }

  lemma FirstOf(b: seq<bool>, s: nat, t: nat)
    requires s <= t <= |b|
    ensures b[..t][..s] == b[..s]
  {}

  lemma CutTail(b: seq<bool>, s: nat, t: nat)
    requires s <= t <= |b|
    ensures b[..t][s..] == b[s..][..t - s]
  {}

  lemma LaterOctets(value: seq<Byte>, i: nat, k: nat)
    requires i + k <= |value|
    ensures value[i..][k..] == value[i + k..]
  {}

  // ---------- two's complement ----------

  /** The scan: drop a leading octet while it and the sign bit below it are all alike. */
  method SignedLength(value: I32) returns (nbytes: nat)
    ensures nbytes == TwosLen(value)
  {
    var shift := 23;
    while shift > 0
      invariant shift in {23, 15, 7, -1}
      invariant shift <= 15 ==> -0x80_0000 <= value < 0x80_0000
      invariant shift <= 7 ==> -0x8000 <= value < 0x8000
      invariant shift == -1 ==> -0x80 <= value < 0x80
    {
      var tempValue := (if shift == 23 then value / 0x80_0000 else if shift == 15 then value / 0x8000 else value / 0x80) % 512;
      if tempValue != 0 && tempValue != 511 { break; }
      shift := shift - 8;
    }
    nbytes := (shift + 9) / 8;
  }

  /** C's division and remainder, which truncate. */
  function QuoOf(x: int): int { if x < 0 then -((-x) / 256) else x / 256 }

  method TwosOctets(value: I32) returns (w: seq<Byte>)
    ensures |w| == TwosLen(value) && Flat(w) == BitsOf(Wrap(value), 8 * |w|)
  {
    hide Asr, BitsOf, Flat, Wrap, TwosLen;
    var lbuf := new Byte[8](_ => 0);
    var i, temp: int, lb: Byte := 8, value, 0;
    NoTwos(value);
    assert lbuf[8..] == [];
    while true
      invariant 4 < i <= 8 && temp == Asr(value, 8 - i) && (i < 8 ==> temp != 0 && temp != -1)
      invariant Flat(lbuf[i..]) == BitsOf(Wrap(value), 8 * (8 - i))
      invariant forall j | 0 <= j < i :: lbuf[j] == 0
      decreases i
    {
      ghost var (t, done) := (temp, lbuf[i..]);
      lb := temp % 256;
      var q := QuoOf(temp);
      temp := if q < 0 && lb != 0 then q - 1 else q;
      i := i - 1;
      lbuf[i] := lb;
      Headed(lbuf[..], i);
      assert lbuf[i + 1..] == done;
      AddOctet(value, done, lb);
      AsrNext(value, 8 - i);
      QuotientStep(t);
      SignOctet(value, 8 - i);
      if temp == 0 || temp == -1 { break; }
    }
    ghost var done := lbuf[i..];
    if value > 0 && lb >= 128 {
      i := i - 1;
      Headed(lbuf[..], i);
      AddOctet(value, done, 0);
    } else if value < 0 && lb < 128 {
      i := i - 1;
      lbuf[i] := 0xff;
      Headed(lbuf[..], i);
      assert lbuf[i + 1..] == done;
      AddOctet(value, done, 0xff);
    }
    w := lbuf[i..];
  }

  lemma Headed(a: seq<Byte>, i: nat)
    requires i < |a|
    ensures a[i..] == [a[i]] + a[i + 1..]
  {}

  lemma NoTwos(x: I32)
    ensures Flat([]) == BitsOf(Wrap(x), 0) && Asr(x, 0) == x
  {}

  lemma AsrNext(x: int, k: nat)
    requires k > 0
    ensures Asr(x, k) == Asr(x, k - 1) / 256
  {}

  lemma AddOctet(x: I32, done: seq<Byte>, b: Byte)
    requires |done| <= 3 && b == Asr(x, |done|) % 256 && Flat(done) == BitsOf(Wrap(x), 8 * |done|)
    ensures Flat([b] + done) == BitsOf(Wrap(x), 8 * (|done| + 1))
  {
    var k := |done|;
    hide Asr, BitsOf, Flat, Wrap, Shr, Low;
    OctetAt(x, k);
    FlatAppend([b], done);
    FlatOne(b);
    BitsSplit(Wrap(x), 8, 8 * k);
    LowBits(Shr(Wrap(x), 8 * k), 8, 8);
  }

  /** A truncating division, put right for negative numbers, rounds down, except that it takes the
      last negative quotient to 0. */
  lemma QuotientStep(t: int)
    ensures var q := QuoOf(t);
            var r := if q < 0 && t % 256 != 0 then q - 1 else q;
            r == t / 256 || (r == 0 && t / 256 == -1)
  {
    if t < 0 {
      var m := -t;
      assert m == m / 256 * 256 + m % 256;
      if m % 256 == 0 {
        assert t == -(m / 256) * 256;
      } else {
        assert t == (-(m / 256) - 1) * 256 + (256 - m % 256);
      }
    }
  }

  /** When all that is left of x is its sign, the octets found, and one more if the sign bit of the
      last disagrees with it, are the least that hold x. */
  lemma SignOctet(x: I32, k: nat)
    requires 1 <= k <= 4 && (k > 1 ==> Asr(x, k - 1) != 0 && Asr(x, k - 1) != -1)
    ensures k == 4 ==> Asr(x, k) == 0 || Asr(x, k) == -1
    ensures Asr(x, k) == 0 || Asr(x, k) == -1 ==>
              var lb := Asr(x, k - 1) % 256;
              && (if (x > 0 && lb >= 128) || (x < 0 && lb < 128) then k + 1 else k) == TwosLen(x)
              && (x > 0 ==> Asr(x, k) % 256 == 0) && (x < 0 ==> Asr(x, k) % 256 == 0xff)
  {
    AsrOctets(x);
    AsrNext(x, 4);
    hide Asr;
    if k == 1 {
    } else if k == 2 {
    } else if k == 3 {
    } else {
    }
  }

  // ---------- arcs ----------

  lemma ZeroArc()
    ensures BitsOf(0, 8) == EncArc(0)
  {
    hide BitsOf;
    assert BitsOf(0, 8) + [] == BitsOf(0, 8);
    assert EncGroups(0, 0) == [];
    assert Shr(0, 0) == 0;
  }

  lemma NoGroups(v: U32)
    ensures EncGroups(v, 0) == []
  {}

  lemma FirstArc(t: U32, rest: seq<U32>)
    ensures EncArcs([t] + rest) == EncArc(t) + EncArcs(rest)
  {
    assert ([t] + rest)[1..] == rest;
  }

  lemma LastArcs(ids: seq<U32>, sent: seq<bool>)
    ensures EncArcs(ids[|ids|..]) == [] && sent + [] == sent
  {}

  method ArcsOctets(ids: seq<U32>) returns (len: U32)
    requires |ids| <= MAX_ARCS
    ensures len == 1 + if |ids| < 2 then 0 else ArcsLen(ids[2..])
  {
    hide ArcLen;
    len := 1;
    if |ids| < 2 { return; }
    ghost var rest := ids[2..];
    for i := 2 to |ids|
      invariant len + ArcsLen(ids[i..]) == 1 + ArcsLen(rest) && len <= 1 + 5 * i
    {
      assert ids[i..][1..] == ids[i + 1..];
      len := len + ArcLen(ids[i]);
    }
  }
}
