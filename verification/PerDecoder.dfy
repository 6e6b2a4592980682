/** The decoder: a buffer of octets and a cursor (byteIndex, bitOffset), bitOffset counting the bits
    of the current octet that are still unread. Every method is proved to read what PerSpec says
    stands at the cursor. */
module PerDecoder {
  import opened Bits
  import opened PerSpec
  import opened PerRoundTrip
  import opened Wrappers

  // ---------- bits read as numbers ----------

  lemma WrapLow(x: nat)
    ensures Wrap(x) == Low(x, 32) < Pow2(32)
  {
    hide Low, Shr, Pow2;
    LowShr(x, 32);
    ValBits(x, 32);
    Pow2Big();
  }

  lemma {:induction false} ValShr(a: seq<bool>, b: seq<bool>)
    ensures Shr(ValOf(a + b), |b|) == ValOf(a)
  {
    if b == [] {
      assert a + b == a;
    } else {
      var c := b[..|b| - 1];
      assert (a + b)[..|a + b| - 1] == a + c;
      ValShr(a, c);
    }
  }

  lemma {:induction false} ValTail(a: seq<bool>, b: seq<bool>)
    ensures BitsOf(ValOf(a + b), |b|) == b
  {
    if b == [] {
    } else {
      var c := b[..|b| - 1];
      assert (a + b)[..|a + b| - 1] == a + c;
      ValTail(a, c);
      assert b == c + [b[|b| - 1]];
    }
  }

  /** (v << k) | x in 32 bits takes in k more bits. */
  lemma ShiftIn(v: nat, a: seq<bool>, x: nat, k: nat)
    requires v == Wrap(ValOf(a)) && x < Pow2(k) && k <= 8
    ensures BitOr(Wrap(Shl(v, k)), x) == Wrap(ValOf(a + BitsOf(x, k)))
  {
    hide BitsOf, ValOf, Shl, Shr, Low, BitOr, Pow2, Wrap;
    var w := BitsOf(x, k);
    var s, t := Wrap(Shl(v, k)), ValOf(a + w);
    WrapLow(ValOf(a));
    WrapLow(Shl(v, k));
    WrapLow(t);
    LowBits(Shl(v, k), 32, 32);
    LowBits(t, 32, 32);
    LowBits(ValOf(a), 32 - k, 32);
    ShlBits(v, k, 32 - k);
    HighBits(x, 32 - k, k);
    BitsSplit(t, 32 - k, k);
    ValShr(a, w);
    ValTail(a, w);
    PowGrows(k, 32);
    OrBelow(s, x, 32);
    OrHalves(s, x, BitsOf(v, 32 - k), w, k);
    SameBits(BitOr(s, x), Wrap(t), 32);
  }

  lemma OrHalves(s: nat, x: nat, hi: seq<bool>, lo: seq<bool>, k: nat)
    requires k <= 32 && |hi| == 32 - k && |lo| == k && BitsOf(s, 32) == hi + Zeros(k) && BitsOf(x, 32) == Zeros(32 - k) + lo
    ensures BitsOf(BitOr(s, x), 32) == hi + lo
  {
    hide BitsOf, BitOr;
    var y := BitsOf(BitOr(s, x), 32);
    forall i | 0 <= i < 32 ensures y[i] == (hi + lo)[i] { OrBits(s, x, 32, i); }
  }

  // ---------- octets put together ----------

  /** Bits in octets, the last one filled up with zeros. */
  function Pack(b: seq<bool>): (w: seq<Byte>)
    ensures |w| == (|b| + 7) / 8
  {
    if b == [] then []
    else if |b| < 8 then PackOne(b); [Shl(ValOf(b), 8 - |b|)]
    else PackOne(b[..8]); [ValOf(b[..8])] + Pack(b[8..])
  }

  lemma PackOne(b: seq<bool>)
    requires |b| <= 8
    ensures Shl(ValOf(b), 8 - |b|) < 256
    ensures |b| == 8 ==> ValOf(b) < 256
  {
    BitsVal(b);
    ShlBelow(ValOf(b), |b|, 8 - |b|);
    Pow2Small();
  }

  lemma {:induction false} PackAppend(a: seq<bool>, b: seq<bool>)
    requires |a| % 8 == 0
    ensures Pack(a + b) == Pack(a) + Pack(b)
  {
    if a == [] {
      assert a + b == b;
    } else {
      assert (a + b)[..8] == a[..8] && (a + b)[8..] == a[8..] + b;
      PackAppend(a[8..], b);
    }
  }

  lemma PackShort(w: seq<bool>, y: Byte)
    requires |w| <= 8 && BitsOf(y, 8)[..|w|] == w
    ensures Pack(w) == if |w| == 0 then [] else if |w| == 8 then [y] else [HighPart(y, |w|)]
  {
    var n := |w|;
    Shifted(y, n);
    BitsVal(w);
    hide BitsOf, ValOf, Pow2, Shr, Shl;
    SameBits(Shr(y, 8 - n), ValOf(w), n);
    if n == 8 {
      assert w[..8] == w && Pack(w[8..]) == [];
      ShrZero(y);
    }
  }

  /** An octet that straddles two: the low o bits of one and the high bits of the next. */
  lemma Straddle(d: seq<Byte>, i: nat, o: nat, k: nat)
    requires i + 1 < |d| && o + k <= 8
    ensures var y := BitOr(Shl(d[i], 8 - o) % 256, Shr(d[i + 1], o));
            && y < 256
            && BitsOf(y, 8)[..o + k] == Flat(d)[8 * i + 8 - o..8 * i + 8 + k]
  {
    hide BitsOf, Flat, Shl, Shr, BitOr, Pow2, Low;
    var (x, z) := (Shl(d[i], 8 - o) % 256, Shr(d[i + 1], o));
    ShiftUp(d, i, o);
    TopBits(d, i + 1, 8 - o);
    OctetBelow(d[i + 1]);
    OctetBelow(x);
    ShrBelow(d[i + 1], 8 - o, o);
    PowGrows(8 - o, 8);
    HighBits(z, o, 8 - o);
    OrBelow(x, z, 8);
    OctetBelow(BitOr(x, z));
    var (f, y, hi, lo) := (Flat(d), BitsOf(BitOr(x, z), 8), BitsOf(x, 8), BitsOf(z, 8));
    forall j | 0 <= j < 8 ensures y[j] == (hi[j] || lo[j]) { OrBits(x, z, 8, j); }
    var w := BitsOf(z, 8 - o);
    assert hi[..o] == f[8 * i + 8 - o..8 * i + 8] && w == f[8 * i + 8..8 * i + 16 - o];
    TwoHalves(y, hi, lo, w, o);
    assert f[8 * i + 8 - o..8 * i + 8 + k] == (hi[..o] + w)[..o + k];
  }

  /** The first n bits of octet i. */
  lemma TopBits(d: seq<Byte>, i: nat, n: nat)
    requires i < |d| && n <= 8
    ensures BitsOf(Shr(d[i], 8 - n), n) == Flat(d)[8 * i..8 * i + n]
  {
    ReadField(d, i, 8, n);
  }

  lemma TwoHalves(y: seq<bool>, hi: seq<bool>, lo: seq<bool>, w: seq<bool>, o: nat)
    requires o <= 8 == |y| == |hi| == |lo| && |w| == 8 - o && lo == Zeros(o) + w && hi[o..] == Zeros(8 - o)
    requires forall j | 0 <= j < 8 :: y[j] == (hi[j] || lo[j])
    ensures y == hi[..o] + w
  {
    forall j | o <= j < 8 ensures y[j] == w[j - o] {
      assert hi[o..][j - o] == hi[j];
    }
  }

  /** The low o bits of an octet moved to the top. */
  lemma ShiftUp(d: seq<Byte>, i: nat, o: nat)
    requires i < |d| && o <= 8
    ensures var y := Shl(d[i], 8 - o) % 256;
            BitsOf(y, 8)[..o] == Flat(d)[8 * i + 8 - o..8 * i + 8] && BitsOf(y, 8)[o..] == Zeros(8 - o)
  {
    hide BitsOf, Flat, Shl, Shr;
    OctetBelow(Shl(d[i], 8 - o));
    ShlBits(d[i], 8 - o, o);
    ReadField(d, i, o, o);
    ShrZero(d[i]);
  }

  /** The octets packed from bits hold just those, and zeros up to the octet boundary. */
  lemma {:induction false} FlatPack(b: seq<bool>)
    ensures Flat(Pack(b)) == b + Zeros((8 - |b| % 8) % 8)
  {
    hide Flat, BitsOf, ValOf, Shl;
    if b == [] {
      NothingFlat();
    } else if |b| < 8 {
      FlatShort(b);
    } else {
      FlatPack(b[8..]);
      PackOne(b[..8]);
      BitsVal(b[..8]);
      FlatOne(ValOf(b[..8]));
      FlatAppend([ValOf(b[..8])], Pack(b[8..]));
      hide Pack;
      assert b == b[..8] + b[8..];
      assert (|b| - 8) % 8 == |b| % 8;
    }
  }

  lemma FlatShort(b: seq<bool>)
    requires 0 < |b| < 8
    ensures Flat(Pack(b)) == b + Zeros(8 - |b|)
  {
    hide Flat, BitsOf, ValOf, Shl;
    PackOne(b);
    ShlBits(ValOf(b), 8 - |b|, |b|);
    BitsVal(b);
    FlatOne(Shl(ValOf(b), 8 - |b|));
  }

  lemma NothingFlat()
    ensures Flat([]) == [] && Zeros(0) == []
  {}

  /** Packing whole octets gives them back. */
  lemma {:induction false} PackFlat(d: seq<Byte>)
    ensures Pack(Flat(d)) == d
  {
    if d != [] {
      FlatCut(d, 1);
      FlatAt(d, 0);
      hide Flat;
      var b := Flat(d);
      assert b[..8] == BitsOf(d[0], 8);
      ValBits(d[0], 8);
      LowId(d[0], 8) by { Pow2Small(); }
      PackFlat(d[1..]);
    }
  }

  /** The reference count of a memory heap, which lives as long as somebody counts on it. */
  class HeapRef {
    var refCnt: nat
    var freed: bool

    method AddRef()
      modifies this
      ensures refCnt == old(refCnt) + 1 && freed == old(freed)
    {
      refCnt := refCnt + 1;
    }

    method Release()
      requires refCnt > 0
      modifies this
      ensures refCnt == old(refCnt) - 1 && freed == (old(freed) || refCnt == 0)
    {
      refCnt := refCnt - 1;
      if refCnt == 0 { freed := true; }
    }
  }

  class Decoder {
    const data: array<Byte>
    const size: nat
    const typeHeap: HeapRef
    const msgHeap: HeapRef
    var byteIndex: nat
    var bitOffset: int
    var sizes: seq<Size>

    /** The cursor can be used: it is within the buffer or in the readable octet after it. */
    ghost predicate Near() reads this`byteIndex, this`bitOffset {
      0 <= bitOffset <= 8 && byteIndex <= size < data.Length
    }

    /** The cursor has not passed the end of the buffer. */
    ghost predicate Valid() reads this`byteIndex, this`bitOffset {
      Near() && Pos() <= 8 * size
    }

    function Pos(): (p: nat)
      requires bitOffset <= 8
      reads this`byteIndex, this`bitOffset
      ensures p == 8 * byteIndex + 8 - bitOffset
    {
      8 * byteIndex + 8 - bitOffset
    }

    ghost function Bits(): (b: seq<bool>)
      requires size <= data.Length
      reads data
      ensures |b| == 8 * size
    {
      Flat(data[..size])
    }

    constructor (data: array<Byte>, size: nat, typeHeap: HeapRef, msgHeap: HeapRef)
      requires size < data.Length
      ensures this.data == data && this.size == size && this.typeHeap == typeHeap && this.msgHeap == msgHeap
      ensures Valid() && Pos() == 0 && sizes == []
    {
      this.data, this.size, this.typeHeap, this.msgHeap := data, size, typeHeap, msgHeap;
      byteIndex, bitOffset, sizes := 0, 8, [];
    }

    // ---------- bits ----------

    /** One bit. At the very end of the buffer, on an octet boundary, it reads a bit that is not
        there and moves past the end. */
    method DecodeBit() returns (stat: Stat, bit: bool)
      requires Near()
      modifies this`byteIndex, this`bitOffset
      ensures stat == Ok || stat == EndOfBuf
      ensures stat == Ok ==> Near() && Pos() == old(Pos()) + 1
      ensures old(Pos()) < 8 * size ==> stat == Ok && Valid() && bit == Bits()[old(Pos())]
      ensures stat == Ok && old(bitOffset) == 8 ==> bitOffset == 7
    {
      ghost var p := Pos();
      bitOffset := bitOffset - 1;
      if bitOffset < 0 {
        byteIndex := byteIndex + 1;
        if byteIndex >= size { return EndOfBuf, false; }
        bitOffset := 7;
      }
      bit := Shr(data[byteIndex], bitOffset) % 2 == 1;
      if p < 8 * size { BitAt(data[..size], byteIndex, bitOffset); }
      return Ok, bit;
    }

    /** n bits as a number, of which 32 bits are kept. */
    method DecodeBits(n: nat) returns (stat: Stat, value: U32)
      requires Near()
      modifies this`byteIndex, this`bitOffset
      ensures var r := DecBits(Bits(), old(Pos()), n);
              && stat == (if r.Got? then Ok else EndOfBuf)
              && (r.Got? ==> value == Wrap(r.value) && Near() && Pos() == r.pos && (n > 0 ==> bitOffset > 0) && (n > 0 || old(Valid()) ==> Valid()))
              && (r.Fail? || n == 0 ==> byteIndex == old(byteIndex) && bitOffset == old(bitOffset))
    {
      hide Flat, BitsOf, ValOf, Shl, Shr, Low, BitOr;
      ghost var (b, p) := (Bits(), Pos());
      value := 0;
      if n == 0 { return Ok, 0; }
      if n < bitOffset {
        if byteIndex >= size { return EndOfBuf, 0; }
        ReadField(data[..size], byteIndex, bitOffset, n);
        bitOffset := bitOffset - n;
        FieldFits(data[byteIndex], bitOffset, n);
        value := Low(Shr(data[byteIndex], bitOffset), n);
        return Ok, value;
      }
      var nbytes := (n - bitOffset + 7) / 8;
      if byteIndex + nbytes >= size { return EndOfBuf, 0; }
      ReadField(data[..size], byteIndex, bitOffset, bitOffset);
      FieldFits(data[byteIndex], 0, bitOffset);
      value := Low(data[byteIndex], bitOffset);
      var left := n - bitOffset;
      bitOffset := 8;
      byteIndex := byteIndex + 1;
      assert b[p..p + (n - left)] == b[p..8 * byteIndex];
      value := MoreBits(value, p, left);
      return Ok, value;
    }

    /** The rest of a field that began at p and goes on with whole octets here. */
    method MoreBits(first: U32, ghost p: nat, n: nat) returns (value: U32)
      requires Near() && bitOffset == 8 && p <= 8 * byteIndex && 8 * byteIndex + n <= 8 * size
      requires first == Wrap(ValOf(Bits()[p..8 * byteIndex]))
      modifies this`byteIndex, this`bitOffset
      ensures Valid() && Pos() == old(Pos()) + n && bitOffset > 0 && value == Wrap(ValOf(Bits()[p..Pos()]))
    {
      hide Flat, BitsOf, ValOf, Shl, Shr, Low, BitOr, Decoder.Bits;
      ghost var b := Bits();
      var left := n;
      value := first;
      while left >= 8
        invariant 0 <= left <= n && bitOffset == 8 && old(Pos()) + (n - left) == 8 * byteIndex && 8 * byteIndex + left <= 8 * size
        invariant value == Wrap(ValOf(b[p..8 * byteIndex]))
      {
        value := TakeIn(value, b, p, 8);
        byteIndex := byteIndex + 1;
        left := left - 8;
      }
      if left > 0 {
        value := TakeIn(value, b, p, left);
        bitOffset := 8 - left;
      }
    }

    /** (value << k) | (octet >> (8 - k)). */
    method TakeIn(value: U32, ghost b: seq<bool>, ghost p: nat, k: nat) returns (r: U32)
      requires Near() && byteIndex < size && b == Bits() && p <= 8 * byteIndex && 1 <= k <= 8
      requires value == Wrap(ValOf(b[p..8 * byteIndex]))
      ensures r == Wrap(ValOf(b[p..8 * byteIndex + k]))
    {
      hide Flat, BitsOf, ValOf, Shl, Shr, Low, BitOr;
      ReadField(data[..size], byteIndex, 8, k);
      var x := Shr(data[byteIndex], 8 - k);
      assert x < Pow2(k) by { Pow2Small(); ShrBelow(data[byteIndex], k, 8 - k); }
      ShiftIn(value, b[p..8 * byteIndex], x, k);
      assert b[p..8 * byteIndex] + BitsOf(x, k) == b[p..8 * byteIndex + k];
      r := BitOr(Wrap(Shl(value, k)), x);
    }

    method DecodeByteAlign()
      requires Near()
      modifies this`byteIndex, this`bitOffset
      ensures bitOffset == 8 && Pos() == AlignUp(old(Pos()))
      ensures old(Valid()) ==> Valid()
    {
      if bitOffset != 8 {
        byteIndex := byteIndex + 1;
        bitOffset := 8;
      }
    }

    method MoveBitCursor(n: nat) returns (stat: Stat)
      requires Near()
      modifies this`byteIndex, this`bitOffset
      ensures 1 <= bitOffset <= 8 && Pos() == old(Pos()) + n
      ensures stat == if Near() then Ok else EndOfBuf
    {
      var cur := 8 * byteIndex + (8 - bitOffset) + n;
      byteIndex := cur / 8;
      bitOffset := 8 - cur % 8;
      if byteIndex > size { return EndOfBuf; }
      return Ok;
    }

    // ---------- whole numbers ----------

    method DecodeConsWholeNumber(range: U32) returns (stat: Stat, value: U32)
      requires Valid()
      modifies this`byteIndex, this`bitOffset
      ensures var r := DecWhole(Bits(), old(Pos()), range);
              && stat == (if r.Got? then Ok else EndOfBuf)
              && (r.Got? ==> value == r.value && Valid() && Pos() == r.pos)
      ensures stat == Ok && bitOffset == 0 ==> old(bitOffset) == 0
    {
      hide Decoder.Bits, DecBits, Pow2, BitCount;
      ghost var (b, p) := (Bits(), Pos());
      var range_bitcnt;
      assert Pow2(2) == 4 by { Pow2Small(); }
      assert Pow2(32) == 0x1_0000_0000 by { Pow2Big(); }
      if range <= 255 {
        range_bitcnt := BitCount(Wrap(range - 1));
      } else if range <= 65536 {
        DecodeByteAlign();
        range_bitcnt := if range == 256 then 8 else 16;
      } else {
        var nocts;
        stat, nocts := DecodeBits(2);
        if stat != Ok { return EndOfBuf, 0; }
        ReadBelow(b, p, 2);
        DecodeByteAlign();
        range_bitcnt := (nocts + 1) * 8;
      }
      ghost var q := Pos();
      stat, value := DecodeBits(range_bitcnt);
      if stat == Ok { ReadBelow(b, q, range_bitcnt); }
    }

    method DecodeConsInteger(lower: I32, upper: I32) returns (stat: Stat, value: I32)
      requires Valid()
      modifies this`byteIndex, this`bitOffset
      ensures var r := DecInt(Bits(), old(Pos()), lower, upper);
              && stat == (if r.Got? then Ok else r.why)
              && (r.Got? ==> value == r.value && Valid() && Pos() == r.pos)
    {
      hide Decoder.Bits, DecWhole;
      var range_value := Wrap(upper - lower);
      if range_value != 0xFFFF_FFFF { range_value := range_value + 1; }
      stat, value := Ok, 0;
      if lower > upper { return RangErr, 0; }
      else if lower != upper {
        var adjusted_value;
        stat, adjusted_value := DecodeConsWholeNumber(range_value);
        if stat == Ok {
          value := Signed(adjusted_value + lower);
          if value < lower || value > upper { stat := ConsVio; }
        }
      } else {
        value := lower;
      }
    }

    method DecodeConsUnsigned(lower: U32, upper: U32) returns (stat: Stat, value: U32)
      requires Valid()
      modifies this`byteIndex, this`bitOffset
      ensures var r := DecUns(Bits(), old(Pos()), lower, upper);
              && stat == (if r.Got? then Ok else r.why)
              && (r.Got? ==> value == r.value && Valid() && Pos() == r.pos)
    {
      hide Decoder.Bits, DecWhole;
      var range_value := UnsRange(lower, upper);
      stat, value := Ok, lower;
      if lower != upper {
        var adjusted_value;
        stat, adjusted_value := DecodeConsWholeNumber(range_value);
        if stat == Ok {
          value := Wrap(adjusted_value + lower);
          if value < lower || value > upper { stat := ConsVio; }
        }
      }
    }

    // ---------- lengths ----------

    /** Not at the end of the buffer when an extension bit must be read. */
    predicate Ready()
      requires bitOffset <= 8
      reads this
    {
      Extendable(sizes) ==> Pos() < 8 * size
    }

    method DecodeUncons() returns (stat: Stat, n: U32)
      requires Valid()
      modifies this`byteIndex, this`bitOffset
      ensures var r := DecUncons(Bits(), old(Pos()));
              && stat == (if r.Fail? then EndOfBuf else if r.value.more then OkFrag else Ok)
              && (r.Got? ==> n == r.value.n && Valid() && Pos() == r.pos && bitOffset == 8)
    {
      hide Decoder.Bits, ValOf;
      ghost var b := Bits();
      n := 0;
      DecodeByteAlign();
      ghost var p := Pos();
      var bitValue;
      stat, bitValue := DecodeBit();
      if stat != Ok { return EndOfBuf, 0; }
      if !bitValue {
        stat, n := DecodeBits(7);
        SmallWord(b, p + 1, 7);
      } else {
        stat, bitValue := DecodeBit();
        if stat != Ok { return EndOfBuf, 0; }
        if !bitValue {
          stat, n := DecodeBits(14);
          SmallWord(b, p + 2, 14);
        } else {
          var multiplier;
          stat, multiplier := DecodeBits(6);
          if stat != Ok { return EndOfBuf, 0; }
          SmallWord(b, p + 2, 6);
          n := 16384 * multiplier;
          stat := OkFrag;
        }
      }
    }

    /** A length, under the pending size constraint, which it uses up. */
    method DecodeLength() returns (stat: Stat, n: U32)
      requires Valid() && Ready()
      modifies this`byteIndex, this`bitOffset, this`sizes
      ensures var r := DecLength(Bits(), old(Pos()), old(sizes));
              && stat == (if r.Fail? then EndOfBuf else if r.value.more then OkFrag else Ok)
              && (r.Got? ==> n == r.value.n && Valid() && Pos() == r.pos && sizes == [])
      ensures old(sizes) == [] && stat != EndOfBuf ==> bitOffset == 8
      ensures bitOffset == 0 && stat != EndOfBuf ==> old(bitOffset) == 0 || Extendable(old(sizes))
      ensures stat == OkFrag ==> bitOffset == 8
    {
      hide Decoder.Bits, DecWhole, DecUncons, GetSize;
      ghost var (b, p, cur) := (Bits(), Pos(), sizes);
      n := 0;
      var extbit := false;
      if Extendable(sizes) {
        stat, extbit := DecodeBit();
        if stat != Ok { return; }
      }
      var pSize := GetSize(sizes, extbit);
      var lower, upper := LowerOf(pSize), UpperOf(pSize);
      sizes := [];
      assert DecLength(b, p, cur) == DecBounded(b, Pos(), lower, upper);
      ghost var q := Pos();
      if upper < 65536 {
        stat := Ok;
        if lower != upper {
          stat, n := DecodeConsWholeNumber(Wrap(upper as int - lower + 1));
        }
        if stat == Ok { n := Wrap(n + lower); }
      } else {
        stat, n := DecodeUncons();
      }
    }

    // ---------- runs of octets ----------

    /** All the readable memory: the buffer and what lies just after it. */
    ghost function Mem(): (b: seq<bool>)
      reads data
      ensures |b| == 8 * data.Length
    {
      Flat(data[..])
    }

    /** nbits into the octets of out from base on. Off an octet boundary only whole octets are checked
        for, so that the last octet can come in part from after the end of the buffer. */
    method DecodeOctets(out: array<Byte>, base: nat, bufsiz: nat, nbits: nat) returns (stat: Stat)
      requires Valid() && out != data && base + bufsiz <= out.Length
      requires bitOffset == 0 && nbits % 8 == 0 && nbits / 8 <= bufsiz ==> base + nbits / 8 < out.Length
      modifies this`byteIndex, this`bitOffset, out
      ensures var nbytes := (nbits + 7) / 8;
              && stat == (if old(byteIndex) + nbytes > size then EndOfBuf else if nbytes > bufsiz then StrOvflw else Ok)
              && (stat == Ok ==>
                    && 0 <= bitOffset <= 8 && Pos() == old(Pos()) + nbits && Pos() <= 8 * data.Length
                    && out[base..base + nbytes] == Pack(Mem()[old(Pos())..Pos()])
                    && (old(bitOffset) == 8 ==> bitOffset > 0))
      ensures forall k | 0 <= k < base :: out[k] == old(out[k])
    {
      hide Flat, BitsOf, Pack, HighPart, Decoder.Mem;
      ghost var p := Pos();
      var nbytes := (nbits + 7) / 8;
      if byteIndex + nbytes > size { return EndOfBuf; }
      if nbytes > bufsiz { return StrOvflw; }
      if bitOffset == 8 {
        CopyOctets(out, base, nbits);
      } else {
        ShiftOctets(out, base, nbits);
      }
      MaskLast(out, base, nbits, p);
      return Ok;
    }

    /** Whole octets in place; of a last partial one, its bits and perhaps more. */
    ghost predicate Loaded(w: seq<Byte>, p: nat, nbits: nat) reads data {
      && p + nbits <= 8 * data.Length && |w| == (nbits + 7) / 8
      && w[..nbits / 8] == Pack(Mem()[p..p + 8 * (nbits / 8)])
      && (nbits % 8 != 0 ==> BitsOf(w[nbits / 8], 8)[..nbits % 8] == Mem()[p + 8 * (nbits / 8)..p + nbits])
    }

    method MaskLast(out: array<Byte>, base: nat, nbits: nat, ghost p: nat)
      requires out != data && base + (nbits + 7) / 8 <= out.Length && Loaded(out[base..base + (nbits + 7) / 8], p, nbits)
      modifies out
      ensures p + nbits <= 8 * data.Length && out[base..base + (nbits + 7) / 8] == Pack(Mem()[p..p + nbits])
      ensures forall k | 0 <= k < base :: out[k] == old(out[k])
    {
      hide Flat, BitsOf, Pack, HighPart, Decoder.Mem;
      var full, r := nbits / 8, nbits % 8;
      ghost var w := out[base..base + (nbits + 7) / 8];
      MaskedPack(w, Mem(), p, full, r);
      if r != 0 {
        assert out[base + full] == w[full];
        out[base + full] := HighPart(out[base + full], r);
        assert out[base..base + full + 1] == w[..full] + [HighPart(w[full], r)];
      }
    }

    method CopyOctets(out: array<Byte>, base: nat, nbits: nat)
      requires Valid() && bitOffset == 8 && out != data
      requires byteIndex + (nbits + 7) / 8 <= size && base + (nbits + 7) / 8 <= out.Length
      modifies this`byteIndex, this`bitOffset, out
      ensures 0 < bitOffset <= 8 && Pos() == old(Pos()) + nbits && Loaded(out[base..base + (nbits + 7) / 8], old(Pos()), nbits)
      ensures forall k | 0 <= k < base :: out[k] == old(out[k])
    {
      hide Flat, BitsOf, Pack;
      var nbytes := (nbits + 7) / 8;
      CopyRaw(out, base, nbytes);
      LoadedCopy(out[base..base + nbytes], byteIndex, nbits);
      var stat := MoveBitCursor(nbits);
    }

    /** memcpy from the cursor. */
    method CopyRaw(out: array<Byte>, base: nat, n: nat)
      requires out != data && byteIndex + n <= data.Length && base + n <= out.Length
      modifies out
      ensures out[base..base + n] == data[byteIndex..byteIndex + n]
      ensures forall k | 0 <= k < base :: out[k] == old(out[k])
    {
      var i := byteIndex;
      forall k | 0 <= k < n { out[base + k] := data[i + k]; }
      ghost var (w, v) := (out[base..base + n], data[i..i + n]);
      assert forall k | 0 <= k < n :: w[k] == v[k];
    }

    lemma LoadedCopy(w: seq<Byte>, i: nat, nbits: nat)
      requires i + (nbits + 7) / 8 <= data.Length && w == data[i..i + (nbits + 7) / 8]
      ensures Loaded(w, 8 * i, nbits)
    {
      hide Flat, BitsOf, Pack;
      var (full, d) := (nbits / 8, data[..]);
      assert w[..full] == d[i..i + full];
      CopyLoads(d, i, i + full, nbits % 8);
    }

    /** Off an octet boundary: every octet comes from two. */
    method ShiftOctets(out: array<Byte>, base: nat, nbits: nat)
      requires Valid() && bitOffset < 8 && out != data
      requires byteIndex + (nbits + 7) / 8 <= size && base + (nbits + 7) / 8 <= out.Length
      requires bitOffset == 0 && nbits % 8 == 0 ==> base + nbits / 8 < out.Length
      modifies this`byteIndex, this`bitOffset, out
      ensures 0 <= bitOffset <= 8 && Pos() == old(Pos()) + nbits && Loaded(out[base..base + (nbits + 7) / 8], old(Pos()), nbits)
      ensures forall k | 0 <= k < base :: out[k] == old(out[k])
    {
      hide Flat, BitsOf, Pack, Decoder.Mem;
      var full, rshift := nbits / 8, bitOffset;
      ShiftWhole(out, base, full);
      ghost var done := out[base..base + full];
      LastPart(out, base + full, nbits % 8, rshift);
      assert out[base..base + full] == done;
      ghost var w := out[base..base + (nbits + 7) / 8];
      assert w[..full] == done;
    }

    /** All the whole octets. */
    method ShiftWhole(out: array<Byte>, base: nat, full: nat)
      requires Valid() && bitOffset < 8 && out != data && byteIndex + full <= size && base + full <= out.Length
      modifies this`byteIndex, out
      ensures byteIndex == old(byteIndex) + full && Near()
      ensures old(Pos()) + 8 * full <= 8 * data.Length && out[base..base + full] == Pack(Mem()[old(Pos())..old(Pos()) + 8 * full])
      ensures forall k | 0 <= k < base :: out[k] == old(out[k])
    {
      hide Flat, BitsOf, Pack, Decoder.Mem, BitOr, Shl, Shr;
      ghost var (p, m) := (Pos(), Mem());
      var rshift, lshift := bitOffset, 8 - bitOffset;
      NothingPacked();
      assert m[p..p] == [];
      for i := 0 to full
        invariant byteIndex == old(byteIndex) + i && bitOffset == rshift && m == Mem()
        invariant p + 8 * i <= |m| && out[base..base + i] == Pack(m[p..p + 8 * i])
        invariant forall k | 0 <= k < base :: out[k] == old(out[k])
      {
        ghost var done := out[base..base + i];
        StraddleAt(byteIndex, rshift);
        out[base + i] := Shl(data[byteIndex], lshift) % 256;
        byteIndex := byteIndex + 1;
        out[base + i] := BitOr(out[base + i], Shr(data[byteIndex], rshift));
        assert out[base..base + i + 1] == done + [out[base + i]];
        GrowPack(m, p, p + 8 * i, out[base + i]);
      }
    }

    lemma StraddleAt(i: nat, o: nat)
      requires i + 1 < data.Length && o <= 8
      ensures var y := BitOr(Shl(data[i], 8 - o) % 256, Shr(data[i + 1], o));
              && y < 256
              && BitsOf(y, 8) == Mem()[8 * i + 8 - o..8 * i + 16 - o]
    {
      StraddleFull(data[..], i, o);
    }

    method LastPart(out: array<Byte>, at: nat, left: nat, rshift: nat)
      requires Near() && bitOffset == rshift < 8 && left < 8 && out != data && (left > 0 ==> byteIndex < size)
      requires left > 0 || rshift == 0 ==> at < out.Length
      modifies this`byteIndex, this`bitOffset, out
      ensures 0 <= bitOffset <= 8 && Pos() == old(Pos()) + left && Pos() <= 8 * data.Length
      ensures left > 0 ==> BitsOf(out[at], 8)[..left] == Mem()[old(Pos())..Pos()]
      ensures forall k | 0 <= k < at :: k < out.Length ==> out[k] == old(out[k])
    {
      hide Flat, BitsOf;
      var lshift := 8 - rshift;
      if left >= rshift {
        var k := left - rshift;
        ShiftUp(data[..], byteIndex, rshift);
        if k > 0 { Straddle(data[..], byteIndex, rshift, k); }
        out[at] := Shl(data[byteIndex], lshift) % 256;
        byteIndex := byteIndex + 1;
        if k > 0 {
          out[at] := BitOr(out[at], Shr(data[byteIndex], rshift));
        }
        bitOffset := 8 - k;
      } else if left > 0 {
        ShiftUp(data[..], byteIndex, rshift);
        out[at] := Shl(data[byteIndex], lshift) % 256;
        ghost var p := Pos();
        PartOf(Mem(), p, BitsOf(out[at], 8), rshift, left);
        bitOffset := rshift - left;
      }
    }

    // ---------- strings ----------

    /** Off an octet boundary a store may touch one octet more than the string has. */
    predicate Spare(out: array?<Byte>, base: nat, bufsiz: nat) reads this {
      out != null && (bitOffset == 0 || Extendable(sizes)) ==> base + 2 < out.Length || bufsiz < out.Length
    }

    /** Where a read of nbits from q should leave things: they are in out from base on, or skipped
        when there is no out; or they do not fit out; or they are not all there. */
    ghost predicate ReadAt(q: nat, nbits: nat, stat: Stat, out: array?<Byte>, base: nat, bufsiz: nat)
      reads this`byteIndex, this`bitOffset, data, out
    {
      && (stat == Ok ==> 0 <= bitOffset <= 8) && stat in {Ok, EndOfBuf, StrOvflw}
      && (stat == StrOvflw ==> out != null && bufsiz < base + (nbits + 7) / 8)
      && if q + nbits > 8 * size then stat == Ok ==> !Valid()
         else if out == null || base + (nbits + 7) / 8 <= bufsiz then
           && stat == Ok && Valid() && Pos() == q + nbits
           && (out != null ==> base + (nbits + 7) / 8 <= out.Length
                               && out[base..base + (nbits + 7) / 8] == Pack(Bits()[q..q + nbits]))
         else stat == StrOvflw
    }

    /** A failure for the reason given, or because there is too little room; or, off an octet boundary,
        a read past the end that has gone unnoticed. */
    ghost predicate Failed(stat: Stat, why: Stat, out: array?<Byte>)
      reads this`byteIndex, this`bitOffset
    {
      (stat == Ok && !Valid() && why == EndOfBuf) || (stat == why && stat != Ok && stat != OkFrag) || (stat == StrOvflw && out != null)
    }

    /** The outcome of reading the fragment r. */
    ghost predicate Landed(r: Dec<Fragment>, stat: Stat, n: U32, octets: bool, out: array?<Byte>, base: nat, bufsiz: nat)
      reads this, data, out
    {
      && (stat == OkFrag ==> bitOffset == 8) && (stat == Ok ==> 0 <= bitOffset <= 8)
      && if r.Fail? then Failed(stat, r.why, out)
         else if out == null || base + (|r.value.data| + 7) / 8 <= bufsiz then
           && stat == (if r.value.more then OkFrag else Ok) && sizes == []
           && Valid() && Pos() == r.pos && Span(octets, n) == |r.value.data|
           && (out != null ==> base + (|r.value.data| + 7) / 8 <= out.Length
                               && out[base..base + (|r.value.data| + 7) / 8] == Pack(r.value.data))
         else stat == StrOvflw
    }

    /** One length and its share of the contents. */
    method DecodeFragment(octets: bool, out: array?<Byte>, base: nat, bufsiz: nat, all: seq<Size>)
      returns (stat: Stat, n: U32)
      requires Valid() && Ready() && Spare(out, base, bufsiz)
      requires out != null ==> out != data && base <= bufsiz <= out.Length
      modifies this`byteIndex, this`bitOffset, this`sizes, out
      ensures Landed(DecFragment(Bits(), old(Pos()), old(sizes), all, octets), stat, n, octets, out, base, bufsiz)
      ensures stat == StrOvflw ==> !Fits(Bits(), old(Pos()), old(sizes), octets, base, bufsiz)
      ensures out != null ==> forall k | 0 <= k < base :: out[k] == old(out[k])
    {
      hide Flat, Pack, Decoder.Mem, Decoder.Bits, DecLength, AlignTest, Extendable, DecFragment, AlignUp, Decoder.Landed, Decoder.ReadAt;
      ghost var (b, p, cur) := (Bits(), Pos(), sizes);
      stat, n := DecodeLength();
      var more := stat == OkFrag;
      if more && n > 0 { LongFragment(b, p, cur); }
      assert out != null && bitOffset == 0 && stat != EndOfBuf ==> base + 2 < out.Length || bufsiz < out.Length;
      hide Decoder.Spare, Decoder.Ready;
      if stat == EndOfBuf {
        NoFragment(b, p, cur, all, octets);
        LandedNowhere(b, p, cur, all, stat, n, octets, out, base, bufsiz);
        return;
      }
      if n == 0 {
        EmptyFragment(b, p, cur, all, octets, more, Pos());
        LandedEmpty(stat, octets, out, base, bufsiz);
        return;
      }
      stat := DecodeItems(octets, out, base, bufsiz, all, n, more, b, p, cur);
    }

    /** n items, of which there are some, after their length. */
    method DecodeItems(octets: bool, out: array?<Byte>, base: nat, bufsiz: nat, all: seq<Size>, n: U32, frag: bool,
                       ghost b: seq<bool>, ghost p: nat, ghost cur: seq<Size>) returns (stat: Stat)
      requires Valid() && b == Bits() && n > 0 && sizes == [] && DecLength(b, p, cur) == Got(Count(n, frag), Pos())
      requires frag ==> n >= 16384
      requires out != null ==> out != data && base <= bufsiz <= out.Length
      requires out != null && bitOffset == 0 ==> base + 2 < out.Length || bufsiz < out.Length
      modifies this`byteIndex, this`bitOffset, out
      ensures Landed(DecFragment(b, p, cur, all, octets), stat, n, octets, out, base, bufsiz)
      ensures stat == StrOvflw ==> !Fits(b, p, cur, octets, base, bufsiz)
      ensures out != null ==> forall k | 0 <= k < base :: out[k] == old(out[k])
    {
      hide Flat, Pack, Decoder.Mem, Decoder.Bits, DecLength, AlignTest, DecFragment, AlignUp, Decoder.Landed, Decoder.ReadAt, Fits, Span;
      if frag { LongAligned(all, n, octets); }
      var doAlign := AlignTest(all, n, octets);
      if doAlign.None? {
        NoFragment(b, p, cur, all, octets);
        LandedNowhere(b, p, cur, all, ConsVio, n, octets, out, base, bufsiz);
        return ConsVio;
      }
      ShortUnaligned(all, n, octets);
      ghost var q := if doAlign.value then AlignUp(Pos()) else Pos();
      FragmentIs(b, p, cur, all, octets, Count(n, frag), Pos(), q);
      if frag { SpanWhole(octets, n); }
      stat := DecodeContents(out, base, bufsiz, Span(octets, n), doAlign.value);
      LandedRead(DecFragment(b, p, cur, all, octets), q, stat, n, octets, out, base, bufsiz, frag);
      FirstFits(b, p, cur, octets, base, bufsiz);
      if stat == Ok && frag { stat := OkFrag; }
    }

    lemma SpanWhole(octets: bool, n: nat)
      requires n % 8 == 0
      ensures Span(octets, n) % 8 == 0
    {}

    lemma LandedNowhere(b: seq<bool>, p: nat, cur: seq<Size>, all: seq<Size>, stat: Stat, n: U32, octets: bool, out: array?<Byte>, base: nat, bufsiz: nat)
      requires DecFragment(b, p, cur, all, octets) == Fail(stat) && stat != Ok && stat != OkFrag
      ensures Landed(DecFragment(b, p, cur, all, octets), stat, n, octets, out, base, bufsiz)
    {}

    lemma LandedEmpty(stat: Stat, octets: bool, out: array?<Byte>, base: nat, bufsiz: nat)
      requires Valid() && sizes == [] && (stat == Ok || stat == OkFrag) && (stat == OkFrag ==> bitOffset == 8)
      requires out != null ==> base <= bufsiz <= out.Length
      ensures Landed(Got(Fragment([], stat == OkFrag), Pos()), stat, 0, octets, out, base, bufsiz)
    {
      NothingPacked();
    }

    lemma LandedRead(r: Dec<Fragment>, q: nat, got: Stat, n: U32, octets: bool, out: array?<Byte>, base: nat, bufsiz: nat, more: bool)
      requires size < data.Length && sizes == [] && ReadAt(q, Span(octets, n), got, out, base, bufsiz)
      requires var e := q + Span(octets, n);
               && r == (if e > 8 * size then Fail(EndOfBuf) else Got(Fragment(Bits()[q..e], more), e))
               && (more ==> e % 8 == 0 && (got == Ok ==> bitOffset > 0 && e <= 8 * size))
      ensures Landed(r, if got == Ok then (if more then OkFrag else Ok) else got, n, octets, out, base, bufsiz)
    {
      hide Decoder.Bits, Pack;
    }

    method DecodeContents(out: array?<Byte>, base: nat, bufsiz: nat, nbits: nat, doAlign: bool) returns (stat: Stat)
      requires Valid() && (out != null ==> out != data && base <= bufsiz <= out.Length)
      requires out != null && bitOffset == 0 && nbits <= 16 ==> base + 2 < out.Length || bufsiz < out.Length
      requires nbits > 16 ==> doAlign
      modifies this`byteIndex, this`bitOffset, out
      ensures ReadAt(if doAlign then AlignUp(old(Pos())) else old(Pos()), nbits, stat, out, base, bufsiz)
      ensures stat == StrOvflw ==> bufsiz < base + (nbits + 7) / 8
      ensures doAlign && stat == Ok ==> bitOffset > 0 && (nbits % 8 == 0 ==> AlignUp(old(Pos())) + nbits <= 8 * size)
      ensures out != null ==> forall k | 0 <= k < base :: out[k] == old(out[k])
    {
      hide Decoder.ReadAt;
      if doAlign { DecodeByteAlign(); }
      if out != null {
        stat := StoreContents(out, base, bufsiz, nbits);
      } else {
        stat := SkipContents(nbits, base, bufsiz);
      }
    }

    method StoreContents(out: array<Byte>, base: nat, bufsiz: nat, nbits: nat) returns (stat: Stat)
      requires Valid() && out != data && base <= bufsiz <= out.Length
      requires bitOffset == 0 && nbits <= 16 ==> base + 2 < out.Length || bufsiz < out.Length
      requires nbits > 16 ==> bitOffset == 8
      modifies this`byteIndex, this`bitOffset, out
      ensures ReadAt(old(Pos()), nbits, stat, out, base, bufsiz)
      ensures stat == StrOvflw ==> bufsiz < base + (nbits + 7) / 8
      ensures old(bitOffset) == 8 && stat == Ok ==> bitOffset > 0 && (nbits % 8 == 0 ==> old(Pos()) + nbits <= 8 * size)
      ensures forall k | 0 <= k < base :: out[k] == old(out[k])
    {
      hide Pack, Decoder.Mem, Decoder.Bits;
      ghost var (p, e) := (Pos(), Pos() + nbits);
      stat := DecodeOctets(out, base, bufsiz - base, nbits);
      if e <= 8 * size { InBuffer(p, e); }
    }

    method SkipContents(nbits: nat, ghost base: nat, ghost bufsiz: nat) returns (stat: Stat)
      requires Valid()
      modifies this`byteIndex, this`bitOffset
      ensures stat != StrOvflw && (stat == Ok ==> bitOffset > 0)
      ensures ReadAt(old(Pos()), nbits, stat, null, base, bufsiz)
      ensures old(bitOffset) == 8 && stat == Ok && nbits % 8 == 0 ==> old(Pos()) + nbits <= 8 * size
    {
      stat := MoveBitCursor(nbits);
    }

    /** Inside the buffer, the memory and the buffer are the same. */
    lemma InBuffer(p: nat, q: nat)
      requires p <= q <= 8 * size && size < data.Length
      ensures Mem()[p..q] == Bits()[p..q]
    {
      FlatCut(data[..], size);
      assert data[..][..size] == data[..size];
      assert Mem()[p..q] == Mem()[..8 * size][p..q];
    }

    /** A string, fragment after fragment, while lengths announce more. */
    method DecodeFragments(octets: bool, out: array?<Byte>, bufsiz: nat, all: seq<Size>) returns (stat: Stat, n: nat)
      requires Valid() && Ready() && Spare(out, 0, bufsiz)
      requires out != null ==> out != data && bufsiz <= out.Length
      modifies this`byteIndex, this`bitOffset, this`sizes, out
      ensures var r := DecString(Bits(), old(Pos()), old(sizes), all, octets);
              if r.Got? && (out == null || (|r.value| + 7) / 8 <= bufsiz) then
                && stat == Ok && Valid() && Pos() == r.pos && Span(octets, n) == |r.value| && sizes == []
                && (out != null ==> out[..(|r.value| + 7) / 8] == Pack(r.value))
              else if r.Got? then stat == StrOvflw
              else Failed(stat, r.why, out)
      ensures stat == Ok ==> 0 <= bitOffset <= 8
      ensures stat == StrOvflw ==> !Fits(Bits(), old(Pos()), old(sizes), octets, 0, bufsiz)
    {
      hide Flat, Pack, Decoder.Bits, DecFragment, DecString, Extendable, Before, Fits;
      ghost var fits := Fits(Bits(), Pos(), sizes, octets, 0, bufsiz);
      ghost var whole := DecString(Bits(), Pos(), sizes, all, octets);
      ghost var got: seq<bool> := [];
      NothingPacked();
      OnlyRest(whole);
      var octidx: nat := 0;
      n := 0;
      while true
        invariant Midway(octets, out, octidx, bufsiz, all, n, got, whole) && Ready() && Spare(out, octidx, bufsiz)
        invariant fits ==> Fits(Bits(), Pos(), sizes, octets, octidx, bufsiz)
        decreases 8 * size - Pos()
      {
        var count;
        stat, count, got := NextFragment(octets, out, octidx, bufsiz, all, n, got, whole, fits);
        n := n + count;
        if stat != OkFrag { return; }
        octidx := octidx + Span(octets, count) / 8;
        NotExtendable();
      }
    }

    /** n items have been read, which are the bits in got; what is left of the whole is at the cursor. */
    ghost predicate Midway(octets: bool, out: array?<Byte>, octidx: nat, bufsiz: nat, all: seq<Size>, n: nat, got: seq<bool>, whole: Dec<seq<bool>>)
      reads this, data, out
    {
      && Valid() && whole == Before(got, DecString(Bits(), Pos(), sizes, all, octets))
      && Span(octets, n) == |got| == 8 * octidx
      && (out != null ==> octidx <= bufsiz <= out.Length && out[..octidx] == Pack(got))
    }

    method NextFragment(octets: bool, out: array?<Byte>, octidx: nat, bufsiz: nat, all: seq<Size>, n: nat, ghost got: seq<bool>, ghost whole: Dec<seq<bool>>, ghost fits: bool)
      returns (stat: Stat, count: U32, ghost more: seq<bool>)
      requires Midway(octets, out, octidx, bufsiz, all, n, got, whole) && Ready() && Spare(out, octidx, bufsiz) && out != data
      requires fits ==> Fits(Bits(), Pos(), sizes, octets, octidx, bufsiz)
      modifies this`byteIndex, this`bitOffset, this`sizes, out
      ensures stat == OkFrag ==>
                && Midway(octets, out, octidx + Span(octets, count) / 8, bufsiz, all, n + count, more, whole)
                && sizes == [] && bitOffset == 8 && Pos() > old(Pos())
                && (fits ==> Fits(Bits(), Pos(), sizes, octets, octidx + Span(octets, count) / 8, bufsiz))
      ensures stat == Ok ==> 0 <= bitOffset <= 8
      ensures stat == StrOvflw ==> !fits
      ensures stat != OkFrag ==>
                if whole.Got? && (out == null || (|whole.value| + 7) / 8 <= bufsiz) then
                  && stat == Ok && Valid() && Pos() == whole.pos && Span(octets, n + count) == |whole.value| && sizes == []
                  && (out != null ==> out[..(|whole.value| + 7) / 8] == Pack(whole.value))
                else if whole.Got? then stat == StrOvflw
                else Failed(stat, whole.why, out)
    {
      hide Flat, Pack, Decoder.Bits, DecFragment, DecString, Extendable, Before, Decoder.Ready, Decoder.Spare, Decoder.Landed, FragmentGoes, Fits;
      ghost var (b, p, cur, done) := (Bits(), Pos(), sizes, if out == null then [] else out[..octidx]);
      ghost var f := DecFragment(b, p, cur, all, octets);
      FragmentStep(whole, got, b, p, cur, all, octets);
      stat, count := DecodeFragment(octets, out, octidx, bufsiz, all);
      more := if f.Got? then got + f.value.data else got;
      assert out != null ==> out[..octidx] == done;
      if stat == OkFrag {
        GoesOn(f, octets, out, octidx, bufsiz, all, n, count, got, whole, p);
        if fits { RestFits(b, p, cur, all, octets, octidx, bufsiz, count); }
      } else {
        Ends(f, stat, octets, out, octidx, bufsiz, all, n, count, got, whole, p);
      }
    }

    lemma GoesOn(f: Dec<Fragment>, octets: bool, out: array?<Byte>, octidx: nat, bufsiz: nat, all: seq<Size>, n: nat, count: U32, got: seq<bool>, whole: Dec<seq<bool>>, p: nat)
      requires size < data.Length && Landed(f, OkFrag, count, octets, out, octidx, bufsiz)
      requires Span(octets, n) == |got| == 8 * octidx && FragmentGoes(whole, got, Bits(), p, all, octets, f)
      requires out != null ==> octidx <= bufsiz <= out.Length && out[..octidx] == Pack(got)
      ensures f.Got? && Midway(octets, out, octidx + Span(octets, count) / 8, bufsiz, all, n + count, got + f.value.data, whole)
      ensures f.value.more && |f.value.data| == Span(octets, count) && f.pos == Pos()
      ensures sizes == [] && bitOffset == 8 && Pos() > p
    {
      hide Pack, Decoder.Bits, DecString, Before;
      if out != null { Extended(out[..octidx + (|f.value.data| + 7) / 8], out[..octidx], octidx); }
    }

    lemma Ends(f: Dec<Fragment>, stat: Stat, octets: bool, out: array?<Byte>, octidx: nat, bufsiz: nat, all: seq<Size>, n: nat, count: U32, got: seq<bool>, whole: Dec<seq<bool>>, p: nat)
      requires size < data.Length && stat != OkFrag && Landed(f, stat, count, octets, out, octidx, bufsiz)
      requires Span(octets, n) == |got| == 8 * octidx && FragmentGoes(whole, got, Bits(), p, all, octets, f)
      requires out != null ==> octidx <= bufsiz <= out.Length && out[..octidx] == Pack(got)
      ensures stat == Ok ==> 0 <= bitOffset <= 8
      ensures if whole.Got? && (out == null || (|whole.value| + 7) / 8 <= bufsiz) then
                && stat == Ok && Valid() && Pos() == whole.pos && Span(octets, n + count) == |whole.value| && sizes == []
                && (out != null ==> out[..(|whole.value| + 7) / 8] == Pack(whole.value))
              else if whole.Got? then stat == StrOvflw
              else Failed(stat, whole.why, out)
    {
      hide Pack, Decoder.Bits, DecString, Before;
      if f.Got? && out != null && stat == Ok { Extended(out[..octidx + (|f.value.data| + 7) / 8], out[..octidx], octidx); }
    }

    /** With no buffer the string is skipped. */
    method DecodeOctetString(out: array?<Byte>, bufsiz: nat) returns (stat: Stat, numocts: nat)
      requires Valid() && Ready() && Spare(out, 0, bufsiz)
      requires out != null ==> out != data && bufsiz <= out.Length
      modifies this`byteIndex, this`bitOffset, this`sizes, out
      ensures var r := DecString(Bits(), old(Pos()), old(sizes), old(sizes), true);
              if r.Got? && (out == null || (|r.value| + 7) / 8 <= bufsiz) then
                && stat == Ok && Valid() && Pos() == r.pos && 8 * numocts == |r.value| && sizes == []
                && (out != null ==> out[..numocts] == Pack(r.value))
              else if r.Got? then stat == StrOvflw
              else Failed(stat, r.why, out)
      ensures stat == StrOvflw ==> !Fits(Bits(), old(Pos()), old(sizes), true, 0, bufsiz)
    {
      hide Decoder.Bits, DecString, Pack;
      stat, numocts := DecodeFragments(true, out, bufsiz, sizes);
    }

    method DecodeBitString(out: array<Byte>, bufsiz: nat) returns (stat: Stat, numbits: nat)
      requires Valid() && Ready() && Spare(out, 0, bufsiz) && out != data && bufsiz <= out.Length
      modifies this`byteIndex, this`bitOffset, this`sizes, out
      ensures var r := DecString(Bits(), old(Pos()), old(sizes), old(sizes), false);
              if r.Got? && (|r.value| + 7) / 8 <= bufsiz then
                && stat == Ok && Valid() && Pos() == r.pos && numbits == |r.value| && sizes == []
                && out[..(numbits + 7) / 8] == Pack(r.value)
              else if r.Got? then stat == StrOvflw
              else Failed(stat, r.why, out)
      ensures stat == StrOvflw ==> !Fits(Bits(), old(Pos()), old(sizes), false, 0, bufsiz)
    {
      hide Decoder.Bits, DecString, Pack;
      stat, numbits := DecodeFragments(false, out, bufsiz, sizes);
    }

    // ---------- the look-ahead scan ----------

    /** How many items the string at the cursor has. The scan runs on a second context, which shares
        the heaps and counts on them while it lives; whatever the outcome, this context and both
        counts are as they were. */
    method GetComponentLength(octets: bool) returns (stat: Stat, total: nat)
      requires Valid() && Ready() && typeHeap.refCnt > 0 && msgHeap.refCnt > 0
      modifies typeHeap, msgHeap
      ensures var r := DecTotal(Bits(), Pos(), sizes, octets);
              && stat == (if r.Got? then Ok else EndOfBuf)
              && (r.Got? ==> total == r.value)
      ensures typeHeap.refCnt == old(typeHeap.refCnt) && typeHeap.freed == old(typeHeap.freed)
      ensures msgHeap.refCnt == old(msgHeap.refCnt) && msgHeap.freed == old(msgHeap.freed)
    {
      hide Decoder.Bits, DecTotal;
      var lctxt := new Decoder(data, size, typeHeap, msgHeap);
      lctxt.typeHeap.AddRef();
      lctxt.msgHeap.AddRef();
      lctxt.byteIndex, lctxt.bitOffset := byteIndex, bitOffset;
      lctxt.sizes := sizes;
      assert lctxt.Bits() == Bits() by { SameBuffer(lctxt); }
      stat, total := lctxt.ScanLengths(octets);
      lctxt.typeHeap.Release();
      lctxt.msgHeap.Release();
    }

    lemma SameBuffer(d: Decoder)
      requires d.data == data && d.size == size <= data.Length
      ensures d.Bits() == Bits()
    {}

    method ScanLengths(octets: bool) returns (stat: Stat, total: nat)
      requires Valid() && Ready()
      modifies this`byteIndex, this`bitOffset, this`sizes
      ensures var r := DecTotal(Bits(), old(Pos()), old(sizes), octets);
              && stat == (if r.Got? then Ok else EndOfBuf)
              && (r.Got? ==> total == r.value)
    {
      hide Decoder.Bits, DecTotal, DecLength, Extendable;
      ghost var whole := DecTotal(Bits(), Pos(), sizes, octets);
      total := 0;
      while true
        invariant Valid() && Ready()
        invariant var r := DecTotal(Bits(), Pos(), sizes, octets);
                  if whole.Fail? then r.Fail? else r.Got? && whole.value == total + r.value
        decreases 8 * size - Pos()
      {
        TotalIs(Bits(), Pos(), sizes, octets);
        var len;
        stat, len := DecodeLength();
        if stat == EndOfBuf { return; }
        total := total + len;
        if stat == Ok { return; }
        stat := MoveBitCursor(Span(octets, len));
        if stat != Ok { return; }
        NotExtendable();
      }
    }

    /** A string into memory of just its length. */
    method DecodeDynOctetString() returns (stat: Stat, out: array<Byte>, numocts: nat)
      requires Valid() && Ready() && typeHeap.refCnt > 0 && msgHeap.refCnt > 0
      modifies this`byteIndex, this`bitOffset, this`sizes, typeHeap, msgHeap
      ensures typeHeap.refCnt == old(typeHeap.refCnt) && typeHeap.freed == old(typeHeap.freed)
      ensures msgHeap.refCnt == old(msgHeap.refCnt) && msgHeap.freed == old(msgHeap.freed)
      ensures var r := DecDyn(Bits(), old(Pos()), old(sizes));
              if r.Got? then
                && stat == Ok && 0 <= bitOffset <= 8 && Pos() == r.pos && 8 * numocts == |r.value|
                && out.Length >= numocts && out[..numocts] == Pack(r.value)
                && sizes == (if r.value == [] then old(sizes) else [])
              else Failed(stat, r.why, out) && stat != StrOvflw
    {
      hide Decoder.Bits, DecTotal, DecString, Pack, Extendable;
      var nocts;
      NothingPacked();
      numocts := 0;
      stat, nocts := GetComponentLength(true);
      // memory comes in units of eight octets
      out := new Byte[(nocts + 7) / 8 * 8](_ => 0);
      ghost var (b, p, cur) := (Bits(), Pos(), sizes);
      if stat != Ok { return; }
      if nocts == 0 {
        byteIndex := byteIndex + 1;
      } else {
        if DecString(b, p, cur, cur, true).Got? { TotalMatches(b, p, cur, cur, true); }
        stat, numocts := DecodeOctetString(out, nocts);
      }
    }

    // ---------- semi-constrained integers ----------

    method DecodeSemiConsInteger(lower: I32) returns (stat: Stat, value: I32)
      requires Valid() && Ready()
      modifies this`byteIndex, this`bitOffset, this`sizes
      ensures var r := DecSemi(Bits(), old(Pos()), old(sizes), lower);
              && stat == (if r.Got? then Ok else EndOfBuf)
              && (r.Got? ==> value == r.value && Valid() && Pos() == r.pos)
    {
      hide Decoder.Bits, DecLength, DecBits, DecTwos, Extendable;
      ghost var b := Bits();
      var nbytes;
      value := 0;
      stat, nbytes := DecodeLength();
      if stat == EndOfBuf { return; }
      if nbytes > 0 {
        DecodeByteAlign();
        var octet;
        stat, octet := DecodeOctet();
        if stat != Ok { return; }
        value := SignedOctet(octet);
        nbytes := nbytes - 1;
        stat, value := DecodeTwos(nbytes, value);
        if stat != Ok { return; }
      }
      if lower > -0x8000_0000 { value := Signed(value + lower); }
      stat := Ok;
    }

    /** The rest of a number whose leading octets are acc. */
    method DecodeTwos(n: nat, acc: I32) returns (stat: Stat, value: I32)
      requires Valid() && bitOffset == 8
      modifies this`byteIndex, this`bitOffset
      ensures var r := DecTwos(Bits(), old(Pos()), n, acc);
              && stat == (if r.Got? then Ok else EndOfBuf)
              && (r.Got? ==> value == r.value && Valid() && Pos() == r.pos)
    {
      hide Decoder.Bits, DecBits, DecTwos;
      ghost var (b, whole) := (Bits(), DecTwos(Bits(), Pos(), n, acc));
      var nbytes := n;
      value := acc;
      while nbytes > 0
        invariant Valid() && bitOffset == 8 && 0 <= nbytes && whole == DecTwos(b, Pos(), nbytes, value)
      {
        TwosIs(b, Pos(), nbytes, value);
        var octet;
        stat, octet := DecodeOctet();
        if stat != Ok { return; }
        value := Signed(value * 256 + octet);
        nbytes := nbytes - 1;
      }
      NoTwosLeft(b, Pos(), value);
      stat := Ok;
    }

    /** One octet through the octet reader. */
    method DecodeOctet() returns (stat: Stat, octet: Byte)
      requires Valid() && bitOffset == 8
      modifies this`byteIndex, this`bitOffset
      ensures var r := DecBits(Bits(), old(Pos()), 8);
              && stat == (if r.Got? then Ok else EndOfBuf)
              && (r.Got? ==> octet == r.value && Valid() && Pos() == r.pos && bitOffset == 8)
    {
      hide Decoder.Bits, Decoder.Mem, Flat, ValOf, Pack;
      ghost var p := Pos();
      var tmp := new Byte[1](_ => 0);
      stat := DecodeOctets(tmp, 0, 1, 8);
      octet := 0;
      if stat == Ok {
        InBuffer(p, p + 8);
        PackEight(Bits()[p..p + 8]);
        octet := tmp[0];
        assert tmp[0..1] == [tmp[0]];
      }
    }

    // ---------- object identifiers ----------

    method DecodeObjectIdentifier() returns (stat: Stat, ids: seq<U32>)
      requires Valid() && Ready()
      modifies this`byteIndex, this`bitOffset, this`sizes
      ensures var r := DecOid(Bits(), old(Pos()), old(sizes));
              && stat == (if r.Got? then Ok else r.why)
              && (r.Got? ==> ids == r.value && Valid() && Pos() == r.pos)
    {
      hide Decoder.Bits, DecLength, DecArc, DecArcs, Extendable, FirstTwo;
      ghost var b := Bits();
      ids := [];
      var len;
      stat, len := DecodeLength();
      if stat == EndOfBuf { return; }
      ghost var whole := if stat == OkFrag then Fail(OkFrag) else DecArcs(b, Pos(), len, ids);
      assert whole == DecOid(b, old(Pos()), old(sizes));
      while len > 0 && stat == Ok
        invariant stat != Ok ==> whole.Fail? && stat == whole.why
        invariant stat == Ok ==> Valid() && whole == DecArcs(b, Pos(), len, ids)
        decreases if stat == Ok then 8 * size - Pos() + 1 else 0
      {
        ArcsAre(b, Pos(), len, ids);
        if |ids| < MAX_ARCS {
          var id;
          stat, id, len := DecodeArc(len);
          if stat == Ok {
            ids := if ids == [] then FirstTwo(id) else ids + [id];
          }
        } else {
          stat := InvObjId;
        }
      }
      if stat == Ok { ArcsAre(b, Pos(), len, ids); }
    }

    /** Octets up to one whose high bit is clear, seven bits from each. */
    method DecodeArc(len: U32) returns (stat: Stat, id: U32, left: U32)
      requires Valid()
      modifies this`byteIndex, this`bitOffset
      ensures var r := DecArc(Bits(), old(Pos()), 0, len);
              && stat == (if r.Got? then Ok else EndOfBuf)
              && (r.Got? ==> r.value == Arc(id, left) && Valid() && Pos() == r.pos)
    {
      hide Decoder.Bits, DecArc;
      ghost var (b, whole) := (Bits(), DecArc(Bits(), Pos(), 0, len));
      id, left := 0, len;
      while true
        invariant Valid() && whole == DecArc(b, Pos(), id, left)
        decreases 8 * size - Pos()
      {
        ArcIs(b, Pos(), id, left);
        var octet;
        stat, octet := DecodeBits(8);
        if stat != Ok { return; }
        id, left := Wrap(id as int * 128 + octet % 128), Wrap(left as int - 1);
        if octet % 256 < 128 { return; }
      }
    }
  }

  lemma BitAt(d: seq<Byte>, i: nat, o: nat)
    requires i < |d| && o < 8
    ensures Flat(d)[8 * i + 7 - o] == (Shr(d[i], o) % 2 == 1)
  {
    hide Flat, Shr, BitsOf;
    ReadField(d, i, o + 1, 1);
    OneBitOf(Shr(d[i], o));
    assert Flat(d)[8 * i + 7 - o..8 * i + 8 - o][0] == Flat(d)[8 * i + 7 - o];
  }

  lemma OneBitOf(x: nat)
    ensures BitsOf(x, 1) == [x % 2 == 1]
  {
    assert BitsOf(x, 1) == BitsOf(x / 2, 0) + [x % 2 == 1];
  }

  /** A field of an octet is less than 2^32. */
  lemma FieldFits(x: Byte, o: nat, n: nat)
    requires n <= 8
    ensures Low(Shr(x, o), n) < 0x1_0000_0000 && Wrap(Low(Shr(x, o), n)) == Low(Shr(x, o), n)
    ensures o == 0 ==> Shr(x, o) == x
  {
    hide Low, BitsOf, Pow2;
    ValBits(Shr(x, o), n);
    PowGrows(n, 8);
    Pow2Small();
  }

  lemma SmallWord(bits: seq<bool>, pos: nat, n: nat)
    requires n < 32
    ensures pos + n <= |bits| ==> Wrap(ValOf(bits[pos..pos + n])) == ValOf(bits[pos..pos + n]) < Pow2(n)
    ensures Pow2(6) == 64
  {
    hide ValOf, Pow2, BitsOf;
    Pow2Big();
    Pow2Small();
    if pos + n <= |bits| {
      BitsVal(bits[pos..pos + n]);
      PowGrows(n, 32);
    }
  }

  lemma NothingPacked()
    ensures Pack([]) == []
  {}

  lemma CopyLoads(d: seq<Byte>, i: nat, j: nat, r: nat)
    requires i <= j && j + (if r == 0 then 0 else 1) <= |d| && r < 8
    ensures d[i..j] == Pack(Flat(d)[8 * i..8 * j])
    ensures r != 0 ==> BitsOf(d[j], 8)[..r] == Flat(d)[8 * j..8 * j + r]
  {
    hide Flat, BitsOf, Pack;
    FlatSlice(d, i, j);
    PackFlat(d[i..j]);
    if r != 0 { FirstBits(d, j, r); }
  }

  lemma FirstBits(d: seq<Byte>, j: nat, r: nat)
    requires j < |d| && r < 8
    ensures BitsOf(d[j], 8)[..r] == Flat(d)[8 * j..8 * j + r]
  {
    hide Flat, BitsOf;
    FlatAt(d, j);
    Eight(BitsOf(d[j], 8));
    PartOf(Flat(d), 8 * j, BitsOf(d[j], 8), 8, r);
  }

  lemma Eight(y: seq<bool>)
    ensures |y| == 8 ==> y[..8] == y
  {}

  lemma FlatSlice(d: seq<Byte>, i: nat, j: nat)
    requires i <= j <= |d|
    ensures Flat(d)[8 * i..8 * j] == Flat(d[i..j])
  {
    hide Flat;
    FlatCut(d[..j], i);
    FlatCut(d, j);
    assert d[..j][i..] == d[i..j];
    assert Flat(d)[..8 * j][8 * i..] == Flat(d)[8 * i..8 * j];
  }

  lemma PartOf(m: seq<bool>, p: nat, y: seq<bool>, o: nat, n: nat)
    requires n <= o <= 8 == |y| && p + o <= |m| && y[..o] == m[p..p + o]
    ensures y[..n] == m[p..p + n]
  {
    assert y[..n] == y[..o][..n];
    assert m[p..p + n] == m[p..p + o][..n];
  }

  lemma StraddleFull(d: seq<Byte>, i: nat, o: nat)
    requires i + 1 < |d| && o <= 8
    ensures var y := BitOr(Shl(d[i], 8 - o) % 256, Shr(d[i + 1], o));
            && y < 256
            && BitsOf(y, 8) == Flat(d)[8 * i + 8 - o..8 * i + 16 - o]
  {
    hide BitsOf, Flat, Shl, Shr, BitOr;
    Straddle(d, i, o, 8 - o);
    var y := BitOr(Shl(d[i], 8 - o) % 256, Shr(d[i + 1], o));
    assert BitsOf(y, 8)[..8] == BitsOf(y, 8);
  }

  lemma GrowPack(m: seq<bool>, p: nat, q: nat, y: Byte)
    requires p <= q <= q + 8 <= |m| && (q - p) % 8 == 0 && BitsOf(y, 8) == m[q..q + 8]
    ensures Pack(m[p..q + 8]) == Pack(m[p..q]) + [y]
  {
    hide BitsOf, Pack;
    assert m[p..q + 8] == m[p..q] + m[q..q + 8];
    PackAppend(m[p..q], m[q..q + 8]);
    assert BitsOf(y, 8)[..8] == m[q..q + 8];
    PackShort(m[q..q + 8], y);
  }

  /** Masking the last octet leaves exactly the packed bits. */
  lemma MaskedPack(w: seq<Byte>, m: seq<bool>, p: nat, full: nat, r: nat)
    requires r < 8 && p + 8 * full + r <= |m| && |w| == (if r == 0 then full else full + 1)
    requires w[..full] == Pack(m[p..p + 8 * full])
    requires r != 0 ==> BitsOf(w[full], 8)[..r] == m[p + 8 * full..p + 8 * full + r]
    ensures r == 0 ==> w == Pack(m[p..p + 8 * full])
    ensures r != 0 ==> HighPart(w[full], r) < 256 && w[..full] + [HighPart(w[full], r)] == Pack(m[p..p + 8 * full + r])
  {
    hide BitsOf, Pack, HighPart;
    assert r == 0 ==> w[..full] == w;
    if r != 0 {
      var c := m[p + 8 * full..p + 8 * full + r];
      assert m[p..p + 8 * full + r] == m[p..p + 8 * full] + c;
      PackAppend(m[p..p + 8 * full], c);
      PackShort(c, w[full]);
      OctetParts(w[full], r);
    }
  }

  lemma LongAligned(all: seq<Size>, n: nat, octets: bool)
    ensures n >= 16384 ==> AlignTest(all, n, octets) == Some(true)
  {}

  lemma ShortUnaligned(all: seq<Size>, n: nat, octets: bool)
    ensures AlignTest(all, n, octets) == Some(false) ==> Span(octets, n) <= 16
  {}

  lemma NoFragment(bits: seq<bool>, pos: nat, cur: seq<Size>, all: seq<Size>, octets: bool)
    ensures var l := DecLength(bits, pos, cur);
            && (l.Fail? ==> DecFragment(bits, pos, cur, all, octets) == Fail(EndOfBuf))
            && (l.Got? && l.value.n > 0 && AlignTest(all, l.value.n, octets).None? ==> DecFragment(bits, pos, cur, all, octets) == Fail(ConsVio))
  {
    hide DecLength, AlignTest;
  }

  lemma EmptyFragment(bits: seq<bool>, pos: nat, cur: seq<Size>, all: seq<Size>, octets: bool, more: bool, l: nat)
    requires DecLength(bits, pos, cur) == Got(Count(0, more), l)
    ensures DecFragment(bits, pos, cur, all, octets) == Got(Fragment([], more), l)
  {
    hide DecLength, AlignTest;
  }

  lemma WholeEnd(q: nat, n: nat, octets: bool)
    requires q % 8 == 0 && n % 16384 == 0
    ensures (q + Span(octets, n)) % 8 == 0 && n % 8 == 0
  {}

  lemma FragmentIs(bits: seq<bool>, pos: nat, cur: seq<Size>, all: seq<Size>, octets: bool, c: Count, l: nat, q: nat)
    requires DecLength(bits, pos, cur) == Got(c, l) && c.n > 0
    requires AlignTest(all, c.n, octets).Some? && q == if AlignTest(all, c.n, octets).value then AlignUp(l) else l
    ensures var (e, r) := (q + Span(octets, c.n), DecFragment(bits, pos, cur, all, octets));
            && r == (if e > |bits| then Fail(EndOfBuf) else Got(Fragment(bits[q..e], c.more), e))
            && (c.more ==> e % 8 == 0 && c.n % 8 == 0)
  {
    hide DecLength, AlignTest, AlignUp, Span;
    if c.more { WholeEnd(q, c.n, octets); }
  }

  lemma NotExtendable()
    ensures !Extendable([])
  {}

  /** What has been read already, before the rest. */
  function Before(a: seq<bool>, r: Dec<seq<bool>>): Dec<seq<bool>> {
    if r.Fail? then r else Got(a + r.value, r.pos)
  }

  lemma OnlyRest(r: Dec<seq<bool>>)
    ensures Before([], r) == r
  {
    if r.Got? { assert [] + r.value == r.value; }
  }

  lemma BeforeMore(a: seq<bool>, b: seq<bool>, r: Dec<seq<bool>>)
    ensures Before(a, Before(b, r)) == Before(a + b, r)
  {
    if r.Got? { assert a + (b + r.value) == a + b + r.value; }
  }

  lemma StringIs(bits: seq<bool>, pos: nat, cur: seq<Size>, all: seq<Size>, octets: bool)
    ensures var f := DecFragment(bits, pos, cur, all, octets);
            DecString(bits, pos, cur, all, octets) ==
              if f.Fail? then Fail(f.why)
              else if !f.value.more then Got(f.value.data, f.pos)
              else Before(f.value.data, DecString(bits, f.pos, [], all, octets))
    ensures var f := DecFragment(bits, pos, cur, all, octets);
            f.Got? && f.value.more ==> |f.value.data| % 8 == 0 && pos + 8 <= f.pos
  {
    hide DecFragment;
    MoreIsWhole(bits, pos, cur, all, octets);
  }

  lemma MoreIsWhole(bits: seq<bool>, pos: nat, cur: seq<Size>, all: seq<Size>, octets: bool)
    ensures var f := DecFragment(bits, pos, cur, all, octets); f.Got? && f.value.more ==> |f.value.data| % 8 == 0
  {
    hide DecLength, AlignTest;
    var c := DecLength(bits, pos, cur);
    if c.Got? && c.value.more { WholeSpan(octets, c.value.n); }
  }

  lemma Extended(w: seq<Byte>, done: seq<Byte>, n: nat)
    requires n <= |w| && w[..n] == done
    ensures w == done + w[n..]
  {}

  /** What a fragment f, read at p after got, tells of the whole. */
  ghost predicate FragmentGoes(whole: Dec<seq<bool>>, got: seq<bool>, b: seq<bool>, p: nat, all: seq<Size>, octets: bool, f: Dec<Fragment>) {
    if f.Fail? then whole == Fail(f.why)
    else
      && Pack(got + f.value.data) == Pack(got) + Pack(f.value.data)
      && (!f.value.more ==> whole == Got(got + f.value.data, f.pos))
      && (f.value.more ==>
            && whole == Before(got + f.value.data, DecString(b, f.pos, [], all, octets))
            && |f.value.data| % 8 == 0 && p + 8 <= f.pos)
      && (whole.Got? ==> |whole.value| >= |got| + |f.value.data|)
  }

  /** The string that the scan finds at pos fits into the octets from base up to bufsiz. */
  predicate Fits(bits: seq<bool>, pos: nat, cur: seq<Size>, octets: bool, base: nat, bufsiz: nat) {
    var t := DecTotal(bits, pos, cur, octets);
    t.Got? && base + (Span(octets, t.value) + 7) / 8 <= bufsiz
  }

  /** Its first fragment then fits. */
  lemma FirstFits(bits: seq<bool>, pos: nat, cur: seq<Size>, octets: bool, base: nat, bufsiz: nat)
    requires DecLength(bits, pos, cur).Got?
    ensures var n := DecLength(bits, pos, cur).value.n;
            Fits(bits, pos, cur, octets, base, bufsiz) ==> base + (Span(octets, n) + 7) / 8 <= bufsiz
  {
    hide DecLength;
  }

  /** And so does what follows it. */
  lemma RestFits(bits: seq<bool>, pos: nat, cur: seq<Size>, all: seq<Size>, octets: bool, base: nat, bufsiz: nat, n: nat)
    requires Fits(bits, pos, cur, octets, base, bufsiz)
    requires var f := DecFragment(bits, pos, cur, all, octets); f.Got? && f.value.more && |f.value.data| == Span(octets, n)
    ensures Fits(bits, DecFragment(bits, pos, cur, all, octets).pos, [], octets, base + Span(octets, n) / 8, bufsiz)
  {
    hide DecLength;
    var h := DecLength(bits, pos, cur);
    if h.value.n > 0 {
      assert h.pos % 8 == 0 && AlignTest(all, h.value.n, octets) == Some(true) by { LongAligns(bits, pos, cur, all, octets); }
    }
    hide AlignTest;
    WholeSpan(octets, h.value.n);
  }

  /** One fragment further into a string. */
  lemma FragmentStep(whole: Dec<seq<bool>>, got: seq<bool>, b: seq<bool>, p: nat, cur: seq<Size>, all: seq<Size>, octets: bool)
    requires whole == Before(got, DecString(b, p, cur, all, octets)) && |got| % 8 == 0
    ensures FragmentGoes(whole, got, b, p, all, octets, DecFragment(b, p, cur, all, octets))
  {
    hide DecFragment, DecString, Pack;
    StringIs(b, p, cur, all, octets);
    var f := DecFragment(b, p, cur, all, octets);
    if f.Got? {
      PackAppend(got, f.value.data);
      BeforeMore(got, f.value.data, DecString(b, f.pos, [], all, octets));
    }
  }

  lemma TotalIs(bits: seq<bool>, pos: nat, cur: seq<Size>, octets: bool)
    ensures var l := DecLength(bits, pos, cur);
            var r := DecTotal(bits, pos, cur, octets);
            if l.Fail? then r.Fail?
            else if !l.value.more then r == Got(l.value.n, l.pos)
            else
              var e := l.pos + Span(octets, l.value.n);
              && (e <= |bits| || e / 8 * 8 == e)
              && if e > |bits| then r.Fail?
                 else
                   var t := DecTotal(bits, e, [], octets);
                   if t.Fail? then r.Fail? else r == Got(l.value.n + t.value, t.pos)
  {
    hide DecLength;
  }

  lemma PackEight(w: seq<bool>)
    requires |w| == 8
    ensures Pack(w) == [ValOf(w)]
  {
    assert w[..8] == w && Pack(w[8..]) == [];
  }

  lemma TwosIs(bits: seq<bool>, pos: nat, n: nat, acc: I32)
    requires n > 0
    ensures DecTwos(bits, pos, n, acc) ==
              var d := DecBits(bits, pos, 8);
              if d.Fail? then Fail(d.why) else DecTwos(bits, d.pos, n - 1, Signed(acc * 256 + d.value))
  {
    hide DecBits;
  }

  lemma NoTwosLeft(bits: seq<bool>, pos: nat, acc: I32)
    ensures DecTwos(bits, pos, 0, acc) == Got(acc, pos)
  {}

  lemma ArcIs(bits: seq<bool>, pos: nat, acc: U32, len: U32)
    ensures DecArc(bits, pos, acc, len) ==
              var d := DecBits(bits, pos, 8);
              if d.Fail? then Fail(d.why)
              else
                var (id, left) := (Wrap(acc * 128 + d.value % 128), Wrap(len - 1));
                if d.value % 256 >= 128 then DecArc(bits, d.pos, id, left) else Got(Arc(id, left), d.pos)
    ensures var d := DecBits(bits, pos, 8); d.Got? ==> d.value < 256 && d.pos == pos + 8
  {
    if pos + 8 <= |bits| {
      BitsVal(bits[pos..pos + 8]);
      Pow2Small();
    }
  }

  lemma ArcsAre(bits: seq<bool>, pos: nat, len: U32, ids: seq<U32>)
    ensures DecArcs(bits, pos, len, ids) ==
              if len == 0 then Got(ids, pos)
              else if |ids| >= MAX_ARCS then Fail(InvObjId)
              else
                var a := DecArc(bits, pos, 0, len);
                if a.Fail? then Fail(a.why)
                else DecArcs(bits, a.pos, a.value.len, if ids == [] then FirstTwo(a.value.id) else ids + [a.value.id])
  {
    hide DecArc, FirstTwo;
  }

  lemma LongFragment(bits: seq<bool>, pos: nat, cur: seq<Size>)
    ensures var l := DecLength(bits, pos, cur); l.Got? && l.value.more && l.value.n > 0 ==> l.value.n >= 16384
  {
    hide DecLength;
  }
}
