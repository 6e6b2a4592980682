/** Decoding undoes encoding. Every statement is about encoded bits that stand anywhere in any bit
    string, so it holds after any prefix, from any bit offset, and before any suffix. */
module PerRoundTrip {
  import opened Bits
  import opened PerSpec
  import opened Wrappers

  lemma HasSplit(bits: seq<bool>, pos: nat, u: seq<bool>, v: seq<bool>)
    requires Has(bits, pos, u + v)
    ensures Has(bits, pos, u) && Has(bits, pos + |u|, v)
  {
    var w := u + v;
    assert bits[pos..pos + |u|] == w[..|u|];
    assert bits[pos + |u|..pos + |w|] == w[|u|..];
  }

  lemma HasSplit3(bits: seq<bool>, pos: nat, u: seq<bool>, v: seq<bool>, w: seq<bool>)
    requires Has(bits, pos, u + v + w)
    ensures Has(bits, pos, u) && Has(bits, pos + |u|, v) && Has(bits, pos + |u| + |v|, w)
  {
    HasSplit(bits, pos, u + v, w);
    HasSplit(bits, pos, u, v);
  }

  // ---------- bit fields and whole numbers ----------

  lemma BitsTrip(bits: seq<bool>, pos: nat, v: nat, n: nat)
    requires v < Pow2(n) && Has(bits, pos, BitsOf(v, n))
    ensures DecBits(bits, pos, n) == Got(v, pos + n)
  {
    ValBits(v, n);
    LowId(v, n);
  }

  lemma OctetCountFits(v: U32)
    ensures v < Pow2(8 * OctetCount(v)) && 1 <= OctetCount(v) <= 4
    ensures OctetCount(v) > 1 ==> v >= Pow2(8 * (OctetCount(v) - 1))
  {
    Pow2Small();
    Pow2Big();
  }

  lemma WholeTrip(bits: seq<bool>, pos: nat, v: U32, range: U32)
    requires EncWhole(pos, v, range).Enc? && Has(bits, pos, EncWhole(pos, v, range).bits)
    ensures DecWhole(bits, pos, range) == Got(v, pos + |EncWhole(pos, v, range).bits|)
  {
    Pow2Small();
    Pow2Big();
    hide BitsOf, ValOf, DecBits, BitCount, OctetCount, Pow2, Pad, Has;
    if range <= 255 {
      PowMono(v, range - 1);
      BitsTrip(bits, pos, v, BitCount(Wrap(range - 1)));
    } else if range == 256 {
      HasSplit(bits, pos, Pad(pos), BitsOf(v, 8));
      BitsTrip(bits, AlignUp(pos), v, 8);
    } else if range <= 65536 {
      HasSplit(bits, pos, Pad(pos), BitsOf(v, 16));
      BitsTrip(bits, AlignUp(pos), v, 16);
    } else {
      var n := OctetCount(v);
      OctetCountFits(v);
      HasSplit3(bits, pos, BitsOf(n - 1, 2), Pad(pos + 2), BitsOf(v, 8 * n));
      BitsTrip(bits, pos, n - 1, 2);
      BitsTrip(bits, AlignUp(pos + 2), v, 8 * n);
    }
  }

  lemma PowMono(v: U32, top: U32)
    requires v <= top
    ensures v < Pow2(BitCount(top))
  {}

  // ---------- constrained integers ----------

  /** Exactly the numbers between the bounds are encoded. */
  lemma IntEncodes(pos: nat, value: I32, lower: I32, upper: I32)
    ensures EncInt(pos, value, lower, upper).Enc? <==> lower <= value <= upper
  {
    if lower <= value <= upper && lower != upper {
      IntEncodesAs(pos, value, lower, upper);
      WholeEncodes(pos, Wrap(value - lower), IntRange(lower, upper));
    }
    hide EncWhole;
  }

  /** The encoder takes exactly the values in range, and the decoder gives each back, over the
      whole 32-bit range of bounds. */
  lemma IntTrip(bits: seq<bool>, pos: nat, value: I32, lower: I32, upper: I32)
    ensures EncInt(pos, value, lower, upper).Enc? <==> lower <= value <= upper
    ensures EncInt(pos, value, lower, upper).Enc? && Has(bits, pos, EncInt(pos, value, lower, upper).bits)
      ==> DecInt(bits, pos, lower, upper) == Got(value, pos + |EncInt(pos, value, lower, upper).bits|)
  {
    IntEncodes(pos, value, lower, upper);
    hide Has, EncWhole, DecWhole;
    if lower <= value <= upper && lower != upper {
      var a, range := Wrap(value - lower), IntRange(lower, upper);
      IntEncodesAs(pos, value, lower, upper);
      if Has(bits, pos, EncWhole(pos, a, range).bits) {
        WholeTrip(bits, pos, a, range);
        WrapBack(value, lower);
        hide EncInt;
      }
    }
  }

  lemma WrapBack(value: I32, lower: I32)
    requires lower <= value
    ensures Signed(Wrap(value - lower) + lower) == value
  {}

  function IntRange(lower: I32, upper: I32): U32 {
    if Wrap(upper - lower) != 0xFFFF_FFFF then Wrap(upper - lower) + 1 else 0xFFFF_FFFF
  }

  /** Both ways of forming the adjusted value, and the wraparound in them, come to the same. */
  lemma IntEncodesAs(pos: nat, value: I32, lower: I32, upper: I32)
    requires lower <= value <= upper && lower != upper
    ensures EncInt(pos, value, lower, upper) == EncWhole(pos, Wrap(value - lower), IntRange(lower, upper))
    ensures EncInt(pos, value, lower, upper).Enc?
  {
    AbsWraps(value, lower);
    AbsWraps(upper, lower);
    assert Wrap(value - lower) == value - lower && Wrap(upper - lower) == upper - lower;
    hide Abs32, Wrap, BitsOf, Pad, BitCount, OctetCount;
  }

  lemma AbsWraps(x: I32, lower: I32)
    ensures lower < 0 ==> Wrap(x + Abs32(lower)) == Wrap(x - lower)
  {
    if lower < 0 {
      assert Abs32(lower) + lower == 0 || Abs32(lower) + lower == -0x1_0000_0000;
      assert x as int + Abs32(lower) == x as int - lower || x as int + Abs32(lower) == x as int - lower - 0x1_0000_0000;
      hide Abs32;
    }
  }

  /** Whatever the bits, an accepted value is in range; and the decoder accepts exactly when the
      whole number it reads is at most upper - lower, although it only looks at a 32-bit sum that
      may have wrapped. */
  lemma IntAccepts(bits: seq<bool>, pos: nat, lower: I32, upper: I32)
    requires lower < upper
    ensures var (w, r) := (DecWhole(bits, pos, IntRange(lower, upper)), DecInt(bits, pos, lower, upper));
            && (r.Got? <==> w.Got? && w.value <= upper - lower)
            && (r.Got? ==> r.value == lower + w.value && lower <= r.value <= upper && r.pos == w.pos)
            && (w.Got? && w.value > upper - lower ==> r == Fail(ConsVio))
  {
    hide EncWhole, DecWhole;
    var w := DecWhole(bits, pos, IntRange(lower, upper));
    if w.Got? { WholeBelow(bits, pos, IntRange(lower, upper)); }
  }

  /** No read of a whole number exceeds 32 bits. */
  lemma WholeBelow(bits: seq<bool>, pos: nat, range: U32)
    requires DecWhole(bits, pos, range).Got?
    ensures DecWhole(bits, pos, range).value < 0x1_0000_0000
  {
    Pow2Big();
    if range <= 255 {
      ReadBelow(bits, pos, BitCount(Wrap(range - 1)));
    } else if range <= 65536 {
      ReadBelow(bits, AlignUp(pos), if range == 256 then 8 else 16);
    } else {
      var d := DecBits(bits, pos, 2);
      BitsVal(bits[pos..pos + 2]);
      Pow2Small();
      ReadBelow(bits, AlignUp(d.pos), 8 * (d.value + 1));
    }
  }

  lemma ReadBelow(bits: seq<bool>, pos: nat, n: nat)
    requires n <= 32 && DecBits(bits, pos, n).Got?
    ensures DecBits(bits, pos, n).value < Pow2(n) <= Pow2(32)
  {
    PowGrows(n, 32);
    if n > 0 { BitsVal(bits[pos..pos + n]); }
  }

  /** The unsigned encoder does not check its value when the range reaches the largest unsigned
      number; the decoder gives back exactly the values that lie within their bounds. */
  lemma UnsTrip(bits: seq<bool>, pos: nat, value: U32, lower: U32, upper: U32)
    requires lower <= upper && EncUns(pos, value, lower, upper).Enc?
    requires Has(bits, pos, EncUns(pos, value, lower, upper).bits)
    ensures DecUns(bits, pos, lower, upper) == Got(value, pos + |EncUns(pos, value, lower, upper).bits|)
      <==> lower <= value <= upper
  {
    hide EncWhole, DecWhole, Has;
    if lower != upper {
      WholeTrip(bits, pos, Wrap(value - lower), UnsRange(lower, upper));
      hide UnsRange;
    }
  }

  /** What the unsigned encoder lets through: with one value to choose from it looks at none, and
      with the largest range it does not check the value either. */
  lemma UnsEncodes(pos: nat, value: U32, lower: U32, upper: U32)
    ensures EncUns(pos, value, lower, upper).Enc? <==> UnsAccepted(value, lower, upper)
    ensures lower <= upper ==>
              (UnsAccepted(value, lower, upper) <==> lower <= value <= upper || lower == upper || upper - lower >= 0xFFFF_FFFE)
  {
    WholeEncodes(pos, Wrap(value - lower), UnsRange(lower, upper));
    hide EncWhole;
  }

  /** The values that the unsigned encoder lets through.  Bounds the wrong way round give a range that
      wraps: the numbers from the lower bound up, over 2^32, to the upper one. */
  predicate UnsAccepted(value: U32, lower: U32, upper: U32) {
    if lower <= upper then lower <= value <= upper || lower == upper || upper - lower >= 0xFFFF_FFFE
    else lower - upper > 1 && (value >= lower || value <= upper || lower - upper == 2)
  }

  lemma WholeEncodes(pos: nat, v: U32, range: U32)
    ensures EncWhole(pos, v, range).Enc? <==> v < range || range == 0xFFFF_FFFF
  {}

  /** Values out of bounds that are encoded, and what becomes of them. */
  lemma UnsOutOfBounds()
    ensures EncUns(0, 7, 5, 5) == Enc([]) && DecUns([], 0, 5, 5) == Got(5, 0)
    ensures var e := EncUns(0, 0xFFFF_FFFF, 0, 0xFFFF_FFFE);
            e.Enc? && DecUns(e.bits, 0, 0, 0xFFFF_FFFE) != Got(0xFFFF_FFFF, |e.bits|)
  {
    var e := EncUns(0, 0xFFFF_FFFF, 0, 0xFFFF_FFFE);
    assert e.bits[0..|e.bits|] == e.bits;
    UnsTrip(e.bits, 0, 0xFFFF_FFFF, 0, 0xFFFF_FFFE);
  }

  // ---------- length determinants ----------

  /** The decoder, which sees only the extension bit, picks the range the encoder picked by value. */
  predicate Unambiguous(sizes: seq<Size>, n: nat) {
    var s := CheckSize(sizes, n);
    s.Some? ==> GetSize(sizes, s.value.extended).Some? && GetSize(sizes, s.value.extended).value.lower == s.value.lower
                && GetSize(sizes, s.value.extended).value.upper == s.value.upper
  }

  /** No constraint, and a constraint of one range, are never ambiguous. */
  lemma OneRange(s: Size, n: nat)
    ensures Unambiguous([], n) && Unambiguous([s], n)
  {}

  /** Whether a length is sent whole, or as one fragment's share. */
  predicate Whole(sizes: seq<Size>, n: nat) {
    UpperOf(CheckSize(sizes, n)) < 65536 || n < 16384
  }

  lemma UnconsTrip(bits: seq<bool>, p: nat, n: nat)
    requires p % 8 == 0 && Has(bits, p, UnconsForm(n))
    ensures DecUncons(bits, p) == Got(Count(Taken([], n), n >= 16384), p + |UnconsForm(n)|)
  {
    if n < 128 {
      UnconsOne(bits, p, n);
    } else if n < 16384 {
      UnconsTwo(bits, p, n);
    } else {
      UnconsMany(bits, p, n);
    }
    hide UnconsForm, DecUncons, Has;
  }

  lemma UnconsOne(bits: seq<bool>, p: nat, n: nat)
    requires p % 8 == 0 && n < 128 && Has(bits, p, UnconsForm(n))
    ensures |UnconsForm(n)| == 8 && DecUncons(bits, p) == Got(Count(n, false), p + 8)
  {
    hide BitsOf, ValOf, Has, Pow2;
    assert Pow2(7) == 128 by { Pow2Small(); }
    HighBits(n, 1, 7);
    ZeroBits(1);
    LengthField(bits, p, n, 7, [false], UnconsForm(n));
  }

  lemma UnconsTwo(bits: seq<bool>, p: nat, n: nat)
    requires p % 8 == 0 && 128 <= n < 16384 && Has(bits, p, UnconsForm(n))
    ensures |UnconsForm(n)| == 16 && DecUncons(bits, p) == Got(Count(n, false), p + 16)
  {
    TwoForm(n);
    hide BitsOf, ValOf, Has, Pow2, UnconsForm;
    LengthField(bits, p, n, 14, [true, false], UnconsForm(n));
    assert AlignUp(p) == p;
    hide AlignUp;
  }

  lemma TwoForm(n: nat)
    requires 128 <= n < 16384
    ensures UnconsForm(n) == [true, false] + BitsOf(n, 14) && n < Pow2(14)
  {
    hide BitsOf, Pow2;
    assert Pow2(14) == 16384 by { Pow2Big(); }
    HighBits(n, 1, 14);
    assert Zeros(1) == [false];
  }

  lemma UnconsMany(bits: seq<bool>, p: nat, n: nat)
    requires p % 8 == 0 && 16384 <= n && Has(bits, p, UnconsForm(n))
    ensures |UnconsForm(n)| == 8 && DecUncons(bits, p) == Got(Count(16384 * if n / 16384 < 4 then n / 16384 else 4, true), p + 8)
  {
    hide BitsOf, ValOf, Has, Pow2;
    assert Pow2(6) == 64 by { Pow2Small(); }
    LengthField(bits, p, if n / 16384 < 4 then n / 16384 else 4, 6, [true, true], UnconsForm(n));
  }

  lemma LengthField(bits: seq<bool>, p: nat, v: nat, n: nat, flags: seq<bool>, w: seq<bool>)
    requires Has(bits, p, w) && w == flags + BitsOf(v, n) && v < Pow2(n)
    ensures |w| == |flags| + n && p + |w| <= |bits| && ValOf(bits[p + |flags|..p + |w|]) == v
    ensures |flags| > 0 ==> bits[p] == flags[0]
    ensures |flags| > 1 ==> bits[p + 1] == flags[1]
  {
    HasSplit(bits, p, flags, BitsOf(v, n));
    ValBits(v, n);
    LowId(v, n);
    assert |flags| > 0 ==> bits[p..p + |flags|][0] == flags[0];
    assert |flags| > 1 ==> bits[p..p + |flags|][1] == flags[1];
  }

  lemma BoundedTrip(bits: seq<bool>, pos: nat, lower: U32, upper: U32, n: nat)
    requires upper < 65536 ==> lower <= n <= upper
    requires EncBounded(pos, lower, upper, n).Enc? && Has(bits, pos, EncBounded(pos, lower, upper, n).bits)
    ensures DecBounded(bits, pos, lower, upper) ==
              Got(Count(if upper < 65536 then n else Taken([], n), upper >= 65536 && n >= 16384),
                  pos + |EncBounded(pos, lower, upper, n).bits|)
  {
    hide Has, BitsOf, EncWhole, DecWhole, UnconsForm;
    if upper >= 65536 {
      HasSplit(bits, pos, Pad(pos), UnconsForm(n));
      UnconsTrip(bits, AlignUp(pos), n);
      hide DecUncons, Pad;
      assert DecUncons(bits, pos) == DecUncons(bits, AlignUp(pos)) by { Realign(bits, pos); }
    } else if lower != upper {
      WholeTrip(bits, pos, n - lower, upper - lower + 1);
    }
  }

  lemma Realign(bits: seq<bool>, pos: nat)
    ensures DecUncons(bits, pos) == DecUncons(bits, AlignUp(pos))
  {
    hide ValOf;
  }

  lemma LengthTrip(bits: seq<bool>, pos: nat, sizes: seq<Size>, n: nat)
    requires EncLength(pos, sizes, n).Enc? && Has(bits, pos, EncLength(pos, sizes, n).bits)
    requires Unambiguous(sizes, n)
    ensures DecLength(bits, pos, sizes) ==
              Got(Count(Taken(sizes, n), !Whole(sizes, n)), pos + |EncLength(pos, sizes, n).bits|)
  {
    hide EncBounded, DecBounded, Has, Unambiguous, Extendable, CheckSize, GetSize, Taken;
    var s := CheckSize(sizes, n);
    var ext: seq<bool> := if Extendable(sizes) then [s.None? || s.value.extended] else [];
    var e := EncBounded(pos + |ext|, LowerOf(s), UpperOf(s), n);
    HasSplit(bits, pos, ext, e.bits);
    ExtensionBit(bits, pos, sizes, n, ext);
    BoundedTrip(bits, pos + |ext|, LowerOf(s), UpperOf(s), n);
    TakenWhole(sizes, n);
  }

  lemma TakenWhole(sizes: seq<Size>, n: nat)
    ensures Taken(sizes, n) == if UpperOf(CheckSize(sizes, n)) < 65536 then n else Taken([], n)
  {}

  lemma ExtensionBit(bits: seq<bool>, pos: nat, sizes: seq<Size>, n: nat, ext: seq<bool>)
    requires Has(bits, pos, ext) && Unambiguous(sizes, n) && (CheckSize(sizes, n).Some? || sizes == [])
    requires ext == if Extendable(sizes) then [CheckSize(sizes, n).None? || CheckSize(sizes, n).value.extended] else []
    ensures Extendable(sizes) ==> pos < |bits|
    ensures var s := GetSize(sizes, Extendable(sizes) && bits[pos]);
            LowerOf(s) == LowerOf(CheckSize(sizes, n)) && UpperOf(s) == UpperOf(CheckSize(sizes, n))
  {
    var s := CheckSize(sizes, n);
    if Extendable(sizes) {
      assert bits[pos..pos + 1][0] == ext[0];
    } else if s.Some? {
      assert !s.value.extended;
    }
  }

  // ---------- strings ----------

  /** A length that the constraint allows. */
  predicate Allowed(sizes: seq<Size>, n: nat) {
    sizes == [] || CheckSize(sizes, n).Some?
  }

  /** Exactly the allowed lengths are encoded. */
  lemma LengthEncodes(pos: nat, sizes: seq<Size>, n: nat)
    ensures EncLength(pos, sizes, n).Enc? <==> Allowed(sizes, n)
    ensures EncLength(pos, sizes, n).Bad? ==> EncLength(pos, sizes, n).why == ConsVio
  {
    var s := CheckSize(sizes, n);
    if s.Some? && UpperOf(s) < 65536 && LowerOf(s) != UpperOf(s) {
      WholeEncodes(pos + (if Extendable(sizes) then 1 else 0), n - LowerOf(s), UpperOf(s) - LowerOf(s) + 1);
    }
    hide EncWhole;
  }

  /** The alignment rule finds a range for the length, or needs none. */
  predicate Aligns(all: seq<Size>, octets: bool, n: nat) {
    n == 0 || AlignTest(all, n, octets).Some?
  }

  /** A string is encoded whose length is allowed and whose last, short fragment has a length for
      which the alignment rule finds a range among those meant for the whole length. */
  predicate Encodes(cur: seq<Size>, all: seq<Size>, octets: bool, n: nat) {
    Allowed(cur, n) && Aligns(all, octets, n) && (Whole(cur, n) || Aligns(all, octets, n % 16384))
  }

  lemma FragmentEncodes(pos: nat, cur: seq<Size>, all: seq<Size>, octets: bool, n: nat, data: seq<bool>)
    requires |data| == Span(octets, n)
    ensures var e := EncFragment(pos, cur, all, octets, n, data);
            (e.Enc? <==> Allowed(cur, n) && Aligns(all, octets, n)) && (e.Bad? ==> e.why == ConsVio)
  {
    hide EncLength, AlignTest, Taken, Allowed;
    LengthEncodes(pos, cur, n);
  }

  /** What is left after a fragment decides as the whole does. */
  lemma RestEncodes(cur: seq<Size>, all: seq<Size>, octets: bool, n: nat)
    requires Taken(cur, n) < n
    ensures !Whole(cur, n) && Aligns(all, octets, n) && (n - Taken(cur, n)) % 16384 == n % 16384
    ensures Encodes([], all, octets, n - Taken(cur, n)) <==> Aligns(all, octets, n % 16384)
  {
    UnclosedRest(cur, n);
    var m := n - Taken(cur, n);
    assert m % 16384 == n % 16384;
    if m < 16384 { assert m % 16384 == m; } else { LongAlways(all, octets, m); }
    LongAlways(all, octets, n);
    hide CheckSize, AlignTest;
  }

  lemma LongAlways(all: seq<Size>, octets: bool, n: nat)
    ensures n > 16 ==> Aligns(all, octets, n)
  {}

  lemma LastFragment(cur: seq<Size>, all: seq<Size>, octets: bool, n: nat)
    requires Taken(cur, n) == n
    ensures Whole(cur, n) || Aligns(all, octets, n % 16384)
  {
    if !Whole(cur, n) { assert n % 16384 == 0; }
    hide CheckSize;
  }

  /** Exactly these strings are encoded; the others violate the constraint. */
  lemma {:induction false} StringEncodes(pos: nat, cur: seq<Size>, all: seq<Size>, octets: bool, n: nat, data: seq<bool>)
    requires |data| == Span(octets, n)
    ensures var e := EncString(pos, cur, all, octets, n, data);
            (e.Enc? <==> Encodes(cur, all, octets, n)) && (e.Bad? ==> e.why == ConsVio)
    decreases n
  {
    hide EncFragment, Taken, Allowed, Aligns, Whole, EncLength;
    FragmentEncodes(pos, cur, all, octets, n, data);
    var k := Taken(cur, n);
    if k < n {
      RestEncodes(cur, all, octets, n);
      var e := EncFragment(pos, cur, all, octets, n, data);
      if e.Enc? { StringEncodes(pos + |e.bits|, [], all, octets, n - k, data[Span(octets, k)..]); }
    } else {
      LastFragment(cur, all, octets, n);
    }
  }

  /** A string under its own constraint is encoded if and only if its length is allowed and the last,
      short fragment, if there is one, is so long that it is aligned anyway or has itself an allowed
      length. */
  predicate Encodable(sizes: seq<Size>, octets: bool, n: nat) {
    Allowed(sizes, n) && (Whole(sizes, n) || n % 16384 == 0 || AlignTest(sizes, n % 16384, octets).Some?)
  }

  lemma EncodableIs(sizes: seq<Size>, octets: bool, n: nat)
    ensures Encodes(sizes, sizes, octets, n) <==> Encodable(sizes, octets, n)
  {
    hide CheckSize;
  }

  /** Of an allowed length that is sent in fragments, the last octet is refused: it is measured
      against the range for the whole. */
  lemma RefusedAtTheEnd(data: seq<bool>)
    requires |data| == 8 * 16385
    ensures var sizes := [Size(3, 100000, false)];
            && Allowed(sizes, 16385) && Unambiguous(sizes, 16385) && !Unclosed(sizes, 16385)
            && EncString(0, sizes, sizes, true, 16385, data) == Bad(ConsVio)
  {
    var sizes := [Size(3, 100000, false)];
    OneRange(sizes[0], 16385);
    assert CheckSize(sizes, 16385) == Some(sizes[0]);
    assert CheckSize(sizes[1..], 1) == None;
    hide EncString;
    StringEncodes(0, sizes, sizes, true, 16385, data);
  }

  /** The lengths whose encoding ends on the header of a full fragment: the closing short length is
      never written, but the decoder waits for it. */
  predicate Unclosed(sizes: seq<Size>, n: nat) {
    !Whole(sizes, n) && n % 16384 == 0
  }

  lemma UnclosedRest(sizes: seq<Size>, n: nat)
    ensures Taken(sizes, n) < n ==> !Whole(sizes, n) && (Unclosed(sizes, n) <==> Unclosed([], n - Taken(sizes, n)))
    ensures Taken(sizes, n) == n ==> (Unclosed(sizes, n) <==> !Whole(sizes, n) && n > 0)
    ensures Unambiguous([], n - Taken(sizes, n))
  {}

  /** The first fragment as the encoder makes it. */
  lemma EncStep(pos: nat, cur: seq<Size>, all: seq<Size>, octets: bool, n: nat, data: seq<bool>) returns (pad: seq<bool>, rest: seq<bool>)
    requires |data| == Span(octets, n) && n > 0 && EncString(pos, cur, all, octets, n, data).Enc?
    ensures var (h, k, s) := (EncLength(pos, cur, n), Taken(cur, n), Span(octets, Taken(cur, n)));
            && h.Enc? && AlignTest(all, n, octets).Some?
            && pad == (if AlignTest(all, n, octets).value then Pad(pos + |h.bits|) else [])
            && var w := h.bits + pad + data[..s];
            && EncString(pos, cur, all, octets, n, data) == Enc(w + rest)
            && (k < n ==> EncString(pos + |w|, [], all, octets, n - k, data[s..]) == Enc(rest))
            && (k == n ==> rest == [])
  {
    hide EncLength, Taken, AlignTest, Pad;
    var h, k, a := EncLength(pos, cur, n), Taken(cur, n), AlignTest(all, n, octets);
    pad := if a.value then Pad(pos + |h.bits|) else [];
    var w := h.bits + pad + data[..Span(octets, k)];
    rest := if k < n then EncString(pos + |w|, [], all, octets, n - k, data[Span(octets, k)..]).bits else [];
    assert w + [] == w;
  }

  /** The first fragment as the decoder takes it. */
  lemma DecStep(bits: seq<bool>, pos: nat, cur: seq<Size>, all: seq<Size>, octets: bool, c: Count, p: nat, q: nat)
    requires DecLength(bits, pos, cur) == Got(c, p) && c.n > 0
    requires AlignTest(all, c.n, octets).Some?
    requires q == (if AlignTest(all, c.n, octets).value then AlignUp(p) else p)
    requires q + Span(octets, c.n) <= |bits|
    ensures var e := q + Span(octets, c.n);
            var r := DecString(bits, e, [], all, octets);
            DecString(bits, pos, cur, all, octets) ==
              if !c.more then Got(bits[q..e], e)
              else if r.Got? then Got(bits[q..e] + r.value, r.pos)
              else r
  {
    hide DecLength, AlignTest;
  }

  lemma AlignSame(all: seq<Size>, cur: seq<Size>, n: nat, octets: bool)
    ensures AlignTest(all, Taken(cur, n), octets) == AlignTest(all, n, octets)
  {
    hide CheckSize, FixedSize;
  }

  /** A string that the encoder takes and whose length closes comes back as it was, and the decoder
      stops where the encoder did. */
  lemma StringTrip(bits: seq<bool>, pos: nat, cur: seq<Size>, all: seq<Size>, octets: bool, n: nat, data: seq<bool>)
    requires |data| == Span(octets, n) && Encodes(cur, all, octets, n) && Unambiguous(cur, n) && !Unclosed(cur, n)
    requires var e := EncString(pos, cur, all, octets, n, data); e.Enc? ==> Has(bits, pos, e.bits)
    ensures var e := EncString(pos, cur, all, octets, n, data);
            e.Enc? && DecString(bits, pos, cur, all, octets) == Got(data, pos + |e.bits|)
  {
    hide EncString, DecString, Encodes, Has, Unambiguous, Unclosed;
    StringEncodes(pos, cur, all, octets, n, data);
    ClosedTrip(bits, pos, cur, all, octets, n, data);
  }

  lemma {:induction false} ClosedTrip(bits: seq<bool>, pos: nat, cur: seq<Size>, all: seq<Size>, octets: bool, n: nat, data: seq<bool>)
    requires |data| == Span(octets, n) && EncString(pos, cur, all, octets, n, data).Enc?
    requires Has(bits, pos, EncString(pos, cur, all, octets, n, data).bits)
    requires Unambiguous(cur, n) && !Unclosed(cur, n)
    ensures DecString(bits, pos, cur, all, octets) == Got(data, pos + |EncString(pos, cur, all, octets, n, data).bits|)
    decreases n
  {
    hide EncLength, DecLength, AlignTest, Has, Unambiguous, Unclosed, EncString, DecString, Taken, Whole;
    if n == 0 {
      EmptyTrip(bits, pos, cur, all, octets, data);
    } else {
      var p, q, rest := FirstFragment(bits, pos, cur, all, octets, n, data);
      UnclosedRest(cur, n);
      var k := Taken(cur, n);
      var s := Span(octets, k);
      Joined(bits, q, data, s);
      DecStep(bits, pos, cur, all, octets, Count(k, !Whole(cur, n)), p, q);
      if k < n {
        ClosedTrip(bits, q + s, [], all, octets, n - k, data[s..]);
      }
    }
  }

  lemma EmptyTrip(bits: seq<bool>, pos: nat, cur: seq<Size>, all: seq<Size>, octets: bool, data: seq<bool>)
    requires data == [] && EncString(pos, cur, all, octets, 0, data).Enc?
    requires Has(bits, pos, EncString(pos, cur, all, octets, 0, data).bits) && Unambiguous(cur, 0)
    ensures DecString(bits, pos, cur, all, octets) == Got(data, pos + |EncString(pos, cur, all, octets, 0, data).bits|)
  {
    hide EncLength, DecLength, AlignTest, Has, Unambiguous;
    LengthTrip(bits, pos, cur, 0);
  }

  lemma Joined(bits: seq<bool>, q: nat, data: seq<bool>, s: nat)
    requires s <= |data| && Has(bits, q, data[..s])
    ensures q + s <= |bits| && bits[q..q + s] + data[s..] == data
    ensures s == |data| ==> bits[q..q + s] == data
  {}

  /** Where the first fragment's contents stand, and what is left to encode. */
  lemma FirstFragment(bits: seq<bool>, pos: nat, cur: seq<Size>, all: seq<Size>, octets: bool, n: nat, data: seq<bool>)
    returns (p: nat, q: nat, rest: seq<bool>)
    requires |data| == Span(octets, n) && n > 0 && EncString(pos, cur, all, octets, n, data).Enc?
    requires Has(bits, pos, EncString(pos, cur, all, octets, n, data).bits)
    requires Unambiguous(cur, n)
    ensures var (k, s) := (Taken(cur, n), Span(octets, Taken(cur, n)));
            && DecLength(bits, pos, cur) == Got(Count(k, !Whole(cur, n)), p)
            && AlignTest(all, k, octets).Some?
            && q == (if AlignTest(all, k, octets).value then AlignUp(p) else p)
            && Has(bits, q, data[..s]) && Has(bits, q + s, rest)
            && (k < n ==> EncString(q + s, [], all, octets, n - k, data[s..]) == Enc(rest) && !Whole(cur, n))
            && (k == n ==> rest == [])
            && pos + |EncString(pos, cur, all, octets, n, data).bits| == q + s + |rest|
  {
    hide EncLength, DecLength, Taken, AlignTest, Has, Unambiguous, Whole, EncString, Pad;
    AlignSame(all, cur, n, octets);
    LengthTrip0(bits, pos, cur, n);
    UnclosedRest(cur, n);
    var pad;
    pad, rest := EncStep(pos, cur, all, octets, n, data);
    var h, s := EncLength(pos, cur, n), Span(octets, Taken(cur, n));
    p := pos + |h.bits|;
    q := p + |pad|;
    HasSplit(bits, pos, h.bits + pad + data[..s], rest);
    HasSplit3(bits, pos, h.bits, pad, data[..s]);
  }

  lemma LengthTrip0(bits: seq<bool>, pos: nat, sizes: seq<Size>, n: nat)
    requires Unambiguous(sizes, n)
    ensures var h := EncLength(pos, sizes, n);
            h.Enc? && Has(bits, pos, h.bits) ==>
              DecLength(bits, pos, sizes) == Got(Count(Taken(sizes, n), !Whole(sizes, n)), pos + |h.bits|)
  {
    hide EncLength, DecLength, Taken, Has, Unambiguous, Whole;
    var h := EncLength(pos, sizes, n);
    if h.Enc? && Has(bits, pos, h.bits) { LengthTrip(bits, pos, sizes, n); }
  }

  /** A string whose length does not close is never read back as it was sent: the decoder goes on
      past the end of the encoding, and runs out if nothing follows. */
  lemma {:induction false} StringUnclosed(bits: seq<bool>, pos: nat, cur: seq<Size>, all: seq<Size>, octets: bool, n: nat, data: seq<bool>)
    requires |data| == Span(octets, n) && EncString(pos, cur, all, octets, n, data).Enc?
    requires Has(bits, pos, EncString(pos, cur, all, octets, n, data).bits)
    requires Unambiguous(cur, n) && Unclosed(cur, n) && n > 0
    ensures var (r, e) := (DecString(bits, pos, cur, all, octets), pos + |EncString(pos, cur, all, octets, n, data).bits|);
            && (r.Got? ==> r.pos >= e + 8)
            && (e == |bits| ==> r.Fail?)
    decreases n
  {
    hide EncLength, DecLength, AlignTest, Has, Unambiguous, Unclosed, EncString, DecString, Taken, Whole;
    var p, q, rest := FirstFragment(bits, pos, cur, all, octets, n, data);
    UnclosedRest(cur, n);
    var k := Taken(cur, n);
    var s := Span(octets, k);
    Joined(bits, q, data, s);
    DecStep(bits, pos, cur, all, octets, Count(k, !Whole(cur, n)), p, q);
    if k < n {
      StringUnclosed(bits, q + s, [], all, octets, n - k, data[s..]);
    } else {
      StillWaiting(bits, q + s, all, octets);
    }
  }

  lemma StillWaiting(bits: seq<bool>, pos: nat, all: seq<Size>, octets: bool)
    requires pos <= |bits|
    ensures var r := DecString(bits, pos, [], all, octets); r.Got? ==> r.pos >= pos + 8 && pos < |bits|
  {
    assert DecLength(bits, pos, []) == DecUncons(bits, pos);
    hide DecUncons;
  }

  /** The exact conditions: a string under its own constraint is encoded if and only if it is
      Encodable; and it gets across, encoded at any bit position and read back with the cursor where
      the encoder left it, if and only if its length closes as well. */
  lemma StringTripsIff(bits: seq<bool>, pos: nat, sizes: seq<Size>, octets: bool, n: nat, data: seq<bool>)
    requires |data| == Span(octets, n) && Unambiguous(sizes, n)
    requires var e := EncString(pos, sizes, sizes, octets, n, data); e.Enc? ==> Has(bits, pos, e.bits)
    ensures var e := EncString(pos, sizes, sizes, octets, n, data);
            && (e.Enc? <==> Encodable(sizes, octets, n)) && (e.Bad? ==> e.why == ConsVio)
            && ((e.Enc? && DecString(bits, pos, sizes, sizes, octets) == Got(data, pos + |e.bits|))
                <==> (Encodable(sizes, octets, n) && (n == 0 || !Unclosed(sizes, n))))
  {
    hide EncLength, DecLength, AlignTest, Has, Unambiguous, EncString, DecString, Taken, Encodable;
    EncodableIs(sizes, octets, n);
    StringEncodes(pos, sizes, sizes, octets, n, data);
    hide Encodes;
    if Encodable(sizes, octets, n) {
      if n == 0 || !Unclosed(sizes, n) {
        assert !Unclosed(sizes, n);
        ClosedTrip(bits, pos, sizes, sizes, octets, n, data);
      } else {
        StringUnclosed(bits, pos, sizes, sizes, octets, n, data);
      }
    }
  }

  /** The shortest of the strings that do not come back: 16384 zero octets. */
  lemma OneFragmentOnly()
    ensures var d := Flat(seq(16384, _ => 0));
            var e := EncString(0, [], [], true, 16384, d);
            e.Enc? && DecString(e.bits, 0, [], [], true).Fail?
  {
    hide EncString, DecString, Flat;
    var d := Flat(seq(16384, _ => 0));
    FragmentsSent(0, true, 16384, d);
    var e := EncString(0, [], [], true, 16384, d);
    assert e.bits[0..|e.bits|] == e.bits;
    StringUnclosed(e.bits, 0, [], [], true, 16384, d);
  }

  // ---------- the look-ahead scan ----------

  /** When a string can be read at all, the scan finds exactly the number of items the string
      decoder then delivers, however many fragments there are. */
  lemma {:induction false} TotalMatches(bits: seq<bool>, pos: nat, cur: seq<Size>, all: seq<Size>, octets: bool)
    requires pos <= |bits| && DecString(bits, pos, cur, all, octets).Got?
    ensures DecTotal(bits, pos, cur, octets).Got?
    ensures |DecString(bits, pos, cur, all, octets).value| == Span(octets, DecTotal(bits, pos, cur, octets).value)
    decreases |bits| - pos
  {
    hide DecLength, AlignTest;
    var h := DecLength(bits, pos, cur);
    if h.value.more {
      var e := h.pos + Span(octets, h.value.n);
      assert DecString(bits, e, [], all, octets).Got?;
      TotalMatches(bits, e, [], all, octets);
    }
  }

  /** When the scan fails, so does the string decoder, for want of bits. */
  lemma {:induction false} TotalFails(bits: seq<bool>, pos: nat, cur: seq<Size>, all: seq<Size>, octets: bool)
    requires DecTotal(bits, pos, cur, octets).Fail?
    ensures DecString(bits, pos, cur, all, octets) == Fail(EndOfBuf)
    decreases |bits| - pos
  {
    hide DecLength;
    var h := DecLength(bits, pos, cur);
    if h.Got? && h.value.n > 0 {
      var e := h.pos + Span(octets, h.value.n);
      assert AlignTest(all, h.value.n, octets) == Some(true) by { LongAligns(bits, pos, cur, all, octets); }
      hide AlignTest;
      if e <= |bits| { TotalFails(bits, e, [], all, octets); }
    } else if h.Got? {
      TotalFails(bits, h.pos, [], all, octets);
    }
  }

  /** A fragment that others follow is aligned. */
  lemma LongAligns(bits: seq<bool>, pos: nat, cur: seq<Size>, all: seq<Size>, octets: bool)
    ensures var h := DecLength(bits, pos, cur);
            h.Got? && h.value.more && h.value.n > 0 ==> h.pos % 8 == 0 && AlignTest(all, h.value.n, octets) == Some(true)
  {
    hide DecLength;
  }

  // ---------- the fragments of section 10.9.3.8 ----------

  /** The lengths an unconstrained string is sent in. */
  function Fragments(n: nat): seq<nat>
    decreases n
  {
    if Taken([], n) == n then [n] else [Taken([], n)] + Fragments(n - Taken([], n))
  }

  function Sum(s: seq<nat>): nat { if s == [] then 0 else s[0] + Sum(s[1..]) }

  /** As many full fragments of 64K as fit, then one of 16K, 32K or 48K if 16K or more is left, then
      the rest if there is any. */
  function Shape(n: nat): seq<nat> {
    seq(n / 65536, _ => 65536)
      + (if n % 65536 >= 16384 then [n % 65536 - n % 16384] else [])
      + (if n == 0 || n % 16384 > 0 then [n % 16384] else [])
  }

  lemma {:induction false} FragmentShape(n: nat)
    ensures Sum(Fragments(n)) == n && Fragments(n) == Shape(n)
    decreases n
  {
    hide Shape, Fragments, Taken, Sum;
    FirstTaken(n);
    FragmentsCons(n);
    if n > 65536 {
      FragmentShape(n - 65536);
      ShapeCons(n);
    } else if n > 16384 && n % 16384 > 0 {
      FirstTaken(n % 16384);
      FragmentsCons(n % 16384);
      ShapeSmall(n);
    } else {
      ShapeSmall(n);
    }
  }

  lemma ShapeCons(n: nat)
    requires n > 65536
    ensures Shape(n) == [65536] + Shape(n - 65536)
  {
    var m := n - 65536;
    assert n / 65536 == m / 65536 + 1 && n % 65536 == m % 65536 && n % 16384 == m % 16384;
    assert seq(n / 65536, _ => 65536) == [65536] + seq(m / 65536, _ => 65536);
  }

  lemma ShapeSmall(n: nat)
    requires n <= 65536
    ensures Shape(n) ==
      if n < 16384 || n % 16384 == 0 then [n] else [n - n % 16384, n % 16384]
  {
    assert seq(0, _ => 65536) == [];
    assert seq(1, _ => 65536) == [65536];
  }

  lemma FirstTaken(n: nat)
    ensures Taken([], n) == if n < 16384 then n else if n < 65536 then n - n % 16384 else 65536
  {}

  lemma FragmentsCons(n: nat)
    ensures var k := Taken([], n);
            && (k == n ==> Fragments(n) == [n] && Sum(Fragments(n)) == n)
            && (k < n ==> Fragments(n) == [k] + Fragments(n - k) && Sum(Fragments(n)) == k + Sum(Fragments(n - k)))
  {
    hide Taken;
    var k := Taken([], n);
    if k < n {
      assert Fragments(n)[1..] == Fragments(n - k);
    } else {
      assert Sum([n][1..]) == 0;
    }
  }

  /** The encoding of an unconstrained string is one length and one run of items for each of those
      fragments, each on an octet boundary. */
  function Assemble(sizes: seq<nat>, octets: bool, data: seq<bool>): seq<bool> {
    if sizes == [] || Span(octets, sizes[0]) > |data| then []
    else
      UnconsForm(sizes[0]) + data[..Span(octets, sizes[0])] + Assemble(sizes[1..], octets, data[Span(octets, sizes[0])..])
  }

  lemma {:induction false} FragmentsSent(pos: nat, octets: bool, n: nat, data: seq<bool>)
    requires |data| == Span(octets, n) && pos % 8 == 0
    ensures EncString(pos, [], [], octets, n, data) == Enc(Assemble(Fragments(n), octets, data))
    decreases n
  {
    hide EncString, Assemble, Fragments, EncLength, Taken, AlignTest, UnconsForm, Pad;
    SentHead(pos, octets, n, data);
    var k := Taken([], n);
    var s := Span(octets, k);
    if k == n {
      OneFragment(n, octets, data);
    } else {
      FragmentsSent(pos + |UnconsForm(k)| + s, octets, n - k, data[s..]);
      MoreFragments(n, octets, data);
    }
  }

  /** From an octet boundary no padding is sent. */
  lemma SentHead(pos: nat, octets: bool, n: nat, data: seq<bool>)
    requires |data| == Span(octets, n) && pos % 8 == 0
    ensures var (k, s) := (Taken([], n), Span(octets, Taken([], n)));
            var e := pos + |UnconsForm(k)| + s;
            && (k == n ==> EncString(pos, [], [], octets, n, data) == Enc(UnconsForm(n) + data))
            && (k < n ==> e % 8 == 0 && EncString(pos, [], [], octets, n, data) ==
                            Then(Enc(UnconsForm(k) + data[..s]), EncString(e, [], [], octets, n - k, data[s..])))
  {
    hide UnconsForm, EncLength, Taken, AlignTest, Pad, EncString, Then;
    var (k, h) := (Taken([], n), UnconsForm(n));
    Unpadded(pos, n);
    HeaderOctets(n);
    AlwaysAligned(n, octets);
    StringHead(pos, octets, n, data);
    NoPad(pos + |h|);
    DropEmpty(h, data[..Span(octets, k)]);
    WholeData(h, data);
    if k < n { WholeSpan(octets, k); }
    hide Span;
  }

  lemma DropEmpty(a: seq<bool>, b: seq<bool>)
    ensures a + [] + b == a + b && |a + b| == |a| + |b|
  {}

  lemma WholeData(a: seq<bool>, b: seq<bool>)
    ensures b[..|b|] == b && (|b| == 0 ==> a + b == a)
  {}

  lemma WholeSpan(octets: bool, n: nat)
    requires n % 16384 == 0
    ensures Span(octets, n) % 8 == 0
  {}

  lemma NoPad(pos: nat)
    requires pos % 8 == 0
    ensures Pad(pos) == []
  {}

  lemma StringHead(pos: nat, octets: bool, n: nat, data: seq<bool>)
    requires |data| == Span(octets, n) && EncLength(pos, [], n).Enc? && AlignTest([], n, octets) == Some(true)
    ensures var (h, k, s) := (EncLength(pos, [], n).bits, Taken([], n), Span(octets, Taken([], n)));
            var w := h + Pad(pos + |h|) + data[..s];
            && (n == 0 ==> EncString(pos, [], [], octets, n, data) == Enc(h))
            && (n > 0 ==> EncString(pos, [], [], octets, n, data) ==
                            if k == n then Enc(w) else Then(Enc(w), EncString(pos + |w|, [], [], octets, n - k, data[s..])))
  {
    hide EncLength, Taken, AlignTest, Pad;
  }

  lemma AlwaysAligned(n: nat, octets: bool)
    ensures AlignTest([], n, octets) == Some(true)
  {}

  lemma HeaderOctets(n: nat)
    ensures UnconsForm(n) == UnconsForm(Taken([], n)) && |UnconsForm(n)| % 8 == 0
    ensures Taken([], n) < n ==> Taken([], n) % 16384 == 0
  {
    hide BitsOf;
  }

  lemma MoreFragments(n: nat, octets: bool, data: seq<bool>)
    requires |data| == Span(octets, n) && Taken([], n) < n
    ensures var (k, s) := (Taken([], n), Span(octets, Taken([], n)));
            Assemble(Fragments(n), octets, data) ==
              UnconsForm(k) + data[..s] + Assemble(Fragments(n - k), octets, data[s..])
  {
    FragmentsCons(n);
    AssembleCons(Taken([], n), Fragments(n - Taken([], n)), octets, data);
    hide Taken, UnconsForm, Fragments, Assemble;
  }

  lemma AssembleCons(k: nat, rest: seq<nat>, octets: bool, data: seq<bool>)
    requires Span(octets, k) <= |data|
    ensures Assemble([k] + rest, octets, data) == UnconsForm(k) + data[..Span(octets, k)] + Assemble(rest, octets, data[Span(octets, k)..])
  {
    assert ([k] + rest)[1..] == rest;
  }

  lemma OneFragment(n: nat, octets: bool, data: seq<bool>)
    requires |data| == Span(octets, n) && Taken([], n) == n
    ensures Assemble(Fragments(n), octets, data) == UnconsForm(n) + data
  {
    assert data[..|data|] == data;
    assert Fragments(n) == [n];
    assert Assemble([], octets, data[|data|..]) == [];
    assert UnconsForm(n) + data + [] == UnconsForm(n) + data;
  }

  lemma Unpadded(pos: nat, n: nat)
    requires pos % 8 == 0
    ensures EncLength(pos, [], n) == Enc(UnconsForm(n))
  {
    hide UnconsForm;
    assert Pad(pos) == [];
    assert [] + ([] + UnconsForm(n)) == UnconsForm(n);
  }

  // ---------- semi-constrained integers ----------

  /** The sent length is the least that holds the number in two's complement. */
  lemma TwosLeast(x: I32)
    ensures -(Pow2(8 * TwosLen(x) - 1) as int) <= x < Pow2(8 * TwosLen(x) - 1)
    ensures forall n | 1 <= n && -(Pow2(8 * n - 1) as int) <= x < Pow2(8 * n - 1) :: n >= TwosLen(x)
  {
    Pow2Small();
    Pow2Big();
    PowAdd(7, 16);
    PowAdd(7, 24);
    forall n | 1 <= n < TwosLen(x) ensures !(-(Pow2(8 * n - 1) as int) <= x < Pow2(8 * n - 1)) {
      PowGrows(8 * n - 1, 8 * (TwosLen(x) - 1) - 1);
    }
  }

  /** x >> 8 * k, arithmetic. */
  function Asr(x: int, k: nat): int { if k == 0 then x else Asr(x, k - 1) / 256 }

  lemma OctetAt(x: I32, j: nat)
    requires j <= 3
    ensures Low(Shr(Wrap(x), 8 * j), 8) == Asr(x, j) % 256
  {
    var w := Wrap(x);
    Low8(Shr(w, 8 * j));
    AsrOctets(x);
    WrapOctets(x);
    Shr8(w);
    Shr16(w);
    Shr8(w / 65536);
    ShrMore(w, 16, 8);
    assert Shr(w, 0) == w by { ShrZero(w); }
    hide Low, Wrap, Shr, Asr;
    if j == 0 {
    } else if j == 1 {
    } else if j == 2 {
    } else {
      assert Shr(w, 8 * j) == Shr(Shr(w, 16), 8);
    }
  }

  lemma AsrOctets(x: int)
    ensures Asr(x, 0) == x && Asr(x, 1) == x / 256 && Asr(x, 2) == x / 256 / 256 && Asr(x, 3) == x / 256 / 256 / 256
  {
    assert Asr(x, 1) == Asr(x, 0) / 256;
    assert Asr(x, 2) == Asr(x, 1) / 256;
    assert Asr(x, 3) == Asr(x, 2) / 256;
  }

  lemma WrapOctets(x: I32)
    ensures var w := Wrap(x);
            && w % 256 == x % 256 && w / 256 % 256 == x / 256 % 256
            && w / 65536 % 256 == x / 256 / 256 % 256
            && w / 65536 / 256 % 256 == x / 256 / 256 / 256 % 256
  {
    var w, k := Wrap(x), if x < 0 then 1 else 0;
    assert w == x + 256 * (0x100_0000 * k);
    hide Wrap;
    TwoDigits(w);
    Carry(x, 0x100_0000 * k);
    Carry(x / 256, 0x1_0000 * k);
    Carry(x / 256 / 256, 0x100 * k);
  }

  lemma TwoDigits(w: nat)
    ensures w / 65536 == w / 256 / 256
  {}

  /** A multiple of the base added to a number moves to the next digit. */
  lemma Carry(x: int, k: int)
    ensures (x + 256 * k) / 256 == x / 256 + k && (x + 256 * k) % 256 == x % 256
  {}

  lemma {:induction false} TwosTrip(bits: seq<bool>, pos: nat, x: I32, k: nat)
    requires k <= 3 && Has(bits, pos, BitsOf(Wrap(x), 8 * k)) && -0x8000_0000 <= Asr(x, k) < 0x8000_0000
    ensures DecTwos(bits, pos, k, Asr(x, k)) == Got(x, pos + 8 * k)
    decreases k
  {
    if k > 0 {
      hide BitsOf, DecBits, Has, Wrap;
      var b := NextOctet(bits, pos, x, k);
      AsrStep(x, k);
      hide Asr;
      TwosTrip(bits, pos + 8, x, k - 1);
    }
  }

  lemma {:induction false} AsrFits(x: I32, k: nat)
    ensures -0x8000_0000 <= Asr(x, k) < 0x8000_0000
  {
    if k > 0 { AsrFits(x, k - 1); }
  }

  lemma AsrStep(x: I32, k: nat)
    requires k > 0
    ensures Asr(x, k) * 256 + Asr(x, k - 1) % 256 == Asr(x, k - 1) == Signed(Asr(x, k - 1))
    ensures -0x8000_0000 <= Asr(x, k - 1) < 0x8000_0000
  {
    AsrFits(x, k - 1);
  }

  lemma NextOctet(bits: seq<bool>, pos: nat, x: I32, k: nat) returns (b: nat)
    requires 1 <= k <= 4 && Has(bits, pos, BitsOf(Wrap(x), 8 * k))
    ensures b == Asr(x, k - 1) % 256 && DecBits(bits, pos, 8) == Got(b, pos + 8)
    ensures Has(bits, pos + 8, BitsOf(Wrap(x), 8 * (k - 1)))
  {
    var j := 8 * (k - 1);
    BitsSplit(Wrap(x), 8, j);
    OctetAt(x, k - 1);
    b := Low(Shr(Wrap(x), j), 8);
    LowBits(Shr(Wrap(x), j), 8, 8);
    Pow2Small();
    hide BitsOf, Has, DecBits, Shr, Low;
    HasSplit(bits, pos, BitsOf(Shr(Wrap(x), j), 8), BitsOf(Wrap(x), j));
    BitsTrip(bits, pos, b, 8);
  }

  /** Exactly the numbers whose length is allowed are encoded. */
  lemma SemiEncodes(pos: nat, sizes: seq<Size>, value: I32, lower: I32)
    ensures EncSemi(pos, sizes, value, lower).Enc? <==> Allowed(sizes, TwosLen(SemiOffset(value, lower)))
  {
    hide EncLength, Allowed, TwosLen, SemiOffset;
    LengthEncodes(pos, sizes, TwosLen(SemiOffset(value, lower)));
  }

  /** Every value comes back for every lower bound, even where their difference wraps. */
  lemma SemiTrip(bits: seq<bool>, pos: nat, sizes: seq<Size>, value: I32, lower: I32)
    requires EncSemi(pos, sizes, value, lower).Enc? && Has(bits, pos, EncSemi(pos, sizes, value, lower).bits)
    requires Unambiguous(sizes, TwosLen(SemiOffset(value, lower)))
    ensures DecSemi(bits, pos, sizes, lower) == Got(value, pos + |EncSemi(pos, sizes, value, lower).bits|)
  {
    hide Has, EncLength, DecLength, Unambiguous, BitsOf, DecBits, DecTwos, Pad, TwosLen, Asr, SemiOffset, Taken, Whole, Signed, SignedOctet;
    var x := SemiOffset(value, lower);
    var n := TwosLen(x);
    var h := EncLength(pos, sizes, n);
    var p := pos + |h.bits|;
    OffsetBack(value, lower);
    WholeLength(sizes, n);
    TopOctet(x);
    HasSplit(bits, pos, h.bits, Pad(p) + BitsOf(Wrap(x), 8 * n));
    HasSplit(bits, p, Pad(p), BitsOf(Wrap(x), 8 * n));
    LengthTrip(bits, pos, sizes, n);
    var b := NextOctet(bits, AlignUp(p), x, n);
    TwosTrip(bits, AlignUp(p) + 8, x, n - 1);
  }

  lemma WholeLength(sizes: seq<Size>, n: nat)
    requires n < 16384
    ensures Taken(sizes, n) == n && Whole(sizes, n)
  {}

  lemma OffsetBack(value: I32, lower: I32)
    ensures (if lower > -0x8000_0000 then Signed(SemiOffset(value, lower) + lower) else SemiOffset(value, lower)) == value
  {}

  lemma TopOctet(x: I32)
    ensures var t := Asr(x, TwosLen(x) - 1); t == SignedOctet(t % 256) == Signed(t)
    ensures -128 <= Asr(x, TwosLen(x) - 1) < 128
  {
    var n := TwosLen(x);
    assert Asr(x, 1) == x / 256;
    assert Asr(x, 2) == x / 256 / 256;
    assert Asr(x, 3) == x / 256 / 256 / 256;
  }

  // ---------- object identifiers ----------

  lemma {:induction false} ArcTrip(bits: seq<bool>, pos: nat, v: U32, n: nat, len: U32)
    requires 1 <= n <= 5 && Has(bits, pos, EncGroups(v, n)) && Shr(v, 7 * n) < 0x1_0000_0000
    ensures DecArc(bits, pos, Shr(v, 7 * n), len) == Got(Arc(v, Wrap(len - n)), pos + 8 * n)
    decreases n
  {
    hide BitsOf, Has, DecBits, Shr, EncGroups, DecArc;
    var u := Shr(v, 7 * (n - 1));
    var g := u % 128 + (if n > 1 then 128 else 0);
    ShrMore(v, 7 * (n - 1), 7);
    Shr7(u);
    ShrLess(v, 7 * (n - 1));
    assert g < Pow2(8) by { Pow2Small(); }
    hide Pow2, Wrap;
    assert EncGroups(v, n) == BitsOf(g, 8) + EncGroups(v, n - 1) by { GroupsCons(v, n); }
    HasSplit(bits, pos, BitsOf(g, 8), EncGroups(v, n - 1));
    BitsTrip(bits, pos, g, 8);
    ArcStep(bits, pos, u / 128, len, g);
    assert u / 128 * 128 + g % 128 == u;
    if n > 1 {
      ArcTrip(bits, pos + 8, v, n - 1, Wrap(len - 1));
    } else {
      ShrZero(v);
    }
  }

  lemma GroupsCons(v: U32, n: nat)
    requires n > 0
    ensures EncGroups(v, n) == BitsOf(Shr(v, 7 * (n - 1)) % 128 + (if n > 1 then 128 else 0), 8) + EncGroups(v, n - 1)
  {}

  lemma ArcStep(bits: seq<bool>, pos: nat, acc: U32, len: U32, g: nat)
    requires g < 256 && DecBits(bits, pos, 8) == Got(g, pos + 8)
    ensures var (id, left) := (Wrap(acc * 128 + g % 128), Wrap(len - 1));
            DecArc(bits, pos, acc, len) ==
              if g >= 128 then DecArc(bits, pos + 8, id, left) else Got(Arc(id, left), pos + 8)
  {
    hide DecBits;
  }

  lemma {:induction false} ShrLess(v: nat, n: nat)
    ensures Shr(v, n) <= v
  {
    if n > 0 { ShrLess(v / 2, n - 1); }
  }

  lemma WholeArc(bits: seq<bool>, pos: nat, v: U32, len: U32)
    requires Has(bits, pos, EncArc(v))
    ensures DecArc(bits, pos, 0, len) == Got(Arc(v, Wrap(len - ArcLen(v))), pos + 8 * ArcLen(v))
  {
    var n := ArcLen(v);
    Pow2Small();
    Pow2Big();
    PowAdd(7, 7);
    PowAdd(7, 14);
    PowAdd(14, 14);
    PowGrows(32, 35);
    ShrBelow(v, 0, 7 * n);
    ArcTrip(bits, pos, v, n, len);
  }

  lemma {:induction false} GroupsSize(v: U32, n: nat)
    ensures |EncGroups(v, n)| == 8 * n
  {
    if n > 0 { GroupsSize(v, n - 1); }
  }

  /** The length computed beforehand is the octets written. */
  lemma {:induction false} ArcsSize(ids: seq<U32>)
    ensures |EncArcs(ids)| == 8 * ArcsLen(ids) && |ids| <= ArcsLen(ids) <= 5 * |ids|
  {
    if ids != [] {
      GroupsSize(ids[0], ArcLen(ids[0]));
      ArcsSize(ids[1..]);
    }
  }

  lemma {:induction false} ArcsTrip(bits: seq<bool>, pos: nat, done: seq<U32>, ids: seq<U32>)
    requires Has(bits, pos, EncArcs(ids)) && done != [] && |done| + |ids| <= MAX_ARCS
    ensures ArcsLen(ids) < 0x1_0000_0000
    ensures DecArcs(bits, pos, ArcsLen(ids), done) == Got(done + ids, pos + 8 * ArcsLen(ids))
    decreases |ids|
  {
    hide Has, EncArc, DecArc, ArcLen, DecArcs, EncArcs, ArcsLen;
    ArcsSize(ids);
    if ids == [] {
      NoArcs(bits, pos, done);
      assert done + ids == done;
    } else {
      var l := ArcsLen(ids);
      ArcsCons(ids);
      HasSplit(bits, pos, EncArc(ids[0]), EncArcs(ids[1..]));
      WholeArc(bits, pos, ids[0], l);
      ArcsSize(ids[1..]);
      ArcsTrip(bits, pos + 8 * ArcLen(ids[0]), done + [ids[0]], ids[1..]);
      assert done + [ids[0]] + ids[1..] == done + ids;
      ArcsStep(bits, pos, l, done, Arc(ids[0], ArcsLen(ids[1..])), pos + 8 * ArcLen(ids[0]));
    }
  }

  lemma NoArcs(bits: seq<bool>, pos: nat, done: seq<U32>)
    ensures ArcsLen([]) == 0 && DecArcs(bits, pos, 0, done) == Got(done, pos)
  {}

  lemma ArcsCons(ids: seq<U32>)
    requires ids != []
    ensures EncArcs(ids) == EncArc(ids[0]) + EncArcs(ids[1..]) && |EncArc(ids[0])| == 8 * ArcLen(ids[0])
    ensures ArcsLen(ids) == ArcLen(ids[0]) + ArcsLen(ids[1..])
  {
    GroupsSize(ids[0], ArcLen(ids[0]));
  }

  lemma ArcsStep(bits: seq<bool>, pos: nat, len: U32, done: seq<U32>, a: Arc, p: nat)
    requires len > 0 && |done| < MAX_ARCS && DecArc(bits, pos, 0, len) == Got(a, p)
    ensures DecArcs(bits, pos, len, done) ==
              DecArcs(bits, p, a.len, if done == [] then FirstTwo(a.id) else done + [a.id])
  {
    hide DecArc;
  }

  // ---------- the object identifier as a whole ----------

  /** Both sides count octets alike: what the decoder takes in is what the length announced. */
  lemma {:induction false} ArcsConsumed(bits: seq<bool>, pos: nat, len: U32, done: seq<U32>) returns (k: nat)
    requires DecArcs(bits, pos, len, done).Got?
    ensures DecArcs(bits, pos, len, done).pos == pos + 8 * k && Wrap(k) == len
    decreases |bits| - pos
  {
    hide DecArc;
    if len == 0 {
      k := 0;
    } else {
      var r := DecArc(bits, pos, 0, len);
      var j := ArcConsumed(bits, pos, 0, len);
      ArcsStep(bits, pos, len, done, r.value, r.pos);
      var next := if done == [] then FirstTwo(r.value.id) else done + [r.value.id];
      hide DecArcs, FirstTwo;
      k := ArcsConsumed(bits, r.pos, r.value.len, next);
      k := k + j;
    }
  }

  lemma {:induction false} ArcConsumed(bits: seq<bool>, pos: nat, acc: U32, len: U32) returns (k: nat)
    requires DecArc(bits, pos, acc, len).Got?
    ensures var r := DecArc(bits, pos, acc, len); r.pos == pos + 8 * k && r.value.len == Wrap(len - k)
    decreases |bits| - pos
  {
    hide DecArc, DecBits;
    var b := ArcReads(bits, pos, acc, len);
    ArcStep(bits, pos, acc, len, b);
    k := 1;
    if b >= 128 {
      k := ArcConsumed(bits, pos + 8, Wrap(acc * 128 + b % 128), Wrap(len - 1));
      k := k + 1;
    }
  }

  lemma ArcReads(bits: seq<bool>, pos: nat, acc: U32, len: U32) returns (b: nat)
    requires DecArc(bits, pos, acc, len).Got?
    ensures b < 256 && DecBits(bits, pos, 8) == Got(b, pos + 8)
  {
    b := ValOf(bits[pos..pos + 8]);
    BitsVal(bits[pos..pos + 8]);
    Pow2Small();
  }

  /** What the decoder makes of an encoding whose first octet holds the first two arcs. */
  lemma OidReads(bits: seq<bool>, pos: nat, sizes: seq<Size>, ids: seq<U32>)
    requires |ids| <= MAX_ARCS && GoodOid(ids) && EncOid(pos, sizes, ids).Enc?
    requires Has(bits, pos, EncOid(pos, sizes, ids).bits)
    requires Unambiguous(sizes, 1 + ArcsLen(ids[2..]))
    ensures var (t, e) := (Wrap(ids[0] as int * 40 + ids[1]), pos + |EncOid(pos, sizes, ids).bits|);
            && (t < 128 ==> DecOid(bits, pos, sizes) == Got(FirstTwo(t) + ids[2..], e))
            && (t >= 128 ==> DecOid(bits, pos, sizes).Fail? || DecOid(bits, pos, sizes).pos != e)
  {
    hide Has, EncArc, DecArc, ArcLen, DecArcs, EncArcs, ArcsLen, EncLength, DecLength, Unambiguous, FirstTwo;
    var t := Wrap(ids[0] as int * 40 + ids[1]);
    var (rest, n) := (ids[2..], 1 + ArcsLen(ids[2..]));
    var h := EncLength(pos, sizes, n);
    var p := pos + |h.bits|;
    HasSplit(bits, pos, h.bits, EncArcs([t] + rest));
    LengthTrip(bits, pos, sizes, n);
    ArcsSize(rest);
    WholeLength(sizes, n);
    assert ([t] + rest)[1..] == rest;
    ArcsCons([t] + rest);
    ArcsSize([t] + rest);
    HasSplit(bits, p, EncArc(t), EncArcs(rest));
    if t < 128 {
      ArcLenOne(t);
      WholeArc(bits, p, t, n);
      FirstTwoSize(t);
      ArcsStep(bits, p, n, [], Arc(t, n - 1), p + 8);
      ArcsTrip(bits, p + 8, FirstTwo(t), rest);
    } else {
      ArcLenOne(t);
      var r := DecArcs(bits, p, n, []);
      if r.Got? { var k := ArcsConsumed(bits, p, n, []); }
    }
  }

  lemma ArcLenOne(t: U32)
    ensures ArcLen(t) == 1 <==> t < 128
  {}

  lemma FirstTwoSize(t: U32)
    ensures |FirstTwo(t)| == 2
  {}

  /** The length written for an object identifier. */
  function OidOctets(ids: seq<U32>): nat {
    1 + (if |ids| < 2 then 0 else ArcsLen(ids[2..]))
  }

  /** Exactly the identifiers with good first arcs and an allowed length are encoded. */
  lemma OidEncodes(pos: nat, sizes: seq<Size>, ids: seq<U32>)
    ensures EncOid(pos, sizes, ids).Enc? <==> GoodOid(ids) && Allowed(sizes, OidOctets(ids))
  {
    hide EncLength, Allowed, EncArcs, ArcsLen;
    LengthEncodes(pos, sizes, OidOctets(ids));
  }

  /** The first two arcs are counted as one octet. An identifier gets across, encoded and read back
      with the cursor where the encoder left it, if and only if it is encoded and they fit one. */
  lemma OidTripsIff(bits: seq<bool>, pos: nat, sizes: seq<Size>, ids: seq<U32>)
    requires |ids| <= 128 && Unambiguous(sizes, OidOctets(ids))
    requires var e := EncOid(pos, sizes, ids); e.Enc? ==> Has(bits, pos, e.bits)
    ensures var e := EncOid(pos, sizes, ids);
            && (e.Enc? <==> GoodOid(ids) && Allowed(sizes, OidOctets(ids)))
            && ((e.Enc? && DecOid(bits, pos, sizes) == Got(ids, pos + |e.bits|))
                <==> (GoodOid(ids) && Allowed(sizes, OidOctets(ids)) && 40 * (ids[0] as int) + ids[1] < 128))
  {
    hide EncOid, DecOid, Has, Unambiguous, ArcsLen, Allowed;
    OidEncodes(pos, sizes, ids);
    if EncOid(pos, sizes, ids).Enc? { OidBackIff(bits, pos, sizes, ids); }
  }

  lemma OidBackIff(bits: seq<bool>, pos: nat, sizes: seq<Size>, ids: seq<U32>)
    requires |ids| <= MAX_ARCS && GoodOid(ids) && EncOid(pos, sizes, ids).Enc?
    requires Has(bits, pos, EncOid(pos, sizes, ids).bits)
    requires Unambiguous(sizes, 1 + ArcsLen(ids[2..]))
    ensures DecOid(bits, pos, sizes) == Got(ids, pos + |EncOid(pos, sizes, ids).bits|)
      <==> 40 * (ids[0] as int) + ids[1] < 128
  {
    hide EncOid, DecOid, Has, Unambiguous, ArcsLen;
    OidReads(bits, pos, sizes, ids);
    var t := Wrap(ids[0] as int * 40 + ids[1]);
    assert FirstTwo(t) == [ids[0], ids[1]] <==> t == ids[0] as int * 40 + ids[1];
    assert ids == [ids[0], ids[1]] + ids[2..];
    if t < 128 && FirstTwo(t) != [ids[0], ids[1]] {
      assert (FirstTwo(t) + ids[2..])[..2] != ids[..2];
    }
  }

  /** The least arcs that do not come back: 40 * 2 + 48 needs two octets. */
  lemma TwoOctetArcs()
    ensures var e := EncOid(0, [], [2, 48]);
            e.Enc? && DecOid(e.bits, 0, []) != Got([2, 48], |e.bits|)
  {
    var ids: seq<U32> := [2, 48];
    assert GoodOid(ids) && ids[2..] == [];
    hide EncOid, DecOid, GoodOid;
    TwoOctetFirst(ids);
  }

  lemma TwoOctetFirst(ids: seq<U32>)
    requires GoodOid(ids) && ids[2..] == [] && 128 <= 40 * (ids[0] as int) + ids[1]
    ensures var e := EncOid(0, [], ids); e.Enc? && DecOid(e.bits, 0, []) != Got(ids, |e.bits|)
  {
    var e := EncOid(0, [], ids);
    OneOctetOid(ids);
    HasAll(e.bits);
    assert Unambiguous([], 1 + ArcsLen(ids[2..])) by { hide ArcsLen; }
    assert |ids| <= MAX_ARCS by { assert |ids[2..]| == 0; }
    hide *;
    OidBackIff(e.bits, 0, [], ids);
  }

  lemma HasAll(b: seq<bool>)
    ensures Has(b, 0, b)
  {
    assert b[0..|b|] == b;
  }

  lemma OneOctetOid(ids: seq<U32>)
    requires GoodOid(ids) && ids[2..] == []
    ensures EncOid(0, [], ids).Enc?
  {
    hide EncArcs;
  }
}
