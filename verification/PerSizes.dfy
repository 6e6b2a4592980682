/** Size constraints of several ranges. The encoder chooses a range by the length, the decoder by the
    extension bit alone; here is exactly when a length comes back all the same. */
module PerSizes {
  import opened Bits
  import opened PerSpec
  import opened PerRoundTrip
  import opened Wrappers

  predicate Ordered(sizes: seq<Size>) {
    forall s | s in sizes :: s.lower <= s.upper
  }

  /** The bits that hold a number in the range, padding apart. */
  function Digits(s: Size): nat {
    if s.lower >= s.upper then 0
    else if s.upper - s.lower <= 254 then BitCount(s.upper - s.lower)
    else if s.upper - s.lower == 255 then 8
    else 16
  }

  /** The bits that a length takes in the range at bit pos. */
  function Width(pos: nat, s: Size): nat {
    Digits(s) + (if s.lower < s.upper && s.upper - s.lower > 254 then AlignUp(pos) - pos else 0)
  }

  /** What is sent at bit pos as the length n in range s is read as n in range g: both have the
      general form, or the same width and lower bound, or one has the general form, which is an octet
      for n < 128, and the other gives n the same octet. */
  predicate Agree(pos: nat, s: Size, g: Size, n: nat) {
    if s.upper >= 65536 && g.upper >= 65536 then true
    else if s.upper < 65536 && g.upper < 65536 then s.lower == g.lower && Width(pos, s) == Width(pos, g)
    else
      var b := if s.upper < 65536 then s else g;
      b.lower == 0 && n < 128 && Width(pos, b) == AlignUp(pos) - pos + 8
  }

  lemma BitCountSmall(v: U32)
    requires 0 < v <= 254
    ensures 1 <= BitCount(v) <= 8
  {
    Pow2Small();
    if BitCount(v) > 8 { PowGrows(8, BitCount(v) - 1); }
  }

  /** What the decoder reads in a range below 65536. */
  ghost function Reads(bits: seq<bool>, p: nat, g: Size): Dec<Count> {
    var (q, k) := (p + Width(p, g), Digits(g));
    if k == 0 then Got(Count(g.lower, false), q)
    else if k <= q <= |bits| then Got(Count(g.lower + ValOf(bits[q - k..q]), false), q)
    else Fail(EndOfBuf)
  }

  lemma ReadsWidth(bits: seq<bool>, p: nat, g: Size)
    requires g.lower <= g.upper < 65536
    ensures Digits(g) <= Width(p, g) && DecBounded(bits, p, g.lower, g.upper) == Reads(bits, p, g)
  {
    hide ValOf, DecWhole, Wrap, BitCount, AlignUp;
    Unwrapped(g.upper - g.lower + 1);
    assert g.upper as int - g.lower + 1 == g.upper - g.lower + 1;
    if g.lower < g.upper {
      ReadsWhole(bits, p, g);
      hide Width, Digits;
      var (q, k) := (p + Width(p, g), Digits(g));
      if q <= |bits| {
        SmallVal(bits[q - k..q]);
        Unwrapped(ValOf(bits[q - k..q]) + g.lower);
      }
    }
  }

  lemma ReadsWhole(bits: seq<bool>, p: nat, g: Size)
    requires g.lower < g.upper < 65536
    ensures var (q, k) := (p + Width(p, g), Digits(g));
            && 0 < k <= Width(p, g) && k <= 16
            && DecWhole(bits, p, g.upper - g.lower + 1) == if q <= |bits| then Got(ValOf(bits[q - k..q]), q) else Fail(EndOfBuf)
  {
    hide ValOf, BitCount, AlignUp, Wrap;
    Unwrapped(g.upper - g.lower);
    assert g.upper - g.lower + 1 - 1 == g.upper - g.lower;
    if g.upper - g.lower <= 254 { BitCountSmall(g.upper - g.lower); }
  }

  /** A width of whole octets from the next octet boundary is one of so many digits. */
  lemma WholeWidth(p: nat, g: Size)
    requires g.lower <= g.upper
    ensures Width(p, g) == AlignUp(p) - p + 8 ==> Digits(g) == 8
    ensures Width(p, g) == AlignUp(p) - p + 16 ==> Digits(g) == 16
    ensures Digits(g) <= 16
  {
    hide BitCount;
    if 0 < g.upper - g.lower <= 254 { BitCountSmall(g.upper - g.lower); }
  }

  lemma SmallVal(b: seq<bool>)
    requires |b| <= 16
    ensures ValOf(b) < 65536
  {
    BitsVal(b);
    Pow2Big();
    PowGrows(|b|, 16);
  }

  lemma {:induction false} LeadingBit(b: seq<bool>)
    requires b != []
    ensures ValOf(b) == (if b[0] then Pow2(|b| - 1) else 0) + ValOf(b[1..])
  {
    var k := |b| - 1;
    if k > 0 {
      LeadingBit(b[..k]);
      assert b[..k][1..] == b[1..][..k - 1];
    } else {
      assert b[..k] == [] && b[1..] == [];
    }
  }

  lemma SameWidth(p: nat, s: Size, g: Size)
    requires s.lower <= s.upper && g.lower <= g.upper && Width(p, s) == Width(p, g)
    ensures Digits(s) == Digits(g)
  {
    hide BitCount;
    if 0 < s.upper - s.lower <= 254 { BitCountSmall(s.upper - s.lower); }
    if 0 < g.upper - g.lower <= 254 { BitCountSmall(g.upper - g.lower); }
  }

  /** Where the general form ends, and what it says. */
  lemma ReadsGeneral(bits: seq<bool>, p: nat)
    ensures var (r, q) := (DecUncons(bits, p), AlignUp(p));
            r.Got? && !r.value.more ==>
              || (r.pos == q + 8 && r.value.n < 128 && r.value.n == ValOf(bits[q..q + 8]))
              || (r.pos == q + 16 && r.value.n < 16384 && r.value.n + 32768 == ValOf(bits[q..q + 16]))
    ensures var q := AlignUp(p);
            q + 8 <= |bits| && ValOf(bits[q..q + 8]) < 128 ==> DecUncons(bits, p) == Got(Count(ValOf(bits[q..q + 8]), false), q + 8)
  {
    hide ValOf, Pow2;
    var q := AlignUp(p);
    Pow2Small();
    Pow2Big();
    if q + 8 <= |bits| {
      var b := bits[q..q + 8];
      LeadingBit(b);
      BitsVal(b[1..]);
      assert b[1..] == bits[q + 1..q + 8] && b[0] == bits[q];
    }
    if q + 16 <= |bits| && bits[q] && !bits[q + 1] {
      var b := bits[q..q + 16];
      LeadingBit(b);
      LeadingBit(b[1..]);
      BitsVal(b[2..]);
      assert b[1..][1..] == b[2..] == bits[q + 2..q + 16] && b[0] == bits[q] && b[1] == bits[q + 1];
    }
  }

  /** Sent in a range below 65536: the bits taken. */
  lemma SentWidth(bits: seq<bool>, p: nat, s: Size, n: nat)
    requires s.lower <= n <= s.upper < 65536 && EncBounded(p, s.lower, s.upper, n).Enc?
    requires Has(bits, p, EncBounded(p, s.lower, s.upper, n).bits)
    ensures var (e, q, k) := (EncBounded(p, s.lower, s.upper, n), p + Width(p, s), Digits(s));
            |e.bits| == Width(p, s) && q <= |bits| && k <= Width(p, s) && n == s.lower + ValOf(bits[q - k..q])
  {
    hide DecBounded, EncBounded, BitCount, ValOf, Digits, Width;
    BoundedTrip(bits, p, s.lower, s.upper, n);
    ReadsWidth(bits, p, s);
    if p + Width(p, s) > |bits| { NotPast(bits, p, s); }
    if Digits(s) == 0 { NoDigits(bits, p + Width(p, s)); }
  }

  lemma NotPast(bits: seq<bool>, p: nat, s: Size)
    requires s.lower <= s.upper < 65536 && DecBounded(bits, p, s.lower, s.upper).Got? && p <= |bits|
    ensures p + Width(p, s) <= |bits|
  {
    ReadsWidth(bits, p, s);
  }

  lemma NoDigits(bits: seq<bool>, q: nat)
    requires q <= |bits|
    ensures ValOf(bits[q - 0..q]) == 0
  {}

  /** Whatever is sent in one range and read in another. */
  lemma BoundedIff(bits: seq<bool>, p: nat, s: Size, g: Size, n: nat)
    requires s.lower <= n && (s.upper < 65536 ==> n <= s.upper) && g.lower <= g.upper
    requires EncBounded(p, s.lower, s.upper, n).Enc? && Has(bits, p, EncBounded(p, s.lower, s.upper, n).bits)
    ensures DecBounded(bits, p, g.lower, g.upper) == Sent(p, s, n) <==> Agree(p, s, g, n)
  {
    hide DecBounded, EncBounded, Agree, Has;
    BoundedTrip(bits, p, s.lower, s.upper, n);
    if s.upper >= 65536 && g.upper >= 65536 {
      BothGeneral(bits, p, s, g, n);
    } else if s.upper >= 65536 {
      SentGeneral(bits, p, s, g, n);
    } else {
      SentWidth(bits, p, s, n);
      if g.upper < 65536 { BothBounded(bits, p, s, g, n); } else { ReadGeneral(bits, p, s, g, n); }
    }
  }

  /** The length n as it is read in the range it was sent in. */
  ghost function Sent(p: nat, s: Size, n: nat): Dec<Count>
    requires s.upper < 65536 ==> s.lower <= n <= s.upper
  {
    Got(Count(if s.upper < 65536 then n else Taken([], n), s.upper >= 65536 && n >= 16384),
      p + match EncBounded(p, s.lower, s.upper, n) case Enc(b) => |b| case Bad(_) => 0)
  }

  lemma BothGeneral(bits: seq<bool>, p: nat, s: Size, g: Size, n: nat)
    requires s.upper >= 65536 && g.upper >= 65536 && DecBounded(bits, p, s.lower, s.upper) == Sent(p, s, n)
    ensures DecBounded(bits, p, g.lower, g.upper) == Sent(p, s, n) && Agree(p, s, g, n)
  {
    hide DecUncons;
  }

  lemma BothBounded(bits: seq<bool>, p: nat, s: Size, g: Size, n: nat)
    requires s.lower <= n <= s.upper < 65536 && g.lower <= g.upper < 65536 && EncBounded(p, s.lower, s.upper, n).Enc?
    requires var (q, k) := (p + Width(p, s), Digits(s));
             q <= |bits| && k <= Width(p, s) == |EncBounded(p, s.lower, s.upper, n).bits| && n == s.lower + ValOf(bits[q - k..q])
    ensures DecBounded(bits, p, g.lower, g.upper) == Sent(p, s, n) <==> Agree(p, s, g, n)
  {
    hide EncBounded, DecBounded, ValOf, Digits, Width;
    ReadsWidth(bits, p, g);
    if Width(p, s) == Width(p, g) { SameWidth(p, s, g); }
    if Digits(s) == 0 { NoDigits(bits, p + Width(p, s)); }
  }

  lemma SentGeneral(bits: seq<bool>, p: nat, s: Size, g: Size, n: nat)
    requires s.upper >= 65536 > g.upper >= g.lower && DecBounded(bits, p, s.lower, s.upper) == Sent(p, s, n)
    ensures DecBounded(bits, p, g.lower, g.upper) == Sent(p, s, n) <==> Agree(p, s, g, n)
  {
    hide EncBounded, ValOf, Digits, Width, DecUncons;
    ReadsWidth(bits, p, g);
    ReadsGeneral(bits, p);
    WholeWidth(p, g);
    hide AlignUp;
    var (r, t, q) := (DecUncons(bits, p), Reads(bits, p, g), AlignUp(p));
    assert r == Sent(p, s, n) && DecBounded(bits, p, g.lower, g.upper) == t;
    if n < 128 { OctetForm(p, s, n); }
    if n < 16384 {
      assert r == Got(Count(n, false), r.pos);
      if t == r { assert r.pos == q + 8 && n < 128 && g.lower == 0; }
    }
  }

  lemma OctetForm(p: nat, s: Size, n: nat)
    requires s.upper >= 65536 && n < 128
    ensures Sent(p, s, n).pos == AlignUp(p) + 8
  {
    hide BitsOf;
  }

  lemma ReadGeneral(bits: seq<bool>, p: nat, s: Size, g: Size, n: nat)
    requires s.lower <= n <= s.upper < 65536 <= g.upper && EncBounded(p, s.lower, s.upper, n).Enc?
    requires var (q, k) := (p + Width(p, s), Digits(s));
             q <= |bits| && k <= Width(p, s) == |EncBounded(p, s.lower, s.upper, n).bits| && n == s.lower + ValOf(bits[q - k..q])
    ensures DecBounded(bits, p, g.lower, g.upper) == Sent(p, s, n) <==> Agree(p, s, g, n)
  {
    hide EncBounded, ValOf, DecUncons, Digits, Width;
    ReadsGeneral(bits, p);
    WholeWidth(p, s);
    hide AlignUp;
  }

  /** The length n, sent at bit pos under a constraint that allows it, is read as n. */
  predicate ReadBack(pos: nat, sizes: seq<Size>, n: nat) {
    sizes == []
    || (CheckSize(sizes, n).Some?
        && var s := CheckSize(sizes, n).value;
           GetSize(sizes, s.extended).Some?
           && Agree(pos + if Extendable(sizes) then 1 else 0, s, GetSize(sizes, s.extended).value, n))
  }

  /** The exact condition: a length gets across, encoded at any bit position and read back with the
      cursor where the encoder left it, if and only if it is allowed and the range that the decoder
      takes agrees with the one it lies in. */
  lemma LengthTripsIff(bits: seq<bool>, pos: nat, sizes: seq<Size>, n: nat)
    requires Ordered(sizes)
    requires var e := EncLength(pos, sizes, n); e.Enc? ==> Has(bits, pos, e.bits)
    ensures var e := EncLength(pos, sizes, n);
            (e.Enc? && DecLength(bits, pos, sizes) == Got(Count(Taken(sizes, n), !Whole(sizes, n)), pos + |e.bits|))
            <==> (Allowed(sizes, n) && ReadBack(pos, sizes, n))
  {
    hide Agree, EncBounded, DecBounded, Has, Extendable, Taken, CheckSize, GetSize;
    LengthEncodes(pos, sizes, n);
    if Allowed(sizes, n) && sizes == [] {
      OneRange(Size(0, 0, false), n);
      LengthTrip(bits, pos, sizes, n);
    } else if Allowed(sizes, n) {
      var s := CheckSize(sizes, n).value;
      var ext: seq<bool> := if Extendable(sizes) then [s.extended] else [];
      var e := EncBounded(pos + |ext|, s.lower, s.upper, n);
      HasSplit(bits, pos, ext, e.bits);
      Flagged(bits, pos, sizes, s, ext);
      var g := GetSize(sizes, s.extended).value;
      BoundedIff(bits, pos + |ext|, s, g, n);
      TakenWhole(sizes, n);
    }
  }

  /** The decoder finds the extension bit, and a range with it. */
  lemma Flagged(bits: seq<bool>, pos: nat, sizes: seq<Size>, s: Size, ext: seq<bool>)
    requires s in sizes && ext == (if Extendable(sizes) then [s.extended] else []) && Has(bits, pos, ext)
    ensures Extendable(sizes) ==> pos < |bits|
    ensures s.extended == (Extendable(sizes) && bits[pos]) && GetSize(sizes, s.extended).Some?
  {
    if Extendable(sizes) { assert bits[pos..pos + 1][0] == ext[0]; }
  }

  lemma UnambiguousAgrees(pos: nat, sizes: seq<Size>, n: nat)
    requires Unambiguous(sizes, n) && Allowed(sizes, n)
    ensures ReadBack(pos, sizes, n)
  {}

  /** Under SIZE(0..3 | 8..11) a length of 9 is sent as 1 above 8 and read as 1 above 0. */
  lemma ReadInFirst()
    ensures var sizes := [Size(0, 3, false), Size(8, 11, false)];
            && EncLength(0, sizes, 9) == Enc([false, true]) && !ReadBack(0, sizes, 9)
            && DecLength([false, true], 0, sizes) == Got(Count(1, false), 2)
  {
    var (sizes, w) := ([Size(0, 3, false), Size(8, 11, false)], [false, true]);
    assert CheckSize(sizes, 9) == Some(sizes[1]) && GetSize(sizes, false) == Some(sizes[0]) && !Extendable(sizes);
    OneInTwo(w);
    hide CheckSize, GetSize, Extendable, EncWhole, DecWhole;
    assert EncBounded(0, 8, 11, 9) == Enc(w) && DecBounded(w, 0, 0, 3) == Got(Count(1, false), 2);
    hide EncBounded, DecBounded;
    assert [] + w == w;
  }

  lemma OneInTwo(w: seq<bool>)
    requires w == [false, true]
    ensures EncWhole(0, 1, 4) == Enc(w) && DecWhole(w, 0, 4) == Got(1, 2)
  {
    TwoBits();
    OneIs(w);
    Unwrapped(3);
    hide BitCount, BitsOf, ValOf, Wrap, Pad, AlignUp, OctetCount;
    assert w[0..2] == w;
  }

  lemma OneIs(w: seq<bool>)
    requires w == [false, true]
    ensures BitsOf(1, 2) == w && ValOf(w) == 1
  {
    assert BitsOf(1, 2) == BitsOf(0, 1) + [true] && BitsOf(0, 1) == BitsOf(0, 0) + [false];
    hide BitsOf;
    assert w[..1] == [false] && [false][..0] == [];
    assert ValOf([false]) == 0;
  }

  lemma TwoBits()
    ensures BitCount(2) == BitCount(3) == 2
  {
    Pow2Small();
  }

  /** The ranges of SIZE(0..2 | 0..3) differ, and a length of 3 comes back. */
  lemma ReadAnyway()
    ensures var sizes := [Size(0, 2, false), Size(0, 3, false)]; !Unambiguous(sizes, 3) && ReadBack(0, sizes, 3)
  {
    var sizes := [Size(0, 2, false), Size(0, 3, false)];
    assert CheckSize(sizes, 3) == Some(sizes[1]) && GetSize(sizes, false) == Some(sizes[0]) && !Extendable(sizes);
    TwoBits();
    hide BitCount;
  }
}
