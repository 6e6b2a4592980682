/** What is sent, in the terms of ITU-T X.691: bits and octets that follow from the value and its
    constraint alone. Decoding undoes encoding for many codes; this says which of them it is. */
module PerForms {
  import opened Bits
  import opened PerSpec
  import opened PerRoundTrip
  import opened Wrappers

  // ---------- whole numbers, section 10.5.7 ----------

  /** w is the number v, one of the count numbers from 0 on, sent after pos bits: up to 255 numbers
      take the least bits that tell them apart, 256 take an octet and up to 65536 two octets on an
      octet boundary, and more take the fewest octets v fits, counted in two bits before. */
  ghost predicate WholeForm(pos: nat, v: nat, count: nat, w: seq<bool>) {
    if count <= 255 then
      exists k: nat :: count <= Pow2(k) && (0 < k ==> Pow2(k - 1) < count) && w == BitsOf(v, k)
    else if count <= 65536 then
      w == Pad(pos) + BitsOf(v, if count == 256 then 8 else 16)
    else
      exists n: nat | 1 <= n <= 4 ::
        v < Pow2(8 * n) && (1 < n ==> Pow2(8 * (n - 1)) <= v) && w == BitsOf(n - 1, 2) + Pad(pos + 2) + BitsOf(v, 8 * n)
  }

  lemma WholeIs(pos: nat, v: U32, range: U32)
    requires v < range || range == 0xFFFF_FFFF
    ensures EncWhole(pos, v, range).Enc? && WholeForm(pos, v, range, EncWhole(pos, v, range).bits)
  {
    hide BitsOf, Pad, BitCount, OctetCount, Pow2;
    if range <= 255 {
      var k := BitCount(range - 1);
      assert Wrap(range - 1) == range - 1;
      assert range <= Pow2(k) && (0 < k ==> Pow2(k - 1) < range);
    } else if range > 65536 {
      OctetCountFits(v);
    }
  }

  /** A constrained integer is refused outside its bounds, takes no bits if they are equal, and else
      is its distance from the lower one. */
  lemma IntForm(pos: nat, value: I32, lower: I32, upper: I32)
    ensures !(lower <= value <= upper) ==> EncInt(pos, value, lower, upper) == Bad(ConsVio)
    ensures value == lower == upper ==> EncInt(pos, value, lower, upper) == Enc([])
    ensures lower <= value <= upper && lower < upper ==>
              var e := EncInt(pos, value, lower, upper);
              e.Enc? && WholeForm(pos, value - lower, upper - lower + 1, e.bits)
  {
    hide EncWhole, Wrap, Abs32;
    if lower <= value <= upper && lower < upper { IntWithin(pos, value, lower, upper); }
  }

  lemma IntWithin(pos: nat, value: I32, lower: I32, upper: I32)
    requires lower <= value <= upper && lower < upper
    ensures var e := EncInt(pos, value, lower, upper);
            e.Enc? && WholeForm(pos, value - lower, upper - lower + 1, e.bits)
  {
    hide WholeForm, EncWhole, EncInt, Wrap;
    Unwrapped(value - lower);
    Unwrapped(upper - lower);
    IntEncodesAs(pos, value, lower, upper);
    WholeIs(pos, Wrap(value - lower), IntRange(lower, upper));
    Large(pos, value - lower, EncInt(pos, value, lower, upper).bits);
  }

  /** 2^32 - 1 and 2^32 numbers are sent alike. */
  lemma Large(pos: nat, v: nat, w: seq<bool>)
    ensures WholeForm(pos, v, 0xFFFF_FFFF, w) == WholeForm(pos, v, 0x1_0000_0000, w)
  {}

  /** An unsigned integer within its bounds takes no bits if they are equal, and else is its distance
      from the lower one. */
  lemma UnsForm(pos: nat, value: U32, lower: U32, upper: U32)
    ensures lower == upper ==> EncUns(pos, value, lower, upper) == Enc([])
    ensures lower <= value <= upper && lower < upper ==>
              var e := EncUns(pos, value, lower, upper);
              e.Enc? && WholeForm(pos, value - lower, upper - lower + 1, e.bits)
  {
    if lower <= value <= upper && lower < upper {
      hide WholeForm, EncWhole, Wrap;
      Unwrapped(value - lower);
      if upper - lower < 0xFFFF_FFFF { Unwrapped(upper - lower + 1); }
      WholeIs(pos, value - lower, if upper - lower == 0xFFFF_FFFF then 0xFFFF_FFFF else upper - lower + 1);
      Large(pos, value - lower, EncUns(pos, value, lower, upper).bits);
    }
  }

  /** A port is two octets from an octet boundary on; which of two alternatives is taken is one bit. */
  lemma PortAndChoice(pos: nat)
    ensures EncUns(0, 1720, 0, 65535) == Enc(BitsOf(0x06, 8) + BitsOf(0xB8, 8))
    ensures EncUns(pos, 0, 0, 1) == Enc([false]) && EncUns(pos, 1, 0, 1) == Enc([true])
  {
    hide EncUns, WholeForm, BitsOf;
    UnsForm(0, 1720, 0, 65535);
    PortBits(EncUns(0, 1720, 0, 65535).bits);
    UnsForm(pos, 0, 0, 1);
    OneBit(pos, 0, EncUns(pos, 0, 0, 1).bits);
    UnsForm(pos, 1, 0, 1);
    OneBit(pos, 1, EncUns(pos, 1, 0, 1).bits);
  }

  lemma PortBits(w: seq<bool>)
    requires WholeForm(0, 1720, 65536, w)
    ensures w == BitsOf(0x06, 8) + BitsOf(0xB8, 8)
  {
    hide BitsOf;
    TwoOctets(0x06, 0xB8);
    assert Pad(0) + BitsOf(1720, 16) == BitsOf(1720, 16);
  }

  lemma TwoOctets(a: Byte, b: Byte)
    ensures BitsOf(256 * a + b, 16) == BitsOf(a, 8) + BitsOf(b, 8)
  {
    var v := 256 * a + b;
    Shr8(v);
    Low8(v);
    hide BitsOf;
    BitsSplit(v, 8, 8);
    LowBits(v, 8, 8);
  }

  lemma OneBit(pos: nat, v: nat, w: seq<bool>)
    requires v <= 1 && WholeForm(pos, v, 2, w)
    ensures w == [v == 1]
  {
    var k: nat :| 2 <= Pow2(k) && (0 < k ==> Pow2(k - 1) < 2) && w == BitsOf(v, k);
    Pow2Small();
    PowGrows(1, if k > 1 then k - 1 else 1);
    assert k == 1;
    assert BitsOf(v, 1) == BitsOf(v / 2, 0) + [v % 2 == 1];
  }

  /** r is what the decoder reads at bit pos for one of the count numbers from 0 on. */
  ghost predicate WholeRead(bits: seq<bool>, pos: nat, count: nat, r: Dec<nat>) {
    if count <= 255 then
      exists k: nat :: count <= Pow2(k) && (0 < k ==> Pow2(k - 1) < count) && r == NextBits(bits, pos, k)
    else if count <= 65536 then
      r == NextBits(bits, AlignUp(pos), if count == 256 then 8 else 16)
    else
      var n := NextBits(bits, pos, 2);
      r == if n.Fail? then n else NextBits(bits, AlignUp(pos + 2), 8 * (n.value + 1))
  }

  /** The next n bits, if they are there. */
  ghost function NextBits(bits: seq<bool>, pos: nat, n: nat): Dec<nat> {
    if n == 0 then Got(0, pos)
    else if pos + n > |bits| then Fail(EndOfBuf)
    else Got(ValOf(bits[pos..pos + n]), pos + n)
  }

  lemma WholeReads(bits: seq<bool>, pos: nat, range: U32)
    requires 0 < range
    ensures WholeRead(bits, pos, range, DecWhole(bits, pos, range))
  {
    hide ValOf, BitCount, Pow2;
    if range <= 255 {
      var k := BitCount(range - 1);
      Unwrapped(range - 1);
      assert range <= Pow2(k) && (0 < k ==> Pow2(k - 1) < range);
    }
  }

  /** Whatever the bits, the unsigned decoder accepts exactly when the number it reads is at most
      upper - lower, although it only looks at a 32-bit sum that may have wrapped; what it gives lies
      within the bounds. */
  lemma UnsAccepts(bits: seq<bool>, pos: nat, lower: U32, upper: U32) returns (w: Dec<nat>)
    requires lower < upper
    ensures WholeRead(bits, pos, upper - lower + 1, w)
    ensures var r := DecUns(bits, pos, lower, upper);
            && (r.Got? <==> w.Got? && w.value <= upper - lower)
            && (r.Got? ==> r == Got(lower + w.value, w.pos) && lower <= r.value <= upper)
            && (w.Fail? ==> r == Fail(EndOfBuf)) && (w.Got? && w.value > upper - lower ==> r == Fail(ConsVio))
  {
    hide DecWhole, ValOf;
    var range: U32 := if upper - lower == 0xFFFF_FFFF then 0xFFFF_FFFF else upper - lower + 1;
    Unwrapped(range);
    w := DecWhole(bits, pos, range);
    WholeReads(bits, pos, range);
    if w.Got? { WholeBelow(bits, pos, range); }
  }

  /** The same for the signed one. */
  lemma IntReads(bits: seq<bool>, pos: nat, lower: I32, upper: I32) returns (w: Dec<nat>)
    requires lower < upper
    ensures WholeRead(bits, pos, upper - lower + 1, w)
    ensures var r := DecInt(bits, pos, lower, upper);
            && (r.Got? <==> w.Got? && w.value <= upper - lower)
            && (r.Got? ==> r == Got(lower + w.value, w.pos) && lower <= r.value <= upper)
            && (w.Fail? ==> r == Fail(EndOfBuf)) && (w.Got? && w.value > upper - lower ==> r == Fail(ConsVio))
  {
    hide DecWhole, ValOf, DecInt, Wrap, WholeRead;
    Unwrapped(upper - lower);
    var range := IntRange(lower, upper);
    w := DecWhole(bits, pos, range);
    WholeReads(bits, pos, range);
    IntAccepts(bits, pos, lower, upper);
    LargeRead(bits, pos, w);
    if w.Fail? { IntFails(bits, pos, lower, upper); }
  }

  lemma LargeRead(bits: seq<bool>, pos: nat, r: Dec<nat>)
    ensures WholeRead(bits, pos, 0xFFFF_FFFF, r) == WholeRead(bits, pos, 0x1_0000_0000, r)
  {}

  lemma IntFails(bits: seq<bool>, pos: nat, lower: I32, upper: I32)
    requires lower < upper && DecWhole(bits, pos, IntRange(lower, upper)).Fail?
    ensures DecInt(bits, pos, lower, upper) == Fail(EndOfBuf)
  {
    hide DecWhole;
  }

  // ---------- length determinants, section 10.9 ----------

  /** The general form of a length: an octet below 128, two octets with a leading one below 16384,
      and from there on an octet that counts 16384s, up to four. */
  lemma GeneralForm(n: nat)
    ensures UnconsForm(n) ==
              if n < 128 then BitsOf(n, 8)
              else if n < 16384 then BitsOf(0x8000 + n, 16)
              else BitsOf(0xC0 + (if n < 4 * 16384 then n / 16384 else 4), 8)
  {
    hide BitsOf;
    Pow2Small();
    Pow2Big();
    if 128 <= n < 16384 {
      LeadingOne(n, 15);
      TwoForm(n);
    } else if n >= 16384 {
      var c := if n < 4 * 16384 then n / 16384 else 4;
      LeadingOne(c + 64, 7);
      LeadingOne(c, 6);
    }
  }

  /** A one before n bits. */
  lemma {:induction false} LeadingOne(v: nat, n: nat)
    requires v < Pow2(n)
    ensures BitsOf(v + Pow2(n), n + 1) == [true] + BitsOf(v, n)
  {
    if n > 0 {
      LeadingOne(v / 2, n - 1);
      assert (v + Pow2(n)) / 2 == v / 2 + Pow2(n - 1);
    } else {
      assert BitsOf(1, 1) == BitsOf(0, 0) + [true];
    }
  }

  /** w is the length n, sent after pos bits in a range with these bounds: the general form on an octet
      boundary if the upper one needs more than 16 bits, nothing if they are equal, and else the
      distance from the lower one. */
  ghost predicate RangeForm(pos: nat, lower: nat, upper: nat, n: nat, w: seq<bool>) {
    if 0x1_0000 <= upper then
      w == Pad(pos) + if n < 128 then BitsOf(n, 8)
                      else if n < 16384 then BitsOf(0x8000 + n, 16)
                      else BitsOf(0xC0 + (if n < 4 * 16384 then n / 16384 else 4), 8)
    else lower <= n <= upper && if lower == upper then w == [] else WholeForm(pos, n - lower, upper - lower + 1, w)
  }

  /** Without a constraint a length has the general form; under one, the form of the first range it
      lies in, after a bit for the range's extension flag if any range has that set. */
  lemma LengthForm(pos: nat, sizes: seq<Size>, n: nat)
    ensures sizes == [] ==> EncLength(pos, sizes, n).Enc? && RangeForm(pos, 0, 0xFFFF_FFFF, n, EncLength(pos, sizes, n).bits)
    ensures forall i | 0 <= i < |sizes| && sizes[i].lower <= n <= sizes[i].upper
                       && (forall j | 0 <= j < i :: !(sizes[j].lower <= n <= sizes[j].upper)) ::
              var (e, ext) := (EncLength(pos, sizes, n), exists s | s in sizes :: s.extended);
              && e.Enc? && (if ext then e.bits != [] && e.bits[0] == sizes[i].extended else true)
              && RangeForm(if ext then pos + 1 else pos, sizes[i].lower, sizes[i].upper, n, if ext then e.bits[1..] else e.bits)
    ensures sizes != [] && (forall s | s in sizes :: !(s.lower <= n <= s.upper)) ==> EncLength(pos, sizes, n) == Bad(ConsVio)
  {
    hide EncBounded, RangeForm;
    if sizes == [] {
      BoundedForm(pos, 0, 0xFFFF_FFFF, n);
      assert [] + EncBounded(pos, 0, 0xFFFF_FFFF, n).bits == EncBounded(pos, 0, 0xFFFF_FFFF, n).bits;
    }
    forall i | 0 <= i < |sizes| && sizes[i].lower <= n <= sizes[i].upper && (forall j | 0 <= j < i :: !(sizes[j].lower <= n <= sizes[j].upper))
      ensures var (e, ext) := (EncLength(pos, sizes, n), exists s | s in sizes :: s.extended);
              && e.Enc? && (if ext then e.bits != [] && e.bits[0] == sizes[i].extended else true)
              && RangeForm(if ext then pos + 1 else pos, sizes[i].lower, sizes[i].upper, n, if ext then e.bits[1..] else e.bits)
    {
      FirstRange(sizes, n, i);
      var ext: seq<bool> := if Extendable(sizes) then [sizes[i].extended] else [];
      BoundedForm(pos + |ext|, sizes[i].lower, sizes[i].upper, n);
      var w := EncBounded(pos + |ext|, sizes[i].lower, sizes[i].upper, n).bits;
      assert ([sizes[i].extended] + w)[1..] == w && [] + w == w;
    }
  }

  lemma {:induction false} FirstRange(sizes: seq<Size>, n: nat, i: nat)
    requires i < |sizes| && sizes[i].lower <= n <= sizes[i].upper && forall j | 0 <= j < i :: !(sizes[j].lower <= n <= sizes[j].upper)
    ensures CheckSize(sizes, n) == Some(sizes[i])
  {
    if i > 0 { FirstRange(sizes[1..], n, i - 1); }
  }

  lemma BoundedForm(pos: nat, lower: U32, upper: U32, n: nat)
    requires upper < 0x1_0000 ==> lower <= n <= upper
    ensures EncBounded(pos, lower, upper, n).Enc? && RangeForm(pos, lower, upper, n, EncBounded(pos, lower, upper, n).bits)
  {
    hide UnconsForm, EncWhole, WholeForm, BitsOf, Pad;
    GeneralForm(n);
    if upper < 0x1_0000 && lower < upper { WholeIs(pos, n - lower, upper - lower + 1); }
  }

  // ---------- strings, sections 15 and 16 ----------

  /** Where a string's items start on an octet boundary: always if there are more than 16 bits of them
      or there is no constraint, and else unless the first range that the length lies in has one
      length only and is not extended. */
  lemma AlignForm(sizes: seq<Size>, octets: bool, n: nat)
    ensures Span(octets, n) == if octets then 8 * n else n
    ensures sizes == [] || Span(octets, n) > 16 ==> AlignTest(sizes, n, octets) == Some(true)
    ensures forall i | 0 <= i < |sizes| && sizes[i].lower <= n <= sizes[i].upper
                       && (forall j | 0 <= j < i :: !(sizes[j].lower <= n <= sizes[j].upper)) ::
              AlignTest(sizes, n, octets) == Some(Span(octets, n) > 16 || sizes[i].lower < sizes[i].upper || sizes[i].extended)
  {
    forall i | 0 <= i < |sizes| && sizes[i].lower <= n <= sizes[i].upper && (forall j | 0 <= j < i :: !(sizes[j].lower <= n <= sizes[j].upper))
      ensures AlignTest(sizes, n, octets) == Some(Span(octets, n) > 16 || sizes[i].lower < sizes[i].upper || sizes[i].extended)
    {
      FirstRange(sizes, n, i);
    }
  }

  /** A string of a size fixed below 65536 has no length before it, and starts on an octet boundary
      exactly if it has more than 16 bits. */
  lemma FixedForm(pos: nat, k: U32, octets: bool, data: seq<bool>)
    requires k < 0x1_0000 && |data| == (if octets then 8 * k else k)
    ensures var size := [Size(k, k, false)];
            EncString(pos, size, size, octets, k, data) == Enc((if |data| > 16 then Pad(pos) else []) + data)
  {
    var size := [Size(k, k, false)];
    assert CheckSize(size, k) == Some(size[0]) && !Extendable(size);
    assert EncLength(pos, size, k) == Enc([]);
    assert pos + |EncLength(pos, size, k).bits| == pos;
    hide EncLength, Pad;
    assert [] + (if |data| > 16 then Pad(pos) else []) + data == (if |data| > 16 then Pad(pos) else []) + data;
    assert k == 0 ==> data == [] && [] + data == [];
  }

  /** Any other string that is not sent in fragments is its length, padding where it is aligned, and
      its items. */
  lemma StringForm(pos: nat, sizes: seq<Size>, octets: bool, n: nat, data: seq<bool>, i: nat)
    requires |data| == (if octets then 8 * n else n) && n > 0
    requires if sizes == [] then n < 16384
             else
               && i < |sizes| && sizes[i].lower <= n <= sizes[i].upper && (n < 16384 || sizes[i].upper < 0x1_0000)
               && forall j | 0 <= j < i :: !(sizes[j].lower <= n <= sizes[j].upper)
    ensures var h := EncLength(pos, sizes, n);
            var aligned := |data| > 16 || sizes == [] || sizes[i].lower < sizes[i].upper || sizes[i].extended;
            h.Enc? && EncString(pos, sizes, sizes, octets, n, data) == Enc(h.bits + (if aligned then Pad(pos + |h.bits|) else []) + data)
  {
    hide EncLength, AlignTest, Pad, EncString, CheckSize;
    LengthEncodes(pos, sizes, n);
    if sizes != [] { FirstRange(sizes, n, i); } else { NoRange(n); }
    assert Whole(sizes, n) && Allowed(sizes, n);
    hide Whole, Allowed;
    AlignForm(sizes, octets, n);
    OneFragmentForm(pos, sizes, octets, n, data);
  }

  lemma NoRange(n: nat)
    ensures CheckSize([], n) == None
  {}

  lemma OneFragmentForm(pos: nat, sizes: seq<Size>, octets: bool, n: nat, data: seq<bool>)
    requires |data| == Span(octets, n) && n > 0 && Whole(sizes, n)
    requires EncLength(pos, sizes, n).Enc? && AlignTest(sizes, n, octets).Some?
    ensures var (h, a) := (EncLength(pos, sizes, n), AlignTest(sizes, n, octets));
            EncString(pos, sizes, sizes, octets, n, data) == Enc(h.bits + (if a.value then Pad(pos + |h.bits|) else []) + data)
  {
    hide EncLength, AlignTest, Pad;
    assert Taken(sizes, n) == n && data[..|data|] == data;
    hide Taken, CheckSize;
  }

  /** From an octet boundary on it makes no difference whether items are aligned. */
  lemma SameFragment(pos: nat, all: seq<Size>, octets: bool, n: nat, data: seq<bool>)
    requires |data| == Span(octets, n) && pos % 8 == 0 && Aligns(all, octets, n)
    ensures EncFragment(pos, [], all, octets, n, data) == EncFragment(pos, [], [], octets, n, data)
    ensures EncFragment(pos, [], [], octets, n, data).Enc?
    ensures Taken([], n) < n ==> (pos + |EncFragment(pos, [], [], octets, n, data).bits|) % 8 == 0
  {
    hide EncLength, AlignTest, Pad, UnconsForm, Taken;
    Unpadded(pos, n);
    HeaderOctets(n);
    AlwaysAligned(n, octets);
    NoPad(pos + |UnconsForm(n)|);
    FirstTaken(n);
  }

  lemma {:induction false} RestSame(pos: nat, all: seq<Size>, octets: bool, n: nat, data: seq<bool>)
    requires |data| == Span(octets, n) && pos % 8 == 0 && Encodes([], all, octets, n)
    ensures EncString(pos, [], all, octets, n, data) == EncString(pos, [], [], octets, n, data)
    decreases n
  {
    hide EncFragment, Taken, Aligns, Allowed, Whole;
    SameFragment(pos, all, octets, n, data);
    var k := Taken([], n);
    if k < n {
      RestEncodes([], all, octets, n);
      RestSame(pos + |EncFragment(pos, [], [], octets, n, data).bits|, all, octets, n - k, data[Span(octets, k)..]);
    }
  }

  /** A string under a constraint that is sent in fragments is a bit for the extension flag, if any
      range has that set, and from an octet boundary on just what it is without a constraint. */
  lemma FragmentedForm(pos: nat, sizes: seq<Size>, octets: bool, n: nat, data: seq<bool>, i: nat)
    requires |data| == Span(octets, n) && n >= 16384 && Encodable(sizes, octets, n)
    requires i < |sizes| && sizes[i].lower <= n <= sizes[i].upper && 0x1_0000 <= sizes[i].upper
    requires forall j | 0 <= j < i :: !(sizes[j].lower <= n <= sizes[j].upper)
    ensures var ext := if exists s | s in sizes :: s.extended then [sizes[i].extended] else [];
            EncString(pos, sizes, sizes, octets, n, data) == Enc(ext + Pad(pos + |ext|) + Assemble(Fragments(n), octets, data))
  {
    hide EncLength, AlignTest, Pad, UnconsForm, Assemble, Fragments, EncString, CheckSize, Encodable;
    FirstRange(sizes, n, i);
    var ext: seq<bool> := if exists s | s in sizes :: s.extended then [sizes[i].extended] else [];
    var q := AlignUp(pos + |ext|);
    FragmentsSent(q, octets, n, data);
    FragmentsFrom(pos, sizes, octets, n, data, sizes[i], ext);
  }

  lemma FragmentsFrom(pos: nat, sizes: seq<Size>, octets: bool, n: nat, data: seq<bool>, s: Size, ext: seq<bool>)
    requires |data| == Span(octets, n) && n >= 16384 && Encodable(sizes, octets, n)
    requires CheckSize(sizes, n) == Some(s) && 0x1_0000 <= s.upper && ext == if Extendable(sizes) then [s.extended] else []
    ensures var (e, f) := (EncString(pos, sizes, sizes, octets, n, data), EncString(AlignUp(pos + |ext|), [], [], octets, n, data));
            f.Enc? ==> e == Enc(ext + Pad(pos + |ext|) + f.bits)
  {
    hide EncLength, AlignTest, Pad, UnconsForm, CheckSize, EncFragment, Extendable, Encodable, Aligns, Encodes, AlignUp;
    var (q, k) := (AlignUp(pos + |ext|), Taken([], n));
    FirstTaken(n);
    assert Taken(sizes, n) == k;
    hide Taken;
    HeadFragment(pos, sizes, octets, n, data, s, ext);
    LongAlways([], octets, n);
    SameFragment(q, [], octets, n, data);
    var f := EncFragment(q, [], [], octets, n, data);
    if k < n {
      RestEncodes(sizes, sizes, octets, n);
      EncodableIs(sizes, octets, n);
      EncodesRest(sizes, octets, n);
      RestSame(q + |f.bits|, sizes, octets, n - k, data[Span(octets, k)..]);
      var r := EncString(q + |f.bits|, [], [], octets, n - k, data[Span(octets, k)..]);
      JoinRest(ext + Pad(pos + |ext|), f.bits, r);
    }
  }

  lemma EncodesRest(sizes: seq<Size>, octets: bool, n: nat)
    requires Encodes(sizes, sizes, octets, n) && !Whole(sizes, n)
    ensures Aligns(sizes, octets, n % 16384)
  {}

  lemma JoinRest(p: seq<bool>, f: seq<bool>, r: Enc)
    ensures r.Enc? ==> (p + f) + r.bits == p + (f + r.bits)
  {}

  lemma HeadFragment(pos: nat, sizes: seq<Size>, octets: bool, n: nat, data: seq<bool>, s: Size, ext: seq<bool>)
    requires |data| == Span(octets, n) && n >= 16384
    requires CheckSize(sizes, n) == Some(s) && 0x1_0000 <= s.upper && ext == if Extendable(sizes) then [s.extended] else []
    ensures var (e, f) := (EncFragment(pos, sizes, sizes, octets, n, data), EncFragment(AlignUp(pos + |ext|), [], [], octets, n, data));
            f.Enc? && e == Enc(ext + Pad(pos + |ext|) + f.bits)
  {
    hide AlignTest, Pad, UnconsForm, EncLength, CheckSize, Extendable, Taken, AlignUp;
    var (q, a, u) := (AlignUp(pos + |ext|), Pad(pos + |ext|), UnconsForm(n));
    var d := data[..Span(octets, Taken([], n))];
    TakenLong(sizes, n, s);
    LengthHead(pos, sizes, n, s, ext);
    Unpadded(q, n);
    HeaderOctets(n);
    AlignForm(sizes, octets, n);
    AlwaysAligned(n, octets);
    NoPad(q + |u|);
    assert pos + |ext + (a + u)| == q + |u|;
    assert EncFragment(q, [], [], octets, n, data) == Enc(u + [] + d);
    assert EncFragment(pos, sizes, sizes, octets, n, data) == Enc((ext + (a + u)) + [] + d);
    assert (ext + (a + u)) + [] + d == ext + a + (u + [] + d);
  }

  lemma TakenLong(sizes: seq<Size>, n: nat, s: Size)
    requires CheckSize(sizes, n) == Some(s) && 0x1_0000 <= s.upper
    ensures Taken(sizes, n) == Taken([], n)
  {}

  lemma LengthHead(pos: nat, sizes: seq<Size>, n: nat, s: Size, ext: seq<bool>)
    requires CheckSize(sizes, n) == Some(s) && 0x1_0000 <= s.upper && ext == if Extendable(sizes) then [s.extended] else []
    ensures EncLength(pos, sizes, n) == Enc(ext + (Pad(pos + |ext|) + UnconsForm(n)))
  {
    hide Pad, UnconsForm, CheckSize, Extendable;
  }

  // ---------- semi-constrained integers, section 10.4.6 ----------

  /** A semi-constrained integer is the length in octets, and on an octet boundary so many octets, of
      its distance x from the lower bound, in the least two's complement form.  (The distance is
      kept in 32 bits, and not taken at all from the least bound there is.) */
  lemma SemiForm(pos: nat, sizes: seq<Size>, value: I32, lower: I32) returns (x: I32, n: nat)
    ensures if lower == -0x8000_0000 then x == value else exists c | -1 <= c <= 1 :: x == value - lower + c * 0x1_0000_0000
    ensures 1 <= n <= 4 && -(Pow2(8 * n - 1) as int) <= x < Pow2(8 * n - 1)
    ensures forall m | 1 <= m < n :: !(-(Pow2(8 * m - 1) as int) <= x < Pow2(8 * m - 1))
    ensures var (e, h) := (EncSemi(pos, sizes, value, lower), EncLength(pos, sizes, n));
            if h.Bad? then e == h
            else e == Enc(h.bits + Pad(pos + |h.bits|) + BitsOf(if x < 0 then x + 0x1_0000_0000 else x, 8 * n))
  {
    hide EncLength, Pad, BitsOf, Pow2;
    x := SemiOffset(value, lower);
    SemiDistance(value, lower);
    hide SemiOffset, Wrap;
    WrapSigned(x);
    n := TwosLen(x);
    TwosLeast(x);
    var h := EncLength(pos, sizes, n);
    if h.Enc? {
      var (p, b) := (Pad(pos + |h.bits|), BitsOf(Wrap(x), 8 * n));
      assert h.bits + (p + b) == h.bits + p + b;
    }
  }

  lemma SemiDistance(value: I32, lower: I32)
    ensures var x := SemiOffset(value, lower);
            if lower == -0x8000_0000 then x == value else exists c | -1 <= c <= 1 :: x == value - lower + c * 0x1_0000_0000
  {
    var x := SemiOffset(value, lower);
    var c := if x < value - lower then -1 else if x > value - lower then 1 else 0;
    assert lower == -0x8000_0000 || x == value - lower + c * 0x1_0000_0000;
  }

  lemma WrapSigned(x: I32)
    ensures Wrap(x) == if x < 0 then x + 0x1_0000_0000 else x
  {}

  // ---------- object identifiers ----------

  lemma ShrDiv(v: nat, k: nat)
    ensures Shr(v, k) == v / Pow2(k)
  {
    LowShr(v, k);
    ValBits(v, k);
    Quotient(v, Pow2(k), Shr(v, k), Low(v, k));
  }

  lemma Quotient(v: nat, p: nat, q: nat, r: nat)
    requires v == r + p * q && r < p
    ensures v / p == q
  {
    var d := v / p;
    assert v == p * d + v % p;
    if d < q { Multiples(p, d + 1, q); }
    if q < d { Multiples(p, q + 1, d); }
  }

  lemma {:induction false} Multiples(p: nat, a: nat, b: nat)
    requires a <= b
    ensures p * a <= p * b && p * a == p * (a - 1) + p
  {
    if a < b { Multiples(p, a, b - 1); }
  }

  lemma {:induction false} GroupAt(v: U32, n: nat, i: nat)
    requires i < n
    ensures |EncGroups(v, n)| == 8 * n
    ensures EncGroups(v, n)[8 * i..8 * i + 8] == BitsOf(v / Pow2(7 * (n - 1 - i)) % 128 + (if i < n - 1 then 128 else 0), 8)
  {
    ShrDiv(v, 7 * (n - 1 - i));
    hide BitsOf, Shr, Pow2;
    GroupsSize(v, n);
    GroupsSize(v, n - 1);
    GroupsCons(v, n);
    if i > 0 {
      GroupAt(v, n - 1, i - 1);
      assert EncGroups(v, n)[8 * i..8 * i + 8] == EncGroups(v, n - 1)[8 * (i - 1)..8 * (i - 1) + 8];
    }
  }

  /** An arc is its digits to base 128, in the fewest octets, the top bit of an octet set in all but
      the last. */
  lemma ArcForm(v: U32) returns (n: nat)
    ensures 1 <= n <= 5 && v < Pow2(7 * n) && (1 < n ==> Pow2(7 * (n - 1)) <= v) && |EncArc(v)| == 8 * n
    ensures forall i | 0 <= i < n ::
              EncArc(v)[8 * i..8 * i + 8] == BitsOf(v / Pow2(7 * (n - 1 - i)) % 128 + (if i < n - 1 then 128 else 0), 8)
  {
    n := ArcLen(v);
    SevenBits();
    hide EncGroups, BitsOf, Pow2;
    GroupAt(v, n, 0);
    forall i | 0 <= i < n
      ensures EncArc(v)[8 * i..8 * i + 8] == BitsOf(v / Pow2(7 * (n - 1 - i)) % 128 + (if i < n - 1 then 128 else 0), 8)
    {
      GroupAt(v, n, i);
    }
  }

  lemma SevenBits()
    ensures Pow2(7) == 0x80 && Pow2(14) == 0x4000 && Pow2(21) == 0x20_0000 && Pow2(28) == 0x1000_0000 && Pow2(35) == 0x8_0000_0000
  {
    Pow2Small();
    PowAdd(7, 7);
    PowAdd(14, 7);
    PowAdd(14, 14);
    PowAdd(28, 7);
  }

  /** An identifier is the number of its octets and these: the first two arcs as 40 a + b, then the
      others one by one; the count takes the first two for one octet. */
  lemma OidForm(pos: nat, sizes: seq<Size>, ids: seq<U32>)
    ensures var (e, rest) := (EncOid(pos, sizes, ids), if |ids| < 2 then [] else EncArcs(ids[2..]));
            var h := EncLength(pos, sizes, 1 + |rest| / 8);
            if h.Bad? then e == h
            else if |ids| < 2 || ids[0] > 2 || (ids[0] < 2 && ids[1] > 39) then e == Bad(InvObjId)
            else e == Enc(h.bits + (EncArc((40 * (ids[0] as int) + ids[1]) % 0x1_0000_0000) + rest))
    ensures EncArcs([]) == [] && forall v, r :: EncArcs([v] + r) == EncArc(v) + EncArcs(r)
  {
    hide EncArc, EncLength;
    if |ids| >= 2 {
      ArcsSize(ids[2..]);
      var f := Wrap(ids[0] as int * 40 + ids[1]);
      ArcsCons(f, ids[2..]);
    }
    forall v, r ensures EncArcs([v] + r) == EncArc(v) + EncArcs(r) { ArcsCons(v, r); }
  }

  lemma ArcsCons(v: U32, r: seq<U32>)
    ensures EncArcs([v] + r) == EncArc(v) + EncArcs(r)
  {
    assert ([v] + r)[1..] == r;
  }

  /** A 129th arc is not read. */
  lemma TooManyArcs(bits: seq<bool>, pos: nat, len: U32, ids: seq<U32>)
    requires |ids| >= 128 && len != 0
    ensures DecArcs(bits, pos, len, ids) == Fail(InvObjId)
  {}
}
