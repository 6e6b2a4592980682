/** Messages: any list of fields of mixed kinds, encoded in order and decoded in order. */
module PerFields {
  import opened Bits
  import opened PerSpec
  import opened PerRoundTrip
  import opened PerEncoder
  import opened PerDecoder
  import opened Wrappers

  datatype Field =
    | BitField(v: U32, n: nat)
    | Int(value: I32, lower: I32, upper: I32)
    | Uns(uvalue: U32, ulower: U32, uupper: U32)
    | Len(len: U32, sizes: seq<Size>)
    | Octets(data: seq<Byte>, sizes: seq<Size>)
    | BitStr(numbits: nat, data: seq<Byte>, sizes: seq<Size>)
    | Open(data: seq<Byte>)
    | Semi(value: I32, lower: I32, sizes: seq<Size>)
    | Oid(ids: seq<U32>, sizes: seq<Size>)

  /** What a decoder is told about a field. */
  datatype Format =
    | BitFieldF(n: nat)
    | IntF(lower: I32, upper: I32)
    | UnsF(ulower: U32, uupper: U32)
    | LenF(sizes: seq<Size>)
    | OctetsF(sizes: seq<Size>)
    | BitStrF(sizes: seq<Size>)
    | OpenF
    | SemiF(lower: I32, sizes: seq<Size>)
    | OidF(sizes: seq<Size>)

  function FormatOf(f: Field): Format {
    match f
    case BitField(v, n) => BitFieldF(n)
    case Int(v, l, u) => IntF(l, u)
    case Uns(v, l, u) => UnsF(l, u)
    case Len(n, s) => LenF(s)
    case Octets(d, s) => OctetsF(s)
    case BitStr(n, d, s) => BitStrF(s)
    case Open(d) => OpenF
    case Semi(v, l, s) => SemiF(l, s)
    case Oid(i, s) => OidF(s)
  }

  /** The arguments the encoders ask for. */
  predicate Legal(f: Field) {
    match f
    case BitField(v, n) => n <= 32
    case Octets(d, s) => |d| < 0x8000_0000
    case BitStr(n, d, s) => n <= 8 * |d| && n < 0x8000_0000
    case Open(d) => |d| < 0x8000_0000
    case Oid(i, s) => |i| <= MAX_ARCS
    case _ => true
  }

  /** The fields that come back: the exact conditions of PerRoundTrip. */
  predicate Good(f: Field) {
    Legal(f) &&
    match f
    case BitField(v, n) => v < Pow2(n)
    case Int(v, l, u) => true
    case Uns(v, l, u) => l <= v <= u
    case Len(n, s) => Unambiguous(s, n) && Whole(s, n)
    case Octets(d, s) => Unambiguous(s, |d|) && !Unclosed(s, |d|)
    case BitStr(n, d, s) => Unambiguous(s, n) && !Unclosed(s, n)
    case Open(d) => !Unclosed([], |d|)
    case Semi(v, l, s) => Unambiguous(s, TwosLen(SemiOffset(v, l)))
    case Oid(i, s) => |i| >= 2 && 40 * (i[0] as int) + i[1] < 128 && Unambiguous(s, 1 + ArcsLen(i[2..]))
  }

  /** The fields that are encoded. */
  predicate Accepted(f: Field) {
    Legal(f) &&
    match f
    case BitField(v, n) => true
    case Int(v, l, u) => l <= v <= u
    case Uns(v, l, u) => UnsAccepted(v, l, u)
    case Len(n, s) => Allowed(s, n)
    case Octets(d, s) => Encodable(s, true, |d|)
    case BitStr(n, d, s) => Encodable(s, false, n)
    case Open(d) => true
    case Semi(v, l, s) => Allowed(s, TwosLen(SemiOffset(v, l)))
    case Oid(i, s) => GoodOid(i) && Allowed(s, OidOctets(i))
  }

  /** A field as it comes back: the unused bits after a bit string are zero, and an open type without
      contents has become a zero octet. */
  function Canon(f: Field): Field {
    match f
    case BitStr(n, d, s) => BitStr(n, Pack(Flat(d)[..if n <= 8 * |d| then n else 0]), s)
    case Open(d) => Open(OpenContents(d))
    case _ => f
  }

  function EncField(pos: nat, f: Field): Enc
    requires Legal(f)
  {
    match f
    case BitField(v, n) => Enc(BitsOf(v, n))
    case Int(v, l, u) => EncInt(pos, v, l, u)
    case Uns(v, l, u) => EncUns(pos, v, l, u)
    case Len(n, s) => EncLength(pos, s, n)
    case Octets(d, s) => EncString(pos, s, s, true, |d|, Flat(d))
    case BitStr(n, d, s) => EncString(pos, s, s, false, n, Flat(d)[..n])
    case Open(d) => EncString(pos, [], [], true, |OpenContents(d)|, Flat(OpenContents(d)))
    case Semi(v, l, s) => EncSemi(pos, s, v, l)
    case Oid(i, s) => EncOid(pos, s, i)
  }

  function As<T>(d: Dec<T>, f: T -> Field): Dec<Field> {
    if d.Fail? then Fail(d.why) else Got(f(d.value), d.pos)
  }

  function DecField(bits: seq<bool>, pos: nat, f: Format): Dec<Field> {
    match f
    case BitFieldF(n) => As(DecBits(bits, pos, n), v => BitField(Wrap(v), n))
    case IntF(l, u) => As(DecInt(bits, pos, l, u), v => Int(v, l, u))
    case UnsF(l, u) => As(DecUns(bits, pos, l, u), v => Uns(v, l, u))
    case LenF(s) => As(DecLength(bits, pos, s), (c: Count) => Len(Wrap(c.n), s))
    case OctetsF(s) => As(DecString(bits, pos, s, s, true), b => Octets(Pack(b), s))
    case BitStrF(s) => As(DecString(bits, pos, s, s, false), b => BitStr(|b|, Pack(b), s))
    case OpenF => As(DecString(bits, pos, [], [], true), b => Open(Pack(b)))
    case SemiF(l, s) => As(DecSemi(bits, pos, s, l), v => Semi(v, l, s))
    case OidF(s) => As(DecOid(bits, pos, s), i => Oid(i, s))
  }

  /** Exactly the accepted fields are encoded, wherever they stand. */
  lemma FieldEncodes(pos: nat, f: Field)
    requires Legal(f)
    ensures EncField(pos, f).Enc? <==> Accepted(f)
  {
    hide EncString, EncLength, EncOid, EncSemi, EncInt, EncWhole, BitsOf, Flat, Allowed, GoodOid, OidOctets, TwosLen, SemiOffset, Encodes, Encodable;
    match f
    case BitField(v, n) =>
    case Int(v, l, u) => IntEncodes(pos, v, l, u);
    case Uns(v, l, u) => UnsEncodes(pos, v, l, u);
    case Len(n, s) => LengthEncodes(pos, s, n);
    case Octets(d, s) => StringEncodes(pos, s, s, true, |d|, Flat(d)); EncodableIs(s, true, |d|);
    case BitStr(n, d, s) => StringEncodes(pos, s, s, false, n, Flat(d)[..n]); EncodableIs(s, false, n);
    case Open(d) => StringEncodes(pos, [], [], true, |OpenContents(d)|, Flat(OpenContents(d))); AnyOpen(|OpenContents(d)|);
    case Semi(v, l, s) => SemiEncodes(pos, s, v, l);
    case Oid(i, s) => OidEncodes(pos, s, i);
  }

  lemma AnyOpen(n: nat)
    ensures Encodes([], [], true, n)
  {}

  /** Each field comes back. */
  lemma FieldTrip(bits: seq<bool>, pos: nat, f: Field)
    requires Good(f) && EncField(pos, f).Enc? && Has(bits, pos, EncField(pos, f).bits)
    ensures DecField(bits, pos, FormatOf(f)) == Got(Canon(f), pos + |EncField(pos, f).bits|)
  {
    hide Has, EncString, DecString, EncLength, DecLength, EncOid, DecOid, EncSemi, DecSemi, EncInt, DecInt, EncUns, DecUns;
    hide BitsOf, ValOf, Flat, Pack, Unambiguous, Unclosed, Whole, TwosLen, SemiOffset, ArcsLen, Pow2, DecBits;
    match f
    case BitField(v, n) => BitsTrip(bits, pos, v, n);
    case Int(v, l, u) => IntTrip(bits, pos, v, l, u);
    case Uns(v, l, u) => UnsTrip(bits, pos, v, l, u);
    case Len(n, s) => LengthTrip(bits, pos, s, n); AllTaken(s, n);
    case Octets(d, s) => ClosedTrip(bits, pos, s, s, true, |d|, Flat(d)); PackFlat(d);
    case BitStr(n, d, s) => ClosedTrip(bits, pos, s, s, false, n, Flat(d)[..n]);
    case Open(d) =>
      OpenCloses(d);
      ClosedTrip(bits, pos, [], [], true, |OpenContents(d)|, Flat(OpenContents(d)));
      PackFlat(OpenContents(d));
    case Semi(v, l, s) => SemiTrip(bits, pos, s, v, l);
    case Oid(i, s) =>
      OidEncodes(pos, s, i);
      OidBackIff(bits, pos, s, i);
  }

  lemma AllTaken(s: seq<Size>, n: nat)
    requires Whole(s, n)
    ensures Taken(s, n) == n
  {}

  lemma OpenCloses(d: seq<Byte>)
    requires !Unclosed([], |d|)
    ensures !Unclosed([], |OpenContents(d)|) && Unambiguous([], |OpenContents(d)|)
  {}

  // ---------- lists of fields ----------

  predicate AllAccepted(fs: seq<Field>) {
    forall f <- fs :: Accepted(f)
  }

  predicate AllLegal(fs: seq<Field>) {
    fs == [] || (Legal(fs[0]) && AllLegal(fs[1..]))
  }

  predicate AllGood(fs: seq<Field>)
    ensures AllGood(fs) ==> AllLegal(fs)
  {
    fs == [] || (Good(fs[0]) && AllGood(fs[1..]))
  }

  function EncAll(pos: nat, fs: seq<Field>): Enc
    requires AllLegal(fs)
    decreases |fs|
  {
    if fs == [] then Enc([])
    else
      var e := EncField(pos, fs[0]);
      if e.Bad? then e else Then(e, EncAll(pos + |e.bits|, fs[1..]))
  }

  function FormatsOf(fs: seq<Field>): (r: seq<Format>)
    ensures |r| == |fs|
  {
    seq(|fs|, i requires 0 <= i < |fs| => FormatOf(fs[i]))
  }

  function CanonAll(fs: seq<Field>): (r: seq<Field>)
    ensures |r| == |fs|
  {
    seq(|fs|, i requires 0 <= i < |fs| => Canon(fs[i]))
  }

  function DecAll(bits: seq<bool>, pos: nat, fmts: seq<Format>): Dec<seq<Field>>
    decreases |fmts|
  {
    if fmts == [] then Got([], pos)
    else
      match DecField(bits, pos, fmts[0])
      case Fail(w) => Fail(w)
      case Got(f, p) =>
        match DecAll(bits, p, fmts[1..])
        case Fail(w) => Fail(w)
        case Got(fs, q) => Got([f] + fs, q)
  }

  /** Exactly the messages of accepted fields are encoded. */
  lemma {:induction false} AllEncodes(pos: nat, fs: seq<Field>)
    requires AllLegal(fs)
    ensures EncAll(pos, fs).Enc? <==> AllAccepted(fs)
    decreases |fs|
  {
    hide EncField, EncAll, Accepted, Legal, AllLegal;
    EncAllIs(pos, fs);
    if fs != [] {
      FieldEncodes(pos, fs[0]);
      var e := EncField(pos, fs[0]);
      if e.Enc? { AllEncodes(pos + |e.bits|, fs[1..]); }
      assert forall f :: f in fs <==> f == fs[0] || f in fs[1..];
    }
  }

  /** Encoding any fields in order and decoding them in order gives them back, with both cursors at
      the same bit, from any starting position, whatever comes before and after. */
  lemma {:induction false} FieldsTrip(bits: seq<bool>, pos: nat, fs: seq<Field>)
    requires AllGood(fs)
    requires EncAll(pos, fs).Enc? && Has(bits, pos, EncAll(pos, fs).bits)
    ensures DecAll(bits, pos, FormatsOf(fs)) == Got(CanonAll(fs), pos + |EncAll(pos, fs).bits|)
    decreases |fs|
  {
    hide Has, EncField, DecField, Good, Legal, AllGood, AllLegal, FormatOf, Canon, FormatsOf, CanonAll, EncAll, DecAll;
    ListIs(fs);
    EncAllIs(pos, fs);
    DecAllIs(bits, pos, FormatsOf(fs));
    if fs != [] {
      var e := EncField(pos, fs[0]);
      var rest := EncAll(pos + |e.bits|, fs[1..]);
      HasSplit(bits, pos, e.bits, rest.bits);
      FieldTrip(bits, pos, fs[0]);
      FieldsTrip(bits, pos + |e.bits|, fs[1..]);
    }
  }

  lemma ListIs(fs: seq<Field>)
    ensures fs == [] ==> FormatsOf(fs) == [] && CanonAll(fs) == [] && AllLegal(fs)
    ensures fs != [] ==>
              && FormatsOf(fs)[0] == FormatOf(fs[0]) && FormatsOf(fs)[1..] == FormatsOf(fs[1..])
              && CanonAll(fs) == [Canon(fs[0])] + CanonAll(fs[1..])
              && (AllGood(fs) <==> Good(fs[0]) && AllGood(fs[1..]))
              && (AllLegal(fs) <==> Legal(fs[0]) && AllLegal(fs[1..]))
              && (Good(fs[0]) ==> Legal(fs[0]))
  {
    hide FormatOf, Canon;
  }

  lemma EncAllIs(pos: nat, fs: seq<Field>)
    requires AllLegal(fs)
    ensures fs == [] ==> EncAll(pos, fs) == Enc([])
    ensures fs != [] ==>
              Legal(fs[0]) && AllLegal(fs[1..]) &&
              var e := EncField(pos, fs[0]);
              EncAll(pos, fs) == if e.Bad? then e else Then(e, EncAll(pos + |e.bits|, fs[1..]))
  {
    hide EncField, Legal;
  }

  lemma DecAllIs(bits: seq<bool>, pos: nat, fmts: seq<Format>)
    ensures fmts == [] ==> DecAll(bits, pos, fmts) == Got([], pos)
    ensures fmts != [] ==>
              var f := DecField(bits, pos, fmts[0]);
              DecAll(bits, pos, fmts) ==
                if f.Fail? then Fail(f.why)
                else
                  var r := DecAll(bits, f.pos, fmts[1..]);
                  if r.Fail? then r else Got([f.value] + r.value, r.pos)
  {
    hide DecField;
  }

  // ---------- through the buffers ----------

  /** Encodes the fields in order. An extension bit is written unchecked, so room for it is made
      first. */
  method EncodeAll(e: Encoder, fs: seq<Field>) returns (stat: Stat)
    requires e.Valid() && e.sizes == [] && AllLegal(fs)
    modifies e, e.data
    ensures e.Did(stat, old(e.Stream()), EncAll(|old(e.Stream())|, fs))
    ensures e.dynamic == old(e.dynamic) && (fresh(e.data) || e.data == old(e.data))
  {
    hide Encoder.Valid, Encoder.Stream, EncField, EncAll, Legal, AllLegal;
    ghost var s0 := e.Stream();
    ghost var sent: seq<bool> := [];
    ghost var whole := EncAll(|s0|, fs);
    assert s0 + sent == s0 && fs[0..] == fs;
    PerEncoder.OnlyRest(whole);
    stat := Ok;
    for i := 0 to |fs|
      invariant stat == Ok && e.Valid() && e.dynamic == old(e.dynamic) && (fresh(e.data) || e.data == old(e.data))
      invariant e.Stream() == s0 + sent && AllLegal(fs[i..]) && whole == Then(Enc(sent), EncAll(|s0 + sent|, fs[i..]))
    {
      EncAllIs(|s0 + sent|, fs[i..]);
      assert fs[i..][0] == fs[i] && fs[i..][1..] == fs[i + 1..];
      ghost var next := EncField(|s0 + sent|, fs[i]);
      stat := EncodeField(e, fs[i]);
      if stat != Ok { return; }
      ThenMore(sent, next.bits, EncAll(|s0 + sent| + |next.bits|, fs[i + 1..]));
      Chain(s0, sent, next.bits);
      sent := sent + next.bits;
    }
    EncAllIs(|s0 + sent|, fs[|fs|..]);
    assert sent + [] == sent;
  }

  method EncodeField(e: Encoder, f: Field) returns (stat: Stat)
    requires e.Valid() && Legal(f)
    modifies e, e.data
    ensures e.Did(stat, old(e.Stream()), EncField(|old(e.Stream())|, f))
    ensures e.dynamic == old(e.dynamic) && (fresh(e.data) || e.data == old(e.data))
  {
    assert e.bitOffset <= 8;
    hide Encoder.Valid, Encoder.Stream, EncField;
    stat := e.CheckBuffer(1);
    if stat != Ok {
      e.NothingFits();
      return;
    }
    hide Encoder.Did;
    if f.BitField? {
      stat := EncodeBitField(e, f);
    } else if f.Octets? || f.BitStr? || f.Open? {
      stat := EncodeText(e, f);
    } else {
      stat := EncodeNumber(e, f);
    }
  }

  method EncodeBitField(e: Encoder, f: Field) returns (stat: Stat)
    requires f.BitField?
    requires e.Valid() && Legal(f) && e.byteIndex + 2 < e.data.Length
    modifies e, e.data
    ensures e.Did(stat, old(e.Stream()), EncField(|old(e.Stream())|, f))
    ensures e.dynamic == old(e.dynamic) && (fresh(e.data) || e.data == old(e.data))
  {
    hide Encoder.Stream, BitsOf;
    if f.n == 32 && e.bitOffset == 0 {
      stat := EncodeHalves(e, f.v);
    } else {
      stat := e.EncodeBits(f.v, f.n);
    }
  }

  method EncodeText(e: Encoder, f: Field) returns (stat: Stat)
    requires f.Octets? || f.BitStr? || f.Open?
    requires e.Valid() && Legal(f) && e.byteIndex + 2 < e.data.Length
    modifies e, e.data
    ensures e.Did(stat, old(e.Stream()), EncField(|old(e.Stream())|, f))
    ensures e.dynamic == old(e.dynamic) && (fresh(e.data) || e.data == old(e.data))
  {
    hide Encoder.Valid, Encoder.Stream, Encoder.Did, EncString, Flat;
    match f
    case Octets(d, s) => e.sizes := s; stat := e.EncodeOctetString(d);
    case BitStr(n, d, s) => e.sizes := s; stat := e.EncodeBitString(n, d);
    case Open(d) => e.sizes := []; stat := e.EncodeOpenType(d);
  }

  method EncodeNumber(e: Encoder, f: Field) returns (stat: Stat)
    requires !f.BitField? && !f.Octets? && !f.BitStr? && !f.Open?
    requires e.Valid() && Legal(f) && e.byteIndex + 2 < e.data.Length
    modifies e, e.data
    ensures e.Did(stat, old(e.Stream()), EncField(|old(e.Stream())|, f))
    ensures e.dynamic == old(e.dynamic) && (fresh(e.data) || e.data == old(e.data))
  {
    hide Encoder.Valid, Encoder.Stream, Encoder.Did, EncLength, EncOid, EncSemi, EncInt, EncUns;
    match f
    case Int(v, l, u) => stat := e.EncodeConsInteger(v, l, u);
    case Uns(v, l, u) => stat := e.EncodeConsUnsigned(v, l, u);
    case Len(n, s) => e.sizes := s; var k; stat, k := e.EncodeLength(n);
    case Semi(v, l, s) => e.sizes := s; stat := e.EncodeSemiConsInteger(v, l);
    case Oid(i, s) => e.sizes := s; stat := e.EncodeObjectIdentifier(i);
  }

  /** A word of 32 bits where one call must not write them: its halves. */
  method EncodeHalves(e: Encoder, v: U32) returns (stat: Stat)
    requires e.Valid()
    modifies e, e.data
    ensures e.Did(stat, old(e.Stream()), Enc(BitsOf(v, 32)))
    ensures e.dynamic == old(e.dynamic) && (fresh(e.data) || e.data == old(e.data))
  {
    hide Encoder.Valid, Encoder.Stream, BitsOf, Shr;
    ghost var s0 := e.Stream();
    BitsSplit(v, 16, 16);
    ShrLess(v, 16);
    stat := e.EncodeBits(Shr(v, 16), 16);
    if stat != Ok { return; }
    stat := e.EncodeBits(v, 16);
    Chain(s0, BitsOf(Shr(v, 16), 16), BitsOf(v, 16));
  }

  /** Decodes the fields in order. */
  method DecodeAll(d: Decoder, fmts: seq<Format>) returns (stat: Stat, fs: seq<Field>)
    requires d.Valid() && d.typeHeap.refCnt > 0 && d.msgHeap.refCnt > 0
    modifies d, d.typeHeap, d.msgHeap
    ensures var r := DecAll(d.Bits(), old(d.Pos()), fmts);
            if r.Got? then stat == Ok && fs == r.value && d.Valid() && d.Pos() == r.pos
            else stat == r.why != Ok
  {
    hide Decoder.Bits, DecField, DecAll;
    ghost var (b, p) := (d.Bits(), d.Pos());
    fs, stat := [], Ok;
    for i := 0 to |fmts|
      invariant stat == Ok && d.Valid() && d.typeHeap.refCnt > 0 && d.msgHeap.refCnt > 0
      invariant var (r, rest) := (DecAll(b, p, fmts), DecAll(b, d.Pos(), fmts[i..]));
                if r.Fail? then rest == Fail(r.why) else rest.Got? && r.value == fs + rest.value && r.pos == rest.pos
    {
      DecAllIs(b, d.Pos(), fmts[i..]);
      assert fmts[i..][0] == fmts[i] && fmts[i..][1..] == fmts[i + 1..];
      var f;
      stat, f := DecodeField(d, fmts[i]);
      if stat != Ok { return; }
      fs := fs + [f];
    }
    DecAllIs(b, d.Pos(), fmts[|fmts|..]);
  }

  method DecodeField(d: Decoder, fmt: Format) returns (stat: Stat, f: Field)
    requires d.Valid() && d.typeHeap.refCnt > 0 && d.msgHeap.refCnt > 0
    modifies d, d.typeHeap, d.msgHeap
    ensures d.typeHeap.refCnt == old(d.typeHeap.refCnt) && d.msgHeap.refCnt == old(d.msgHeap.refCnt)
    ensures var r := DecField(d.Bits(), old(d.Pos()), fmt);
            if r.Got? then stat == Ok && f == r.value && d.Valid() && d.Pos() == r.pos
            else stat == r.why != Ok
  {
    hide Decoder.Bits, DecInt, DecUns, DecBits, DecLength, DecString, DecSemi, DecOid, Pack;
    f := Len(0, []);
    match fmt
    case BitFieldF(n) => var v; stat, v := d.DecodeBits(n); f := BitField(v, n);
    case IntF(l, u) => var v; stat, v := d.DecodeConsInteger(l, u); f := Int(v, l, u);
    case UnsF(l, u) => var v; stat, v := d.DecodeConsUnsigned(l, u); f := Uns(v, l, u);
    case OpenF => stat, f := DecodeText(d, true, [], fmt);
    case OctetsF(s) => stat, f := DecodeText(d, true, s, fmt);
    case BitStrF(s) => stat, f := DecodeText(d, false, s, fmt);
    case LenF(s) =>
      if Extendable(s) && d.Pos() >= 8 * d.size { NoLength(d.Bits(), d.Pos(), s); return EndOfBuf, f; }
      d.sizes := s;
      var n; stat, n := d.DecodeLength(); f := Len(n, s);
      if stat == OkFrag { stat := Ok; }
    case SemiF(l, s) =>
      if Extendable(s) && d.Pos() >= 8 * d.size { NoLength(d.Bits(), d.Pos(), s); return EndOfBuf, f; }
      d.sizes := s;
      var v; stat, v := d.DecodeSemiConsInteger(l); f := Semi(v, l, s);
    case OidF(s) =>
      if Extendable(s) && d.Pos() >= 8 * d.size { NoLength(d.Bits(), d.Pos(), s); return EndOfBuf, f; }
      d.sizes := s;
      var i; stat, i := d.DecodeObjectIdentifier(); f := Oid(i, s);
  }

  lemma NoLength(bits: seq<bool>, pos: nat, s: seq<Size>)
    requires Extendable(s) && pos >= |bits|
    ensures DecLength(bits, pos, s) == Fail(EndOfBuf)
    ensures forall l :: DecSemi(bits, pos, s, l) == Fail(EndOfBuf)
    ensures DecOid(bits, pos, s) == Fail(EndOfBuf)
    ensures forall octets :: DecString(bits, pos, s, s, octets) == Fail(EndOfBuf) && DecTotal(bits, pos, s, octets) == Fail(EndOfBuf)
  {}

  /** The scan that precedes a string finds its length, or fails as the string does. */
  lemma TotalTells(b: seq<bool>, p: nat, s: seq<Size>, octets: bool)
    requires DecString(b, p, s, s, octets).Got? ==> p <= |b|
    ensures var (t, r) := (DecTotal(b, p, s, octets), DecString(b, p, s, s, octets));
            if t.Got? then r.Got? ==> Span(octets, t.value) == |r.value| else r.Fail? && t.why == r.why
  {
    if DecString(b, p, s, s, octets).Got? { TotalMatches(b, p, s, s, octets); }
    if DecTotal(b, p, s, octets).Fail? { TotalFails(b, p, s, s, octets); }
  }

  /** A string: scanned for its length, then read into memory of that size. */
  method DecodeText(d: Decoder, octets: bool, s: seq<Size>, fmt: Format) returns (stat: Stat, f: Field)
    requires d.Valid() && d.typeHeap.refCnt > 0 && d.msgHeap.refCnt > 0
    requires fmt == (if octets then (if fmt.OpenF? then OpenF else OctetsF(s)) else BitStrF(s)) && (fmt.OpenF? ==> s == [])
    modifies d, d.typeHeap, d.msgHeap
    ensures d.typeHeap.refCnt == old(d.typeHeap.refCnt) && d.msgHeap.refCnt == old(d.msgHeap.refCnt)
    ensures var r := DecField(d.Bits(), old(d.Pos()), fmt);
            if r.Got? then stat == Ok && f == r.value && d.Valid() && d.Pos() == r.pos
            else stat == r.why != Ok
  {
    hide Decoder.Bits, DecString, DecTotal, Pack;
    f := Len(0, []);
    if Extendable(s) && d.Pos() >= 8 * d.size { NoLength(d.Bits(), d.Pos(), s); return EndOfBuf, f; }
    d.sizes := s;
    ghost var (b, p, r) := (d.Bits(), d.Pos(), DecString(d.Bits(), d.Pos(), s, s, octets));
    var total, n;
    TotalTells(b, p, s, octets);
    stat, total := d.GetComponentLength(octets);
    if stat != Ok { return; }
    var bytes := (Span(octets, total) + 7) / 8;
    var out := new Byte[bytes + 1](_ => 0);
    stat, n := d.DecodeFragments(octets, out, bytes, s);
    if stat != Ok { return; }
    if d.Pos() > 8 * d.size { return EndOfBuf, f; }
    var w := out[..(Span(octets, n) + 7) / 8];
    f := if fmt.OpenF? then Open(w) else if octets then Octets(w, s) else BitStr(n, w, s);
  }

  /** Sender to receiver: what is encoded into one buffer, which grows as it must, and decoded from a
      copy of the message, is what was sent. */
  method Transfer(fs: seq<Field>, heap: HeapRef) returns (stat: Stat, got: seq<Field>)
    requires AllGood(fs) && heap.refCnt > 0
    modifies heap
    ensures AllAccepted(fs) <==> EncAll(0, fs).Enc?
    ensures if AllAccepted(fs) then stat == Ok && got == CanonAll(fs) else stat == EncAll(0, fs).why != Ok
  {
    AllEncodes(0, fs);
    hide AllAccepted;
    hide Encoder.Valid, EncAll, DecAll, Decoder.Bits, AllGood, AllLegal, FormatsOf, CanonAll, StreamOf;
    var e := new Encoder(1, true);
    stat := EncodeAll(e, fs);
    got := [];
    if stat != Ok { return; }
    assert [] + EncAll(0, fs).bits == e.Stream();
    var d := CopyOf(e, heap);
    FieldsTrip(d.Bits(), 0, fs);
    stat, got := DecodeAll(d, FormatsOf(fs));
  }

  /** A decoder at the start of a copy of the message. */
  method CopyOf(e: Encoder, heap: HeapRef) returns (d: Decoder)
    requires e.Valid()
    ensures fresh(d) && d.Valid() && d.Pos() == 0 && d.typeHeap == d.msgHeap == heap && Has(d.Bits(), 0, e.Stream())
  {
    hide Encoder.Valid, Encoder.Stream, Decoder.Bits, StreamOf, Flat, Has;
    InsideBuffer(e);
    var len := if e.bitOffset == 8 then e.byteIndex else e.byteIndex + 1;
    var msg := new Byte[len + 1](i requires 0 <= i < len + 1 reads e, e.data => if i < len && i < e.data.Length then e.data[i] else 0);
    assert msg[..len] == e.data[..len] == e.data[..][..len];
    MessageBits(e.data[..], e.byteIndex, e.bitOffset, len);
    d := new Decoder(msg, len, heap, heap);
    BufferBits(d);
  }

  lemma BufferBits(d: Decoder)
    requires d.size <= d.data.Length
    ensures d.Bits() == Flat(d.data[..d.size])
  {}

  lemma InsideBuffer(e: Encoder)
    requires e.Valid()
    ensures 0 <= e.bitOffset <= 8 && e.byteIndex < e.data.Length && e.Stream() == StreamOf(e.data[..], e.byteIndex, e.bitOffset)
  {}

  /** The octets of a message hold all its bits. */
  lemma MessageBits(d: seq<Byte>, i: nat, o: nat, len: nat)
    requires i < |d| && o <= 8 && len == if o == 8 then i else i + 1
    ensures Has(Flat(d[..len]), 0, StreamOf(d, i, o))
  {
    hide BitsOf;
    assert d[..i + 1] == d[..i] + [d[i]];
    FlatAppend(d[..i], [d[i]]);
    FlatOne(d[i]);
    hide Flat;
    var w := Flat(d[..i]) + BitsOf(d[i], 8);
    assert StreamOf(d, i, o) == w[..8 * i + 8 - o];
  }

  // ---------- strings into fresh memory ----------

  /** The empty string's length is sent in exactly one octet. */
  predicate OneOctetLength(pos: nat, sizes: seq<Size>) {
    var u := UpperOf(CheckSize(sizes, 0));
    if Extendable(sizes) then 64 <= u <= 127
    else if u >= 65536 || u == 255 then pos % 8 == 0
    else 128 <= u <= 254
  }

  lemma EmptyLength(pos: nat, sizes: seq<Size>)
    requires EncLength(pos, sizes, 0).Enc?
    ensures |EncLength(pos, sizes, 0).bits| == 8 <==> OneOctetLength(pos, sizes)
  {
    hide BitsOf, Extendable;
    var s := CheckSize(sizes, 0);
    var e := if Extendable(sizes) then 1 else 0;
    if 0 < UpperOf(s) < 65536 { ZeroWidth(pos + e, UpperOf(s)); }
  }

  /** The bits of the number 0 under each upper bound. */
  lemma ZeroWidth(pos: nat, u: U32)
    requires 0 < u < 65536
    ensures EncWhole(pos, 0, u + 1).Enc?
    ensures var n := |EncWhole(pos, 0, u + 1).bits|;
            && (n == 7 <==> 64 <= u <= 127)
            && (n == 8 <==> (128 <= u <= 254) || (u == 255 && pos % 8 == 0))
  {
    if u < 255 { OctetCounts(u); }
    hide BitCount, Pow2, BitsOf;
  }

  lemma OctetCounts(u: U32)
    requires 0 < u < 256
    ensures (BitCount(u) == 7 <==> 64 <= u <= 127) && (BitCount(u) == 8 <==> 128 <= u)
  {}

  /** The decoder that allocates gives back every closing string that is not empty. An empty one it
      skips as if its length took one octet, so the cursor ends where the encoder left it if and only
      if that is so, which the constraint and the bit position decide. */
  lemma DynTripsIff(bits: seq<bool>, pos: nat, sizes: seq<Size>, d: seq<Byte>)
    requires Encodable(sizes, true, |d|) && Unambiguous(sizes, |d|) && !Unclosed(sizes, |d|)
    requires var e := EncString(pos, sizes, sizes, true, |d|, Flat(d)); e.Enc? ==> Has(bits, pos, e.bits)
    ensures var e := EncString(pos, sizes, sizes, true, |d|, Flat(d));
            e.Enc? && (DecDyn(bits, pos, sizes) == Got(Flat(d), pos + |e.bits|) <==> d != [] || OneOctetLength(pos, sizes))
  {
    EncodableIs(sizes, true, |d|);
    assert EncString(pos, sizes, sizes, true, |d|, Flat(d)).Enc? by {
      hide Encodes, Encodable;
      StringEncodes(pos, sizes, sizes, true, |d|, Flat(d));
    }
    hide Encodable, Encodes;
    if d == [] {
      assert EncString(pos, sizes, sizes, true, 0, Flat(d)) == EncLength(pos, sizes, 0) by { hide EncLength; }
      EmptyLength(pos, sizes);
    }
    hide Has, EncString, DecString, DecTotal, Unambiguous, Unclosed, EncLength, OneOctetLength;
    ClosedTrip(bits, pos, sizes, sizes, true, |d|, Flat(d));
    TotalMatches(bits, pos, sizes, sizes, true) by { Inside(bits, pos, EncString(pos, sizes, sizes, true, |d|, Flat(d)).bits); }
  }

  /** An empty string of at most three octets: its length is two bits, but eight are skipped. */
  lemma EmptyOfThree()
    ensures var sizes := [Size(0, 3, false)];
            var e := EncString(0, sizes, sizes, true, 0, []);
            e.Enc? && |e.bits| == 2 && DecDyn(e.bits, 0, sizes) == Got([], 8)
  {
    var sizes := [Size(0, 3, false)];
    var e := EncString(0, sizes, sizes, true, 0, []);
    assert CheckSize(sizes, 0) == Some(sizes[0]) && !Extendable(sizes);
    assert BitCount(3) == 2;
    assert e == Enc(BitsOf(0, 2)) by { assert [] + BitsOf(0, 2) == BitsOf(0, 2); }
    assert e.bits[0..|e.bits|] == e.bits;
    OneRange(sizes[0], 0);
    LengthTrip(e.bits, 0, sizes, 0);
  }

  lemma Inside(bits: seq<bool>, pos: nat, w: seq<bool>)
    requires Has(bits, pos, w)
    ensures pos <= |bits|
  {}

  /** A decoded bit string is the octets that were sent, its last one cleared beyond the end. */
  lemma BitStringOctets(d: seq<Byte>, full: nat, r: nat)
    requires r < 8 && 8 * full + r <= 8 * |d|
    ensures r == 0 ==> Pack(Flat(d)[..8 * full]) == d[..full]
    ensures r > 0 ==> HighPart(d[full], r) < 256 && Pack(Flat(d)[..8 * full + r]) == d[..full] + [HighPart(d[full], r)]
  {
    hide Flat, BitsOf, Pack, HighPart;
    FlatCut(d, full);
    PackFlat(d[..full]);
    if r > 0 { LastOctet(d, full, r); }
  }

  lemma LastOctet(d: seq<Byte>, full: nat, r: nat)
    requires 0 < r < 8 && full < |d|
    ensures HighPart(d[full], r) < 256 && Pack(Flat(d)[..8 * full + r]) == d[..full] + [HighPart(d[full], r)]
  {
    hide Flat, BitsOf, Pack, HighPart;
    PerEncoder.OctetsThenBits(d, full, r);
    PackFlat(d[..full]);
    OctetParts(d[full], r);
    var (a, c) := (Flat(d[..full]), BitsOf(d[full], 8)[..r]);
    assert |a| % 8 == 0;
    PackAppend(a, c);
    PackShort(c, d[full]);
  }
}
