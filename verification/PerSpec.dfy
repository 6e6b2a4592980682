/** The aligned variant of the Packed Encoding Rules (ITU-T X.691), as functions: what each encoder
    adds to a bit string that already holds `pos` bits, and what each decoder reads from bit `pos`
    of a bit string. The encoder and decoder classes are proved against these functions. */
module PerSpec {
  import opened Bits
  import opened Wrappers

  datatype Stat = Ok | OkFrag | BufOvflw | EndOfBuf | StrOvflw | ConsVio | RangErr | InvObjId

  /** The bits an encoder adds, or why it refuses. */
  datatype Enc = Enc(bits: seq<bool>) | Bad(why: Stat)

  /** The value a decoder reads and where it stops, or why it fails. */
  datatype Dec<T> = Got(value: T, pos: nat) | Fail(why: Stat)

  function Then(e: Enc, f: Enc): Enc {
    if e.Bad? then e else if f.Bad? then f else Enc(e.bits + f.bits)
  }

  /** The bits w stand at bit pos. */
  predicate Has(bits: seq<bool>, pos: nat, w: seq<bool>) {
    pos + |w| <= |bits| && bits[pos..pos + |w|] == w
  }

  // ---------- alignment ----------

  function AlignUp(pos: nat): (p: nat)
    ensures p % 8 == 0 && pos <= p < pos + 8
  {
    pos + (8 - pos % 8) % 8
  }

  function Pad(pos: nat): (b: seq<bool>)
    ensures |b| == AlignUp(pos) - pos
  {
    Zeros(AlignUp(pos) - pos)
  }

  // ---------- size constraints ----------

  /** One range of a size constraint; a constraint is a list of them, empty when there is none. */
  datatype Size = Size(lower: U32, upper: U32, extended: bool)

  predicate Extendable(sizes: seq<Size>) {
    exists i :: 0 <= i < |sizes| && sizes[i].extended
  }

  predicate FixedSize(sizes: seq<Size>) {
    |sizes| == 1 && !sizes[0].extended && sizes[0].lower == sizes[0].upper
  }

  /** The first range that the length n falls in. */
  function CheckSize(sizes: seq<Size>, n: nat): (r: Option<Size>)
    ensures r.Some? ==> r.value in sizes && r.value.lower <= n <= r.value.upper
    ensures r.None? ==> forall s | s in sizes :: !(s.lower <= n <= s.upper)
  {
    if sizes == [] then None
    else if sizes[0].lower <= n <= sizes[0].upper then Some(sizes[0])
    else CheckSize(sizes[1..], n)
  }

  /** The first range whose extension flag is as given. */
  function GetSize(sizes: seq<Size>, extended: bool): (r: Option<Size>)
    ensures r.Some? ==> r.value in sizes && r.value.extended == extended
    ensures r.None? ==> forall s | s in sizes :: s.extended != extended
  {
    if sizes == [] then None
    else if sizes[0].extended == extended then Some(sizes[0])
    else GetSize(sizes[1..], extended)
  }

  function LowerOf(s: Option<Size>): U32 { if s.Some? then s.value.lower else 0 }

  function UpperOf(s: Option<Size>): U32 { if s.Some? then s.value.upper else 0xFFFF_FFFF }

  /** Whether a string of n items is byte aligned after its length. */
  function AlignTest(sizes: seq<Size>, n: nat, octets: bool): Option<bool> {
    if sizes == [] || n > (if octets then 2 else 16) then Some(true)
    else if FixedSize(sizes) then Some(false)
    else
      var s := CheckSize(sizes, n);
      if s.None? then None else Some(s.value.upper != s.value.lower || s.value.extended)
  }

  // ---------- whole numbers, section 10.5.7 ----------

  /** How many bits a number needs: the decision tree, which finds the least count. */
  function BitCount(v: U32): (n: nat)
    ensures n <= 32 && v < Pow2(n) && (n > 0 ==> Pow2(n - 1) <= v)
  {
    if v < 0x8000 then CountLow(v) else CountHigh(v)
  }

  function CountLow(v: U32): (n: nat)
    requires v < 0x8000
    ensures n <= 15 && v < Pow2(n) && (n > 0 ==> Pow2(n - 1) <= v)
  {
    Pow2Small();
    if v < 0x80 then
      if v < 8 then
        if v < 2 then (if v < 1 then 0 else 1) else (if v < 4 then 2 else 3)
      else
        if v < 0x20 then (if v < 0x10 then 4 else 5) else (if v < 0x40 then 6 else 7)
    else
      if v < 0x800 then
        if v < 0x200 then (if v < 0x100 then 8 else 9) else (if v < 0x400 then 10 else 11)
      else
        if v < 0x2000 then (if v < 0x1000 then 12 else 13) else (if v < 0x4000 then 14 else 15)
  }

  function CountHigh(v: U32): (n: nat)
    requires 0x8000 <= v
    ensures 16 <= n <= 32 && Pow2(n - 1) <= v < Pow2(n)
  {
    Pow2Big();
    if v < 0x80_0000 then
      if v < 0x8_0000 then
        if v < 0x2_0000 then (if v < 0x1_0000 then 16 else 17) else (if v < 0x4_0000 then 18 else 19)
      else
        if v < 0x20_0000 then (if v < 0x10_0000 then 20 else 21) else (if v < 0x40_0000 then 22 else 23)
    else
      if v < 0x800_0000 then
        if v < 0x200_0000 then (if v < 0x100_0000 then 24 else 25) else (if v < 0x400_0000 then 26 else 27)
      else
        if v < 0x2000_0000 then (if v < 0x1000_0000 then 28 else 29)
        else if v < 0x4000_0000 then 30 else if v < 0x8000_0000 then 31 else 32
  }

  /** The octets of a non-negative number in its shortest form. */
  function OctetCount(v: U32): nat {
    if v < 0x100 then 1 else if v < 0x1_0000 then 2 else if v < 0x100_0000 then 3 else 4
  }

  function EncWhole(pos: nat, v: U32, range: U32): Enc {
    if v >= range && range != 0xFFFF_FFFF then Bad(RangErr)
    else if range <= 255 then Enc(BitsOf(v, BitCount(Wrap(range - 1))))
    else if range == 256 then Enc(Pad(pos) + BitsOf(v, 8))
    else if range <= 65536 then Enc(Pad(pos) + BitsOf(v, 16))
    else Enc(BitsOf(OctetCount(v) - 1, 2) + Pad(pos + 2) + BitsOf(v, 8 * OctetCount(v)))
  }

  function DecBits(bits: seq<bool>, pos: nat, n: nat): (r: Dec<nat>)
    ensures r.Fail? ==> r.why == EndOfBuf
  {
    if n == 0 then Got(0, pos)
    else if pos + n <= |bits| then Got(ValOf(bits[pos..pos + n]), pos + n)
    else Fail(EndOfBuf)
  }

  function DecWhole(bits: seq<bool>, pos: nat, range: U32): (r: Dec<nat>)
    ensures r.Fail? ==> r.why == EndOfBuf
  {
    if range <= 255 then DecBits(bits, pos, BitCount(Wrap(range - 1)))
    else if range == 256 then DecBits(bits, AlignUp(pos), 8)
    else if range <= 65536 then DecBits(bits, AlignUp(pos), 16)
    else
      match DecBits(bits, pos, 2)
      case Fail(w) => Fail(w)
      case Got(n, p) => DecBits(bits, AlignUp(p), 8 * (n + 1))
  }

  // ---------- constrained integers ----------

  /** C's abs, which wraps at the least integer. */
  function Abs32(x: I32): I32 { if x < 0 then Signed(-(x as int)) else x }

  function EncInt(pos: nat, value: I32, lower: I32, upper: I32): Enc {
    if value < lower || value > upper then Bad(ConsVio)
    else
      var same := (upper > 0 && lower >= 0) || (upper <= 0 && lower < 0);
      var r := if same then Wrap(upper - lower) else Wrap(upper + Abs32(lower));
      var a := if same then Wrap(value - lower) else Wrap(value + Abs32(lower));
      var range: U32 := if r != 0xFFFF_FFFF then r + 1 else r;
      if range == 0 || lower > upper then Bad(RangErr)
      else if lower != upper then EncWhole(pos, a, range)
      else Enc([])
  }

  function DecInt(bits: seq<bool>, pos: nat, lower: I32, upper: I32): (r: Dec<I32>)
    ensures r.Fail? ==> r.why in {EndOfBuf, ConsVio, RangErr}
  {
    var r := Wrap(upper - lower);
    var range: U32 := if r != 0xFFFF_FFFF then r + 1 else r;
    if lower > upper then Fail(RangErr)
    else if lower == upper then Got(lower, pos)
    else
      match DecWhole(bits, pos, range)
      case Fail(w) => Fail(w)
      case Got(a, p) =>
        var v := Signed(a + lower);
        if v < lower || v > upper then Fail(ConsVio) else Got(v, p)
  }

  function UnsRange(lower: U32, upper: U32): U32 {
    if lower == 0 && upper == 0xFFFF_FFFF then 0xFFFF_FFFF else Wrap(upper - lower + 1)
  }

  function EncUns(pos: nat, value: U32, lower: U32, upper: U32): Enc {
    if lower != upper then EncWhole(pos, Wrap(value - lower), UnsRange(lower, upper)) else Enc([])
  }

  function DecUns(bits: seq<bool>, pos: nat, lower: U32, upper: U32): (r: Dec<U32>)
    ensures r.Fail? ==> r.why in {EndOfBuf, ConsVio}
  {
    if lower == upper then Got(lower, pos)
    else
      match DecWhole(bits, pos, UnsRange(lower, upper))
      case Fail(w) => Fail(w)
      case Got(a, p) =>
        var v := Wrap(a + lower);
        if v < lower || v > upper then Fail(ConsVio) else Got(v, p)
  }

  // ---------- length determinants, section 10.9 ----------

  function UnconsForm(n: nat): seq<bool> {
    if n < 128 then BitsOf(n, 8)
    else if n < 16384 then [true] + BitsOf(n, 15)
    else [true, true] + BitsOf(if n / 16384 < 4 then n / 16384 else 4, 6)
  }

  /** A length whose bounds are known: nothing, a constrained whole number, or the general form. */
  function EncBounded(pos: nat, lower: U32, upper: U32, n: nat): Enc
    requires upper < 65536 ==> lower <= n <= upper
  {
    if upper >= 65536 then Enc(Pad(pos) + UnconsForm(n))
    else if lower == upper then Enc([])
    else EncWhole(pos, n - lower, upper - lower + 1)
  }

  /** The items a length announces: all of them, or a fragment of 1 to 4 times 16384. */
  function Taken(sizes: seq<Size>, n: nat): (k: nat)
    ensures k <= n && (k == 0 <==> n == 0)
    ensures k < n ==> k % 16384 == 0
  {
    if UpperOf(CheckSize(sizes, n)) < 65536 || n < 16384 then n
    else if n / 16384 < 4 then 16384 * (n / 16384) else 65536
  }

  function EncLength(pos: nat, sizes: seq<Size>, n: nat): Enc {
    var s := CheckSize(sizes, n);
    if s.None? && sizes != [] then Bad(ConsVio)
    else
      var ext := if Extendable(sizes) then [s.None? || s.value.extended] else [];
      Then(Enc(ext), EncBounded(pos + |ext|, LowerOf(s), UpperOf(s), n))
  }

  /** A decoded length, and whether more fragments follow. */
  datatype Count = Count(n: nat, more: bool)

  function DecUncons(bits: seq<bool>, pos: nat): (r: Dec<Count>)
    ensures r.Fail? ==> r.why == EndOfBuf
    ensures r.Got? ==> pos + 8 <= r.pos <= |bits| && r.pos % 8 == 0
    ensures r.Got? && r.value.more ==> r.value.n % 16384 == 0
  {
    var p := AlignUp(pos);
    if p + 8 > |bits| then Fail(EndOfBuf)
    else if !bits[p] then Got(Count(ValOf(bits[p + 1..p + 8]), false), p + 8)
    else if bits[p + 1] then Got(Count(16384 * ValOf(bits[p + 2..p + 8]), true), p + 8)
    else if p + 16 > |bits| then Fail(EndOfBuf)
    else Got(Count(ValOf(bits[p + 2..p + 16]), false), p + 16)
  }

  function DecBounded(bits: seq<bool>, pos: nat, lower: U32, upper: U32): (r: Dec<Count>)
    ensures r.Fail? ==> r.why == EndOfBuf
    ensures r.Got? && pos <= |bits| ==> pos <= r.pos <= |bits|
    ensures r.Got? && r.value.more ==> pos + 8 <= r.pos <= |bits| && r.pos % 8 == 0 && r.value.n % 16384 == 0
  {
    if upper >= 65536 then DecUncons(bits, pos)
    else if lower == upper then Got(Count(lower, false), pos)
    else
      match DecWhole(bits, pos, Wrap(upper as int - lower + 1))
      case Fail(w) => Fail(w)
      case Got(n, q) => Got(Count(Wrap(n + lower), false), q)
  }

  function DecLength(bits: seq<bool>, pos: nat, sizes: seq<Size>): (r: Dec<Count>)
    ensures r.Fail? ==> r.why == EndOfBuf
    ensures r.Got? && pos <= |bits| ==> pos <= r.pos <= |bits|
    ensures r.Got? && r.value.more ==> pos + 8 <= r.pos <= |bits| && r.pos % 8 == 0 && r.value.n % 16384 == 0
  {
    if Extendable(sizes) && pos >= |bits| then Fail(EndOfBuf)
    else
      var s := GetSize(sizes, Extendable(sizes) && bits[pos]);
      DecBounded(bits, if Extendable(sizes) then pos + 1 else pos, LowerOf(s), UpperOf(s))
  }

  // ---------- octet and bit strings ----------

  /** The bits in n items: octets, or bits. */
  function Span(octets: bool, n: nat): nat { if octets then 8 * n else n }

  /** The next fragment of a string: `cur` is the constraint on this length, `all` the one the
      alignment rule looks at. */
  function EncFragment(pos: nat, cur: seq<Size>, all: seq<Size>, octets: bool, n: nat, data: seq<bool>): Enc
    requires |data| == Span(octets, n)
  {
    var (h, a) := (EncLength(pos, cur, n), AlignTest(all, n, octets));
    if h.Bad? || n == 0 then h
    else if a.None? then Bad(ConsVio)
    else Enc(h.bits + (if a.value then Pad(pos + |h.bits|) else []) + data[..Span(octets, Taken(cur, n))])
  }

  /** A string, fragment after fragment. */
  function EncString(pos: nat, cur: seq<Size>, all: seq<Size>, octets: bool, n: nat, data: seq<bool>): Enc
    requires |data| == Span(octets, n)
    decreases n
  {
    var (e, k) := (EncFragment(pos, cur, all, octets, n, data), Taken(cur, n));
    if e.Bad? || k == n then e
    else Then(e, EncString(pos + |e.bits|, [], all, octets, n - k, data[Span(octets, k)..]))
  }

  datatype Fragment = Fragment(data: seq<bool>, more: bool)

  function DecFragment(bits: seq<bool>, pos: nat, cur: seq<Size>, all: seq<Size>, octets: bool): (r: Dec<Fragment>)
    ensures r.Got? && pos <= |bits| ==> pos <= r.pos <= |bits|
    ensures r.Got? && r.value.more ==> pos + 8 <= r.pos <= |bits|
  {
    match DecLength(bits, pos, cur)
    case Fail(w) => Fail(w)
    case Got(c, p) =>
      if c.n == 0 then Got(Fragment([], c.more), p)
      else
        var a := AlignTest(all, c.n, octets);
        if a.None? then Fail(ConsVio)
        else
          var q := if a.value then AlignUp(p) else p;
          var e := q + Span(octets, c.n);
          if e > |bits| then Fail(EndOfBuf) else Got(Fragment(bits[q..e], c.more), e)
  }

  function DecString(bits: seq<bool>, pos: nat, cur: seq<Size>, all: seq<Size>, octets: bool): (r: Dec<seq<bool>>)
    ensures r.Got? && pos <= |bits| ==> pos <= r.pos <= |bits|
    decreases |bits| - pos
  {
    match DecFragment(bits, pos, cur, all, octets)
    case Fail(w) => Fail(w)
    case Got(f, e) =>
      if !f.more then Got(f.data, e)
      else
        match DecString(bits, e, [], all, octets)
        case Fail(w) => Fail(w)
        case Got(rest, end) => Got(f.data + rest, end)
  }

  /** The look-ahead scan: the lengths of a fragment chain, the contents skipped over. */
  function DecTotal(bits: seq<bool>, pos: nat, cur: seq<Size>, octets: bool): (r: Dec<nat>)
    ensures r.Fail? ==> r.why == EndOfBuf
    decreases |bits| - pos
  {
    match DecLength(bits, pos, cur)
    case Fail(w) => Fail(w)
    case Got(c, p) =>
      if !c.more then Got(c.n, p)
      else if p + Span(octets, c.n) > |bits| then Fail(EndOfBuf)
      else
        match DecTotal(bits, p + Span(octets, c.n), [], octets)
        case Fail(w) => Fail(w)
        case Got(n, q) => Got(c.n + n, q)
  }

  /** A string into fresh memory, sized by the scan first. An empty one is not read but skipped, as if
      its length always took one octet. */
  function DecDyn(bits: seq<bool>, pos: nat, sizes: seq<Size>): Dec<seq<bool>> {
    var t := DecTotal(bits, pos, sizes, true);
    if t.Fail? then Fail(t.why)
    else if t.value == 0 then Got([], pos + 8)
    else DecString(bits, pos, sizes, sizes, true)
  }

  // ---------- semi-constrained integers, section 10.4.6 ----------

  /** The fewest octets that hold x in two's complement. */
  function TwosLen(x: I32): (n: nat)
    ensures 1 <= n <= 4
  {
    if -0x80 <= x < 0x80 then 1
    else if -0x8000 <= x < 0x8000 then 2
    else if -0x80_0000 <= x < 0x80_0000 then 3
    else 4
  }

  function SemiOffset(value: I32, lower: I32): I32 {
    if lower > -0x8000_0000 then Signed(value - lower) else value
  }

  function EncSemi(pos: nat, sizes: seq<Size>, value: I32, lower: I32): Enc {
    var x := SemiOffset(value, lower);
    var h := EncLength(pos, sizes, TwosLen(x));
    if h.Bad? then h
    else Then(h, Enc(Pad(pos + |h.bits|) + BitsOf(Wrap(x), 8 * TwosLen(x))))
  }

  /** n more octets of a two's complement number whose leading octets are acc. */
  function DecTwos(bits: seq<bool>, pos: nat, n: nat, acc: I32): (r: Dec<I32>)
    ensures r.Fail? ==> r.why == EndOfBuf
    decreases n
  {
    if n == 0 then Got(acc, pos)
    else
      match DecBits(bits, pos, 8)
      case Fail(w) => Fail(w)
      case Got(b, p) => DecTwos(bits, p, n - 1, Signed(acc * 256 + b))
  }

  function SignedOctet(b: nat): int { if b < 128 then b else b - 256 }

  function DecSemi(bits: seq<bool>, pos: nat, sizes: seq<Size>, lower: I32): (r: Dec<I32>)
    ensures r.Fail? ==> r.why == EndOfBuf
  {
    match DecLength(bits, pos, sizes)
    case Fail(w) => Fail(w)
    case Got(c, p) =>
      var r: Dec<I32> :=
        if c.n == 0 then Got(0, p)
        else
          match DecBits(bits, AlignUp(p), 8)
          case Fail(w) => Fail(w)
          case Got(b, q) => DecTwos(bits, q, c.n - 1, Signed(SignedOctet(b)));
      if r.Fail? then r
      else if lower > -0x8000_0000 then Got(Signed(r.value + lower), r.pos)
      else r
  }

  // ---------- object identifiers ----------

  function ArcLen(v: U32): (n: nat)
    ensures 1 <= n <= 5
  {
    if v < 0x80 then 1 else if v < 0x4000 then 2 else if v < 0x20_0000 then 3
    else if v < 0x1000_0000 then 4 else 5
  }

  /** n groups of seven bits, the high bit of an octet set in all but the last. */
  function EncGroups(v: U32, n: nat): seq<bool> {
    if n == 0 then []
    else BitsOf(Shr(v, 7 * (n - 1)) % 128 + (if n > 1 then 128 else 0), 8) + EncGroups(v, n - 1)
  }

  function EncArc(v: U32): seq<bool> { EncGroups(v, ArcLen(v)) }

  function EncArcs(ids: seq<U32>): seq<bool> {
    if ids == [] then [] else EncArc(ids[0]) + EncArcs(ids[1..])
  }

  function ArcsLen(ids: seq<U32>): nat {
    if ids == [] then 0 else ArcLen(ids[0]) + ArcsLen(ids[1..])
  }

  predicate GoodOid(ids: seq<U32>) {
    |ids| >= 2 && ids[0] <= 2 && (ids[0] != 2 ==> ids[1] <= 39)
  }

  function EncOid(pos: nat, sizes: seq<Size>, ids: seq<U32>): Enc {
    var h := EncLength(pos, sizes, 1 + (if |ids| < 2 then 0 else ArcsLen(ids[2..])));
    if h.Bad? then h
    else if !GoodOid(ids) then Bad(InvObjId)
    else Enc(h.bits + EncArcs([Wrap(ids[0] as int * 40 + ids[1])] + ids[2..]))
  }

  datatype Arc = Arc(id: U32, len: U32)

  /** One arc; the count of octets left goes down with each octet read, and wraps below zero. */
  function DecArc(bits: seq<bool>, pos: nat, acc: U32, len: U32): (r: Dec<Arc>)
    ensures r.Got? ==> pos < r.pos <= |bits|
    ensures r.Fail? ==> r.why == EndOfBuf
    decreases |bits| - pos
  {
    match DecBits(bits, pos, 8)
    case Fail(w) => Fail(w)
    case Got(b, p) =>
      var (id, left) := (Wrap(acc * 128 + b % 128), Wrap(len - 1));
      if b % 256 >= 128 then DecArc(bits, p, id, left) else Got(Arc(id, left), p)
  }

  /** The first arc holds two. */
  function FirstTwo(v: U32): seq<U32> {
    if v / 40 >= 2 then [2, Wrap(v - 80)] else [v / 40, v % 40]
  }

  const MAX_ARCS: nat := 128

  function DecArcs(bits: seq<bool>, pos: nat, len: U32, ids: seq<U32>): (r: Dec<seq<U32>>)
    ensures r.Fail? ==> r.why in {EndOfBuf, InvObjId}
    decreases |bits| - pos
  {
    if len == 0 then Got(ids, pos)
    else if |ids| >= MAX_ARCS then Fail(InvObjId)
    else
      match DecArc(bits, pos, 0, len)
      case Fail(w) => Fail(w)
      case Got(a, p) =>
        DecArcs(bits, p, a.len, if ids == [] then FirstTwo(a.id) else ids + [a.id])
  }

  function DecOid(bits: seq<bool>, pos: nat, sizes: seq<Size>): (r: Dec<seq<U32>>)
    ensures r.Fail? ==> r.why in {EndOfBuf, InvObjId, OkFrag}
  {
    match DecLength(bits, pos, sizes)
    case Fail(w) => Fail(w)
    case Got(c, p) => if c.more then Fail(OkFrag) else DecArcs(bits, p, Wrap(c.n), [])
  }
}
