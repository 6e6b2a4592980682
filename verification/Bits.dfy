/** Bit strings, most significant bit first, and C's shifts, masks and `|` on unsigned numbers.
    Everything is defined a bit at a time, so that facts about bit strings need no
    multiplication. */
module Bits {
  type Byte = x: int | 0 <= x < 256
  type U32 = x: int | 0 <= x < 0x1_0000_0000
  type I32 = x: int | -0x8000_0000 <= x < 0x8000_0000

  function Pow2(n: nat): (p: nat)
    ensures p > 0
  {
    if n == 0 then 1 else 2 * Pow2(n - 1)
  }

  /** The low n bits of v. */
  function BitsOf(v: nat, n: nat): (b: seq<bool>)
    ensures |b| == n
  {
    if n == 0 then [] else BitsOf(v / 2, n - 1) + [v % 2 == 1]
  }

  /** The number a bit string spells. */
  function ValOf(b: seq<bool>): nat {
    if b == [] then 0 else 2 * ValOf(b[..|b| - 1]) + (if b[|b| - 1] then 1 else 0)
  }

  /** The bits of a run of octets. */
  function Flat(d: seq<Byte>): (b: seq<bool>)
    ensures |b| == 8 * |d|
  {
    if d == [] then [] else Flat(d[..|d| - 1]) + BitsOf(d[|d| - 1], 8)
  }

  function Zeros(n: nat): (b: seq<bool>)
    ensures |b| == n
  {
    seq(n, _ => false)
  }

  /** v << n. */
  function Shl(v: nat, n: nat): nat {
    if n == 0 then v else 2 * Shl(v, n - 1)
  }

  /** v >> n. */
  function Shr(v: nat, n: nat): nat {
    if n == 0 then v else Shr(v / 2, n - 1)
  }

  /** v & ((1 << n) - 1). */
  function Low(v: nat, n: nat): nat {
    if n == 0 then 0 else 2 * Low(v / 2, n - 1) + v % 2
  }

  /** a | b. */
  function BitOr(a: nat, b: nat): nat {
    if a == 0 then b
    else if b == 0 then a
    else 2 * BitOr(a / 2, b / 2) + (if a % 2 == 1 || b % 2 == 1 then 1 else 0)
  }

  /** A number kept in 32 bits. */
  function Wrap(x: int): U32 { x % 0x1_0000_0000 }

  lemma Unwrapped(x: int)
    requires 0 <= x < 0x1_0000_0000
    ensures Wrap(x) == x
  {}

  /** Two's complement reading of the low 32 bits. */
  function Signed(x: int): I32 {
    if Wrap(x) < 0x8000_0000 then Wrap(x) else Wrap(x) - 0x1_0000_0000
  }

  // ---------- powers ----------

  lemma {:induction false} PowAdd(a: nat, b: nat)
    ensures Pow2(a + b) == Pow2(a) * Pow2(b)
  {
    if a > 0 {
      PowAdd(a - 1, b);
      assert Pow2(a + b) == 2 * Pow2(a - 1 + b);
    }
  }

  lemma Pow2Small()
    ensures Pow2(0) == 1 && Pow2(1) == 2 && Pow2(2) == 4 && Pow2(3) == 8 && Pow2(4) == 16
    ensures Pow2(5) == 32 && Pow2(6) == 64 && Pow2(7) == 128 && Pow2(8) == 256
  {}

  lemma Pow2Big()
    ensures Pow2(14) == 16384 && Pow2(15) == 32768 && Pow2(16) == 65536
    ensures Pow2(24) == 0x100_0000 && Pow2(32) == 0x1_0000_0000
  {
    Pow2Small();
    PowAdd(6, 8);
    PowAdd(7, 8);
    PowAdd(8, 8);
    PowAdd(16, 8);
    PowAdd(16, 16);
  }

  lemma {:induction false} PowGrows(a: nat, b: nat)
    requires a <= b
    ensures Pow2(a) <= Pow2(b)
  {
    if a < b { PowGrows(a, b - 1); }
  }

  // ---------- numbers and their bits ----------

  lemma {:induction false} BitsSplit(v: nat, a: nat, b: nat)
    ensures BitsOf(v, a + b) == BitsOf(Shr(v, b), a) + BitsOf(v, b)
  {
    if b > 0 {
      BitsSplit(v / 2, a, b - 1);
      assert BitsOf(v, a + b) == BitsOf(v / 2, a + (b - 1)) + [v % 2 == 1];
    }
  }

  lemma {:induction false} ValBits(v: nat, n: nat)
    ensures ValOf(BitsOf(v, n)) == Low(v, n) < Pow2(n)
  {
    if n > 0 {
      ValBits(v / 2, n - 1);
      var b := BitsOf(v, n);
      assert b[..|b| - 1] == BitsOf(v / 2, n - 1);
    }
  }

  lemma {:induction false} BitsVal(b: seq<bool>)
    ensures ValOf(b) < Pow2(|b|) && BitsOf(ValOf(b), |b|) == b
  {
    if b != [] {
      BitsVal(b[..|b| - 1]);
      assert b[..|b| - 1] + [b[|b| - 1]] == b;
    }
  }

  lemma {:induction false} LowId(v: nat, n: nat)
    requires v < Pow2(n)
    ensures Low(v, n) == v
  {
    if n > 0 { LowId(v / 2, n - 1); }
  }

  lemma {:induction false} LowBits(v: nat, n: nat, m: nat)
    requires n <= m
    ensures BitsOf(Low(v, m), n) == BitsOf(v, n)
  {
    if n > 0 { LowBits(v / 2, n - 1, m - 1); }
  }

  lemma {:induction false} ShlBits(v: nat, k: nat, n: nat)
    ensures BitsOf(Shl(v, k), n + k) == BitsOf(v, n) + Zeros(k)
  {
    if k > 0 {
      ShlBits(v, k - 1, n);
      assert BitsOf(Shl(v, k), n + k) == BitsOf(Shl(v, k - 1), n + (k - 1)) + [false];
      assert Zeros(k) == Zeros(k - 1) + [false];
    }
  }

  lemma {:induction false} ZeroBits(n: nat)
    ensures BitsOf(0, n) == Zeros(n)
  {
    if n > 0 {
      ZeroBits(n - 1);
      assert Zeros(n) == Zeros(n - 1) + [false];
    }
  }

  lemma {:induction false} HighBits(v: nat, k: nat, n: nat)
    requires v < Pow2(n)
    ensures BitsOf(v, k + n) == Zeros(k) + BitsOf(v, n)
  {
    if n == 0 {
      ZeroBits(k);
    } else {
      HighBits(v / 2, k, n - 1);
      assert BitsOf(v, k + n) == BitsOf(v / 2, k + (n - 1)) + [v % 2 == 1];
    }
  }

  lemma {:induction false} OrBits(a: nat, b: nat, n: nat, i: nat)
    requires i < n
    ensures BitsOf(BitOr(a, b), n)[i] == (BitsOf(a, n)[i] || BitsOf(b, n)[i])
  {
    if a == 0 || b == 0 {
      ZeroBits(n);
    } else {
      var c := BitOr(a, b);
      assert c / 2 == BitOr(a / 2, b / 2) && (c % 2 == 1 <==> a % 2 == 1 || b % 2 == 1);
      hide BitOr;
      if i < n - 1 { OrBits(a / 2, b / 2, n - 1, i); }
    }
  }

  lemma {:induction false} OrBelow(a: nat, b: nat, n: nat)
    requires a < Pow2(n) && b < Pow2(n)
    ensures BitOr(a, b) < Pow2(n)
  {
    if a != 0 && b != 0 { OrBelow(a / 2, b / 2, n - 1); }
  }

  lemma {:induction false} SameBits(a: nat, b: nat, n: nat)
    requires a < Pow2(n) && b < Pow2(n) && BitsOf(a, n) == BitsOf(b, n)
    ensures a == b
  {
    ValBits(a, n);
    ValBits(b, n);
    LowId(a, n);
    LowId(b, n);
  }

  lemma {:induction false} ShlBelow(v: nat, n: nat, k: nat)
    requires v < Pow2(n)
    ensures Shl(v, k) < Pow2(n + k)
  {
    if k > 0 { ShlBelow(v, n, k - 1); }
  }

  lemma {:induction false} ShrBelow(v: nat, n: nat, k: nat)
    requires v < Pow2(n + k)
    ensures Shr(v, k) < Pow2(n)
  {
    if k > 0 { ShrBelow(v / 2, n, k - 1); }
  }

  // ---------- shifts by fixed amounts ----------

  lemma Shr4(v: nat)
    ensures Shr(v, 4) == v / 16
  {
    assert v / 2 / 2 == v / 4 && v / 4 / 2 / 2 == v / 16;
    assert Shr(v, 4) == Shr(v / 2 / 2, 2) == Shr(v / 4 / 2 / 2, 0);
  }

  lemma Shr8(v: nat)
    ensures Shr(v, 8) == v / 256
  {
    Shr4(v);
    Shr4(v / 16);
    ShrMore(v, 4, 4);
    assert v / 16 / 16 == v / 256;
  }

  lemma Shr16(v: nat)
    ensures Shr(v, 16) == v / 65536
  {
    Shr8(v);
    Shr8(v / 256);
    ShrMore(v, 8, 8);
    assert v / 256 / 256 == v / 65536;
  }

  lemma Shr7(v: nat)
    ensures Shr(v, 7) == v / 128
  {
    Shr4(v);
    ShrMore(v, 4, 3);
    var u := v / 16;
    assert Shr(u, 3) == Shr(u / 2, 2) && Shr(u / 2, 2) == Shr(u / 2 / 2, 1) && Shr(u / 2 / 2, 1) == Shr(u / 2 / 2 / 2, 0);
    assert u / 2 / 2 / 2 == v / 128;
  }

  lemma {:induction false} LowShr(v: nat, n: nat)
    ensures Low(v, n) + Pow2(n) * Shr(v, n) == v
  {
    if n > 0 {
      LowShr(v / 2, n - 1);
      assert Pow2(n) * Shr(v, n) == 2 * (Pow2(n - 1) * Shr(v / 2, n - 1));
    }
  }

  lemma Low8(v: nat)
    ensures Low(v, 8) == v % 256
  {
    LowShr(v, 8);
    Shr8(v);
    Pow2Small();
  }

  lemma {:induction false} ShrMore(v: nat, a: nat, b: nat)
    ensures Shr(v, a + b) == Shr(Shr(v, a), b)
  {
    if a > 0 { ShrMore(v / 2, a - 1, b); }
  }

  lemma ShrZero(v: nat)
    ensures Shr(v, 0) == v
  {}

  // ---------- parts of an octet ----------

  /** The n high bits of an octet. */
  function HighPart(x: Byte, n: nat): nat
    requires n <= 8
  {
    Shl(Shr(x, 8 - n), 8 - n)
  }

  lemma OctetBelow(x: nat)
    ensures x < 256 <==> x < Pow2(8)
    ensures BitsOf(x % 256, 8) == BitsOf(x, 8)
  {
    Pow2Small();
    Low8(x);
    LowBits(x, 8, 8);
  }

  /** value >> (8 - n) holds the n high bits. */
  lemma Shifted(value: Byte, n: nat)
    requires n <= 8
    ensures Shr(value, 8 - n) < Pow2(n) && BitsOf(Shr(value, 8 - n), n) == BitsOf(value, 8)[..n]
  {
    BitsSplit(value, n, 8 - n);
    OctetBelow(value);
    ShrBelow(value, n, 8 - n);
  }

  lemma OctetParts(value: Byte, n: nat)
    requires n <= 8
    ensures HighPart(value, n) < 256
    ensures BitsOf(HighPart(value, n), 8) == BitsOf(value, 8)[..n] + Zeros(8 - n)
    ensures Shr(value, 8 - n) < Pow2(n) && BitsOf(Shr(value, 8 - n), n) == BitsOf(value, 8)[..n]
  {
    Shifted(value, n);
    ShlBits(Shr(value, 8 - n), 8 - n, n);
    ShlBelow(Shr(value, 8 - n), n, 8 - n);
    OctetBelow(HighPart(value, n));
  }

  // ---------- octets ----------

  lemma FlatOne(x: Byte)
    ensures Flat([x]) == BitsOf(x, 8)
  {
    assert [x][..0] == [];
  }

  lemma {:induction false} FlatAppend(a: seq<Byte>, b: seq<Byte>)
    ensures Flat(a + b) == Flat(a) + Flat(b)
  {
    if b == [] {
      assert a + b == a;
    } else {
      var c := b[..|b| - 1];
      FlatAppend(a, c);
      assert (a + b)[..|a + b| - 1] == a + c;
    }
  }

  /** Octet i of a run, found in its bits. */
  lemma FlatAt(d: seq<Byte>, i: nat)
    requires i < |d|
    ensures Flat(d)[8 * i..8 * i + 8] == BitsOf(d[i], 8)
  {
    hide BitsOf, Flat;
    assert d == d[..i] + [d[i]] + d[i + 1..];
    FlatAppend(d[..i] + [d[i]], d[i + 1..]);
    FlatAppend(d[..i], [d[i]]);
    FlatOne(d[i]);
  }

  lemma FlatCut(d: seq<Byte>, i: nat)
    requires i <= |d|
    ensures Flat(d)[..8 * i] == Flat(d[..i]) && Flat(d)[8 * i..] == Flat(d[i..])
  {
    assert d == d[..i] + d[i..];
    FlatAppend(d[..i], d[i..]);
  }

  /** n bits of octet i, starting where its low o bits are left. */
  lemma ReadField(d: seq<Byte>, i: nat, o: nat, n: nat)
    requires i < |d| && n <= o <= 8
    ensures Flat(d)[8 * i + 8 - o..8 * i + 8 - o + n] == BitsOf(Shr(d[i], o - n), n)
    ensures ValOf(BitsOf(Shr(d[i], o - n), n)) == Low(Shr(d[i], o - n), n)
  {
    hide BitsOf, ValOf, Flat, Shr, Low;
    FlatAt(d, i);
    BitsSplit(d[i], 8 - o + n, o - n);
    BitsSplit(Shr(d[i], o - n), 8 - o, n);
    ValBits(Shr(d[i], o - n), n);
    var (w, hi) := (BitsOf(d[i], 8), BitsOf(Shr(Shr(d[i], o - n), n), 8 - o));
    MidSlice(Flat(d), w, hi, BitsOf(Shr(d[i], o - n), n), BitsOf(d[i], o - n), 8 * i);
  }

  lemma MidSlice(b: seq<bool>, w: seq<bool>, x: seq<bool>, y: seq<bool>, z: seq<bool>, i: nat)
    requires i + |w| <= |b| && b[i..i + |w|] == w && w == x + y + z
    ensures b[i + |x|..i + |x| + |y|] == y
  {
    forall j | 0 <= j < |y| ensures b[i + |x| + j] == y[j] {
      assert b[i..i + |w|][|x| + j] == w[|x| + j] == y[j];
    }
  }
}
