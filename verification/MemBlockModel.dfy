/** The state of one standard block of the suballocator in src/memheap.c, as a value.

    A block is a run of 8-byte units.  An element is a one-unit header followed by its
    payload; headers and payloads share the same units, so a header written over a payload
    destroys it.  The set of header offsets is ghost state: the C code finds headers only by
    following nunits and prevOff. */
module MemBlockModel {

  type U16 = x: nat | x < 0x1_0000

  /** One 8-byte unit, read as an element header: flag bits 1 (free), 2 (last) and 4 (saved),
      the other flag bits and the padding byte, to which no operation gives a meaning, and the
      three 16-bit fields.  `link` is nextFreeOff in a free element and beginOff in a live one. */
  datatype Unit = Unit(free: bool, last: bool, saved: bool, bits: nat, pad: nat, nunits: U16, prevOff: U16, link: U16)
  {
    function ClearFlags(): Unit {
      this.(free := false, last := false, saved := false, bits := 0)
    }
  }

  datatype Blk = Blk(mem: seq<Unit>, hdrs: set<nat>, freeX: nat, freeMem: int,
                     lastElemOff: nat, freeElemOff: nat, nsaved: int)

  /** Offset just past the element at h, which is where the next header is. */
  function End(m: seq<Unit>, h: nat): nat
    requires h < |m|
  {
    h + 1 + m[h].nunits
  }

  /** Offset of the header of the element before h, by its boundary tag. */
  function Prev(m: seq<Unit>, h: nat): int
    requires h < |m|
  {
    h - m[h].prevOff
  }

  // ---------- the tiling of [0, freeX) by elements ----------
  // The triggers stop the solver from walking the block by itself.

  ghost predicate Inside(m: seq<Unit>, H: set<nat>, fx: nat) {
    && fx <= |m|
    && (forall h <- H :: h < fx)
    && (forall h {:trigger End(m, h)} | h in H :: End(m, h) <= fx)
  }

  /** Going forward from a header reaches the next header, whose boundary tag leads back. */
  ghost predicate Linked(m: seq<Unit>, H: set<nat>, fx: nat)
    requires Inside(m, H, fx)
  {
    && (0 < fx ==> 0 in H && m[0].prevOff == 0)
    && (forall h {:trigger End(m, h)} | h in H :: End(m, h) < fx ==> End(m, h) in H && m[End(m, h)].prevOff == m[h].nunits + 1)
    && (forall h {:trigger Prev(m, h)} | h in H && 0 < h :: 0 <= Prev(m, h) < h && Prev(m, h) in H && End(m, Prev(m, h)) == h)
  }

  ghost predicate Apart(m: seq<Unit>, H: set<nat>, fx: nat)
    requires Inside(m, H, fx)
  {
    forall a, b {:trigger End(m, a), b in H} | a in H && b in H && a < b :: End(m, a) <= b
  }

  ghost predicate Tiled(m: seq<Unit>, H: set<nat>, fx: nat) {
    Inside(m, H, fx) && Linked(m, H, fx) && Apart(m, H, fx)
  }

  // ---------- flags ----------

  ghost predicate FlagsOk(m: seq<Unit>, H: set<nat>, fx: nat)
    requires Inside(m, H, fx)
  {
    && (forall h {:trigger End(m, h)} | h in H :: m[h].last <==> End(m, h) == fx)
    && (forall h {:trigger End(m, h)} | h in H && m[h].free :: End(m, h) < fx && !m[End(m, h)].free)
    && (forall h <- H :: m[h].free ==> !m[h].saved)
    && (forall h <- H :: !m[h].free ==> m[h].link == h)
  }

  ghost predicate LastOk(m: seq<Unit>, H: set<nat>, fx: nat, lastElemOff: nat)
    requires Inside(m, H, fx)
  {
    if fx == 0 then lastElemOff == 0
    else 0 < lastElemOff && lastElemOff - 1 in H && End(m, lastElemOff - 1) == fx
  }

  // ---------- the address-ordered free list ----------

  ghost function FreeSet(m: seq<Unit>, H: set<nat>): set<nat>
    requires forall h <- H :: h < |m|
  {
    set h | h in H && m[h].free
  }

  /** The link of f leads to the next larger offset in F, and is 0 when there is none. */
  ghost predicate LinkOk(m: seq<Unit>, F: set<nat>, f: nat)
    requires f < |m|
  {
    if m[f].link == 0 then forall g <- F :: g <= f
    else f + m[f].link in F && forall g <- F :: g <= f || f + m[f].link <= g
  }

  /** From freeElemOff, the links visit exactly the offsets in F in increasing order. */
  ghost predicate FreeList(m: seq<Unit>, F: set<nat>, freeElemOff: nat)
    requires forall f <- F :: f < |m|
  {
    && (if freeElemOff == 0 then F == {} else freeElemOff - 1 in F && forall f <- F :: freeElemOff - 1 <= f)
    && (forall f {:trigger LinkOk(m, F, f)} | f in F :: LinkOk(m, F, f))
  }

  // ---------- totals ----------

  ghost function Weight(ofSaved: bool, m: seq<Unit>, H: set<nat>, i: nat): int
    requires i < |m|
  {
    if i !in H then 0
    else if ofSaved then (if m[i].saved then 1 else 0)
    else (if m[i].free then m[i].nunits else 0)
  }

  ghost function Total(ofSaved: bool, m: seq<Unit>, H: set<nat>, k: nat): int
    requires k <= |m|
  {
    if k == 0 then 0 else Total(ofSaved, m, H, k - 1) + Weight(ofSaved, m, H, k - 1)
  }

  /** The invariant that the debug checker of the source walks the block to test. */
  ghost predicate Inv(b: Blk) {
    && |b.mem| < 0x1_0000
    && Tiled(b.mem, b.hdrs, b.freeX)
    && FlagsOk(b.mem, b.hdrs, b.freeX)
    && LastOk(b.mem, b.hdrs, b.freeX, b.lastElemOff)
    && FreeList(b.mem, FreeSet(b.mem, b.hdrs), b.freeElemOff)
    && b.freeMem == Total(false, b.mem, b.hdrs, |b.mem|)
    && b.nsaved == Total(true, b.mem, b.hdrs, |b.mem|)
  }

  lemma {:induction false} TotalFrame(ofSaved: bool, m: seq<Unit>, H: set<nat>, m': seq<Unit>, H': set<nat>, k: nat)
    requires k <= |m| == |m'|
    requires forall i: nat | i < k :: Weight(ofSaved, m', H', i) == Weight(ofSaved, m, H, i)
    ensures Total(ofSaved, m', H', k) == Total(ofSaved, m, H, k)
  {
    if k == 0 {
    } else {
      TotalFrame(ofSaved, m, H, m', H', k - 1);
    }
  }

  /** Two weight functions that differ at most at x and y have totals that differ by exactly that. */
  lemma {:induction false} TotalDelta(ofSaved: bool, m: seq<Unit>, H: set<nat>, m': seq<Unit>, H': set<nat>, k: nat, x: nat, y: nat)
    requires k <= |m| == |m'| && x != y
    requires forall i: nat | i < k && i != x && i != y :: Weight(ofSaved, m', H', i) == Weight(ofSaved, m, H, i)
    ensures Total(ofSaved, m', H', k) == Total(ofSaved, m, H, k)
      + (if x < k then Weight(ofSaved, m', H', x) - Weight(ofSaved, m, H, x) else 0)
      + (if y < k then Weight(ofSaved, m', H', y) - Weight(ofSaved, m, H, y) else 0)
  {
    if k == 0 {
    } else {
      TotalDelta(ofSaved, m, H, m', H', k - 1, x, y);
    }
  }

  lemma {:induction false} TotalAtLeast(m: seq<Unit>, H: set<nat>, k: nat)
    requires k <= |m|
    ensures 0 <= Total(false, m, H, k) && forall h: nat :: h < k && h in H && m[h].free ==> m[h].nunits <= Total(false, m, H, k)
  {
    if k == 0 {
    } else {
      TotalAtLeast(m, H, k - 1);
    }
  }

  /** h is the first free element, in address order, with room for n units. */
  ghost predicate FitsFirst(b: Blk, h: nat, n: nat) {
    && h in b.hdrs && h < |b.mem| && b.mem[h].free && n <= b.mem[h].nunits
    && forall g <- b.hdrs :: g < h && b.mem[g].free ==> b.mem[g].nunits < n
  }

  /** An allocation of n units is served by the free element h of block b.  (For n == 0 an element
      that has any units is freed again, src/memheap.c:677 with 1324-1328, so only an empty one
      serves.) */
  ghost predicate Serves(b: Blk, h: nat, n: nat) {
    FitsFirst(b, h, n) && (n == 0 ==> b.mem[h].nunits == 0)
  }

  ghost predicate NoneServes(b: Blk, n: nat) {
    forall h: nat :: !Serves(b, h, n)
  }

  /** Where none serves no free element is large enough; of no units, none is the first and empty. */
  lemma {:induction false} NoneLarge(b: Blk, n: nat, h: nat)
    requires NoneServes(b, n) && h in b.hdrs && h < |b.mem| && b.mem[h].free
    ensures 0 < n ==> b.mem[h].nunits < n
    ensures n == 0 ==> 0 < b.mem[h].nunits || exists f :: f in b.hdrs && f < h && b.mem[f].free
    decreases h
  {
    assert !Serves(b, h, n);
    if 0 < n {
      forall g | g in b.hdrs && g < h && b.mem[g].free ensures b.mem[g].nunits < n { NoneLarge(b, n, g); }
    }
  }

  /** The size of an element of len units cut down for n: it stays whole if no more than a header
      would be left over. */
  function CutTo(len: nat, n: nat): nat {
    if len - n > 1 then n else len
  }

  ghost predicate NoneFits(b: Blk, n: nat) {
    forall g <- b.hdrs :: g < |b.mem| && b.mem[g].free ==> b.mem[g].nunits < n
  }

  /** The test on freeMem that spares the search, src/memheap.c:641, never skips an element that fits. */
  lemma SmallFreeMem(b: Blk, n: nat)
    requires Inv(b) && b.freeMem < n
    ensures NoneFits(b, n)
  {
    TotalAtLeast(b.mem, b.hdrs, |b.mem|);
  }

  // ---------- live payloads ----------

  ghost function Payload(m: seq<Unit>, h: nat): seq<Unit>
    requires h < |m| && End(m, h) <= |m|
  {
    m[h + 1..End(m, h)]
  }

  /** What the callers of the allocator own: each live element's header offset with its payload. */
  ghost function Store(m: seq<Unit>, H: set<nat>, fx: nat): map<nat, seq<Unit>>
    requires Inside(m, H, fx)
  {
    map h | h in H && !m[h].free :: Payload(m, h)
  }

  /** h is live in both blocks, with the same payload, or in neither. */
  ghost predicate SameLive(m: seq<Unit>, H: set<nat>, fx: nat, m': seq<Unit>, H': set<nat>, fx': nat, h: nat)
    requires Inside(m, H, fx) && Inside(m', H', fx')
  {
    && (h in H && !m[h].free <==> h in H' && !m'[h].free)
    && (h in H && !m[h].free ==> Payload(m', h) == Payload(m, h))
  }

  /** The live elements in s are marked saved as they were. */
  ghost predicate KeepsMarks(s: map<nat, seq<Unit>>, m: seq<Unit>, m': seq<Unit>) {
    forall h <- s :: h < |m| == |m'| && m'[h].saved == m[h].saved
  }

  lemma StoreUpdate(m: seq<Unit>, H: set<nat>, fx: nat, m': seq<Unit>, H': set<nat>, fx': nat, x: nat)
    requires Inside(m, H, fx) && Inside(m', H', fx')
    requires forall h: nat :: h != x ==> SameLive(m, H, fx, m', H', fx', h)
    ensures Store(m', H', fx') == if x in H' && !m'[x].free then Store(m, H, fx)[x := Payload(m', x)] else Store(m, H, fx) - {x}
  {
    forall h: nat | h != x ensures h in Store(m', H', fx') <==> h in Store(m, H, fx) { assert SameLive(m, H, fx, m', H', fx', h); }
    forall h: nat | h != x && h in Store(m, H, fx) ensures Store(m', H', fx')[h] == Store(m, H, fx)[h] { assert SameLive(m, H, fx, m', H', fx', h); }
  }

  // ---------- edits that keep the tiling ----------

  /** Headers keep the two fields that place them. */
  ghost predicate SameTags(m: seq<Unit>, m': seq<Unit>, h: nat) {
    h < |m| == |m'| && m'[h].nunits == m[h].nunits && m'[h].prevOff == m[h].prevOff
  }

  /** No two elements end at the same place. */
  lemma SameEnd(m: seq<Unit>, H: set<nat>, fx: nat, a: nat, b: nat)
    requires Tiled(m, H, fx) && a in H && b in H
    ensures End(m, a) == End(m, b) ==> a == b
  {
    assert a < b ==> End(m, a) <= b;
    assert b < a ==> End(m, b) <= a;
  }

  lemma TiledFrame(m: seq<Unit>, H: set<nat>, fx: nat, m': seq<Unit>)
    requires Tiled(m, H, fx) && |m'| == |m| && forall h <- H :: SameTags(m, m', h)
    ensures Tiled(m', H, fx)
  {
    forall h | h in H ensures End(m', h) == End(m, h) <= fx && Prev(m', h) == Prev(m, h) { assert SameTags(m, m', h); }
    assert Inside(m', H, fx);
    forall h | h in H && End(m', h) < fx ensures End(m', h) in H && m'[End(m', h)].prevOff == m'[h].nunits + 1 {
      assert SameTags(m, m', End(m, h));
    }
    forall h | h in H && 0 < h ensures 0 <= Prev(m', h) < h && Prev(m', h) in H && End(m', Prev(m', h)) == h {
      assert Prev(m', h) == Prev(m, h);
    }
    assert 0 in H ==> SameTags(m, m', 0);
    forall a, b | a in H && b in H && a < b ensures End(m', a) <= b { assert End(m, a) <= b; }
  }

  /** A new element placed at freeX. */
  lemma TiledAppend(m: seq<Unit>, H: set<nat>, fx: nat, m': seq<Unit>, l: nat)
    requires Tiled(m, H, fx) && |m'| == |m| && fx < |m| && End(m', fx) <= |m|
    requires if fx == 0 then m'[fx].prevOff == 0 else l in H && End(m, l) == fx && m'[fx].prevOff == fx - l
    requires forall h <- H :: SameTags(m, m', h)
    ensures Tiled(m', H + {fx}, End(m', fx))
  {
    var H', fx' := H + {fx}, End(m', fx);
    forall h | h in H ensures End(m', h) == End(m, h) <= fx { assert SameTags(m, m', h); }
    assert Inside(m', H', fx');
    AppendForward(m, H, fx, m', l);
    AppendBackward(m, H, fx, m', l);
    forall a, b | a in H' && b in H' && a < b ensures End(m', a) <= b {
      assert a in H && End(m', a) == End(m, a);
    }
  }

  lemma AppendForward(m: seq<Unit>, H: set<nat>, fx: nat, m': seq<Unit>, l: nat)
    requires Tiled(m, H, fx) && |m'| == |m| && fx < |m|
    requires fx != 0 ==> l in H && End(m, l) == fx && m'[fx].prevOff == fx - l
    requires forall h <- H :: SameTags(m, m', h)
    ensures forall h {:trigger End(m', h)} | h in H :: End(m', h) in H + {fx} && m'[End(m', h)].prevOff == m'[h].nunits + 1
  {
    forall h | h in H ensures End(m', h) in H + {fx} && m'[End(m', h)].prevOff == m'[h].nunits + 1 {
      assert SameTags(m, m', h) && End(m', h) == End(m, h) <= fx;
      if End(m, h) == fx { SameEnd(m, H, fx, h, l); } else { assert SameTags(m, m', End(m, h)); }
    }
  }

  lemma AppendBackward(m: seq<Unit>, H: set<nat>, fx: nat, m': seq<Unit>, l: nat)
    requires Tiled(m, H, fx) && |m'| == |m| && fx < |m|
    requires fx != 0 ==> l in H && End(m, l) == fx && m'[fx].prevOff == fx - l
    requires forall h <- H :: SameTags(m, m', h)
    ensures forall h {:trigger Prev(m', h)} | h in H + {fx} && 0 < h :: 0 <= Prev(m', h) < h && Prev(m', h) in H && End(m', Prev(m', h)) == h
    ensures 0 < fx ==> m'[0].prevOff == 0
  {
    forall h | h in H + {fx} && 0 < h ensures 0 <= Prev(m', h) < h && Prev(m', h) in H && End(m', Prev(m', h)) == h {
      if h != fx { assert SameTags(m, m', h) && Prev(m', h) == Prev(m, h); assert SameTags(m, m', Prev(m, h)); }
      else { assert SameTags(m, m', l); }
    }
    assert 0 < fx ==> SameTags(m, m', 0);
  }

  /** The last element taken away. */
  lemma TiledDropLast(m: seq<Unit>, H: set<nat>, fx: nat, l: nat)
    requires Tiled(m, H, fx) && l in H && End(m, l) == fx
    ensures Tiled(m, H - {l}, l)
  {
    var H' := H - {l};
    forall h | h in H' ensures h < l && End(m, h) <= l {
      assert End(m, l) == fx;
    }
    assert Inside(m, H', l);
    forall h | h in H' && 0 < h ensures 0 <= Prev(m, h) < h && Prev(m, h) in H' && End(m, Prev(m, h)) == h {}
    if 0 < l { assert Prev(m, l) in H'; assert End(m, 0) <= l; }
  }

  /** The last element given another size. */
  lemma TiledResizeLast(m: seq<Unit>, H: set<nat>, fx: nat, m': seq<Unit>, l: nat)
    requires Tiled(m, H, fx) && l in H && End(m, l) == fx
    requires |m'| == |m| && End(m', l) <= |m| && m'[l].prevOff == m[l].prevOff
    requires forall h <- H :: h != l ==> SameTags(m, m', h)
    ensures Tiled(m', H, End(m', l))
  {
    var fx' := End(m', l);
    forall h | h in H ensures h <= l && (h != l ==> End(m', h) == End(m, h) <= l) && Prev(m', h) == Prev(m, h) {
      assert End(m, l) == fx;
      assert h < l ==> End(m, h) <= l && SameTags(m, m', h);
    }
    assert Inside(m', H, fx');
    forall h | h in H && 0 < h ensures 0 <= Prev(m', h) < h && Prev(m', h) in H && End(m', Prev(m', h)) == h {
      assert Prev(m', h) == Prev(m, h);
    }
    forall h | h in H && End(m', h) < fx' ensures End(m', h) in H && m'[End(m', h)].prevOff == m'[h].nunits + 1 {
      assert h != l && End(m, h) == End(m', h);
      assert Prev(m', End(m, h)) == Prev(m, End(m, h));
    }
    forall a, b | a in H && b in H && a < b ensures End(m', a) <= b { assert End(m, a) <= b; }
  }

  /** The headers left when everything between x and e becomes one element. */
  ghost function Without(H: set<nat>, x: nat, e: nat): set<nat> {
    set g | g in H && !(x < g < e)
  }

  /** The elements from x up to the header e become one. */
  lemma TiledMerge(m: seq<Unit>, H: set<nat>, fx: nat, m': seq<Unit>, x: nat, e: nat)
    requires Tiled(m, H, fx) && x in H && e in H && x < e
    requires |m'| == |m| && End(m', x) == e && m'[x].prevOff == m[x].prevOff
    requires m'[e].prevOff == e - x && m'[e].nunits == m[e].nunits
    requires forall h <- H :: h < x || e < h ==> SameTags(m, m', h)
    ensures Tiled(m', Without(H, x, e), fx)
  {
    var H' := Without(H, x, e);
    forall h | h in H' && h != x ensures End(m', h) == End(m, h) && (h < x ==> End(m, h) <= x) && (h < e ==> End(m, h) <= e) {
      assert h != e ==> SameTags(m, m', h);
    }
    assert Inside(m', H', fx);
    forall a, b | a in H' && b in H' && a < b ensures End(m', a) <= b { if a != x { assert End(m, a) <= b; } }
    MergeForward(m, H, fx, m', x, e);
    MergeBackward(m, H, fx, m', x, e);
  }

  lemma MergeForward(m: seq<Unit>, H: set<nat>, fx: nat, m': seq<Unit>, x: nat, e: nat)
    requires Tiled(m, H, fx) && x in H && e in H && x < e
    requires |m'| == |m| && End(m', x) == e && m'[x].prevOff == m[x].prevOff
    requires m'[e].prevOff == e - x && m'[e].nunits == m[e].nunits
    requires forall h <- H :: h < x || e < h ==> SameTags(m, m', h)
    ensures forall h {:trigger End(m', h)} | h in Without(H, x, e) && End(m', h) < fx ::
              End(m', h) in Without(H, x, e) && m'[End(m', h)].prevOff == m'[h].nunits + 1
  {
    forall h | h in Without(H, x, e) && End(m', h) < fx
      ensures End(m', h) in Without(H, x, e) && m'[End(m', h)].prevOff == m'[h].nunits + 1
    {
      if h != x {
        assert h != e ==> SameTags(m, m', h);
        var g := End(m, h);
        assert g in H && (h < x ==> g <= x);
        assert g < x || e < g ==> SameTags(m, m', g);
      }
    }
  }

  lemma MergeBackward(m: seq<Unit>, H: set<nat>, fx: nat, m': seq<Unit>, x: nat, e: nat)
    requires Tiled(m, H, fx) && x in H && e in H && x < e
    requires |m'| == |m| && End(m', x) == e && m'[x].prevOff == m[x].prevOff
    requires m'[e].prevOff == e - x && m'[e].nunits == m[e].nunits
    requires forall h <- H :: h < x || e < h ==> SameTags(m, m', h)
    ensures 0 in H && m'[0].prevOff == 0
    ensures forall h {:trigger Prev(m', h)} | h in Without(H, x, e) && 0 < h ::
              0 <= Prev(m', h) < h && Prev(m', h) in Without(H, x, e) && End(m', Prev(m', h)) == h
  {
    assert 0 < x ==> SameTags(m, m', 0);
    forall h | h in Without(H, x, e) && 0 < h
      ensures 0 <= Prev(m', h) < h && Prev(m', h) in Without(H, x, e) && End(m', Prev(m', h)) == h
    {
      if h != e {
        assert h != x ==> SameTags(m, m', h);
        var g := Prev(m, h);
        assert Prev(m', h) == g && g in H && End(m, g) == h;
        assert e < h ==> e <= g;
        assert g != e ==> SameTags(m, m', g);
      }
    }
  }

  /** What cutting element a at n units does to the fields that place headers. */
  ghost predicate CutTags(m: seq<Unit>, H: set<nat>, fx: nat, m': seq<Unit>, a: nat, n: nat) {
    && (forall h <- H :: h < |m|) && a in H && n < m[a].nunits
    && |m'| == |m| && End(m, a) <= fx <= |m| && m'[a].nunits == n && m'[a].prevOff == m[a].prevOff
    && m'[a + 1 + n].nunits == m[a].nunits - n - 1 && m'[a + 1 + n].prevOff == n + 1
    && (End(m, a) < fx ==> m'[End(m, a)].prevOff == m[a].nunits - n && m'[End(m, a)].nunits == m[End(m, a)].nunits)
    && (forall h <- H :: h != a && h != End(m, a) ==> SameTags(m, m', h))
  }

  /** Element a is cut: it keeps n units and a new element starts right after them. */
  lemma TiledSplit(m: seq<Unit>, H: set<nat>, fx: nat, m': seq<Unit>, a: nat, n: nat)
    requires Tiled(m, H, fx) && CutTags(m, H, fx, m', a, n)
    ensures a + 1 + n !in H
    ensures Tiled(m', H + {a + 1 + n}, fx)
  {
    SplitApart(m, H, fx, m', a, n);
    SplitForward(m, H, fx, m', a, n);
    SplitBackward(m, H, fx, m', a, n);
    hide Apart, CutTags;
    assert Linked(m', H + {a + 1 + n}, fx);
  }

  lemma SplitApart(m: seq<Unit>, H: set<nat>, fx: nat, m': seq<Unit>, a: nat, n: nat)
    requires Inside(m, H, fx) && Apart(m, H, fx) && CutTags(m, H, fx, m', a, n)
    ensures a + 1 + n !in H
    ensures Inside(m', H + {a + 1 + n}, fx) && Apart(m', H + {a + 1 + n}, fx)
  {
    var c, d := a + 1 + n, End(m, a);
    var H' := H + {c};
    forall h | h in H && h != a ensures End(m', h) == End(m, h) { if h != d { assert SameTags(m, m', h); } }
    assert End(m', a) == c && End(m', c) == d;
    assert Inside(m', H', fx);
    forall x, y | x in H' && y in H' && x < y ensures End(m', x) <= y {
      if x == c { assert End(m, a) <= y; }
      else if x != a { if y == c { assert x < a; assert End(m, x) <= a; } else { assert End(m, x) <= y; } }
      else { assert y != c ==> End(m, a) <= y; }
    }
  }

  lemma SplitForward(m: seq<Unit>, H: set<nat>, fx: nat, m': seq<Unit>, a: nat, n: nat)
    requires Tiled(m, H, fx) && CutTags(m, H, fx, m', a, n)
    ensures forall h {:trigger End(m', h)} | h in H + {a + 1 + n} && End(m', h) < fx ::
              End(m', h) in H + {a + 1 + n} && m'[End(m', h)].prevOff == m'[h].nunits + 1
  {
    var c, d := a + 1 + n, End(m, a);
    forall h | h in H + {c} && End(m', h) < fx ensures End(m', h) in H + {c} && m'[End(m', h)].prevOff == m'[h].nunits + 1 {
      if h != a && h != c {
        SameEnd(m, H, fx, h, a);
        if h != d { assert SameTags(m, m', h); }
        assert End(m, h) != a ==> SameTags(m, m', End(m, h));
      }
    }
  }

  lemma SplitBackward(m: seq<Unit>, H: set<nat>, fx: nat, m': seq<Unit>, a: nat, n: nat)
    requires Tiled(m, H, fx) && CutTags(m, H, fx, m', a, n)
    ensures m'[0].prevOff == 0
    ensures forall h {:trigger Prev(m', h)} | h in H + {a + 1 + n} && 0 < h ::
              0 <= Prev(m', h) < h && Prev(m', h) in H + {a + 1 + n} && End(m', Prev(m', h)) == h
  {
    var H' := H + {a + 1 + n};
    assert 0 in H && m[0].prevOff == 0 && (0 != a ==> SameTags(m, m', 0));
    hide Linked, Apart;
    forall h | h in H' && 0 < h ensures 0 <= Prev(m', h) < h && Prev(m', h) in H' && End(m', Prev(m', h)) == h {
      SplitPrev(m, H, fx, m', a, n, h);
    }
  }

  lemma SplitPrev(m: seq<Unit>, H: set<nat>, fx: nat, m': seq<Unit>, a: nat, n: nat, h: nat)
    requires Tiled(m, H, fx) && CutTags(m, H, fx, m', a, n) && h in H + {a + 1 + n} && 0 < h
    ensures 0 <= Prev(m', h) < h && Prev(m', h) in H + {a + 1 + n} && End(m', Prev(m', h)) == h
  {
    var c, d := a + 1 + n, End(m, a);
    if h == c {
      assert Prev(m', h) == a;
    } else if h == d {
      assert Prev(m', h) == c;
    } else {
      var g := Prev(m, h);
      assert h != a ==> SameTags(m, m', h);
      assert Prev(m', h) == g && g != a;
      assert g != d ==> SameTags(m, m', g);
    }
  }

  // ---------- edits that keep the free list ----------

  lemma FreeListFrame(m: seq<Unit>, F: set<nat>, first: nat, m': seq<Unit>)
    requires (forall f <- F :: f < |m|) && FreeList(m, F, first)
    requires |m'| == |m| && forall f <- F :: m'[f].link == m[f].link
    ensures FreeList(m', F, first)
  {
    forall f | f in F ensures LinkOk(m', F, f) { assert LinkOk(m, F, f); }
  }

  /** x becomes the first free element. */
  lemma FreeListPushFront(m: seq<Unit>, F: set<nat>, first: nat, m': seq<Unit>, x: nat)
    requires (forall f <- F :: f < |m| && x < f) && FreeList(m, F, first)
    requires x < |m| == |m'| && forall f <- F :: m'[f].link == m[f].link
    requires m'[x].link == if first == 0 then 0 else first - 1 - x
    ensures FreeList(m', F + {x}, x + 1)
  {
    forall f | f in F + {x} ensures LinkOk(m', F + {x}, f) { if f != x { assert LinkOk(m, F, f); } }
  }

  /** c takes the place of the free elements in D, which come right after it; p, when found, is
      the free element before c. */
  lemma FreeListPlace(m: seq<Unit>, F: set<nat>, first: nat, m': seq<Unit>, D: set<nat>, first': nat, found: bool, p: nat, c: nat)
    requires (forall f <- F :: f < |m|) && FreeList(m, F, first) && c < |m| == |m'| && c !in F && D <= F
    requires if found then p in F && p < c && (forall f <- F :: f <= p || c < f) && m'[p].link == c - p && first' == first
             else (forall f <- F :: c < f) && first' == c + 1
    requires forall d <- D :: c < d && forall f <- F :: f in D || f < c || d < f
    requires forall f <- F :: f !in D && !(found && f == p) ==> m'[f].link == m[f].link
    requires LinkOk(m', F - D + {c}, c)
    ensures FreeList(m', F - D + {c}, first')
  {
    var F' := F - D + {c};
    forall f | f in F' ensures LinkOk(m', F', f) {
      if f != c {
        assert LinkOk(m, F, f);
        if found && f == p { } else { FreeLinkKept(m, F, m', F', D, found, p, c, f); }
      }
    }
  }

  lemma FreeLinkKept(m: seq<Unit>, F: set<nat>, m': seq<Unit>, F': set<nat>, D: set<nat>, found: bool, p: nat, c: nat, f: nat)
    requires f in F && f !in D && f < |m| == |m'| && LinkOk(m, F, f) && m'[f].link == m[f].link
    requires F' == F - D + {c}
    requires if found then p in F && p < c && f != p && (f <= p || c < f) && p !in D else c < f
    requires forall d <- D :: c < d && (f < c || d < f)
    ensures LinkOk(m', F', f)
  {
  }

  /** x goes into the list right after p. */
  lemma FreeListInsertAfter(m: seq<Unit>, F: set<nat>, first: nat, m': seq<Unit>, p: nat, x: nat)
    requires (forall f <- F :: f < |m| && (f <= p || x < f)) && FreeList(m, F, first)
    requires p in F && p < x < |m| == |m'| && forall f <- F :: f != p ==> m'[f].link == m[f].link
    requires m'[p].link == x - p
    requires m'[x].link == if m[p].link == 0 then 0 else p + m[p].link - x
    ensures FreeList(m', F + {x}, first)
  {
    assert LinkOk(m, F, p);
    assert F - {} + {x} == F + {x};
    FreeListPlace(m, F, first, m', {}, first, true, p, x);
  }

  /** The first free element leaves the list. */
  lemma FreeListPopFront(m: seq<Unit>, F: set<nat>, first: nat, m': seq<Unit>)
    requires (forall f <- F :: f < |m|) && FreeList(m, F, first) && 0 < first
    requires |m'| == |m| && forall f <- F :: f != first - 1 ==> m'[f].link == m[f].link
    ensures FreeList(m', F - {first - 1}, if m[first - 1].link == 0 then 0 else first + m[first - 1].link)
  {
    var x := first - 1;
    assert LinkOk(m, F, x);
    forall f | f in F - {x} ensures LinkOk(m', F - {x}, f) { assert LinkOk(m, F, f); }
    if m[x].link == 0 { assert F - {x} == {}; }
  }

  /** The element x after p leaves the list. */
  lemma FreeListRemoveNext(m: seq<Unit>, F: set<nat>, first: nat, m': seq<Unit>, p: nat, x: nat)
    requires (forall f <- F :: f < |m|) && FreeList(m, F, first)
    requires p in F && p < x && p + m[p].link == x
    requires |m'| == |m| && forall f <- F :: f != p && f != x ==> m'[f].link == m[f].link
    requires LinkOk(m, F, p)
    requires m'[p].link == if m[x].link == 0 then 0 else x + m[x].link - p
    ensures x in F && FreeList(m', F - {x}, first)
  {
    assert LinkOk(m, F, x);
    forall f | f in F - {x} ensures LinkOk(m', F - {x}, f) { assert LinkOk(m, F, f); }
  }

  // ---------- an element put at the end ----------

  /** How the headers of m' differ from those of m after an element was put at fx, behind l. */
  ghost predicate AppendEdit(m: seq<Unit>, H: set<nat>, fx: nat, m': seq<Unit>, l: nat) {
    && fx < |m| == |m'| && End(m', fx) <= |m|
    && fx !in H && (forall h <- H :: h < fx)
    && (if fx == 0 then m'[fx].prevOff == 0
        else l in H && End(m, l) == fx && m'[l] == m[l].(last := false) && m'[fx].prevOff == fx - l)
    && m'[fx].last && !m'[fx].free && !m'[fx].saved && m'[fx].link == fx
    && (forall u | 0 <= u < |m| && u != l && u != fx :: m'[u] == m[u])
  }

  lemma AppendTiled(m: seq<Unit>, H: set<nat>, fx: nat, m': seq<Unit>, l: nat)
    requires Tiled(m, H, fx) && AppendEdit(m, H, fx, m', l)
    ensures Tiled(m', H + {fx}, End(m', fx))
  {
    forall h | h in H ensures SameTags(m, m', h) {}
    TiledAppend(m, H, fx, m', l);
  }

  lemma AppendFlags(m: seq<Unit>, H: set<nat>, fx: nat, m': seq<Unit>, l: nat)
    requires Tiled(m, H, fx) && FlagsOk(m, H, fx) && AppendEdit(m, H, fx, m', l)
    requires Inside(m', H + {fx}, End(m', fx))
    ensures FlagsOk(m', H + {fx}, End(m', fx))
    ensures FreeSet(m', H + {fx}) == FreeSet(m, H)
  {
    forall h | h in H
      ensures End(m', h) == End(m, h) <= fx && !m'[h].last && m'[h].free == m[h].free
      ensures m'[h].free ==> End(m', h) != fx && !m'[End(m', h)].free
    {
      SameEnd(m, H, fx, h, l);
    }
  }

  lemma AppendTotals(m: seq<Unit>, H: set<nat>, fx: nat, m': seq<Unit>, l: nat)
    requires AppendEdit(m, H, fx, m', l)
    ensures forall k :: Total(k, m', H + {fx}, |m|) == Total(k, m, H, |m|)
  {
    forall k ensures Total(k, m', H + {fx}, |m|) == Total(k, m, H, |m|) { TotalFrame(k, m, H, m', H + {fx}, |m|); }
  }

  lemma AppendStore(m: seq<Unit>, H: set<nat>, fx: nat, m': seq<Unit>, l: nat)
    requires Tiled(m, H, fx) && AppendEdit(m, H, fx, m', l)
    requires Inside(m', H + {fx}, End(m', fx))
    ensures Store(m', H + {fx}, End(m', fx)) == Store(m, H, fx)[fx := Payload(m', fx)]
  {
    forall h: nat | h != fx ensures SameLive(m, H, fx, m', H + {fx}, End(m', fx), h) {
      if h in H {
        assert End(m, h) == End(m', h) <= fx;
        assert fx != 0 && l > h ==> End(m, h) <= l;
      }
    }
    StoreUpdate(m, H, fx, m', H + {fx}, End(m', fx), fx);
  }

  // ---------- the last element, and a free element before it, taken away ----------

  /** l becomes the last element of m', where q may also have lost its link. */
  ghost predicate DropEdit(m: seq<Unit>, m': seq<Unit>, l: nat, q: nat) {
    && |m'| == |m| && l < |m| && q < |m|
    && (forall u | 0 <= u < |m| && u != l && u != q :: m'[u] == m[u])
    && m'[l] == m[l].(last := true)
    && (q != l ==> m'[q] == m[q].(link := 0))
  }

  /** Headers below fx' keep their place when the rest of the block is given up. */
  lemma DropTiled(m: seq<Unit>, H: set<nat>, fx: nat, m': seq<Unit>, l: nat, q: nat)
    requires Tiled(m, H, fx) && DropEdit(m, m', l, q)
    ensures Tiled(m', H, fx)
  {
    forall h | h in H ensures End(m', h) == End(m, h) <= fx && Prev(m', h) == Prev(m, h) {}
    assert Inside(m', H, fx);
    forall h | h in H && 0 < h ensures 0 <= Prev(m', h) < h && Prev(m', h) in H && End(m', Prev(m', h)) == h {
      assert Prev(m', h) == Prev(m, h);
    }
    forall h | h in H && End(m', h) < fx ensures End(m', h) in H && m'[End(m', h)].prevOff == m'[h].nunits + 1 {
      assert End(m', h) == End(m, h);
    }
    forall a, b | a in H && b in H && a < b ensures End(m', a) <= b { assert End(m, a) <= b; }
  }

  lemma DropFlags(m: seq<Unit>, H: set<nat>, fx: nat, m': seq<Unit>, H': set<nat>, fx': nat, l: nat, q: nat)
    requires Tiled(m, H, fx) && FlagsOk(m, H, fx) && Tiled(m', H', fx') && H' <= H && fx' < fx
    requires DropEdit(m, m', l, q) && l in H' && End(m, l) == fx' && !m[l].free && (q != l ==> q in H && m[q].free)
    ensures FlagsOk(m', H', fx')
  {
    forall h | h in H'
      ensures m'[h].last <==> End(m', h) == fx'
      ensures m'[h].free ==> End(m', h) < fx' && !m'[End(m', h)].free
    {
      assert End(m', h) == End(m, h) <= fx';
      SameEnd(m, H, fx, h, l);
    }
  }

  lemma DropStore(m: seq<Unit>, H: set<nat>, fx: nat, m': seq<Unit>, H': set<nat>, fx': nat, h: nat, l: nat, q: nat)
    requires Tiled(m, H, fx) && Inside(m', H', fx') && DropEdit(m, m', l, q) && l in H && q in H
    requires h in H && !m[h].free && H' <= H - {h} && forall g | g in H - H' :: g == h || m[g].free
    ensures Store(m', H', fx') == Store(m, H, fx) - {h}
  {
    forall g: nat | g != h ensures SameLive(m, H, fx, m', H', fx', g) {
      if g in H && !m[g].free {
        assert End(m', g) == End(m, g);
        assert g < l ==> End(m, g) <= l;
        assert g < q ==> End(m, g) <= q;
      }
    }
    StoreUpdate(m, H, fx, m', H', fx', h);
  }

  lemma {:induction false} TotalEmpty(ofSaved: bool, m: seq<Unit>, k: nat)
    requires k <= |m|
    ensures Total(ofSaved, m, {}, k) == 0
  {
    if k == 0 {
    } else {
      TotalEmpty(ofSaved, m, k - 1);
    }
  }

  /** Dropping a live, unsaved element changes no total; dropping a free one gives up its units. */
  lemma DropTotals(m: seq<Unit>, H: set<nat>, m': seq<Unit>, h: nat, l: nat, q: nat)
    requires (forall g <- H :: g < |m|) && DropEdit(m, m', l, q) && h in H && !m[h].saved
    ensures Total(true, m', H - {h}, |m|) == Total(true, m, H, |m|)
    ensures Total(false, m', H - {h}, |m|) == Total(false, m, H, |m|) - (if m[h].free then m[h].nunits else 0)
  {
    TotalFrame(true, m, H, m', H - {h}, |m|);
    if m[h].free {
      TotalDelta(false, m, H, m', H - {h}, |m|, h, |m|);
    } else {
      TotalFrame(false, m, H, m', H - {h}, |m|);
    }
  }

  /** What the boundary tags of the last element say. */
  lemma LastFacts(b: Blk, h: nat)
    requires Inv(b) && h in b.hdrs && b.mem[h].last
    ensures End(b.mem, h) == b.freeX && (forall g <- b.hdrs :: g <= h)
    ensures b.mem[h].prevOff == 0 <==> h == 0
    ensures 0 < h ==> 0 <= Prev(b.mem, h) < h && Prev(b.mem, h) in b.hdrs && End(b.mem, Prev(b.mem, h)) == h
  {
    assert End(b.mem, h) == b.freeX;
    if 0 < h { assert Prev(b.mem, h) in b.hdrs; }
  }

  /** The block after its last element, which follows a live one, is gone. */
  lemma DropKeeps(b: Blk, h: nat, c: Blk, l: nat)
    requires Inv(b) && h in b.hdrs && b.mem[h].last && !b.mem[h].free && !b.mem[h].saved
    requires l == Prev(b.mem, h) < h && !b.mem[l].free
    requires c == b.(mem := b.mem[l := b.mem[l].(last := true)], hdrs := b.hdrs - {h}, freeX := h, lastElemOff := l + 1)
    ensures Inv(c) && Store(c.mem, c.hdrs, c.freeX) == Store(b.mem, b.hdrs, b.freeX) - {h}
  {
    hide Linked, Apart, FlagsOk, FreeList, Total;
    LastFacts(b, h);
    assert DropEdit(b.mem, c.mem, l, l);
    TiledDropLast(b.mem, b.hdrs, b.freeX, h);
    DropTiled(b.mem, b.hdrs - {h}, h, c.mem, l, l);
    DropFlags(b.mem, b.hdrs, b.freeX, c.mem, c.hdrs, h, l, l);
    DropTotals(b.mem, b.hdrs, c.mem, h, l, l);
    DropStore(b.mem, b.hdrs, b.freeX, c.mem, c.hdrs, h, h, l, l);
    assert FreeSet(c.mem, c.hdrs) == FreeSet(b.mem, b.hdrs);
    FreeListFrame(b.mem, FreeSet(b.mem, b.hdrs), b.freeElemOff, c.mem);
  }

  /** A free element before the last one is the end of the free list, and is not the first
      element's neighbour only if the block is about to become empty. */
  lemma FreeBeforeLast(b: Blk, h: nat, p: nat)
    requires Inv(b) && h in b.hdrs && b.mem[h].last && p == Prev(b.mem, h) < h && b.mem[p].free
    ensures p in b.hdrs && End(b.mem, p) == h && p in FreeSet(b.mem, b.hdrs)
    ensures (forall g <- b.hdrs :: g <= p || g == h) && b.mem[p].link == 0
    ensures b.mem[p].prevOff == 0 <==> p == 0
    ensures 0 < p ==> 0 <= Prev(b.mem, p) < p && Prev(b.mem, p) in b.hdrs && End(b.mem, Prev(b.mem, p)) == p && !b.mem[Prev(b.mem, p)].free
    ensures 0 < b.freeElemOff
  {
    LastFacts(b, h);
    forall g <- b.hdrs ensures g <= p || g == h { assert p < g ==> End(b.mem, p) <= g; }
    assert FlagsOk(b.mem, b.hdrs, b.freeX) && !b.mem[h].free by { assert End(b.mem, h) == b.freeX; }
    assert LinkOk(b.mem, FreeSet(b.mem, b.hdrs), p);
    if 0 < p { assert Prev(b.mem, p) in b.hdrs; }
  }

  /** The block after its last element and the free element p before it are gone. */
  lemma DropFreeKeeps(b: Blk, h: nat, p: nat, c: Blk, l: nat, q: nat)
    requires Inv(b) && h in b.hdrs && b.mem[h].last && !b.mem[h].free && !b.mem[h].saved
    requires p == Prev(b.mem, h) < h && b.mem[p].free && l == Prev(b.mem, p) < p
    requires c.hdrs == b.hdrs - {h} - {p} && c.freeX == p && c.lastElemOff == l + 1
    requires c.freeMem == b.freeMem - b.mem[p].nunits && c.nsaved == b.nsaved
    requires q in FreeSet(b.mem, b.hdrs) && DropEdit(b.mem, c.mem, l, if b.freeElemOff == p + 1 then l else q)
    requires if b.freeElemOff == p + 1 then c.freeElemOff == 0
             else c.freeElemOff == b.freeElemOff && q + b.mem[q].link == p && q < p
    ensures Inv(c) && Store(c.mem, c.hdrs, c.freeX) == Store(b.mem, b.hdrs, b.freeX) - {h}
  {
    FreeBeforeLast(b, h, p);
    var q' := if b.freeElemOff == p + 1 then l else q;
    DropFreeTiled(b, h, p, c, l, q');
    DropFlags(b.mem, b.hdrs, b.freeX, c.mem, c.hdrs, p, l, q');
    DropTotals(b.mem, b.hdrs, c.mem, h, l, q');
    DropTotals(c.mem, b.hdrs - {h}, c.mem, p, l, q');
    DropStore(b.mem, b.hdrs, b.freeX, c.mem, c.hdrs, p, h, l, q');
    DropFreeList(b, h, p, c, l, q);
  }

  lemma DropFreeTiled(b: Blk, h: nat, p: nat, c: Blk, l: nat, q: nat)
    requires Tiled(b.mem, b.hdrs, b.freeX) && h in b.hdrs && End(b.mem, h) == b.freeX && p in b.hdrs && p < h && End(b.mem, p) == h
    requires c.hdrs == b.hdrs - {h} - {p} && DropEdit(b.mem, c.mem, l, q)
    ensures Tiled(c.mem, c.hdrs, p)
  {
    TiledDropLast(b.mem, b.hdrs, b.freeX, h);
    TiledDropLast(b.mem, b.hdrs - {h}, h, p);
    DropTiled(b.mem, b.hdrs - {h} - {p}, p, c.mem, l, q);
  }

  lemma DropFreeList(b: Blk, h: nat, p: nat, c: Blk, l: nat, q: nat)
    requires (forall g <- b.hdrs :: g < |b.mem|) && FreeList(b.mem, FreeSet(b.mem, b.hdrs), b.freeElemOff)
    requires h in b.hdrs && !b.mem[h].free && p in FreeSet(b.mem, b.hdrs) && b.mem[p].link == 0
    requires c.hdrs == b.hdrs - {h} - {p} && l in b.hdrs && !b.mem[l].free
    requires q in FreeSet(b.mem, b.hdrs) && DropEdit(b.mem, c.mem, l, if b.freeElemOff == p + 1 then l else q)
    requires if b.freeElemOff == p + 1 then c.freeElemOff == 0
             else c.freeElemOff == b.freeElemOff && q + b.mem[q].link == p && q < p
    ensures FreeList(c.mem, FreeSet(c.mem, c.hdrs), c.freeElemOff)
  {
    var F := FreeSet(b.mem, b.hdrs);
    assert FreeSet(c.mem, c.hdrs) == F - {p};
    if b.freeElemOff == p + 1 {
      FreeListPopFront(b.mem, F, b.freeElemOff, c.mem);
    } else {
      assert LinkOk(b.mem, F, q);
      FreeListRemoveNext(b.mem, F, b.freeElemOff, c.mem, q, p);
    }
  }

  /** A last element with nothing before it is all there is. */
  lemma OnlyElement(b: Blk, h: nat)
    requires Inv(b) && h in b.hdrs && b.mem[h].last && h == 0 && !b.mem[h].free && !b.mem[h].saved
    ensures b.hdrs == {h} && End(b.mem, h) == b.freeX && b.freeMem == b.nsaved == 0
    ensures Store(b.mem, b.hdrs, b.freeX).Keys == {h}
  {
    LastFacts(b, h);
    TotalOnly(b.mem, b.hdrs, h, h);
  }

  /** A last element behind a free first element is all there is besides it. */
  lemma FreeAndLast(b: Blk, h: nat, p: nat)
    requires Inv(b) && h in b.hdrs && b.mem[h].last && !b.mem[h].free && !b.mem[h].saved
    requires p == Prev(b.mem, h) < h && b.mem[p].free && p == 0
    ensures b.hdrs == {h, p} && End(b.mem, p) == h && End(b.mem, h) == b.freeX && b.freeMem == b.mem[p].nunits && b.nsaved == 0
    ensures Store(b.mem, b.hdrs, b.freeX).Keys == {h}
  {
    FreeBeforeLast(b, h, p);
    LastFacts(b, h);
    TotalOnly(b.mem, b.hdrs, h, p);
  }

  /** Totals of a block whose only headers are h and p, h being live and not saved. */
  lemma TotalOnly(m: seq<Unit>, H: set<nat>, h: nat, p: nat)
    requires h < |m| && p < |m| && H == {h, p} && !m[h].free && !m[h].saved && (m[p].free ==> !m[p].saved) && (h == p || m[p].free)
    ensures Total(false, m, H, |m|) == (if m[p].free then m[p].nunits else 0) && Total(true, m, H, |m|) == 0
  {
    var y := if h == p then |m| else h;
    TotalDelta(false, m, {}, m, H, |m|, p, y);
    TotalDelta(true, m, {}, m, H, |m|, p, y);
    TotalEmpty(false, m, |m|);
    TotalEmpty(true, m, |m|);
  }

  // ---------- an element freed inside the block ----------

  /** The elements from x up to the live header e, of which only h was live, are now the free
      element x; elsewhere only links of free elements are written. */
  ghost predicate FreeEdit(m: seq<Unit>, H: set<nat>, m': seq<Unit>, h: nat, x: nat, e: nat) {
    && (forall g <- H :: g < |m|) && |m'| == |m|
    && h in H && x in H && e in H && x <= h < e && !m[h].free && !m[e].free
    && (forall g <- H :: x <= g < e && g != h ==> m[g].free)
    && (forall g <- H :: g < x && End(m, g) == x ==> !m[g].free)
    && End(m', x) == e && m'[x].prevOff == m[x].prevOff && m'[x].free && !m'[x].last && !m'[x].saved
    && m'[e] == m[e].(prevOff := m'[e].prevOff) && m'[e].prevOff == e - x
    && (forall u | 0 <= u < |m| && (u < x || e < u) ::
          m'[u] == m[u] || (u in H && m[u].free && m'[u] == m[u].(link := m'[u].link)))
  }

  lemma FreeTiled(m: seq<Unit>, H: set<nat>, fx: nat, m': seq<Unit>, h: nat, x: nat, e: nat)
    requires Tiled(m, H, fx) && FreeEdit(m, H, m', h, x, e)
    ensures Tiled(m', Without(H, x, e), fx)
  {
    forall g | g in H && (g < x || e < g) ensures SameTags(m, m', g) {}
    TiledMerge(m, H, fx, m', x, e);
  }

  lemma FreeFlags(m: seq<Unit>, H: set<nat>, fx: nat, m': seq<Unit>, h: nat, x: nat, e: nat)
    requires Tiled(m, H, fx) && FlagsOk(m, H, fx) && FreeEdit(m, H, m', h, x, e)
    requires Inside(m', Without(H, x, e), fx)
    ensures FlagsOk(m', Without(H, x, e), fx)
  {
    forall g | g in Without(H, x, e)
      ensures m'[g].last <==> End(m', g) == fx
      ensures m'[g].free ==> End(m', g) < fx && !m'[End(m', g)].free
    {
      if g != x {
        assert End(m', g) == End(m, g);
        assert g < x ==> End(m, g) <= x;
        assert End(m, g) < fx ==> End(m, g) in H;
      }
    }
  }

  lemma FreeStore(m: seq<Unit>, H: set<nat>, fx: nat, m': seq<Unit>, h: nat, x: nat, e: nat)
    requires Tiled(m, H, fx) && FreeEdit(m, H, m', h, x, e)
    requires Inside(m', Without(H, x, e), fx)
    ensures Store(m', Without(H, x, e), fx) == Store(m, H, fx) - {h}
  {
    forall g: nat | g != h ensures SameLive(m, H, fx, m', Without(H, x, e), fx, g) {
      if g in H && !m[g].free {
        assert End(m', g) == End(m, g) && (g < x ==> End(m, g) <= x);
        forall u | g < u < End(m, g) ensures m'[u] == m[u] {}
      }
    }
    StoreUpdate(m, H, fx, m', Without(H, x, e), fx, h);
  }

  /** q is the free element after h, if there is one. */
  lemma FreeTotals(m: seq<Unit>, H: set<nat>, m': seq<Unit>, h: nat, x: nat, e: nat, q: nat)
    requires FreeEdit(m, H, m', h, x, e) && !m[h].saved && q != x
    requires (forall f <- FreeSet(m, H) :: !m[f].saved) && (forall g <- H :: x < g < e ==> g == h || g == q)
    requires q < |m| ==> q in H && m[q].free && x < q < e
    ensures Total(true, m', Without(H, x, e), |m|) == Total(true, m, H, |m|)
    ensures Total(false, m', Without(H, x, e), |m|) ==
            Total(false, m, H, |m|) + e - x - 1 - (if x < h then m[x].nunits else 0) - (if q < |m| then m[q].nunits else 0)
  {
    TotalFrame(true, m, H, m', Without(H, x, e), |m|);
    TotalDelta(false, m, H, m', Without(H, x, e), |m|, x, q);
  }

  /** Only the first element has no boundary tag. */
  lemma AtStart(m: seq<Unit>, H: set<nat>, fx: nat, h: nat)
    requires Tiled(m, H, fx) && h in H && m[h].prevOff == 0
    ensures h == 0 && forall g <- H :: End(m, g) != 0
  {
    var before := Prev(m, h);
  }

  lemma PrevFacts(m: seq<Unit>, H: set<nat>, fx: nat, h: nat)
    requires Tiled(m, H, fx) && h in H && m[h].prevOff != 0
    ensures 0 <= Prev(m, h) < h && Prev(m, h) in H && End(m, Prev(m, h)) == h
    ensures forall g <- H :: End(m, g) == h ==> g == Prev(m, h)
  {
    assert 0 < h && Prev(m, h) in H && End(m, Prev(m, h)) == h;
    forall g <- H ensures End(m, g) == h ==> g == Prev(m, h) { SameEnd(m, H, fx, g, Prev(m, h)); }
  }

  /** What becoming free, alone or as part of the free element x before it, does to h. */
  ghost predicate BackEdit(m: seq<Unit>, F: set<nat>, m': seq<Unit>, h: nat, x: nat) {
    && |m'| == |m| && h < |m| && x < |m|
    && m'[x].free && !m'[x].last && !m'[x].saved && m'[x].prevOff == m[x].prevOff
    && End(m', x) == End(m, h)
    && (forall u | 0 <= u < |m| && u != h && u != x :: m'[u] == m[u] || (u in F && m'[u] == m[u].(link := m'[u].link)))
  }

  /** x reaches up to e, whose boundary tag says so. */
  ghost predicate ForwardEdit(m: seq<Unit>, m': seq<Unit>, x: nat, e: nat) {
    && |m'| == |m| && x < e < |m|
    && End(m', x) == e && m'[x] == m[x].(nunits := m'[x].nunits, link := m'[x].link)
    && m'[e].prevOff == e - x && m'[e] == m[e].(prevOff := m'[e].prevOff)
    && (forall u | 0 <= u < |m| && u != x && u != e :: m'[u] == m[u])
  }

  /** Where the free element that covers h ends. */
  ghost function FreeEnd(m: seq<Unit>, h: nat): nat
    requires h < |m| && End(m, h) < |m|
  {
    if m[End(m, h)].free then End(m, End(m, h)) else End(m, h)
  }

  /** The element after an inner one, and the one after that if the first is free. */
  lemma InnerFacts(m: seq<Unit>, H: set<nat>, fx: nat, h: nat)
    requires Tiled(m, H, fx) && FlagsOk(m, H, fx) && h in H && !m[h].last
    ensures End(m, h) in H && End(m, h) < fx <= |m|
    ensures m[End(m, h)].free ==> End(m, End(m, h)) in H && End(m, End(m, h)) < fx && !m[End(m, End(m, h))].free
    ensures forall g <- H :: g <= h || End(m, h) <= g
    ensures m[End(m, h)].free ==> forall g <- H :: g <= End(m, h) || End(m, End(m, h)) <= g
  {
    var q := End(m, h);
    var e := End(m, q);
  }

  lemma FreeEdits(m: seq<Unit>, H: set<nat>, fx: nat, m1: seq<Unit>, m': seq<Unit>, h: nat, x: nat, F: set<nat>)
    requires Tiled(m, H, fx) && FlagsOk(m, H, fx) && h in H && !m[h].free && !m[h].last && F == FreeSet(m, H)
    requires x == h || (x < h && x in F && End(m, x) == h)
    requires x == h ==> forall g <- H :: End(m, g) == h ==> !m[g].free
    requires BackEdit(m, F, m1, h, x) && End(m, h) < |m| && ForwardEdit(m1, m', x, FreeEnd(m, h))
    ensures FreeEdit(m, H, m', h, x, FreeEnd(m, h))
    ensures forall g <- H :: x < g < FreeEnd(m, h) ==> g == h || g == End(m, h)
  {
    InnerFacts(m, H, fx, h);
    assert x < h ==> End(m, x) == h;
    forall g | g in H && g < x && End(m, g) == x ensures !m[g].free {}
  }

  lemma FreeKeeps(b: Blk, m1: seq<Unit>, h: nat, x: nat, c: Blk)
    requires Inv(b) && h in b.hdrs && !b.mem[h].free && !b.mem[h].last && !b.mem[h].saved
    requires x == h || (x < h && x in FreeSet(b.mem, b.hdrs) && End(b.mem, x) == h)
    requires x == h ==> forall g <- b.hdrs :: End(b.mem, g) == h ==> !b.mem[g].free
    requires BackEdit(b.mem, FreeSet(b.mem, b.hdrs), m1, h, x)
    requires End(b.mem, h) < |b.mem| && ForwardEdit(m1, c.mem, x, FreeEnd(b.mem, h))
    requires c.hdrs == Without(b.hdrs, x, FreeEnd(b.mem, h))
    requires FreeList(c.mem, FreeSet(b.mem, b.hdrs) + {x} - (if b.mem[End(b.mem, h)].free then {End(b.mem, h)} else {}), c.freeElemOff)
    requires c.freeMem == b.freeMem + FreeEnd(b.mem, h) - x - 1 - (if x < h then b.mem[x].nunits else 0)
                          - (if b.mem[End(b.mem, h)].free then b.mem[End(b.mem, h)].nunits else 0)
    requires c.freeX == b.freeX && c.lastElemOff == b.lastElemOff && c.nsaved == b.nsaved
    ensures Inv(c) && Store(c.mem, c.hdrs, c.freeX) == Store(b.mem, b.hdrs, b.freeX) - {h}
  {
    hide Linked, Apart, FlagsOk, FreeList, Total;
    var e, q := FreeEnd(b.mem, h), End(b.mem, h);
    InnerFacts(b.mem, b.hdrs, b.freeX, h);
    FreeEdits(b.mem, b.hdrs, b.freeX, m1, c.mem, h, x, FreeSet(b.mem, b.hdrs));
    FreeTiled(b.mem, b.hdrs, b.freeX, c.mem, h, x, e);
    FreeFlags(b.mem, b.hdrs, b.freeX, c.mem, h, x, e);
    FreeStore(b.mem, b.hdrs, b.freeX, c.mem, h, x, e);
    FreeAreInner(b.mem, b.hdrs, b.freeX);
    FreeTotals(b.mem, b.hdrs, c.mem, h, x, e, if b.mem[q].free then q else |b.mem|);
    FreeFreeSet(b.mem, b.hdrs, c.mem, h, x, e, q);
    FreeLast(b, c, h, x, e);
  }

  lemma FreeFreeSet(m: seq<Unit>, H: set<nat>, m': seq<Unit>, h: nat, x: nat, e: nat, q: nat)
    requires FreeEdit(m, H, m', h, x, e) && q in H && h < q <= e && (m[q].free <==> q < e)
    requires forall g <- H :: x < g < e ==> g == h || g == q
    ensures FreeSet(m', Without(H, x, e)) == FreeSet(m, H) + {x} - (if m[q].free then {q} else {})
  {
  }

  lemma FreeLast(b: Blk, c: Blk, h: nat, x: nat, e: nat)
    requires Tiled(b.mem, b.hdrs, b.freeX) && LastOk(b.mem, b.hdrs, b.freeX, b.lastElemOff)
    requires FreeEdit(b.mem, b.hdrs, c.mem, h, x, e) && c.hdrs == Without(b.hdrs, x, e) && Inside(c.mem, c.hdrs, c.freeX)
    requires c.freeX == b.freeX && c.lastElemOff == b.lastElemOff
    ensures LastOk(c.mem, c.hdrs, c.freeX, c.lastElemOff)
  {
    var l := b.lastElemOff - 1;
    assert b.freeX > 0 && l in b.hdrs && End(b.mem, l) == b.freeX;
    assert e <= l;
    assert End(c.mem, l) == End(b.mem, l);
  }

  lemma FreeAreInner(m: seq<Unit>, H: set<nat>, fx: nat)
    requires Tiled(m, H, fx) && FlagsOk(m, H, fx)
    ensures forall f <- FreeSet(m, H) :: !m[f].last && !m[f].saved
  {
    forall f | f in FreeSet(m, H) ensures !m[f].last && !m[f].saved { var e := End(m, f); }
  }

  /** After joining backwards, what lies behind x is as it lay behind h. */
  lemma ForwardReady(m: seq<Unit>, H: set<nat>, fx: nat, m1: seq<Unit>, h: nat, x: nat, F: set<nat>)
    requires Tiled(m, H, fx) && FlagsOk(m, H, fx) && h in H && !m[h].free && !m[h].last && F == FreeSet(m, H)
    requires (x == h || (x < h && x in F && End(m, x) == h)) && BackEdit(m, F, m1, h, x)
    ensures var q := End(m, h);
            && q < |m| && End(m1, x) == q && m1[q].free == m[q].free
            && (m[q].free ==> q in F && q != x && End(m1, q) == End(m, q) < |m| && !m1[End(m, q)].free)
            && (forall f <- F :: f <= x || q <= f)
  {
    InnerFacts(m, H, fx, h);
    assert x < h ==> End(m, x) == h;
  }

  // ---------- a new free element behind a live one ----------

  /** The live element h ends at c, the rest up to the live header e is the free element c;
      elsewhere only links of free elements are written. */
  ghost predicate SplitEdit(m: seq<Unit>, H: set<nat>, m': seq<Unit>, h: nat, c: nat, e: nat) {
    && (forall g <- H :: g < |m|) && |m'| == |m|
    && h in H && e in H && h < c < e && !m[h].free && !m[e].free && !m[h].last
    && (forall g <- H :: h < g < e ==> m[g].free)
    && m'[h] == m[h].(nunits := m'[h].nunits) && End(m', h) == c
    && m'[c].free && !m'[c].last && !m'[c].saved && m'[c].prevOff == c - h && End(m', c) == e
    && m'[e] == m[e].(prevOff := m'[e].prevOff) && m'[e].prevOff == e - c
    && (forall u | 0 <= u < |m| && u != h && u != c && u != e ::
          m'[u] == m[u] || (u in H && m[u].free && m'[u] == m[u].(link := m'[u].link)))
  }

  lemma SplitTiled(m: seq<Unit>, H: set<nat>, fx: nat, m': seq<Unit>, h: nat, c: nat, e: nat)
    requires |m| < 0x1_0000 && Tiled(m, H, fx) && SplitEdit(m, H, m', h, c, e)
    ensures c !in Without(H, h, e) && Tiled(m', Without(H, h, e) + {c}, fx)
  {
    var m1 := m[h := m[h].(nunits := e - h - 1)][e := m[e].(prevOff := e - h)];
    forall g | g in H && (g < h || e < g) ensures SameTags(m, m1, g) {}
    TiledMerge(m, H, fx, m1, h, e);
    forall g | g in Without(H, h, e) && g != h && g != e ensures SameTags(m1, m', g) {}
    TiledSplit(m1, Without(H, h, e), fx, m', h, c - h - 1);
  }

  lemma SplitFlags(m: seq<Unit>, H: set<nat>, fx: nat, m': seq<Unit>, h: nat, c: nat, e: nat)
    requires Tiled(m, H, fx) && FlagsOk(m, H, fx) && SplitEdit(m, H, m', h, c, e)
    requires Inside(m', Without(H, h, e) + {c}, fx)
    ensures FlagsOk(m', Without(H, h, e) + {c}, fx)
  {
    forall g | g in Without(H, h, e) + {c}
      ensures m'[g].last <==> End(m', g) == fx
      ensures m'[g].free ==> End(m', g) < fx && !m'[End(m', g)].free
    {
      if g != c && g != h {
        assert End(m', g) == End(m, g);
        assert g < h ==> End(m, g) <= h;
        assert End(m, g) < fx ==> End(m, g) in H;
      }
    }
  }

  /** The resized element keeps the part of its payload that fits; no other payload changes. */
  lemma SplitStore(m: seq<Unit>, H: set<nat>, fx: nat, m': seq<Unit>, h: nat, c: nat, e: nat)
    requires Tiled(m, H, fx) && SplitEdit(m, H, m', h, c, e)
    requires Inside(m', Without(H, h, e) + {c}, fx)
    ensures Store(m', Without(H, h, e) + {c}, fx) == Store(m, H, fx)[h := Payload(m', h)]
    ensures forall i: nat | i < m[h].nunits && i < m'[h].nunits :: Payload(m', h)[i] == Payload(m, h)[i]
  {
    var H' := Without(H, h, e) + {c};
    forall g: nat | g != h ensures SameLive(m, H, fx, m', H', fx, g) {
      if g in H && !m[g].free {
        assert End(m', g) == End(m, g) && (g < h ==> End(m, g) <= h);
        forall u | g < u < End(m, g) ensures m'[u] == m[u] {}
      }
    }
    StoreUpdate(m, H, fx, m', H', fx, h);
    assert End(m, h) <= fx;
    forall u | h < u < End(m, h) && u < c ensures m'[u] == m[u] {}
  }

  /** q is the free element after h, if there is one. */
  lemma SplitTotals(m: seq<Unit>, H: set<nat>, m': seq<Unit>, h: nat, c: nat, e: nat, q: nat)
    requires SplitEdit(m, H, m', h, c, e) && (c in H ==> c == q)
    requires (forall f <- FreeSet(m, H) :: !m[f].saved) && (forall g <- H :: h < g < e ==> g == q)
    requires q < |m| ==> q in H && m[q].free && h < q < e
    ensures Total(true, m', Without(H, h, e) + {c}, |m|) == Total(true, m, H, |m|)
    ensures Total(false, m', Without(H, h, e) + {c}, |m|) == Total(false, m, H, |m|) + e - c - 1 - (if q < |m| then m[q].nunits else 0)
  {
    TotalFrame(true, m, H, m', Without(H, h, e) + {c}, |m|);
    TotalDelta(false, m, H, m', Without(H, h, e) + {c}, |m|, c, if c == q then |m| else q);
  }

  lemma SplitFreeSet(m: seq<Unit>, H: set<nat>, m': seq<Unit>, h: nat, c: nat, e: nat)
    requires SplitEdit(m, H, m', h, c, e)
    ensures FreeSet(m', Without(H, h, e) + {c}) == Without(FreeSet(m, H), h, e) + {c}
  {
  }

  lemma SplitLast(b: Blk, c: Blk, h: nat, x: nat, e: nat)
    requires Tiled(b.mem, b.hdrs, b.freeX) && LastOk(b.mem, b.hdrs, b.freeX, b.lastElemOff)
    requires SplitEdit(b.mem, b.hdrs, c.mem, h, x, e) && c.hdrs == Without(b.hdrs, h, e) + {x} && Inside(c.mem, c.hdrs, c.freeX)
    requires c.freeX == b.freeX && c.lastElemOff == b.lastElemOff
    ensures LastOk(c.mem, c.hdrs, c.freeX, c.lastElemOff)
  {
    var l := b.lastElemOff - 1;
    assert b.freeX > 0 && l in b.hdrs && End(b.mem, l) == b.freeX;
    assert e <= l;
    assert End(c.mem, l) == End(b.mem, l);
  }

  lemma SplitKeeps(b: Blk, h: nat, x: nat, c: Blk)
    requires Inv(b) && h in b.hdrs && !b.mem[h].last && End(b.mem, h) < |b.mem|
    requires SplitEdit(b.mem, b.hdrs, c.mem, h, x, FreeEnd(b.mem, h)) && x !in b.hdrs
    requires c.hdrs == Without(b.hdrs, h, FreeEnd(b.mem, h)) + {x}
    requires FreeList(c.mem, Without(FreeSet(b.mem, b.hdrs), h, FreeEnd(b.mem, h)) + {x}, c.freeElemOff)
    requires c.freeMem == b.freeMem + FreeEnd(b.mem, h) - x - 1 - (if b.mem[End(b.mem, h)].free then b.mem[End(b.mem, h)].nunits else 0)
    requires c.freeX == b.freeX && c.lastElemOff == b.lastElemOff && c.nsaved == b.nsaved
    ensures Inv(c) && Store(c.mem, c.hdrs, c.freeX) == Store(b.mem, b.hdrs, b.freeX)[h := Payload(c.mem, h)]
    ensures forall i: nat | i < b.mem[h].nunits && i < c.mem[h].nunits :: Payload(c.mem, h)[i] == Payload(b.mem, h)[i]
  {
    hide Linked, Apart, FlagsOk, FreeList, Total;
    var e, q := FreeEnd(b.mem, h), End(b.mem, h);
    InnerFacts(b.mem, b.hdrs, b.freeX, h);
    SplitTiled(b.mem, b.hdrs, b.freeX, c.mem, h, x, e);
    SplitFlags(b.mem, b.hdrs, b.freeX, c.mem, h, x, e);
    SplitStore(b.mem, b.hdrs, b.freeX, c.mem, h, x, e);
    FreeAreInner(b.mem, b.hdrs, b.freeX);
    SplitTotals(b.mem, b.hdrs, c.mem, h, x, e, if b.mem[q].free then q else |b.mem|);
    SplitFreeSet(b.mem, b.hdrs, c.mem, h, x, e);
    SplitLast(b, c, h, x, e);
  }

  /** h took over all of the free element after it. */
  ghost predicate AbsorbEdit(m: seq<Unit>, H: set<nat>, m': seq<Unit>, h: nat, e: nat) {
    && (forall g <- H :: g < |m|) && |m'| == |m|
    && h in H && e in H && h < e && !m[h].free && !m[e].free && !m[h].last
    && (forall g <- H :: h < g < e ==> m[g].free)
    && m'[h] == m[h].(nunits := m'[h].nunits) && End(m', h) == e
    && m'[e] == m[e].(prevOff := m'[e].prevOff) && m'[e].prevOff == e - h
    && (forall u | 0 <= u < |m| && u != h && u != e ::
          m'[u] == m[u] || (u in H && m[u].free && m'[u] == m[u].(link := m'[u].link)))
  }

  lemma AbsorbFlags(m: seq<Unit>, H: set<nat>, fx: nat, m': seq<Unit>, h: nat, e: nat)
    requires Tiled(m, H, fx) && FlagsOk(m, H, fx) && AbsorbEdit(m, H, m', h, e)
    requires Inside(m', Without(H, h, e), fx)
    ensures FlagsOk(m', Without(H, h, e), fx)
  {
    forall g | g in Without(H, h, e)
      ensures m'[g].last <==> End(m', g) == fx
      ensures m'[g].free ==> End(m', g) < fx && !m'[End(m', g)].free
    {
      if g != h {
        assert End(m', g) == End(m, g);
        assert g < h ==> End(m, g) <= h;
        assert End(m, g) < fx ==> End(m, g) in H;
      }
    }
  }

  lemma AbsorbStore(m: seq<Unit>, H: set<nat>, fx: nat, m': seq<Unit>, h: nat, e: nat)
    requires Tiled(m, H, fx) && AbsorbEdit(m, H, m', h, e)
    requires Inside(m', Without(H, h, e), fx)
    ensures Store(m', Without(H, h, e), fx) == Store(m, H, fx)[h := Payload(m', h)]
    ensures forall i: nat | i < m[h].nunits && i < m'[h].nunits :: Payload(m', h)[i] == Payload(m, h)[i]
  {
    var H' := Without(H, h, e);
    forall g: nat | g != h ensures SameLive(m, H, fx, m', H', fx, g) {
      if g in H && !m[g].free {
        assert End(m', g) == End(m, g) && (g < h ==> End(m, g) <= h);
        forall u | g < u < End(m, g) ensures m'[u] == m[u] {}
      }
    }
    StoreUpdate(m, H, fx, m', H', fx, h);
    assert End(m, h) <= e;
    forall u | h < u < End(m, h) ensures m'[u] == m[u] {}
  }

  lemma AbsorbTotals(m: seq<Unit>, H: set<nat>, m': seq<Unit>, h: nat, e: nat, q: nat)
    requires AbsorbEdit(m, H, m', h, e)
    requires (forall f <- FreeSet(m, H) :: !m[f].saved) && (forall g <- H :: h < g < e ==> g == q)
    requires q in H && m[q].free && h < q < e
    ensures Total(true, m', Without(H, h, e), |m|) == Total(true, m, H, |m|)
    ensures Total(false, m', Without(H, h, e), |m|) == Total(false, m, H, |m|) - m[q].nunits
    ensures FreeSet(m', Without(H, h, e)) == FreeSet(m, H) - {q}
  {
    TotalFrame(true, m, H, m', Without(H, h, e), |m|);
    TotalDelta(false, m, H, m', Without(H, h, e), |m|, q, |m|);
  }

  lemma AbsorbKeeps(b: Blk, h: nat, c: Blk)
    requires Inv(b) && h in b.hdrs && !b.mem[h].last && End(b.mem, h) < |b.mem| && b.mem[End(b.mem, h)].free
    requires AbsorbEdit(b.mem, b.hdrs, c.mem, h, FreeEnd(b.mem, h))
    requires c.hdrs == Without(b.hdrs, h, FreeEnd(b.mem, h))
    requires FreeList(c.mem, FreeSet(b.mem, b.hdrs) - {End(b.mem, h)}, c.freeElemOff)
    requires c.freeMem == b.freeMem - b.mem[End(b.mem, h)].nunits
    requires c.freeX == b.freeX && c.lastElemOff == b.lastElemOff && c.nsaved == b.nsaved
    ensures Inv(c) && Store(c.mem, c.hdrs, c.freeX) == Store(b.mem, b.hdrs, b.freeX)[h := Payload(c.mem, h)]
    ensures forall i: nat | i < b.mem[h].nunits && i < c.mem[h].nunits :: Payload(c.mem, h)[i] == Payload(b.mem, h)[i]
  {
    hide Linked, Apart, FlagsOk, FreeList, Total;
    var e, q := FreeEnd(b.mem, h), End(b.mem, h);
    InnerFacts(b.mem, b.hdrs, b.freeX, h);
    forall g | g in b.hdrs && (g < h || e < g) ensures SameTags(b.mem, c.mem, g) {}
    TiledMerge(b.mem, b.hdrs, b.freeX, c.mem, h, e);
    AbsorbFlags(b.mem, b.hdrs, b.freeX, c.mem, h, e);
    AbsorbStore(b.mem, b.hdrs, b.freeX, c.mem, h, e);
    FreeAreInner(b.mem, b.hdrs, b.freeX);
    AbsorbTotals(b.mem, b.hdrs, c.mem, h, e, q);
    AbsorbLast(b, c, h, e);
  }

  lemma AbsorbLast(b: Blk, c: Blk, h: nat, e: nat)
    requires Tiled(b.mem, b.hdrs, b.freeX) && LastOk(b.mem, b.hdrs, b.freeX, b.lastElemOff)
    requires AbsorbEdit(b.mem, b.hdrs, c.mem, h, e) && c.hdrs == Without(b.hdrs, h, e) && Inside(c.mem, c.hdrs, c.freeX)
    requires c.freeX == b.freeX && c.lastElemOff == b.lastElemOff
    ensures LastOk(c.mem, c.hdrs, c.freeX, c.lastElemOff)
  {
    var l := b.lastElemOff - 1;
    assert b.freeX > 0 && l in b.hdrs && End(b.mem, l) == b.freeX;
    assert e <= l;
    assert End(c.mem, l) == End(b.mem, l);
  }

  // ---------- the last element given another size ----------

  lemma ResizeLastKeeps(b: Blk, h: nat, n: U16, c: Blk)
    requires Inv(b) && h in b.hdrs && b.mem[h].last && !b.mem[h].free && h + 1 + n <= |b.mem|
    requires c == b.(mem := b.mem[h := b.mem[h].(nunits := n)], freeX := h + 1 + n)
    ensures Inv(c) && Store(c.mem, c.hdrs, c.freeX) == Store(b.mem, b.hdrs, b.freeX)[h := Payload(c.mem, h)]
    ensures |Payload(c.mem, h)| == n
    ensures forall i: nat | i < b.mem[h].nunits && i < n :: Payload(c.mem, h)[i] == Payload(b.mem, h)[i]
  {
    hide Linked, Apart, FlagsOk, FreeList, Total;
    LastFacts(b, h);
    ResizeLastShape(b.mem, b.hdrs, b.freeX, c.mem, h);
    FreeListFrame(b.mem, FreeSet(b.mem, b.hdrs), b.freeElemOff, c.mem);
    TotalFrame(false, b.mem, b.hdrs, c.mem, c.hdrs, |b.mem|);
    TotalFrame(true, b.mem, b.hdrs, c.mem, c.hdrs, |b.mem|);
    ResizeLastStore(b.mem, b.hdrs, b.freeX, c.mem, h);
    assert b.lastElemOff - 1 == h by { SameEnd(b.mem, b.hdrs, b.freeX, h, b.lastElemOff - 1); }
  }

  lemma ResizeLastShape(m: seq<Unit>, H: set<nat>, fx: nat, m': seq<Unit>, h: nat)
    requires Tiled(m, H, fx) && FlagsOk(m, H, fx) && h in H && End(m, h) == fx && !m[h].free
    requires |m'| == |m| && End(m', h) <= |m| && m' == m[h := m[h].(nunits := m'[h].nunits)]
    ensures Tiled(m', H, End(m', h)) && FlagsOk(m', H, End(m', h)) && FreeSet(m', H) == FreeSet(m, H)
  {
    forall g | g in H && g != h ensures SameTags(m, m', g) {}
    TiledResizeLast(m, H, fx, m', h);
    forall g | g in H
      ensures m'[g].last <==> End(m', g) == End(m', h)
      ensures m'[g].free ==> End(m', g) < End(m', h) && !m'[End(m', g)].free
    {
      SameEnd(m, H, fx, g, h);
      SameEnd(m', H, End(m', h), g, h);
      assert End(m, g) <= fx;
    }
  }

  lemma ResizeLastStore(m: seq<Unit>, H: set<nat>, fx: nat, m': seq<Unit>, h: nat)
    requires Tiled(m, H, fx) && h in H && End(m, h) == fx && !m[h].free
    requires |m'| == |m| && m' == m[h := m[h].(nunits := m'[h].nunits)] && Inside(m', H, End(m', h))
    ensures Store(m', H, End(m', h)) == Store(m, H, fx)[h := Payload(m', h)]
  {
    forall g: nat | g != h ensures SameLive(m, H, fx, m', H, End(m', h), g) {
      if g in H { assert End(m, g) == End(m', g); assert g < h ==> End(m, g) <= h; }
    }
    StoreUpdate(m, H, fx, m', H, End(m', h), h);
  }

  // ---------- frames ----------

  /** Headers are as before, except for links along the free list. */
  ghost predicate SameButLinks(m: seq<Unit>, H: set<nat>, m': seq<Unit>) {
    && |m'| == |m| && (forall g <- H :: g < |m|)
    && (forall g <- H :: m'[g] == m[g].(link := m'[g].link) && (!m[g].free ==> m'[g] == m[g]))
  }

  lemma LinksFrame(m: seq<Unit>, H: set<nat>, fx: nat, m': seq<Unit>)
    requires Tiled(m, H, fx) && FlagsOk(m, H, fx) && SameButLinks(m, H, m')
    ensures Tiled(m', H, fx) && FlagsOk(m', H, fx) && FreeSet(m', H) == FreeSet(m, H)
  {
    forall g | g in H ensures SameTags(m, m', g) {}
    TiledFrame(m, H, fx, m');
    forall g | g in H
      ensures m'[g].last <==> End(m', g) == fx
      ensures m'[g].free ==> End(m', g) < fx && !m'[End(m', g)].free
    {
      assert End(m', g) == End(m, g);
    }
  }

  // ---------- a free element taken for use ----------

  /** h leaves the free list as a live element of unchanged size. */
  ghost predicate TakeEdit(m: seq<Unit>, H: set<nat>, m': seq<Unit>, h: nat) {
    && (forall g <- H :: g < |m|) && |m'| == |m| < 0x1_0000 && h in H && m[h].free
    && m'[h] == m[h].(free := false, link := h)
    && (forall u | 0 <= u < |m| && u != h :: m'[u] == m[u] || (u in H && m[u].free && m'[u] == m[u].(link := m'[u].link)))
  }

  lemma TakeTiled(m: seq<Unit>, H: set<nat>, fx: nat, m': seq<Unit>, h: nat)
    requires Tiled(m, H, fx) && TakeEdit(m, H, m', h)
    ensures Tiled(m', H, fx)
  {
    forall g | g in H ensures SameTags(m, m', g) {}
    TiledFrame(m, H, fx, m');
  }

  lemma TakeFlags(m: seq<Unit>, H: set<nat>, fx: nat, m': seq<Unit>, h: nat)
    requires Inside(m, H, fx) && Linked(m, H, fx) && FlagsOk(m, H, fx) && TakeEdit(m, H, m', h) && Inside(m', H, fx)
    ensures FlagsOk(m', H, fx) && FreeSet(m', H) == FreeSet(m, H) - {h}
  {
    forall g | g in H
      ensures m'[g].last <==> End(m', g) == fx
      ensures m'[g].free ==> End(m', g) < fx && !m'[End(m', g)].free
    {
      assert End(m', g) == End(m, g);
    }
  }

  lemma TakeStore(m: seq<Unit>, H: set<nat>, fx: nat, m': seq<Unit>, h: nat)
    requires Tiled(m, H, fx) && Tiled(m', H, fx) && TakeEdit(m, H, m', h)
    ensures Store(m', H, fx) == Store(m, H, fx)[h := Payload(m', h)] && h !in Store(m, H, fx)
  {
    forall g: nat | g != h ensures SameLive(m, H, fx, m', H, fx, g) {
      if g in H && !m[g].free {
        assert End(m', g) == End(m, g);
        forall u | g < u < End(m, g) ensures m'[u] == m[u] {}
      }
    }
    StoreUpdate(m, H, fx, m', H, fx, h);
  }

  lemma TakeKeeps(b: Blk, h: nat, c: Blk)
    requires Inv(b) && TakeEdit(b.mem, b.hdrs, c.mem, h)
    requires FreeList(c.mem, FreeSet(b.mem, b.hdrs) - {h}, c.freeElemOff)
    requires c.hdrs == b.hdrs && c.freeX == b.freeX && c.lastElemOff == b.lastElemOff && c.nsaved == b.nsaved
    requires c.freeMem == b.freeMem - b.mem[h].nunits
    ensures Inv(c) && h !in Store(b.mem, b.hdrs, b.freeX)
    ensures Store(c.mem, c.hdrs, c.freeX) == Store(b.mem, b.hdrs, b.freeX)[h := Payload(c.mem, h)]
    ensures |Payload(c.mem, h)| == b.mem[h].nunits
  {
    hide Linked, Apart, FlagsOk, FreeList, Total;
    TakeTiled(b.mem, b.hdrs, b.freeX, c.mem, h);
    TakeFlags(b.mem, b.hdrs, b.freeX, c.mem, h);
    TakeStore(b.mem, b.hdrs, b.freeX, c.mem, h);
    TotalDelta(false, b.mem, b.hdrs, c.mem, c.hdrs, |b.mem|, h, |b.mem|);
    TotalFrame(true, b.mem, b.hdrs, c.mem, c.hdrs, |b.mem|);
    if b.freeX != 0 { assert End(c.mem, b.lastElemOff - 1) == End(b.mem, b.lastElemOff - 1); }
  }

  /** The allocator's contract for giving element h another size: the first min(old, new) units
      of the payload stay, every other payload is untouched. */
  ghost predicate Resized(s: map<nat, seq<Unit>>, t: map<nat, seq<Unit>>, h: nat) {
    && h in s && h in t && t == s[h := t[h]]
    && forall i: nat | i < |s[h]| && i < |t[h]| :: t[h][i] == s[h][i]
  }

  /** c is a free element behind h that reaches up to e; its place in the list is at most the
      only other thing written. */
  ghost predicate NewFreeEdit(m: seq<Unit>, m': seq<Unit>, F: set<nat>, h: nat, c: nat, e: nat) {
    && |m'| == |m| && h < c < e < |m|
    && m'[c].free && !m'[c].last && !m'[c].saved && m'[c].prevOff == c - h && End(m', c) == e
    && m'[e] == m[e].(prevOff := m'[e].prevOff) && m'[e].prevOff == e - c
    && (forall u | 0 <= u < |m| && u != c && u != e :: m'[u] == m[u] || (u in F && m'[u] == m[u].(link := m'[u].link)))
  }

  /** h was cut at x and the rest up to the next live header made free. */
  ghost predicate CutPost(b: Blk, c: Blk, h: nat, x: nat) {
    && h < |b.mem| && End(b.mem, h) < |b.mem| && (forall g <- b.hdrs :: g < |b.mem|)
    && SplitEdit(b.mem, b.hdrs, c.mem, h, x, FreeEnd(b.mem, h)) && x !in b.hdrs
    && c.hdrs == Without(b.hdrs, h, FreeEnd(b.mem, h)) + {x}
    && FreeList(c.mem, Without(FreeSet(b.mem, b.hdrs), h, FreeEnd(b.mem, h)) + {x}, c.freeElemOff)
    && c.freeMem == b.freeMem + FreeEnd(b.mem, h) - x - 1 - (if b.mem[End(b.mem, h)].free then b.mem[End(b.mem, h)].nunits else 0)
    && c.freeX == b.freeX && c.lastElemOff == b.lastElemOff && c.nsaved == b.nsaved
  }

  lemma CutKeeps(b: Blk, c: Blk, h: nat, x: nat)
    requires Inv(b) && h in b.hdrs && CutPost(b, c, h, x)
    ensures Inv(c) && Resized(Store(b.mem, b.hdrs, b.freeX), Store(c.mem, c.hdrs, c.freeX), h)
    ensures |Store(c.mem, c.hdrs, c.freeX)[h]| == x - h - 1
    ensures KeepsMarks(Store(b.mem, b.hdrs, b.freeX), b.mem, c.mem)
  {
    SplitKeeps(b, h, x, c);
  }

  lemma CutDone(m: seq<Unit>, H: set<nat>, fx: nat, m1: seq<Unit>, m': seq<Unit>, F: set<nat>, first: nat, h: nat, c: nat, e: nat)
    requires Tiled(m, H, fx) && FlagsOk(m, H, fx) && h in H && !m[h].free && !m[h].last && e == FreeEnd(m, h)
    requires c !in H && F <= FreeSet(m, H) && h < c < e && |m1| == |m|
    requires forall u | 0 <= u < |m| && u != c :: m1[u] == m[u] || (u in H && m[u].free && m1[u] == m[u].(link := m1[u].link))
    requires NewFreeEdit(m1, m', F, h, c, e)
    requires (forall f <- FreeSet(m, H) :: f < |m|) && FreeList(m', Without(FreeSet(m, H), h, e) + {c}, first)
    ensures var m2 := m'[h := m'[h].(nunits := c - h - 1)];
            SplitEdit(m, H, m2, h, c, e) && FreeList(m2, Without(FreeSet(m, H), h, e) + {c}, first)
  {
    InnerFacts(m, H, fx, h);
    var m2 := m'[h := m'[h].(nunits := c - h - 1)];
    FreeListFrame(m', Without(FreeSet(m, H), h, e) + {c}, first, m2);
  }

  /** h took over the whole free element behind it. */
  ghost predicate AbsorbPost(b: Blk, c: Blk, h: nat) {
    && h < |b.mem| && End(b.mem, h) < |b.mem| && b.mem[End(b.mem, h)].free && (forall g <- b.hdrs :: g < |b.mem|)
    && AbsorbEdit(b.mem, b.hdrs, c.mem, h, FreeEnd(b.mem, h))
    && c.hdrs == Without(b.hdrs, h, FreeEnd(b.mem, h))
    && FreeList(c.mem, FreeSet(b.mem, b.hdrs) - {End(b.mem, h)}, c.freeElemOff)
    && c.freeMem == b.freeMem - b.mem[End(b.mem, h)].nunits
    && c.freeX == b.freeX && c.lastElemOff == b.lastElemOff && c.nsaved == b.nsaved
  }

  lemma AbsorbResizes(b: Blk, c: Blk, h: nat)
    requires Inv(b) && h in b.hdrs && AbsorbPost(b, c, h)
    ensures Inv(c) && Resized(Store(b.mem, b.hdrs, b.freeX), Store(c.mem, c.hdrs, c.freeX), h)
    ensures |Store(c.mem, c.hdrs, c.freeX)[h]| == b.mem[h].nunits + b.mem[End(b.mem, h)].nunits + 1
    ensures KeepsMarks(Store(b.mem, b.hdrs, b.freeX), b.mem, c.mem)
  {
    AbsorbKeeps(b, h, c);
  }

  // ---------- saved elements ----------

  /** Marking h saved, or not saved, moves only the count of saved elements. */
  lemma SavedKeeps(b: Blk, h: nat, s: bool, c: Blk)
    requires Inv(b) && h in b.hdrs && !b.mem[h].free && b.mem[h].saved != s
    requires c == b.(mem := b.mem[h := b.mem[h].(saved := s)], nsaved := if s then b.nsaved + 1 else b.nsaved - 1)
    ensures Inv(c) && Store(c.mem, c.hdrs, c.freeX) == Store(b.mem, b.hdrs, b.freeX)
  {
    hide Linked, Apart, FlagsOk, FreeList, Total;
    forall g | g in b.hdrs ensures SameTags(b.mem, c.mem, g) && End(c.mem, g) == End(b.mem, g) {}
    TiledFrame(b.mem, b.hdrs, b.freeX, c.mem);
    SavedFlags(b.mem, b.hdrs, b.freeX, c.mem, h);
    FreeListFrame(b.mem, FreeSet(b.mem, b.hdrs), b.freeElemOff, c.mem);
    assert FreeSet(c.mem, c.hdrs) == FreeSet(b.mem, b.hdrs);
    TotalFrame(false, b.mem, b.hdrs, c.mem, c.hdrs, |b.mem|);
    TotalDelta(true, b.mem, b.hdrs, c.mem, c.hdrs, |b.mem|, h, |b.mem|);
    SavedStore(b, h, c);
  }

  lemma SavedFlags(m: seq<Unit>, H: set<nat>, fx: nat, m': seq<Unit>, h: nat)
    requires Inside(m, H, fx) && FlagsOk(m, H, fx) && h in H && !m[h].free
    requires |m'| == |m| && m' == m[h := m[h].(saved := m'[h].saved)] && Inside(m', H, fx)
    ensures FlagsOk(m', H, fx)
  {
    forall g | g in H
      ensures m'[g].last <==> End(m', g) == fx
      ensures m'[g].free ==> End(m', g) < fx && !m'[End(m', g)].free
    {
      assert End(m', g) == End(m, g);
    }
  }

  lemma SavedStore(b: Blk, h: nat, c: Blk)
    requires Tiled(b.mem, b.hdrs, b.freeX) && h in b.hdrs && !b.mem[h].free
    requires |c.mem| == |b.mem| && c.hdrs == b.hdrs && c.freeX == b.freeX && Inside(c.mem, c.hdrs, c.freeX)
    requires c.mem == b.mem[h := b.mem[h].(saved := c.mem[h].saved)]
    ensures Store(c.mem, c.hdrs, c.freeX) == Store(b.mem, b.hdrs, b.freeX)
  {
    forall g: nat ensures SameLive(b.mem, b.hdrs, b.freeX, c.mem, c.hdrs, c.freeX, g) {
      if g in b.hdrs { assert End(c.mem, g) == End(b.mem, g); }
    }
    StoreUpdate(b.mem, b.hdrs, b.freeX, c.mem, c.hdrs, c.freeX, |b.mem|);
  }

  /** A count of saved elements is never negative, and is 0 only when no element is saved. */
  lemma {:induction false} SavedCount(m: seq<Unit>, H: set<nat>, k: nat)
    requires k <= |m|
    ensures 0 <= Total(true, m, H, k)
    ensures Total(true, m, H, k) == 0 <==> forall h <- H :: h < k ==> !m[h].saved
  {
    if k == 0 {
    } else {
      SavedCount(m, H, k - 1);
    }
  }

  lemma EmptyInv(m: seq<Unit>)
    requires |m| < 0x1_0000
    ensures Inv(Blk(m, {}, 0, 0, 0, 0, 0)) && Store(m, {}, 0) == map[]
  {
    TotalEmpty(false, m, |m|);
    TotalEmpty(true, m, |m|);
  }

  // ---------- a caller writes into its payload ----------

  /** A write into the payload of h reaches no header and no other payload. */
  lemma WriteKeeps(b: Blk, h: nat, j: nat, u: Unit, c: Blk)
    requires Inv(b) && h in b.hdrs && !b.mem[h].free && j < b.mem[h].nunits && End(b.mem, h) <= |b.mem|
    requires c == b.(mem := b.mem[h + 1 + j := u])
    ensures Inv(c)
    ensures Store(c.mem, c.hdrs, c.freeX) == Store(b.mem, b.hdrs, b.freeX)[h := Payload(b.mem, h)[j := u]]
  {
    assert SameButLinks(b.mem, b.hdrs, c.mem) && h + 1 + j !in b.hdrs;
    hide Linked, Apart, FlagsOk, FreeList, Total;
    LinksFrame(b.mem, b.hdrs, b.freeX, c.mem);
    FreeListFrame(b.mem, FreeSet(b.mem, b.hdrs), b.freeElemOff, c.mem);
    TotalFrame(false, b.mem, b.hdrs, c.mem, c.hdrs, |b.mem|);
    TotalFrame(true, b.mem, b.hdrs, c.mem, c.hdrs, |b.mem|);
    WriteStore(b.mem, b.hdrs, b.freeX, h, j, u);
  }

  /** A store into a payload leaves every header as it was. */
  lemma WriteMarks(b: Blk, h: nat, j: nat, u: Unit)
    requires Tiled(b.mem, b.hdrs, b.freeX) && h in b.hdrs && !b.mem[h].free && j < b.mem[h].nunits && End(b.mem, h) <= |b.mem|
    requires Inside(b.mem[h + 1 + j := u], b.hdrs, b.freeX)
    ensures KeepsMarks(Store(b.mem[h + 1 + j := u], b.hdrs, b.freeX), b.mem, b.mem[h + 1 + j := u])
  {
    forall g | g in b.hdrs ensures g != h + 1 + j {
      if g > h { assert End(b.mem, h) <= g; }
    }
  }

  lemma DropMarks(m: seq<Unit>, m': seq<Unit>, l: nat, q: nat, s: map<nat, seq<Unit>>)
    requires DropEdit(m, m', l, q) && forall g <- s :: g < |m|
    ensures KeepsMarks(s, m, m')
  {}

  lemma SameMem(s: map<nat, seq<Unit>>, m: seq<Unit>)
    requires forall g <- s :: g < |m|
    ensures KeepsMarks(s, m, m)
  {}

  lemma MarksThrough(s: map<nat, seq<Unit>>, s1: map<nat, seq<Unit>>, m: seq<Unit>, m1: seq<Unit>, m2: seq<Unit>)
    requires KeepsMarks(s, m, m1) && KeepsMarks(s1, m1, m2) && s.Keys <= s1.Keys
    ensures KeepsMarks(s, m, m2)
  {}

  lemma OneMark(m: seq<Unit>, h: nat, u: Unit, s: map<nat, seq<Unit>>)
    requires h < |m| && u.saved == m[h].saved && forall g <- s :: g < |m|
    ensures KeepsMarks(s, m, m[h := u])
  {}

  lemma TakeMarks(m: seq<Unit>, H: set<nat>, m': seq<Unit>, h: nat, s: map<nat, seq<Unit>>)
    requires TakeEdit(m, H, m', h) && forall g <- s :: g < |m| && !m[g].free
    ensures KeepsMarks(s, m, m')
  {}

  lemma FreeMarks(m: seq<Unit>, F: set<nat>, m1: seq<Unit>, m': seq<Unit>, h: nat, x: nat, e: nat, s: map<nat, seq<Unit>>)
    requires BackEdit(m, F, m1, h, x) && ForwardEdit(m1, m', x, e)
    requires forall g <- s :: g < |m'| && !m'[g].free && g != h
    ensures KeepsMarks(s, m, m')
  {}

  lemma WriteStore(m: seq<Unit>, H: set<nat>, fx: nat, h: nat, j: nat, u: Unit)
    requires Tiled(m, H, fx) && h in H && !m[h].free && j < m[h].nunits && End(m, h) <= |m|
    requires Inside(m[h + 1 + j := u], H, fx)
    ensures Store(m[h + 1 + j := u], H, fx) == Store(m, H, fx)[h := Payload(m, h)[j := u]]
  {
    hide Linked;
    var m' := m[h + 1 + j := u];
    assert h + 1 + j !in H;
    forall g: nat | g != h ensures SameLive(m, H, fx, m', H, fx, g) {
      if g in H { assert End(m', g) == End(m, g); }
    }
    StoreUpdate(m, H, fx, m', H, fx, h);
    assert Payload(m', h) == Payload(m, h)[j := u];
  }
}
