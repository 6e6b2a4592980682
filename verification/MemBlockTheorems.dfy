/** What the block invariant means: the headers are exactly the stops of a walk over the block,
    payloads do not overlap, and the bookkeeping is determined by the live elements alone. */
module MemBlockTheorems {
  import opened MemBlockModel

  /** The offsets visited by GETNEXT from h until freeX: src/memheap.c:377-380. */
  ghost function Walk(m: seq<Unit>, h: nat, fx: nat): (w: seq<nat>)
    requires h <= fx <= |m|
    decreases fx - h
  {
    if h == fx then [] else [h] + (if End(m, h) <= fx then Walk(m, End(m, h), fx) else [])
  }

  /** Walking the block visits every header once, in address order, and ends exactly at freeX. */
  lemma {:induction false} WalkVisitsHeaders(m: seq<Unit>, H: set<nat>, fx: nat, h: nat)
    requires Tiled(m, H, fx) && (h in H || h == fx)
    ensures forall g: nat :: g in Walk(m, h, fx) <==> g in H && h <= g
    ensures forall i, j | 0 <= i < j < |Walk(m, h, fx)| :: Walk(m, h, fx)[i] < Walk(m, h, fx)[j]
    ensures forall i | 0 <= i < |Walk(m, h, fx)| :: Walk(m, h, fx)[i] in H &&
              End(m, Walk(m, h, fx)[i]) == if i + 1 < |Walk(m, h, fx)| then Walk(m, h, fx)[i + 1] else fx
    decreases fx - h
  {
    if h != fx {
      assert End(m, h) <= fx;
      WalkVisitsHeaders(m, H, fx, End(m, h));
      var rest := Walk(m, End(m, h), fx);
      assert Walk(m, h, fx) == [h] + rest;
      forall g: nat ensures g in [h] + rest <==> g in H && h <= g {
        assert g in [h] + rest <==> g == h || g in rest;
      }
      assert rest != [] ==> rest[0] == End(m, h);
    }
  }

  /** Payloads of two live elements share no unit, and no payload holds a header. */
  lemma PayloadsDisjoint(b: Blk, g: nat, h: nat)
    requires Inv(b) && g in Store(b.mem, b.hdrs, b.freeX) && h in Store(b.mem, b.hdrs, b.freeX) && g != h
    ensures forall u | g < u < End(b.mem, g) :: !(h < u < End(b.mem, h)) && u !in b.hdrs
    ensures End(b.mem, g) <= b.freeX <= |b.mem|
  {
    assert End(b.mem, g) <= b.freeX && End(b.mem, h) <= b.freeX;
  }

  ghost predicate SameLayout(b: Blk, c: Blk)
    requires Inv(b) && Inv(c)
  {
    var s, t := Store(b.mem, b.hdrs, b.freeX), Store(c.mem, c.hdrs, c.freeX);
    s.Keys == t.Keys && forall h <- s :: |s[h]| == |t[h]|
  }

  /** A live element of one block is a live element of the other, of the same size. */
  lemma LiveInBoth(b: Blk, c: Blk, h: nat)
    requires Inv(b) && Inv(c) && SameLayout(b, c) && h in b.hdrs && !b.mem[h].free
    ensures h in c.hdrs && !c.mem[h].free && End(c.mem, h) == End(b.mem, h)
  {
    hide Linked, Apart, FlagsOk, FreeList, LastOk, Total;
    assert h in Store(b.mem, b.hdrs, b.freeX);
    assert End(b.mem, h) <= b.freeX && h in Store(c.mem, c.hdrs, c.freeX) && End(c.mem, h) <= c.freeX;
  }

  /** The space in use ends where the last live element ends. */
  lemma FreeXFromLayout(b: Blk, c: Blk)
    requires Inv(b) && Inv(c) && SameLayout(b, c)
    ensures b.freeX <= c.freeX
  {
    hide Linked, Apart, FreeList, Total, SameLayout, Store;
    if b.freeX != 0 {
      var l := b.lastElemOff - 1;
      assert End(b.mem, l) == b.freeX;
      LiveInBoth(b, c, l);
    }
  }

  lemma {:induction false} HeaderFromLayout(b: Blk, c: Blk, h: nat)
    requires Inv(b) && Inv(c) && SameLayout(b, c) && h in b.hdrs
    ensures h in c.hdrs && c.mem[h].free == b.mem[h].free
    decreases h
  {
    assert SameLayout(c, b);
    hide Apart, FreeList, LastOk, Total, SameLayout, Store;
    FreeXFromLayout(b, c);
    FreeXFromLayout(c, b);
    if !b.mem[h].free {
      LiveInBoth(b, c, h);
    } else {
      var e := End(b.mem, h);
      if h != 0 {
        var g := Prev(b.mem, h);
        assert g in b.hdrs && End(b.mem, g) == h;
        LiveInBoth(b, c, g);
        assert End(c.mem, g) == h;
      }
      if !c.mem[h].free { LiveInBoth(c, b, h); }
    }
  }

  lemma SameHeaders(b: Blk, c: Blk)
    requires Inv(b) && Inv(c) && SameLayout(b, c)
    ensures b.hdrs == c.hdrs && b.freeX == c.freeX && forall h <- b.hdrs :: b.mem[h].free == c.mem[h].free
  {
    assert SameLayout(c, b);
    hide Linked, Apart, FlagsOk, FreeList, LastOk, Total, SameLayout, Store;
    forall h | h in b.hdrs ensures h in c.hdrs && c.mem[h].free == b.mem[h].free { HeaderFromLayout(b, c, h); }
    forall h | h in c.hdrs ensures h in b.hdrs { HeaderFromLayout(c, b, h); }
    FreeXFromLayout(b, c);
    FreeXFromLayout(c, b);
  }

  /** With the same headers, an element ends at the same place. */
  lemma SameEnds(b: Blk, c: Blk, h: nat)
    requires Tiled(b.mem, b.hdrs, b.freeX) && Tiled(c.mem, c.hdrs, c.freeX)
    requires b.hdrs == c.hdrs && b.freeX == c.freeX && h in b.hdrs
    ensures End(b.mem, h) <= End(c.mem, h)
  {
    var e := End(c.mem, h);
    assert e < c.freeX ==> e in b.hdrs;
    assert End(b.mem, h) <= b.freeX;
  }

  /** The bookkeeping of a block is a function of its live elements: blocks with the same live
      offsets and sizes agree in every counter, offset, header and free-list link, whatever
      operations led to them.  In particular a block without live elements is clean. */
  lemma CanonicalForm(b: Blk, c: Blk)
    requires Inv(b) && Inv(c) && SameLayout(b, c) && |b.mem| == |c.mem|
    ensures b.hdrs == c.hdrs && b.freeX == c.freeX && b.lastElemOff == c.lastElemOff
    ensures b.freeElemOff == c.freeElemOff && b.freeMem == c.freeMem
    ensures forall h <- b.hdrs :: b.mem[h] == c.mem[h].(saved := b.mem[h].saved, bits := b.mem[h].bits, pad := b.mem[h].pad)
  {
    SameHeaders(b, c);
    forall h | h in b.hdrs ensures b.mem[h].nunits == c.mem[h].nunits && b.mem[h].last == c.mem[h].last && b.mem[h].prevOff == c.mem[h].prevOff {
      SameTagsFrom(b, c, h);
    }
    SameFreeList(b, c);
    if b.freeX != 0 { SameEnd(b.mem, b.hdrs, b.freeX, b.lastElemOff - 1, c.lastElemOff - 1); }
    hide Inv, Linked, Apart, FlagsOk, FreeList;
    TotalFrame(false, b.mem, b.hdrs, c.mem, c.hdrs, |b.mem|);
  }

  lemma SameTagsFrom(b: Blk, c: Blk, h: nat)
    requires Inv(b) && Inv(c) && b.hdrs == c.hdrs && b.freeX == c.freeX && h in b.hdrs
    ensures b.mem[h].nunits == c.mem[h].nunits && b.mem[h].last == c.mem[h].last && b.mem[h].prevOff == c.mem[h].prevOff
  {
    SameEnds(b, c, h);
    SameEnds(c, b, h);
    assert End(b.mem, h) == End(c.mem, h);
    if h != 0 {
      var g, k := Prev(b.mem, h), Prev(c.mem, h);
      assert End(b.mem, g) == h && End(c.mem, k) == h;
      SameEnds(b, c, k);
      SameEnds(c, b, k);
      SameEnd(b.mem, b.hdrs, b.freeX, g, k);
    }
  }

  lemma SameFreeList(b: Blk, c: Blk)
    requires Inv(b) && Inv(c) && b.hdrs == c.hdrs && forall h <- b.hdrs :: b.mem[h].free == c.mem[h].free
    ensures b.freeElemOff == c.freeElemOff && forall h <- b.hdrs :: b.mem[h].link == c.mem[h].link
  {
    var F := FreeSet(b.mem, b.hdrs);
    assert F == FreeSet(c.mem, c.hdrs);
    forall h | h in b.hdrs ensures b.mem[h].link == c.mem[h].link {
      if h in F {
        assert LinkOk(b.mem, F, h) && LinkOk(c.mem, F, h);
      }
    }
  }

  /** Once nothing is live, whatever was done before, the block is clean. */
  lemma CleanWhenEmpty(b: Blk)
    requires Inv(b) && Store(b.mem, b.hdrs, b.freeX) == map[]
    ensures b.freeX == 0 && b.freeMem == 0 && b.lastElemOff == 0 && b.freeElemOff == 0 && b.hdrs == {} && b.nsaved == 0
  {
    var c := Blk(b.mem, {}, 0, 0, 0, 0, 0);
    EmptyInv(b.mem);
    CanonicalForm(b, c);
    TotalEmpty(true, b.mem, |b.mem|);
  }

  // ---------- what the counters count ----------

  ghost function Range(a: nat, b: nat): set<nat>
    decreases b
  {
    if a < b then Range(a, b - 1) + {b - 1} else {}
  }

  lemma {:induction false} RangeIn(a: nat, b: nat, u: nat)
    ensures u in Range(a, b) <==> a <= u < b
    decreases b
  {
    if a < b { RangeIn(a, b - 1, u); }
  }

  /** A range added behind a set counts in full. */
  lemma {:induction false} AddRange(s: set<nat>, a: nat, b: nat)
    requires a <= b && forall u | u in s :: u < a
    ensures |s + Range(a, b)| == |s| + b - a
    decreases b
  {
    if a < b {
      AddRange(s, a, b - 1);
      RangeIn(a, b - 1, b - 1);
      assert s + Range(a, b) == s + Range(a, b - 1) + {b - 1};
    } else {
      assert s + Range(a, b) == s;
    }
  }

  /** The payload units of the free elements whose headers are below k. */
  ghost function FreeUnitsBefore(m: seq<Unit>, H: set<nat>, k: nat): set<nat>
    requires k <= |m|
  {
    if k == 0 then {} else FreeUnitsBefore(m, H, k - 1) + if k - 1 in H && m[k - 1].free then Range(k, End(m, k - 1)) else {}
  }

  lemma {:induction false} FreeUnitOwner(m: seq<Unit>, H: set<nat>, k: nat, u: nat) returns (h: nat)
    requires k <= |m| && u in FreeUnitsBefore(m, H, k)
    ensures h in H && h < k && m[h].free && h < u < End(m, h)
  {
    hide Range;
    if k - 1 in H && m[k - 1].free { RangeIn(k, End(m, k - 1), u); }
    if u in FreeUnitsBefore(m, H, k - 1) { h := FreeUnitOwner(m, H, k - 1, u); } else { h := k - 1; }
  }

  lemma {:induction false} FreeUnitIn(m: seq<Unit>, H: set<nat>, k: nat, h: nat, u: nat)
    requires h < k <= |m| && h in H && m[h].free && h < u < End(m, h)
    ensures u in FreeUnitsBefore(m, H, k)
  {
    hide Range;
    if h < k - 1 { FreeUnitIn(m, H, k - 1, h, u); } else { RangeIn(k, End(m, h), u); }
  }

  lemma {:induction false} FreeUnitsCount(m: seq<Unit>, H: set<nat>, fx: nat, k: nat)
    requires Tiled(m, H, fx) && k <= |m|
    ensures |FreeUnitsBefore(m, H, k)| == Total(false, m, H, k)
  {
    hide Linked, Range;
    if k > 0 {
      FreeUnitsCount(m, H, fx, k - 1);
      if k - 1 in H && m[k - 1].free {
        var s := FreeUnitsBefore(m, H, k - 1);
        forall u | u in s ensures u < k { var h := FreeUnitOwner(m, H, k - 1, u); }
        AddRange(s, k, End(m, k - 1));
      }
    }
  }

  lemma {:induction false} Covered(m: seq<Unit>, H: set<nat>, fx: nat, h: nat, u: nat) returns (g: nat)
    requires Tiled(m, H, fx) && h in H && h <= u < fx
    ensures g in H && g <= u < End(m, g)
    decreases u - h
  {
    hide Apart;
    if u < End(m, h) { g := h; } else { g := Covered(m, H, fx, End(m, h), u); }
  }

  /** Of the units below freeX exactly freeMem are neither headers nor in the payload of a live
      element; and nsaved of the elements are marked saved. */
  lemma CountersCount(b: Blk)
    requires Inv(b)
    ensures b.freeMem == |set u: nat | u < b.freeX && u !in b.hdrs && FreeUnit(b, u)|
    ensures b.nsaved == |set h | h in b.hdrs && b.mem[h].saved|
  {
    hide FlagsOk, FreeList, LastOk, Total;
    var s := set u: nat | u < b.freeX && u !in b.hdrs && FreeUnit(b, u);
    var t := FreeUnitsBefore(b.mem, b.hdrs, |b.mem|);
    FreeUnitsCount(b.mem, b.hdrs, b.freeX, |b.mem|);
    forall u: nat | u in s ensures u in t {
      var g := Covered(b.mem, b.hdrs, b.freeX, 0, u);
      FreeUnitIn(b.mem, b.hdrs, |b.mem|, g, u);
    }
    forall u | u in t ensures u in s { InFree(b, u); }
    assert s == t;
    SavedCount(b.mem, b.hdrs, |b.mem|);
    assert (set h | h in b.hdrs && b.mem[h].saved) == set h | h in b.hdrs && h < |b.mem| && b.mem[h].saved;
  }

  /** No live element has the unit. */
  ghost predicate FreeUnit(b: Blk, u: nat) {
    forall h | h in b.hdrs && h < |b.mem| && !b.mem[h].free :: !(h < u <= h + b.mem[h].nunits)
  }

  lemma InFree(b: Blk, u: nat)
    requires Tiled(b.mem, b.hdrs, b.freeX) && u in FreeUnitsBefore(b.mem, b.hdrs, |b.mem|)
    ensures u < b.freeX && u !in b.hdrs && FreeUnit(b, u)
  {
    hide Linked;
    var g := FreeUnitOwner(b.mem, b.hdrs, |b.mem|, u);
    assert End(b.mem, g) <= b.freeX;
    forall h | h in b.hdrs && !b.mem[h].free ensures !(h < u <= h + b.mem[h].nunits) {
      if h < g { assert End(b.mem, h) <= g; }
      if g < h { assert End(b.mem, g) <= h; }
    }
  }

  lemma {:induction false} SavedCount(m: seq<Unit>, H: set<nat>, k: nat)
    requires k <= |m|
    ensures |set h | h in H && h < k && m[h].saved| == Total(true, m, H, k)
  {
    var t := set h | h in H && h < k && m[h].saved;
    if k == 0 {
      assert t == {};
    } else {
      SavedCount(m, H, k - 1);
      var s := set h | h in H && h < k - 1 && m[h].saved;
      assert t == if k - 1 in H && m[k - 1].saved then s + {k - 1} else s;
    }
  }
}
