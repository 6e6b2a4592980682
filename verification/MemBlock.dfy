/** A standard block, src/memheap.c, as the object its operations rewrite in place. */
module MemBlock {
  import opened MemBlockModel

  /** OSMemLink, src/memheap.h:27-33: the heap's list node for one block.  A standard block has
      blk, a RAW one has data; pnext and pprev are the order of the heap's list of links. */
  class MemLink {
    const blk: MemBlk?
    var data: array<Unit>
    var saved: bool
    var pnextRaw: MemLink?

    constructor ForBlock(b: MemBlk)
      ensures blk == b && !saved && pnextRaw == null
    {
      blk, data, saved, pnextRaw := b, b.mem, false, null;
    }

    constructor ForRaw(d: array<Unit>)
      ensures blk == null && data == d && !saved && pnextRaw == null
    {
      blk, data, saved, pnextRaw := null, d, false, null;
    }

    predicate IsRaw() {
      blk == null
    }
  }

  class MemBlk {
    const mem: array<Unit>
    var plink: MemLink?
    var freeX: nat
    var freeMem: int
    var lastElemOff: nat
    var freeElemOff: nat
    var nsaved: int
    ghost var hdrs: set<nat>

    ghost function Abs(): Blk
      reads this, mem
    {
      Blk(mem[..], hdrs, freeX, freeMem, lastElemOff, freeElemOff, nsaved)
    }

    ghost predicate Valid()
      reads this, mem
    {
      Inv(Abs())
    }

    ghost function Live(): map<nat, seq<Unit>>
      reads this, mem
      requires Valid()
    {
      Store(mem[..], hdrs, freeX)
    }

    /** A block with a live element is in use, and no block exceeds what 16 bits address. */
    lemma InUse()
      requires Valid()
      ensures mem.Length < 0x1_0000 && freeX <= mem.Length && (Live() != map[] ==> freeX != 0)
    {
      var s := Live();
      assert s != map[] ==> exists h :: h in s;
    }

    lemma SavedCounted(h: nat)
      requires Valid() && h in Live() && mem[h].saved
      ensures 0 < nsaved
    {
      hide Linked, Apart, FlagsOk, FreeList, LastOk, Total;
      SavedCount(mem[..], hdrs, mem.Length);
    }

    lemma SavedNonNegative()
      requires Valid()
      ensures 0 <= nsaved
    {
      hide Linked, Apart, FlagsOk, FreeList, LastOk;
      SavedCount(mem[..], hdrs, mem.Length);
    }

    /** Where a live element ends, and what the last one has in front of it. */
    lemma Inside(h: nat)
      requires Valid() && h in Live()
      ensures h < mem.Length && h + 1 + mem[h].nunits <= freeX <= mem.Length < 0x1_0000
      ensures mem[h].last <==> h + 1 + mem[h].nunits == freeX
      ensures !mem[h].last ==> End(mem[..], h) in hdrs && End(mem[..], h) < mem.Length && End(mem[..], End(mem[..], h)) <= mem.Length
    {
      hide Apart, FreeList, LastOk, Total;
      assert End(mem[..], h) <= freeX;
      assert !mem[h].last ==> End(mem[..], End(mem[..], h)) <= freeX;
    }

    lemma PayloadOf(h: nat)
      requires Valid() && h in Live()
      ensures h < mem.Length && h + 1 + mem[h].nunits <= mem.Length && Live()[h] == mem[h + 1..h + 1 + mem[h].nunits]
    {
      hide Linked, Apart, FlagsOk, FreeList, LastOk, Total;
      assert End(mem[..], h) <= freeX;
    }

    lemma LiveInHdrs(h: nat)
      requires Valid() && h in Live()
      ensures h in hdrs
    {
      hide Linked, Apart, FlagsOk, FreeList, LastOk, Total;
    }

    /** Headers lie inside the block, and the live elements are those not free. */
    lemma LiveIff(h: nat)
      requires Valid() && h in hdrs
      ensures h < mem.Length && (h in Live() <==> !mem[h].free)
      ensures h in Live() ==> |Live()[h]| == mem[h].nunits && End(mem[..], h) <= mem.Length
    {
      hide Linked, Apart, FlagsOk, FreeList, LastOk, Total;
      assert End(mem[..], h) <= freeX;
    }

    /** A new block holding one element: src/memheap.c:729-743. */
    constructor (units: nat, n: nat)
      requires n + 1 <= units < 0x1_0000
      ensures Valid() && mem.Length == units && fresh(mem) && freeX != 0 && nsaved == 0 && plink == null
      ensures Live().Keys == {0} && |Live()[0]| == n
    {
      plink := null;
      mem := new Unit[units];
      freeX, freeMem, lastElemOff, freeElemOff, nsaved := 0, 0, 0, 0, 0;
      hdrs := {};
      new;
      EmptyInv(mem[..]);
      assert Abs() == Blk(mem[..], {}, 0, 0, 0, 0, 0);
      var h := Append(n);
    }

    /** The slot at the end of the block: src/memheap.c:589-623. */
    method Append(n: nat) returns (h: nat)
      requires Valid() && freeX + n + 1 <= mem.Length
      modifies this`freeX, this`freeMem, this`lastElemOff, this`freeElemOff, this`nsaved, this`hdrs, mem
      ensures Valid() && h == old(freeX) && h !in old(Live()) && h in Live() && |Live()[h]| == n
      ensures Live() == old(Live())[h := Live()[h]]
      ensures nsaved == old(nsaved) && 0 < freeX && KeepsMarks(old(Live()), old(mem[..]), mem[..])
    {
      AppendKeeps(Abs(), n);
      h := freeX;
      WriteAppend(n);
    }

    /** The last element taken off the end of the block, together with a free element before
        it: src/memheap.c:855-905.  When nothing is left the caller resets the block. */
    method DropLast(h: nat)
      requires Valid() && h in Live() && mem[h].last && !mem[h].saved
      modifies this`freeX, this`freeMem, this`lastElemOff, this`freeElemOff, this`nsaved, this`hdrs, mem
      ensures lastElemOff != 0 ==> Valid() && Live() == old(Live()) - {h} && freeX != 0
      ensures lastElemOff == 0 ==> old(Live()).Keys == {h} && freeX == freeMem == nsaved == 0
      ensures lastElemOff != 0 ==> KeepsMarks(Live(), old(mem[..]), mem[..])
      ensures nsaved == old(nsaved)
    {
      LastFacts(Abs(), h);
      if mem[h].prevOff != 0 && mem[h - mem[h].prevOff].free {
        DropWithFree(h, h - mem[h].prevOff);
      } else {
        DropAlone(h);
      }
    }

    /** The last element and the free element p before it: src/memheap.c:865-891. */
    method DropWithFree(h: nat, p: nat)
      requires Valid() && h in Live() && mem[h].last && !mem[h].saved
      requires mem[h].prevOff != 0 && p == h - mem[h].prevOff && mem[p].free
      modifies this`freeX, this`freeMem, this`lastElemOff, this`freeElemOff, this`nsaved, this`hdrs, mem
      ensures lastElemOff != 0 ==> Valid() && Live() == old(Live()) - {h} && freeX != 0
      ensures lastElemOff == 0 ==> old(Live()).Keys == {h} && freeX == freeMem == nsaved == 0
      ensures lastElemOff != 0 ==> KeepsMarks(Live(), old(mem[..]), mem[..])
      ensures nsaved == old(nsaved)
    {
      hide Linked, Apart, FlagsOk, Total, FreeList, LastOk, DropEdit;
      ghost var b := Abs();
      LastFacts(b, h);
      FreeBeforeLast(b, h, p);
      if mem[p].prevOff == 0 { FreeAndLast(b, h, p); }
      ghost var q := TrimFree(h, p, FreeSet(mem[..], hdrs));
      if lastElemOff != 0 {
        DropFreeKeeps(b, h, p, Abs(), lastElemOff - 1, q);
        DropMarks(b.mem, mem[..], lastElemOff - 1, if b.freeElemOff == p + 1 then lastElemOff - 1 else q, Live()) by { LiveInside(); }
      }
    }

    /** The last element, behind a live one or none: src/memheap.c:893-895. */
    method DropAlone(h: nat)
      requires Valid() && h in Live() && mem[h].last && !mem[h].saved
      requires mem[h].prevOff <= h && (mem[h].prevOff != 0 ==> !mem[h - mem[h].prevOff].free)
      modifies this`freeX, this`freeMem, this`lastElemOff, this`freeElemOff, this`nsaved, this`hdrs, mem
      ensures lastElemOff != 0 ==> Valid() && Live() == old(Live()) - {h} && freeX != 0
      ensures lastElemOff == 0 ==> old(Live()).Keys == {h} && freeX == freeMem == nsaved == 0
      ensures lastElemOff != 0 ==> KeepsMarks(Live(), old(mem[..]), mem[..])
      ensures nsaved == old(nsaved)
    {
      hide Linked, Apart, FlagsOk, Total, FreeList, LastOk, KeepsMarks;
      ghost var b := Abs();
      LastFacts(b, h);
      if mem[h].prevOff == 0 { OnlyElement(b, h); }
      TrimLive(h);
      if lastElemOff != 0 {
        DropKeeps(b, h, Abs(), lastElemOff - 1);
        DropMarks(b.mem, mem[..], lastElemOff - 1, lastElemOff - 1, Live()) by { LiveInside(); }
      }
    }

    method TrimLive(h: nat)
      requires h < mem.Length && mem[h].prevOff <= h && mem[h].nunits + 1 <= freeX
      modifies this`freeX, this`freeMem, this`lastElemOff, this`freeElemOff, this`nsaved, this`hdrs, mem
      ensures old(mem[h]).prevOff == 0 ==>
                Abs() == old(Abs()).(hdrs := old(hdrs) - {h}, freeX := old(freeX) - old(mem[h]).nunits - 1, lastElemOff := 0)
      ensures old(mem[h]).prevOff != 0 ==>
                var l: nat, b := h - old(mem[h]).prevOff, old(Abs());
                Abs() == b.(mem := b.mem[l := b.mem[l].(last := true)], hdrs := b.hdrs - {h},
                            freeX := b.freeX - b.mem[h].nunits - 1, lastElemOff := l + 1)
    {
      freeX := freeX - (mem[h].nunits + 1);
      SetLastElem(h);
      hdrs := hdrs - {h};
    }

    method TrimFree(h: nat, prev: nat, ghost F: set<nat>) returns (ghost q: nat)
      requires prev < h < mem.Length && mem[prev].prevOff <= prev && mem[h].nunits + 1 + mem[prev].nunits + 1 <= freeX
      requires (forall f <- F :: f < mem.Length) && FreeList(mem[..], F, freeElemOff)
      requires prev in F && 0 < freeElemOff && (mem[prev].prevOff != 0 ==> prev - mem[prev].prevOff !in F)
      modifies this`freeX, this`freeMem, this`lastElemOff, this`freeElemOff, this`nsaved, this`hdrs, mem
      ensures freeX == old(freeX - mem[h].nunits - 1 - mem[prev].nunits - 1) && freeMem == old(freeMem - mem[prev].nunits)
      ensures hdrs == old(hdrs) - {h} - {prev} && nsaved == old(nsaved)
      ensures old(mem[prev]).prevOff == 0 ==> lastElemOff == 0
      ensures old(mem[prev]).prevOff != 0 ==>
                var l: nat := prev - old(mem[prev]).prevOff;
                && lastElemOff == l + 1 && q in F
                && DropEdit(old(mem[..]), mem[..], l, if old(freeElemOff) == prev + 1 then l else q)
                && (if old(freeElemOff) == prev + 1 then freeElemOff == 0
                    else freeElemOff == old(freeElemOff) && q + old(mem[..])[q].link == prev && q < prev)
    {
      freeX := freeX - (mem[h].nunits + 1);
      freeX := freeX - (mem[prev].nunits + 1);
      freeMem := freeMem - mem[prev].nunits;
      SetLastElem(prev);
      hdrs := hdrs - {h} - {prev};
      q := prev;
      if lastElemOff != 0 {
        if freeElemOff - 1 == prev {
          freeElemOff := 0;
        } else {
          FreeListFrame(old(mem[..]), F, freeElemOff, mem[..]);
          var pf := FreeBefore(prev, F);
          q := pf;
          mem[pf] := mem[pf].(link := 0);
        }
      }
    }

    /** SET_LAST_ELEM applied to the element before h, src/memheap.c:105-107. */
    method SetLastElem(h: nat)
      requires h < mem.Length && mem[h].prevOff <= h
      modifies this`lastElemOff, mem
      ensures old(mem[h].prevOff) == 0 ==> lastElemOff == 0 && mem[..] == old(mem[..])
      ensures old(mem[h].prevOff) != 0 ==>
                var l: nat := h - old(mem[h].prevOff);
                lastElemOff == l + 1 && mem[..] == old(mem[..])[l := old(mem[..])[l].(last := true)]
    {
      if mem[h].prevOff == 0 {
        lastElemOff := 0;
      } else {
        var l := h - mem[h].prevOff;
        mem[l] := mem[l].(last := true);
        lastElemOff := l + 1;
      }
    }

    /** The free element whose link leads to x: src/memheap.c:884-889. */
    method FreeBefore(x: nat, ghost F: set<nat>) returns (q: nat)
      requires (forall f <- F :: f < mem.Length) && FreeList(mem[..], F, freeElemOff)
      requires x in F && x != freeElemOff - 1
      ensures q in F && q < x && q + mem[q].link == x
    {
      var f := freeElemOff - 1;
      q := f;
      while f < x
        invariant f in F && f <= x
        invariant f == q || (q in F && q < f && q + mem[q].link == f)
        invariant f == q ==> f < x
        decreases x - f
      {
        q := f;
        assert LinkOk(mem[..], F, f);
        f := f + mem[f].link;
      }
    }

    /** setLastElem, src/memheap.c:513-533: the element behind unit e is marked free and, when it
        is the first free element of the block, put at the head of the free list; with no element
        (e == 0) the list is emptied, and an element marked LAST is left alone. */
    method MarkFree(e: nat)
      requires e <= mem.Length < 0x1_0000 && freeElemOff <= mem.Length
      modifies this`freeElemOff, mem
      ensures e == 0 ==> freeElemOff == 0 && mem[..] == old(mem[..])
      ensures e != 0 && old(mem[e - 1].last) ==> freeElemOff == old(freeElemOff) && mem[..] == old(mem[..])
      ensures e != 0 && !old(mem[e - 1].last) ==>
                && freeElemOff == (if old(freeElemOff) == 0 || e < old(freeElemOff) then e else old(freeElemOff))
                && mem[..] == old(mem[..])[e - 1 := old(mem[e - 1]).(free := true, link := if e < old(freeElemOff) then old(freeElemOff) - e else 0)]
    {
      if e == 0 {
        freeElemOff := 0;
        return;
      }
      var h := e - 1;
      if mem[h].last {
        return;
      } else if freeElemOff > h + 1 {
        mem[h] := mem[h].(link := freeElemOff - 1 - h);
        mem[h] := mem[h].(free := true);
        freeElemOff := h + 1;
      } else if freeElemOff == 0 {
        mem[h] := mem[h].(link := 0);
        mem[h] := mem[h].(free := true);
        freeElemOff := h + 1;
      } else {
        mem[h] := mem[h].(free := true);
        mem[h] := mem[h].(link := 0);
      }
    }

    /** The nearest free element before h, found through the boundary tags: src/memheap.c:981-986. */
    method FreeBackward(h: nat) returns (found: bool, p: nat)
      requires Tiled(mem[..], hdrs, freeX) && h in hdrs
      ensures found ==> p in hdrs && p < h && mem[p].free && forall g <- hdrs :: p < g < h ==> !mem[g].free
      ensures !found ==> forall g <- hdrs :: g < h ==> !mem[g].free
    {
      found, p := false, h;
      while mem[p].prevOff != 0
        invariant p in hdrs && p <= h
        invariant forall g <- hdrs :: p <= g < h ==> !mem[g].free
        decreases p
      {
        ghost var p0 := p;
        assert p != 0;
        assert Prev(mem[..], p) in hdrs && End(mem[..], Prev(mem[..], p)) == p;
        p := p - mem[p].prevOff;
        if mem[p].free {
          found := true;
          return;
        }
      }
      ghost var none := Prev(mem[..], p);
      assert p == 0;
    }

    /** h, a live element inside the block, becomes free and joins a free element before it:
        src/memheap.c:958-999.  x is the free element that now covers it. */
    method JoinBack(h: nat, ghost F: set<nat>) returns (x: nat)
      requires Tiled(mem[..], hdrs, freeX) && mem.Length < 0x1_0000
      requires F == FreeSet(mem[..], hdrs) && FreeList(mem[..], F, freeElemOff)
      requires h in hdrs && !mem[h].free && !mem[h].last && !mem[h].saved
      requires forall f <- F :: !mem[f].last && !mem[f].saved
      modifies this`freeElemOff, this`freeMem, mem
      ensures x == h || (x < h && x in F && End(old(mem[..]), x) == h)
      ensures x == h ==> forall g <- hdrs :: End(old(mem[..]), g) == h ==> !old(mem[..])[g].free
      ensures BackEdit(old(mem[..]), F, mem[..], h, x) && FreeList(mem[..], F + {x}, freeElemOff)
      ensures freeMem == old(freeMem) + mem[x].nunits - (if x < h then old(mem[..])[x].nunits else 0)
    {
      hide Linked, Apart, FlagsOk, Total;
      ghost var m0 := mem[..];
      assert End(m0, h) <= freeX;
      if mem[h].prevOff != 0 {
        PrevFacts(m0, hdrs, freeX, h);
        if mem[h - mem[h].prevOff].free {
          x := h - mem[h].prevOff;
          assert F + {x} == F;
          JoinPrev(h, x, F);
        } else {
          x := h;
          LinkFree(h, F);
        }
      } else {
        AtStart(m0, hdrs, freeX, h);
        x := h;
        MarkFree(h + 1);
        freeMem := freeMem + mem[h].nunits;
        FreeListPushFront(m0, F, old(freeElemOff), mem[..], h);
      }
    }

    method JoinPrev(h: nat, p: nat, ghost F: set<nat>)
      requires p < h < mem.Length < 0x1_0000 && End(mem[..], p) == h && End(mem[..], h) <= mem.Length
      requires (forall f <- F :: f < mem.Length) && FreeList(mem[..], F, freeElemOff) && p in F && h !in F
      requires mem[p].free && !mem[p].last && !mem[p].saved && !mem[h].last
      modifies this`freeElemOff, this`freeMem, mem
      ensures BackEdit(old(mem[..]), F, mem[..], h, p) && FreeList(mem[..], F, freeElemOff)
      ensures freeMem == old(freeMem) + mem[p].nunits - old(mem[p].nunits)
    {
      ghost var m0 := mem[..];
      MarkFree(h + 1);
      freeMem := freeMem + mem[h].nunits;
      mem[p] := mem[p].(nunits := mem[p].nunits + (mem[h].nunits + 1));
      freeMem := freeMem + 1;
      FreeListFrame(m0, F, freeElemOff, mem[..]);
    }

    method LinkFree(h: nat, ghost F: set<nat>)
      requires Tiled(mem[..], hdrs, freeX) && mem.Length < 0x1_0000
      requires F == FreeSet(mem[..], hdrs) && FreeList(mem[..], F, freeElemOff)
      requires h in hdrs && !mem[h].free && !mem[h].last && !mem[h].saved
      modifies this`freeElemOff, this`freeMem, mem
      ensures BackEdit(old(mem[..]), F, mem[..], h, h) && FreeList(mem[..], F + {h}, freeElemOff)
      ensures freeMem == old(freeMem) + mem[h].nunits
    {
      hide Linked, Apart, LinkOk;
      ghost var m0 := mem[..];
      MarkFree(h + 1);
      freeMem := freeMem + mem[h].nunits;
      forall g | g in hdrs ensures SameTags(m0, mem[..], g) {}
      TiledFrame(m0, hdrs, freeX, mem[..]);
      var found, q := FreeBackward(h);
      assert forall f <- F :: f in hdrs && mem[..][f].free && f != h;
      LinkIn(h, found, q, F, m0, old(freeElemOff));
    }

    /** The nextFreeOff fields around the newly freed h: src/memheap.c:988-997. */
    method LinkIn(h: nat, found: bool, q: nat, ghost F: set<nat>, ghost m0: seq<Unit>, ghost first: nat)
      requires |m0| == mem.Length < 0x1_0000 && h < |m0| && h !in F && !m0[h].free
      requires (forall f <- F :: f < |m0|) && FreeList(m0, F, first)
      requires found ==> q in F && q < h && forall f <- F :: f <= q || h < f
      requires !found ==> forall f <- F :: h < f
      requires freeElemOff == if first == 0 || h + 1 < first then h + 1 else first
      requires mem[..] == m0[h := m0[h].(free := true, link := if h + 1 < first then first - 1 - h else 0)]
      modifies mem
      ensures FreeList(mem[..], F + {h}, freeElemOff)
      ensures mem[h] == m0[h].(free := true, link := mem[h].link)
      ensures forall u | 0 <= u < mem.Length && u != h :: mem[u] == m0[u] || (u in F && mem[u] == m0[u].(link := mem[u].link))
    {
      if found {
        assert LinkOk(m0, F, q);
        mem[h] := mem[h].(link := if mem[q].link == 0 then 0 else q + mem[q].link - h);
        mem[q] := mem[q].(link := h - q);
        FreeListInsertAfter(m0, F, first, mem[..], q, h);
      } else {
        FreeListPushFront(m0, F, first, mem[..], h);
      }
    }

    /** The free element x swallows a free element after it, and the boundary tag of what then
        follows is corrected: src/memheap.c:1000-1018. */
    method JoinForward(x: nat, ghost F: set<nat>)
      requires x < mem.Length < 0x1_0000 && End(mem[..], x) < mem.Length && !mem[x].last
      requires (forall f <- F :: f < mem.Length) && FreeList(mem[..], F, freeElemOff) && x in F
      requires var q := End(mem[..], x); mem[q].free ==>
                 q in F && End(mem[..], q) < mem.Length && !mem[End(mem[..], q)].free && forall f <- F :: f <= x || q <= f
      modifies this`freeMem, mem
      ensures var q, m := End(old(mem[..]), x), old(mem[..]);
              var e := if m[q].free then End(m, q) else q;
              && ForwardEdit(m, mem[..], x, e)
              && freeMem == old(freeMem) + (if m[q].free then 1 else 0)
              && FreeList(mem[..], F - (if m[q].free then {q} else {}), freeElemOff)
    {
      ghost var m := mem[..];
      var q := x + 1 + mem[x].nunits;
      if mem[q].free {
        SwallowFree(x, q, F);
      } else {
        assert F - {} == F;
      }
      var next := x + 1 + mem[x].nunits;
      ghost var m1 := mem[..];
      mem[next] := mem[next].(prevOff := next - x);
      FreeListFrame(m1, F - (if m[q].free then {q} else {}), freeElemOff, mem[..]);
    }

    method SwallowFree(x: nat, q: nat, ghost F: set<nat>)
      requires x < q < mem.Length < 0x1_0000 && End(mem[..], x) == q && End(mem[..], q) < mem.Length
      requires (forall f <- F :: f < mem.Length && (f <= x || q <= f)) && FreeList(mem[..], F, freeElemOff) && x in F && q in F
      modifies this`freeMem, mem
      ensures mem[..] == old(mem[..])[x := old(mem[..])[x].(nunits := mem[x].nunits, link := mem[x].link)]
      ensures End(mem[..], x) == End(old(mem[..]), q) && freeMem == old(freeMem) + 1 && FreeList(mem[..], F - {q}, freeElemOff)
    {
      ghost var m := mem[..];
      assert LinkOk(m, F, x) && LinkOk(m, F, q);
      mem[x] := mem[x].(nunits := mem[x].nunits + (mem[q].nunits + 1));
      if mem[q].link == 0 {
        mem[x] := mem[x].(link := 0);
      } else {
        mem[x] := mem[x].(link := q + mem[q].link - x);
      }
      freeMem := freeMem + 1;
      FreeListRemoveNext(m, F, freeElemOff, mem[..], x, q);
    }

    /** An element that is not the last is freed: src/memheap.c:958-1024. */
    method FreeInner(h: nat)
      requires Valid() && h in Live() && !mem[h].last && !mem[h].saved
      modifies this`freeElemOff, this`freeMem, this`hdrs, mem
      ensures Valid() && Live() == old(Live()) - {h} && KeepsMarks(Live(), old(mem[..]), mem[..])
    {
      hide Linked, Apart, FlagsOk, FreeList, Total;
      ghost var b := Abs();
      assert End(b.mem, h) < |b.mem| by { InnerFacts(b.mem, hdrs, freeX, h); }
      ghost var x, m1 := Coalesce(h, FreeSet(mem[..], hdrs));
      FreeKeeps(b, m1, h, x, Abs());
      FreeMarks(b.mem, FreeSet(b.mem, b.hdrs), m1, mem[..], h, x, FreeEnd(b.mem, h), Live()) by { LiveInside(); }
    }

    lemma LiveInside()
      requires Valid()
      ensures forall g <- Live() :: g < mem.Length && !mem[g].free
    {
      hide Linked, Apart, FlagsOk, FreeList, LastOk, Total;
    }

    method Coalesce(h: nat, ghost F: set<nat>) returns (ghost x: nat, ghost m1: seq<Unit>)
      requires Tiled(mem[..], hdrs, freeX) && FlagsOk(mem[..], hdrs, freeX) && mem.Length < 0x1_0000
      requires F == FreeSet(mem[..], hdrs) && FreeList(mem[..], F, freeElemOff)
      requires h in hdrs && !mem[h].free && !mem[h].last && !mem[h].saved && End(mem[..], h) < mem.Length
      modifies this`freeElemOff, this`freeMem, this`hdrs, mem
      ensures var m, q, e := old(mem[..]), End(old(mem[..]), h), FreeEnd(old(mem[..]), h);
              && (x == h || (x < h && x in F && End(m, x) == h))
              && (x == h ==> forall g <- old(hdrs) :: End(m, g) == h ==> !m[g].free)
              && BackEdit(m, F, m1, h, x) && ForwardEdit(m1, mem[..], x, e)
              && FreeList(mem[..], F + {x} - (if m[q].free then {q} else {}), freeElemOff)
              && freeMem == old(freeMem) + e - x - 1 - (if x < h then m[x].nunits else 0) - (if m[q].free then m[q].nunits else 0)
              && hdrs == Without(old(hdrs), x, e)
    {
      hide Linked, Apart, FlagsOk, FreeList, Total;
      ghost var m, H := mem[..], hdrs;
      FreeAreInner(m, hdrs, freeX);
      var y := JoinBack(h, F);
      x, m1 := y, mem[..];
      ForwardReady(m, H, freeX, m1, h, x, F);
      JoinForward(y, F + {x});
      hdrs := Without(hdrs, x, FreeEnd(m, h));
    }

    /** The first free element from e on, found by walking the block: src/memheap.c:1080-1083. */
    method FreeForward(e: nat, ghost m: seq<Unit>) returns (found: bool, s: nat)
      requires Tiled(m, hdrs, freeX) && FlagsOk(m, hdrs, freeX) && e in hdrs && |m| == mem.Length
      requires forall g <- hdrs :: e <= g ==> mem[g].nunits == m[g].nunits && mem[g].free == m[g].free && mem[g].last == m[g].last
      ensures found ==> s in hdrs && e <= s && m[s].free && forall g <- hdrs :: e <= g < s ==> !m[g].free
      ensures !found ==> forall g <- hdrs :: e <= g ==> !m[g].free
    {
      found, s := false, e;
      while !mem[s].free
        invariant s in hdrs && e <= s
        invariant forall g <- hdrs :: e <= g < s ==> !m[g].free
        decreases freeX - s
      {
        assert End(m, s) <= freeX;
        if mem[s].last {
          return;
        }
        s := s + 1 + mem[s].nunits;
      }
      found := true;
    }

    /** First half of initNewFreeElement, src/memheap.c:1027-1056: the header of the new free
        element c behind the live element h, and the way to it along the free list. */
    method PlaceBack(c: nat, h: nat, ghost F: set<nat>) returns (ghost found: bool, ghost p: nat)
      requires Tiled(mem[..], hdrs, freeX) && mem.Length < 0x1_0000
      requires h in hdrs && !mem[h].free && h < c < mem.Length && c !in hdrs
      requires F <= FreeSet(mem[..], hdrs) && FreeList(mem[..], F, freeElemOff)
      requires forall g <- FreeSet(mem[..], hdrs) :: g in F || h < g
      requires forall f <- F :: f < h || c < f
      modifies this`freeElemOff, mem
      ensures found ==> p in F && p < c && (forall f <- F :: f <= p || c < f) && freeElemOff == old(freeElemOff)
      ensures found ==> mem[p] == old(mem[..])[p].(link := c - p)
      ensures !found ==> (forall f <- F :: c < f) && freeElemOff == c + 1
      ensures mem[c] == old(mem[..])[c].ClearFlags().(free := true, prevOff := c - h)
      ensures forall u | 0 <= u < mem.Length && u != c && !(found && u == p) :: mem[u] == old(mem[..])[u]
    {
      ghost var m := mem[..];
      var back, pf := false, 0;
      mem[c] := mem[c].ClearFlags();
      mem[c] := mem[c].(free := true);
      mem[c] := mem[c].(prevOff := c - h);
      if freeElemOff != 0 && freeElemOff < h + 1 {
        TiledFrame(m, hdrs, freeX, mem[..]);
        back, pf := FreeBackward(h);
      }
      found, p := back, pf;
      if back {
        mem[pf] := mem[pf].(link := c - pf);
      } else {
        freeElemOff := c + 1;
      }
    }

    /** The search for the next free element and the link to it: src/memheap.c:1077-1094. */
    method LinkForward(c: nat, next: nat, ghost F: set<nat>, ghost m: seq<Unit>)
      requires |m| == mem.Length < 0x1_0000 && Tiled(m, hdrs, freeX) && FlagsOk(m, hdrs, freeX)
      requires c < next && c !in hdrs && next in hdrs && c in F
      requires forall g <- hdrs :: mem[g].nunits == m[g].nunits && mem[g].free == m[g].free && mem[g].last == m[g].last
      requires forall f <- F :: f <= c || (next <= f && f in hdrs && m[f].free)
      requires forall f <- hdrs :: next <= f && m[f].free ==> f in F
      modifies mem
      ensures mem[..] == old(mem[..])[c := old(mem[..])[c].(link := mem[c].link)] && LinkOk(mem[..], F, c)
    {
      var ahead, s := FreeForward(next, m);
      if ahead {
        mem[c] := mem[c].(link := s - c);
      } else {
        mem[c] := mem[c].(link := 0);
      }
    }

    /** Second half of initNewFreeElement, src/memheap.c:1058-1094: c joins a free element after
        it and finds the next free element by walking the block.  (The link the source stores
        while joining is overwritten by the one it stores last.) */
    method PlaceForward(c: nat, ghost F: set<nat>, ghost m: seq<Unit>)
      requires |m| == mem.Length < 0x1_0000 && Tiled(m, hdrs, freeX) && FlagsOk(m, hdrs, freeX)
      requires c < mem.Length && c !in hdrs && End(m, c) in hdrs && mem[c].nunits == m[c].nunits
      requires forall g <- hdrs :: mem[g].nunits == m[g].nunits && mem[g].free == m[g].free && mem[g].last == m[g].last
      requires F <= FreeSet(m, hdrs) && forall f <- FreeSet(m, hdrs) :: End(m, c) <= f ==> f in F
      requires forall f <- F :: f < c || End(m, c) <= f
      requires var x := End(m, c); m[x].free ==> End(m, x) in hdrs && !m[End(m, x)].free
      modifies this`freeMem, mem
      ensures var x := End(m, c);
              var e := if m[x].free then End(m, x) else x;
              && mem[c] == old(mem[c]).(nunits := mem[c].nunits, link := mem[c].link) && End(mem[..], c) == e
              && mem[e] == old(mem[..])[e].(prevOff := mem[e].prevOff) && mem[e].prevOff == e - c
              && (forall u | 0 <= u < mem.Length && u != c && u != e :: mem[u] == old(mem[u]))
              && LinkOk(mem[..], F - (if m[x].free then {x} else {}) + {c}, c)
              && freeMem == old(freeMem) + (if m[x].free then 1 else 0)
    {
      hide FreeList, Total, Linked, FlagsOk;
      ghost var x := End(m, c);
      assert End(m, x) <= freeX && (m[x].free ==> End(m, End(m, x)) <= freeX);
      ghost var G := F - (if m[x].free then {x} else {}) + {c};
      assert forall f <- G :: f <= c || (if m[x].free then End(m, x) <= f else x <= f);
      hide Apart;
      var next := JoinNext(c, m);
      assert next in hdrs && next < mem.Length;
      LinkForward(c, next, G, m);
    }

    /** c swallows a free element behind it; next is what then follows: src/memheap.c:1058-1075. */
    method JoinNext(c: nat, ghost m: seq<Unit>) returns (next: nat)
      requires |m| == mem.Length < 0x1_0000 && c < |m| && mem[c].nunits == m[c].nunits && End(m, c) < |m|
      requires mem[End(m, c)].free == m[End(m, c)].free && mem[End(m, c)].nunits == m[End(m, c)].nunits
      requires m[End(m, c)].free ==> End(m, End(m, c)) < |m|
      modifies this`freeMem, mem
      ensures next == if m[End(m, c)].free then End(m, End(m, c)) else End(m, c)
      ensures mem[..] == old(mem[..])[c := old(mem[c]).(nunits := next - c - 1)][next := old(mem[next]).(prevOff := next - c)]
      ensures freeMem == old(freeMem) + (if m[End(m, c)].free then 1 else 0)
    {
      var x := c + 1 + mem[c].nunits;
      if mem[x].free {
        mem[c] := mem[c].(nunits := mem[c].nunits + (mem[x].nunits + 1));
        freeMem := freeMem + 1;
      }
      next := c + 1 + mem[c].nunits;
      mem[next] := mem[next].(prevOff := next - c);
    }

    /** initNewFreeElement, src/memheap.c:1027-1095, called with the size of c already set. */
    method InitNewFree(c: nat, h: nat, ghost F: set<nat>)
      requires Tiled(mem[..], hdrs, freeX) && FlagsOk(mem[..], hdrs, freeX) && mem.Length < 0x1_0000
      requires h in hdrs && !mem[h].free && h < c < mem.Length && c !in hdrs && End(mem[..], c) in hdrs
      requires F == Without(FreeSet(mem[..], hdrs), h, End(mem[..], c)) && FreeList(mem[..], F, freeElemOff)
      requires var x := End(mem[..], c); mem[x].free ==> End(mem[..], x) in hdrs && !mem[End(mem[..], x)].free
      modifies this`freeElemOff, this`freeMem, mem
      ensures var m, x := old(mem[..]), End(old(mem[..]), c);
              && NewFreeEdit(m, mem[..], F, h, c, if m[x].free then End(m, x) else x)
              && FreeList(mem[..], F - (if m[x].free then {x} else {}) + {c}, freeElemOff)
              && freeMem == old(freeMem) + (if m[x].free then 1 else 0)
    {
      hide Linked, Apart, FlagsOk, FreeList, Total;
      ghost var m, first := mem[..], freeElemOff;
      ghost var found, p := PlaceBack(c, h, F);
      PlaceForward(c, F, m);
      FreeListPlace(m, F, first, mem[..], if m[End(m, c)].free then {End(m, c)} else {}, freeElemOff, found, p, c);
    }

    /** The last element grows or shrinks in place: src/memheap.c:1176-1197, 1336-1342. */
    method ResizeLast(h: nat, n: nat)
      requires Valid() && h in Live() && mem[h].last && h + 1 + n <= mem.Length
      modifies this`freeX, mem
      ensures Valid() && Resized(old(Live()), Live(), h) && |Live()[h]| == n
      ensures KeepsMarks(old(Live()), old(mem[..]), mem[..])
    {
      hide Linked, Apart, FlagsOk, FreeList, Total;
      ghost var (b, s) := (Abs(), Live());
      LiveInside();
      LastFacts(b, h);
      freeX := freeX + n - mem[h].nunits;
      mem[h] := mem[h].(nunits := n);
      ResizeLastKeeps(b, h, n, Abs());
      OneMark(b.mem, h, mem[h], s);
    }

    /** The tail of an inner element becomes a free element: src/memheap.c:1343-1356. */
    method ShrinkInner(h: nat, n: nat)
      requires Valid() && h in Live() && !mem[h].last && n + 1 < mem[h].nunits
      modifies this`freeElemOff, this`freeMem, this`hdrs, mem
      ensures Valid() && Resized(old(Live()), Live(), h) && |Live()[h]| == n
      ensures KeepsMarks(old(Live()), old(mem[..]), mem[..])
    {
      hide Linked, Apart, FlagsOk, FreeList, LastOk, Total;
      ghost var b := Abs();
      InnerFacts(b.mem, hdrs, freeX, h);
      CutInner(h, n);
      CutKeeps(b, Abs(), h, h + 1 + n);
    }

    method CutInner(h: nat, n: nat)
      requires Tiled(mem[..], hdrs, freeX) && FlagsOk(mem[..], hdrs, freeX) && mem.Length < 0x1_0000
      requires FreeList(mem[..], FreeSet(mem[..], hdrs), freeElemOff)
      requires h in hdrs && !mem[h].free && !mem[h].last && n + 1 < mem[h].nunits && End(mem[..], h) < mem.Length
      modifies this`freeElemOff, this`freeMem, this`hdrs, mem
      ensures CutPost(old(Abs()), Abs(), h, h + 1 + n)
    {
      hide Linked, Apart, FlagsOk, FreeList, Total;
      ghost var m, H, e := mem[..], hdrs, FreeEnd(mem[..], h);
      InnerFacts(m, H, freeX, h);
      var c := h + 1 + n;
      ghost var m1 := NewFreeAt(c, h, mem[h].nunits - n - 1, m, FreeSet(m, H));
      freeMem := freeMem + (mem[h].nunits - n - 1);
      SetSize(h, n, m, m1, FreeSet(m, H));
    }

    /** The live element h ends where the free element behind it starts. */
    method SetSize(h: nat, n: nat, ghost m: seq<Unit>, ghost m1: seq<Unit>, ghost F: set<nat>)
      requires |m| == |m1| == mem.Length && Tiled(m, hdrs, freeX) && FlagsOk(m, hdrs, freeX)
      requires h in hdrs && !m[h].free && !m[h].last && End(m, h) < |m| && h + 1 + n !in hdrs && h + 1 + n < FreeEnd(m, h)
      requires F <= FreeSet(m, hdrs)
      requires forall u | 0 <= u < |m| && u != h + 1 + n :: m1[u] == m[u] || (u in hdrs && m[u].free && m1[u] == m[u].(link := m1[u].link))
      requires NewFreeEdit(m1, mem[..], F, h, h + 1 + n, FreeEnd(m, h))
      requires (forall f <- FreeSet(m, hdrs) :: f < |m|) && FreeList(mem[..], Without(FreeSet(m, hdrs), h, FreeEnd(m, h)) + {h + 1 + n}, freeElemOff)
      modifies this`hdrs, mem
      ensures SplitEdit(m, old(hdrs), mem[..], h, h + 1 + n, FreeEnd(m, h))
      ensures FreeList(mem[..], Without(FreeSet(m, old(hdrs)), h, FreeEnd(m, h)) + {h + 1 + n}, freeElemOff)
      ensures hdrs == Without(old(hdrs), h, FreeEnd(m, h)) + {h + 1 + n}
    {
      CutDone(m, hdrs, freeX, m1, mem[..], F, freeElemOff, h, h + 1 + n, FreeEnd(m, h));
      mem[h] := mem[h].(nunits := n);
      hdrs := Without(hdrs, h, FreeEnd(m, h)) + {h + 1 + n};
    }

    /** A new free element c of the given size behind h, before the next live header. */
    method NewFreeAt(c: nat, h: nat, size: nat, ghost m: seq<Unit>, ghost F: set<nat>) returns (ghost m1: seq<Unit>)
      requires |m| == mem.Length < 0x1_0000 && Tiled(m, hdrs, freeX) && FlagsOk(m, hdrs, freeX)
      requires h in hdrs && !m[h].free && !m[h].last && h < c && c + size < mem.Length && c !in hdrs
      requires SameButLinks(m, hdrs, mem[..]) && (forall f <- F :: f < mem.Length) && FreeList(mem[..], F, freeElemOff)
      requires c + 1 + size == End(m, h) || (m[End(m, h)].free && c + 1 + size == End(m, End(m, h)))
      requires F == FreeSet(m, hdrs) - (if c + 1 + size == End(m, h) then {} else {End(m, h)})
      modifies this`freeElemOff, this`freeMem, mem
      ensures m1 == old(mem[..])[c := old(mem[..])[c].(nunits := size)]
      ensures NewFreeEdit(m1, mem[..], F, h, c, FreeEnd(m, h))
      ensures FreeList(mem[..], Without(FreeSet(m, hdrs), h, FreeEnd(m, h)) + {c}, freeElemOff)
      ensures freeMem == old(freeMem) + (if c + 1 + size == End(m, h) && m[End(m, h)].free then 1 else 0)
    {
      hide Linked, Apart, FlagsOk, FreeList;
      ghost var m0, x := mem[..], c + 1 + size;
      mem[c] := mem[c].(nunits := size);
      m1 := mem[..];
      FreeListFrame(m0, F, freeElemOff, m1);
      InnerFacts(m, hdrs, freeX, h);
      LinksFrame(m, hdrs, freeX, m1);
      assert Without(FreeSet(m, hdrs), h, x) == F;
      assert F - (if m[x].free then {x} else {}) == Without(FreeSet(m, hdrs), h, FreeEnd(m, h));
      InitNewFree(c, h, F);
    }

    /** FORCE_SET_FREE_ELEM applied to GET_NEXT_FREE (q), src/memheap.c:113-117. */
    method PopFree(q: nat, ghost F: set<nat>)
      requires (forall f <- F :: f < mem.Length && mem[f].free) && FreeList(mem[..], F, freeElemOff)
      requires 0 < freeElemOff && q == freeElemOff - 1
      modifies this`freeElemOff, mem
      ensures mem[..] == old(mem[..]) && FreeList(mem[..], F - {q}, freeElemOff)
    {
      ghost var m := mem[..];
      assert LinkOk(m, F, q);
      if mem[q].link == 0 {
        freeElemOff := 0;
      } else {
        var next := q + mem[q].link;
        mem[next] := mem[next].(free := true);
        freeElemOff := next + 1;
      }
      assert mem[..] == m;
      FreeListPopFront(m, F, q + 1, mem[..]);
    }

    /** The free element q behind h leaves the free list: src/memheap.c:1222-1246. */
    method UnlinkNext(h: nat, q: nat, ghost F: set<nat>)
      requires (forall f <- F :: f < mem.Length && mem[f].free) && FreeList(mem[..], F, freeElemOff)
      requires mem.Length < 0x1_0000 && q in F && h < q && forall f <- F :: f < h || q <= f
      modifies this`freeElemOff, mem
      ensures FreeList(mem[..], F - {q}, freeElemOff)
      ensures forall u | 0 <= u < mem.Length :: mem[u] == old(mem[u]) || (u in F && mem[u] == old(mem[u]).(link := mem[u].link))
    {
      if freeElemOff - 1 == q {
        PopFree(q, F);
      } else if freeElemOff - 1 < h {
        var f := freeElemOff - 1;
        ghost var m := mem[..];
        while f < q
          invariant f in F && f < q && mem[..] == m
          decreases q - f
        {
          assert LinkOk(m, F, f);
          var nf := f + mem[f].link;
          if nf == q {
            assert LinkOk(m, F, q);
            mem[f] := mem[f].(link := if mem[q].link != 0 then q + mem[q].link - f else 0);
            FreeListRemoveNext(m, F, freeElemOff, mem[..], f, q);
            return;
          }
          f := nf;
        }
      }
    }

    /** h grows over the free element behind it: src/memheap.c:1201-1283. */
    method GrowInto(h: nat, n: nat)
      requires Valid() && h in Live() && !mem[h].last && mem[h].nunits < n
      requires End(mem[..], h) < mem.Length && mem[End(mem[..], h)].free && n <= mem[h].nunits + mem[End(mem[..], h)].nunits + 1
      modifies this`freeElemOff, this`freeMem, this`hdrs, mem
      ensures Valid() && Resized(old(Live()), Live(), h) && KeepsMarks(old(Live()), old(mem[..]), mem[..])
      ensures |Live()[h]| == var sum := old(mem[h].nunits + mem[End(mem[..], h)].nunits + 1); if sum <= n + 1 then sum else n
    {
      hide Linked, Apart, FlagsOk, FreeList, LastOk, Total, AbsorbPost, CutPost, Resized;
      ghost var b := Abs();
      var whole := TakeOver(h, n);
      if whole {
        AbsorbResizes(b, Abs(), h);
      } else {
        CutKeeps(b, Abs(), h, h + 1 + n);
      }
    }

    method TakeOver(h: nat, n: nat) returns (whole: bool)
      requires Tiled(mem[..], hdrs, freeX) && FlagsOk(mem[..], hdrs, freeX) && mem.Length < 0x1_0000
      requires FreeList(mem[..], FreeSet(mem[..], hdrs), freeElemOff)
      requires h in hdrs && !mem[h].free && !mem[h].last && mem[h].nunits < n
      requires End(mem[..], h) < mem.Length && mem[End(mem[..], h)].free && n <= mem[h].nunits + mem[End(mem[..], h)].nunits + 1
      modifies this`freeElemOff, this`freeMem, this`hdrs, mem
      ensures whole <==> old(mem[h].nunits + mem[End(mem[..], h)].nunits + 1) <= n + 1
      ensures whole ==> AbsorbPost(old(Abs()), Abs(), h)
      ensures !whole ==> CutPost(old(Abs()), Abs(), h, h + 1 + n)
    {
      hide Linked, Apart, FlagsOk, FreeList;
      ghost var b, F := Abs(), FreeSet(mem[..], hdrs);
      InnerFacts(b.mem, hdrs, freeX, h);
      var q := h + 1 + mem[h].nunits;
      var sum := mem[h].nunits + (mem[q].nunits + 1);
      UnlinkNext(h, q, F);
      freeMem := freeMem + 1;
      whole := sum - n <= 1;
      if whole {
        Absorb(h, sum, b.mem, F);
      } else {
        CutOff(h, n, sum, b);
      }
    }

    /** The free element behind h, already out of the free list, is cut: src/memheap.c:1251-1265. */
    method CutOff(h: nat, n: nat, sum: nat, ghost b: Blk)
      requires |b.mem| == mem.Length < 0x1_0000 && Tiled(b.mem, hdrs, freeX) && FlagsOk(b.mem, hdrs, freeX)
      requires h in hdrs && !b.mem[h].free && !b.mem[h].last && b.mem[h].nunits < n && n + 1 < sum
      requires End(b.mem, h) < |b.mem| && b.mem[End(b.mem, h)].free && sum == b.mem[h].nunits + b.mem[End(b.mem, h)].nunits + 1
      requires Abs() == b.(mem := mem[..], freeMem := b.freeMem + 1, freeElemOff := freeElemOff)
      requires forall u | 0 <= u < mem.Length :: mem[u] == b.mem[u] || (u in FreeSet(b.mem, hdrs) && mem[u] == b.mem[u].(link := mem[u].link))
      requires (forall f <- FreeSet(b.mem, hdrs) :: f < mem.Length) && FreeList(mem[..], FreeSet(b.mem, hdrs) - {End(b.mem, h)}, freeElemOff)
      modifies this`freeElemOff, this`freeMem, this`hdrs, mem
      ensures CutPost(b, Abs(), h, h + 1 + n)
    {
      hide Linked, Apart, FlagsOk, FreeList;
      ghost var m := b.mem;
      InnerFacts(m, hdrs, freeX, h);
      ghost var q := End(m, h);
      var was := mem[h].nunits;
      ghost var F := FreeSet(m, hdrs) - {q};
      ghost var m1 := NewFreeAt(h + 1 + n, h, sum - n - 1, m, F);
      freeMem := freeMem - 1;
      freeMem := freeMem - (n - was);
      SetSize(h, n, m, m1, F);
    }

    method Absorb(h: nat, sum: nat, ghost m: seq<Unit>, ghost F: set<nat>)
      requires |m| == mem.Length < 0x1_0000 && Tiled(m, hdrs, freeX) && FlagsOk(m, hdrs, freeX) && F == FreeSet(m, hdrs)
      requires h in hdrs && !m[h].free && !m[h].last && End(m, h) < |m| && m[End(m, h)].free
      requires sum == m[h].nunits + m[End(m, h)].nunits + 1
      requires forall u | 0 <= u < |m| :: mem[u] == m[u] || (u in F && mem[u] == m[u].(link := mem[u].link))
      requires (forall f <- F :: f < |m|) && FreeList(mem[..], F - {End(m, h)}, freeElemOff)
      modifies this`freeMem, this`hdrs, mem
      ensures AbsorbEdit(m, old(hdrs), mem[..], h, FreeEnd(m, h)) && hdrs == Without(old(hdrs), h, FreeEnd(m, h))
      ensures FreeList(mem[..], F - {End(m, h)}, freeElemOff) && freeMem == old(freeMem) - (sum - m[h].nunits)
    {
      hide Linked, Apart, FlagsOk, FreeList, Total;
      ghost var m1 := mem[..];
      InnerFacts(m, hdrs, freeX, h);
      freeMem := freeMem - (sum - mem[h].nunits);
      mem[h] := mem[h].(nunits := sum);
      var next := h + 1 + mem[h].nunits;
      mem[next] := mem[next].(prevOff := next - h);
      FreeListFrame(m1, F - {End(m, h)}, freeElemOff, mem[..]);
      hdrs := Without(hdrs, h, FreeEnd(m, h));
    }

    /** First fit along the free list, src/memheap.c:636-690: the element found is unlinked and
        made live at its full size; the caller then cuts it down. */
    method TakeFree(n: nat) returns (found: bool, h: nat)
      requires Valid()
      modifies this`freeElemOff, this`freeMem, mem
      ensures found ==> Valid() && h !in old(Live()) && h in Live() && Live() == old(Live())[h := Live()[h]] && n <= |Live()[h]|
      ensures found ==> h < mem.Length && !mem[h].last && !mem[h].saved && |Live()[h]| == mem[h].nunits
      ensures found ==> FitsFirst(old(Abs()), h, n) && mem[h].nunits == old(mem[..])[h].nunits
      ensures found ==> KeepsMarks(old(Live()), old(mem[..]), mem[..])
      ensures !found ==> Abs() == old(Abs()) && NoneFits(old(Abs()), n)
    {
      hide Linked, Apart, FlagsOk, FreeList, LastOk, Total;
      ghost var b := Abs();
      ghost var F := FreeSet(mem[..], hdrs);
      FreeAreInner(b.mem, hdrs, freeX);
      LiveInside();
      ghost var s := Live();
      var p, hasPrev;
      found, h, hasPrev, p := FirstFit(n, F);
      if found {
        Unlink(h, hasPrev, p, F);
        TakeKeeps(b, h, Abs());
        TakeMarks(b.mem, b.hdrs, mem[..], h, s);
      }
    }

    method FirstFit(n: nat, ghost F: set<nat>) returns (found: bool, h: nat, hasPrev: bool, p: nat)
      requires (forall f <- F :: f < mem.Length) && FreeList(mem[..], F, freeElemOff)
      ensures found ==> h in F && n <= mem[h].nunits && forall f <- F :: f < h ==> mem[f].nunits < n
      ensures found ==> if hasPrev then p in F && p < h && p + mem[p].link == h else freeElemOff == h + 1
      ensures !found ==> forall f <- F :: mem[f].nunits < n
    {
      found, h, hasPrev, p := false, 0, false, 0;
      if freeElemOff == 0 {
        return;
      }
      h := freeElemOff - 1;
      while true
        invariant h in F && forall f <- F :: f < h ==> mem[f].nunits < n
        invariant if hasPrev then p in F && p < h && p + mem[p].link == h else freeElemOff == h + 1
        decreases mem.Length - h
      {
        if n <= mem[h].nunits {
          found := true;
          return;
        }
        assert LinkOk(mem[..], F, h);
        if mem[h].link == 0 {
          return;
        }
        hasPrev, p := true, h;
        h := h + mem[h].link;
      }
    }

    /** The free element p leads past the next one, h: src/memheap.c:665-672. */
    method LinkPast(h: nat, p: nat, ghost F: set<nat>)
      requires (forall f <- F :: f < mem.Length < 0x1_0000) && FreeList(mem[..], F, freeElemOff)
      requires h in F && p in F && p < h && p + mem[p].link == h
      modifies mem
      ensures mem[..] == old(mem[..])[p := old(mem[p]).(link := mem[p].link)] && FreeList(mem[..], F - {h}, freeElemOff)
    {
      ghost var m := mem[..];
      assert LinkOk(m, F, p) && LinkOk(m, F, h);
      if mem[h].link != 0 {
        mem[p] := mem[p].(link := h + mem[h].link - p);
      } else {
        mem[p] := mem[p].(link := 0);
      }
      FreeListRemoveNext(m, F, freeElemOff, mem[..], p, h);
    }

    method Unlink(h: nat, hasPrev: bool, p: nat, ghost F: set<nat>)
      requires F == (set f | f in hdrs && f < mem.Length && mem[f].free) && (forall g <- hdrs :: g < mem.Length < 0x1_0000)
      requires FreeList(mem[..], F, freeElemOff) && h in F
      requires if hasPrev then p in F && p < h && p + mem[p].link == h else freeElemOff == h + 1
      modifies this`freeElemOff, this`freeMem, mem
      ensures TakeEdit(old(mem[..]), hdrs, mem[..], h) && FreeList(mem[..], F - {h}, freeElemOff)
      ensures freeMem == old(freeMem) - mem[h].nunits
    {
      hide FreeList;
      ghost var m := mem[..];
      if freeElemOff == h + 1 {
        PopFree(h, F);
      } else {
        LinkPast(h, p, F);
      }
      ghost var m1 := mem[..];
      mem[h] := mem[h].(free := false);
      mem[h] := mem[h].(link := h);
      freeMem := freeMem - mem[h].nunits;
      FreeListFrame(m1, F - {h}, freeElemOff, mem[..]);
    }

    /** SET_SAVED and CLEAR_SAVED, src/memheap.c:78-81. */
    method SetSaved(h: nat, s: bool)
      requires Valid() && h in Live() && mem[h].saved != s
      modifies this`nsaved, mem
      ensures Valid() && Live() == old(Live()) && mem[..] == old(mem[..])[h := old(mem[h]).(saved := s)]
      ensures nsaved == old(nsaved) + (if s then 1 else -1)
    {
      hide Linked, Apart, FlagsOk, FreeList, LastOk, Total;
      ghost var b := Abs();
      mem[h] := mem[h].(saved := s);
      nsaved := if s then nsaved + 1 else nsaved - 1;
      SavedKeeps(b, h, s, Abs());
    }

    /** The block made clean for re-use: src/memheap.c:941-948, 1565-1568. */
    method Clean()
      requires mem.Length < 0x1_0000
      modifies this`freeX, this`freeMem, this`lastElemOff, this`freeElemOff, this`nsaved, this`hdrs
      ensures Valid() && Live() == map[] && IsClean()
    {
      freeX := 0;
      freeElemOff := 0;
      lastElemOff := 0;
      freeMem := 0;
      nsaved := 0;
      hdrs := {};
      EmptyInv(mem[..]);
    }

    ghost predicate IsClean()
      reads this
    {
      freeX == 0 && freeMem == 0 && lastElemOff == 0 && freeElemOff == 0 && nsaved == 0 && hdrs == {}
    }

    /** A caller stores into unit j of its payload. */
    method WriteUnit(h: nat, j: nat, u: Unit)
      requires Valid() && h in Live() && j < |Live()[h]|
      modifies mem
      ensures Valid() && Live() == old(Live())[h := old(Live())[h][j := u]]
      ensures KeepsMarks(Live(), old(mem[..]), mem[..])
    {
      hide Linked, Apart, FlagsOk, FreeList, LastOk, Total;
      ghost var b := Abs();
      assert End(b.mem, h) <= freeX;
      mem[h + 1 + j] := u;
      WriteKeeps(b, h, j, u, Abs());
      WriteMarks(b, h, j, u);
    }

    method WriteAppend(n: U16)
      requires freeX + n + 1 <= mem.Length < 0x1_0000 && lastElemOff <= freeX
      modifies this`freeX, this`freeMem, this`lastElemOff, this`freeElemOff, this`nsaved, this`hdrs, mem
      ensures Abs() == Appended(old(Abs()), n)
    {
      var h := freeX;
      mem[h] := mem[h].ClearFlags();
      if lastElemOff != 0 {
        mem[h] := mem[h].(prevOff := freeX - lastElemOff + 1);
      } else {
        mem[h] := mem[h].(prevOff := 0);
      }
      if lastElemOff != 0 {
        mem[lastElemOff - 1] := mem[lastElemOff - 1].(last := false);
      }
      mem[h] := mem[h].(nunits := n);
      mem[h] := mem[h].(link := h);
      lastElemOff := freeX + 1;
      freeX := freeX + n + 1;
      mem[h] := mem[h].(last := true);
      lastElemOff := h + 1;
      hdrs := hdrs + {h};
    }
  }

  ghost function Appended(b: Blk, n: U16): Blk
    requires b.freeX + n + 1 <= |b.mem| < 0x1_0000 && b.lastElemOff <= b.freeX
  {
    var h := b.freeX;
    var u := b.mem[h].ClearFlags().(prevOff := if b.lastElemOff == 0 then 0 else h + 1 - b.lastElemOff, nunits := n, link := h, last := true);
    var m := if b.lastElemOff == 0 then b.mem else b.mem[b.lastElemOff - 1 := b.mem[b.lastElemOff - 1].(last := false)];
    b.(mem := m[h := u], hdrs := b.hdrs + {h}, freeX := h + n + 1, lastElemOff := h + 1)
  }

  lemma AppendKeeps(b: Blk, n: U16)
    requires Inv(b) && b.freeX + n + 1 <= |b.mem|
    ensures b.lastElemOff <= b.freeX && Inv(Appended(b, n)) && b.freeX !in b.hdrs && !Appended(b, n).mem[b.freeX].free
    ensures Store(Appended(b, n).mem, Appended(b, n).hdrs, Appended(b, n).freeX) ==
            Store(b.mem, b.hdrs, b.freeX)[b.freeX := Payload(Appended(b, n).mem, b.freeX)]
    ensures KeepsMarks(Store(b.mem, b.hdrs, b.freeX), b.mem, Appended(b, n).mem)
  {
    hide Linked, Apart, FlagsOk, FreeList, Total;
    var c := Appended(b, n);
    var l := if b.lastElemOff == 0 then 0 else b.lastElemOff - 1;
    AppendTiled(b.mem, b.hdrs, b.freeX, c.mem, l);
    AppendFlags(b.mem, b.hdrs, b.freeX, c.mem, l);
    AppendTotals(b.mem, b.hdrs, b.freeX, c.mem, l);
    AppendStore(b.mem, b.hdrs, b.freeX, c.mem, l);
    FreeListFrame(b.mem, FreeSet(b.mem, b.hdrs), b.freeElemOff, c.mem);
  }
}
