/** The heap of src/memheap.c: a list of standard and RAW blocks that callers share. */
module MemHeap {
  import opened MemBlockModel
  import opened MemBlock
  import opened MemHeapModel

  class Heap {
    var links: seq<MemLink>
    var usedUnits: int
    var usedBlocks: int
    var freeUnits: int
    var freeBlocks: int
    var keepFreeUnits: nat
    var defBlkSize: nat
    var dontKeepFree: bool
    ghost var view: seq<LinkInfo>
    ghost var Repr: set<object>

    /** Link l is in the state x. */
    static ghost predicate Agrees(l: MemLink, x: LinkInfo)
      reads l`data, l`saved, x.Owner(), x.Memory()
    {
      match x
      case StdInfo(b, cap, clean, live) =>
        && l.blk == b && b.plink == l && b.Valid() && cap == b.mem.Length && clean == (b.freeX == 0)
        && live == b.Live() && (l.saved <==> b.nsaved != 0)
      case RawInfo(d, c) => l.blk == null && l.data == d && c == d[..]
    }

    static ghost predicate AllApart(ls: seq<MemLink>, v: seq<LinkInfo>) {
      && |ls| == |v| && Distinct(v)
      && (forall i, j | 0 <= i < j < |ls| :: ls[i] != ls[j])
      && (forall i, j | 0 <= i < j < |v| :: v[i].Memory() != v[j].Memory())
    }

    static lemma ApartWithout(ls: seq<MemLink>, v: seq<LinkInfo>, k: nat)
      requires AllApart(ls, v) && k < |ls|
      ensures AllApart(ls[..k] + ls[k + 1..], v[..k] + v[k + 1..])
    {
      DistinctRemove(v, k);
      var w := ls[..k] + ls[k + 1..];
      assert forall i | 0 <= i < |w| :: w[i] == if i < k then ls[i] else ls[i + 1];
    }

    ghost predicate Separate()
      reads this
    {
      AllApart(links, view)
    }

    ghost predicate Chained()
      reads this`links, links`pnextRaw
    {
      forall i | 0 <= i < |links| :: links[i].pnextRaw == NextRaw(links, i)
    }

    ghost predicate Counted()
      reads this
    {
      && usedUnits == Sums(UsedUnits, view) && usedBlocks == Sums(UsedBlocks, view)
      && freeUnits == Sums(FreeUnits, view) && freeBlocks == Sums(FreeBlocks, view)
    }

    /** The list of blocks is in order; the totals may not be. */
    ghost predicate Sound()
      reads this, Repr
    {
      && Separate()
      && (forall l <- links :: l in Repr)
      && (forall i | 0 <= i < |view| :: view[i].Owner() in Repr && view[i].Memory() in Repr)
      && (forall i | 0 <= i < |links| :: Agrees(links[i], view[i]))
      && Chained()
      && this in Repr && 0 < defBlkSize < 0x1000_0000
    }

    ghost predicate Valid()
      reads this, Repr
    {
      Sound() && Counted()
    }

    /** Valid, but for the state of standard block i. */
    ghost predicate ValidBut(i: nat)
      reads this, Repr
    {
      && Separate() && i < |links| && view[i].StdInfo?
      && (forall l <- links :: l in Repr)
      && (forall j | 0 <= j < |view| :: view[j].Owner() in Repr && view[j].Memory() in Repr)
      && (forall j | 0 <= j < |links| && j != i :: Agrees(links[j], view[j]))
      && Chained()
      && this in Repr && 0 < defBlkSize < 0x1000_0000
    }

    /** The list is in order, but for the state of link i and the chain of RAW blocks. */
    ghost predicate ListedBut(i: nat)
      reads this, Repr
    {
      && Separate() && i < |links|
      && (forall l <- links :: l in Repr) && this in Repr && 0 < defBlkSize < 0x1000_0000
      && (forall j | 0 <= j < |view| :: view[j].Owner() in Repr && view[j].Memory() in Repr)
      && (forall j | 0 <= j < |links| && j != i :: Agrees(links[j], view[j]))
    }

    /** The totals are those of the list without link i. */
    ghost predicate CountedWithout(i: nat)
      reads this
    {
      && i < |view|
      && var v := view[..i] + view[i + 1..];
      && Distinct(v) && usedUnits == Sums(UsedUnits, v) && usedBlocks == Sums(UsedBlocks, v)
      && freeUnits == Sums(FreeUnits, v) && freeBlocks == Sums(FreeBlocks, v)
    }

    /** Every live pointer with its payload: what the callers of the heap own. */
    ghost function Owned(): map<Ptr, seq<Unit>>
      reads this`view
    {
      Contents(view)
    }

    ghost predicate CountedAs(i: nat, y: LinkInfo)
      requires i < |view|
      reads this
    {
      && usedUnits == Sums(UsedUnits, view) && usedBlocks == Sums(UsedBlocks, view)
      && freeUnits == Sums(FreeUnits, view) - Part(FreeUnits, view[i]) + Part(FreeUnits, y)
      && freeBlocks == Sums(FreeBlocks, view) - Part(FreeBlocks, view[i]) + Part(FreeBlocks, y)
    }

    /** The abstract state catches up with a change of standard block i. */
    ghost method SetView(i: nat, y: LinkInfo)
      requires ValidBut(i) && y.StdInfo? && y.blk == view[i].blk && y.cap == view[i].cap
      requires Agrees(links[i], y) && CountedAs(i, y)
      modifies this`view
      ensures Valid() && view == old(view)[i := y]
    {
      hide Inv, Sums, NextRaw;
      SumsSet(UsedUnits, view, i, y);
      SumsSet(UsedBlocks, view, i, y);
      SumsSet(FreeUnits, view, i, y);
      SumsSet(FreeBlocks, view, i, y);
      view := view[i := y];
    }

    /** The same, when the element h of the block is gone. */
    ghost method DropView(i: nat, y: LinkInfo, h: nat)
      requires ValidBut(i) && y.StdInfo? && y.blk == view[i].blk && y.cap == view[i].cap
      requires h in view[i].live && y.live == view[i].live - {h} && Agrees(links[i], y) && CountedAs(i, y)
      modifies this`view
      ensures Valid() && view == old(view)[i := y] && Owned() == old(Owned()) - {Std(y.blk, h)}
    {
      hide Inv, Contents, Sums, NextRaw, Agrees, CountedAs;
      StdDelete(view, i, y, h);
      SetView(i, y);
    }

    /** memHeapCreate, src/memheap.c:1702-1719. */
    constructor (blkSize: nat)
      requires 0 < blkSize < 0x1000_0000
      ensures Valid() && Owned() == map[]
    {
      links, view := [], [];
      usedUnits, usedBlocks, freeUnits, freeBlocks, keepFreeUnits := 0, 0, 0, 0, 0;
      defBlkSize, dontKeepFree := blkSize, false;
      Repr := {this};
    }

    /** Taking a slot at the end of block i: src/memheap.c:582-632. */
    method SlotAtEnd(i: nat, n: nat) returns (p: Ptr)
      requires Valid() && i < |links| && !links[i].IsRaw() && links[i].blk.freeX + n + 1 <= links[i].blk.mem.Length
      modifies this`freeUnits, this`freeBlocks, this`view, links[i].blk, links[i].blk.mem
      ensures Valid() && links == old(links)
      ensures p == Std(old(links[i].blk), old(links[i].blk.freeX))
      ensures freeUnits == old(freeUnits) - (if old(links[i].blk.freeX) == 0 then old(links[i].blk.mem.Length) else 0)
      ensures freeBlocks == old(freeBlocks) - (if old(links[i].blk.freeX) == 0 then 1 else 0)
      ensures old(view)[i].StdInfo? && KeepsMarks(old(view)[i].live, old(view[i].blk.mem[..]), old(view)[i].blk.mem[..])
      ensures p !in old(Owned()) && p in Owned() && Owned() == old(Owned())[p := Owned()[p]] && |Owned()[p]| == n
    {
      hide Inv, Contents, Sums, NextRaw, KeepsMarks;
      var blk := links[i].blk;
      ghost var x := view[i];
      assert Agrees(links[i], x);
      if blk.freeX == 0 {
        freeUnits := freeUnits - blk.mem.Length;
        freeBlocks := freeBlocks - 1;
      }
      var h := blk.Append(n);
      p := Std(blk, h);
      ghost var y := StdInfo(blk, blk.mem.Length, false, blk.Live());
      StdPut(view, i, y, h);
      assert ValidBut(i);
      SetView(i, y);
    }

    /** The unit before the payload p has the mark of a free element: p was freed, its block is
        still there, and nothing has been written over its header since.  (The header may by now
        lie inside a larger free element.) */
    ghost predicate IsFreed(p: Ptr)
      reads this`view, if p.Std? then {p.blk.mem} else {}
    {
      p.Std? && p.off < p.blk.mem.Length && p.blk.mem[p.off].free && exists i :: 0 <= i < |view| && view[i].StdInfo? && view[i].blk == p.blk
    }

    /** The mark that p is to be saved: of its element, or of its block if that is RAW. */
    static ghost predicate MarkedIn(ls: seq<MemLink>, p: Ptr)
      reads ls`saved, ls`data, if p.Std? then {p.blk.mem} else {}
    {
      match p
      case Null => false
      case Std(b, h) => h < b.mem.Length && b.mem[h].saved
      case Raw(d) => forall l <- ls :: l.IsRaw() && l.data == d ==> l.saved
    }

    ghost predicate Marked(p: Ptr)
      reads this`links, links`saved, links`data, if p.Std? then {p.blk.mem} else {}
    {
      MarkedIn(links, p)
    }

    /** What is marked to be saved. */
    ghost function Marks(): set<Ptr>
      requires Valid()
      reads this, Repr
    {
      OwnedInRepr();
      set p | p in Owned() && Marked(p)
    }

    lemma OwnedInRepr()
      requires Valid()
      ensures forall p <- Owned() :: (p.Std? ==> p.blk.mem in Repr) && (p.Raw? ==> p.data in Repr)
    {
      hide Inv, Contents, Sums, NextRaw, Chained, Counted, Agrees;
      forall p | p in Owned() ensures (p.Std? ==> p.blk.mem in Repr) && (p.Raw? ==> p.data in Repr) {
        var k := FindOwner(view, p);
        assert view[k].Memory() in Repr;
      }
    }

    /** The live elements of the block are marked as they were in m. */
    ghost predicate SameMarks(b: MemBlk, m: seq<Unit>)
      reads this`view, b.mem
    {
      forall g: nat | Std(b, g) in Owned() :: g < b.mem.Length == |m| && b.mem[g].saved == m[g].saved
    }

    lemma OwnMarks(i: nat, m: seq<Unit>)
      requires Distinct(view) && i < |view| && view[i].StdInfo? && KeepsMarks(view[i].live, m, view[i].blk.mem[..])
      ensures SameMarks(view[i].blk, m)
    {
      hide Contents, Distinct;
      var b := view[i].blk;
      forall g: nat | Std(b, g) in Owned() ensures g < b.mem.Length == |m| && b.mem[g].saved == m[g].saved {
        StdAt(view, i, g);
      }
    }

    /** An element of block i that leaves others behind it is freed: src/memheap.c:855-1024. */
    method FreeElement(i: nat, h: nat)
      requires Valid() && i < |links| && view[i].StdInfo? && h in view[i].live && !view[i].blk.mem[h].saved
      requires !view[i].blk.mem[h].last
      modifies this`view, view[i].blk, view[i].blk.mem
      ensures Valid() && links == old(links) && Owned() == old(Owned()) - {Std(old(view)[i].blk, h)}
      ensures SameMarks(old(view)[i].blk, old(view[i].blk.mem[..]))
      ensures KeepsMarks(old(view)[i].live - {h}, old(view[i].blk.mem[..]), old(view)[i].blk.mem[..])
    {
      hide Inv, Contents, Sums, NextRaw, KeepsMarks, Heap.SameMarks;
      ghost var x := view[i];
      var blk := links[i].blk;
      assert Agrees(links[i], x);
      blk.FreeInner(h);
      ghost var y := StdInfo(blk, blk.mem.Length, x.clean, blk.Live());
      DropView(i, y, h);
      OwnMarks(i, old(view[i].blk.mem[..]));
    }

    /** Standard block i taken out of the list: src/memheap.c:914-927. */
    method UnlinkStd(i: nat)
      requires ValidBut(i) && !view[i].clean
      requires usedUnits == Sums(UsedUnits, view) - view[i].cap && usedBlocks == Sums(UsedBlocks, view) - 1
      requires freeUnits == Sums(FreeUnits, view) && freeBlocks == Sums(FreeBlocks, view)
      requires links[i].IsRaw() == false
      modifies this`links, this`view, links`pnextRaw
      ensures Valid() && Owned() == Others(old(Owned()), old(view)[i].blk)
      ensures links == old(links)[..i] + old(links)[i + 1..]
    {
      hide Inv, Contents, Sums, NextRaw, Others;
      ghost var next := seq(|links|, j requires 0 <= j < |links| reads this, links => links[j].pnextRaw);
      ChainWithoutStd(links, next, i);
      StoreRemove(view, i);
      forall s ensures Sums(s, view[..i] + view[i + 1..]) == Sums(s, view) - Part(s, view[i]) { SumsRemove(s, view, i); }
      if i == 0 && 1 < |links| && !links[1].IsRaw() {
        links[1].pnextRaw := links[0].pnextRaw;
      }
      ghost var n := NextWithoutStd(links, next, i);
      assert forall j | 0 <= j < |links| :: links[j].pnextRaw == n[j];
      DropLink(i, n);
    }

    /** The list without link i. */
    method DropLink(i: nat, ghost n: seq<MemLink?>)
      requires ListedBut(i) && CountedWithout(i)
      requires |n| == |links| && forall j | 0 <= j < |links| && j != i :: links[j].pnextRaw == n[j]
      requires ChainIs(links[..i] + links[i + 1..], n[..i] + n[i + 1..])
      modifies this`links, this`view
      ensures Valid() && view == old(view)[..i] + old(view)[i + 1..] && links == old(links)[..i] + old(links)[i + 1..]
    {
      hide Inv, Sums, NextRaw, Distinct, Agrees;
      ghost var ls, v := links, view;
      ApartWithout(ls, v, i);
      links := links[..i] + links[i + 1..];
      view := view[..i] + view[i + 1..];
      forall j | 0 <= j < |links|
        ensures links[j] == ls[if j < i then j else j + 1] && view[j] == v[if j < i then j else j + 1]
        ensures links[j].pnextRaw == NextRaw(links, j) && Agrees(links[j], view[j])
      {
        assert (n[..i] + n[i + 1..])[j] == n[if j < i then j else j + 1];
      }
      hide AllApart;
    }

    /** The last element of block i is freed; an emptied block is kept clean or given back:
        src/memheap.c:855-956. */
    method FreeLastElement(i: nat, h: nat)
      requires Valid() && i < |links| && view[i].StdInfo? && h in view[i].live && !view[i].blk.mem[h].saved
      requires view[i].blk.mem[h].last
      modifies this, links`pnextRaw, view[i].blk, view[i].blk.mem
      ensures Valid() && Repr == old(Repr) && Owned() == old(Owned()) - {Std(old(view)[i].blk, h)}
      ensures SameMarks(old(view)[i].blk, old(view[i].blk.mem[..])) && forall l <- links :: l in old(links)
    {
      hide Inv, Contents, Sums, NextRaw, KeepsMarks, Agrees, Chained, Counted, ValidBut, Distinct;
      var blk := links[i].blk;
      TakeOff(i, h);
      if blk.lastElemOff == 0 {
        OnlyOne(i, h);
        EmptyBlock(i, h);
      } else {
        ghost var y := StdInfo(blk, blk.mem.Length, false, blk.Live());
        DropView(i, y, h);
        OwnMarks(i, old(view[i].blk.mem[..]));
      }
    }

    method TakeOff(i: nat, h: nat)
      requires Valid() && i < |links| && view[i].StdInfo? && h in view[i].live && !view[i].blk.mem[h].saved
      requires view[i].blk.mem[h].last
      modifies view[i].blk, view[i].blk.mem
      ensures ValidBut(i) && Counted() && Distinct(view) && !view[i].clean
      ensures links[i].blk == view[i].blk && view[i].blk.plink == links[i] && view[i].cap == view[i].blk.mem.Length < 0x1_0000
      ensures view[i].blk.lastElemOff == 0 ==> view[i].live.Keys == {h} && !links[i].saved
      ensures view[i].blk.lastElemOff != 0 ==>
                && view[i].blk.Valid() && view[i].blk.Live() == view[i].live - {h}
                && Agrees(links[i], StdInfo(view[i].blk, view[i].cap, false, view[i].blk.Live()))
                && CountedAs(i, StdInfo(view[i].blk, view[i].cap, false, view[i].blk.Live()))
                && KeepsMarks(view[i].blk.Live(), old(view[i].blk.mem[..]), view[i].blk.mem[..])
    {
      hide Inv, Contents, Sums, NextRaw, KeepsMarks;
      ghost var x := view[i];
      var blk := links[i].blk;
      assert Agrees(links[i], x);
      blk.InUse();
      assert x.live != map[];
      blk.DropLast(h);
    }

    lemma OnlyOne(i: nat, h: nat)
      requires Distinct(view) && i < |view| && view[i].StdInfo? && view[i].live.Keys == {h}
      ensures forall g: nat | Std(view[i].blk, g) in Owned() :: g == h
    {
      hide Contents, Distinct;
      forall g: nat | Std(view[i].blk, g) in Owned() ensures g == h { StdAt(view, i, g); }
    }

    /** Block i has just lost its last live element h: src/memheap.c:905-949. */
    method EmptyBlock(i: nat, h: nat)
      requires ValidBut(i) && Counted() && !view[i].clean && view[i].live.Keys == {h}
      requires links[i].blk == view[i].blk && view[i].blk.plink == links[i] && view[i].cap == view[i].blk.mem.Length < 0x1_0000
      requires !links[i].saved
      modifies this, links`pnextRaw, view[i].blk
      ensures Valid() && Repr == old(Repr) && Owned() == old(Owned()) - {Std(old(view)[i].blk, h)}
      ensures links == if old(dontKeepFree || (keepFreeUnits > 0 && freeUnits + view[i].cap > keepFreeUnits))
                       then old(links)[..i] + old(links)[i + 1..] else old(links)
      ensures var cap := old(view[i].cap);
              if old(dontKeepFree || (keepFreeUnits > 0 && freeUnits + view[i].cap > keepFreeUnits)) then
                && usedUnits == old(usedUnits) - cap && usedBlocks == old(usedBlocks) - 1
                && freeUnits == old(freeUnits) && freeBlocks == old(freeBlocks)
              else
                && usedUnits == old(usedUnits) && usedBlocks == old(usedBlocks)
                && freeUnits == old(freeUnits) + cap && freeBlocks == old(freeBlocks) + 1
    {
      hide Inv, Contents, Sums, NextRaw, Chained, Counted;
      var cap := links[i].blk.mem.Length;
      if dontKeepFree || (keepFreeUnits > 0 && freeUnits + cap > keepFreeUnits) {
        GiveBack(i, h);
      } else {
        KeepClean(i, h);
      }
    }

    method GiveBack(i: nat, h: nat)
      requires ValidBut(i) && Counted() && !view[i].clean && view[i].live.Keys == {h}
      requires links[i].blk == view[i].blk && view[i].blk.plink == links[i] && view[i].cap == view[i].blk.mem.Length
      modifies this, links`pnextRaw
      ensures Valid() && Repr == old(Repr) && Owned() == old(Owned()) - {Std(old(view)[i].blk, h)}
      ensures links == old(links)[..i] + old(links)[i + 1..]
      ensures usedUnits == old(usedUnits) - old(view[i].cap) && usedBlocks == old(usedBlocks) - 1
      ensures freeUnits == old(freeUnits) && freeBlocks == old(freeBlocks)
    {
      hide Inv, Contents, Sums, NextRaw;
      var cap := links[i].blk.mem.Length;
      GiveUp(view, i, h);
      usedUnits := usedUnits - cap;
      usedBlocks := usedBlocks - 1;
      UnlinkStd(i);
    }

    method KeepClean(i: nat, h: nat)
      requires ValidBut(i) && Counted() && !view[i].clean && view[i].live.Keys == {h}
      requires links[i].blk == view[i].blk && view[i].blk.plink == links[i] && view[i].cap == view[i].blk.mem.Length < 0x1_0000
      requires !links[i].saved
      modifies this`freeUnits, this`freeBlocks, this`view, view[i].blk
      ensures Valid() && Repr == old(Repr) && Owned() == old(Owned()) - {Std(old(view)[i].blk, h)}
      ensures freeUnits == old(freeUnits) + old(view[i].cap) && freeBlocks == old(freeBlocks) + 1
    {
      hide Inv, Contents, Sums, NextRaw;
      var blk := links[i].blk;
      blk.Clean();
      freeUnits := freeUnits + blk.mem.Length;
      freeBlocks := freeBlocks + 1;
      ghost var y := StdInfo(blk, blk.mem.Length, true, blk.Live());
      assert y.live == view[i].live - {h};
      DropView(i, y, h);
    }

    /** The node of the RAW block p along the chain of RAW blocks: src/memheap.c:794-797, 826. */
    method FindRaw(p: Ptr) returns (l: MemLink?, prev: MemLink?, ghost k: nat, ghost pk: nat)
      requires Valid()
      ensures l != null ==> k < |links| && links[k] == l && l.IsRaw() && p == Raw(l.data)
      ensures l != null ==> if prev == null then k == 0
                            else pk < k && links[pk] == prev && (pk == 0 || prev.IsRaw()) && forall j | pk < j < k :: !links[j].IsRaw()
      ensures l == null ==> forall i | 0 <= i < |links| :: links[i].IsRaw() ==> p != Raw(links[i].data)
    {
      hide Inv, Contents, Sums, Counted, Distinct, Agrees, Separate, NextRaw, Chained;
      l, prev, k, pk := null, null, 0, 0;
      if |links| == 0 {
        return;
      }
      l := links[0];
      while l != null
        invariant l != null ==> k < |links| && links[k] == l && (k == 0 || l.IsRaw())
        invariant l != null ==> if prev == null then k == 0
                                else pk < k && links[pk] == prev && (pk == 0 || prev.IsRaw()) && forall j | pk < j < k :: !links[j].IsRaw()
        invariant forall i | 0 <= i < (if l == null then |links| else k) :: links[i].IsRaw() ==> p != Raw(links[i].data)
        decreases if l == null then 0 else |links| - k
      {
        if l.IsRaw() && p == Raw(l.data) {
          return;
        }
        ghost var next := NextInChain(k);
        prev, pk := l, k;
        l := l.pnextRaw;
        k := next;
      }
    }

    /** Where pnextRaw leads from link k. */
    lemma NextInChain(k: nat) returns (n: nat)
      requires Chained() && k < |links| && (k == 0 || links[k].IsRaw())
      ensures links[k].pnextRaw != null ==> k < n < |links| && links[n] == links[k].pnextRaw && links[n].IsRaw()
      ensures forall i | k < i < (if links[k].pnextRaw == null then |links| else n) :: !links[i].IsRaw()
    {
      n := k;
      assert links[k].pnextRaw == FirstRaw(links[k + 1..]);
      FirstRawIn(links[k + 1..]);
      hide NextRaw, FirstRaw;
      if links[k].pnextRaw != null {
        n := FirstRawIndex(links, k);
      } else {
        assert forall i | k < i < |links| :: links[i] == links[k + 1..][i - k - 1];
      }
    }

    /** A RAW block is given back: src/memheap.c:798-825. */
    method FreeRaw(l: MemLink, prev: MemLink?, ghost k: nat, ghost pk: nat)
      requires Valid() && k < |links| && links[k] == l && l.IsRaw()
      requires if prev == null then k == 0
               else pk < k && links[pk] == prev && (pk == 0 || prev.IsRaw()) && forall j | pk < j < k :: !links[j].IsRaw()
      modifies this`links, this`view, links`pnextRaw
      ensures Valid() && Owned() == old(Owned()) - {Raw(old(l.data))}
      ensures links == old(links)[..k] + old(links)[k + 1..] && view == old(view)[..k] + old(view)[k + 1..]
    {
      hide Inv, Contents, Sums, NextRaw, CountedWithout, AllApart, ListedBut, Distinct, ChainIs, NextWithoutRaw, Agrees, Sound, Counted, Separate;
      ListedRest(k);
      ghost var next := RawGone(l, k, prev != null, pk);
      var i := PlaceOf(l, k);
      ghost var n := NextWithoutRaw(links, next, k, prev != null, pk);
      SkipRaw(l, prev, k, pk, next);
      DropLink(i, n);
    }

    lemma ListedRest(k: nat)
      requires Valid() && k < |links|
      ensures ListedBut(k) && Separate() && |view| == |links|
    {}

    /** The list position of a link.  (The source has it in the pnext and pprev of the link.) */
    method PlaceOf(l: MemLink, ghost k: nat) returns (i: nat)
      requires Separate() && k < |links| && links[k] == l
      ensures i == k
    {
      i :| 0 <= i < |links| && links[i] == l;
    }

    /** What is left, and in which order it is chained, when RAW link k is dropped. */
    lemma RawGone(l: MemLink, k: nat, hasPrev: bool, pk: nat) returns (next: seq<MemLink?>)
      requires Valid() && k < |links| && links[k] == l && l.IsRaw()
      requires if hasPrev then pk < k && (pk == 0 || links[pk].IsRaw()) && forall j | pk < j < k :: !links[j].IsRaw() else k == 0
      ensures |next| == |links| && forall j | 0 <= j < |links| :: links[j].pnextRaw == next[j]
      ensures var n := NextWithoutRaw(links, next, k, hasPrev, pk); ChainIs(links[..k] + links[k + 1..], n[..k] + n[k + 1..])
      ensures CountedWithout(k) && Contents(view[..k] + view[k + 1..]) == Owned() - {Raw(l.data)}
    {
      hide Inv, Contents, Sums, NextRaw, Distinct, Others, NextWithoutRaw;
      assert Agrees(l, view[k]);
      next := seq(|links|, j requires 0 <= j < |links| reads this, links => links[j].pnextRaw);
      ChainWithoutRaw(links, next, k, hasPrev, pk);
      StoreRemove(view, k);
      DropsRaw(view, k);
      forall s ensures Sums(s, view[..k] + view[k + 1..]) == Sums(s, view) { SumsRemove(s, view, k); }
    }

    /** The chain of RAW blocks led past l: src/memheap.c:807-813. */
    method SkipRaw(l: MemLink, prev: MemLink?, ghost k: nat, ghost pk: nat, ghost next: seq<MemLink?>)
      requires k < |links| && links[k] == l && (prev == null ==> k == 0) && (prev != null ==> pk < k && links[pk] == prev)
      requires ListedBut(k) && |next| == |links| && forall j | 0 <= j < |links| :: links[j].pnextRaw == next[j]
      modifies links`pnextRaw
      ensures ListedBut(k) && forall j | 0 <= j < |links| :: links[j].pnextRaw == NextWithoutRaw(links, next, k, prev != null, pk)[j]
    {
      hide Inv, Agrees, Distinct;
      if prev != null {
        prev.pnextRaw := l.pnextRaw;
      } else if 1 < |links| && links[1].pnextRaw == null && links[1] != l.pnextRaw {
        links[1].pnextRaw := l.pnextRaw;
      }
    }

    /** memHeapFreePtr, src/memheap.c:777-1025. */
    method FreePtr(p: Ptr)
      requires Valid() && (p == Null || p in Owned() || IsFreed(p))
      modifies this, Repr
      ensures Valid() && Repr == old(Repr) && Owned() == old(Owned()) - {p}
      ensures p !in old(Owned()) ==> Owned() == old(Owned()) && links == old(links)
      ensures old(Marks()) * Owned().Keys <= Marks()
    {
      hide Inv, Contents, Sums, NextRaw, Chained, Counted;
      if p == Null {
        LookupNone(view, p);
        return;
      }
      var l, prev;
      ghost var k, pk;
      l, prev, k, pk := FindRaw(p);
      if l != null {
        ghost var (m, ls) := (Marks(), links);
        assert forall q <- m :: MarkedIn(ls, q);
        hide Heap.MarkedIn;
        FreeRaw(l, prev, k, pk);
        FewerLinks(m, ls, k);
      } else {
        FreeStd(p);
      }
    }

    lemma MoreLinks(m: set<Ptr>, ls: seq<MemLink>, l: MemLink)
      requires Valid() && links == [l] + ls && m <= Owned().Keys
      requires forall q <- m :: MarkedIn(ls, q) && (q.Raw? && l.IsRaw() ==> q.data != l.data)
      ensures m <= Marks()
    {
      hide Inv, Contents, Sums, NextRaw, Chained, Counted, Agrees, AllApart;
    }

    lemma FewerLinks(m: set<Ptr>, ls: seq<MemLink>, k: nat)
      requires Valid() && k < |ls| && links == ls[..k] + ls[k + 1..]
      requires forall q <- m :: MarkedIn(ls, q)
      ensures m * Owned().Keys <= Marks()
    {
      hide Inv, Contents, Sums, NextRaw, Chained, Counted, Agrees, AllApart;
      assert forall l <- links :: l in ls;
    }

    /** The block that holds the element p, as GET_MEMBLK finds it: src/memheap.c:97-99. */
    lemma Locate(p: Ptr) returns (i: nat)
      requires Valid() && (p in Owned() || IsFreed(p))
      requires forall i | 0 <= i < |links| :: links[i].IsRaw() ==> p != Raw(links[i].data)
      ensures i < |links| && p.Std? && links[i].blk == p.blk && view[i].StdInfo? && view[i].blk == p.blk
      ensures p.off < p.blk.mem.Length
      ensures p in Owned() <==> p.off in view[i].live
      ensures p in Owned() <==> !p.blk.mem[p.off].free
    {
      hide Inv, Contents, Sums, Chained, Counted;
      if p in Owned() {
        i := FindOwner(view, p);
        assert Agrees(links[i], view[i]);
        p.blk.LiveInHdrs(p.off);
      } else {
        i :| 0 <= i < |view| && view[i].StdInfo? && view[i].blk == p.blk;
        assert Agrees(links[i], view[i]);
      }
      Lookup(view, i, p);
      if p.off in p.blk.Live() {
        p.blk.LiveInHdrs(p.off);
        p.blk.LiveIff(p.off);
      }
    }

    /** The part of memHeapFreePtr for elements of standard blocks: src/memheap.c:829-1024. */
    method FreeStd(p: Ptr)
      requires Valid() && (p in Owned() || IsFreed(p))
      requires forall i | 0 <= i < |links| :: links[i].IsRaw() ==> p != Raw(links[i].data)
      modifies this, Repr
      ensures Valid() && Repr == old(Repr) && Owned() == old(Owned()) - {p}
      ensures p !in old(Owned()) ==> Owned() == old(Owned()) && links == old(links)
      ensures old(Marks()) * Owned().Keys <= Marks()
    {
      hide Inv, Contents, Sums, NextRaw, Chained, Counted;
      ghost var g := Locate(p);
      var blk, h := p.blk, p.off;
      assert Agrees(links[g], view[g]);
      var i :| 0 <= i < |links| && links[i] == blk.plink;
      assert i == g;
      if blk.mem[h].free {
        return;
      }
      OtherMemory(i);
      hide Agrees, Sound, AllApart;
      ghost var (k, m) := (Marks(), blk.mem[..]);
      FreeLive(i, h);
      forall q | q in k && q in Owned() ensures Marked(q) {
        if q.Std? && q.blk == blk { assert blk.mem[q.off].saved == m[q.off].saved; }
      }
    }

    /** The live element h of block i: src/memheap.c:847-1024. */
    method FreeLive(i: nat, h: nat)
      requires Valid() && i < |links| && view[i].StdInfo? && h in view[i].live
      modifies this, links`saved, links`pnextRaw, view[i].blk, view[i].blk.mem
      ensures Valid() && Repr == old(Repr) && Owned() == old(Owned()) - {Std(old(view)[i].blk, h)}
      ensures SameMarks(old(view)[i].blk, old(view[i].blk.mem[..])) && forall l <- links :: l in old(links)
      ensures forall l <- old(links) :: l.IsRaw() ==> l.saved == old(l.saved)
    {
      hide Inv, Contents, Sums, NextRaw, Chained, Counted;
      assert Agrees(links[i], view[i]);
      var blk := links[i].blk;
      blk.Inside(h);
      if blk.mem[h].saved {
        MarkElement(i, h, blk, false);
      }
      hide Agrees, Sound, AllApart;
      if blk.mem[h].last {
        FreeLastElement(i, h);
      } else {
        FreeElement(i, h);
      }
    }

    /** What was marked stays marked if only block i of v was written to, and kept its marks. */
    lemma KeptMarks(k: set<Ptr>, v: seq<LinkInfo>, i: nat, m: seq<Unit>)
      requires Valid() && Distinct(v) && i < |v| && v[i].StdInfo? && k <= Contents(v).Keys
      requires forall q <- k :: if q.Std? && q.blk == v[i].blk then q.off < |m| && m[q.off].saved else Marked(q)
      requires KeepsMarks(v[i].live, m, v[i].blk.mem[..])
      ensures k * Owned().Keys <= Marks()
    {
      hide Inv, Contents, Sums, NextRaw, Chained, Counted, Agrees, AllApart, Distinct;
      forall q | q in k && q in Owned() ensures Marked(q) {
        if q.Std? && q.blk == v[i].blk { StdAt(v, i, q.off); }
      }
    }

    lemma RawMemory(i: nat)
      requires Valid() && i < |links| && view[i].RawInfo?
      ensures forall q | q in Owned() && q.Std? :: q.blk.mem != view[i].data
    {
      hide Inv, Contents, Sums, NextRaw, Chained, Counted;
      forall q | q in Owned() && q.Std? ensures q.blk.mem != view[i].data {
        var k := FindOwner(view, q);
        assert view[k].Memory() != view[i].Memory();
      }
    }

    /** The other blocks have other memory. */
    lemma OtherMemory(i: nat)
      requires Valid() && i < |links| && view[i].StdInfo?
      ensures forall q | q in Owned() && q.Std? && q.blk != view[i].blk :: q.blk.mem != view[i].blk.mem
    {
      hide Inv, Contents, Sums, NextRaw, Chained, Counted;
      forall q | q in Owned() && q.Std? && q.blk != view[i].blk ensures q.blk.mem != view[i].blk.mem {
        var k := FindOwner(view, q);
        assert view[k].Memory() != view[i].Memory();
      }
    }

    /** A caller stores into unit j of the payload p: every other payload is untouched. */
    method Write(p: Ptr, j: nat, u: Unit)
      requires Valid() && p in Owned() && j < |Owned()[p]|
      modifies this`view, Repr
      ensures Valid() && Repr == old(Repr) && links == old(links) && Owned() == old(Owned())[p := old(Owned())[p][j := u]]
      ensures old(Marks()) <= Marks()
    {
      hide Inv, Contents, Sums, NextRaw, Chained, Counted;
      ghost var i := FindOwner(view, p);
      assert Agrees(links[i], view[i]);
      Lookup(view, i, p);
      ghost var (k, m) := (Marks(), if p.Std? then p.blk.mem[..] else []);
      if p.Std? {
        OtherMemory(i);
        hide Agrees, Sound, AllApart;
        WriteStd(p, j, u, i);
      } else {
        RawMemory(i);
        hide Agrees, Sound, AllApart;
        WriteRaw(p, j, u, i);
      }
      forall q | q in k ensures q in Owned() && Marked(q) {
        if q.Std? && p.Std? && q.blk == p.blk { assert p.blk.mem[q.off].saved == m[q.off].saved; }
      }
    }

    method WriteStd(p: Ptr, j: nat, u: Unit, ghost i: nat)
      requires Valid() && i < |view| && view[i].StdInfo? && p.Std? && p.blk == view[i].blk && p.off in view[i].live && j < |view[i].live[p.off]|
      modifies this`view, p.blk.mem
      ensures Valid() && Owned() == old(Owned())[p := old(view)[i].live[p.off][j := u]]
      ensures SameMarks(p.blk, old(p.blk.mem[..]))
    {
      hide Inv, Contents, Sums, NextRaw, KeepsMarks, Heap.SameMarks;
      ghost var x := view[i];
      assert Agrees(links[i], x);
      p.blk.WriteUnit(p.off, j, u);
      ghost var y := StdInfo(p.blk, x.cap, x.clean, p.blk.Live());
      StdPut(view, i, y, p.off);
      assert ValidBut(i);
      SetView(i, y);
      OwnMarks(i, old(p.blk.mem[..]));
    }

    method WriteRaw(p: Ptr, j: nat, u: Unit, ghost i: nat)
      requires Valid() && i < |view| && view[i].RawInfo? && p == Raw(view[i].data) && j < p.data.Length
      modifies this`view, p.data
      ensures Valid() && Owned() == old(Owned())[p := old(view)[i].content[j := u]]
    {
      hide Inv, Contents, Sums, NextRaw;
      assert Agrees(links[i], view[i]);
      p.data[j] := u;
      RawPut(view, i, p.data[..]);
      assert p.data[..] == view[i].content[j := u];
      SetRawView(i, p.data[..]);
    }

    /** The abstract state catches up with a change of RAW block i. */
    ghost method SetRawView(i: nat, c: seq<Unit>)
      requires Separate() && i < |links| && view[i].RawInfo? && Agrees(links[i], view[i].(content := c))
      requires (forall l <- links :: l in Repr) && this in Repr && 0 < defBlkSize < 0x1000_0000
      requires forall j | 0 <= j < |view| :: view[j].Owner() in Repr && view[j].Memory() in Repr
      requires forall j | 0 <= j < |links| && j != i :: Agrees(links[j], view[j])
      requires Chained() && Counted()
      modifies this`view
      ensures Valid() && view == old(view)[i := old(view)[i].(content := c)]
    {
      hide Inv, Sums, NextRaw;
      forall s ensures Sums(s, view[i := view[i].(content := c)]) == Sums(s, view) { SumsSet(s, view, i, view[i].(content := c)); }
      view := view[i := view[i].(content := c)];
    }

    /** memHeapAddBlock, src/memheap.c:1582-1632.  (For RAW memory the source also stores the link
        in the payload, which no caller has seen yet.) */
    method AddBlock(l: MemLink, ghost x: LinkInfo)
      requires Sound() && l !in Repr && x.Owner() !in Repr && x.Memory() !in Repr && l.pnextRaw == null && !l.saved
      requires match x
               case StdInfo(b, cap, clean, live) =>
                 l.blk == b && b.Valid() && cap == b.mem.Length && clean == (b.freeX == 0) && live == b.Live() && b.nsaved == 0
               case RawInfo(d, c) => l.blk == null && l.data == d && c == d[..]
      modifies this`links, this`view, this`Repr, links`pnextRaw, l`pnextRaw, if l.blk == null then {} else {l.blk}
      ensures Sound() && links == [l] + old(links) && view == [x] + old(view)
      ensures Repr == old(Repr) + {l, x.Owner(), x.Memory()}
      ensures Owned() == old(Owned()) + x.Owned() && old(Owned()).Keys !! x.Owned().Keys
    {
      hide Inv, Contents, NextRaw, Chained, Agrees, Distinct;
      StoreCons(view, x);
      ghost var next := seq(|links|, j requires 0 <= j < |links| reads this, links => links[j].pnextRaw);
      assert |next| == |links| && forall j | 0 <= j < |links| :: links[j].pnextRaw == next[j];
      HeadOfChain(l, next);
      HeadChain(l, next);
      hide ChainIs, NextWithHead;
      AttachBlock(l, x);
      PushLink(l, x, NextWithHead(links, next));
    }

    lemma HeadOfChain(l: MemLink, next: seq<MemLink?>)
      requires Chained() && |next| == |links| && forall j | 0 <= j < |links| :: links[j].pnextRaw == next[j]
      requires forall i, j | 0 <= i < j < |links| :: links[i] != links[j]
      ensures |NextWithHead(links, next)| == |links| + 1 && ChainIs([l] + links, NextWithHead(links, next))
    {
      hide NextRaw;
      ChainWithHead(links, next, l);
    }

    /** The new block attached; the others are not touched. */
    method AttachBlock(l: MemLink, ghost x: LinkInfo)
      requires !l.saved && |links| == |view| && (forall j | 0 <= j < |links| :: Agrees(links[j], view[j]))
      requires forall j | 0 <= j < |view| :: view[j].Owner() in Repr && view[j].Memory() in Repr
      requires l !in Repr && x.Owner() !in Repr
      requires match x
               case StdInfo(b, cap, clean, live) =>
                 l.blk == b && b.Valid() && cap == b.mem.Length && clean == (b.freeX == 0) && live == b.Live() && b.nsaved == 0
               case RawInfo(d, c) => l.blk == null && l.data == d && c == d[..]
      modifies if l.blk == null then {} else {l.blk}
      ensures Agrees(l, x) && forall j | 0 <= j < |links| :: Agrees(links[j], view[j])
    {
      hide Inv, Agrees;
      Attach(l, x);
    }

    /** A standard block points back at its link. */
    method Attach(l: MemLink, ghost x: LinkInfo)
      requires !l.saved
      requires match x
               case StdInfo(b, cap, clean, live) =>
                 l.blk == b && b.Valid() && cap == b.mem.Length && clean == (b.freeX == 0) && live == b.Live() && b.nsaved == 0
               case RawInfo(d, c) => l.blk == null && l.data == d && c == d[..]
      modifies if l.blk == null then {} else {l.blk}
      ensures Agrees(l, x)
    {
      hide Inv;
      if l.blk != null {
        l.blk.plink := l;
      }
    }

    /** The chain of RAW blocks led from a new head: src/memheap.c:1608-1618. */
    method HeadChain(l: MemLink, ghost next: seq<MemLink?>)
      requires l !in links && (forall i, j | 0 <= i < j < |links| :: links[i] != links[j])
      requires |next| == |links| && forall j | 0 <= j < |links| :: links[j].pnextRaw == next[j]
      modifies links`pnextRaw, l`pnextRaw
      ensures l.pnextRaw == NextWithHead(links, next)[0]
      ensures forall j | 0 <= j < |links| :: links[j].pnextRaw == NextWithHead(links, next)[j + 1]
    {
      if |links| != 0 {
        if links[0].IsRaw() {
          l.pnextRaw := links[0];
        } else {
          l.pnextRaw := links[0].pnextRaw;
          links[0].pnextRaw := null;
        }
      } else {
        l.pnextRaw := null;
      }
    }

    /** The list with l at its head. */
    method PushLink(l: MemLink, ghost x: LinkInfo, ghost n: seq<MemLink?>)
      requires Separate() && this in Repr && 0 < defBlkSize < 0x1000_0000
      requires (forall k <- links :: k in Repr) && l !in Repr
      requires forall j | 0 <= j < |view| :: view[j].Owner() in Repr && view[j].Memory() in Repr
      requires forall j | 0 <= j < |links| :: Agrees(links[j], view[j])
      requires x.Owner() !in Repr && x.Memory() !in Repr && Distinct([x] + view) && Agrees(l, x)
      requires |n| == |links| + 1 && l.pnextRaw == n[0] && forall j | 0 <= j < |links| :: links[j].pnextRaw == n[j + 1]
      requires ChainIs([l] + links, n)
      modifies this`links, this`view, this`Repr
      ensures Sound() && links == [l] + old(links) && view == [x] + old(view)
      ensures Repr == old(Repr) + {l, x.Owner(), x.Memory()}
    {
      hide NextRaw, Distinct, Inv, Agrees;
      ghost var ls, v := links, view;
      links := [l] + links;
      view := [x] + view;
      Repr := Repr + {l, x.Owner(), x.Memory()};
      assert Agrees(l, x) && forall j | 0 <= j < |ls| :: Agrees(ls[j], v[j]);
      assert forall j | 0 <= j < |links| :: links[j] == (if j == 0 then l else ls[j - 1]) && view[j] == (if j == 0 then x else v[j - 1]);
    }

    /** memHeapAlloc, src/memheap.c:536-768; mem tells whether the C library has memory. */
    method Alloc(nbytes: nat, mem: bool) returns (p: Ptr)
      requires Valid()
      modifies this, Repr
      ensures Valid() && fresh(Repr - old(Repr)) && Allocated(old(Owned()), Owned(), p, Units(nbytes)) && (mem ==> p != Null)
      ensures old(Marks()) <= Marks()
      ensures p != Null ==> nbytes <= 8 * |Owned()[p]| < nbytes + 16 && (p.Raw? <==> nbytes > 8 * 0xFFFE)
      ensures p != Null && nbytes <= 8 * 0xFFFE
              && old(exists l | l in links :: l.blk != null && nbytes + 8 <= 8 * (l.blk.mem.Length - l.blk.freeX)) ==>
                8 * |Owned()[p]| < nbytes + 8
    {
      hide Inv, Contents, Sums, NextRaw, Sound, Counted;
      var n := Units(nbytes);
      if n > 0xFFFE {
        if !mem {
          return Null;
        }
        ghost var (k, ls) := (Marks(), links);
        InRepr();
        OwnedInRepr();
        p := NewRaw(n);
        MoreLinks(k, ls, links[0]);
        return;
      }
      ghost var g;
      p, g := FromEnd(n);
      if p == Null {
        p, g := FromFree(n);
      }
      if p == Null && mem {
        ghost var (k, ls) := (Marks(), links);
        InRepr();
        p := NewStd(n);
        MoreLinks(k, ls, links[0]);
      }
    }

    /** A block of RAW memory: src/memheap.c:557-577. */
    method NewRaw(n: nat) returns (p: Ptr)
      requires Valid()
      modifies this, links`pnextRaw
      ensures Valid() && fresh(Repr - old(Repr)) && Allocated(old(Owned()), Owned(), p, n) && p.Raw? && |Owned()[p]| == n
      ensures links == [links[0]] + old(links) && links[0].data == p.data && fresh(links[0]) && fresh(p.data)
    {
      hide Inv, Contents, Sums, NextRaw, Sound;
      InRepr();
      var d := new Unit[n];
      var l := new MemLink.ForRaw(d);
      ghost var x := RawInfo(d, d[..]);
      SumsConsAll(view, x);
      AddBlock(l, x);
      p := Raw(d);
      assert Owned()[p] == d[..];
    }

    /** A new standard block with one element: src/memheap.c:703-757. */
    method NewStd(n: nat) returns (p: Ptr)
      requires Valid() && n <= 0xFFFE
      modifies this, links`pnextRaw
      ensures Valid() && fresh(Repr - old(Repr)) && Allocated(old(Owned()), Owned(), p, n) && p.Std? && |Owned()[p]| == n
      ensures links == [links[0]] + old(links) && !links[0].IsRaw() && fresh(links[0])
      ensures usedUnits == old(usedUnits) + links[0].blk.mem.Length && usedBlocks == old(usedBlocks) + 1
      ensures freeUnits == old(freeUnits) && freeBlocks == old(freeBlocks) && links[0].blk.mem.Length == DataUnits(n, old(defBlkSize))
    {
      hide Inv, Contents, Sums, NextRaw, Sound, Allocated;
      InRepr();
      var units := DataUnits(n, defBlkSize);
      var blk := new MemBlk(units, n);
      var l := new MemLink.ForBlock(blk);
      ghost var x := StdInfo(blk, units, false, blk.Live());
      SumsConsAll(view, x);
      AddBlock(l, x);
      CountBlock(units);
      p := Std(blk, 0);
      assert x.Owned().Keys == {p};
      NewPayload(old(Owned()), x.Owned(), p, n);
    }

    lemma NewPayload(s: map<Ptr, seq<Unit>>, t: map<Ptr, seq<Unit>>, p: Ptr, n: nat)
      requires s.Keys !! t.Keys && t.Keys == {p} && p != Null && |t[p]| == n
      ensures Allocated(s, s + t, p, n) && |(s + t)[p]| == n
    {}

    method CountBlock(units: nat)
      requires Sound()
      modifies this`usedUnits, this`usedBlocks
      ensures Sound() && usedUnits == old(usedUnits) + units && usedBlocks == old(usedBlocks) + 1
    {
      hide Inv, Chained;
      usedUnits := usedUnits + units;
      usedBlocks := usedBlocks + 1;
    }

    lemma SameLengths()
      requires Sound()
      ensures |links| == |view|
    {}

    lemma InReprAt(i: nat)
      requires Sound() && i < |links|
      ensures i < |view| && view[i].Owner() in Repr && view[i].Memory() in Repr
    {}

    lemma InRepr()
      requires Sound()
      ensures 0 < defBlkSize && (forall l <- links :: l in Repr)
    {}

    lemma SumsConsAll(v: seq<LinkInfo>, x: LinkInfo)
      ensures forall s :: Sums(s, [x] + v) == Part(s, x) + Sums(s, v)
    {
      forall s ensures Sums(s, [x] + v) == Part(s, x) + Sums(s, v) { SumsCons(s, v, x); }
    }

    /** Link l is a standard block with room for n units at its end. */
    static predicate Room(l: MemLink, n: nat)
      reads if l.blk == null then {} else {l.blk}
    {
      l.blk != null && n + 1 <= l.blk.mem.Length - l.blk.freeX
    }

    /** The first block of the list with room at its end: src/memheap.c:582-588. */
    method FirstRoom(n: nat) returns (i: nat)
      ensures i <= |links| && (forall j | 0 <= j < i :: !Room(links[j], n)) && (i < |links| ==> Room(links[i], n))
    {
      i := 0;
      while i < |links| && !Room(links[i], n)
        invariant i <= |links| && forall j | 0 <= j < i :: !Room(links[j], n)
      {
        i := i + 1;
      }
    }

    /** A slot at the end of the first block that has room there: src/memheap.c:582-632. */
    method FromEnd(n: nat) returns (p: Ptr, ghost g: nat)
      requires Valid()
      modifies this, Repr
      ensures Valid() && Repr == old(Repr) && Allocated(old(Owned()), Owned(), p, n)
      ensures old(Marks()) <= Marks()
      ensures p == Null ==> view == old(view) && links == old(links) && old(forall l | l in links && l.blk != null :: l.blk.mem.Length - l.blk.freeX <= n)
      ensures p != Null ==> g < |old(links)| && old(links[g].blk != null && n < links[g].blk.mem.Length - links[g].blk.freeX)
      ensures p != Null ==> old(forall j | 0 <= j < g && links[j].blk != null :: links[j].blk.mem.Length - links[j].blk.freeX <= n)
      ensures p != Null ==> p == old(Std(links[g].blk, links[g].blk.freeX)) && |Owned()[p]| == n
    {
      hide Inv, Contents, Sums, NextRaw, Counted, Chained;
      var i := FirstRoom(n);
      g := i;
      if i < |links| {
        assert Agrees(links[i], view[i]);
        ghost var (k, v, m) := (Marks(), view, links[i].blk.mem[..]);
        OtherMemory(i);
        hide Agrees, Sound, AllApart;
        p := SlotAtEnd(i, n);
        KeptMarks(k, v, i, m);
      } else {
        p := Null;
      }
    }

    /** The state of a standard block; for a RAW block, of one without any units. */
    static ghost function BlkOf(l: MemLink): Blk
      reads if l.blk == null then {} else {l.blk, l.blk.mem}
    {
      if l.blk == null then Blk([], {}, 0, 0, 0, 0, 0) else l.blk.Abs()
    }

    /** A free element of the first block that serves, the first one that fits there, cut down to
        size: src/memheap.c:636-694. */
    method FromFree(n: nat) returns (p: Ptr, ghost g: nat)
      requires Valid()
      modifies this, Repr
      ensures Valid() && Repr == old(Repr) && links == old(links) && Allocated(old(Owned()), Owned(), p, n)
      ensures old(Marks()) <= Marks()
      ensures p != Null ==> g < |links| && p.Std? && p.blk == links[g].blk
      ensures 0 < n ==>
                forall j | 0 <= j < (if p == Null then |links| else g) && links[j].blk != null ::
                  old(forall h | h in links[j].blk.hdrs && h < links[j].blk.mem.Length && links[j].blk.mem[h].free :: links[j].blk.mem[h].nunits < n)
      ensures p != Null ==>
                old(var (b, m) := (links[g].blk, links[g].blk.mem);
                    && p.off in b.hdrs && p.off < m.Length && m[p.off].free && n <= m[p.off].nunits && (n == 0 ==> m[p.off].nunits == 0)
                    && forall h | h in b.hdrs && h < p.off && m[h].free :: m[h].nunits < n)
      ensures p != Null ==>
                var len := old(links[g].blk.mem[p.off].nunits);
                |Owned()[p]| == if len - n > 1 then n else len
    {
      hide Inv, Contents, Sums, NextRaw, Counted, Chained, Separate, Agrees, Sound, Allocated, NoneServes;
      p, g := SearchFree(n);
      ghost var last := if p == Null then |links| else g;
      forall j, h | 0 < n && 0 <= j < last && links[j].blk != null && old(h in links[j].blk.hdrs && h < links[j].blk.mem.Length && links[j].blk.mem[h].free)
        ensures old(links[j].blk.mem[h].nunits) < n
      {
        NoneLarge(old(BlkOf(links[j])), n, h);
      }
    }

    /** The loop over the blocks. */
    method SearchFree(n: nat) returns (p: Ptr, ghost g: nat)
      requires Valid()
      modifies this, Repr
      ensures Valid() && Repr == old(Repr) && links == old(links) && Allocated(old(Owned()), Owned(), p, n)
      ensures old(Marks()) <= Marks()
      ensures p == Null ==> forall j | 0 <= j < |links| :: NoneServes(old(BlkOf(links[j])), n)
      ensures p != Null ==> g < |links| && p.Std? && p.blk == links[g].blk && forall j | 0 <= j < g :: NoneServes(old(BlkOf(links[j])), n)
      ensures p != Null ==> var b := old(BlkOf(links[g])); Serves(b, p.off, n) && |Owned()[p]| == CutTo(b.mem[p.off].nunits, n)
    {
      hide Inv, Contents, Sums, NextRaw, Counted, Chained, Separate, Agrees, BlkOf, Serves, NoneServes;
      g := 0;
      for i := 0 to |links|
        invariant Valid() && Repr == old(Repr) && Owned() == old(Owned()) && links == old(links) && old(Marks()) <= Marks()
        invariant forall j | i <= j < |links| :: BlkOf(links[j]) == old(BlkOf(links[j]))
        invariant forall j | 0 <= j < i :: NoneServes(old(BlkOf(links[j])), n)
      {
        BlocksApart(i);
        p := TryBlock(i, n);
        if p != Null {
          g := i;
          return;
        }
      }
      p := Null;
    }

    lemma BlocksApart(i: nat)
      requires Valid() && i < |links|
      ensures links[i].blk != null ==> links[i].blk in Repr && links[i].blk.mem in Repr
      ensures links[i].blk != null ==>
                forall j | 0 <= j < |links| && j != i && links[j].blk != null :: links[j].blk != links[i].blk && links[j].blk.mem != links[i].blk.mem
    {
      hide Inv, Contents, Sums, NextRaw, Counted, Chained;
      assert Agrees(links[i], view[i]);
      forall j | 0 <= j < |links| && j != i && links[i].blk != null && links[j].blk != null
        ensures links[j].blk != links[i].blk && links[j].blk.mem != links[i].blk.mem
      {
        assert Agrees(links[j], view[j]);
        assert view[i].Owner() != view[j].Owner() && view[i].Memory() != view[j].Memory();
      }
    }

    /** One round of the search for a free element. */
    method TryBlock(i: nat, n: nat) returns (p: Ptr)
      requires Valid() && i < |links|
      modifies this`view, if links[i].blk == null then {} else {links[i].blk, links[i].blk.mem}
      ensures Valid() && links == old(links) && Allocated(old(Owned()), Owned(), p, n)
      ensures forall j | 0 <= j < |links| && j != i :: BlkOf(links[j]) == old(BlkOf(links[j]))
      ensures old(Marks()) <= Marks()
      ensures p == Null ==> NoneServes(old(BlkOf(links[i])), n)
      ensures p != Null ==> p.Std? && p.blk == links[i].blk
      ensures p != Null ==> var b := old(BlkOf(links[i])); Serves(b, p.off, n) && |Owned()[p]| == CutTo(b.mem[p.off].nunits, n)
    {
      hide Inv, Contents, Sums, NextRaw, Counted, Chained;
      assert Agrees(links[i], view[i]);
      BlocksApart(i);
      p := Null;
      if !links[i].IsRaw() {
        if n <= links[i].blk.freeMem {
          ghost var (k, v, m) := (Marks(), view, links[i].blk.mem[..]);
          OtherMemory(i);
          hide Agrees, Sound, AllApart;
          p := Reuse(i, n);
          KeptMarks(k, v, i, m);
        } else {
          SmallFreeMem(links[i].blk.Abs(), n);
        }
      }
    }

    /** A free element of block i made live and cut down to size: src/memheap.c:640-688. */
    method Reuse(i: nat, n: nat) returns (p: Ptr)
      requires Valid() && i < |links| && view[i].StdInfo?
      modifies this`view, view[i].blk, view[i].blk.mem
      ensures Valid() && links == old(links) && Allocated(old(Owned()), Owned(), p, n)
      ensures KeepsMarks(old(view)[i].live, old(view[i].blk.mem[..]), old(view)[i].blk.mem[..])
      ensures p == Null ==> NoneServes(old(BlkOf(links[i])), n)
      ensures p != Null ==> p.Std? && p.blk == links[i].blk
      ensures p != Null ==> var b := old(BlkOf(links[i])); Serves(b, p.off, n) && |Owned()[p]| == CutTo(b.mem[p.off].nunits, n)
    {
      hide Inv, Contents, Sums, NextRaw, Counted, Chained, Allocated, ResizedAt, KeepsMarks;
      ghost var (b, live, m) := (view[i].blk, view[i].live, view[i].blk.mem[..]);
      var h;
      p, h := Claim(i, n);
      ghost var (s, t) := (old(Owned()), Owned());
      ghost var (live1, m1) := (view[i].live, b.mem[..]);
      if p != Null {
        if links[i].blk.mem[h].nunits == n {
          return;
        }
        if n == 0 {
          FreeElement(i, h);
          AllocatedAndFreed(s, t, p, n);
          MarksThrough(live, live1 - {h}, m, m1, b.mem[..]);
          p := Null;
        } else if links[i].blk.mem[h].nunits - n > 1 {
          ShrinkElement(i, h, n);
          AllocatedAndCut(s, t, Owned(), p, n, n);
          MarksThrough(live, live1, m, m1, b.mem[..]);
        }
      }
    }

    /** h is a live element of block i, not the last one and not saved. */
    ghost predicate InnerLive(i: nat, h: nat)
      reads this`links, this`view, if i < |view| && view[i].StdInfo? then {view[i].blk.mem} else {}
    {
      && i < |view| && i < |links| && view[i].StdInfo? && links[i].blk == view[i].blk
      && h in view[i].live && h < view[i].blk.mem.Length && !view[i].blk.mem[h].last && !view[i].blk.mem[h].saved
    }

    method Claim(i: nat, n: nat) returns (p: Ptr, h: nat)
      requires Valid() && i < |links| && view[i].StdInfo?
      modifies this`view, view[i].blk, view[i].blk.mem
      ensures Valid() && links == old(links) && Allocated(old(Owned()), Owned(), p, n)
      ensures view[i].StdInfo? && view[i].blk == old(view)[i].blk
      ensures KeepsMarks(old(view)[i].live, old(view[i].blk.mem[..]), old(view)[i].blk.mem[..])
      ensures p == Null ==> NoneFits(old(BlkOf(links[i])), n)
      ensures p != Null ==> h !in old(view)[i].live && view[i].live.Keys == old(view)[i].live.Keys + {h}
      ensures p != Null ==> InnerLive(i, h) && p == Std(view[i].blk, h) && |Owned()[p]| == view[i].blk.mem[h].nunits
      ensures p != Null ==> var b := old(BlkOf(links[i])); FitsFirst(b, h, n) && view[i].blk.mem[h].nunits == b.mem[h].nunits
    {
      hide Inv, Contents, Sums, NextRaw, KeepsMarks;
      ghost var x := view[i];
      assert Agrees(links[i], x);
      links[i].blk.LiveInside();
      SameMem(x.live, links[i].blk.mem[..]);
      var blk := links[i].blk;
      var found;
      found, h := blk.TakeFree(n);
      p := Null;
      if found {
        p := Std(blk, h);
        ghost var y := StdInfo(blk, blk.mem.Length, x.clean, blk.Live());
        StdPut(view, i, y, h);
        assert ValidBut(i);
        SetView(i, y);
      }
    }

    /** An inner element of block i cut down to n units: src/memheap.c:1343-1356. */
    method ShrinkElement(i: nat, h: nat, n: nat)
      requires Valid() && i < |links| && view[i].StdInfo? && h in view[i].live && h < view[i].blk.mem.Length
      requires !view[i].blk.mem[h].last && n + 1 < view[i].blk.mem[h].nunits
      modifies this`view, view[i].blk, view[i].blk.mem
      ensures Valid() && links == old(links) && ResizedAt(old(Owned()), Owned(), Std(old(view)[i].blk, h)) && |Owned()[Std(old(view)[i].blk, h)]| == n
      ensures KeepsMarks(old(view)[i].live, old(view[i].blk.mem[..]), old(view)[i].blk.mem[..])
    {
      hide Inv, Contents, Sums, NextRaw, KeepsMarks;
      ghost var x := view[i];
      assert Agrees(links[i], x);
      var blk := links[i].blk;
      blk.ShrinkInner(h, n);
      ghost var y := StdInfo(blk, blk.mem.Length, x.clean, blk.Live());
      StdPut(view, i, y, h);
      assert ValidBut(i);
      SetView(i, y);
    }

    /** memHeapMarkSaved, src/memheap.c:1479-1537.  The result is the memory of p's block, or null
        when there is nothing to mark. */
    method MarkSaved(p: Ptr, s: bool) returns (r: object?)
      requires Valid() && (p == Null || p in Owned() || IsFreed(p))
      modifies Repr
      ensures Valid() && view == old(view) && links == old(links) && Repr == old(Repr)
      ensures p !in Owned() ==> r == null && forall l <- links :: l.saved == old(l.saved)
      ensures p in Owned() && p.Std? ==> p.off < p.blk.mem.Length && r == (if old(p.blk.mem[p.off].saved) == s then null else p.blk)
      ensures p in Owned() && p.Std? ==> p.blk.mem[..] == old(p.blk.mem[..])[p.off := old(p.blk.mem[p.off]).(saved := s)]
      ensures p in Owned() && p.Raw? ==> r == p.data && forall l <- links :: l.saved == (old(l.saved) || (s && l.IsRaw() && l.data == p.data))
      ensures old(Marks()) - {p} <= Marks() && (p in Owned() ==> (p in Marks() <==> s || (p.Raw? && p in old(Marks()))))
    {
      hide Inv, Contents, Sums, NextRaw, Counted;
      r := null;
      if p == Null {
        LookupNone(view, p);
        return;
      }
      var l, prev;
      ghost var k, pk;
      l, prev, k, pk := FindRaw(p);
      hide Agrees, Sound, AllApart;
      if l != null {
        MarkRaw(l, k, s);
        r := l.data;
      } else {
        r := MarkStd(p, s);
      }
    }

    /** src/memheap.c:1500-1537 for an element of a standard block. */
    method MarkStd(p: Ptr, s: bool) returns (r: object?)
      requires Valid() && (p in Owned() || IsFreed(p))
      requires forall i | 0 <= i < |links| :: links[i].IsRaw() ==> p != Raw(links[i].data)
      modifies Repr
      ensures Valid() && view == old(view) && links == old(links) && Repr == old(Repr) && p.Std? && p.off < p.blk.mem.Length
      ensures p !in Owned() ==> r == null && forall l <- links :: l.saved == old(l.saved)
      ensures p in Owned() ==> r == (if old(p.blk.mem[p.off].saved) == s then null else p.blk)
      ensures p in Owned() ==> p.blk.mem[..] == old(p.blk.mem[..])[p.off := old(p.blk.mem[p.off]).(saved := s)]
      ensures old(Marks()) - {p} <= Marks() && (p in Owned() ==> (p in Marks() <==> s))
    {
      hide Inv, Contents, Sums, NextRaw, Counted;
      r := null;
      ghost var i := Locate(p);
      OtherMemory(i);
      hide Agrees, Sound, AllApart;
      ghost var (k, m) := (Marks(), p.blk.mem[..]);
      if !p.blk.mem[p.off].free && p.blk.mem[p.off].saved != s {
        MarkElement(i, p.off, p.blk, s);
        r := p.blk;
      }
      forall q | q in k && q != p ensures Marked(q) {
        if q.Std? && q.blk == p.blk { assert p.blk.mem[..][q.off] == m[q.off]; }
      }
      if p in Owned() { assert p.blk.mem[..][p.off].saved == s; }
    }

    /** The flag of a RAW block is set but never cleared: there nsaved stays 1, src/memheap.c:1484,
        1531-1534. */
    method MarkRaw(l: MemLink, ghost k: nat, s: bool)
      requires Valid() && k < |links| && links[k] == l && l.IsRaw()
      modifies l`saved
      ensures Valid() && Raw(l.data) in Owned()
      ensures forall x <- links :: x.saved == (old(x.saved) || (s && x.IsRaw() && x.data == l.data))
      ensures old(Marks()) <= Marks() && (Raw(l.data) in Marks() <==> s || Raw(l.data) in old(Marks()))
    {
      hide Inv, Contents, Sums, NextRaw, Counted;
      assert Agrees(l, view[k]);
      RawPut(view, k, view[k].content);
      forall j | 0 <= j < |links| && j != k && links[j].IsRaw() ensures links[j].data != l.data {
        assert Agrees(links[j], view[j]) && view[j].Memory() != view[k].Memory();
      }
      if s {
        l.saved := true;
      }
      assert forall j | 0 <= j < |links| :: Agrees(links[j], view[j]);
    }

    method MarkElement(ghost i: nat, h: nat, blk: MemBlk, s: bool)
      requires Valid() && i < |links| && view[i].StdInfo? && h in view[i].live && view[i].blk == blk && blk.mem[h].saved != s
      modifies links`saved, blk, blk.mem
      ensures Valid() && blk.mem[..] == old(blk.mem[..])[h := old(blk.mem[h]).(saved := s)]
      ensures forall l <- links :: l.IsRaw() ==> l.saved == old(l.saved)
    {
      hide Inv, Contents, Sums, NextRaw, Chained, Counted;
      assert Agrees(links[i], view[i]);
      blk.Inside(h);
      SetMark(links[i], view[i], blk, h, s);
      assert forall j | 0 <= j < |links| && j != i :: Agrees(links[j], view[j]);
      hide Agrees;
    }

    /** SET_SAVED or CLEAR_SAVED of element h, and the flag of its block: src/memheap.c:847-851,
        1514-1534. */
    static method SetMark(ghost l: MemLink, ghost x: LinkInfo, blk: MemBlk, h: nat, s: bool)
      requires Agrees(l, x) && x.StdInfo? && x.blk == blk && h in x.live && h < blk.mem.Length && blk.mem[h].saved != s
      modifies l`saved, blk, blk.mem
      ensures Agrees(l, x) && blk.mem[..] == old(blk.mem[..])[h := old(blk.mem[h]).(saved := s)]
    {
      hide Inv;
      blk.SavedNonNegative();
      if !s { blk.SavedCounted(h); }
      blk.SetSaved(h, s);
      if s && blk.nsaved > 0 {
        blk.plink.saved := true;
      } else if blk.nsaved == 0 {
        blk.plink.saved := false;
      }
    }

    /** The attempt to resize element h of block i without moving it: src/memheap.c:1171-1284. */
    method GrowInPlace(i: nat, h: nat, n: nat) returns (ok: bool)
      requires Valid() && i < |links| && view[i].StdInfo? && h in view[i].live && h < view[i].blk.mem.Length
      requires view[i].blk.mem[h].nunits < n
      modifies this`view, view[i].blk, view[i].blk.mem
      ensures Valid() && links == old(links)
      ensures var (b, m) := old((view[i].blk, view[i].blk.mem[..]));
              var (p, e) := (Std(b, h), h + 1 + m[h].nunits);
              var spare := if m[h].last then |m| - old(view[i].blk.freeX) else if e < |m| && m[e].free then m[e].nunits + 1 else 0;
              && (ok <==> n <= m[h].nunits + spare)
              && if ok then
                   && ResizedAt(old(Owned()), Owned(), p)
                   && |Owned()[p]| == if m[h].last || m[h].nunits + spare - n > 1 then n else m[h].nunits + spare
                 else Owned() == old(Owned())
      ensures old(Marks()) <= Marks()
    {
      hide Inv, Contents, Sums, NextRaw, Chained, Counted;
      assert Agrees(links[i], view[i]);
      var blk := links[i].blk;
      blk.Inside(h);
      OtherMemory(i);
      hide Agrees, Sound, AllApart;
      ghost var (k, v, m) := (Marks(), view, blk.mem[..]);
      ok := false;
      if n - blk.mem[h].nunits <= blk.mem.Length {
        if blk.mem[h].last {
          if n - blk.mem[h].nunits <= blk.mem.Length - blk.freeX {
            ResizeLastElement(i, h, n);
            KeptMarks(k, v, i, m);
            ok := true;
          }
        } else {
          var q := h + 1 + blk.mem[h].nunits;
          var sum := blk.mem[h].nunits + (if blk.mem[q].free then blk.mem[q].nunits + 1 else 0);
          if sum >= n {
            GrowElement(i, h, n);
            KeptMarks(k, v, i, m);
            ok := true;
          }
        }
      }
    }

    method ResizeLastElement(i: nat, h: nat, n: nat)
      requires Valid() && i < |links| && view[i].StdInfo? && h in view[i].live && h < view[i].blk.mem.Length
      requires view[i].blk.mem[h].last && h + 1 + n <= view[i].blk.mem.Length
      modifies this`view, view[i].blk, view[i].blk.mem
      ensures Valid() && links == old(links)
      ensures ResizedAt(old(Owned()), Owned(), Std(old(view)[i].blk, h)) && |Owned()[Std(old(view)[i].blk, h)]| == n
      ensures KeepsMarks(old(view)[i].live, old(view[i].blk.mem[..]), old(view)[i].blk.mem[..])
    {
      hide Inv, Contents, Sums, NextRaw, KeepsMarks;
      ghost var x := view[i];
      assert Agrees(links[i], x);
      var blk := links[i].blk;
      blk.InUse();
      blk.ResizeLast(h, n);
      blk.InUse();
      ghost var y := StdInfo(blk, blk.mem.Length, false, blk.Live());
      StdPut(view, i, y, h);
      assert ValidBut(i);
      SetView(i, y);
    }

    method GrowElement(i: nat, h: nat, n: nat)
      requires Valid() && i < |links| && view[i].StdInfo? && h in view[i].live && h < view[i].blk.mem.Length
      requires var m := view[i].blk.mem;
               && !m[h].last && m[h].nunits < n && End(m[..], h) < m.Length && m[End(m[..], h)].free
               && n <= m[h].nunits + m[End(m[..], h)].nunits + 1
      modifies this`view, view[i].blk, view[i].blk.mem
      ensures Valid() && links == old(links)
      ensures ResizedAt(old(Owned()), Owned(), Std(old(view)[i].blk, h))
      ensures KeepsMarks(old(view)[i].live, old(view[i].blk.mem[..]), old(view)[i].blk.mem[..])
      ensures |Owned()[Std(old(view)[i].blk, h)]| == var sum := old(var m := view[i].blk.mem; m[h].nunits + m[End(m[..], h)].nunits + 1); if sum <= n + 1 then sum else n
    {
      hide Inv, Contents, Sums, NextRaw, KeepsMarks;
      ghost var x := view[i];
      assert Agrees(links[i], x);
      var blk := links[i].blk;
      blk.GrowInto(h, n);
      ghost var y := StdInfo(blk, blk.mem.Length, x.clean, blk.Live());
      StdPut(view, i, y, h);
      assert ValidBut(i);
      SetView(i, y);
    }

    /** memHeapRealloc, src/memheap.c:1097-1366. */
    method Realloc(p: Ptr, nbytes: nat, mem: bool) returns (r: Ptr)
      requires Valid() && (p == Null || p in Owned())
      modifies this, Repr
      ensures Valid() && fresh(Repr - old(Repr))
      ensures p == Null ==> Allocated(old(Owned()), Owned(), r, Units(nbytes))
      ensures p != Null ==> Reallocated(old(Owned()), Owned(), p, r, Units(nbytes))
      ensures p.Std? && nbytes == 0 ==> r == if |old(Owned())[p]| == 0 then p else Null
      ensures p.Std? && 0 < nbytes <= 8 * |old(Owned())[p]| ==>
                r == p && |Owned()[p]| <= |old(Owned())[p]| && (8 * |Owned()[p]| < nbytes + 8 || |Owned()[p]| == |old(Owned())[p]|)
      ensures p != Null && r != Null ==> nbytes <= 8 * |Owned()[r]| < nbytes + 16
      ensures mem && (0 < nbytes || p.Raw?) ==> r != Null
      ensures MarksFollow(old(Marks()), Marks(), Owned(), p, r)
    {
      hide Inv, Contents, Sums, NextRaw, Sound, Counted;
      if p == Null {
        r := Alloc(nbytes, mem);
        return;
      }
      var l, prev;
      ghost var k, pk;
      l, prev, k, pk := FindRaw(p);
      if l != null {
        r := ReallocRaw(l, k, p, nbytes, mem);
      } else {
        r := ReallocStd(p, nbytes, mem);
      }
    }

    /** A RAW block gets memory of another size from the C library, which keeps the common part:
        src/memheap.c:1119-1147. */
    method ReallocRaw(l: MemLink, ghost k: nat, p: Ptr, nbytes: nat, mem: bool) returns (r: Ptr)
      requires Valid() && k < |links| && links[k] == l && l.IsRaw() && p == Raw(l.data)
      modifies this, Repr
      ensures Valid() && fresh(Repr - old(Repr)) && Reallocated(old(Owned()), Owned(), p, r, Units(nbytes)) && (mem ==> r != Null)
      ensures r != Null ==> |Owned()[r]| == Units(nbytes)
      ensures MarksFollow(old(Marks()), Marks(), Owned(), p, r)
    {
      hide Inv, Contents, Sums, NextRaw;
      assert Agrees(l, view[k]);
      RawPut(view, k, view[k].content);
      if !mem {
        return Null;
      }
      var n := Units(nbytes);
      var d := new Unit[n];
      var old_d := l.data;
      for j := 0 to if n < old_d.Length then n else old_d.Length
        invariant forall i | 0 <= i < j :: d[i] == old_d[i]
        modifies d
      {
        d[j] := old_d[j];
      }
      assert forall j | 0 <= j < |links| :: Agrees(links[j], view[j]);
      SwapRaw(l, k, d);
      r := Raw(d);
    }

    method SwapRaw(l: MemLink, ghost k: nat, d: array<Unit>)
      requires Valid() && k < |links| && links[k] == l && l.IsRaw() && d !in Repr
      modifies this`view, this`Repr, l`data
      ensures Valid() && Repr == old(Repr) + {d}
      ensures Raw(d) !in old(Owned()) && Owned() == (old(Owned()) - {Raw(old(l.data))})[Raw(d) := d[..]]
      ensures MarksFollow(old(Marks()), Marks(), Owned(), Raw(old(l.data)), Raw(d))
    {
      hide Inv, Contents, Sums, NextRaw, Chained;
      assert Agrees(l, view[k]);
      ghost var x := RawInfo(d, d[..]);
      SwapStore(view, k, x);
      forall s ensures Sums(s, view[k := x]) == Sums(s, view) { SumsSet(s, view, k, x); }
      l.data := d;
      Repr := Repr + {d};
      ghost var v := view;
      view := view[k := x];
      assert forall j | 0 <= j < |links| && j != k :: Agrees(links[j], v[j]);
      assert Agrees(l, x);
    }

    /** src/memheap.c:1151-1365 for an element of a standard block. */
    method ReallocStd(p: Ptr, nbytes: nat, mem: bool) returns (r: Ptr)
      requires Valid() && p in Owned()
      requires forall i | 0 <= i < |links| :: links[i].IsRaw() ==> p != Raw(links[i].data)
      modifies this, Repr
      ensures Valid() && fresh(Repr - old(Repr)) && Reallocated(old(Owned()), Owned(), p, r, Units(nbytes)) && (mem && 0 < nbytes ==> r != Null)
      ensures p.Std? && MarksFollow(old(Marks()), Marks(), Owned(), p, r)
      ensures r != Null ==> |Owned()[r]| <= Units(nbytes) + 1
      ensures nbytes == 0 ==> r == if |old(Owned())[p]| == 0 then p else Null
      ensures 0 < Units(nbytes) <= |old(Owned())[p]| ==> r == p && |Owned()[p]| == (if |old(Owned())[p]| - Units(nbytes) > 1 then Units(nbytes) else |old(Owned())[p]|)
    {
      hide Inv, Contents, Sums, NextRaw, Sound, Counted;
      var n := Units(nbytes);
      ghost var g := Locate(p);
      var i := IndexOf(p, g);
      var h := p.off;
      var len := p.blk.mem[h].nunits;
      SizeOf(p, i);
      r := p;
      if len == n {
        return;
      }
      if len < n {
        InReprAt(i);
        var ok := GrowInPlace(i, h, n);
        if !ok {
          r := Move(p, n, mem);
        }
      } else {
        r := Shrink(i, p, n);
      }
    }

    /** src/memheap.c:1317-1363. */
    method Shrink(i: nat, p: Ptr, n: nat) returns (r: Ptr)
      requires Valid() && p in Owned() && i < |links| && p.Std? && view[i].StdInfo? && view[i].blk == p.blk && links[i].blk == p.blk
      requires p.off in view[i].live && p.off < p.blk.mem.Length && n < p.blk.mem[p.off].nunits == |Owned()[p]|
      modifies this, Repr
      ensures Valid() && Repr == old(Repr) && Reallocated(old(Owned()), Owned(), p, r, n)
      ensures r == (if n == 0 then Null else p)
      ensures 0 < n ==> |Owned()[p]| == (if old(|Owned()[p]|) - n > 1 then n else old(|Owned()[p]|))
      ensures MarksFollow(old(Marks()), Marks(), Owned(), p, r)
    {
      hide Inv, Contents, Sums, NextRaw, Chained, Counted;
      if n == 0 {
        FreePtr(p);
        return Null;
      }
      r := p;
      if p.blk.mem[p.off].nunits - n > 1 {
        assert Agrees(links[i], view[i]);
        p.blk.Inside(p.off);
        OtherMemory(i);
        hide Agrees, Sound, AllApart;
        ghost var (k, v, m) := (Marks(), view, p.blk.mem[..]);
        if p.blk.mem[p.off].last {
          ResizeLastElement(i, p.off, n);
        } else {
          ShrinkElement(i, p.off, n);
        }
        KeptMarks(k, v, i, m);
      }
    }

    /** A larger element is allocated, the payload copied and the old element freed:
        src/memheap.c:1286-1315. */
    method Move(p: Ptr, n: nat, mem: bool) returns (q: Ptr)
      requires Valid() && p in Owned() && p.Std? && |Owned()[p]| < n
      modifies this, Repr
      ensures Valid() && fresh(Repr - old(Repr)) && Reallocated(old(Owned()), Owned(), p, q, n) && (mem ==> q != Null)
      ensures q != Null ==> |Owned()[q]| <= n + 1
      ensures MarksFollow(old(Marks()), Marks(), Owned(), p, q)
    {
      hide Inv, Contents, Sums, NextRaw, Sound, Counted;
      q := Alloc(n * 8, mem);
      if q == Null {
        return;
      }
      var saved := IsSaved(p);
      CarryMark(p, q, saved);
      Copy(p, q);
      FreePtr(p);
    }

    /** src/memheap.c:1297-1301. */
    method CarryMark(p: Ptr, q: Ptr, saved: bool)
      requires Valid() && p in Owned() && q in Owned() && p != q && (saved <==> p in Marks())
      modifies Repr
      ensures Valid() && view == old(view) && links == old(links) && Repr == old(Repr)
      ensures old(Marks()) <= Marks() && (p in old(Marks()) ==> q in Marks())
    {
      hide Inv, Contents, Sums, NextRaw, Sound, Counted, Marks;
      if saved {
        var _ := MarkSaved(q, true);
      }
    }

    method IsSaved(p: Ptr) returns (s: bool)
      requires Valid() && p in Owned() && p.Std?
      ensures s == (p in Marks())
    {
      hide Inv, Contents, Sums, NextRaw, Counted;
      ghost var g := Locate(p);
      s := p.blk.mem[p.off].saved;
    }

    /** memcpy of the payload p into the larger payload q. */
    method Copy(p: Ptr, q: Ptr)
      requires Valid() && p in Owned() && q in Owned() && p != q && p.Std? && |Owned()[p]| <= |Owned()[q]|
      modifies this`view, Repr
      ensures Valid() && Repr == old(Repr)
      ensures q in Owned() && Owned() == old(Owned())[q := Owned()[q]] && |Owned()[q]| == |old(Owned())[q]|
      ensures forall j | 0 <= j < |old(Owned())[p]| :: Owned()[q][j] == old(Owned())[p][j]
      ensures old(Marks()) <= Marks()
    {
      hide Inv, Contents, Sums, NextRaw, Sound, Counted;
      ghost var s := Owned();
      var len := Length(p);
      for j := 0 to len
        invariant Valid() && Repr == old(Repr) && old(Marks()) <= Marks()
        invariant q in Owned() && Owned() == s[q := Owned()[q]] && |Owned()[q]| == |s[q]|
        invariant forall i | 0 <= i < j :: Owned()[q][i] == s[p][i]
      {
        var u := Read(p, j);
        Write(q, j, u);
      }
    }

    method Length(p: Ptr) returns (n: nat)
      requires Valid() && p in Owned() && p.Std?
      ensures n == |Owned()[p]|
    {
      hide Inv, Contents, Sums, NextRaw, Counted;
      ghost var g := Locate(p);
      SizeOf(p, g);
      n := p.blk.mem[p.off].nunits;
    }

    method Read(p: Ptr, j: nat) returns (u: Unit)
      requires Valid() && p in Owned() && p.Std? && j < |Owned()[p]|
      ensures u == Owned()[p][j]
    {
      hide Inv, Contents, Sums, NextRaw, Counted;
      ghost var g := Locate(p);
      SizeOf(p, g);
      u := p.blk.mem[p.off + 1 + j];
    }

    /** The payload named by p is what lies behind its header. */
    lemma SizeOf(p: Ptr, i: nat)
      requires Valid() && p in Owned() && p.Std? && i < |links| && view[i].StdInfo? && view[i].blk == p.blk && p.off in view[i].live
      ensures p.off < p.blk.mem.Length && |Owned()[p]| == p.blk.mem[p.off].nunits && p.off + 1 + |Owned()[p]| <= p.blk.mem.Length
      ensures Owned()[p] == p.blk.mem[p.off + 1..p.off + 1 + |Owned()[p]|]
    {
      hide Inv, Contents, Sums, NextRaw, Counted;
      assert Agrees(links[i], view[i]);
      Lookup(view, i, p);
      p.blk.Inside(p.off);
      p.blk.PayloadOf(p.off);
    }

    method IndexOf(p: Ptr, ghost g: nat) returns (i: nat)
      requires Valid() && p.Std? && g < |links| && view[g].StdInfo? && view[g].blk == p.blk
      ensures i == g
    {
      hide Inv, Contents, Sums, NextRaw, Counted;
      assert Agrees(links[g], view[g]);
      i :| 0 <= i < |links| && links[i] == p.blk.plink;
    }

    /** memHeapReset, src/memheap.c:1542-1578: unsaved standard blocks are made clean, unsaved RAW
        blocks are given back. */
    method Reset()
      requires Valid()
      modifies this, Repr
      ensures Valid() && Repr == old(Repr)
      ensures view == AfterReset(old(view), old(SavedFlags())) && old(Marks()) <= Marks()
    {
      hide Inv, Contents, Sums, NextRaw, Sound, Counted, ResetRound;
      SameLengths();
      ghost var v, s := view, SavedFlags();
      ghost var done := 0;
      var i := 0;
      assert AfterReset(v[..0], s[..0]) == [];
      while i < |links|
        invariant Valid() && Repr == old(Repr) && |links| == |view| == |SavedFlags()| && i <= |links| && done <= |v| == |s|
        invariant old(Marks()) <= Marks()
        invariant ResetSoFar(v, s, done, view, SavedFlags(), i)
        decreases |v| - done
      {
        InRepr();
        InReprAt(i);
        ghost var w, t := view, SavedFlags();
        var keep := ResetAt(i);
        SameLengths();
        ResetGoesOn(v, s, done, w, t, i, keep, view, SavedFlags());
        if keep {
          i := i + 1;
        }
        done := done + 1;
      }
      assert v[..done] == v && s[..done] == s && view[..i] == view;
    }

    /** One round of the loop of memHeapReset. */
    method ResetAt(i: nat) returns (keep: bool)
      requires Valid() && i < |links| && i < |view|
      modifies this`links, this`view, this`freeUnits, this`freeBlocks, links`pnextRaw, if view[i].StdInfo? then {view[i].blk} else {}
      ensures Valid() && ResetRound(old(view), old(SavedFlags()), i, keep, view, SavedFlags()) && old(Marks()) <= Marks()
    {
      hide Inv, Contents, Sums, NextRaw, Chained, Counted;
      assert Agrees(links[i], view[i]);
      keep := true;
      if !links[i].saved {
        if links[i].IsRaw() {
          DropRawAt(i);
          keep := false;
        } else {
          MarkedElsewhere(i);
          ghost var (m, v) := (Marks(), view);
          CleanAt(i);
          KeptElsewhere(m, v, i);
        }
      }
    }

    /** Nothing in an unsaved block is marked. */
    lemma MarkedElsewhere(i: nat)
      requires Valid() && i < |links| && !links[i].saved
      ensures forall q <- Marks() :: OwnerOf(q) != view[i].Owner()
    {
      hide Inv, Contents, Sums, NextRaw, Chained, Counted;
      assert Agrees(links[i], view[i]);
      forall q | q in Owned() && Marked(q) ensures OwnerOf(q) != view[i].Owner() {
        if OwnerOf(q) == view[i].Owner() {
          Lookup(view, i, q);
          if q.Std? { q.blk.SavedCounted(q.off); }
        }
      }
    }

    /** What was marked outlives a change of another block. */
    lemma KeptElsewhere(m: set<Ptr>, v: seq<LinkInfo>, i: nat)
      requires Valid() && Distinct(v) && |view| == |v| && i < |v| && view == v[i := view[i]] && view[i].Owner() == v[i].Owner()
      requires forall q <- m :: q in Contents(v) && OwnerOf(q) != v[i].Owner() && Marked(q)
      ensures m <= Marks()
    {
      hide Inv, Contents, Sums, NextRaw, Chained, Counted, Agrees, AllApart, Heap.MarkedIn;
      DistinctSet(v, i, view[i]);
      forall q <- m ensures q in Owned() { StoreSetAt(v, i, view[i], q); }
    }

    /** src/memheap.c:1571-1574. */
    method DropRawAt(i: nat)
      requires Valid() && i < |links| && links[i].IsRaw()
      modifies this`links, this`view, links`pnextRaw
      ensures Valid() && links == old(links)[..i] + old(links)[i + 1..] && view == old(view)[..i] + old(view)[i + 1..]
      ensures old(links[i].saved) || old(Marks()) <= Marks()
    {
      hide Inv, Contents, Sums, NextRaw, Chained, Counted, Agrees, Sound, AllApart, Heap.MarkedIn;
      if !links[i].saved { MarkedElsewhere(i); }
      ghost var (m, ls) := (Marks(), links);
      RawPlace(i, i);
      var l, prev;
      ghost var k, pk;
      l, prev, k, pk := FindRaw(Raw(links[i].data));
      RawPlace(i, k);
      FreeRaw(l, prev, k, pk);
      FewerLinks(m, ls, k);
    }

    /** RAW blocks are told apart by their memory. */
    lemma RawPlace(i: nat, k: nat)
      requires Valid() && i < |links| && links[i].IsRaw() && k < |links| && links[k].IsRaw() && links[k].data == links[i].data
      ensures k == i && |view| == |links| && view[i] == RawInfo(links[i].data, view[i].content)
    {
      hide Inv, Contents, Sums, NextRaw, Chained, Counted;
      assert Agrees(links[i], view[i]) && Agrees(links[k], view[k]);
      assert view[k].Memory() == view[i].Memory();
    }

    /** src/memheap.c:1559-1569.  (The source leaves nsaved alone; it is 0 in an unsaved block.) */
    method CleanAt(i: nat)
      requires Valid() && i < |links| && view[i].StdInfo? && !links[i].saved
      modifies this`freeUnits, this`freeBlocks, this`view, view[i].blk
      ensures Valid() && links == old(links) && view == old(view)[i := old(view)[i].(clean := true, live := map[])]
      ensures freeUnits == old(freeUnits) + (if old(view[i].clean) then 0 else old(view[i].cap))
      ensures freeBlocks == old(freeBlocks) + (if old(view[i].clean) then 0 else 1)
    {
      hide Inv, Contents, Sums, NextRaw;
      ghost var x := view[i];
      assert Agrees(links[i], x);
      var blk := links[i].blk;
      blk.InUse();
      if blk.freeX != 0 {
        freeUnits := freeUnits + blk.mem.Length;
        freeBlocks := freeBlocks + 1;
      }
      blk.Clean();
      ghost var y := StdInfo(blk, blk.mem.Length, true, blk.Live());
      assert y == x.(clean := true, live := map[]);
      DistinctSet(view, i, y);
      assert ValidBut(i);
      SetView(i, y);
    }

    /** p lies in a block that a reset leaves alone. */
    ghost predicate InSavedBlock(p: Ptr)
      reads this, links
    {
      exists i :: 0 <= i < |view| && i < |links| && links[i].saved && p in view[i].Owned()
    }

    method IsKept(p: Ptr) returns (kept: bool)
      requires Valid() && p in Owned()
      ensures kept == InSavedBlock(p)
    {
      hide Inv, Contents, Sums, NextRaw, Counted;
      var l, prev;
      ghost var k, pk;
      l, prev, k, pk := FindRaw(p);
      if l != null {
        assert Agrees(l, view[k]);
        kept := l.saved;
      } else {
        k := Locate(p);
        assert Agrees(links[k], view[k]);
        kept := p.blk.plink.saved;
      }
      OnlyOwner(p, k);
    }

    lemma OnlyOwner(p: Ptr, k: nat)
      requires Valid() && k < |view| && OwnerOf(p) == view[k].Owner() && p in Owned()
      ensures InSavedBlock(p) <==> links[k].saved
    {
      hide Inv, Contents, Sums, NextRaw, Counted, Chained, Agrees;
      Lookup(view, k, p);
      forall i | 0 <= i < |view| && p in view[i].Owned() ensures i == k { OwnStore(view[i], p); }
    }

    /** The saved marks of the links, in list order. */
    ghost function SavedFlags(): seq<bool>
      reads this, links
    {
      seq(|links|, j requires 0 <= j < |links| reads this, links => links[j].saved)
    }
  }
}
