/** What the heap's invariant means to its callers, over whole runs. */
module MemHeapTheorems {
  import opened MemBlockModel
  import opened MemBlock
  import opened MemHeapModel
  import opened MemHeap
  import MemBlockTheorems

  // ---------- the chain of RAW blocks ----------

  /** Following pnextRaw from l meets exactly the links s, and then ends. */
  ghost predicate Visits(l: MemLink?, s: seq<MemLink>)
    reads s
  {
    if s == [] then l == null else l == s[0] && Visits(s[0].pnextRaw, s[1..])
  }

  lemma RawsStep(ls: seq<MemLink>, j: nat)
    requires j < |ls|
    ensures FirstRaw(ls[j..]) == if ls[j].IsRaw() then ls[j] else FirstRaw(ls[j + 1..])
    ensures Raws(ls[j..]) == (if ls[j].IsRaw() then [ls[j]] else []) + Raws(ls[j + 1..])
  {
    assert ls[j..][0] == ls[j] && ls[j..][1..] == ls[j + 1..];
  }

  lemma {:induction false} RawsFrom(ls: seq<MemLink>, k: nat) returns (j: nat)
    requires k < |ls|
    ensures FirstRaw(ls[k + 1..]) == null ==> Raws(ls[k + 1..]) == []
    ensures FirstRaw(ls[k + 1..]) != null ==>
              k < j < |ls| && ls[j] == FirstRaw(ls[k + 1..]) && ls[j].IsRaw() && Raws(ls[k + 1..]) == [ls[j]] + Raws(ls[j + 1..])
    decreases |ls| - k
  {
    j := k + 1;
    if j == |ls| {
      assert ls[j..] == [];
    } else {
      RawsStep(ls, j);
      hide FirstRaw, Raws;
      if !ls[j].IsRaw() {
        assert Raws(ls[k + 1..]) == Raws(ls[j + 1..]);
        j := RawsFrom(ls, j);
      }
    }
  }

  /** Following pnextRaw from the head of the list visits the head and then exactly the RAW blocks
      behind it, in list order; from a RAW block, exactly the RAW blocks behind that. */
  lemma {:induction false} ChainVisitsRaws(h: Heap, k: nat)
    requires h.Chained() && k < |h.links| && (k == 0 || h.links[k].IsRaw())
    ensures Visits(h.links[k], [h.links[k]] + Raws(h.links[k + 1..]))
    decreases |h.links| - k
  {
    var ls := h.links;
    var j := RawsFrom(ls, k);
    var s := [ls[k]] + Raws(ls[k + 1..]);
    assert s[1..] == Raws(ls[k + 1..]);
    if FirstRaw(ls[k + 1..]) != null {
      ChainVisitsRaws(h, j);
    }
  }

  // ---------- what callers own ----------

  /** Where the payload p lies: its memory, and the units from..to of it. */
  ghost function PlaceOf(p: Ptr, s: map<Ptr, seq<Unit>>): (array?<Unit>, nat, nat)
    requires p in s
  {
    match p
    case Null => (null, 0, 0)
    case Std(b, h) => (b.mem, h + 1, h + 1 + |s[p]|)
    case Raw(d) => (d, 0, |s[p]|)
  }

  /** No two live payloads share a unit, in the same block or in different ones. */
  lemma OwnedDisjoint(h: Heap, p: Ptr, q: Ptr)
    requires h.Valid() && p in h.Owned() && q in h.Owned() && p != q
    ensures var (m, a, b), (n, c, d) := PlaceOf(p, h.Owned()), PlaceOf(q, h.Owned()); m != n || b <= c || d <= a
  {
    hide Inv, Contents, Sums;
    var i := FindOwner(h.view, p);
    var j := FindOwner(h.view, q);
    assert Heap.Agrees(h.links[i], h.view[i]) && Heap.Agrees(h.links[j], h.view[j]);
    if i == j && p.Std? {
      Lookup(h.view, i, p);
      Lookup(h.view, i, q);
      InOneBlock(p.blk, p.off, q.off);
    }
  }

  lemma InOneBlock(b: MemBlk, g: nat, h: nat)
    requires b.Valid() && g in b.Live() && h in b.Live() && g != h
    ensures g + 1 + |b.Live()[g]| <= h + 1 || h + 1 + |b.Live()[h]| <= g + 1
  {
    hide Linked, FlagsOk, FreeList, LastOk, Total;
    assert End(b.mem[..], g) <= b.freeX && End(b.mem[..], h) <= b.freeX;
  }

  /** Once every pointer has been given back, in whatever order, no RAW block is left, every
      standard block is clean, and the free totals are the whole of the heap. */
  lemma CleanWhenNothingOwned(h: Heap)
    requires h.Valid() && h.Owned() == map[]
    ensures forall i | 0 <= i < |h.links| :: h.links[i].blk != null && h.links[i].blk.IsClean()
    ensures h.freeUnits == h.usedUnits && h.freeBlocks == h.usedBlocks == |h.links|
  {
    hide Inv, Contents, Sums;
    forall i | 0 <= i < |h.links| ensures h.view[i].StdInfo? && h.view[i].live == map[] && h.view[i].clean && h.links[i].blk == h.view[i].blk && h.view[i].blk.IsClean() {
      BlockClean(h, i);
    }
    AllCleanSums(h.view);
  }

  lemma BlockClean(h: Heap, i: nat)
    requires h.Valid() && h.Owned() == map[] && i < |h.links|
    ensures h.view[i].StdInfo? && h.view[i].live == map[] && h.view[i].clean && h.links[i].blk == h.view[i].blk && h.view[i].blk.IsClean()
  {
    hide Inv, Contents, Sums;
    var x := h.view[i];
    assert Heap.Agrees(h.links[i], x);
    OwnedAt(h.view, i);
    RawOwns(x);
    if x.StdInfo? {
      assert forall k <- x.live :: Std(x.blk, k) in x.Owned();
      assert x.live == map[];
      MemBlockTheorems.CleanWhenEmpty(x.blk.Abs());
    }
  }

  lemma RawOwns(x: LinkInfo)
    ensures x.RawInfo? ==> x.Owned() != map[]
  {
    if x.RawInfo? { assert Raw(x.data) in x.Owned(); }
  }

  lemma {:induction false} AllCleanSums(v: seq<LinkInfo>)
    requires forall i | 0 <= i < |v| :: v[i].StdInfo? && v[i].clean
    ensures Sums(FreeUnits, v) == Sums(UsedUnits, v) && Sums(FreeBlocks, v) == Sums(UsedBlocks, v) == |v|
  {
    if v != [] { AllCleanSums(v[1..]); }
  }

  /** A saved block owns p. */
  ghost predicate Saved(v: seq<LinkInfo>, saved: seq<bool>, p: Ptr)
    requires |v| == |saved|
  {
    exists i :: 0 <= i < |v| && saved[i] && p in v[i].Owned()
  }

  lemma SavedLast(v: seq<LinkInfo>, saved: seq<bool>, k: nat, p: Ptr)
    requires |v| == |saved| == k + 1
    ensures Saved(v, saved, p) <==> Saved(v[..k], saved[..k], p) || (saved[k] && p in v[k].Owned())
  {
    hide LinkInfo.Owned;
    if Saved(v[..k], saved[..k], p) {
      var i :| 0 <= i < k && saved[..k][i] && p in v[..k][i].Owned();
      assert saved[i] && p in v[i].Owned();
    }
    if i :| 0 <= i < k && saved[i] && p in v[i].Owned() { assert saved[..k][i] && p in v[..k][i].Owned(); }
  }

  /** After a reset the callers own exactly what they owned in saved blocks. */
  lemma {:induction false} ResetKeepsSaved(v: seq<LinkInfo>, saved: seq<bool>, p: Ptr)
    requires Distinct(v) && |v| == |saved|
    ensures p in Contents(AfterReset(v, saved)) <==> Saved(v, saved, p)
    ensures p in Contents(AfterReset(v, saved)) ==> p in Contents(v) && Contents(AfterReset(v, saved))[p] == Contents(v)[p]
  {
    if v != [] {
      var k := |v| - 1;
      ResetKeepsSaved(v[..k], saved[..k], p);
      LastAfterReset(v, saved, k, p);
      SavedLast(v, saved, k, p);
      hide Contents, AfterReset, Saved, Distinct, LinkInfo.Owned, LinkInfo.Owner;
    }
  }

  lemma LastAfterReset(v: seq<LinkInfo>, saved: seq<bool>, k: nat, p: Ptr)
    requires Distinct(v) && |v| == |saved| == k + 1
    ensures var (s, t) := (Contents(AfterReset(v, saved)), Contents(AfterReset(v[..k], saved[..k])));
            && (p in s <==> p in t || (saved[k] && p in v[k].Owned()))
            && (p in t ==> s[p] == t[p])
            && (p in s && p !in t ==> s[p] == v[k].Owned()[p])
    ensures p in Contents(v) <==> p in Contents(v[..k]) || p in v[k].Owned()
    ensures p in Contents(v[..k]) ==> p !in v[k].Owned() && Contents(v)[p] == Contents(v[..k])[p]
    ensures p in v[k].Owned() ==> Contents(v)[p] == v[k].Owned()[p]
  {
    var x := if saved[k] then [v[k]] else if v[k].RawInfo? then [] else [v[k].(clean := true, live := map[])];
    ContentsAppend(AfterReset(v[..k], saved[..k]), x, p);
    ContentsAppend(v[..k], [v[k]], p);
    assert v[..k] + [v[k]] == v;
    if p in Contents(v[..k]) {
      var i := FindOwner(v[..k], p);
      OwnStore(v[k], p);
    }
  }

  lemma {:induction false} ContentsAppend(v: seq<LinkInfo>, x: seq<LinkInfo>, p: Ptr)
    requires |x| <= 1
    ensures p in Contents(v + x) <==> p in Contents(v) || (x != [] && p in x[0].Owned())
    ensures p in Contents(v) ==> Contents(v + x)[p] == Contents(v)[p]
    ensures p !in Contents(v) && x != [] && p in x[0].Owned() ==> Contents(v + x)[p] == x[0].Owned()[p]
  {
    if v == [] {
      assert v + x == x;
    } else {
      assert (v + x)[1..] == v[1..] + x;
      ContentsAppend(v[1..], x, p);
    }
  }

  /** What a reset leaves of the payload p. */
  lemma ResetOf(h: Heap, p: Ptr)
    requires h.Valid()
    ensures |h.view| == |h.SavedFlags()|
    ensures var t := Contents(AfterReset(h.view, h.SavedFlags()));
            (p in t <==> p in h.Owned() && h.InSavedBlock(p)) && (p in t ==> t[p] == h.Owned()[p])
  {
    hide Inv, Contents, Sums, AfterReset, LinkInfo.Owned;
    ResetKeepsSaved(h.view, h.SavedFlags(), p);
  }

  /** A payload marked saved outlives a reset, even if it is resized in between: what there is of
      it then is found behind the pointer that the resizing gave, or where it was if that failed. */
  method MarkedSurvives(h: Heap, p: Ptr, nbytes: nat, mem: bool) returns (r: Ptr)
    requires h.Valid() && p in h.Owned()
    modifies h, h.Repr
    ensures h.Valid() && (mem && 0 < nbytes ==> r != Null)
    ensures r != Null ==>
              && r in h.Owned() && nbytes <= 8 * |h.Owned()[r]|
              && forall i: nat | i < |old(h.Owned())[p]| && i < |h.Owned()[r]| :: h.Owned()[r][i] == old(h.Owned())[p][i]
    ensures r == Null && 0 < nbytes ==> p in h.Owned() && h.Owned()[p] == old(h.Owned())[p]
  {
    hide Inv, Contents, Sums, NextRaw, Heap.Sound, Heap.Counted, Heap.Marks;
    ghost var s := h.Owned();
    LookupNone(h.view, Null);
    var _ := h.MarkSaved(p, true);
    r := h.Realloc(p, nbytes, mem);
    ghost var t := h.Owned();
    assert Reallocated(s, t, p, r, Units(nbytes));
    ghost var q := if r == Null then p else r;
    ResetOf(h, q);
    h.Reset();
    MarksOwned(h);
    assert q in h.Owned() ==> h.Owned()[q] == t[q];
  }

  lemma MarksOwned(h: Heap)
    requires h.Valid()
    ensures h.Marks() <= h.Owned().Keys
  {}

  // ---------- runs ----------

  /** What a client asks for; pointers are named by their place in the client's table. */
  datatype Request =
    | Get(nbytes: nat)
    | Resize(k: nat, nbytes: nat)
    | Release(k: nat)
    | Fill(k: nat, j: nat, u: Unit)
    | Mark(k: nat, saved: bool)
    | ResetAll

  /** A payload as its client knows it: the octets asked for, what the client has stored in units of
      eight of them, and whether it has marked it to be saved. */
  datatype Entry = Entry(p: Ptr, size: nat, mine: map<nat, Unit>, saved: bool)

  const GONE := Entry(Null, 0, map[], false)

  ghost predicate Holds(e: Entry, s: map<Ptr, seq<Unit>>) {
    && e.p in s && e.size <= 8 * |s[e.p]|
    && forall j <- e.mine :: 8 * j < e.size && s[e.p][j] == e.mine[j]
  }

  /** The heap has given out exactly the pointers of the table, each once; each payload has the
      size its client asked for, and what the client stored in it. */
  ghost predicate Tracks(table: seq<Entry>, s: map<Ptr, seq<Unit>>) {
    && (forall i, j | 0 <= i < j < |table| && table[i].p != Null :: table[i].p != table[j].p)
    && (forall i | 0 <= i < |table| && table[i].p != Null :: Holds(table[i], s))
    && (forall i | 0 <= i < |table| && table[i].p == Null :: table[i] == GONE)
    && (forall p | p in s :: Listed(table, p))
  }

  /** What the client has marked is marked. */
  ghost predicate Remembers(table: seq<Entry>, marks: set<Ptr>) {
    forall i | 0 <= i < |table| && table[i].saved :: table[i].p in marks
  }

  ghost predicate Listed(table: seq<Entry>, p: Ptr) {
    exists i :: 0 <= i < |table| && table[i].p == p
  }

  predicate InUse(table: seq<Entry>, k: nat) {
    k < |table| && table[k].p != Null
  }

  /** The client's table after a request: mem tells whether the C library had memory. */
  ghost predicate Served(r: Request, mem: bool, table: seq<Entry>, t: seq<Entry>) {
    match r
    case Get(nbytes) =>
      && |t| == |table| + 1 && t[..|table|] == table && (mem ==> t[|table|].p != Null)
      && t[|table|] == if t[|table|].p == Null then GONE else Entry(t[|table|].p, nbytes, map[], false)
    case Resize(k, nbytes) =>
      if !InUse(table, k) then t == table
      else |t| == |table| && t == table[k := t[k]] && Resized(mem, nbytes, table[k], t[k])
    case Release(k) => t == if k < |table| then table[k := GONE] else table
    case Fill(k, j, u) =>
      t == if InUse(table, k) && 8 * j < table[k].size then table[k := table[k].(mine := table[k].mine[j := u])] else table
    case Mark(k, s) =>
      t == if InUse(table, k) then table[k := table[k].(saved := s || (table[k].p.Raw? && table[k].saved))] else table
    case ResetAll =>
      |t| == |table| && forall i | 0 <= i < |t| :: t[i] == table[i] || (!table[i].saved && t[i] == GONE)
  }

  /** A resized payload keeps its mark and what was stored in the units it still has; without
      memory it stays as it was, and it is gone only if it lay in a standard block and no unit was
      asked for. */
  ghost predicate Resized(mem: bool, nbytes: nat, e: Entry, f: Entry) {
    if f.p == Null then nbytes == 0 && e.p.Std? && f == GONE
    else f == Resize(e, f.p, nbytes) || (!mem && (0 < nbytes || e.p.Raw?) && f == e)
  }

  ghost function Resize(e: Entry, p: Ptr, n: nat): Entry {
    Entry(p, n, map j | j in e.mine && 8 * j < n :: e.mine[j], e.saved)
  }

  /** Any run of requests from a client that names only its own pointers keeps the heap's
      invariant, and at all times what the heap has given out is exactly what the client holds,
      with the contents the client stored: nothing is handed out twice, nothing is lost, no request
      disturbs another payload, and what is marked saved, even if it is resized and moved later,
      outlives every reset. */
  method Run(h: Heap, requests: seq<Request>, memory: seq<bool>) returns (table: seq<Entry>, ghost past: seq<seq<Entry>>)
    requires h.Valid() && h.Owned() == map[] && |memory| == |requests|
    modifies h, h.Repr
    ensures h.Valid() && Tracks(table, h.Owned()) && Remembers(table, h.Marks())
    ensures forall i | 0 <= i < |table| && table[i].p != Null ::
              table[i].p in h.Owned() && table[i].size <= 8 * |h.Owned()[table[i].p]|
    ensures |past| == |requests| + 1 && past[0] == [] && past[|requests|] == table
    ensures forall i | 0 <= i < |requests| :: Served(requests[i], memory[i], past[i], past[i + 1])
  {
    hide Inv, Contents, Heap.Sound, Heap.Counted, Served;
    table := [];
    past := [table];
    for i := 0 to |requests|
      invariant h.Valid() && fresh(h.Repr - old(h.Repr)) && Tracks(table, h.Owned()) && Remembers(table, h.Marks())
      invariant |past| == i + 1 && past[0] == [] && past[i] == table
      invariant forall j | 0 <= j < i :: Served(requests[j], memory[j], past[j], past[j + 1])
    {
      table := Serve(h, requests[i], memory[i], table);
      past := past + [table];
    }
  }

  method Serve(h: Heap, r: Request, mem: bool, table: seq<Entry>) returns (t: seq<Entry>)
    requires h.Valid() && Tracks(table, h.Owned()) && Remembers(table, h.Marks())
    modifies h, h.Repr
    ensures h.Valid() && fresh(h.Repr - old(h.Repr)) && Tracks(t, h.Owned()) && Remembers(t, h.Marks()) && Served(r, mem, table, t)
    ensures r.ResetAll? ==> forall i | 0 <= i < |table| && table[i].p != Null :: t[i] == table[i] <==> old(h.InSavedBlock(table[i].p))
  {
    hide Inv, Contents, Heap.Sound, Heap.Counted, Heap.InSavedBlock, Tracks;
    t := table;
    match r {
      case Get(nbytes) => t := ServeGet(h, nbytes, mem, table);
      case Resize(k, nbytes) => t := ServeResize(h, k, nbytes, mem, table);
      case Release(k) => t := ServeRelease(h, k, table);
      case Fill(k, j, u) => t := ServeFill(h, k, j, u, table);
      case Mark(k, saved) => t := ServeMark(h, k, saved, table);
      case ResetAll => t := ServeReset(h, table);
    }
  }

  method ServeGet(h: Heap, nbytes: nat, mem: bool, table: seq<Entry>) returns (t: seq<Entry>)
    requires h.Valid() && Tracks(table, h.Owned()) && Remembers(table, h.Marks())
    modifies h, h.Repr
    ensures h.Valid() && fresh(h.Repr - old(h.Repr)) && Tracks(t, h.Owned()) && Remembers(t, h.Marks()) && Served(Get(nbytes), mem, table, t)
  {
    hide Inv, Contents, Heap.Sound, Heap.Counted, Heap.Marks, Tracks, Allocated;
    ghost var s := h.Owned();
    var p := h.Alloc(nbytes, mem);
    var e := if p == Null then GONE else Entry(p, nbytes, map[], false);
    TracksNew(table, s, h.Owned(), e, nbytes);
    t := table + [e];
  }

  lemma TracksNew(table: seq<Entry>, s: map<Ptr, seq<Unit>>, t: map<Ptr, seq<Unit>>, e: Entry, n: nat)
    requires Tracks(table, s) && Allocated(s, t, e.p, Units(n)) && e == if e.p == Null then GONE else Entry(e.p, n, map[], false)
    ensures Tracks(table + [e], t)
  {
    var w := table + [e];
    assert w[|table|] == e;
    forall i | 0 <= i < |table| && w[i].p != Null ensures Holds(w[i], t) && w[i].p != e.p { assert Holds(table[i], s); }
    forall q | q in t ensures Listed(w, q) {
      if q != e.p {
        assert Listed(table, q);
        var i :| 0 <= i < |table| && table[i].p == q;
        assert w[i].p == q;
      }
    }
  }

  method ServeResize(h: Heap, k: nat, nbytes: nat, mem: bool, table: seq<Entry>) returns (t: seq<Entry>)
    requires h.Valid() && Tracks(table, h.Owned()) && Remembers(table, h.Marks())
    modifies h, h.Repr
    ensures h.Valid() && fresh(h.Repr - old(h.Repr)) && Tracks(t, h.Owned()) && Remembers(t, h.Marks()) && Served(Request.Resize(k, nbytes), mem, table, t)
  {
    hide Inv, Contents, Heap.Sound, Heap.Counted, Heap.Marks, Reallocated, MarksFollow, Remembers;
    ghost var (s, marks) := (h.Owned(), h.Marks());
    t := table;
    if InUse(table, k) {
      assert Holds(table[k], s);
      var p := h.Realloc(table[k].p, nbytes, mem);
      TracksMoved(table, s, h.Owned(), k, p, nbytes);
      MarksMoved(table, s, h.Owned(), marks, h.Marks(), k, p, nbytes);
      hide Tracks, Holds;
      if p != Null {
        t := table[k := Entry(p, nbytes, map j | j in table[k].mine && 8 * j < nbytes :: table[k].mine[j], table[k].saved)];
      } else if nbytes == 0 && table[k].p.Std? {
        t := table[k := GONE];
      }
    }
  }

  lemma TracksMoved(table: seq<Entry>, s: map<Ptr, seq<Unit>>, t: map<Ptr, seq<Unit>>, k: nat, r: Ptr, n: nat)
    requires Tracks(table, s) && InUse(table, k) && Reallocated(s, t, table[k].p, r, Units(n))
    ensures Tracks(if r != Null then table[k := Resize(table[k], r, n)] else if n == 0 && table[k].p.Std? then table[k := GONE] else table, t)
  {
    if r == Null {
      if n == 0 && table[k].p.Std? { TracksReleased(table, s, k); }
    } else {
      var w := table[k := Resize(table[k], r, n)];
      assert Holds(table[k], s);
      assert Holds(w[k], t);
      forall i | 0 <= i < |w| && i != k && w[i].p != Null ensures Holds(w[i], t) && w[i].p != r && w[i].p != table[k].p { assert Holds(table[i], s); }
      forall q | q in t ensures Listed(w, q) {
        if q == r {
          assert w[k].p == q;
        } else {
          assert Listed(table, q);
          var i :| 0 <= i < |table| && table[i].p == q;
          assert w[i].p == q;
        }
      }
    }
  }

  lemma MarksMoved(table: seq<Entry>, s: map<Ptr, seq<Unit>>, t: map<Ptr, seq<Unit>>, marks: set<Ptr>, now: set<Ptr>, k: nat, r: Ptr, n: nat)
    requires Remembers(table, marks) && Tracks(table, s) && InUse(table, k)
    requires MarksFollow(marks, now, t, table[k].p, r) && Reallocated(s, t, table[k].p, r, Units(n))
    ensures Remembers(if r != Null then table[k := Resize(table[k], r, n)] else if n == 0 && table[k].p.Std? then table[k := GONE] else table, now)
  {}

  method ServeRelease(h: Heap, k: nat, table: seq<Entry>) returns (t: seq<Entry>)
    requires h.Valid() && Tracks(table, h.Owned()) && Remembers(table, h.Marks())
    modifies h, h.Repr
    ensures h.Valid() && h.Repr == old(h.Repr) && Tracks(t, h.Owned()) && Remembers(t, h.Marks()) && Served(Release(k), true, table, t)
  {
    hide Inv, Contents, Heap.Sound, Heap.Counted;
    t := table;
    if k < |table| {
      TracksReleased(table, h.Owned(), k);
      assert table[k].p != Null ==> Holds(table[k], h.Owned());
      h.FreePtr(table[k].p);
      hide Tracks;
      t := table[k := GONE];
    }
  }

  lemma TracksReleased(table: seq<Entry>, s: map<Ptr, seq<Unit>>, k: nat)
    requires Tracks(table, s) && k < |table|
    ensures Tracks(table[k := GONE], s - {table[k].p})
  {
    var w, t := table[k := GONE], s - {table[k].p};
    forall i | 0 <= i < |w| && w[i].p != Null ensures Holds(w[i], t) { assert Holds(table[i], s); }
    forall q | q in t ensures Listed(w, q) {
      assert Listed(table, q);
      var i :| 0 <= i < |table| && table[i].p == q;
      assert w[i].p == q;
    }
  }

  method ServeFill(h: Heap, k: nat, j: nat, u: Unit, table: seq<Entry>) returns (t: seq<Entry>)
    requires h.Valid() && Tracks(table, h.Owned()) && Remembers(table, h.Marks())
    modifies h, h.Repr
    ensures h.Valid() && h.Repr == old(h.Repr) && Tracks(t, h.Owned()) && Remembers(t, h.Marks()) && Served(Fill(k, j, u), true, table, t)
  {
    hide Inv, Contents, Heap.Sound, Heap.Counted;
    t := table;
    if InUse(table, k) && 8 * j < table[k].size {
      assert Holds(table[k], h.Owned());
      TracksFilled(table, h.Owned(), k, j, u);
      hide Tracks;
      h.Write(table[k].p, j, u);
      t := table[k := table[k].(mine := table[k].mine[j := u])];
    }
  }

  lemma TracksFilled(table: seq<Entry>, s: map<Ptr, seq<Unit>>, k: nat, j: nat, u: Unit)
    requires Tracks(table, s) && InUse(table, k) && 8 * j < table[k].size
    ensures var p := table[k].p;
            && p in s && j < |s[p]|
            && Tracks(table[k := table[k].(mine := table[k].mine[j := u])], s[p := s[p][j := u]])
  {
    assert Holds(table[k], s);
    var p := table[k].p;
    var w, t := table[k := table[k].(mine := table[k].mine[j := u])], s[p := s[p][j := u]];
    assert Holds(w[k], t);
    forall i | 0 <= i < |w| && i != k && w[i].p != Null ensures Holds(w[i], t) { assert Holds(table[i], s); }
    forall q | q in t ensures Listed(w, q) {
      assert Listed(table, q);
      var i :| 0 <= i < |table| && table[i].p == q;
      assert w[i].p == q;
    }
  }

  method ServeMark(h: Heap, k: nat, saved: bool, table: seq<Entry>) returns (t: seq<Entry>)
    requires h.Valid() && Tracks(table, h.Owned()) && Remembers(table, h.Marks())
    modifies h, h.Repr
    ensures h.Valid() && h.Repr == old(h.Repr) && Tracks(t, h.Owned()) && Remembers(t, h.Marks())
    ensures Served(Mark(k, saved), true, table, t)
  {
    hide Inv, Contents, Heap.Sound, Heap.Counted;
    t := table;
    if InUse(table, k) {
      assert Holds(table[k], h.Owned());
      t := table[k := table[k].(saved := saved || (table[k].p.Raw? && table[k].saved))];
      TracksMarked(table, h.Owned(), k, t[k].saved);
      hide Tracks, Heap.Marks;
      var _ := h.MarkSaved(table[k].p, saved);
    }
  }

  lemma TracksMarked(table: seq<Entry>, s: map<Ptr, seq<Unit>>, k: nat, saved: bool)
    requires Tracks(table, s) && InUse(table, k)
    ensures Tracks(table[k := table[k].(saved := saved)], s)
  {
    var w := table[k := table[k].(saved := saved)];
    forall i | 0 <= i < |w| && w[i].p != Null ensures Holds(w[i], s) { assert Holds(table[i], s); }
    forall q | q in s ensures Listed(w, q) {
      assert Listed(table, q);
      var i :| 0 <= i < |table| && table[i].p == q;
      assert w[i].p == q;
    }
  }

  /** A client that resets the heap drops the pointers that do not outlive it. */
  method ServeReset(h: Heap, table: seq<Entry>) returns (t: seq<Entry>)
    requires h.Valid() && Tracks(table, h.Owned()) && Remembers(table, h.Marks())
    modifies h, h.Repr
    ensures h.Valid() && h.Repr == old(h.Repr) && Tracks(t, h.Owned()) && Remembers(t, h.Marks()) && Served(ResetAll, true, table, t)
    ensures forall i | 0 <= i < |table| && table[i].p != Null :: t[i] == table[i] <==> old(h.InSavedBlock(table[i].p))
  {
    hide Inv, Contents, Heap.Sound, Heap.Counted, Heap.InSavedBlock, Heap.Marks, AfterReset;
    t := Kept(h, table);
    ResetOf(h, Null);
    TracksReset(h, table, t);
    hide Tracks;
    forall i | 0 <= i < |table| && table[i].saved ensures t[i] == table[i] { MarkedIsKept(h, table[i].p); }
    h.Reset();
  }

  lemma MarkedIsKept(h: Heap, p: Ptr)
    requires h.Valid() && p in h.Marks()
    ensures h.InSavedBlock(p) && p != Null
  {
    hide Inv, Contents, Sums, NextRaw, Heap.Counted, Heap.Chained, Heap.Agrees;
    var i := FindOwner(h.view, p);
    if !h.links[i].saved { h.MarkedElsewhere(i); }
  }

  method Kept(h: Heap, table: seq<Entry>) returns (t: seq<Entry>)
    requires h.Valid() && Tracks(table, h.Owned())
    ensures |t| == |table|
    ensures forall i | 0 <= i < |t| :: t[i] == if table[i].p != Null && h.InSavedBlock(table[i].p) then table[i] else GONE
  {
    hide Inv, Contents, Heap.Sound, Heap.Counted, Heap.InSavedBlock;
    t := [];
    for i := 0 to |table|
      invariant |t| == i && forall j | 0 <= j < i :: t[j] == if table[j].p != Null && h.InSavedBlock(table[j].p) then table[j] else GONE
    {
      var kept := false;
      if table[i].p != Null {
        assert Holds(table[i], h.Owned());
        kept := h.IsKept(table[i].p);
      }
      t := t + [if kept then table[i] else GONE];
    }
  }

  lemma TracksReset(h: Heap, table: seq<Entry>, t: seq<Entry>)
    requires h.Valid() && Tracks(table, h.Owned()) && |t| == |table| && |h.view| == |h.SavedFlags()|
    requires forall j | 0 <= j < |t| :: t[j] == if table[j].p != Null && h.InSavedBlock(table[j].p) then table[j] else GONE
    ensures Tracks(t, Contents(AfterReset(h.view, h.SavedFlags())))
  {
    hide Inv, Contents, Heap.Sound, Heap.Counted, Heap.InSavedBlock, AfterReset;
    var s, w := h.Owned(), Contents(AfterReset(h.view, h.SavedFlags()));
    forall i | 0 <= i < |t| && t[i].p != Null ensures Holds(t[i], w) {
      assert Holds(table[i], s);
      ResetOf(h, t[i].p);
    }
    forall q | q in w ensures Listed(t, q) {
      ResetOf(h, q);
      assert Listed(table, q);
      var i :| 0 <= i < |table| && table[i].p == q;
      assert Holds(table[i], s);
      assert t[i].p == q;
    }
  }
}
