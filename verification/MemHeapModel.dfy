/** The heap of src/memheap.c as a value: its list of blocks, what callers own, its totals, and
    the chain of RAW blocks. */
module MemHeapModel {
  import opened MemBlockModel
  import opened MemBlock

  /** A pointer handed to a caller.  The payload of a standard element is named by its block and
      header offset, a RAW payload by its memory. */
  datatype Ptr = Null | Std(blk: MemBlk, off: nat) | Raw(data: array<Unit>)

  /** One block of the heap as its callers see it; payloads are counted in 8-byte units. */
  datatype LinkInfo =
    | StdInfo(blk: MemBlk, cap: nat, clean: bool, live: map<nat, seq<Unit>>)
    | RawInfo(data: array<Unit>, content: seq<Unit>)
  {
    ghost function Owner(): object {
      match this case StdInfo(b, _, _, _) => b case RawInfo(d, _) => d
    }

    /** The memory of the block. */
    ghost function Memory(): array<Unit> {
      match this case StdInfo(b, _, _, _) => b.mem case RawInfo(d, _) => d
    }

    ghost function Owned(): map<Ptr, seq<Unit>> {
      match this
      case StdInfo(b, _, _, live) => map p: Ptr | p in (set h | h in live :: Std(b, h)) :: live[p.off]
      case RawInfo(d, c) => map[Raw(d) := c]
    }
  }

  /** A byte count rounded up to units, src/memheap.c:551-553. */
  function Units(nbytes: nat): (n: nat)
    ensures nbytes <= 8 * n < nbytes + 8
  {
    (nbytes + 7) / 8
  }

  /** Size of OSMemBlk with 8-byte pointers, src/memheap.c:47-59. */
  const SIZEOF_MEMBLK := 32

  /** The data units of a new block that must hold an element of n units: src/memheap.c:708-721. */
  function DataUnits(n: nat, defBlkSize: nat): (d: nat)
    requires n <= 0xFFFE && 0 < defBlkSize
    ensures n + 1 <= d < 0x1_0000
  {
    var need := n * 8 + SIZEOF_MEMBLK + 8;
    var size := if need < defBlkSize then defBlkSize else (need + defBlkSize - 1) / defBlkSize * defBlkSize;
    assert need <= size by {
      if need >= defBlkSize { assert (need + defBlkSize - 1) / defBlkSize * defBlkSize == need + defBlkSize - 1 - (need + defBlkSize - 1) % defBlkSize; }
    }
    var d := (size - SIZEOF_MEMBLK) / 8;
    if d >= 0x1_0000 then 0xFFFF else d
  }

  /** The block has the least multiple of the default size that holds the element's octets, a header
      for it and one for the block, unless that is more than 16 bits can count. */
  lemma DataUnitsFit(n: nat, size: nat) returns (k: nat)
    requires n <= 0xFFFE && 0 < size
    ensures (k - 1) * size < 8 * n + 40 <= k * size && 0 < k
    ensures var d := DataUnits(n, size);
            if k * size < 8 * 0x1_0000 + 32 then 8 * d + 32 <= k * size < 8 * d + 40 else d == 0xFFFF
  {
    var need := 8 * n + 40;
    if need < size {
      k := 1;
    } else {
      k := (need + size - 1) / size;
      assert k * size == need + size - 1 - (need + size - 1) % size;
      assert (k - 1) * size == k * size - size;
    }
  }

  /** What an allocation of n units promises: either nothing has changed, or p is a new pointer to
      at least n units and every payload handed out before is as it was. */
  ghost predicate Allocated(s: map<Ptr, seq<Unit>>, t: map<Ptr, seq<Unit>>, p: Ptr, n: nat) {
    if p == Null then t == s else p !in s && p in t && t == s[p := t[p]] && n <= |t[p]|
  }

  /** What resizing p to n units promises: the result r, p itself or a new pointer, has the first
      units of p's payload that fit, and every other payload is untouched; no result means that
      nothing changed, or that p was freed if it lay in a standard block and n == 0. */
  ghost predicate Reallocated(s: map<Ptr, seq<Unit>>, t: map<Ptr, seq<Unit>>, p: Ptr, r: Ptr, n: nat) {
    p in s &&
    if r == Null then t == (if n == 0 && p.Std? then s - {p} else s)
    else && (r == p || r !in s) && r in t && t == (s - {p})[r := t[r]] && n <= |t[r]|
         && forall i: nat | i < |s[p]| && i < |t[r]| :: t[r][i] == s[p][i]
  }

  /** Of what was marked to be saved, k, all but p still is; if p was, then so is what has become
      of it: r, or p itself where there is no r and callers still own p. */
  ghost predicate MarksFollow(k: set<Ptr>, now: set<Ptr>, t: map<Ptr, seq<Unit>>, p: Ptr, r: Ptr) {
    k - {p} <= now && (p in k ==> if r != Null then r in now else p in t ==> p in now)
  }

  /** A new payload cut down in place. */
  lemma AllocatedAndCut(s: map<Ptr, seq<Unit>>, t: map<Ptr, seq<Unit>>, u: map<Ptr, seq<Unit>>, p: Ptr, n: nat, k: nat)
    requires p != Null && Allocated(s, t, p, n) && ResizedAt(t, u, p) && k <= |u[p]|
    ensures Allocated(s, u, p, k)
  {}

  /** A new payload given back at once. */
  lemma AllocatedAndFreed(s: map<Ptr, seq<Unit>>, t: map<Ptr, seq<Unit>>, p: Ptr, n: nat)
    requires p != Null && Allocated(s, t, p, n)
    ensures Allocated(s, t - {p}, Null, n)
  {
    assert t - {p} == s - {p} == s;
  }

  /** p keeps the first units of its payload that fit; every other payload is untouched. */
  ghost predicate ResizedAt(s: map<Ptr, seq<Unit>>, t: map<Ptr, seq<Unit>>, p: Ptr) {
    && p in s && p in t && t == s[p := t[p]]
    && forall i: nat | i < |s[p]| && i < |t[p]| :: t[p][i] == s[p][i]
  }

  ghost function OwnerOf(p: Ptr): object?
  {
    match p case Null => null case Std(b, _) => b case Raw(d) => d
  }

  ghost predicate Distinct(v: seq<LinkInfo>) {
    forall i, j | 0 <= i < j < |v| :: v[i].Owner() != v[j].Owner()
  }

  /** Everything the callers own: every live pointer with its payload. */
  ghost function Contents(v: seq<LinkInfo>): map<Ptr, seq<Unit>> {
    if v == [] then map[] else Contents(v[1..]) + v[0].Owned()
  }

  lemma OwnStore(x: LinkInfo, p: Ptr)
    ensures p in x.Owned() ==> OwnerOf(p) == x.Owner()
  {}

  lemma {:induction false} LookupNone(v: seq<LinkInfo>, p: Ptr)
    requires forall i | 0 <= i < |v| :: v[i].Owner() != OwnerOf(p)
    ensures p !in Contents(v)
  {
    if v != [] {
      OwnStore(v[0], p);
      LookupNone(v[1..], p);
    }
  }

  /** A pointer is looked up in the one block that owns it. */
  lemma {:induction false} Lookup(v: seq<LinkInfo>, k: nat, p: Ptr)
    requires Distinct(v) && k < |v| && v[k].Owner() == OwnerOf(p)
    ensures p in Contents(v) <==> p in v[k].Owned()
    ensures p in Contents(v) ==> Contents(v)[p] == v[k].Owned()[p]
  {
    if k == 0 {
      LookupNone(v[1..], p);
    } else {
      OwnStore(v[0], p);
      Lookup(v[1..], k - 1, p);
    }
  }

  lemma StoreSetAt(v: seq<LinkInfo>, k: nat, x: LinkInfo, p: Ptr)
    requires Distinct(v) && k < |v| && x.Owner() == v[k].Owner() && Distinct(v[k := x])
    ensures p in Contents(v[k := x]) <==> if OwnerOf(p) == x.Owner() then p in x.Owned() else p in Contents(v)
    ensures p in Contents(v[k := x]) ==> Contents(v[k := x])[p] == if OwnerOf(p) == x.Owner() then x.Owned()[p] else Contents(v)[p]
  {
    hide Contents;
    if i :| 0 <= i < |v| && v[i].Owner() == OwnerOf(p) {
      Lookup(v, i, p);
      Lookup(v[k := x], i, p);
    } else {
      LookupNone(v, p);
      LookupNone(v[k := x], p);
    }
  }

  /** The pointers of s that o does not own. */
  ghost function Others(s: map<Ptr, seq<Unit>>, o: object): map<Ptr, seq<Unit>> {
    map p | p in s && OwnerOf(p) != o :: s[p]
  }

  /** Another state for block k: only pointers it owns may change. */
  lemma StoreSet(v: seq<LinkInfo>, k: nat, x: LinkInfo)
    requires Distinct(v) && k < |v| && x.Owner() == v[k].Owner()
    ensures Distinct(v[k := x]) && Contents(v[k := x]) == Others(Contents(v), x.Owner()) + x.Owned()
  {
    hide Contents, LinkInfo.Owned;
    var t, u := Contents(v[k := x]), Others(Contents(v), x.Owner()) + x.Owned();
    forall p | p in t ensures p in u && t[p] == u[p] { OwnStore(x, p); StoreSetAt(v, k, x, p); }
    forall p | p in u ensures p in t { OwnStore(x, p); StoreSetAt(v, k, x, p); }
    assert t.Keys == u.Keys;
    assert t == u;
  }

  /** A block put at the head of the list. */
  lemma StoreCons(v: seq<LinkInfo>, x: LinkInfo)
    requires Distinct(v) && forall i | 0 <= i < |v| :: v[i].Owner() != x.Owner()
    ensures Distinct([x] + v) && Contents([x] + v) == Contents(v) + x.Owned()
    ensures Contents(v).Keys !! x.Owned().Keys
  {
    assert ([x] + v)[1..] == v;
    forall p | p in x.Owned() ensures p !in Contents(v) {
      OwnStore(x, p);
      LookupNone(v, p);
    }
  }

  lemma DistinctRemove(v: seq<LinkInfo>, k: nat)
    requires Distinct(v) && k < |v|
    ensures Distinct(v[..k] + v[k + 1..])
    ensures var w := v[..k] + v[k + 1..]; forall i | 0 <= i < |w| :: w[i] == if i < k then v[i] else v[i + 1]
  {
  }

  lemma StoreRemoveAt(v: seq<LinkInfo>, k: nat, p: Ptr)
    requires Distinct(v) && k < |v|
    ensures p in Contents(v[..k] + v[k + 1..]) <==> p in Contents(v) && OwnerOf(p) != v[k].Owner()
    ensures p in Contents(v[..k] + v[k + 1..]) ==> Contents(v[..k] + v[k + 1..])[p] == Contents(v)[p]
  {
    hide Contents;
    var w := v[..k] + v[k + 1..];
    DistinctRemove(v, k);
    if i :| 0 <= i < |v| && v[i].Owner() == OwnerOf(p) {
      Lookup(v, i, p);
      if i == k {
        LookupNone(w, p);
      } else {
        var j := if i < k then i else i - 1;
        assert w[j] == v[i];
        Lookup(w, j, p);
      }
    } else {
      LookupNone(v, p);
      LookupNone(w, p);
    }
  }

  /** A block taken out of the list takes only its own pointers with it. */
  lemma StoreRemove(v: seq<LinkInfo>, k: nat)
    requires Distinct(v) && k < |v|
    ensures Distinct(v[..k] + v[k + 1..])
    ensures Contents(v[..k] + v[k + 1..]) == Others(Contents(v), v[k].Owner())
  {
    hide Contents, LinkInfo.Owned;
    DistinctRemove(v, k);
    var t, u := Contents(v[..k] + v[k + 1..]), Others(Contents(v), v[k].Owner());
    forall p | p in t ensures p in u && t[p] == u[p] { StoreRemoveAt(v, k, p); }
    forall p | p in u ensures p in t { StoreRemoveAt(v, k, p); }
    assert t.Keys == u.Keys;
    assert t == u;
  }

  // ---------- the effect on what callers own of the operations on one block ----------

  /** What block k owns is what the heap gives it. */
  lemma OwnedAt(v: seq<LinkInfo>, k: nat)
    requires Distinct(v) && k < |v|
    ensures Contents(v) == Others(Contents(v), v[k].Owner()) + v[k].Owned()
  {
    hide Contents, LinkInfo.Owned;
    assert v[k := v[k]] == v;
    StoreSet(v, k, v[k]);
  }

  lemma OwnedPut(y: LinkInfo, x: LinkInfo, h: nat)
    requires y.StdInfo? && x.StdInfo? && x.blk == y.blk && h in x.live && x.live == y.live[h := x.live[h]]
    ensures x.Owned() == y.Owned()[Std(x.blk, h) := x.live[h]]
    ensures Std(x.blk, h) in y.Owned() <==> h in y.live
    ensures h in y.live ==> y.Owned()[Std(x.blk, h)] == y.live[h]
  {
    var s, t, q := x.Owned(), y.Owned(), Std(x.blk, h);
    assert forall p | p in s :: p == q || p in t;
    assert forall p | p in t :: p in s;
    assert q in s;
    assert s.Keys == t.Keys + {q};
    assert s == t[q := x.live[h]];
  }

  /** The payload of an element of block k is what the heap gives it. */
  lemma StdAt(v: seq<LinkInfo>, k: nat, h: nat)
    requires Distinct(v) && k < |v| && v[k].StdInfo?
    ensures Std(v[k].blk, h) in Contents(v) <==> h in v[k].live
    ensures h in v[k].live ==> Contents(v)[Std(v[k].blk, h)] == v[k].live[h]
  {
    hide Contents, Distinct;
    var y, q := v[k], Std(v[k].blk, h);
    Lookup(v, k, q);
    assert q in y.Owned() <==> h in y.live;
  }

  lemma StdPut(v: seq<LinkInfo>, k: nat, x: LinkInfo, h: nat)
    requires Distinct(v) && k < |v| && v[k].StdInfo? && x.StdInfo? && x.blk == v[k].blk
    requires h in x.live && x.live == v[k].live[h := x.live[h]]
    ensures Distinct(v[k := x])
    ensures Contents(v[k := x]) == Contents(v)[Std(x.blk, h) := x.live[h]]
    ensures Std(x.blk, h) in Contents(v) <==> h in v[k].live
    ensures h in v[k].live ==> Contents(v)[Std(x.blk, h)] == v[k].live[h]
  {
    hide Contents, Distinct;
    StoreSet(v, k, x);
    OwnedAt(v, k);
    OwnedPut(v[k], x, h);
    StdAt(v, k, h);
    hide LinkInfo.Owned, Others;
    PutLast(Others(Contents(v), x.blk), v[k].Owned(), Std(x.blk, h), x.live[h]);
  }

  lemma PutLast(o: map<Ptr, seq<Unit>>, w: map<Ptr, seq<Unit>>, q: Ptr, c: seq<Unit>)
    ensures o + w[q := c] == (o + w)[q := c]
  {}

  lemma StdDelete(v: seq<LinkInfo>, k: nat, x: LinkInfo, h: nat)
    requires Distinct(v) && k < |v| && v[k].StdInfo? && x.StdInfo? && x.blk == v[k].blk
    requires h in v[k].live && x.live == v[k].live - {h}
    ensures Distinct(v[k := x])
    ensures Contents(v[k := x]) == Contents(v) - {Std(x.blk, h)}
  {
    hide Contents;
    StoreSet(v, k, x);
    OwnedAt(v, k);
    var q, o, w := Std(x.blk, h), Others(Contents(v), x.blk), v[k].Owned();
    assert x.Owned() == w - {q};
    hide LinkInfo.Owned;
    assert o + (w - {q}) == (o + w) - {q};
  }

  // ---------- totals over the list ----------

  datatype Sum = UsedUnits | UsedBlocks | FreeUnits | FreeBlocks

  ghost function Part(s: Sum, x: LinkInfo): int {
    if x.RawInfo? then 0
    else match s
      case UsedUnits => x.cap
      case UsedBlocks => 1
      case FreeUnits => if x.clean then x.cap else 0
      case FreeBlocks => if x.clean then 1 else 0
  }

  ghost function Sums(s: Sum, v: seq<LinkInfo>): int {
    if v == [] then 0 else Part(s, v[0]) + Sums(s, v[1..])
  }

  lemma {:induction false} SumsSet(s: Sum, v: seq<LinkInfo>, k: nat, x: LinkInfo)
    requires k < |v|
    ensures Sums(s, v[k := x]) == Sums(s, v) - Part(s, v[k]) + Part(s, x)
  {
    if k == 0 {
      assert v[k := x][1..] == v[1..];
    } else {
      SumsSet(s, v[1..], k - 1, x);
      assert v[k := x][1..] == v[1..][k - 1 := x];
    }
  }

  lemma {:induction false} SumsRemove(s: Sum, v: seq<LinkInfo>, k: nat)
    requires k < |v|
    ensures Sums(s, v[..k] + v[k + 1..]) == Sums(s, v) - Part(s, v[k])
  {
    if k == 0 {
      assert v[..k] + v[k + 1..] == v[1..];
    } else {
      SumsRemove(s, v[1..], k - 1);
      var w := v[..k] + v[k + 1..];
      assert w[0] == v[0] && w[1..] == v[1..][..k - 1] + v[1..][k..];
    }
  }

  lemma SumsCons(s: Sum, v: seq<LinkInfo>, x: LinkInfo)
    ensures Sums(s, [x] + v) == Part(s, x) + Sums(s, v)
  {
    assert ([x] + v)[1..] == v;
  }

  // ---------- the chain of RAW blocks ----------

  /** The first RAW link of a list of links. */
  function FirstRaw(ls: seq<MemLink>): MemLink? {
    if ls == [] then null else if ls[0].IsRaw() then ls[0] else FirstRaw(ls[1..])
  }

  function Raws(ls: seq<MemLink>): seq<MemLink> {
    if ls == [] then [] else (if ls[0].IsRaw() then [ls[0]] else []) + Raws(ls[1..])
  }

  /** Where the pnextRaw of link i must lead: from the head of the list and from a RAW link to the
      next RAW link, from any other link nowhere. */
  function NextRaw(ls: seq<MemLink>, i: nat): MemLink?
    requires i < |ls|
  {
    if i == 0 || ls[i].IsRaw() then FirstRaw(ls[i + 1..]) else null
  }

  lemma {:induction false} FirstRawSplit(a: seq<MemLink>, b: seq<MemLink>)
    ensures FirstRaw(a + b) == if FirstRaw(a) != null then FirstRaw(a) else FirstRaw(b)
  {
    if a == [] {
      assert a + b == b;
    } else {
      assert (a + b)[1..] == a[1..] + b;
      FirstRawSplit(a[1..], b);
    }
  }

  lemma {:induction false} FirstRawIn(ls: seq<MemLink>)
    ensures FirstRaw(ls) != null ==> FirstRaw(ls) in ls && FirstRaw(ls).IsRaw()
    ensures FirstRaw(ls) == null <==> forall l <- ls :: !l.IsRaw()
  {
    if ls != [] { FirstRawIn(ls[1..]); }
  }

  lemma {:induction false} FindOwner(v: seq<LinkInfo>, p: Ptr) returns (i: nat)
    requires p in Contents(v)
    ensures i < |v| && p in v[i].Owned() && v[i].Owner() == OwnerOf(p)
  {
    OwnStore(v[0], p);
    if p in v[0].Owned() {
      i := 0;
    } else {
      var j := FindOwner(v[1..], p);
      i := j + 1;
    }
  }

  // ---------- the chain after links are added and removed ----------

  lemma ChainCons(ls: seq<MemLink>, l: MemLink, i: nat)
    requires i < |ls|
    ensures NextRaw([l] + ls, i + 1) == if i == 0 && !ls[0].IsRaw() then null else NextRaw(ls, i)
    ensures NextRaw([l] + ls, 0) == FirstRaw(ls)
  {
    assert ([l] + ls)[i + 2..] == ls[i + 1..];
    assert ([l] + ls)[1..] == ls;
  }

  /** Link i of the list without link k keeps its place in the chain, unless it led to k. */
  lemma ChainRemove(ls: seq<MemLink>, k: nat, i: nat)
    requires k < |ls| && i < |ls| - 1 && (i == 0 ==> 0 < k)
    requires forall a, b | 0 <= a < b < |ls| :: ls[a] != ls[b]
    ensures var w := ls[..k] + ls[k + 1..];
            var j := if i < k then i else i + 1;
            w[i] == ls[j] && NextRaw(w, i) == if NextRaw(ls, j) == ls[k] then FirstRaw(ls[k + 1..]) else NextRaw(ls, j)
  {
    var w := ls[..k] + ls[k + 1..];
    if k <= i {
      assert w[i + 1..] == ls[i + 2..];
      FirstRawIn(ls[i + 2..]);
    } else {
      var a, b := ls[i + 1..k], ls[k + 1..];
      assert w[i + 1..] == a + b;
      assert ls[i + 1..] == a + ([ls[k]] + b);
      FirstRawSplit(a, b);
      FirstRawSplit(a, [ls[k]] + b);
      assert ([ls[k]] + b)[1..] == b;
      FirstRawIn(a);
      FirstRawIn(b);
    }
  }

  ghost predicate ChainIs(ls: seq<MemLink>, next: seq<MemLink?>) {
    |next| == |ls| && forall i | 0 <= i < |ls| :: next[i] == NextRaw(ls, i)
  }

  /** The pnextRaw fields after standard link i is unlinked: src/memheap.c:914-927. */
  function NextWithoutStd(ls: seq<MemLink>, next: seq<MemLink?>, i: nat): (n: seq<MemLink?>)
    requires i < |ls| == |next|
    ensures |n| == |ls|
  {
    if i == 0 && 1 < |ls| && !ls[1].IsRaw() then next[1 := next[0]] else next
  }

  lemma ChainWithoutStd(ls: seq<MemLink>, next: seq<MemLink?>, i: nat)
    requires i < |ls| && !ls[i].IsRaw() && ChainIs(ls, next)
    requires forall a, b | 0 <= a < b < |ls| :: ls[a] != ls[b]
    ensures var n := NextWithoutStd(ls, next, i); ChainIs(ls[..i] + ls[i + 1..], n[..i] + n[i + 1..])
  {
    var w, n := ls[..i] + ls[i + 1..], NextWithoutStd(ls, next, i);
    var m := n[..i] + n[i + 1..];
    forall j | 0 <= j < |w| ensures m[j] == NextRaw(w, j) {
      if i == 0 && j == 0 {
        assert w[1..] == ls[2..] && ls[1..][1..] == ls[2..];
      } else {
        ChainRemove(ls, i, j);
        FirstRawIn(ls[(if j < i then j else j + 1) + 1..]);
      }
    }
  }

  lemma {:induction false} FirstRawIndex(ls: seq<MemLink>, k: nat) returns (j: nat)
    requires k < |ls| && FirstRaw(ls[k + 1..]) != null
    ensures k < j < |ls| && ls[j] == FirstRaw(ls[k + 1..]) && ls[j].IsRaw() && forall i | k < i < j :: !ls[i].IsRaw()
    decreases |ls| - k
  {
    j := k + 1;
    if !ls[j].IsRaw() {
      assert ls[k + 1..][1..] == ls[j + 1..];
      j := FirstRawIndex(ls, j);
    }
  }

  /** The pnextRaw fields after RAW link k, reached from link p or standing at the head, is
      unlinked: src/memheap.c:807-813. */
  function NextWithoutRaw(ls: seq<MemLink>, next: seq<MemLink?>, k: nat, hasPrev: bool, p: nat): (n: seq<MemLink?>)
    requires k < |ls| == |next| && (hasPrev ==> p < k)
    ensures |n| == |ls|
  {
    if hasPrev then next[p := next[k]]
    else if 1 < |ls| && next[1] == null && ls[1] != next[k] then next[1 := next[k]]
    else next
  }

  lemma OnlyPrevLeadsTo(ls: seq<MemLink>, k: nat, p: nat, i: nat)
    requires p < k < |ls| && i < |ls| && (p == 0 || ls[p].IsRaw()) && ls[k].IsRaw() && forall j | p < j < k :: !ls[j].IsRaw()
    requires forall a, b | 0 <= a < b < |ls| :: ls[a] != ls[b]
    ensures NextRaw(ls, i) == ls[k] <==> i == p
  {
    FirstRawIn(ls[p + 1..]);
    assert ls[k] in ls[p + 1..] by { assert ls[p + 1..][k - p - 1] == ls[k]; }
    var q := FirstRawIndex(ls, p);
    if i != p && NextRaw(ls, i) == ls[k] {
      var j := FirstRawIndex(ls, i);
    }
  }

  lemma ChainWithoutRaw(ls: seq<MemLink>, next: seq<MemLink?>, k: nat, hasPrev: bool, p: nat)
    requires k < |ls| && ls[k].IsRaw() && ChainIs(ls, next)
    requires if hasPrev then p < k && (p == 0 || ls[p].IsRaw()) && forall j | p < j < k :: !ls[j].IsRaw() else k == 0
    requires forall a, b | 0 <= a < b < |ls| :: ls[a] != ls[b]
    ensures var n := NextWithoutRaw(ls, next, k, hasPrev, p); ChainIs(ls[..k] + ls[k + 1..], n[..k] + n[k + 1..])
  {
    var w, n := ls[..k] + ls[k + 1..], NextWithoutRaw(ls, next, k, hasPrev, p);
    var m := n[..k] + n[k + 1..];
    forall j | 0 <= j < |w| ensures m[j] == NextRaw(w, j) {
      var i := if j < k then j else j + 1;
      assert m[j] == n[i];
      if k == 0 && j == 0 {
        assert w[1..] == ls[2..] && ls[1..][1..] == ls[2..];
        FirstRawIn(ls[2..]);
      } else {
        ChainRemove(ls, k, j);
        if hasPrev { OnlyPrevLeadsTo(ls, k, p, i); } else { FirstRawIn(ls[i + 1..]); }
      }
    }
  }

  lemma GiveUp(v: seq<LinkInfo>, i: nat, h: nat)
    requires Distinct(v) && i < |v| && v[i].StdInfo? && v[i].live.Keys == {h}
    ensures Others(Contents(v), v[i].blk) == Contents(v) - {Std(v[i].blk, h)}
  {
    hide Contents;
    OwnedAt(v, i);
    var o, w := Others(Contents(v), v[i].blk), v[i].Owned();
    assert w.Keys == {Std(v[i].blk, h)};
    assert (o + w) - {Std(v[i].blk, h)} == o;
  }

  lemma DropsRaw(v: seq<LinkInfo>, i: nat)
    requires Distinct(v) && i < |v| && v[i].RawInfo?
    ensures Others(Contents(v), v[i].data) == Contents(v) - {Raw(v[i].data)}
  {
    hide Contents;
    OwnedAt(v, i);
    var o, w := Others(Contents(v), v[i].data), v[i].Owned();
    assert (o + w) - {Raw(v[i].data)} == o;
  }

  lemma RawPut(v: seq<LinkInfo>, k: nat, c: seq<Unit>)
    requires Distinct(v) && k < |v| && v[k].RawInfo?
    ensures Distinct(v[k := v[k].(content := c)])
    ensures Contents(v[k := v[k].(content := c)]) == Contents(v)[Raw(v[k].data) := c]
    ensures Raw(v[k].data) in Contents(v) && Contents(v)[Raw(v[k].data)] == v[k].content
  {
    hide Contents;
    var x := v[k].(content := c);
    StoreSet(v, k, x);
    OwnedAt(v, k);
    var q, o := Raw(v[k].data), Others(Contents(v), v[k].data);
    assert o + map[q := c] == (o + map[q := v[k].content])[q := c];
  }

  /** The pnextRaw fields after a link is put at the head: src/memheap.c:1608-1618. */
  function NextWithHead(ls: seq<MemLink>, next: seq<MemLink?>): seq<MemLink?>
    requires |ls| == |next|
  {
    if ls == [] then [null]
    else if ls[0].IsRaw() then [ls[0]] + next
    else [next[0]] + next[0 := null]
  }

  lemma ChainWithHead(ls: seq<MemLink>, next: seq<MemLink?>, l: MemLink)
    requires ChainIs(ls, next)
    ensures ChainIs([l] + ls, NextWithHead(ls, next))
  {
    var w, n := [l] + ls, NextWithHead(ls, next);
    forall j | 0 <= j < |w| ensures n[j] == NextRaw(w, j) {
      if j == 0 {
        assert w[1..] == ls;
      } else {
        ChainCons(ls, l, j - 1);
      }
    }
  }

  lemma SwapStore(v: seq<LinkInfo>, k: nat, x: LinkInfo)
    requires Distinct(v) && k < |v| && v[k].RawInfo? && x.RawInfo? && forall i | 0 <= i < |v| :: v[i].Owner() != x.Owner()
    ensures Distinct(v[k := x])
    ensures Raw(x.data) !in Contents(v) && Contents(v[k := x]) == (Contents(v) - {Raw(v[k].data)})[Raw(x.data) := x.content]
  {
    hide Contents;
    LookupNone(v, Raw(x.data));
    var w, q := v[k := x], Raw(v[k].data);
    assert Distinct(w);
    var t, u := Contents(w), (Contents(v) - {q})[Raw(x.data) := x.content];
    forall p | p in t ensures p in u && t[p] == u[p] {
      var i := FindOwner(w, p);
      Lookup(w, i, p);
      if i != k { Lookup(v, i, p); }
    }
    forall p | p in u ensures p in t {
      if p == Raw(x.data) {
        Lookup(w, k, p);
      } else {
        var i := FindOwner(v, p);
        Lookup(w, i, p);
      }
    }
    assert t.Keys == u.Keys;
    assert t == u;
  }

  // ---------- reset ----------

  /** The list after a reset: a saved block as it was, an unsaved standard block clean, an unsaved
      RAW block gone. */
  ghost function AfterReset(v: seq<LinkInfo>, saved: seq<bool>): seq<LinkInfo>
    requires |v| == |saved|
  {
    if v == [] then []
    else
      var k := |v| - 1;
      AfterReset(v[..k], saved[..k]) +
        (if saved[k] then [v[k]] else if v[k].RawInfo? then [] else [v[k].(clean := true, live := map[])])
  }

  /** What is in the list after a reset, and from which block of the list before. */
  lemma {:induction false} ResetList(v: seq<LinkInfo>, saved: seq<bool>, x: LinkInfo)
    requires |v| == |saved|
    ensures x in AfterReset(v, saved) <==>
              exists i :: 0 <= i < |v| && if saved[i] then x == v[i] else v[i].StdInfo? && x == v[i].(clean := true, live := map[])
  {
    if v != [] {
      var k := |v| - 1;
      ResetList(v[..k], saved[..k], x);
      hide AfterReset;
      ResetStep(v, saved, k);
      assert v[..k + 1] == v && saved[..k + 1] == saved;
      if i :| 0 <= i < k && if saved[i] then x == v[i] else v[i].StdInfo? && x == v[i].(clean := true, live := map[]) {
        assert v[..k][i] == v[i] && saved[..k][i] == saved[i];
      }
    }
  }

  lemma ResetStep(v: seq<LinkInfo>, saved: seq<bool>, k: nat)
    requires |v| == |saved| && k < |v|
    ensures AfterReset(v[..k + 1], saved[..k + 1]) == AfterReset(v[..k], saved[..k]) +
              (if saved[k] then [v[k]] else if v[k].RawInfo? then [] else [v[k].(clean := true, live := map[])])
  {
    assert v[..k + 1][..k] == v[..k] && saved[..k + 1][..k] == saved[..k];
  }

  lemma DistinctSet(v: seq<LinkInfo>, k: nat, x: LinkInfo)
    requires Distinct(v) && k < |v| && x.Owner() == v[k].Owner()
    ensures Distinct(v[k := x])
  {}

  /** The first blocks of v are dealt with and stand before i in w, the rest is as it was. */
  ghost predicate ResetSoFar(v: seq<LinkInfo>, s: seq<bool>, done: nat, w: seq<LinkInfo>, t: seq<bool>, i: nat) {
    && |v| == |s| && |w| == |t| && done <= |v| && i <= |w|
    && w[..i] == AfterReset(v[..done], s[..done]) && w[i..] == v[done..] && t[i..] == s[done..]
  }

  /** What one round of the reset loop does at place i. */
  ghost predicate ResetRound(w: seq<LinkInfo>, t: seq<bool>, i: nat, keep: bool, w': seq<LinkInfo>, t': seq<bool>) {
    && i < |w| == |t| && keep == (t[i] || w[i].StdInfo?)
    && (keep ==> t' == t && w' == w[i := if t[i] then w[i] else w[i].(clean := true, live := map[])])
    && (!keep ==> t' == t[..i] + t[i + 1..] && w' == w[..i] + w[i + 1..])
  }

  lemma ResetGoesOn(v: seq<LinkInfo>, s: seq<bool>, done: nat, w: seq<LinkInfo>, t: seq<bool>, i: nat, keep: bool, w': seq<LinkInfo>, t': seq<bool>)
    requires ResetSoFar(v, s, done, w, t, i) && ResetRound(w, t, i, keep, w', t')
    ensures done < |v| && ResetSoFar(v, s, done + 1, w', t', if keep then i + 1 else i)
  {
    assert w[i] == w[i..][0] && t[i] == t[i..][0] && done < |v|;
    ResetStep(v, s, done);
    hide AfterReset;
    if keep {
      assert w'[..i + 1] == w[..i] + [w'[i]];
      assert w'[i + 1..] == w[i..][1..] && t'[i + 1..] == t[i..][1..];
    } else {
      assert w'[..i] == w[..i] && w'[i..] == w[i..][1..] && t'[i..] == t[i..][1..];
    }
  }
}
