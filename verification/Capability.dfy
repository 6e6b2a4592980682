/** Capability selection and the later compatibility check. Picture formats are numbered in the order
    in which they are offered: SQCIF, QCIF, CIF, 4CIF, 16CIF. */
module Capability {
  datatype Kind =
    | G711U56 | G711U64 | G711A64 | G711A56 | G728 | G729 | G729A | G7231
    | GsmFull | GsmHalf | GsmEnhanced
    | H263

  /** Directions asked for, or offered. */
  datatype Dir = Dir(rx: bool, tx: bool)

  predicate Overlap(a: Dir, b: Dir) { (a.rx && b.rx) || (a.tx && b.tx) }

  const GSM_FRAME_SIZE: nat := 33
  const FORMATS: nat := 5

  /** What the remote end offers. GSM counts octets, not frames; H.263 gives a picture interval for
      each format it has. */
  datatype Offer =
    | Simple(kind: Kind, frames: int)
    | Gsm(kind: Kind, unitSize: nat)
    | Video(mpi: seq<Interval>)

  datatype Interval = Absent | Every(n: nat)

  predicate SimpleKind(k: Kind) { !GsmKind(k) && k != H263 }

  predicate GsmKind(k: Kind) { k in {GsmFull, GsmHalf, GsmEnhanced} }

  predicate Proper(o: Offer) {
    match o
    case Simple(k, f) => SimpleKind(k)
    case Gsm(k, u) => GsmKind(k)
    case Video(m) => |m| == FORMATS
  }

  /** The frames per packet of an audio offer. */
  function FramesOf(o: Offer): int
    requires !o.Video?
  {
    if o.Simple? then o.frames else o.unitSize / GSM_FRAME_SIZE
  }

  class Cap {
    const kind: Kind
    const dir: Dir
    var txframes: int
    var rxframes: int
    var picFormat: nat
    var mpi: nat

    constructor (kind: Kind, dir: Dir, txframes: int, rxframes: int, picFormat: nat, mpi: nat)
      ensures this.kind == kind && this.dir == dir && this.txframes == txframes && this.rxframes == rxframes
      ensures this.picFormat == picFormat && this.mpi == mpi
    {
      this.kind, this.dir, this.txframes, this.rxframes := kind, dir, txframes, rxframes;
      this.picFormat, this.mpi := picFormat, mpi;
    }
  }

  /** c is a copy of m, except for the frames it transmits and the interval it keeps. */
  ghost predicate CopyOf(c: Cap, m: Cap, txframes: int, mpi: nat)
    reads c, m
  {
    && c.kind == m.kind && c.dir == m.dir && c.rxframes == m.rxframes && c.picFormat == m.picFormat
    && c.txframes == txframes && c.mpi == mpi
  }

  method Copied(m: Cap, txframes: int, mpi: nat) returns (c: Cap)
    ensures fresh(c) && CopyOf(c, m, txframes, mpi)
  {
    c := new Cap(m.kind, m.dir, txframes, m.rxframes, m.picFormat, mpi);
  }

  // ---------- selection ----------

  /** Cap i is the first of that kind which works in one of the directions. */
  ghost predicate FirstOf(caps: seq<Cap>, i: nat, kind: Kind, dir: Dir) {
    && i < |caps| && caps[i].kind == kind && Overlap(caps[i].dir, dir)
    && forall k | 0 <= k < i :: !(caps[k].kind == kind && Overlap(caps[k].dir, dir))
  }

  /** Some local capability suits the offer; of a video offer, its format f. */
  ghost predicate Wanted(caps: seq<Cap>, o: Offer, dir: Dir, f: nat)
    reads caps
  {
    if o.Video? then f < |o.mpi| && SuitsH263(caps, o, dir, f) else f == 0 && SuitsAudio(caps, o, dir)
  }

  /** The first capability that works for an audio offer takes its frames, if it is to receive. */
  ghost predicate SuitsAudio(caps: seq<Cap>, o: Offer, dir: Dir)
    requires !o.Video?
    reads caps
  {
    exists i: nat :: FirstOf(caps, i, o.kind, dir) && (dir.rx ==> caps[i].rxframes >= FramesOf(o))
  }

  /** Cap i is the first for H.263 pictures of that format in one of the directions. */
  ghost predicate FirstVideo(caps: seq<Cap>, i: nat, format: nat, dir: Dir)
    reads caps
  {
    && i < |caps| && TakesVideo(caps[i], format, dir)
    && forall k | 0 <= k < i :: !TakesVideo(caps[k], format, dir)
  }

  predicate TakesVideo(c: Cap, format: nat, dir: Dir)
    reads c
  {
    c.kind == H263 && Overlap(c.dir, dir) && c.picFormat == format
  }

  /** The first capability for a format allows pictures as fast as offered, if it is to receive. */
  ghost predicate SuitsH263(caps: seq<Cap>, o: Offer, dir: Dir, format: nat)
    requires o.Video? && format < |o.mpi|
    reads caps
  {
    o.mpi[format].Every? &&
    exists i: nat :: FirstVideo(caps, i, format, dir) && (dir.rx ==> caps[i].mpi <= o.mpi[format].n)
  }

  /** A local capability for an audio offer: to receive, ours must take as many frames as offered; to
      transmit only, ours is cut down to what the other end takes. */
  method SelectAudio(caps: seq<Cap>, o: Offer, dir: Dir) returns (c: Cap?, ghost i: nat)
    requires Proper(o) && !o.Video?
    ensures c != null ==>
              && fresh(c) && FirstOf(caps, i, o.kind, dir) && (dir.rx || dir.tx)
              && (dir.rx ==> CopyOf(c, caps[i], caps[i].txframes, caps[i].mpi) && c.rxframes >= FramesOf(o))
              && (!dir.rx ==> CopyOf(c, caps[i], Min(caps[i].txframes, FramesOf(o)), caps[i].mpi))
    ensures c != null <==> SuitsAudio(caps, o, dir)
    ensures c != null ==>
              && c.kind == o.kind && ((dir.rx && c.dir.rx) || (dir.tx && c.dir.tx))
              && (forall k | 0 <= k < i :: caps[k].kind == o.kind ==> !((dir.rx && caps[k].dir.rx) || (dir.tx && caps[k].dir.tx)))
              && c.dir == caps[i].dir && c.rxframes == caps[i].rxframes
              && (if dir.rx then c.txframes == caps[i].txframes && (if o.Simple? then o.frames <= c.rxframes else o.unitSize < 33 * (c.rxframes + 1))
                  else
                    && c.txframes <= caps[i].txframes && (if o.Simple? then c.txframes <= o.frames else 33 * c.txframes <= o.unitSize)
                    && (c.txframes == caps[i].txframes || (if o.Simple? then c.txframes == o.frames else o.unitSize < 33 * (c.txframes + 1))))
    ensures c == null ==>
              forall k | 0 <= k < |caps| && caps[k].kind == o.kind && ((dir.rx && caps[k].dir.rx) || (dir.tx && caps[k].dir.tx)) ::
                || (dir.rx && (if o.Simple? then caps[k].rxframes < o.frames else 33 * (caps[k].rxframes + 1) <= o.unitSize))
                || exists j :: 0 <= j < k && caps[j].kind == o.kind && ((dir.rx && caps[j].dir.rx) || (dir.tx && caps[j].dir.tx))
  {
    var x := 0;
    while x < |caps| && !(caps[x].kind == o.kind && Overlap(caps[x].dir, dir))
      invariant x <= |caps| && forall k | 0 <= k < x :: !(caps[k].kind == o.kind && Overlap(caps[k].dir, dir))
    {
      x := x + 1;
    }
    i := x;
    c := null;
    if x == |caps| { return; }
    var cur, frames := caps[x], FramesOf(o);
    if dir.rx {
      if cur.rxframes < frames { return; }
      c := Copied(cur, cur.txframes, cur.mpi);
      return;
    }
    if dir.tx {
      c := Copied(cur, if cur.txframes > frames then frames else cur.txframes, cur.mpi);
    }
  }

  function Min(a: int, b: int): int { if a < b then a else b }

  function Max(a: nat, b: nat): nat { if a > b then a else b }

  /** A local H.263 capability for one picture format of an offer: to receive, the offered pictures
      must not come faster than ours; to transmit only, ours are slowed down to the offer. */
  method SelectH263(caps: seq<Cap>, o: Offer, dir: Dir, format: nat) returns (c: Cap?, ghost i: nat)
    requires Proper(o) && o.Video? && format < FORMATS && o.mpi[format].Every?
    ensures c != null ==>
              && fresh(c) && FirstVideo(caps, i, format, dir) && (dir.rx || dir.tx)
              && (dir.rx ==> CopyOf(c, caps[i], caps[i].txframes, caps[i].mpi) && c.mpi <= o.mpi[format].n)
              && (!dir.rx ==> CopyOf(c, caps[i], caps[i].txframes, Max(caps[i].mpi, o.mpi[format].n)))
    ensures c != null <==> SuitsH263(caps, o, dir, format)
    ensures c != null ==>
              && c.kind == H263 && c.picFormat == format && ((dir.rx && c.dir.rx) || (dir.tx && c.dir.tx))
              && (forall k | 0 <= k < i :: caps[k].kind == H263 && caps[k].picFormat == format ==>
                                             !((dir.rx && caps[k].dir.rx) || (dir.tx && caps[k].dir.tx)))
              && c.dir == caps[i].dir && c.txframes == caps[i].txframes && c.rxframes == caps[i].rxframes
              && (if dir.rx then c.mpi == caps[i].mpi <= o.mpi[format].n
                  else caps[i].mpi <= c.mpi && o.mpi[format].n <= c.mpi && (c.mpi == caps[i].mpi || c.mpi == o.mpi[format].n))
    ensures c == null ==>
              forall k | 0 <= k < |caps| && caps[k].kind == H263 && caps[k].picFormat == format
                           && ((dir.rx && caps[k].dir.rx) || (dir.tx && caps[k].dir.tx)) ::
                || (dir.rx && o.mpi[format].n < caps[k].mpi)
                || exists j :: 0 <= j < k && caps[j].kind == H263 && caps[j].picFormat == format
                               && ((dir.rx && caps[j].dir.rx) || (dir.tx && caps[j].dir.tx))
  {
    var x := 0;
    while x < |caps| && !TakesVideo(caps[x], format, dir)
      invariant x <= |caps| && forall k | 0 <= k < x :: !TakesVideo(caps[k], format, dir)
    {
      x := x + 1;
    }
    i := x;
    c := null;
    if x == |caps| { return; }
    var cur, mpi := caps[x], o.mpi[format].n;
    if dir.rx {
      if mpi < cur.mpi { return; }
      c := Copied(cur, cur.txframes, cur.mpi);
      return;
    }
    if dir.tx {
      c := Copied(cur, cur.txframes, if cur.mpi < mpi then mpi else cur.mpi);
    }
  }

  // ---------- the compatibility check ----------

  /** The first format offered. */
  function FirstFormat(mpi: seq<Interval>): (f: nat)
    ensures f <= |mpi| && (f < |mpi| ==> mpi[f].Every?) && forall k | 0 <= k < f :: mpi[k].Absent?
  {
    if mpi == [] then 0 else if mpi[0].Every? then 0 else 1 + FirstFormat(mpi[1..])
  }

  /** Whether a capability suits an offer. The half-rate and enhanced GSM offers are not known to the
      check at all, and of a video offer it looks at the first format only. A GSM capability is cut
      down here when it is to transmit more than is taken. */
  method CheckCompatibility(c: Cap, o: Offer, dir: Dir) returns (r: bool)
    requires Proper(o)
    modifies c`txframes
    ensures o.Simple? ==>
              (r <==> c.kind == o.kind && ((dir.rx && o.frames <= c.rxframes) || (dir.tx && c.txframes <= o.frames)))
    ensures o.Gsm? ==> (r <==> o.kind == GsmFull && (dir.tx || (dir.rx && o.unitSize < 33 * (c.rxframes + 1))))
    ensures o.Video? ==>
              (r <==> exists f | 0 <= f < 5 ::
                        && o.mpi[f].Every? && (forall k | 0 <= k < f :: o.mpi[k].Absent?) && c.picFormat == f
                        && (if dir.rx then c.mpi <= o.mpi[f].n else dir.tx && o.mpi[f].n <= c.mpi))
    ensures if r && o.Gsm? && !(dir.rx && o.unitSize < 33 * (c.rxframes + 1)) then
              && c.txframes <= old(c.txframes) && 33 * c.txframes <= o.unitSize
              && (c.txframes == old(c.txframes) || o.unitSize < 33 * (c.txframes + 1))
            else c.txframes == old(c.txframes)
  {
    match o
    case Simple(k, f) =>
      if k != c.kind { return false; }
      if dir.rx && c.rxframes >= f { return true; }
      if dir.tx && c.txframes <= f { return true; }
      return false;
    case Gsm(k, u) =>
      if k != GsmFull { return false; }
      var noofframes := u / GSM_FRAME_SIZE;
      if dir.rx && c.rxframes >= noofframes { return true; }
      if dir.tx {
        if c.txframes > noofframes { c.txframes := noofframes; }
        return true;
      }
      return false;
    case Video(m) =>
      var f := 0;
      while f < FORMATS
        invariant f <= FORMATS && forall k | 0 <= k < f :: m[k].Absent?
      {
        if m[f].Every? {
          SameFormat(m, f);
          if c.picFormat != f { return false; }
          if dir.rx { return m[f].n >= c.mpi; }
          if dir.tx { return m[f].n <= c.mpi; }
          return false;
        }
        f := f + 1;
      }
      SameFormat(m, FORMATS);
      return false;
  }

  lemma SameFormat(m: seq<Interval>, f: nat)
    requires f <= |m| && (f < |m| ==> m[f].Every?) && forall k | 0 <= k < f :: m[k].Absent?
    ensures FirstFormat(m) == f
  {
    var g := FirstFormat(m);
    assert !(g < f) && !(f < g);
  }

  // ---------- what selection promises ----------

  /** Select, then check the same offer: an audio capability passes if and only if the offer is not
      one of the GSM kinds that the check does not know, and the check leaves it as selected. */
  method SelectThenCheckAudio(caps: seq<Cap>, o: Offer, dir: Dir) returns (c: Cap?, ok: bool)
    requires Proper(o) && !o.Video?
    ensures c != null <==> old(SuitsAudio(caps, o, dir))
    ensures c != null ==> fresh(c) && (ok <==> o.Simple? || o.kind == GsmFull)
    ensures c != null && !dir.rx ==> exists m :: m in caps && m.kind == o.kind && CopyOf(c, m, Min(m.txframes, FramesOf(o)), m.mpi)
  {
    ghost var i;
    c, i := SelectAudio(caps, o, dir);
    ok := false;
    if c != null {
      ghost var t := c.txframes;
      ok := CheckCompatibility(c, o, dir);
      assert c.txframes == t || dir.rx;
      assert !dir.rx ==> caps[i] in caps && CopyOf(c, caps[i], Min(caps[i].txframes, FramesOf(o)), caps[i].mpi);
    }
  }

  /** A selected H.263 capability passes if and only if its format is the first one offered. */
  method SelectThenCheckH263(caps: seq<Cap>, o: Offer, dir: Dir, format: nat) returns (c: Cap?, ok: bool)
    requires Proper(o) && o.Video? && format < FORMATS && o.mpi[format].Every?
    ensures c != null <==> old(SuitsH263(caps, o, dir, format))
    ensures c != null ==> fresh(c) && (ok <==> format == FirstFormat(o.mpi))
    ensures c != null && !dir.rx ==>
              exists m :: m in caps && m.kind == H263 && CopyOf(c, m, m.txframes, Max(m.mpi, o.mpi[format].n))
  {
    ghost var i;
    c, i := SelectH263(caps, o, dir, format);
    ok := false;
    if c != null {
      ok := CheckCompatibility(c, o, dir);
      assert !dir.rx ==> caps[i] in caps && CopyOf(c, caps[i], caps[i].txframes, Max(caps[i].mpi, o.mpi[format].n));
    }
  }

  // ---------- the joint list ----------

  class Call {
    const ourCaps: seq<Cap>
    var jointCaps: seq<Cap>
    /** For each joint capability, which offer (counted from the first) and which format it answers. */
    ghost var source: seq<(nat, nat)>
    ghost var offers: nat

    ghost predicate Valid()
      reads this
    {
      && |source| == |jointCaps|
      && (forall i | 0 <= i < |source| :: source[i].0 < offers)
      && (forall i, j | 0 <= i < j < |source| :: Earlier(source[i], source[j]))
    }

    constructor (ourCaps: seq<Cap>)
      ensures Valid() && this.ourCaps == ourCaps && jointCaps == [] && offers == 0
    {
      this.ourCaps, jointCaps, source, offers := ourCaps, [], [], 0;
    }

    /** The remote end's next offer: what suits of it goes to the end of the list. */
    method UpdateJointCapabilities(o: Offer, dir: Dir)
      requires Valid() && Proper(o)
      modifies this
      ensures Valid() && offers == old(offers) + 1 && old(jointCaps) <= jointCaps && old(source) <= source
      ensures forall i | |old(jointCaps)| <= i < |jointCaps| :: fresh(jointCaps[i]) && source[i].0 == old(offers)
      ensures forall i | |old(jointCaps)| <= i < |jointCaps| && o.Video? :: jointCaps[i].kind == H263 && jointCaps[i].picFormat == source[i].1
      ensures forall i | |old(jointCaps)| <= i < |jointCaps| && !o.Video? :: jointCaps[i].kind == o.kind
      ensures forall i | |old(jointCaps)| <= i < |jointCaps| :: WorksIn(jointCaps[i], dir)
      ensures !o.Video? ==> |jointCaps| == |old(jointCaps)| + (if old(SuitsAudio(ourCaps, o, dir)) then 1 else 0)
      ensures forall f: nat :: (old(offers), f) in source <==> old(Wanted(ourCaps, o, dir, f))
    {
      hide SuitsAudio, SuitsH263;
      offers := offers + 1;
      if !o.Video? {
        AddAudio(o, dir);
        forall f: nat ensures (old(offers), f) in source <==> old(Wanted(ourCaps, o, dir, f)) { WantedAudio(ourCaps, o, dir, f); }
        return;
      }
      AddFormats(o, dir, old(offers));
    }

    /** The loop over the picture formats of a video offer. */
    method AddFormats(o: Offer, dir: Dir, ghost m: nat)
      requires Valid() && o.Video? && Proper(o) && offers == m + 1 && forall k | 0 <= k < |source| :: source[k].0 < m
      modifies this`jointCaps, this`source
      ensures Valid() && old(jointCaps) <= jointCaps && old(source) <= source
      ensures forall i | |old(jointCaps)| <= i < |jointCaps| ::
                && fresh(jointCaps[i]) && source[i].0 == m && jointCaps[i].kind == H263 && jointCaps[i].picFormat == source[i].1
                && WorksIn(jointCaps[i], dir)
      ensures forall f: nat :: (m, f) in source <==> old(Wanted(ourCaps, o, dir, f))
    {
      hide SuitsH263;
      for f := 0 to FORMATS
        invariant Valid() && old(jointCaps) <= jointCaps && old(source) <= source
        invariant forall k | |old(source)| <= k < |source| ::
                    && source[k].0 == m && source[k].1 < f && fresh(jointCaps[k])
                    && jointCaps[k].kind == H263 && jointCaps[k].picFormat == source[k].1
                    && WorksIn(jointCaps[k], dir)
        invariant forall k | 0 <= k < |old(source)| :: source[k].0 < m
        invariant forall g: nat | g < f :: (m, g) in source <==> old(SuitsH263(ourCaps, o, dir, g))
      {
        ghost var before := source;
        AddFormat(o, dir, f);
        assert forall k | 0 <= k < |before| :: source[k] == before[k];
        assert forall g: nat | g < f :: (m, g) in source <==> (m, g) in before;
      }
    }

    lemma WantedAudio(caps: seq<Cap>, o: Offer, dir: Dir, f: nat)
      requires !o.Video?
      ensures Wanted(caps, o, dir, f) <==> f == 0 && SuitsAudio(caps, o, dir)
    {
      hide SuitsAudio;
    }

    method AddAudio(o: Offer, dir: Dir)
      requires Valid() && Proper(o) && !o.Video? && offers > 0 && forall k | 0 <= k < |source| :: source[k].0 < offers - 1
      modifies this`jointCaps, this`source
      ensures Valid()
      ensures if SuitsAudio(ourCaps, o, dir) then
                && |jointCaps| == |old(jointCaps)| + 1 && jointCaps[..|old(jointCaps)|] == old(jointCaps)
                && fresh(jointCaps[|old(jointCaps)|]) && jointCaps[|old(jointCaps)|].kind == o.kind
                && WorksIn(jointCaps[|old(jointCaps)|], dir)
                && source == old(source) + [(offers - 1, 0)]
              else jointCaps == old(jointCaps) && source == old(source)
    {
      hide SuitsAudio;
      var c;
      ghost var i;
      c, i := SelectAudio(ourCaps, o, dir);
      if c != null { jointCaps, source := jointCaps + [c], source + [(offers - 1, 0)]; }
    }

    method AddFormat(o: Offer, dir: Dir, f: nat)
      requires Valid() && Proper(o) && o.Video? && f < FORMATS && offers > 0 && forall k | 0 <= k < |source| :: Earlier(source[k], (offers - 1, f))
      modifies this`jointCaps, this`source
      ensures Valid()
      ensures if SuitsH263(ourCaps, o, dir, f) then
                && |jointCaps| == |old(jointCaps)| + 1 && jointCaps[..|old(jointCaps)|] == old(jointCaps)
                && fresh(jointCaps[|old(jointCaps)|]) && jointCaps[|old(jointCaps)|].kind == H263 && jointCaps[|old(jointCaps)|].picFormat == f
                && WorksIn(jointCaps[|old(jointCaps)|], dir)
                && source == old(source) + [(offers - 1, f)]
              else jointCaps == old(jointCaps) && source == old(source)
    {
      if o.mpi[f].Absent? { return; }
      var c;
      ghost var i;
      c, i := SelectH263(ourCaps, o, dir, f);
      hide SuitsH263;
      if c != null { jointCaps, source := jointCaps + [c], source + [(offers - 1, f)]; }
    }

    /** All the remote end's offers in turn: the joint list has them in the remote end's order, the
        formats of one offer in the order of the formats. */
    method UpdateAll(os: seq<Offer>, dirs: seq<Dir>)
      requires Valid() && |os| == |dirs| && jointCaps == [] && offers == 0 && forall o | o in os :: Proper(o)
      modifies this
      ensures Valid() && offers == |os| && |source| == |jointCaps|
      ensures forall i, j | 0 <= i < j < |source| ::
                source[i].0 < source[j].0 || (source[i].0 == source[j].0 && source[i].1 < source[j].1)
      ensures forall i | 0 <= i < |jointCaps| ::
                && source[i].0 < |os|
                && if os[source[i].0].Video? then jointCaps[i].kind == H263 && jointCaps[i].picFormat == source[i].1
                   else jointCaps[i].kind == os[source[i].0].kind
      ensures forall i | 0 <= i < |jointCaps| ::
                var d := dirs[source[i].0]; (d.rx && jointCaps[i].dir.rx) || (d.tx && jointCaps[i].dir.tx)
      ensures forall k, f: nat | 0 <= k < |os| :: (k, f) in source <==> old(Wanted(ourCaps, os[k], dirs[k], f))
    {
      hide Wanted;
      for k := 0 to |os|
        invariant Valid() && offers == k
        invariant forall i | 0 <= i < |jointCaps| :: fresh(jointCaps[i]) && source[i].0 < k && Answers(jointCaps[i], os[source[i].0], source[i].1)
        invariant forall i | 0 <= i < |jointCaps| :: WorksIn(jointCaps[i], dirs[source[i].0])
        invariant forall g, f: nat | 0 <= g < k :: (g, f) in source <==> old(Wanted(ourCaps, os[g], dirs[g], f))
      {
        ghost var before := source;
        UpdateJointCapabilities(os[k], dirs[k]);
        forall g, f: nat | 0 <= g < k ensures (g, f) in source <==> (g, f) in before { OnlyLater(before, source, g, f); }
      }
    }

    /** Offers after offer g add nothing that answers it. */
    lemma OnlyLater(before: seq<(nat, nat)>, after: seq<(nat, nat)>, g: nat, f: nat)
      requires before <= after && forall i | |before| <= i < |after| :: after[i].0 > g
      ensures (g, f) in after <==> (g, f) in before
    {
      if (g, f) in before {
        var i :| 0 <= i < |before| && before[i] == (g, f);
        assert after[i] == (g, f);
      }
    }
  }

  predicate Earlier(a: (nat, nat), b: (nat, nat)) { a.0 < b.0 || (a.0 == b.0 && a.1 < b.1) }

  /** The capability works in one of the directions. */
  predicate WorksIn(c: Cap, d: Dir) {
    (d.rx && c.dir.rx) || (d.tx && c.dir.tx)
  }

  /** The capability is of the kind the offer asks for, and of the format. */
  predicate Answers(c: Cap, o: Offer, format: nat)
    reads c
  {
    if o.Video? then c.kind == H263 && c.picFormat == format else c.kind == o.kind
  }

  // ---------- offers that selection and check see differently ----------

  /** Half-rate GSM is selected but not compatible. */
  method HalfRateFails() returns (c: Cap?, ok: bool)
    ensures c != null && !ok
  {
    var m := new Cap(GsmHalf, Dir(true, true), 4, 4, 0, 0);
    assert FirstOf([m], 0, GsmHalf, Dir(true, false));
    c, ok := SelectThenCheckAudio([m], Gsm(GsmHalf, 66), Dir(true, false));
  }

  /** A QCIF capability is selected from an offer of SQCIF and QCIF, but not compatible with it. */
  method SecondFormatFails() returns (c: Cap?, ok: bool)
    ensures c != null && !ok
  {
    var m := new Cap(H263, Dir(true, true), 0, 0, 1, 2);
    var o := Video([Every(1), Every(3), Absent, Absent, Absent]);
    assert FirstVideo([m], 0, 1, Dir(true, false));
    c, ok := SelectThenCheckH263([m], o, Dir(true, false), 1);
  }
}
