/** What the RAS client's bookkeeping keeps over whole runs. */
module GkTheorems {
  import opened DList
  import opened GkClient

  /** While fewer than 65535 requests separate the oldest and the newest of the pending records, a
      reply's number is that of at most one of them. */
  lemma UniqueReply(c: Client, i: nat, j: nat)
    requires c.Valid() && i < j < |c.pending|
    requires forall a, b | a in c.pending && b in c.pending :: a.stamp < b.stamp + 65535
    ensures c.pending[i].seqNum != c.pending[j].seqNum && c.pending[i].seqNum != 0
  {
    hide RecordsOk, TimingOk, Number;
    var (a, b) := (c.pending[i], c.pending[j]);
    assert a in c.pending && b in c.pending && a.stamp != b.stamp;
    if a.stamp < b.stamp { NumbersRepeat(a.stamp, b.stamp); } else { NumbersRepeat(b.stamp, a.stamp); }
  }

  /** Any 65535 requests in a row have different numbers; the next one takes the first one's again. */
  lemma NumbersInARow(i: nat, j: nat)
    requires i < j <= i + 65535
    ensures Number(i) == Number(j) <==> j == i + 65535
  {
    hide Number;
    NumbersRepeat(i, j);
  }

  /** A call rejected while its request's timer runs: the timer is left without a record. */
  method RejectedWhileWaiting(c: Client, callRef: int, at: nat) returns (ghost a: Adm)
    requires c.Valid() && c.NoStale() && at <= |c.timers|
    requires forall b | b in c.pending || b in c.admitted :: b.callRef != callRef
    requires forall b | b in c.pending :: b.seqNum != Number(c.issued)
    modifies c
    ensures c.Valid() && !c.NoStale() && a in c.released && HasTimer(c.timers, a)
  {
    hide RecordsOk, TimingOk, Number, NoStaleIn;
    ghost var (p0, t0) := (c.pending, c.timers);
    var ok;
    ok, a := c.SendAdmissionRequest(callRef, at, true);
    NewIsLive(t0, p0, at, Timer(c.nextTimer - 1, ARQ, a));
    assert HasTimer(c.timers, a) by { assert c.timers[at].adm == a; }
    var n := c.pending[|c.pending| - 1].seqNum;
    assert forall k | 0 <= k < |p0| :: p0[k] in p0 && c.pending[k] == p0[k];
    ghost var x := c.HandleAdmissionReject(n);
  }

  lemma NewIsLive(t: seq<Timer>, p: seq<Adm>, at: nat, x: Timer)
    requires NoStaleIn(t, p) && at <= |t| && x.kind == ARQ && x.adm != null
    ensures NoStaleIn(Insert(t, at, x), p + [x.adm])
  {}

  /** The least of such runs: one request, one rejection. */
  method OneRejection() returns (c: Client)
    ensures c.Valid() && !c.NoStale()
  {
    c := new Client();
    ghost var a := RejectedWhileWaiting(c, 1, 0);
  }

  /** Against a silent gatekeeper timers fire one after another until none is left. Each one that
      fires uses up some of the measure; no request goes out more than once and its retries (a
      keep-alive timer starts one registration more); whatever waits for an answer is asked for again
      as often as its limit allows; and at the end the gatekeeper is given up. */
  method Silence(c: Client, places: seq<nat>) returns (fired: nat, discoveries: nat, registrations: nat)
    requires c.Valid() && c.NoStale() && c.timers != [] && |places| >= c.Measure()
    modifies c, c.pending
    ensures c.Valid() && c.timers == [] && c.state == GkErr
    ensures c.pending == old(c.pending) && c.admitted == old(c.admitted)
    ensures 0 < fired <= old(c.Measure()) <= 3 * |c.pending| + 6 + 2 * |old(c.timers)|
    ensures forall a <- c.pending :: a.sends <= 4
    ensures discoveries == c.grqRetries - old(c.grqRetries) && old(c.grqRetries) + discoveries <= 3
    ensures old(c.rrqRetries) + registrations <= 3 + old(KeepAlives(c.timers))
    ensures forall t | t in old(c.timers) ::
              && (t.kind == GRQ ==> c.grqRetries == 3) && (t.kind == RRQ || t.kind == REG ==> c.rrqRetries == 3)
              && (t.kind == ARQ ==> t.adm != null && t.adm.retries == 3)
  {
    hide RecordsOk, TimingOk, NoStaleIn, Number, Left, Weights, Restarted, AllAsked, Fires, RetriesIn, Client.Numbers, Client.Timing, Client.Records;
    MeasureBelow(c);
    AskedAtFirst(c);
    fired, discoveries, registrations := 0, 0, 0;
    while c.timers != []
      invariant c.Valid() && c.NoStale() && c.pending == old(c.pending) && c.admitted == old(c.admitted)
      invariant fired + c.Measure() <= old(c.Measure())
      invariant c.timers == [] ==> c.state == GkErr && fired > 0
      invariant discoveries == c.grqRetries - old(c.grqRetries)
      invariant registrations + KeepAlives(c.timers) == c.rrqRetries - old(c.rrqRetries) + old(KeepAlives(c.timers))
      invariant AllAsked(old(c.timers), c.grqRetries, c.rrqRetries, RetriesIn(c), c.timers)
      decreases c.Measure()
    {
      SomeLeft(c);
      var at, kind := places[fired], c.timers[0].kind;
      ghost var (t0, grq, rrq, rs) := (c.timers, c.grqRetries, c.rrqRetries, RetriesIn(c));
      var ok := FireOnce(c, if at <= |c.timers| then at else |c.timers|);
      AskedStill(old(c.timers), t0, grq, rrq, rs, c.timers, c.grqRetries, c.rrqRetries, RetriesIn(c));
      fired := fired + 1;
      if ok && kind == GRQ { discoveries := discoveries + 1; }
      if ok && (kind == RRQ || kind == REG) { registrations := registrations + 1; }
    }
    assert KeepAlives([]) == 0;
    NothingWaits(c, old(c.timers));
  }

  method FireOnce(c: Client, at: nat) returns (ok: bool)
    requires c.Valid() && c.NoStale() && c.timers != [] && at <= |c.timers|
    modifies c, c.pending
    ensures c.Valid() && c.NoStale() && c.pending == old(c.pending) && c.admitted == old(c.admitted)
    ensures c.Measure() < old(c.Measure()) && (c.timers == [] ==> c.state == GkErr)
    ensures Fires(old(c.timers), old(c.grqRetries), old(c.rrqRetries), old(RetriesIn(c)), c.timers, c.grqRetries, c.rrqRetries, RetriesIn(c))
    ensures c.grqRetries == old(c.grqRetries) + (if ok && old(c.timers)[0].kind == GRQ then 1 else 0)
    ensures c.rrqRetries == old(c.rrqRetries) + (if ok && old(c.timers)[0].kind == RRQ then 1 else 0)
    ensures KeepAlives(c.timers) == old(KeepAlives(c.timers)) - (if old(c.timers)[0].kind == REG then 1 else 0)
    ensures (old(c.timers)[0].kind == REG ==> ok) && forall a | a in RetriesIn(c) :: RetriesIn(c)[a] <= MAX_RETRIES
  {
    hide RecordsOk, TimingOk, NoStaleIn, Number, Left, Weights, Restarted, KeepAlives, Client.Numbers, Client.Timing, Client.Records, Client.Measure, Delete;
    if c.timers[0].kind == ARQ { HeadPending(c.timers, c.pending); }
    KeepAlivesAfter(c.timers, at, c.nextTimer);
    ok := c.FireHead(at, true);
  }

  lemma MeasureBelow(c: Client)
    requires c.Bounded()
    ensures c.Measure() <= 3 * |c.pending| + 6 + 2 * |c.timers|
  {
    LeftBelow(Used(c.pending));
    WeightsBelow(c.timers);
  }

  lemma {:induction false} LeftBelow(used: seq<nat>)
    ensures Left(used) <= 3 * |used|
  {
    if used != [] { LeftBelow(used[..|used| - 1]); }
  }

  lemma {:induction false} WeightsBelow(s: seq<Timer>)
    ensures Weights(s) <= 2 * |s|
  {
    if s != [] { WeightsBelow(s[..|s| - 1]); }
  }

  lemma NothingWaits(c: Client, ts: seq<Timer>)
    requires AllAsked(ts, c.grqRetries, c.rrqRetries, RetriesIn(c), [])
    ensures forall t | t in ts ::
              && (t.kind == GRQ ==> c.grqRetries == 3) && (t.kind == RRQ || t.kind == REG ==> c.rrqRetries == 3)
              && (t.kind == ARQ ==> t.adm != null && t.adm.retries == 3)
  {
    assert forall t | t in ts :: Asked(t, c.grqRetries, c.rrqRetries, RetriesIn(c), []);
  }

  /** The retries of the pending records. */
  ghost function RetriesIn(c: Client): (m: map<Adm, nat>)
    reads c, c.pending
  {
    map a | a in c.pending :: a.retries
  }

  /** What stands for a request that a timer of the kind waits for. */
  ghost predicate Waits(timers: seq<Timer>, kind: Kind, adm: Adm?) {
    exists t | t in timers :: if kind == RRQ then t.kind == RRQ || t.kind == REG else t.kind == kind && (kind == ARQ ==> t.adm == adm)
  }

  /** The request that t is the timer for has been sent as often as it may be, or still has a timer. */
  ghost predicate Asked(t: Timer, grq: nat, rrq: nat, rs: map<Adm, nat>, timers: seq<Timer>) {
    match t.kind
    case GRQ => grq == MAX_RETRIES || Waits(timers, GRQ, null)
    case RRQ => rrq == MAX_RETRIES || Waits(timers, RRQ, null)
    case REG => rrq == MAX_RETRIES || Waits(timers, RRQ, null)
    case ARQ => t.adm != null && t.adm in rs && (rs[t.adm] == MAX_RETRIES || Waits(timers, ARQ, t.adm))
  }

  ghost predicate AllAsked(ts: seq<Timer>, grq: nat, rrq: nat, rs: map<Adm, nat>, timers: seq<Timer>) {
    forall t | t in ts :: Asked(t, grq, rrq, rs, timers)
  }

  lemma AskedAtFirst(c: Client)
    requires c.NoStale()
    ensures AllAsked(c.timers, c.grqRetries, c.rrqRetries, RetriesIn(c), c.timers)
  {
    forall t | t in c.timers ensures Asked(t, c.grqRetries, c.rrqRetries, RetriesIn(c), c.timers) {
      assert t.kind == ARQ ==> t.adm in c.pending;
    }
  }

  /** What one expiry does to a list of timers and the retries. */
  ghost predicate Fires(t0: seq<Timer>, grq: nat, rrq: nat, rs: map<Adm, nat>, t1: seq<Timer>, grq1: nat, rrq1: nat, rs1: map<Adm, nat>) {
    && t0 != [] && rs1.Keys == rs.Keys
    && var t := t0[0];
       (t.kind == ARQ ==> t.adm != null && t.adm in rs)
       && var used := match t.kind case GRQ => grq case RRQ => rrq case REG => 0 case ARQ => rs[t.adm];
          var ok := used < MAX_RETRIES;
          && used <= MAX_RETRIES
          && (forall x | x in t0[1..] :: x in t1)
          && (ok ==> exists x | x in t1 :: x.kind == (if t.kind == REG then RRQ else t.kind) && (t.kind == ARQ ==> x.adm == t.adm))
          && grq1 == grq + (if ok && t.kind == GRQ then 1 else 0)
          && rrq1 == rrq + (if ok && t.kind == RRQ then 1 else 0)
          && forall a | a in rs :: rs1[a] == rs[a] + (if ok && t.kind == ARQ && t.adm == a then 1 else 0)
  }

  lemma AskedStill(ts: seq<Timer>, t0: seq<Timer>, grq: nat, rrq: nat, rs: map<Adm, nat>, t1: seq<Timer>, grq1: nat, rrq1: nat, rs1: map<Adm, nat>)
    requires AllAsked(ts, grq, rrq, rs, t0) && Fires(t0, grq, rrq, rs, t1, grq1, rrq1, rs1)
    requires grq1 <= MAX_RETRIES && rrq1 <= MAX_RETRIES && forall a | a in rs1 :: rs1[a] <= MAX_RETRIES
    ensures AllAsked(ts, grq1, rrq1, rs1, t1)
  {
    assert t0 == [t0[0]] + t0[1..];
    forall t | t in ts ensures Asked(t, grq1, rrq1, rs1, t1) {
      assert Asked(t, grq, rrq, rs, t0);
    }
  }

  /** How many keep-alive timers there are. */
  function KeepAlives(t: seq<Timer>): (n: nat)
    ensures n == Weights(t) - |t|
  {
    if t == [] then 0 else KeepAlives(t[..|t| - 1]) + (if t[|t| - 1].kind == REG then 1 else 0)
  }

  lemma KeepAlivesAfter(t: seq<Timer>, at: nat, id: nat)
    requires 0 < |t| && at <= |t|
    ensures KeepAlives(Delete(t, 0)) == KeepAlives(t) - (if t[0].kind == REG then 1 else 0) == KeepAlives(Restarted(t, at, id, t[0]))
  {
    hide KeepAlives, Weights;
    WeightsDelete(t, 0);
    var x := Timer(id, if t[0].kind == REG then RRQ else t[0].kind, if t[0].kind == ARQ then t[0].adm else null);
    WeightsInsert(Delete(t, 0), if at == 0 then 0 else at - 1, x);
  }

  lemma SomeLeft(c: Client)
    requires c.Bounded() && c.timers != []
    ensures c.Measure() > 0
  {
    hide Left;
  }

  datatype Event =
    | Call(callRef: int, at: nat, delivered: bool)
    | Confirm(seqNum: U16, ipv4: bool)
    | Reject(seqNum: U16)
    | Hangup(callRef: int, delivered: bool)
    | Clean(callRef: int)
    | Tick(at: nat, delivered: bool)

  // ---------- what a run has seen ----------

  /** A pending record as it was at some moment. */
  datatype Rec = Rec(adm: Adm, seqNum: U16, retries: nat)

  /** The client at some moment. */
  datatype Shot = Shot(
    pending: seq<Rec>, admitted: seq<Adm>, released: set<Adm>, created: set<Adm>,
    timers: seq<Timer>, nextTimer: nat, issued: nat, state: State, grqRetries: nat, rrqRetries: nat)

  ghost function Recs(p: seq<Adm>): (r: seq<Rec>)
    reads p
    ensures |r| == |p| && forall k | 0 <= k < |p| :: r[k] == Rec(p[k], p[k].seqNum, p[k].retries)
  {
    seq(|p|, k requires 0 <= k < |p| reads p => Rec(p[k], p[k].seqNum, p[k].retries))
  }

  ghost function Now(c: Client): Shot
    reads c, c.pending
  {
    Shot(Recs(c.pending), c.admitted, c.released, c.created, c.timers, c.nextTimer, c.issued, c.state, c.grqRetries, c.rrqRetries)
  }

  function Adms(p: seq<Rec>): (s: seq<Adm>)
    ensures |s| == |p| && forall k | 0 <= k < |p| :: s[k] == p[k].adm
  {
    seq(|p|, k requires 0 <= k < |p| => p[k].adm)
  }

  /** Each record ever made is pending, admitted or released, and just one of these. */
  ghost predicate Sorted(s: Shot) {
    var (p, q) := (set r <- s.pending :: r.adm, set a <- s.admitted);
    s.created == p + q + s.released && p !! q !! s.released
  }

  /** The first pending record with the request number is at x. */
  ghost predicate NumberAt(p: seq<Rec>, seqNum: U16, x: nat) {
    x <= |p| && (x < |p| ==> p[x].seqNum == seqNum) && forall k | 0 <= k < x :: p[k].seqNum != seqNum
  }

  /** No record is live for the call. */
  ghost predicate Free(s: Shot, callRef: int) {
    FirstFor(Adms(s.pending), callRef, |s.pending|) && FirstFor(s.admitted, callRef, |s.admitted|)
  }

  /** Cleaning up the call looks at no freed record. */
  ghost predicate MayClean(s: Shot, callRef: int) {
    || (exists a :: a in s.admitted && a.callRef == callRef)
    || forall i | 0 <= i < |s.timers| && s.timers[i].kind == ARQ && (forall k | 0 <= k < i :: !IsFor(s.timers[k], callRef)) ::
         s.timers[i].adm in Adms(s.pending)
  }

  /** The first timer, if it is for an admission request, is for a record that is still pending. */
  ghost predicate MayTick(s: Shot) {
    s.timers != [] && (s.timers[0].kind == ARQ ==> s.timers[0].adm in Adms(s.pending))
  }

  function Within(at: nat, s: Shot): nat {
    if at <= |s.timers| then at else |s.timers|
  }

  ghost function Called(s: Shot, a: Adm, at: nat, delivered: bool): Shot {
    s.(pending := s.pending + [Rec(a, Number(s.issued), 0)], created := s.created + {a}, issued := s.issued + 1,
       timers := if delivered then Insert(s.timers, Within(at, s), Timer(s.nextTimer, ARQ, a)) else s.timers,
       nextTimer := s.nextTimer + (if delivered then 1 else 0),
       state := if delivered then s.state else Failed)
  }

  ghost function Admitted(s: Shot, x: nat): Shot {
    if x >= |s.pending| then s
    else s.(pending := Delete(s.pending, x), admitted := s.admitted + [s.pending[x].adm],
            timers := WithoutTimer(s.timers, s.pending[x].adm))
  }

  ghost function PendingGone(s: Shot, x: nat): Shot {
    if x >= |s.pending| then s
    else s.(pending := Delete(s.pending, x), released := s.released + {s.pending[x].adm})
  }

  ghost function AdmittedGone(s: Shot, x: nat): Shot {
    if x >= |s.admitted| then s
    else s.(admitted := Delete(s.admitted, x), released := s.released + {s.admitted[x]})
  }

  ghost function TimerGone(s: Shot, y: nat): Shot {
    if y >= |s.timers| then s else s.(timers := Delete(s.timers, y))
  }

  /** The first timer has run out; x is the place of its record if it is for an admission request. */
  ghost function Fired(s: Shot, x: nat, at: nat, delivered: bool): Shot
    requires s.timers != [] && (s.timers[0].kind == ARQ ==> x < |s.pending|)
  {
    var t := s.timers[0];
    var used := match t.kind case GRQ => s.grqRetries case RRQ => s.rrqRetries case REG => 0 case ARQ => s.pending[x].retries;
    var ok := used < MAX_RETRIES && delivered;
    s.(pending := if t.kind == ARQ && used < MAX_RETRIES then s.pending[x := Rec(s.pending[x].adm, Number(s.issued), used + if ok then 1 else 0)] else s.pending,
       timers := if ok then Restarted(s.timers, Within(at, s), s.nextTimer, t) else Delete(s.timers, 0),
       nextTimer := s.nextTimer + (if ok then 1 else 0),
       issued := s.issued + (if used < MAX_RETRIES then 1 else 0),
       state := if used >= MAX_RETRIES then GkErr else if delivered then s.state else Failed,
       grqRetries := s.grqRetries + (if ok && t.kind == GRQ then 1 else 0),
       rrqRetries := s.rrqRetries + (if ok && t.kind == RRQ then 1 else 0))
  }

  /** A call was cleaned up: its admitted record is at x, its timer at y, its pending record at z. */
  ghost predicate Cleaned(s: Shot, callRef: int, t: Shot, x: nat, y: nat, z: nat) {
    && FirstFor(s.admitted, callRef, x)
    && if x < |s.admitted| then t == AdmittedGone(s, x)
       else FirstTimerFor(s.timers, callRef, y) && FirstFor(Adms(s.pending), callRef, z) && t == PendingGone(TimerGone(s, y), z)
  }

  /** What an event brings about: which record moves, where to, and which timer goes.  A call in
      progress is not asked for again, a timer whose own record was freed does not fire, and a
      clean-up that would look at a freed record is not made. */
  ghost predicate Moves(e: Event, s: Shot, t: Shot) {
    match e
    case Call(r, at, delivered) =>
      if Free(s, r) then exists a | a in t.created :: a !in s.created && a.callRef == r && t == Called(s, a, at, delivered) else t == s
    case Confirm(n, ipv4) => exists x :: NumberAt(s.pending, n, x) && t == if ipv4 then Admitted(s, x) else s
    case Reject(n) => exists x :: NumberAt(s.pending, n, x) && t == PendingGone(s, x)
    case Hangup(r, delivered) =>
      exists x :: FirstFor(s.admitted, r, x)
        && t == AdmittedGone(s, x).(issued := s.issued + 1, state := if delivered then s.state else Failed)
    case Clean(r) =>
      if MayClean(s, r) then exists x, y, z :: Cleaned(s, r, t, x, y, z) else t == s
    case Tick(at, delivered) =>
      if !MayTick(s) then t == s
      else if s.timers[0].kind != ARQ then t == Fired(s, 0, at, delivered)
      else exists x: nat :: x < |s.pending| && s.pending[x].adm == s.timers[0].adm && t == Fired(s, x, at, delivered)
  }

  /** Over every run of requests, replies, disengages, clean-ups and expiring timers, each event does
      what its handler is for and no more; each record ever made is pending, admitted or released,
      and just one of these, at all times; and a released one stays released. */
  method Run(c: Client, events: seq<Event>) returns (ghost past: seq<Shot>)
    requires c.Valid()
    modifies c, c.pending
    ensures c.Valid() && |past| == |events| + 1 && past[0] == old(Now(c)) && past[|events|] == Now(c)
    ensures forall k | 0 <= k < |events| :: Moves(events[k], past[k], past[k + 1])
    ensures forall k | 0 <= k <= |events| :: Sorted(past[k])
    ensures forall i, k | 0 <= i <= k <= |events| :: past[i].released <= past[k].released && past[i].created <= past[k].created
  {
    hide RecordsOk, TimingOk, Number, Client.Numbers, Client.Bounded, Client.Timing, Moves, Sorted;
    past := [Now(c)];
    SortedNow(c);
    for k := 0 to |events|
      invariant c.Valid() && |past| == k + 1 && past[0] == old(Now(c)) && past[k] == Now(c)
      invariant forall j | 0 <= j < k :: Moves(events[j], past[j], past[j + 1])
      invariant forall j | 0 <= j <= k :: Sorted(past[j])
      invariant forall i, j | 0 <= i <= j <= k :: past[i].released <= past[j].released && past[i].created <= past[j].created
      invariant forall i | 0 <= i < |c.pending| :: c.pending[i] in old(c.pending) || fresh(c.pending[i])
    {
      ghost var before := c.pending;
      Step(c, events[k]);
      forall i | 0 <= i < |c.pending| ensures c.pending[i] in old(c.pending) || fresh(c.pending[i]) {
        if c.pending[i] in before {
          var m :| 0 <= m < |before| && before[m] == c.pending[i];
        }
      }
      SortedNow(c);
      past := past + [Now(c)];
    }
  }

  lemma SortedNow(c: Client)
    requires c.Valid()
    ensures Sorted(Now(c))
  {
    hide TimingOk, Client.Numbers, Client.Bounded;
    assert Adms(Recs(c.pending)) == c.pending;
  }

  /** One event of a run, if it may happen. */
  method Step(c: Client, e: Event)
    requires c.Valid()
    modifies c, c.pending
    ensures c.Valid() && old(c.created) <= c.created && old(c.released) <= c.released
    ensures forall a | a in c.pending :: a in old(c.pending) || fresh(a)
    ensures Moves(e, old(Now(c)), Now(c))
  {
    hide *;
    hide Moves;
    match e
    case Call(callRef, at, delivered) => StepCall(c, callRef, at, delivered);
    case Confirm(seqNum, ipv4) => StepConfirm(c, seqNum, ipv4);
    case Reject(seqNum) => StepReject(c, seqNum);
    case Hangup(callRef, delivered) => StepHangup(c, callRef, delivered);
    case Clean(callRef) => StepClean(c, callRef);
    case Tick(at, delivered) => StepTick(c, at, delivered);
  }

  method StepCall(c: Client, callRef: int, at: nat, delivered: bool)
    requires c.Valid()
    modifies c
    ensures c.Valid() && old(c.created) <= c.created && old(c.released) <= c.released
    ensures forall a | a in c.pending :: a in old(c.pending) || fresh(a)
    ensures Moves(Call(callRef, at, delivered), old(Now(c)), Now(c))
  {
    hide RecordsOk, TimingOk, Number, Insert, Client.Numbers, Client.Bounded;
    ghost var s := Now(c);
    var free := Unused(c, callRef);
    if free {
      IsUnused(c, callRef);
      var ok;
      ghost var a;
      ok, a := c.SendAdmissionRequest(callRef, if at <= |c.timers| then at else |c.timers|, delivered);
      assert Now(c) == Called(s, a, at, delivered);
    }
  }

  lemma IsUnused(c: Client, callRef: int)
    requires Free(Now(c), callRef)
    ensures forall b | b in c.pending || b in c.admitted :: b.callRef != callRef
  {
    assert Adms(Recs(c.pending)) == c.pending;
  }

  method StepConfirm(c: Client, seqNum: U16, ipv4: bool)
    requires c.Valid()
    modifies c`pending, c`admitted, c`timers
    ensures c.Valid() && old(c.created) <= c.created && old(c.released) <= c.released
    ensures forall a | a in c.pending :: a in old(c.pending)
    ensures Moves(Confirm(seqNum, ipv4), old(Now(c)), Now(c))
  {
    hide RecordsOk, TimingOk, Number, WithoutTimer, Client.Numbers, Client.Bounded, Client.Timing;
    ghost var s := Now(c);
    var ok;
    ghost var x, y;
    ok, x, y := c.HandleAdmissionConfirm(seqNum, ipv4);
    assert NumberAt(s.pending, seqNum, x);
    if x < |old(c.pending)| { Still(old(c.pending), x); }
    assert Now(c) == if ipv4 then Admitted(s, x) else s;
  }

  method StepReject(c: Client, seqNum: U16)
    requires c.Valid()
    modifies c`pending, c`released
    ensures c.Valid() && old(c.created) <= c.created && old(c.released) <= c.released
    ensures forall a | a in c.pending :: a in old(c.pending)
    ensures Moves(Reject(seqNum), old(Now(c)), Now(c))
  {
    hide RecordsOk, TimingOk, Number, Client.Numbers, Client.Bounded, Client.Timing;
    ghost var s := Now(c);
    ghost var x := c.HandleAdmissionReject(seqNum);
    assert NumberAt(s.pending, seqNum, x);
    if x < |old(c.pending)| { Still(old(c.pending), x); }
    assert Now(c) == PendingGone(s, x);
  }

  method StepHangup(c: Client, callRef: int, delivered: bool)
    requires c.Valid()
    modifies c`requestSeqNum, c`issued, c`state, c`admitted, c`released
    ensures c.Valid() && old(c.created) <= c.created && old(c.released) <= c.released
    ensures Moves(Hangup(callRef, delivered), old(Now(c)), Now(c))
  {
    hide RecordsOk, TimingOk, Number, Delete, Client.Numbers, Client.Bounded, Client.Timing;
    ghost var s := Now(c);
    var ok;
    ghost var x;
    ok, x := c.SendDisengageRequest(callRef, delivered);
    assert Now(c) == AdmittedGone(s, x).(issued := s.issued + 1, state := if delivered then s.state else Failed);
  }

  method StepClean(c: Client, callRef: int)
    requires c.Valid()
    modifies c`pending, c`admitted, c`released, c`timers
    ensures c.Valid() && old(c.created) <= c.created && old(c.released) <= c.released
    ensures forall a | a in c.pending :: a in old(c.pending)
    ensures Moves(Clean(callRef), old(Now(c)), Now(c))
  {
    hide RecordsOk, TimingOk, Number, Client.Numbers, Client.Bounded;
    ghost var s := Now(c);
    assert Adms(s.pending) == c.pending;
    var may := CanClean(c, callRef);
    if may {
      CleanNow(c, callRef);
    }
  }

  method CleanNow(c: Client, callRef: int)
    requires c.Valid() && (c.Readable(callRef) || exists a :: a in c.admitted && a.callRef == callRef)
    modifies c`pending, c`admitted, c`released, c`timers
    ensures c.Valid() && old(c.created) <= c.created && old(c.released) <= c.released
    ensures forall a | a in c.pending :: a in old(c.pending)
    ensures exists x, y, z :: Cleaned(old(Now(c)), callRef, Now(c), x, y, z)
  {
    hide RecordsOk, TimingOk, Number, Client.Numbers, Client.Bounded, Client.Readable;
    ghost var s := Now(c);
    assert Adms(s.pending) == c.pending;
    ghost var x, y, z := c.CleanCall(callRef);
    hide Client.Records, Client.Timing;
    if z < |old(c.pending)| { Still(old(c.pending), z); }
    assert Now(c) == if x < |s.admitted| then AdmittedGone(s, x) else PendingGone(TimerGone(s, y), z);
    assert Cleaned(s, callRef, Now(c), x, y, z);
  }

  method StepTick(c: Client, at: nat, delivered: bool)
    requires c.Valid()
    modifies c, c.pending
    ensures c.Valid() && old(c.created) <= c.created && old(c.released) <= c.released
    ensures c.pending == old(c.pending)
    ensures Moves(Tick(at, delivered), old(Now(c)), Now(c))
  {
    hide RecordsOk, TimingOk, Number, Client.Records, Client.Numbers, Client.Bounded, Client.Timing, Fired;
    ghost var s := Now(c);
    assert Adms(s.pending) == c.pending;
    var live := c.timers != [] && (c.timers[0].kind == ARQ ==> c.timers[0].adm in c.pending);
    if live {
      ghost var x := if c.timers[0].kind != ARQ then 0 else PlaceIn(c.pending, c.timers[0].adm);
      FireNow(c, x, at, delivered);
    }
  }

  method FireNow(c: Client, ghost x: nat, at: nat, delivered: bool)
    requires c.Valid() && c.timers != [] && (c.timers[0].kind == ARQ ==> x < |c.pending| && c.pending[x] == c.timers[0].adm)
    modifies c, c.pending
    ensures c.Valid() && c.pending == old(c.pending) && c.created == old(c.created) && c.released == old(c.released)
    ensures Now(c) == Fired(old(Now(c)), x, at, delivered)
  {
    hide RecordsOk, TimingOk, Number, Client.Numbers, Client.Bounded, Client.Timing, Client.Measure, Delete, Restarted;
    ghost var s := Now(c);
    c.NoDupPending();
    hide Client.Records;
    var ok := c.FireHead(if at <= |c.timers| then at else |c.timers|, delivered);
    FiredPending(s, Recs(c.pending), x, at, delivered);
  }

  /** Only the record of the timer that ran out has changed. */
  lemma FiredPending(s: Shot, p: seq<Rec>, x: nat, at: nat, delivered: bool)
    requires s.timers != [] && |p| == |s.pending| && (s.timers[0].kind == ARQ ==> x < |s.pending|)
    requires forall k | 0 <= k < |p| && !(s.timers[0].kind == ARQ && k == x) :: p[k] == s.pending[k]
    requires s.timers[0].kind == ARQ ==>
               var (a, used) := (s.pending[x].adm, s.pending[x].retries);
               p[x] == if used < MAX_RETRIES then Rec(a, Number(s.issued), used + if delivered then 1 else 0) else s.pending[x]
    ensures p == Fired(s, x, at, delivered).pending
  {
    hide Number, Restarted, Delete;
  }

  ghost function PlaceIn(p: seq<Adm>, a: Adm): (x: nat)
    requires a in p
    ensures x < |p| && p[x] == a
  {
    var x :| 0 <= x < |p| && p[x] == a;
    x
  }

  /** Whether no record is live for the call. */
  method Unused(c: Client, callRef: int) returns (r: bool)
    ensures r <==> Free(Now(c), callRef)
  {
    var x := c.FindCall(c.pending, callRef);
    var y := c.FindCall(c.admitted, callRef);
    r := x == |c.pending| && y == |c.admitted|;
    assert Adms(Recs(c.pending)) == c.pending;
  }

  /** Whether cleaning up the call looks at no freed record. */
  method CanClean(c: Client, callRef: int) returns (r: bool)
    requires c.Timing()
    ensures r <==> MayClean(Now(c), callRef)
  {
    assert Adms(Recs(c.pending)) == c.pending;
    var x := c.FindCall(c.admitted, callRef);
    if x < |c.admitted| {
      assert c.admitted[x] in c.admitted;
      return true;
    }
    for k := 0 to |c.timers|
      invariant forall i | 0 <= i < k :: !IsFor(c.timers[i], callRef) && (c.timers[i].kind == ARQ ==> c.timers[i].adm in c.pending)
    {
      if c.timers[k].kind == ARQ && c.timers[k].adm !in c.pending { return false; }
      if IsFor(c.timers[k], callRef) { return true; }
    }
    return true;
  }
}
