/** The RAS client's bookkeeping: calls waiting for admission, admitted calls, request numbers and
    timers. Sending is an event that the network may refuse; where a new timer goes in the list
    (which depends on the clock) is a parameter. */
module GkClient {
  import opened DList

  type U16 = x: int | 0 <= x < 65536

  const MAX_RETRIES: nat := 3

  datatype Kind = GRQ | RRQ | REG | ARQ
  datatype State = Idle | Discovered | Registered | Unregistered | GkErr | Failed

  /** A call's admission record. Its stamp is the place of its latest request among all requests
      numbered, and sends is how often a request went out for it. */
  class Adm {
    const callRef: int
    var retries: nat
    var seqNum: U16
    ghost var stamp: nat
    ghost var sends: nat

    constructor (callRef: int, seqNum: U16, ghost stamp: nat)
      ensures this.callRef == callRef && retries == 0 && this.seqNum == seqNum && this.stamp == stamp && sends == 0
    {
      this.callRef, retries, this.seqNum, this.stamp, sends := callRef, 0, seqNum, stamp, 0;
    }
  }

  datatype Timer = Timer(id: nat, kind: Kind, adm: Adm?)

  // ---------- request numbers ----------

  /** The numbers run from 1 to 65535 and start over. */
  function Number(k: nat): (n: U16)
    ensures n > 0
  {
    1 + k % 65535
  }

  /** No number is 0, and two are the same exactly when a multiple of 65535 requests lies between. */
  lemma NumbersRepeat(i: nat, j: nat)
    requires i <= j
    ensures Number(i) != 0 && (Number(i) == Number(j) <==> (j - i) % 65535 == 0)
  {
    var (a, b) := (i % 65535, j % 65535);
    var (p, q) := (i / 65535, j / 65535);
    assert j - i == (q - p) * 65535 + (b - a);
    if a <= b {
      assert (j - i) % 65535 == b - a;
    } else {
      assert j - i == (q - p - 1) * 65535 + (65535 + b - a);
      assert (j - i) % 65535 == 65535 + b - a;
    }
  }

  // ---------- lists of records ----------

  ghost predicate NoDups(s: seq<Adm>) {
    forall i, j | 0 <= i < j < |s| :: s[i] != s[j]
  }

  /** The retries left, of records that have used these many. */
  function Left(used: seq<nat>): nat {
    if used == [] then 0
    else Left(used[..|used| - 1]) + (if used[|used| - 1] < MAX_RETRIES then MAX_RETRIES - used[|used| - 1] else 0)
  }

  lemma {:induction false} LeftAfter(used: seq<nat>, i: nat)
    requires i < |used| && used[i] < MAX_RETRIES
    ensures Left(used[i := used[i] + 1]) == Left(used) - 1
  {
    var k := |used| - 1;
    var u := used[i := used[i] + 1];
    if i < k {
      assert u[..k] == used[..k][i := used[i] + 1];
      LeftAfter(used[..k], i);
    } else {
      assert u[..k] == used[..k];
    }
  }

  /** What a timer can still cause: a keep-alive timer starts a registration request. */
  function Weights(s: seq<Timer>): nat {
    if s == [] then 0 else Weights(s[..|s| - 1]) + (if s[|s| - 1].kind == REG then 2 else 1)
  }

  /** Every record is pending, admitted or released, and only one of them; no two live records are
      for the same call. */
  ghost predicate RecordsOk(pending: seq<Adm>, admitted: seq<Adm>, released: set<Adm>, created: set<Adm>) {
    && NoDups(pending) && NoDups(admitted)
    && (forall a | a in pending :: a !in admitted && a !in released && a in created)
    && (forall a | a in admitted :: a !in released && a in created)
    && released <= created
    && (forall a | a in created :: a in pending || a in admitted || a in released)
    && (forall a, b | a in pending && b in pending && a != b :: a.callRef != b.callRef)
    && (forall a, b | a in pending && b in admitted :: a.callRef != b.callRef)
    && (forall a, b | a in admitted && b in admitted && a != b :: a.callRef != b.callRef)
  }

  /** A record has at most one admission timer, and an admitted one has none. */
  ghost predicate TimingOk(timers: seq<Timer>, next: nat, admitted: seq<Adm>, created: set<Adm>) {
    && (forall i | 0 <= i < |timers| :: TimerOk(timers[i], next, admitted, created))
    && (forall i, j | 0 <= i < j < |timers| :: timers[i].id != timers[j].id)
    && (forall i, j | 0 <= i < j < |timers| && timers[i].kind == ARQ && timers[j].kind == ARQ :: timers[i].adm != timers[j].adm)
  }

  ghost predicate TimerOk(t: Timer, next: nat, admitted: seq<Adm>, created: set<Adm>) {
    t.id < next && (t.kind == ARQ ==> t.adm != null && t.adm in created && t.adm !in admitted)
  }

  /** Some timer is the record's admission timer. */
  ghost predicate HasTimer(timers: seq<Timer>, a: Adm) {
    exists i :: 0 <= i < |timers| && timers[i].kind == ARQ && timers[i].adm == a
  }

  lemma DeleteKeeps<T>(s: seq<T>, i: nat, x: T)
    requires i < |s|
    ensures x in Delete(s, i) ==> x in s
    ensures x in s && x != s[i] ==> x in Delete(s, i)
  {
    if x in s && x != s[i] {
      var k :| 0 <= k < |s| && s[k] == x;
      assert Delete(s, i)[if k < i then k else k - 1] == x;
    }
  }

  lemma NotAfterDelete(s: seq<Adm>, i: nat)
    requires NoDups(s) && i < |s|
    ensures NoDups(Delete(s, i)) && s[i] !in Delete(s, i)
  {
    var t := Delete(s, i);
    forall k | 0 <= k < |t| ensures t[k] == s[if k < i then k else k + 1] {}
  }

  lemma DeletedOnly(s: seq<Adm>, i: nat)
    requires NoDups(s) && i < |s|
    ensures NoDups(Delete(s, i)) && s[i] !in Delete(s, i)
    ensures forall x :: x in Delete(s, i) <==> x in s && x != s[i]
  {
    NotAfterDelete(s, i);
    forall x ensures x in Delete(s, i) <==> x in s && x != s[i] { DeleteKeeps(s, i, x); }
  }

  lemma RecordsAdd(p: seq<Adm>, q: seq<Adm>, r: set<Adm>, c: set<Adm>, a: Adm)
    requires RecordsOk(p, q, r, c) && a !in c && forall b | b in p || b in q :: b.callRef != a.callRef
    ensures RecordsOk(p + [a], q, r, c + {a})
  {}

  lemma RecordsAdmit(p: seq<Adm>, q: seq<Adm>, r: set<Adm>, c: set<Adm>, i: nat)
    requires RecordsOk(p, q, r, c) && i < |p|
    ensures RecordsOk(Delete(p, i), q + [p[i]], r, c)
  {
    DeletedOnly(p, i);
    hide Delete;
    var (u, x) := (Delete(p, i), p[i]);
    assert forall a :: a in q + [x] <==> a in q || a == x;
    assert forall a | a in u :: a in p && a != x;
    forall m, n | 0 <= m < n < |q + [x]| ensures (q + [x])[m] != (q + [x])[n] {
      if n == |q| { assert q[m] in q; }
    }
    assert forall a | a in c :: a in u || a in q + [x] || a in r;
    assert forall a, b | a in u && b in q + [x] :: a.callRef != b.callRef;
    assert forall a, b | a in q + [x] && b in q + [x] && a != b :: a.callRef != b.callRef;
  }

  lemma RecordsRelease(p: seq<Adm>, q: seq<Adm>, r: set<Adm>, c: set<Adm>, i: nat)
    requires RecordsOk(p, q, r, c)
    ensures i < |p| ==> RecordsOk(Delete(p, i), q, r + {p[i]}, c)
    ensures i < |q| ==> RecordsOk(p, Delete(q, i), r + {q[i]}, c)
  {
    if i < |p| { DeletedOnly(p, i); }
    if i < |q| { DeletedOnly(q, i); }
    hide Delete;
  }

  lemma TimingInsert(t: seq<Timer>, next: nat, q: seq<Adm>, c: set<Adm>, at: nat, x: Timer)
    requires TimingOk(t, next, q, c) && at <= |t| && x.id == next && TimerOk(x, next + 1, q, c)
    requires x.kind == ARQ ==> !HasTimer(t, x.adm)
    ensures TimingOk(Insert(t, at, x), next + 1, q, c)
  {
    hide Insert;
    var u := Insert(t, at, x);
    forall i | 0 <= i < |u| ensures u[i] == if i < at then t[i] else if i == at then x else t[i - 1] {}
  }

  lemma TimingDelete(t: seq<Timer>, next: nat, q: seq<Adm>, c: set<Adm>, k: nat)
    requires TimingOk(t, next, q, c) && k < |t|
    ensures TimingOk(Delete(t, k), next, q, c)
    ensures t[k].kind == ARQ ==> !HasTimer(Delete(t, k), t[k].adm)
  {
    hide Delete;
    var u := Delete(t, k);
    forall i | 0 <= i < |u| ensures u[i] == if i < k then t[i] else t[i + 1] {}
  }

  lemma TimingMoves(t: seq<Timer>, next: nat, q: seq<Adm>, c: set<Adm>, q': seq<Adm>, c': set<Adm>)
    requires TimingOk(t, next, q, c) && c <= c'
    requires forall a | a in q' :: a in q || !HasTimer(t, a)
    ensures TimingOk(t, next, q', c')
  {}

  lemma {:induction false} WeightsInsert(t: seq<Timer>, at: nat, x: Timer)
    requires at <= |t|
    ensures Weights(Insert(t, at, x)) == Weights(t) + (if x.kind == REG then 2 else 1)
  {
    var u := Insert(t, at, x);
    var k := |t|;
    if at == k {
      assert u[..k] == t;
    } else {
      WeightsInsert(t[..k - 1], at, x);
      assert u[..k] == Insert(t[..k - 1], at, x);
    }
  }

  lemma {:induction false} WeightsDelete(t: seq<Timer>, i: nat)
    requires i < |t|
    ensures Weights(Delete(t, i)) == Weights(t) - (if t[i].kind == REG then 2 else 1)
  {
    WeightsInsert(Delete(t, i), i, t[i]);
    assert Insert(Delete(t, i), i, t[i]) == t;
  }

  /** The head taken out after another timer went in. */
  lemma HeadOut(t: seq<Timer>, at: nat, x: Timer)
    requires 0 < |t| && at <= |t|
    ensures Delete(Insert(t, at, x), if at == 0 then 1 else 0) == Insert(Delete(t, 0), if at == 0 then 0 else at - 1, x)
  {}

  class Client {
    var requestSeqNum: U16
    var pending: seq<Adm>
    var admitted: seq<Adm>
    var timers: seq<Timer>
    var nextTimer: nat
    var grqRetries: nat
    var rrqRetries: nat
    var state: State

    ghost var issued: nat
    ghost var released: set<Adm>
    ghost var created: set<Adm>

    ghost predicate Records()
      reads this`pending, this`admitted, this`released, this`created
    {
      RecordsOk(pending, admitted, released, created)
    }

    /** Requests are numbered in turn, and a pending record holds the number of its own last request,
        which it shares with no other's request. */
    ghost predicate Numbers()
      reads this`pending, this`requestSeqNum, this`issued, pending`seqNum, pending`stamp
    {
      && (if requestSeqNum == 0 then 1 else requestSeqNum) == Number(issued)
      && (forall a <- pending :: a.stamp < issued && a.seqNum == Number(a.stamp))
      && (forall i, j | 0 <= i < j < |pending| :: pending[i].stamp != pending[j].stamp)
    }

    /** Retries stay in bounds, and nothing is sent more than once beyond them. */
    ghost predicate Bounded()
      reads this`pending, this`grqRetries, this`rrqRetries, pending`retries, pending`sends
    {
      && grqRetries <= MAX_RETRIES && rrqRetries <= MAX_RETRIES
      && (forall a <- pending :: a.retries <= MAX_RETRIES && a.sends <= a.retries + 1)
    }

    ghost predicate Timing()
      reads this`timers, this`nextTimer, this`admitted, this`created
    {
      TimingOk(timers, nextTimer, admitted, created)
    }

    ghost predicate Valid()
      reads this, pending
    {
      Records() && Numbers() && Bounded() && Timing()
    }

    constructor ()
      ensures Valid() && pending == admitted == [] && timers == [] && issued == 0 && created == {} && state == Idle
    {
      requestSeqNum, pending, admitted, timers, nextTimer := 0, [], [], [], 0;
      grqRetries, rrqRetries, state := 0, 0, Idle;
      issued, released, created := 0, {}, {};
    }

    /** The next request number: the counter, stepped over 0. */
    method NextNumber() returns (n: U16)
      requires Numbers()
      modifies this`requestSeqNum, this`issued
      ensures n == Number(old(issued)) && issued == old(issued) + 1 && Numbers()
      ensures n == (if old(requestSeqNum) == 0 then 1 else old(requestSeqNum)) && requestSeqNum == (if n == 65535 then 0 else n + 1)
      ensures forall a | a in pending :: a.stamp < old(issued)
    {
      n := requestSeqNum;
      requestSeqNum := (requestSeqNum + 1) % 65536;
      if n == 0 {
        n := requestSeqNum;
        requestSeqNum := (requestSeqNum + 1) % 65536;
      }
      issued := issued + 1;
      NumberStep(issued - 1);
    }

    /** A timer put where its expiry time says. */
    method AddTimer(kind: Kind, adm: Adm?, at: nat)
      requires Timing() && at <= |timers| && (kind == ARQ ==> adm != null && adm in created && adm !in admitted && !HasTimer(timers, adm))
      modifies this`timers, this`nextTimer
      ensures Timing() && timers == Insert(old(timers), at, Timer(old(nextTimer), kind, adm)) && nextTimer == old(nextTimer) + 1
    {
      TimingInsert(timers, nextTimer, admitted, created, at, Timer(nextTimer, kind, adm));
      timers := Insert(timers, at, Timer(nextTimer, kind, adm));
      nextTimer := nextTimer + 1;
    }

    /** The first pending record whose request had this number. */
    method FindPending(seqNum: U16) returns (x: nat)
      ensures FirstNumbered(pending, seqNum, x)
      ensures if x < |pending| then pending[x].seqNum == seqNum else forall k | 0 <= k < |pending| :: pending[k].seqNum != seqNum
      ensures forall k | 0 <= k < x :: pending[k].seqNum != seqNum
    {
      x := 0;
      while x < |pending| && pending[x].seqNum != seqNum
        invariant x <= |pending| && forall k | 0 <= k < x :: pending[k].seqNum != seqNum
      {
        x := x + 1;
      }
    }

    /** The place of a call in a list of records. */
    method FindCall(s: seq<Adm>, callRef: int) returns (x: nat)
      ensures FirstFor(s, callRef, x)
    {
      x := 0;
      while x < |s| && s[x].callRef != callRef
        invariant x <= |s| && forall k | 0 <= k < x :: s[k].callRef != callRef
      {
        x := x + 1;
      }
    }

    /** The first admission request of a call. */
    method SendAdmissionRequest(callRef: int, at: nat, delivered: bool) returns (ok: bool, ghost a: Adm)
      requires Valid() && at <= |timers|
      requires forall b | b in pending || b in admitted :: b.callRef != callRef
      modifies this
      ensures Valid() && fresh(a) && a.callRef == callRef && a.seqNum == Number(old(issued)) && a.retries == 0
      ensures pending == old(pending) + [a] && admitted == old(admitted) && released == old(released)
      ensures ok == delivered && issued == old(issued) + 1 && created == old(created) + {a}
      ensures if ok then timers == Insert(old(timers), at, Timer(old(nextTimer), ARQ, a)) && state == old(state)
              else timers == old(timers) && state == Failed
      ensures nextTimer == old(nextTimer) + (if ok then 1 else 0)
      ensures grqRetries == old(grqRetries) && rrqRetries == old(rrqRetries)
    {
      hide RecordsOk, TimingOk, Number, Insert, Client.Numbers, Client.Bounded;
      var n := NextNumber();
      var r := new Adm(callRef, n, issued - 1);
      a := r;
      Enlist(r);
      if !delivered {
        state := Failed;
        return false, a;
      }
      Sent(r);
      AddTimer(ARQ, r, at);
      ok := true;
    }

    /** A new record joins the pending calls. */
    method Enlist(r: Adm)
      requires Valid() && r !in created && r.retries == 0 && r.sends == 0 && issued > 0
      requires r.stamp == issued - 1 && r.seqNum == Number(r.stamp) && forall b | b in pending :: b.stamp < r.stamp
      requires forall b | b in pending || b in admitted :: b.callRef != r.callRef
      modifies this`pending, this`created
      ensures Valid() && pending == old(pending) + [r] && created == old(created) + {r}
      ensures r !in admitted && !HasTimer(timers, r)
    {
      hide RecordsOk, TimingOk, Number;
      FreshRecord(r);
      RecordsAdd(pending, admitted, released, created, r);
      TimingMoves(timers, nextTimer, admitted, created, admitted, created + {r});
      pending := pending + [r];
      created := created + {r};
    }

    ghost method Sent(r: Adm)
      requires Bounded() && r.sends == 0
      modifies r`sends
      ensures Bounded() && r.sends == 1
    {
      r.sends := 1;
    }

    /** A record not created before appears nowhere. */
    lemma FreshRecord(r: Adm)
      requires Records() && Timing()
      ensures r !in created ==> r !in pending && r !in admitted && !HasTimer(timers, r)
    {}

    /** An admission request is confirmed: the record moves over, and its timer goes. An address that
        is not of version 4 is ignored. */
    method HandleAdmissionConfirm(seqNum: U16, ipv4: bool) returns (ok: bool, ghost x: nat, ghost y: nat)
      requires Valid()
      modifies this`pending, this`admitted, this`timers
      ensures Valid()
      ensures old(FirstNumbered(pending, seqNum, x))
      ensures forall k | 0 <= k < x :: old(pending)[k].seqNum != seqNum
      ensures x < |old(pending)| ==> old(pending)[x].seqNum == seqNum
      ensures if x < |old(pending)| && ipv4 then
                && pending == Delete(old(pending), x) && admitted == old(admitted) + [old(pending)[x]]
                && timers == WithoutTimer(old(timers), old(pending)[x])
              else pending == old(pending) && admitted == old(admitted) && timers == old(timers)
      ensures x < |old(pending)| && ipv4 ==>
                var (t, a) := (old(timers), old(pending)[x]);
                && y <= |t| && (forall k | 0 <= k < y :: !(t[k].kind == ARQ && t[k].adm == a)) && (y < |t| ==> t[y].kind == ARQ && t[y].adm == a)
                && timers == t[..y] + (if y < |t| then t[y + 1..] else [])
      ensures ok <==> x == |old(pending)| || ipv4
    {
      hide RecordsOk, TimingOk, Number, Delete, WithoutTimer;
      var place := FindPending(seqNum);
      x, y := place, 0;
      if place == |pending| { return true, x, y; }
      if !ipv4 { return false, x, y; }
      var a := pending[place];
      y := StopTimer(a);
      Admit(place);
      ok := true;
    }

    /** The pending record at place, which has no timer, is an admitted one. */
    method Admit(place: nat)
      requires Valid() && place < |pending| && !HasTimer(timers, pending[place])
      modifies this`pending, this`admitted
      ensures Valid() && pending == Delete(old(pending), place) && admitted == old(admitted) + [old(pending)[place]]
    {
      hide RecordsOk, TimingOk, Number, Delete;
      Still(pending, place);
      RecordsAdmit(pending, admitted, released, created, place);
      TimingMoves(timers, nextTimer, admitted, created, admitted + [pending[place]], created);
      pending, admitted := Delete(pending, place), admitted + [pending[place]];
    }

    /** The record's admission timer is deleted, if it has one. */
    method StopTimer(a: Adm) returns (ghost place: nat)
      requires Timing()
      modifies this`timers
      ensures Timing() && timers == WithoutTimer(old(timers), a) && !HasTimer(timers, a)
      ensures var (t, y) := (old(timers), place);
              && y <= |t| && (forall k | 0 <= k < y :: !(t[k].kind == ARQ && t[k].adm == a)) && (y < |t| ==> t[y].kind == ARQ && t[y].adm == a)
              && timers == t[..y] + (if y < |t| then t[y + 1..] else [])
    {
      hide TimingOk;
      var y := 0;
      WithoutFirst(timers, a, 0);
      while y < |timers| && !(timers[y].kind == ARQ && timers[y].adm == a)
        invariant y <= |timers| && forall k | 0 <= k < y :: !(timers[k].kind == ARQ && timers[k].adm == a)
      {
        y := y + 1;
      }
      WithoutFirst(timers, a, y);
      if y < |timers| {
        TimingDelete(timers, nextTimer, admitted, created, y);
        timers := Delete(timers, y);
      }
      place := y;
      ghost var t := old(timers);
      assert timers == t[..y] + (if y < |t| then t[y + 1..] else []);
    }

    /** An admission request is rejected: the record is freed. Its timer stays. */
    method HandleAdmissionReject(seqNum: U16) returns (ghost x: nat)
      requires Valid()
      modifies this`pending, this`released
      ensures Valid()
      ensures old(FirstNumbered(pending, seqNum, x))
      ensures forall k | 0 <= k < x :: old(pending)[k].seqNum != seqNum
      ensures x < |old(pending)| ==> old(pending)[x].seqNum == seqNum
      ensures if x < |old(pending)| then
                pending == Delete(old(pending), x) && released == old(released) + {old(pending)[x]}
              else pending == old(pending) && released == old(released)
      ensures x < |old(pending)| && old(NoStale()) ==> (NoStale() <==> !HasTimer(timers, old(pending)[x]))
    {
      hide RecordsOk, TimingOk, Number, Delete, NoStaleIn, HasTimer;
      var place := FindPending(seqNum);
      x := place;
      if place == |pending| { return; }
      if NoStale() {
        NoDupPending();
        TimerLeft(timers, pending, place);
      }
      ReleasePending(place);
    }

    method ReleasePending(place: nat)
      requires Valid() && place < |pending|
      modifies this`pending, this`released
      ensures Valid() && pending == Delete(old(pending), place) && released == old(released) + {old(pending)[place]}
    {
      hide RecordsOk, TimingOk, Number, Delete;
      Still(pending, place);
      RecordsRelease(pending, admitted, released, created, place);
      pending, released := Delete(pending, place), released + {pending[place]};
    }

    method ReleaseAdmitted(place: nat)
      requires Valid() && place < |admitted|
      modifies this`admitted, this`released
      ensures Valid() && admitted == Delete(old(admitted), place) && released == old(released) + {old(admitted)[place]}
    {
      hide RecordsOk, TimingOk, Number, Delete;
      RecordsRelease(pending, admitted, released, created, place);
      TimingMoves(timers, nextTimer, admitted, created, Delete(admitted, place), created) by {
        forall a | a in Delete(admitted, place) ensures a in admitted { DeleteKeeps(admitted, place, a); }
      }
      admitted, released := Delete(admitted, place), released + {admitted[place]};
    }

    /** The end of an admitted call is announced, and its record freed. */
    method SendDisengageRequest(callRef: int, delivered: bool) returns (ok: bool, ghost x: nat)
      requires Valid()
      modifies this`requestSeqNum, this`issued, this`state, this`admitted, this`released
      ensures Valid() && ok == delivered && issued == old(issued) + 1
      ensures state == if delivered then old(state) else Failed
      ensures FirstFor(old(admitted), callRef, x)
      ensures if x < |old(admitted)| then old(admitted)[x].callRef == callRef else forall b | b in old(admitted) :: b.callRef != callRef
      ensures if x < |old(admitted)| then admitted == Delete(old(admitted), x) && released == old(released) + {old(admitted)[x]}
              else admitted == old(admitted) && released == old(released)
    {
      hide RecordsOk, TimingOk, Number, Delete;
      var n := NextNumber();
      if !delivered { state := Failed; }
      var place := FindCall(admitted, callRef);
      x := place;
      if place < |admitted| { ReleaseAdmitted(place); }
      ok := delivered;
    }

    /** Every admission timer is for a record that is still pending. */
    ghost predicate NoStale()
      reads this`timers, this`pending
    {
      NoStaleIn(timers, pending)
    }

    /** The first timer, if it is for an admission request, is for a record that is still pending. */
    ghost predicate HeadLive()
      reads this`timers, this`pending
    {
      0 < |timers| && timers[0].kind == ARQ ==> timers[0].adm in pending
    }

    /** The records of the admission timers are still pending, as far as a search for the call's own
        timer looks at them: up to and with the first that is for the call. */
    ghost predicate Readable(callRef: int)
      reads this`timers, this`pending
    {
      forall i | 0 <= i < |timers| && timers[i].kind == ARQ && (forall k | 0 <= k < i :: !IsFor(timers[k], callRef)) ::
        timers[i].adm in pending
    }

    /** A call is gone, in whatever stage: an admitted record is freed; failing that, the call's
        timer is deleted and its pending record freed. */
    method CleanCall(callRef: int) returns (ghost x: nat, ghost y: nat, ghost z: nat)
      requires Valid() && (Readable(callRef) || exists a :: a in admitted && a.callRef == callRef)
      modifies this`pending, this`admitted, this`released, this`timers
      ensures Valid() && (old(NoStale()) ==> NoStale())
      ensures FirstFor(old(admitted), callRef, x) && FirstFor(old(pending), callRef, z)
      ensures x == |old(admitted)| ==> FirstTimerFor(old(timers), callRef, y)
      ensures x == |old(admitted)| ==>
                var t := old(timers);
                && (forall k | 0 <= k < y && k < |t| && t[k].kind == ARQ && t[k].adm != null :: t[k].adm.callRef != callRef)
                && (y < |t| ==> t[y].kind == ARQ && t[y].adm != null && t[y].adm.callRef == callRef)
      ensures if x < |old(admitted)| then
                && admitted == Delete(old(admitted), x) && released == old(released) + {old(admitted)[x]}
                && pending == old(pending) && timers == old(timers)
              else
                && admitted == old(admitted) && timers == (if y < |old(timers)| then Delete(old(timers), y) else old(timers))
                && if z < |old(pending)| then pending == Delete(old(pending), z) && released == old(released) + {old(pending)[z]}
                   else pending == old(pending) && released == old(released)
      ensures forall a | a in pending || a in admitted :: a.callRef != callRef
    {
      hide RecordsOk, TimingOk, Number, NoStaleIn, Delete, Client.Numbers, Client.Bounded, Client.Timing;
      var p := FindCall(admitted, callRef);
      x, y, z := p, 0, |pending|;
      OneRecord(callRef);
      if p < |admitted| {
        DeletedOnly(admitted, p);
        ReleaseAdmitted(p);
        return;
      }
      y, z := CleanPending(callRef);
    }

    /** The timer and the pending record of a call that is not admitted. */
    method CleanPending(callRef: int) returns (ghost y: nat, ghost z: nat)
      requires Valid() && Readable(callRef)
      modifies this`pending, this`released, this`timers
      ensures Valid() && (old(NoStale()) ==> NoStale())
      ensures FirstFor(old(pending), callRef, z) && FirstTimerFor(old(timers), callRef, y)
      ensures timers == (if y < |old(timers)| then Delete(old(timers), y) else old(timers))
      ensures if z < |old(pending)| then pending == Delete(old(pending), z) && released == old(released) + {old(pending)[z]}
              else pending == old(pending) && released == old(released)
      ensures forall a | a in pending :: a.callRef != callRef
    {
      hide RecordsOk, TimingOk, Number, WithoutTimer, Delete;
      OneRecord(callRef);
      var q := FindTimer(callRef);
      ghost var t0 := timers;
      if q < |timers| { DropTimer(q); }
      var r := FindCall(pending, callRef);
      y, z := q, r;
      if r < |pending| {
        NoTimerLeft(t0, q, pending[r]);
        DeletedOnly(pending, r);
        ReleasePending(r);
      }
    }

    /** A call has one live record at most. */
    lemma OneRecord(callRef: int)
      requires Records()
      ensures NoDups(pending) && NoDups(admitted)
      ensures forall i | 0 <= i < |admitted| && admitted[i].callRef == callRef ::
                (forall b | b in pending :: b.callRef != callRef) && forall b | b in admitted && b != admitted[i] :: b.callRef != callRef
      ensures forall i | 0 <= i < |pending| && pending[i].callRef == callRef :: forall b | b in pending && b != pending[i] :: b.callRef != callRef
    {}

    /** The first admission timer of the call, found through the records. */
    method FindTimer(callRef: int) returns (y: nat)
      requires Timing() && Readable(callRef)
      ensures FirstTimerFor(timers, callRef, y) && (y < |timers| ==> timers[y].adm in pending)
    {
      y := 0;
      while y < |timers| && !(timers[y].kind == ARQ && CallOf(timers[y]) == callRef)
        invariant y <= |timers| && forall k | 0 <= k < y :: !IsFor(timers[k], callRef)
      {
        y := y + 1;
      }
    }

    /** The call an admission timer is for. */
    function CallOf(t: Timer): int
      requires t.kind == ARQ ==> t.adm != null
      reads this
    {
      if t.adm == null then 0 else t.adm.callRef
    }

    method DropTimer(y: nat)
      requires Valid() && y < |timers|
      modifies this`timers
      ensures Valid() && timers == Delete(old(timers), y) && (old(NoStale()) ==> NoStale())
      ensures old(timers)[y].kind == ARQ ==> !HasTimer(timers, old(timers)[y].adm)
    {
      hide RecordsOk, TimingOk, Number;
      TimingDelete(timers, nextTimer, admitted, created, y);
      timers := Delete(timers, y);
    }

    /** A pending record whose call no timer before y is for, and whose timer at y is gone, has none. */
    lemma NoTimerLeft(t0: seq<Timer>, y: nat, a: Adm)
      requires Records() && a in pending && FirstTimerFor(t0, a.callRef, y) && timers == (if y < |t0| then Delete(t0, y) else t0)
      requires y < |t0| ==> t0[y].adm in pending && !HasTimer(timers, t0[y].adm)
      ensures !HasTimer(timers, a)
    {
      if y < |t0| { assert t0[y].adm == a; }
    }

    /** How much can still happen by itself: the retries left and the timers running. */
    ghost function Measure(): nat
      requires Bounded()
      reads this, pending
    {
      Left(Used(pending)) + (MAX_RETRIES - grqRetries) + (MAX_RETRIES - rrqRetries) + Weights(timers)
    }

    /** The first timer runs out. Its handler sends the request again, with a new timer, or gives up;
        then the timer is deleted. An admission timer's record must still be pending. */
    method FireHead(at: nat, delivered: bool) returns (ok: bool)
      requires Valid() && HeadLive() && 0 < |timers| && at <= |timers|
      modifies this, pending
      ensures Valid() && (old(NoStale()) ==> NoStale())
      ensures pending == old(pending) && admitted == old(admitted) && released == old(released) && created == old(created)
      ensures Measure() < old(Measure())
      ensures var t := old(timers[0]);
              var used := old(match t.kind case GRQ => grqRetries case RRQ => rrqRetries case REG => 0 case ARQ => t.adm.retries);
              && ok == (used < MAX_RETRIES && delivered)
              && timers == (if ok then Restarted(old(timers), at, old(nextTimer), t) else Delete(old(timers), 0))
              && state == (if used >= MAX_RETRIES then GkErr else if delivered then old(state) else Failed)
              && (t.kind == ARQ ==> t.adm.retries == used + (if ok then 1 else 0))
              && (t.kind == ARQ ==> t.adm.seqNum == if used < MAX_RETRIES then Number(old(issued)) else old(t.adm.seqNum))
              && issued == old(issued) + (if used < MAX_RETRIES then 1 else 0) && nextTimer == old(nextTimer) + (if ok then 1 else 0)
              && grqRetries == old(grqRetries) + (if ok && t.kind == GRQ then 1 else 0)
              && rrqRetries == old(rrqRetries) + (if ok && t.kind == RRQ then 1 else 0)
      ensures if ok then
                var i := if at == 0 then 0 else at - 1;
                && i < |timers| && timers[..i] + timers[i + 1..] == old(timers)[1..]
                && timers[i] == Timer(old(nextTimer), if old(timers)[0].kind == REG then RRQ else old(timers)[0].kind, if old(timers)[0].kind == ARQ then old(timers)[0].adm else null)
              else timers == old(timers)[1..]
      ensures forall a <- pending :: a.sends <= old(a.sends) + 1
      ensures forall a <- pending :: old(timers[0].kind == ARQ && timers[0].adm == a) || (a.seqNum == old(a.seqNum) && a.retries == old(a.retries))
      ensures delivered && timers == [] ==> state == GkErr
    {
      hide RecordsOk, TimingOk, Number, Left, Weights, NoStaleIn, Restarted, Delete, Client.Numbers, Client.Timing;
      var t := timers[0];
      RestartedAt(timers, at, nextTimer, t);
      match t.kind
      case GRQ =>
        ok := ExpireRequest(t.kind, grqRetries, at, delivered);
        if ok { grqRetries := grqRetries + 1; }
      case RRQ =>
        ok := ExpireRequest(t.kind, rrqRetries, at, delivered);
        if ok { rrqRetries := rrqRetries + 1; }
      case REG =>
        ok := ExpireRequest(t.kind, 0, at, delivered);
      case ARQ =>
        ok := ExpireARQ(t.adm, at, delivered);
    }

    /** A discovery or registration request again, or a keep-alive registration. */
    method ExpireRequest(kind: Kind, retries: nat, at: nat, delivered: bool) returns (ok: bool)
      requires Valid() && 0 < |timers| && at <= |timers| && timers[0].kind == kind != ARQ
      modifies this`requestSeqNum, this`issued, this`timers, this`nextTimer, this`state
      ensures Valid() && (old(NoStale()) ==> NoStale())
      ensures ok <==> retries < MAX_RETRIES && delivered
      ensures Weights(timers) == old(Weights(timers)) - (if kind == REG then 2 else 1) + (if ok then 1 else 0)
      ensures state == if retries >= MAX_RETRIES then GkErr else if delivered then old(state) else Failed
      ensures timers == if ok then Restarted(old(timers), at, old(nextTimer), old(timers)[0]) else Delete(old(timers), 0)
      ensures issued == old(issued) + (if retries < MAX_RETRIES then 1 else 0) && nextTimer == old(nextTimer) + (if ok then 1 else 0)
      ensures if ok then
                var i := if at == 0 then 0 else at - 1;
                && i < |timers| && timers[..i] + timers[i + 1..] == old(timers)[1..]
                && timers[i] == Timer(old(nextTimer), if kind == REG then RRQ else kind, null)
              else timers == old(timers)[1..]
      ensures ok ==> timers != []
    {
      hide RecordsOk, TimingOk, Number, Insert, Delete, Weights, NoStaleIn;
      RestartedAt(timers, at, nextTimer, timers[0]);
      if retries < MAX_RETRIES {
        var n := NextNumber();
        if delivered {
          Replace(if kind == REG then RRQ else kind, null, at);
          return true;
        }
        state := Failed;
      } else {
        state := GkErr;
      }
      WeightsDelete(timers, 0);
      DropTimer(0);
      ok := false;
    }

    /** A new timer is put in and then the first of the old ones taken out. */
    method Replace(kind: Kind, adm: Adm?, at: nat)
      requires Valid() && 0 < |timers| && at <= |timers| && kind != REG
      requires kind == ARQ ==> adm != null && adm in pending && timers[0].kind == ARQ && timers[0].adm == adm
      modifies this`timers, this`nextTimer
      ensures Valid() && (old(NoStale()) ==> NoStale()) && timers != [] && nextTimer == old(nextTimer) + 1
      ensures Weights(timers) == old(Weights(timers)) - (if old(timers)[0].kind == REG then 2 else 1) + 1
      ensures timers == Insert(Delete(old(timers), 0), if at == 0 then 0 else at - 1, Timer(old(nextTimer), kind, adm))
    {
      hide RecordsOk, Number, TimingOk, Weights, Insert, Delete, NoStaleIn;
      var x := Timer(nextTimer, kind, adm);
      ghost var (t0, to) := (timers, if at == 0 then 0 else at - 1);
      HeadOut(t0, at, x);
      TimingDelete(t0, nextTimer, admitted, created, 0);
      assert kind == ARQ ==> adm in created && adm !in admitted by { PendingOnly(); }
      TimingInsert(Delete(t0, 0), nextTimer, admitted, created, to, x);
      WeightsDelete(t0, 0);
      WeightsInsert(Delete(t0, 0), to, x);
      if NoStale() { StaleFree(t0, pending, to, x); }
      timers := Insert(timers, at, x);
      nextTimer := nextTimer + 1;
      timers := Delete(timers, if at == 0 then 1 else 0);
    }

    lemma PendingOnly()
      requires Records()
      ensures forall a | a in pending :: a in created && a !in admitted
    {}

    method ExpireARQ(a: Adm, at: nat, delivered: bool) returns (ok: bool)
      requires Valid() && 0 < |timers| && at <= |timers| && timers[0].kind == ARQ && timers[0].adm == a && a in pending
      modifies this`requestSeqNum, this`issued, this`timers, this`nextTimer, this`state, a
      ensures Valid() && (old(NoStale()) ==> NoStale())
      ensures Left(Used(pending)) + Weights(timers) < old(Left(Used(pending)) + Weights(timers))
      ensures a.sends <= old(a.sends) + 1
      ensures ok == (old(a.retries) < MAX_RETRIES && delivered)
      ensures timers == if ok then Restarted(old(timers), at, old(nextTimer), old(timers)[0]) else Delete(old(timers), 0)
      ensures state == if old(a.retries) >= MAX_RETRIES then GkErr else if delivered then old(state) else Failed
      ensures a.retries == old(a.retries) + (if ok then 1 else 0)
      ensures a.seqNum == if old(a.retries) < MAX_RETRIES then Number(old(issued)) else old(a.seqNum)
      ensures issued == old(issued) + (if old(a.retries) < MAX_RETRIES then 1 else 0) && nextTimer == old(nextTimer) + (if ok then 1 else 0)
      ensures if ok then
                var i := if at == 0 then 0 else at - 1;
                && i < |timers| && timers[..i] + timers[i + 1..] == old(timers)[1..]
                && timers[i] == Timer(old(nextTimer), ARQ, a)
              else timers == old(timers)[1..]
      ensures ok ==> timers != []
    {
      hide RecordsOk, TimingOk, Number, Insert, Delete, Restarted, Weights, NoStaleIn, Left, Used;
      RestartedAt(timers, at, nextTimer, timers[0]);
      if a.retries < MAX_RETRIES {
        ok := RetryARQ(a, at, delivered);
      } else {
        state := GkErr;
        WeightsDelete(timers, 0);
        DropTimer(0);
        ok := false;
      }
    }

    method RetryARQ(a: Adm, at: nat, delivered: bool) returns (ok: bool)
      requires Valid() && 0 < |timers| && at <= |timers| && timers[0].kind == ARQ && timers[0].adm == a && a in pending
      requires a.retries < MAX_RETRIES
      modifies this`requestSeqNum, this`issued, this`timers, this`nextTimer, this`state, a
      ensures Valid() && (old(NoStale()) ==> NoStale())
      ensures Left(Used(pending)) + Weights(timers) < old(Left(Used(pending)) + Weights(timers))
      ensures a.sends <= old(a.sends) + 1
      ensures ok == delivered && state == (if delivered then old(state) else Failed)
      ensures timers == if ok then Restarted(old(timers), at, old(nextTimer), old(timers)[0]) else Delete(old(timers), 0)
      ensures a.retries == old(a.retries) + (if ok then 1 else 0) && a.seqNum == Number(old(issued))
      ensures issued == old(issued) + 1 && nextTimer == old(nextTimer) + (if ok then 1 else 0)
      ensures ok ==> timers != []
    {
      hide RecordsOk, TimingOk, Number, Insert, Delete, Weights, NoStaleIn, Left, Used, Client.Numbers, Client.Bounded;
      var x := FindCall(pending, a.callRef);
      SameCall(a, x);
      Resend(x, delivered);
      if !delivered { assert Used(pending) == old(Used(pending)); }
      if delivered {
        LeftAfter(old(Used(pending)), x);
        Replace(ARQ, a, at);
        ok := true;
      } else {
        state := Failed;
        WeightsDelete(timers, 0);
        DropTimer(0);
        ok := false;
      }
    }

    /** The request of the pending record x under a new number. */
    method Resend(x: nat, delivered: bool)
      requires Valid() && x < |pending| && pending[x].retries < MAX_RETRIES
      modifies this`requestSeqNum, this`issued, pending[x]
      ensures Records() && Numbers() && Bounded() && issued == old(issued) + 1
      ensures Used(pending) == old(Used(pending))[x := old(pending[x].retries) + (if delivered then 1 else 0)]
      ensures pending[x].sends <= old(pending[x].sends) + 1
      ensures pending[x].retries == old(pending[x].retries) + (if delivered then 1 else 0) && pending[x].seqNum == Number(old(issued))
    {
      hide RecordsOk, TimingOk, Number, Used, Client.Numbers;
      NoDupPending();
      Renumber(pending[x], x);
      Count(pending[x], x, delivered);
    }

    method Renumber(a: Adm, ghost x: nat)
      requires Numbers() && NoDups(pending) && x < |pending| && pending[x] == a
      modifies this`requestSeqNum, this`issued, a`seqNum, a`stamp
      ensures Numbers() && a.seqNum == Number(old(issued)) && issued == old(issued) + 1
    {
      var n := NextNumber();
      assert forall k | 0 <= k < |pending| && k != x :: pending[k] != a && pending[k].stamp < issued - 1;
      hide NoDups, Number;
      a.seqNum, a.stamp := n, issued - 1;
    }

    method Count(a: Adm, ghost x: nat, delivered: bool)
      requires Bounded() && NoDups(pending) && x < |pending| && pending[x] == a && a.retries < MAX_RETRIES
      modifies a`retries, a`sends
      ensures Bounded() && Used(pending) == old(Used(pending))[x := old(pending[x].retries) + (if delivered then 1 else 0)]
      ensures pending[x].sends <= old(pending[x].sends) + 1
      ensures a.retries == old(a.retries) + (if delivered then 1 else 0)
    {
      hide Used;
      ghost var u := Used(pending);
      if delivered { a.sends, a.retries := a.sends + 1, a.retries + 1; }
      ghost var v := u[x := a.retries];
      forall k | 0 <= k < |pending| ensures Used(pending)[k] == v[k] {}
    }

    lemma NoDupPending()
      requires Records()
      ensures NoDups(pending)
    {}

    lemma SameCall(a: Adm, x: nat)
      requires Records() && a in pending && x <= |pending|
      requires (x < |pending| ==> pending[x].callRef == a.callRef) && forall k | 0 <= k < x :: pending[k].callRef != a.callRef
      ensures x < |pending| && pending[x] == a
    {}
  }

  function Used(s: seq<Adm>): (u: seq<nat>)
    reads s
    ensures |u| == |s| && forall i | 0 <= i < |s| :: u[i] == s[i].retries
  {
    seq(|s|, i requires 0 <= i < |s| reads s => s[i].retries)
  }

  ghost predicate NoStaleIn(t: seq<Timer>, p: seq<Adm>) {
    forall i | 0 <= i < |t| && t[i].kind == ARQ :: t[i].adm in p
  }

  /** Without a record, every timer is for one that is left if and only if the record had none. */
  lemma TimerLeft(t: seq<Timer>, p: seq<Adm>, x: nat)
    requires NoStaleIn(t, p) && NoDups(p) && x < |p|
    ensures NoStaleIn(t, Delete(p, x)) <==> !HasTimer(t, p[x])
  {
    DeletedOnly(p, x);
    hide Delete;
  }

  lemma HeadPending(t: seq<Timer>, p: seq<Adm>)
    requires NoStaleIn(t, p) && 0 < |t| && t[0].kind == ARQ
    ensures t[0].adm in p
  {}

  lemma StaleFree(t: seq<Timer>, p: seq<Adm>, at: nat, x: Timer)
    requires NoStaleIn(t, p) && at < |t| && (x.kind == ARQ ==> x.adm in p)
    ensures NoStaleIn(Insert(Delete(t, 0), at, x), p)
  {}

  /** The timers after the first one has run out and a new one for its request was started. */
  function Restarted(t: seq<Timer>, at: nat, id: nat, was: Timer): seq<Timer>
    requires 0 < |t| && at <= |t|
  {
    Insert(Delete(t, 0), if at == 0 then 0 else at - 1,
      Timer(id, if was.kind == REG then RRQ else was.kind, if was.kind == ARQ then was.adm else null))
  }

  lemma RestartedAt(t: seq<Timer>, at: nat, id: nat, was: Timer)
    requires 0 < |t| && at <= |t|
    ensures Delete(t, 0) == t[1..]
    ensures var (u, i) := (Restarted(t, at, id, was), if at == 0 then 0 else at - 1);
            && i < |u| && u[..i] + u[i + 1..] == t[1..]
            && u[i] == Timer(id, if was.kind == REG then RRQ else was.kind, if was.kind == ARQ then was.adm else null)
  {
    var (u, i) := (Restarted(t, at, id, was), if at == 0 then 0 else at - 1);
    assert Delete(t, 0) == t[1..];
    assert u[..i] + u[i + 1..] == t[1..];
  }

  /** An admission timer for the call. */
  predicate IsFor(t: Timer, callRef: int) {
    t.kind == ARQ && t.adm != null && t.adm.callRef == callRef
  }

  // ---------- places in the lists: the length of the list stands for none ----------

  /** The first record of the call is at x. */
  predicate FirstFor(s: seq<Adm>, callRef: int, x: nat) {
    x <= |s| && (x < |s| ==> s[x].callRef == callRef) && forall k | 0 <= k < x :: s[k].callRef != callRef
  }

  /** The first record whose latest request had this number is at x. */
  predicate FirstNumbered(s: seq<Adm>, seqNum: U16, x: nat)
    reads s
  {
    x <= |s| && (x < |s| ==> s[x].seqNum == seqNum) && forall k | 0 <= k < x :: s[k].seqNum != seqNum
  }

  /** The first admission timer of the call is at y. */
  predicate FirstTimerFor(t: seq<Timer>, callRef: int, y: nat) {
    y <= |t| && (y < |t| ==> IsFor(t[y], callRef)) && forall k | 0 <= k < y :: !IsFor(t[k], callRef)
  }

  /** A record's first admission timer taken out. */
  function WithoutTimer(t: seq<Timer>, a: Adm): seq<Timer> {
    if t == [] then []
    else if t[0].kind == ARQ && t[0].adm == a then t[1..]
    else [t[0]] + WithoutTimer(t[1..], a)
  }

  lemma {:induction false} WithoutFirst(t: seq<Timer>, a: Adm, y: nat)
    requires y <= |t| && (forall k | 0 <= k < y :: !(t[k].kind == ARQ && t[k].adm == a))
    ensures y < |t| && t[y].kind == ARQ && t[y].adm == a ==> WithoutTimer(t, a) == Delete(t, y)
    ensures y == |t| ==> WithoutTimer(t, a) == t
  {
    if t != [] && y > 0 {
      WithoutFirst(t[1..], a, y - 1);
      assert t[1..] == t[1..][..y - 1] + t[1..][y - 1..];
      assert [t[0]] + t[1..] == t;
      if y < |t| { assert Delete(t, y) == [t[0]] + Delete(t[1..], y - 1); }
    } else if t != [] {
      assert Delete(t, 0) == t[1..];
    }
  }

  /** Records left in the list are records of the list, in the same order. */
  lemma Still(s: seq<Adm>, i: nat)
    requires i < |s|
    ensures forall a | a in Delete(s, i) :: a in s
    ensures forall k | 0 <= k < |s| - 1 :: Delete(s, i)[k] == s[if k < i then k else k + 1]
  {
    forall a | a in Delete(s, i) ensures a in s { DeleteKeeps(s, i, a); }
  }

  lemma NumberStep(k: nat)
    ensures Number(k + 1) == if Number(k) == 65535 then 1 else Number(k) + 1
  {
    assert k == k / 65535 * 65535 + k % 65535;
    if k % 65535 == 65534 {
      assert k + 1 == (k / 65535 + 1) * 65535;
    } else {
      assert k + 1 == k / 65535 * 65535 + (k % 65535 + 1);
    }
  }
}
