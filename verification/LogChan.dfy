/** The logical channels of a call: a singly linked list that is shortened while it is walked. */
module LogChan {
  import opened DList

  datatype State = Idle | Proposed | Established

  class Channel {
    const channelNo: int
    const receive: bool
    var sessionID: int
    var state: State
    var next: Channel?

    constructor (channelNo: int, sessionID: int, receive: bool)
      ensures this.channelNo == channelNo && this.sessionID == sessionID && this.receive == receive
      ensures state == Idle && next == null
    {
      this.channelNo, this.sessionID, this.receive, state, next := channelNo, sessionID, receive, Idle, null;
    }
  }

  function At(s: seq<Channel>, i: int): Channel?
    requires 0 <= i
  {
    if i < |s| then s[i] else null
  }

  /** The channels follow each other as in s. */
  ghost predicate Chain(s: seq<Channel>)
    reads s`next
  {
    && (forall i | 0 <= i < |s| :: s[i].next == At(s, i + 1))
    && NoDups(s)
  }

  ghost predicate NoDups(s: seq<Channel>) {
    forall i, j | 0 <= i < j < |s| :: s[i] != s[j]
  }

  /** No two channels have one number.  (Each end numbers the channels it opens.) */
  ghost predicate Numbered(s: seq<Channel>) {
    forall i, j | 0 <= i < j < |s| :: s[i].channelNo != s[j].channelNo
  }

  /** The first channel with the number is at i; the length of the list stands for none. */
  predicate FirstNo(s: seq<Channel>, n: int, i: nat) {
    i <= |s| && (i < |s| ==> s[i].channelNo == n) && forall k | 0 <= k < i :: s[k].channelNo != n
  }

  /** At most one established channel for each session and direction. */
  ghost predicate OneEach(s: seq<Channel>)
    reads s`state, s`sessionID
  {
    forall i, j | 0 <= i < j < |s| && s[i].state == Established && s[j].state == Established :: !Rivals(s[i], s[j])
  }

  predicate Rivals(a: Channel, b: Channel)
    reads a`sessionID, b`sessionID
  {
    a.sessionID == b.sessionID && a.receive == b.receive
  }

  /** No established channel but c itself has its session and direction. */
  ghost predicate Alone(s: seq<Channel>, c: Channel)
    reads s`state, s`sessionID, c`sessionID
  {
    forall x | x in s && x != c && x.state == Established :: !Rivals(x, c)
  }

  /** The channels that stay when c is established: c itself and those that are no rivals. */
  ghost function Stayers(s: seq<Channel>, c: Channel): set<Channel>
    reads s`sessionID, c`sessionID
  {
    set x | x in s && Stays(x, c)
  }

  predicate Stays(x: Channel, c: Channel)
    reads x`sessionID, c`sessionID
  {
    x.channelNo == c.channelNo || !Rivals(x, c)
  }

  /** The channels of the list that are in stay, in their order. */
  ghost function Kept(s: seq<Channel>, stay: set<Channel>): seq<Channel> {
    if s == [] then []
    else Kept(s[..|s| - 1], stay) + (if s[|s| - 1] in stay then [s[|s| - 1]] else [])
  }

  lemma {:induction false} KeptStays(s: seq<Channel>, stay: set<Channel>, x: Channel)
    ensures x in Kept(s, stay) <==> x in s && x in stay
  {
    if s != [] {
      KeptStays(s[..|s| - 1], stay, x);
      assert s == s[..|s| - 1] + [s[|s| - 1]];
    }
  }

  /** The order of what stays is the order it had. */
  lemma {:induction false} KeptOrder(s: seq<Channel>, stay: set<Channel>, i: nat, j: nat) returns (m: nat, n: nat)
    requires i < j < |Kept(s, stay)|
    ensures m < n < |s| && s[m] == Kept(s, stay)[i] && s[n] == Kept(s, stay)[j]
  {
    var k := |s| - 1;
    var r := Kept(s[..k], stay);
    if j < |r| {
      m, n := KeptOrder(s[..k], stay, i, j);
    } else {
      KeptStays(s[..k], stay, r[i]);
      m :| 0 <= m < k && s[..k][m] == r[i];
      n := k;
    }
  }

  // ---------- a walk that removes by number ----------

  /** The list without the first channel of the number. */
  ghost function Cut(s: seq<Channel>, n: int): seq<Channel> {
    if s == [] then [] else if s[0].channelNo == n then s[1..] else [s[0]] + Cut(s[1..], n)
  }

  /** What a walk over r leaves, a being what it has left so far: for each channel that is not to
      stay, the first of the list that has its number goes. */
  ghost function Walked(a: seq<Channel>, r: seq<Channel>, stay: set<Channel>): seq<Channel>
    decreases |r|
  {
    if r == [] then a
    else Walked(if r[0] in stay then a + [r[0]] else Cut(a + [r[0]], r[0].channelNo), r[1..], stay)
  }

  /** Before a channel that is to go stands no channel that is to stay and has the same number. */
  ghost predicate Aimed(s: seq<Channel>, stay: set<Channel>) {
    forall i, j | 0 <= i < j < |s| && s[i].channelNo == s[j].channelNo && s[j] !in stay :: s[i] !in stay
  }

  lemma {:induction false} CutAt(s: seq<Channel>, n: int, i: nat)
    requires FirstNo(s, n, i)
    ensures Cut(s, n) == if i < |s| then Delete(s, i) else s
  {
    if s != [] && i > 0 {
      CutAt(s[1..], n, i - 1);
      assert s == [s[0]] + s[1..];
      if i < |s| { assert Delete(s, i) == [s[0]] + Delete(s[1..], i - 1); }
    }
  }

  lemma {:induction false} CutFront(a: seq<Channel>, b: seq<Channel>, n: int)
    requires exists x :: x in a && x.channelNo == n
    ensures Cut(a + b, n) == Cut(a, n) + b
  {
    assert (a + b)[0] == a[0] && (a + b)[1..] == a[1..] + b;
    if a[0].channelNo != n {
      var x :| x in a && x.channelNo == n;
      assert x in a[1..];
      CutFront(a[1..], b, n);
    }
  }

  lemma {:induction false} CutHas(s: seq<Channel>, n: int, x: Channel)
    ensures x in Cut(s, n) ==> x in s
    ensures x in s && x.channelNo != n ==> x in Cut(s, n)
  {
    if s != [] && s[0].channelNo != n { CutHas(s[1..], n, x); }
  }

  lemma {:induction false} WalkedHas(a: seq<Channel>, r: seq<Channel>, stay: set<Channel>, x: Channel)
    ensures x in Walked(a, r, stay) ==> x in a || x in r
    ensures (x in a || x in r) && (forall y | y in r && y.channelNo == x.channelNo :: y in stay) ==> x in Walked(a, r, stay)
    decreases |r|
  {
    if r != [] {
      CutHas(a + [r[0]], r[0].channelNo, x);
      WalkedHas(if r[0] in stay then a + [r[0]] else Cut(a + [r[0]], r[0].channelNo), r[1..], stay, x);
    }
  }

  /** The walk removes exactly the channels that are not to stay if and only if none of those that
      are stands before one that is not and has its number. */
  lemma {:induction false} WalkedKept(s: seq<Channel>, i: nat, stay: set<Channel>)
    requires NoDups(s) && i <= |s| && Aimed(s[..i], stay)
    ensures Walked(Kept(s[..i], stay), s[i..], stay) == Kept(s, stay) <==> Aimed(s, stay)
    decreases |s| - i
  {
    hide Walked, Kept;
    if i == |s| {
      assert s[..i] == s;
      WalkOver(Kept(s, stay), s, stay);
    } else if m :| 0 <= m < i && s[m].channelNo == s[i].channelNo && s[m] in stay && s[i] !in stay {
      Misses(s, i, m, stay);
    } else {
      Hits(s, i, stay);
      WalkedKept(s, i + 1, stay);
    }
  }

  lemma Hits(s: seq<Channel>, i: nat, stay: set<Channel>)
    requires i < |s| && Aimed(s[..i], stay)
    requires forall m | 0 <= m < i && s[m].channelNo == s[i].channelNo && s[m] in stay :: s[i] in stay
    ensures Aimed(s[..i + 1], stay)
    ensures Walked(Kept(s[..i], stay), s[i..], stay) == Walked(Kept(s[..i + 1], stay), s[i + 1..], stay)
  {
    var (a, x) := (Kept(s[..i], stay), s[i]);
    assert s[i..][0] == x && s[i..][1..] == s[i + 1..];
    assert s[..i + 1][..i] == s[..i];
    forall k | 0 <= k < |a| ensures a[k].channelNo != x.channelNo || x in stay { KeptStays(s[..i], stay, a[k]); }
    if x !in stay {
      CutAt(a + [x], x.channelNo, |a|);
      assert Delete(a + [x], |a|) == a;
    }
  }

  lemma Misses(s: seq<Channel>, i: nat, m: nat, stay: set<Channel>)
    requires NoDups(s) && m < i < |s| && s[m].channelNo == s[i].channelNo && s[m] in stay && s[i] !in stay
    ensures Walked(Kept(s[..i], stay), s[i..], stay) != Kept(s, stay)
  {
    var (a, x) := (Kept(s[..i], stay), s[i]);
    KeptStays(s[..i], stay, s[m]);
    var j := FirstOf(a, x.channelNo);
    var y := a[j];
    KeptStays(s[..i], stay, y);
    KeptStays(s, stay, y);
    CutAt(a + [x], x.channelNo, j);
    KeptApart(s[..i], stay);
    assert y !in Delete(a + [x], j);
    assert s[i..][0] == x && s[i..][1..] == s[i + 1..];
    WalkedHas(Delete(a + [x], j), s[i + 1..], stay, y);
  }

  lemma FirstOf(a: seq<Channel>, n: int) returns (j: nat)
    requires exists x :: x in a && x.channelNo == n
    ensures j < |a| && a[j].channelNo == n && forall k | 0 <= k < j :: a[k].channelNo != n
  {
    j := 0;
    while a[j].channelNo != n
      invariant j < |a| && forall k | 0 <= k < j :: a[k].channelNo != n
      decreases |a| - j
    {
      j := j + 1;
    }
  }

  lemma KeptApart(s: seq<Channel>, stay: set<Channel>)
    requires NoDups(s)
    ensures NoDups(Kept(s, stay))
  {
    forall i, j | 0 <= i < j < |Kept(s, stay)| ensures Kept(s, stay)[i] != Kept(s, stay)[j] { var m, n := KeptOrder(s, stay, i, j); }
  }

  class Call {
    var logicalChans: Channel?
    var noOfLogicalChannels: int
    ghost var chans: seq<Channel>

    /** The list is in order and its length is the count. */
    ghost predicate Listed()
      reads this, chans`next
    {
      Represents(chans)
    }

    ghost predicate Represents(s: seq<Channel>)
      reads this`logicalChans, this`noOfLogicalChannels, s`next
    {
      Chain(s) && logicalChans == At(s, 0) && noOfLogicalChannels == |s|
    }

    constructor ()
      ensures Listed() && chans == []
    {
      logicalChans, noOfLogicalChannels, chans := null, 0, [];
    }

    /** A new channel at the end of the list. */
    method AddNewLogicalChannel(channelNo: int, sessionID: int, receive: bool) returns (c: Channel)
      requires Listed()
      modifies this, chans`next
      ensures Listed() && fresh(c) && chans == old(chans) + [c] && (old(OneEach(chans)) ==> OneEach(chans))
      ensures c.channelNo == channelNo && c.sessionID == sessionID && c.receive == receive && c.state == Idle
    {
      hide Chain, OneEach;
      c := new Channel(channelNo, sessionID, receive);
      LinkLast(c);
      if OneEach(chans) { IdleJoins(chans, c); }
      chans := chans + [c];
    }

    method LinkLast(c: Channel)
      requires Listed() && c !in chans && c.next == null
      modifies this`logicalChans, this`noOfLogicalChannels, chans`next
      ensures Represents(chans + [c])
    {
      if logicalChans == null {
        logicalChans := c;
      } else {
        var last := logicalChans;
        ghost var i := 0;
        while last.next != null
          invariant 0 <= i < |chans| && last == chans[i]
          decreases |chans| - i
        {
          last := last.next;
          i := i + 1;
        }
        last.next := c;
      }
      noOfLogicalChannels := noOfLogicalChannels + 1;
    }

    /** The first channel with this number. */
    method FindLogicalChannel(channelNo: int) returns (c: Channel?, ghost i: nat)
      requires Listed()
      ensures FirstNo(chans, channelNo, i) && c == At(chans, i)
      ensures if c == null then forall x | x in chans :: x.channelNo != channelNo
              else i < |chans| && c == chans[i] && c.channelNo == channelNo && forall k | 0 <= k < i :: chans[k].channelNo != channelNo
    {
      c := logicalChans;
      i := 0;
      while c != null && c.channelNo != channelNo
        invariant 0 <= i <= |chans| && c == At(chans, i) && forall k | 0 <= k < i :: chans[k].channelNo != channelNo
        decreases |chans| - i
      {
        c := c.next;
        i := i + 1;
      }
    }

    /** The channel at place k, if there are so many. */
    method Nth(k: nat) returns (c: Channel?)
      requires Listed()
      ensures c == At(chans, k)
    {
      c := logicalChans;
      var i := 0;
      while c != null && i < k
        invariant 0 <= i <= k && i <= |chans| && c == At(chans, i)
      {
        c := c.next;
        i := i + 1;
      }
    }

    /** Unlinks the first channel with this number. */
    method RemoveLogicalChannel(channelNo: int) returns (found: bool, ghost i: nat)
      requires Listed()
      modifies this, chans`next
      ensures Listed() && old(FirstNo(chans, channelNo, i)) && (found <==> i < |old(chans)|)
      ensures chans == if found then Delete(old(chans), i) else old(chans)
      ensures if i < |old(chans)| then
                && old(chans)[i].channelNo == channelNo && (forall k | 0 <= k < i :: old(chans)[k].channelNo != channelNo)
                && chans == old(chans)[..i] + old(chans)[i + 1..]
              else chans == old(chans) && forall x | x in chans :: x.channelNo != channelNo
    {
      var temp: Channel?, prev: Channel? := logicalChans, null;
      i, found := 0, false;
      while temp != null && temp.channelNo != channelNo
        invariant 0 <= i <= |chans| && temp == At(chans, i) && prev == (if i > 0 then chans[i - 1] else null)
        invariant forall k | 0 <= k < i :: chans[k].channelNo != channelNo
        decreases |chans| - i
      {
        prev := temp;
        temp := temp.next;
        i := i + 1;
      }
      if temp != null {
        Unlink(temp, prev, i);
        hide Chain, Delete;
        chans := Delete(chans, i);
        found := true;
      }
    }

    method Unlink(temp: Channel, prev: Channel?, ghost i: nat)
      requires Listed() && i < |chans| && temp == chans[i] && prev == (if i > 0 then chans[i - 1] else null)
      modifies this`logicalChans, this`noOfLogicalChannels, chans`next
      ensures Represents(Delete(chans, i)) && temp.next == old(temp.next)
    {
      if prev == null {
        logicalChans := temp.next;
      } else {
        prev.next := temp.next;
      }
      noOfLogicalChannels := noOfLogicalChannels - 1;
      ShortChain(chans, i);
    }

    /** Stops the media on the first channel with this number and removes it. */
    method ClearLogicalChannel(channelNo: int) returns (ghost i: nat)
      requires Listed()
      modifies this, chans`next
      ensures Listed() && old(FirstNo(chans, channelNo, i)) && (old(OneEach(chans)) ==> OneEach(chans))
      ensures chans == if i < |old(chans)| then Delete(old(chans), i) else old(chans)
      ensures if i < |old(chans)| then
                && old(chans)[i].channelNo == channelNo && (forall k | 0 <= k < i :: old(chans)[k].channelNo != channelNo)
                && chans == old(chans)[..i] + old(chans)[i + 1..]
              else chans == old(chans) && forall x | x in chans :: x.channelNo != channelNo
    {
      hide Chain, OneEach;
      ghost var s0 := chans;
      var c;
      c, i := FindLogicalChannel(channelNo);
      if c != null {
        var found;
        ghost var j;
        found, j := RemoveLogicalChannel(channelNo);
        assert i == j;
        OneLess(s0, i);
      }
    }

    /** Clears the channels from the head on, each step having taken the next one first. */
    method ClearAllLogicalChannels()
      requires Listed()
      modifies this, chans`next
      ensures Listed() && chans == []
    {
      var temp := logicalChans;
      ghost var i := 0;
      while temp != null
        invariant Listed() && i <= |old(chans)| && chans == old(chans)[i..] && temp == At(old(chans), i)
        decreases |old(chans)| - i
      {
        var prev := temp;
        temp := temp.next;
        ghost var was := chans;
        ghost var k := ClearLogicalChannel(prev.channelNo);
        assert k == 0;
        assert chans == was[1..];
        i := i + 1;
      }
      logicalChans := null;
    }

    /** Marks c established and clears the other channels of its session and direction, walking the
        list that it shortens; each is cleared by its number. */
    method OnLogicalChannelEstablished(c: Channel)
      requires Listed() && c in chans
      modifies this, chans`next, c`state
      ensures Listed() && c in chans && c.state == Established && forall x | x in chans :: x in old(chans)
      ensures chans == Walked([], old(chans), old(Stayers(chans, c)))
      ensures chans == Kept(old(chans), old(Stayers(chans, c))) <==> Aimed(old(chans), old(Stayers(chans, c)))
      ensures forall x | x in old(chans) && x != c :: x.state == old(x.state)
      ensures old(OneEach(chans)) ==> (OneEach(chans) <==> Alone(chans, c))
      ensures (forall i, j | 0 <= i < j < |old(chans)| :: old(chans)[i].channelNo != old(chans)[j].channelNo) ==>
                forall x :: x in chans <==> x in old(chans) && (x == c || x.sessionID != c.sessionID || x.receive != c.receive)
    {
      hide Chain, OneEach, Kept, Walked, Alone;
      ghost var s0 := chans;
      ghost var est := set x | x in s0 && x.state == Established;
      ghost var one := OneEach(s0);
      if one { EstablishedApart(s0, est); }
      c.state := Established;
      ghost var stay := Stayers(s0, c);
      Different();
      WalkEnds(s0, c, stay);
      ClearRivals(c, stay);
      Different();
      if one { AloneIff(chans, c, est); }
    }

    /** A channel's state is assigned without regard to the others: when it is opened for or accepted
        from the remote end. */
    method SetState(c: Channel, state: State)
      requires Listed() && c in chans
      modifies c`state
      ensures Listed() && chans == old(chans) && c.state == state
      ensures old(OneEach(chans)) ==> (OneEach(chans) <==> state != Established || Alone(chans, c))
    {
      hide Chain, OneEach;
      ghost var est := set x | x in chans && x.state == Established;
      if OneEach(chans) { EstablishedApart(chans, est); }
      c.state := state;
      if old(OneEach(chans)) {
        Different();
        AloneIff(chans, c, est);
      }
    }

    /** The remote end acknowledges a channel: it takes over a session number if the channel had none,
        and is established without regard to the others, unless it cannot be started. */
    method OnReceivedOpenLogicalChannelAck(c: Channel, sessionID: int, present: bool, startable: bool) returns (ok: bool)
      requires Listed() && c in chans
      modifies c`state, c`sessionID
      ensures Listed() && chans == old(chans) && ok == startable && c.state == (if startable then Established else old(c.state))
      ensures c.sessionID == if old(c.sessionID) == 0 && present then sessionID else old(c.sessionID)
      ensures old(OneEach(chans)) ==> (OneEach(chans) <==> c.state != Established || Alone(chans, c))
    {
      hide Chain, OneEach, Alone;
      ghost var est := set x | x in chans && x.state == Established;
      if OneEach(chans) { EstablishedApart(chans, est); }
      if c.sessionID == 0 && present { c.sessionID := sessionID; }
      ok := startable;
      if startable { c.state := Established; }
      if old(OneEach(chans)) {
        assert forall x, y | x in est && y in est && x != c && y != c && x != y :: !Rivals(x, y);
        Different();
        AloneIff(chans, c, est);
      }
    }

    lemma Different()
      requires Listed()
      ensures NoDups(chans)
    {}

    /** The walk: the next channel is taken before the current one may go. */
    method ClearRivals(c: Channel, ghost stay: set<Channel>)
      requires Listed() && stay == Stayers(chans, c)
      modifies this, chans`next
      ensures Listed() && chans == Walked([], old(chans), stay)
    {
      hide Chain, Walked, At, NoDups, Stays, Stayers, Cut;
      ghost var s0 := chans;
      var temp := logicalChans;
      ghost var i, a: seq<Channel> := 0, [];
      assert temp == At(s0, 0) && s0[0..] == s0;
      hide Call.Listed;
      while temp != null
        invariant Listed() && i <= |s0| && chans == a + s0[i..] && temp == At(s0, i)
        invariant Walked(a, s0[i..], stay) == Walked([], s0, stay) && forall x | x in a :: x in s0
        invariant stay == Stayers(s0, c)
        decreases |s0| - i
      {
        AtEnd(s0, i);
        StayerIff(s0, c, temp);
        assert forall k | 0 <= k < |chans| :: chans[k] in old(chans);
        temp, a := Sweep(temp, c, a, s0, i, stay);
        i := i + 1;
      }
      AtEnd(s0, i);
      WalkOver(a, s0, stay);
    }

    /** One step of the walk, at place i of the list s as it was, with a left of the places before. */
    method Sweep(temp: Channel, c: Channel, ghost a: seq<Channel>, ghost s: seq<Channel>, ghost i: nat, ghost stay: set<Channel>)
      returns (next: Channel?, ghost b: seq<Channel>)
      requires Listed() && i < |s| && temp == s[i] && chans == a + s[i..] && (temp in stay <==> Stays(temp, c))
      modifies this, chans`next
      ensures Listed() && chans == b + s[i + 1..] && next == At(s, i + 1)
      ensures Walked(b, s[i + 1..], stay) == Walked(a, s[i..], stay) && forall x | x in b :: x in a || x == s[i]
    {
      hide Call.Listed, Walked, At, Cut;
      b := WalkStep(a, s, i, stay);
      next := Visit(temp, c, |a|);
    }

    /** The walk at the channel at place k: it goes if it is a rival. */
    method Visit(temp: Channel, c: Channel, ghost k: nat) returns (next: Channel?)
      requires Listed() && k < |chans| && chans[k] == temp
      modifies this, chans`next
      ensures Listed() && chans == (if Stays(temp, c) then old(chans) else Cut(old(chans), temp.channelNo)) && next == At(old(chans), k + 1)
    {
      hide Chain, Delete, At, Cut;
      NextInList(k);
      next := temp.next;
      if temp.channelNo != c.channelNo && temp.sessionID == c.sessionID && temp.receive == c.receive {
        ghost var was := chans;
        ghost var j := ClearLogicalChannel(temp.channelNo);
        CutAt(was, temp.channelNo, j);
      }
    }

    lemma NextInList(k: nat)
      requires Listed() && k < |chans|
      ensures chans[k].next == At(chans, k + 1)
    {}
  }

  lemma StayerIff(s: seq<Channel>, c: Channel, x: Channel)
    requires x in s
    ensures x in Stayers(s, c) <==> Stays(x, c)
  {}

  /** One more channel looked at: what the walk has left then. */
  lemma WalkStep(a: seq<Channel>, s: seq<Channel>, i: nat, stay: set<Channel>) returns (b: seq<Channel>)
    requires i < |s|
    ensures Walked(b, s[i + 1..], stay) == Walked(a, s[i..], stay) && forall x | x in b :: x in a || x == s[i]
    ensures b + s[i + 1..] == if s[i] in stay then a + s[i..] else Cut(a + s[i..], s[i].channelNo)
    ensures At(a + s[i..], |a| + 1) == At(s, i + 1) && (a + s[i..])[|a|] == s[i]
  {
    var x := s[i];
    assert s[i..][0] == x && s[i..][1..] == s[i + 1..];
    assert a + s[i..] == a + [x] + s[i + 1..];
    b := if x in stay then a + [x] else Cut(a + [x], x.channelNo);
    assert x in a + [x];
    CutFront(a + [x], s[i + 1..], x.channelNo);
    forall y | y in b ensures y in a || y == x { CutHas(a + [x], x.channelNo, y); }
  }

  lemma WalkOver(a: seq<Channel>, s: seq<Channel>, stay: set<Channel>)
    ensures a + s[|s|..] == a == Walked(a, s[|s|..], stay)
  {}

  lemma WalkAll(s: seq<Channel>, stay: set<Channel>)
    requires NoDups(s)
    ensures Walked([], s, stay) == Kept(s, stay) <==> Aimed(s, stay)
  {
    hide Walked;
    assert s[..0] == [] && s[0..] == s;
    WalkedKept(s, 0, stay);
  }

  /** What the whole walk leaves. */
  lemma WalkEnds(s: seq<Channel>, c: Channel, stay: set<Channel>)
    requires NoDups(s) && c in s && stay == Stayers(s, c)
    ensures Walked([], s, stay) == Kept(s, stay) <==> Aimed(s, stay)
    ensures c in Walked([], s, stay) && forall x | x in Walked([], s, stay) :: x in s
    ensures Numbered(s) ==>
              forall x :: x in Walked([], s, stay) <==> x in s && (x == c || x.sessionID != c.sessionID || x.receive != c.receive)
  {
    hide Walked;
    WalkAll(s, stay);
    WalkedHas([], s, stay, c);
    forall x | x in Walked([], s, stay) ensures x in s { WalkedHas([], s, stay, x); }
    if Numbered(s) { NoRivals(s, c); }
  }

  /** est are the channels established before c was: they keep apart, so that only c matters. */
  lemma AloneIff(s: seq<Channel>, c: Channel, est: set<Channel>)
    requires c in s && forall x | x in s && x != c :: x.state == Established <==> x in est
    requires forall x, y | x in est && y in est && x != c && y != c && x != y :: !Rivals(x, y)
    requires NoDups(s)
    ensures OneEach(s) <==> c.state != Established || Alone(s, c)
  {
    if OneEach(s) && c.state == Established {
      forall x | x in s && x != c && x.state == Established ensures !Rivals(x, c) {
        var i :| 0 <= i < |s| && s[i] == x;
        var j :| 0 <= j < |s| && s[j] == c;
        assert if i < j then !Rivals(s[i], s[j]) else !Rivals(s[j], s[i]);
      }
    }
  }

  lemma EstablishedApart(s: seq<Channel>, est: set<Channel>)
    requires OneEach(s) && est == set x | x in s && x.state == Established
    ensures forall x, y | x in est && y in est && x != y :: !Rivals(x, y)
  {
    forall x, y | x in est && y in est && x != y ensures !Rivals(x, y) {
      var i :| 0 <= i < |s| && s[i] == x;
      var j :| 0 <= j < |s| && s[j] == y;
      assert if i < j then !Rivals(s[i], s[j]) else !Rivals(s[j], s[i]);
    }
  }

  lemma IdleJoins(s: seq<Channel>, c: Channel)
    requires OneEach(s) && c.state == Idle
    ensures OneEach(s + [c])
  {}

  lemma OneLess(s: seq<Channel>, i: nat)
    requires i < |s|
    ensures OneEach(s) ==> OneEach(Delete(s, i))
  {
    var t := Delete(s, i);
    forall k | 0 <= k < |t| ensures t[k] == s[if k < i then k else k + 1] {}
  }

  lemma AtEnd(s: seq<Channel>, i: nat)
    requires i <= |s|
    ensures (At(s, i) == null <==> i == |s|) && (i < |s| ==> At(s, i) == s[i])
  {}

  lemma NoRivals(s: seq<Channel>, c: Channel)
    requires Numbered(s) && c in s
    ensures forall x :: x in Kept(s, Stayers(s, c)) <==> x in s && (x == c || x.sessionID != c.sessionID || x.receive != c.receive)
  {
    forall x ensures x in Kept(s, Stayers(s, c)) <==> x in s && (x == c || x.sessionID != c.sessionID || x.receive != c.receive) {
      KeptStays(s, Stayers(s, c), x);
    }
  }

  /** A chain out of which the channel at place i has been linked. */
  lemma ShortChain(s: seq<Channel>, i: nat)
    requires i < |s| && NoDups(s)
    requires forall k | 0 <= k < |s| && k != i :: s[k].next == if k + 1 == i then At(s, i + 1) else At(s, k + 1)
    ensures Chain(Delete(s, i)) && |Delete(s, i)| == |s| - 1 && At(Delete(s, i), 0) == (if i == 0 then At(s, 1) else At(s, 0))
  {
    hide Delete;
    var t := Delete(s, i);
    forall k | 0 <= k < |t| ensures t[k].next == At(t, k + 1) {
      if k < i { assert t[k] == s[k]; } else { assert t[k] == s[k + 1]; }
    }
    forall k | 0 <= k < |t| ensures t[k] == s[if k < i then k else k + 1] {}
  }

  // ---------- runs ----------

  /** Channels are named by their place in the list where the caller has a pointer to one, and by
      their number where a message has that. */
  datatype Event =
    | Open(channelNo: int, sessionID: int, receive: bool)
    | Establish(k: nat)
    | Assign(k: nat, state: State)
    | Ack(channelNo: int, sessionID: int, present: bool, startable: bool)
    | Clear(channelNo: int)
    | ClearAll

  /** A channel as it was at some moment. */
  datatype Rec = Rec(chan: Channel, sessionID: int, state: State)

  ghost function Recs(s: seq<Channel>): (r: seq<Rec>)
    reads s
    ensures |r| == |s| && forall k | 0 <= k < |s| :: r[k] == Rec(s[k], s[k].sessionID, s[k].state)
  {
    seq(|s|, k requires 0 <= k < |s| reads s => Rec(s[k], s[k].sessionID, s[k].state))
  }

  ghost function Now(call: Call): seq<Rec>
    reads call, call.chans
  {
    Recs(call.chans)
  }

  function Chans(s: seq<Rec>): (t: seq<Channel>)
    ensures |t| == |s| && forall k | 0 <= k < |s| :: t[k] == s[k].chan
  {
    seq(|s|, k requires 0 <= k < |s| => s[k].chan)
  }

  predicate Alike(a: Rec, b: Rec) {
    a.sessionID == b.sessionID && a.chan.receive == b.chan.receive
  }

  ghost predicate OneEachIn(s: seq<Rec>) {
    forall i, j | 0 <= i < j < |s| && s[i].state == Established && s[j].state == Established :: !Alike(s[i], s[j])
  }

  ghost function StayersOf(s: seq<Rec>, k: nat): set<Channel>
    requires k < |s|
  {
    set r | r in s && (r.chan.channelNo == s[k].chan.channelNo || !Alike(r, s[k])) :: r.chan
  }

  /** What an event brings about. */
  ghost predicate Moves(e: Event, s: seq<Rec>, t: seq<Rec>) {
    match e
    case Open(n, id, receive) =>
      && |t| == |s| + 1 && t[..|s|] == s
      && var c := t[|s|].chan;
         c !in Chans(s) && c.channelNo == n && c.receive == receive && t[|s|] == Rec(c, id, Idle)
    case Establish(k) =>
      if k >= |s| then t == s
      else Chans(t) == Walked([], Chans(s), StayersOf(s, k)) && forall r <- t :: r in s[k := s[k].(state := Established)]
    case Assign(k, state) => t == if k < |s| then s[k := s[k].(state := state)] else s
    case Ack(n, id, present, startable) =>
      exists i: nat :: FirstNo(Chans(s), n, i) && t == if i < |s| then s[i := Acked(s[i], id, present, startable)] else s
    case Clear(n) => exists i: nat :: FirstNo(Chans(s), n, i) && t == if i < |s| then Delete(s, i) else s
    case ClearAll => t == []
  }

  ghost function Acked(r: Rec, id: int, present: bool, startable: bool): Rec {
    Rec(r.chan, if r.sessionID == 0 && present then id else r.sessionID, if startable then Established else r.state)
  }

  /** The channel whose state or session the event sets. */
  ghost predicate Sets(e: Event, s: seq<Rec>, c: Channel) {
    match e
    case Establish(k) => k < |s| && s[k].chan == c
    case Assign(k, _) => k < |s| && s[k].chan == c
    case Ack(n, _, _, _) => exists i: nat :: i < |s| && FirstNo(Chans(s), n, i) && s[i].chan == c
    case _ => false
  }

  /** The event leaves the channel it sets established beside another of its session and direction. */
  ghost predicate Past(e: Event, s: seq<Rec>, t: seq<Rec>) {
    exists i, j :: 0 <= i < |t| && 0 <= j < |t| && i != j && Sets(e, s, t[i].chan)
      && t[i].state == Established && t[j].state == Established && Alike(t[i], t[j])
  }

  /** Over every run each event does what its handler is for and no more; and there is at most one
      established channel for a session and direction exactly until an event establishes one past
      another, which an establishment does only if two channels have one number. */
  method Run(events: seq<Event>) returns (call: Call, ghost past: seq<seq<Rec>>)
    ensures fresh(call) && call.Listed() && call.noOfLogicalChannels == |call.chans|
    ensures |past| == |events| + 1 && past[0] == [] && past[|events|] == Now(call)
    ensures forall k | 0 <= k < |events| :: Moves(events[k], past[k], past[k + 1])
    ensures forall k | 0 <= k < |events| :: OneEachIn(past[k]) ==> (OneEachIn(past[k + 1]) <==> !Past(events[k], past[k], past[k + 1]))
    ensures forall k | 0 <= k < |events| && events[k].Establish? && Numbered(Chans(past[k])) :: !Past(events[k], past[k], past[k + 1])
    ensures forall k | 0 <= k <= |events| && (forall j | 0 <= j < k :: !Past(events[j], past[j], past[j + 1])) :: OneEachIn(past[k])
  {
    hide Chain, OneEach, OneEachIn, Moves, Past, Numbered, Chans, NoDups;
    call := new Call();
    past := [Now(call)];
    Separate(call);
    for k := 0 to |events|
      invariant fresh(call) && call.Listed() && forall i | 0 <= i < |call.chans| :: fresh(call.chans[i])
      invariant |past| == k + 1 && past[0] == [] && past[k] == Now(call)
      invariant forall j | 0 <= j < k :: Moves(events[j], past[j], past[j + 1])
      invariant forall j | 0 <= j <= k :: NoDups(Chans(past[j]))
    {
      Step(call, events[k]);
      Separate(call);
      past := past + [Now(call)];
    }
    forall k | 0 <= k < |events|
      ensures OneEachIn(past[k]) ==> (OneEachIn(past[k + 1]) <==> !Past(events[k], past[k], past[k + 1]))
      ensures events[k].Establish? && Numbered(Chans(past[k])) ==> !Past(events[k], past[k], past[k + 1])
    {
      MovesKeep(events[k], past[k], past[k + 1]);
    }
    forall k | 0 <= k <= |events| && (forall j | 0 <= j < k :: !Past(events[j], past[j], past[j + 1])) ensures OneEachIn(past[k]) {
      ApartUntil(events, past, k);
    }
  }

  lemma {:induction false} ApartUntil(events: seq<Event>, past: seq<seq<Rec>>, k: nat)
    requires |past| == |events| + 1 && past[0] == [] && k <= |events|
    requires forall j | 0 <= j < k :: OneEachIn(past[j]) ==> (OneEachIn(past[j + 1]) <==> !Past(events[j], past[j], past[j + 1]))
    requires forall j | 0 <= j < k :: !Past(events[j], past[j], past[j + 1])
    ensures OneEachIn(past[k])
  {
    if k > 0 {
      ApartUntil(events, past, k - 1);
      hide OneEachIn, Past;
      assert !Past(events[k - 1], past[k - 1], past[k - 1 + 1]);
    }
  }

  lemma Separate(call: Call)
    requires call.Listed()
    ensures NoDups(Chans(Now(call)))
  {
    assert Chans(Now(call)) == call.chans;
  }

  /** What an event does to the property that each session and direction has one established channel
      at most. */
  lemma MovesKeep(e: Event, s: seq<Rec>, t: seq<Rec>)
    requires Moves(e, s, t) && NoDups(Chans(s)) && NoDups(Chans(t))
    ensures OneEachIn(s) ==> (OneEachIn(t) <==> !Past(e, s, t))
    ensures e.Establish? && Numbered(Chans(s)) ==> !Past(e, s, t)
  {
    hide OneEachIn, Past, Numbered, NoDups;
    OthersStay(e, s, t);
    if OneEachIn(s) { ApartOrPast(e, s, t); }
    if e.Establish? && Numbered(Chans(s)) && e.k < |s| { EstablishedAlone(e.k, s, t); }
    if e.Establish? && e.k >= |s| { NothingSet(e, s, t); }
  }

  lemma NothingSet(e: Event, s: seq<Rec>, t: seq<Rec>)
    requires e.Establish? && e.k >= |s|
    ensures !Past(e, s, t)
  {}

  /** A channel the event does not set, and that is established, was so before. */
  lemma OthersStay(e: Event, s: seq<Rec>, t: seq<Rec>)
    requires Moves(e, s, t)
    ensures forall r | r in t && r.state == Established :: Sets(e, s, r.chan) || r in s
  {
    hide Walked;
    match e
    case Clear(n) => {
      var i: nat :| FirstNo(Chans(s), n, i) && t == if i < |s| then Delete(s, i) else s;
    }
    case _ =>
  }

  lemma ApartOrPast(e: Event, s: seq<Rec>, t: seq<Rec>)
    requires OneEachIn(s) && NoDups(Chans(t)) && forall r | r in t && r.state == Established :: Sets(e, s, r.chan) || r in s
    ensures OneEachIn(t) <==> !Past(e, s, t)
  {
    hide Sets;
    if !Past(e, s, t) {
      forall i, j | 0 <= i < j < |t| && t[i].state == Established && t[j].state == Established ensures !Alike(t[i], t[j]) {
        assert t[i] in t && t[j] in t && Chans(t)[i] != Chans(t)[j];
      }
    }
  }

  lemma EstablishedAlone(k: nat, s: seq<Rec>, t: seq<Rec>)
    requires k < |s| && Moves(Establish(k), s, t) && NoDups(Chans(s)) && NoDups(Chans(t)) && Numbered(Chans(s))
    ensures !Past(Establish(k), s, t)
  {
    hide Walked, Kept;
    var stay := StayersOf(s, k);
    WalkAll(Chans(s), stay);
    forall i, j | 0 <= i < |t| && 0 <= j < |t| && i != j && t[i].chan == s[k].chan ensures !Alike(t[i], t[j]) {
      assert Chans(t)[j] == t[j].chan && Chans(t)[i] == t[i].chan;
      KeptStays(Chans(s), stay, t[j].chan);
      var r :| r in s && (r.chan.channelNo == s[k].chan.channelNo || !Alike(r, s[k])) && r.chan == t[j].chan;
      var m :| 0 <= m < |s| && s[m] == r;
      assert Chans(s)[m] == r.chan && Chans(s)[k] == s[k].chan;
      assert t[i] in t && t[j] in t;
      UpdatedAt(s, k, t[i]);
      UpdatedAt(s, k, t[j]);
    }
  }

  lemma UpdatedAt(s: seq<Rec>, k: nat, r: Rec)
    requires k < |s| && r in s[k := s[k].(state := Established)] && NoDups(Chans(s))
    ensures if r.chan == s[k].chan then r.sessionID == s[k].sessionID else r in s
    ensures forall q | q in s && q.chan == r.chan :: q.sessionID == r.sessionID
  {
    var m :| 0 <= m < |s| && s[k := s[k].(state := Established)][m] == r;
    assert Chans(s)[m] == r.chan && Chans(s)[k] == s[k].chan;
    forall q | q in s && q.chan == r.chan ensures q.sessionID == r.sessionID {
      var n :| 0 <= n < |s| && s[n] == q;
      assert Chans(s)[n] == q.chan;
    }
  }

  /** One event. */
  method Step(call: Call, e: Event)
    requires call.Listed()
    modifies call, call.chans
    ensures call.Listed() && forall i | 0 <= i < |call.chans| :: call.chans[i] in old(call.chans) || fresh(call.chans[i])
    ensures Moves(e, old(Now(call)), Now(call))
  {
    hide Chain, OneEach, Kept, Alone, Walked;
    ghost var s := Now(call);
    assert Chans(s) == call.chans;
    match e
    case Open(n, id, receive) =>
      var c := call.AddNewLogicalChannel(n, id, receive);
      assert c !in old(call.chans);
    case Establish(k) => StepEstablish(call, k);
    case Assign(k, state) => StepAssign(call, k, state);
    case Ack(n, id, present, startable) => StepAck(call, n, id, present, startable);
    case Clear(n) =>
      ghost var i := call.ClearLogicalChannel(n);
      assert Now(call) == if i < |s| then Delete(s, i) else s;
    case ClearAll => call.ClearAllLogicalChannels();
  }

  method StepAssign(call: Call, k: nat, state: State)
    requires call.Listed()
    modifies call.chans
    ensures call.Listed() && call.chans == old(call.chans)
    ensures Moves(Assign(k, state), old(Now(call)), Now(call))
  {
    hide Chain, OneEach, Alone;
    ghost var s := Now(call);
    var c := call.Nth(k);
    if c != null {
      call.Different();
      call.SetState(c, state);
    }
    assert Now(call) == if k < |s| then s[k := s[k].(state := state)] else s;
  }

  method StepAck(call: Call, n: int, id: int, present: bool, startable: bool)
    requires call.Listed()
    modifies call.chans
    ensures call.Listed() && call.chans == old(call.chans)
    ensures Moves(Ack(n, id, present, startable), old(Now(call)), Now(call))
  {
    hide Chain, OneEach, Alone;
    ghost var s := Now(call);
    assert Chans(s) == call.chans;
    var c;
    ghost var i;
    c, i := call.FindLogicalChannel(n);
    if c != null {
      call.Different();
      var ok := call.OnReceivedOpenLogicalChannelAck(c, id, present, startable);
    }
    assert Now(call) == if i < |s| then s[i := Acked(s[i], id, present, startable)] else s;
  }

  method StepEstablish(call: Call, k: nat)
    requires call.Listed()
    modifies call, call.chans
    ensures call.Listed() && forall x | x in call.chans :: x in old(call.chans)
    ensures Moves(Establish(k), old(Now(call)), Now(call))
  {
    hide Chain, OneEach, Kept, Alone, Walked, Aimed, Numbered, Stayers, StayersOf;
    ghost var s := Now(call);
    assert Chans(s) == call.chans;
    var c := call.Nth(k);
    if c != null {
      SameStayers(call.chans, k);
      call.Different();
      call.OnLogicalChannelEstablished(c);
      assert Chans(Now(call)) == call.chans;
      hide Chans;
      ghost var (t, u) := (Now(call), s[k := s[k].(state := Established)]);
      forall q | 0 <= q < |t| ensures t[q] in u {
        assert call.chans[q] in call.chans;
        var m :| 0 <= m < |old(call.chans)| && old(call.chans)[m] == call.chans[q];
        assert call.chans[q] == c <==> m == k;
        assert u[m] == t[q];
      }
    }
  }

  lemma SameStayers(s: seq<Channel>, k: nat)
    requires k < |s|
    ensures StayersOf(Recs(s), k) == Stayers(s, s[k])
  {
    forall x | x in Stayers(s, s[k]) ensures x in StayersOf(Recs(s), k) {
      var i :| 0 <= i < |s| && s[i] == x;
      assert Recs(s)[i] in Recs(s);
    }
  }

  /** Two channels opened to transmit in one session, each acknowledged: both are established. */
  method TwoEstablished() returns (call: Call)
    ensures call.Listed() && !OneEach(call.chans)
  {
    hide Chain, Call.Listed, Alone, NoDups, Numbered;
    call := new Call();
    var a := call.AddNewLogicalChannel(1, 1, false);
    var b := call.AddNewLogicalChannel(2, 1, false);
    var first := call.OnReceivedOpenLogicalChannelAck(a, 0, false, true);
    var second := call.OnReceivedOpenLogicalChannelAck(b, 0, false, true);
    assert call.chans == [a, b];
    assert Rivals(call.chans[0], call.chans[1]);
  }

  /** A channel of the remote end with the number of one of this end's: when another of this end's is
      established, the remote end's is cleared, and the rival stays. */
  method WrongOneCleared() returns (call: Call, a: Channel, b: Channel, c: Channel)
    ensures call.Listed() && a !in call.chans && b in call.chans && c in call.chans
    ensures c.state == Established && Rivals(b, c) && !Rivals(a, c) && b != c
  {
    hide Chain, OneEach, Walked, Kept, Cut, Call.Listed, Alone, NoDups, Numbered, Aimed;
    call := new Call();
    a := call.AddNewLogicalChannel(1, 1, true);
    b := call.AddNewLogicalChannel(1, 1, false);
    c := call.AddNewLogicalChannel(2, 1, false);
    assert call.chans == [a, b, c];
    WrongWalk(a, b, c, Stayers(call.chans, c));
    call.OnLogicalChannelEstablished(c);
  }

  lemma WrongWalk(a: Channel, b: Channel, c: Channel, stay: set<Channel>)
    requires a.channelNo == b.channelNo && a in stay && b !in stay && c in stay
    ensures Walked([], [a, b, c], stay) == [b, c]
  {
    assert [a, b, c][1..] == [b, c] && [b, c][1..] == [c] && [] + [a] == [a] && [a] + [b] == [a, b];
    assert Cut([a, b], b.channelNo) == [b];
    assert [b] + [c] == [b, c];
    assert Walked([b], [c], stay) == Walked([b, c], [], stay);
  }
}
