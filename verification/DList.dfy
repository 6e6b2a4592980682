/** The doubly linked list. Its ghost spine is the sequence of nodes it stands for; every operation
    is proved to do to the spine what its name says. */
module DList {
  import opened Wrappers

  class Node<T> {
    var data: T
    var next: Node?<T>
    var prev: Node?<T>

    constructor (data: T)
      ensures this.data == data && next == null && prev == null
    {
      this.data, next, prev := data, null, null;
    }
  }

  ghost predicate Spine<T(!new)>(s: seq<Node<T>>)
    reads s
  {
    && Distinct(s)
    && (forall i | 0 <= i < |s| :: s[i].next == After(s, i))
    && (forall i | 0 <= i < |s| :: s[i].prev == Before(s, i))
  }

  ghost function After<T(!new)>(s: seq<Node<T>>, i: int): Node?<T>
    requires -1 <= i < |s|
  {
    if i + 1 < |s| then s[i + 1] else null
  }

  ghost function Before<T(!new)>(s: seq<Node<T>>, i: int): Node?<T>
    requires 0 <= i <= |s|
  {
    if i > 0 then s[i - 1] else null
  }

  ghost function Data<T(!new)>(s: seq<Node<T>>): (d: seq<T>)
    reads s
    ensures |d| == |s| && forall i | 0 <= i < |s| :: d[i] == s[i].data
  {
    if s == [] then [] else Data(s[..|s| - 1]) + [s[|s| - 1].data]
  }

  // ---------- one link changed on either side ----------

  function Insert<A>(s: seq<A>, i: nat, x: A): (t: seq<A>)
    requires i <= |s|
    ensures |t| == |s| + 1 && t[i] == x
    ensures forall k | 0 <= k < i :: t[k] == s[k]
    ensures forall k | i < k < |t| :: t[k] == s[k - 1]
  {
    s[..i] + [x] + s[i..]
  }

  function Delete<A>(s: seq<A>, i: nat): (t: seq<A>)
    requires i < |s|
    ensures |t| == |s| - 1
    ensures forall k | 0 <= k < i :: t[k] == s[k]
    ensures forall k | i <= k < |t| :: t[k] == s[k + 1]
  {
    s[..i] + s[i + 1..]
  }

  /** Taking out what was just put in leaves the sequence as it was, and the other way round. */
  lemma InsertDelete<A>(s: seq<A>, i: nat, x: A)
    ensures i <= |s| ==> Delete(Insert(s, i, x), i) == s
    ensures i < |s| ==> Insert(Delete(s, i), i, s[i]) == s
  {
    if i <= |s| { assert Delete(Insert(s, i, x), i) == s; }
    if i < |s| { assert Insert(Delete(s, i), i, s[i]) == s; }
  }

  ghost predicate Distinct<T(!new)>(s: seq<Node<T>>) {
    forall i, j | 0 <= i < j < |s| :: s[i] != s[j]
  }

  /** A spine into which n has been linked at place i. */
  lemma LinkedIn<T(!new)>(s: seq<Node<T>>, i: nat, n: Node<T>)
    requires i <= |s| && Distinct(s) && n !in s
    requires n.next == After(s, i - 1) && n.prev == Before(s, i)
    requires forall k | 0 <= k < |s| :: s[k].next == if k + 1 == i then n else After(s, k)
    requires forall k | 0 <= k < |s| :: s[k].prev == if k == i then n else Before(s, k)
    ensures Spine(Insert(s, i, n))
  {
    hide Insert;
    var t := Insert(s, i, n);
    forall k | 0 <= k < |t| ensures t[k].next == After(t, k) {
      if k == i { } else if k + 1 == i { } else if k < i { assert t[k] == s[k]; } else { assert t[k] == s[k - 1]; }
    }
    forall k | 0 <= k < |t| ensures t[k].prev == Before(t, k) {
      if k == i { } else if k == i + 1 { } else if k < i { assert t[k] == s[k]; } else { assert t[k] == s[k - 1]; }
    }
  }

  lemma DataIn<T(!new)>(s: seq<Node<T>>, d: seq<T>, i: nat, n: Node<T>)
    requires i <= |s| == |d| && forall k | 0 <= k < |s| :: s[k].data == d[k]
    ensures Data(Insert(s, i, n)) == Insert(d, i, n.data)
  {
    hide Insert;
    var t, e := Insert(s, i, n), Insert(d, i, n.data);
    forall k | 0 <= k < |t| ensures t[k].data == e[k] {
      if k == i { } else if k < i { assert t[k] == s[k] && e[k] == d[k]; } else { assert t[k] == s[k - 1] && e[k] == d[k - 1]; }
    }
  }

  /** A spine out of which the node at place i has been linked. */
  lemma LinkedOut<T(!new)>(s: seq<Node<T>>, i: nat)
    requires i < |s| && Distinct(s)
    requires forall k | 0 <= k < |s| && k != i :: s[k].next == if k + 1 == i then After(s, i) else After(s, k)
    requires forall k | 0 <= k < |s| && k != i :: s[k].prev == if k == i + 1 then Before(s, i) else Before(s, k)
    ensures Spine(Delete(s, i))
  {
    hide Delete;
    var t := Delete(s, i);
    forall k | 0 <= k < |t| ensures t[k].next == After(t, k) && t[k].prev == Before(t, k) {
      if k < i { assert t[k] == s[k]; } else { assert t[k] == s[k + 1]; }
    }
  }

  lemma DataOut<T(!new)>(s: seq<Node<T>>, d: seq<T>, i: nat)
    requires i < |s| == |d| && forall k | 0 <= k < |s| :: s[k].data == d[k]
    ensures Data(Delete(s, i)) == Delete(d, i)
  {
    hide Delete;
    var t, e := Delete(s, i), Delete(d, i);
    forall k | 0 <= k < |t| ensures t[k].data == e[k] {
      if k < i { assert t[k] == s[k] && e[k] == d[k]; } else { assert t[k] == s[k + 1] && e[k] == d[k + 1]; }
    }
  }

  lemma Neighbours<T(!new)>(s: seq<Node<T>>, i: nat)
    requires i < |s|
    ensures Before(s, i) == (if i > 0 then s[i - 1] else null) && After(s, i) == (if i + 1 < |s| then s[i + 1] else null)
    ensures After(s, -1) == s[0] && Before(s, |s|) == s[|s| - 1]
  {}

  lemma DeleteEnds<T(!new)>(s: seq<Node<T>>, i: nat)
    requires i < |s|
    ensures After(Delete(s, i), -1) == if i == 0 then After(s, 0) else After(s, -1)
    ensures Before(Delete(s, i), |s| - 1) == if i == |s| - 1 then Before(s, i) else Before(s, |s|)
  {}

  lemma InsertEnds<T(!new)>(s: seq<Node<T>>, i: nat, n: Node<T>)
    requires i <= |s|
    ensures After(Insert(s, i, n), -1) == if i == 0 then n else After(s, -1)
    ensures Before(Insert(s, i, n), |s| + 1) == if i == |s| then n else Before(s, |s|)
  {}

  class List<T(!new, ==)> {
    var count: nat
    var head: Node?<T>
    var tail: Node?<T>
    ghost var spine: seq<Node<T>>

    ghost predicate Valid()
      reads this, spine
    {
      Represents(spine)
    }

    ghost predicate Represents(s: seq<Node<T>>)
      reads this`count, this`head, this`tail, s
    {
      Spine(s) && count == |s| && head == After(s, -1) && tail == Before(s, |s|)
    }

    /** What the list holds. */
    ghost function Contents(): seq<T>
      reads this, spine
    {
      Data(spine)
    }

    constructor ()
      ensures Valid() && spine == []
    {
      count, head, tail, spine := 0, null, null, [];
    }

    /** A node put at the end. */
    method AppendNode(n: Node<T>)
      requires Valid() && n !in spine
      modifies this, n, spine
      ensures Valid() && spine == Insert(old(spine), |old(spine)|, n)
      ensures Contents() == Insert(old(Contents()), |old(spine)|, old(n.data))
    {
      hide Spine, Data, Insert, List.Represents;
      LinkLast(n);
      DataIn(spine, old(Contents()), |spine|, n);
      spine := Insert(spine, |spine|, n);
    }

    method LinkLast(n: Node<T>)
      requires Valid() && n !in spine
      modifies this`count, this`head, this`tail, n`next, n`prev, spine`next, spine`prev
      ensures Represents(Insert(spine, |spine|, n))
    {
      n.next := null;
      if tail != null {
        tail.next := n;
        n.prev := tail;
      }
      if head == null {
        head := n;
        n.prev := null;
      }
      tail := n;
      count := count + 1;
      LinkedIn(spine, |spine|, n);
    }

    method Append(data: T) returns (n: Node<T>)
      requires Valid()
      modifies this, spine
      ensures Valid() && fresh(n) && spine == Insert(old(spine), |old(spine)|, n)
      ensures Contents() == Insert(old(Contents()), |old(spine)|, data)
    {
      n := new Node(data);
      AppendNode(n);
    }

    /** A node in the list unlinked from its neighbours. */
    method Remove(n: Node<T>, ghost i: nat)
      requires Valid() && i < |spine| && spine[i] == n
      modifies this, spine
      ensures Valid() && spine == Delete(old(spine), i) && Contents() == Delete(old(Contents()), i)
      ensures n.data == old(n.data)
    {
      hide Spine, Data, Delete, List.Represents;
      Unlink(n, i);
      DataOut(spine, old(Contents()), i);
      spine := Delete(spine, i);
    }

    method Unlink(n: Node<T>, ghost i: nat)
      requires Valid() && i < |spine| && spine[i] == n
      modifies this`count, this`head, this`tail, spine`next, spine`prev
      ensures Represents(Delete(spine, i))
    {
      hide After, Before, Delete;
      Neighbours(spine, i);
      DeleteEnds(spine, i);
      if n.next != null {
        n.next.prev := n.prev;
      } else {
        tail := n.prev;
      }
      if n.prev != null {
        n.prev.next := n.next;
      } else {
        head := n.next;
      }
      count := count - 1;
      LinkedOut(spine, i);
    }

    /** Removes the first node, if any, and returns what it held. */
    method DeleteHead() returns (data: Option<T>)
      requires Valid()
      modifies this, spine
      ensures Valid()
      ensures if old(spine) == [] then data == None && spine == []
              else data == Some(old(Contents())[0]) && Contents() == old(Contents())[1..] && spine == old(spine)[1..]
    {
      data := None;
      if head != null {
        data := Some(head.data);
        Remove(head, 0);
      }
    }

    /** The node at a place counted from 0; a negative index finds the head. */
    method FindByIndex(index: int) returns (n: Node?<T>)
      requires Valid()
      ensures n == if index >= |spine| then null else if index < 0 then After(spine, -1) else spine[index]
    {
      if index >= count { return null; }
      n := head;
      var i := 0;
      while i < index && n != null
        invariant 0 <= i && (i <= index || i == 0) && (0 <= index ==> n == spine[i])
        invariant index < 0 ==> n == head
      {
        n := n.next;
        i := i + 1;
      }
    }

    /** An insertion is undone by removing the new node. */
    method InsertUndone(node: Node?<T>, data: T, ghost i: nat)
      requires Valid() && i <= |spine| && node == After(spine, i - 1)
      modifies this, spine
      ensures Valid() && spine == old(spine) && Contents() == old(Contents())
    {
      hide Spine, Data, Insert, Delete, List.Represents, After, Before;
      ghost var (s, d) := (spine, Contents());
      var n := InsertBefore(node, data, i);
      Remove(n, i);
      InsertDelete(s, i, n);
      InsertDelete(d, i, data);
    }

    /** The first node that holds data, if any does. */
    method Find(data: T) returns (n: Node?<T>, ghost i: nat)
      requires Valid()
      ensures n == null ==> data !in Contents()
      ensures n != null ==> i < |spine| && spine[i] == n && Contents()[i] == data && data !in Contents()[..i]
    {
      n, i := head, 0;
      while n != null && n.data != data
        invariant i <= |spine| && n == After(spine, i - 1)
        invariant forall j | 0 <= j < i :: Contents()[j] != data
        decreases |spine| - i
      {
        n := n.next;
        i := i + 1;
      }
    }

    /** Removes the first node that holds data, if any does. */
    method FindAndRemove(data: T) returns (ghost i: nat)
      requires Valid()
      modifies this, spine
      ensures Valid()
      ensures if data in old(Contents()) then
                && i < |old(spine)| && old(Contents())[i] == data && data !in old(Contents())[..i]
                && spine == Delete(old(spine), i) && Contents() == Delete(old(Contents()), i)
              else spine == old(spine) && Contents() == old(Contents())
    {
      var n;
      n, i := Find(data);
      if n != null {
        Remove(n, i);
      }
    }

    /** A new node before a given one, or at the end when none is given. */
    method InsertBefore(node: Node?<T>, data: T, ghost i: nat) returns (n: Node<T>)
      requires Valid() && i <= |spine| && node == After(spine, i - 1)
      modifies this, spine
      ensures Valid() && fresh(n) && spine == Insert(old(spine), i, n) && Contents() == Insert(old(Contents()), i, data)
    {
      hide Spine, Data, Insert, List.Represents, After, Before;
      n := new Node(data);
      LinkBeforeOrEnd(node, n, i);
      DataIn(spine, old(Contents()), i, n);
      spine := Insert(spine, i, n);
    }

    method LinkBeforeOrEnd(node: Node?<T>, n: Node<T>, ghost i: nat)
      requires Valid() && n !in spine && i <= |spine| && node == After(spine, i - 1)
      modifies this`count, this`head, this`tail, n`next, n`prev, spine`next, spine`prev
      ensures Represents(Insert(spine, i, n))
    {
      if i < |spine| { Neighbours(spine, i); }
      if i > 0 { Neighbours(spine, i - 1); }
      if node == null {
        LinkLast(n);
      } else if node == head {
        LinkFirst(n);
      } else {
        LinkBefore(node, n, i);
      }
    }

    method LinkFirst(n: Node<T>)
      requires Valid() && n !in spine
      modifies this`count, this`head, this`tail, n`next, n`prev, spine`next, spine`prev
      ensures Represents(Insert(spine, 0, n))
    {
      InsertEnds(spine, 0, n);
      if |spine| > 0 { Neighbours(spine, 0); }
      assert Before(spine, 0) == null && (head == null <==> spine == []);
      hide Insert, After, Before;
      n.next := head;
      n.prev := null;
      if head != null { head.prev := n; }
      if tail == null { tail := n; }
      head := n;
      count := count + 1;
      LinkedIn(spine, 0, n);
    }

    method LinkBefore(node: Node<T>, n: Node<T>, ghost i: nat)
      requires Valid() && n !in spine && 0 < i < |spine| && spine[i] == node
      modifies this`count, n`next, n`prev, spine`next, spine`prev
      ensures Represents(Insert(spine, i, n))
    {
      hide After, Before, Insert;
      Neighbours(spine, i);
      InsertEnds(spine, i, n);
      assert After(spine, i - 1) == spine[i] && Before(spine, i) == spine[i - 1] by { Neighbours(spine, i); Neighbours(spine, i - 1); }
      n.next := node;
      n.prev := node.prev;
      node.prev := n;
      n.prev.next := n;
      count := count + 1;
      LinkedIn(spine, i, n);
    }

    /** A new node after a given one, or at the start when none is given. */
    method InsertAfter(node: Node?<T>, data: T, ghost i: nat) returns (n: Node<T>)
      requires Valid() && i <= |spine| && node == Before(spine, i)
      modifies this, spine
      ensures Valid() && fresh(n) && spine == Insert(old(spine), i, n) && Contents() == Insert(old(Contents()), i, data)
    {
      hide Spine, Data, Insert, List.Represents, After, Before;
      n := new Node(data);
      LinkAfterOrEnd(node, n, i);
      DataIn(spine, old(Contents()), i, n);
      spine := Insert(spine, i, n);
    }

    method LinkAfterOrEnd(node: Node?<T>, n: Node<T>, ghost i: nat)
      requires Valid() && n !in spine && i <= |spine| && node == Before(spine, i)
      modifies this`count, this`head, this`tail, n`next, n`prev, spine`next, spine`prev
      ensures Represents(Insert(spine, i, n))
    {
      if i < |spine| { Neighbours(spine, i); }
      if i > 0 { Neighbours(spine, i - 1); }
      if node == null {
        LinkFirst(n);
      } else if node == tail {
        LinkLast(n);
      } else {
        LinkAfter(node, n, i);
      }
    }

    method LinkAfter(node: Node<T>, n: Node<T>, ghost i: nat)
      requires Valid() && n !in spine && 0 < i < |spine| && spine[i - 1] == node
      modifies this`count, n`next, n`prev, spine`next, spine`prev
      ensures Represents(Insert(spine, i, n))
    {
      hide After, Before, Insert;
      Neighbours(spine, i - 1);
      InsertEnds(spine, i, n);
      assert After(spine, i - 1) == spine[i] && Before(spine, i) == spine[i - 1] by { Neighbours(spine, i); Neighbours(spine, i - 1); }
      n.next := node.next;
      n.prev := node;
      node.next := n;
      n.next.prev := n;
      count := count + 1;
      LinkedIn(spine, i, n);
    }
  }
}
