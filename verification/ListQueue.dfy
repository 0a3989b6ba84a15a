/** The sentinel linked list behind the replication queues. */
module ListQueue {
  import opened Basics

  class Node<T(0)> {
    var next: Node?<T>
    var data: T

    constructor ()
      ensures next == null
    {
      next := null;
    }
  }

  class GentListQueue<T(0)> {
    var length: nat
    var front: Node<T>
    var rear: Node<T>
    ghost var spine: seq<Node<T>>

    /** The spine lists the nodes from the sentinel to the rear. */
    ghost predicate Valid()
      reads this, spine
    {
      && |spine| > 0 && front == spine[0] && rear == spine[|spine| - 1] && rear.next == null
      && length == |spine| - 1
      && (forall i :: 0 <= i < |spine| - 1 ==> spine[i].next == spine[i + 1])
      && (forall i, j :: 0 <= i < j < |spine| ==> spine[i] != spine[j])
    }

    ghost function Contents(): (s: seq<T>)
      requires Valid()
      reads this, spine
      ensures |s| == length
    {
      seq(|spine| - 1, i requires 0 <= i < |spine| - 1 reads this, spine => spine[i + 1].data)
    }

    constructor ()
      ensures Valid() && fresh(spine) && Contents() == []
    {
      var p := new Node<T>();
      front, rear, length := p, p, 0;
      spine := [p];
    }

    method Push(e: T)
      requires Valid()
      modifies this, spine
      ensures Valid() && fresh(set n | n in spine && n !in old(spine))
      ensures Contents() == old(Contents()) + [e]
    {
      var p := new Node<T>();
      p.data := e;
      rear.next := p;
      rear := p;
      length := length + 1;
      spine := spine + [p];
    }

    /** The front element, or None for the NULL that an empty queue yields. */
    method Pop() returns (e: Option<T>)
      requires Valid()
      modifies this, spine
      ensures Valid() && forall n :: n in spine ==> n in old(spine)
      ensures old(Contents()) == [] ==> e == None && Contents() == []
      ensures old(Contents()) != [] ==> e == Some(old(Contents())[0]) && Contents() == old(Contents())[1..]
    {
      if front == rear {
        assert |spine| == 1;
        return None;
      }
      assert front.next == spine[1] && (spine[1] == rear <==> |spine| == 2);
      var p := front.next;
      front.next := p.next;
      e := Some(p.data);
      if rear == p { rear := front; }
      length := length - 1;
      spine := [front] + spine[2..];
    }

    method FrontElement() returns (e: Option<T>)
      requires Valid()
      ensures e == if Contents() == [] then None else Some(Contents()[0])
    {
      if front == rear {
        assert |spine| == 1;
        return None;
      }
      assert front.next == spine[1];
      var p := front.next;
      return Some(p.data);
    }

    /** Up to num elements from the front; false on an empty queue. */
    method FrontNumsElement(num: nat) returns (ok: bool, dat: seq<T>)
      requires Valid()
      ensures ok <==> Contents() != []
      ensures dat == Contents()[..if num <= length then num else length]
    {
      dat := [];
      if front == rear {
        assert |spine| == 1;
        return false, [];
      }
      assert front.next == spine[1];
      var p: Node<T> := front.next;
      var left := num;
      ok := true;
      while left > 0
        invariant 0 <= left <= num
        invariant |dat| == num - left && |dat| < length
        invariant p == spine[|dat| + 1]
        invariant dat == Contents()[..|dat|]
      {
        dat := dat + [p.data];
        left := left - 1;
        assert dat == Contents()[..|dat|];
        assert |dat| < length ==> spine[|dat|].next == spine[|dat| + 1];
        if p.next == null { break; }
        p := p.next;
      }
    }

    method Size() returns (count: nat)
      requires Valid()
      ensures count == |Contents()|
    {
      count := 0;
      var p := front;
      while p != rear
        invariant 0 <= count < |spine| && p == spine[count]
        decreases |spine| - count
      {
        p := p.next;
        count := count + 1;
      }
    }
  }
}
