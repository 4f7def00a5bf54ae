/** The linked FIFO of src/lib/util.c: nodes chained by `next`, a head, a tail and a count.
    It refines a sequence. */
module Queues {
  import opened Options

  class Node<T> {
    var next: Node?<T>
    const data: T

    constructor (data: T)
      ensures this.data == data && next == null
    {
      this.data := data;
      next := null;
    }
  }

  class QueueHead<T> {
    var head: Node?<T>
    var tail: Node?<T>
    var num: nat
    /** The chain of nodes from head to tail, what they hold, and a set they are all in. */
    ghost var nodes: seq<Node<T>>
    ghost var contents: seq<T>
    ghost var repr: set<Node<T>>

    ghost predicate Valid()
      reads this, repr
    {
      && num == |nodes| == |contents|
      && (forall i :: 0 <= i < |nodes| ==> nodes[i] in repr && nodes[i].data == contents[i])
      && (forall i, j :: 0 <= i < j < |nodes| ==> nodes[i] != nodes[j])
      && (forall i :: 0 <= i < |nodes| ==> nodes[i].next == NodeAt(i + 1))
      && head == NodeAt(0)
      && tail == NodeAt(|nodes| - 1)
    }

    /** The node at a position of the chain, null outside it. */
    ghost function NodeAt(i: int): Node?<T>
      reads this
    {
      if 0 <= i < |nodes| then nodes[i] else null
    }

    /** `queue_init`. */
    constructor ()
      ensures Valid() && contents == [] && repr == {}
    {
      head := null;
      tail := null;
      num := 0;
      nodes, contents, repr := [], [], {};
    }

    /** `queue_push`. */
    method Push(data: T)
      requires Valid()
      modifies this, repr
      ensures Valid() && fresh(repr - old(repr))
      ensures contents == old(contents) + [data] && num == old(num) + 1
    {
      var entry := new Node(data);
      if tail != null {
        tail.next := entry;
      }
      tail := entry;
      if head == null {
        head := entry;
      }
      num := num + 1;
      nodes, contents, repr := nodes + [entry], contents + [data], repr + {entry};
    }

    /** `queue_pop`. */
    method Pop() returns (r: Option<T>)
      requires Valid()
      modifies this
      ensures Valid() && repr == old(repr)
      ensures if old(contents) == [] then r == None && contents == [] && num == 0
              else r == Some(old(contents)[0]) && contents == old(contents)[1..] && num == old(num) - 1
    {
      if head == null {
        return None;
      }
      var entry := head;
      head := entry.next;
      if head == null {
        tail := null;
      }
      num := num - 1;
      assert nodes[0] == entry && nodes[0].next == NodeAt(1);
      nodes, contents := nodes[1..], contents[1..];
      r := Some(entry.data);
    }

    /** `queue_peek`. */
    method Peek() returns (r: Option<T>)
      requires Valid()
      ensures r == if contents == [] then None else Some(contents[0])
    {
      if head == null {
        return None;
      }
      r := Some(head.data);
    }

    /** `queue_foreach`: the elements the function is applied to, in order. */
    method Visited() returns (s: seq<T>)
      requires Valid()
      ensures s == contents
    {
      s := [];
      var entry := head;
      ghost var i := 0;
      while entry != null
        invariant 0 <= i <= |nodes| && s == contents[..i]
        invariant entry == NodeAt(i)
        decreases |nodes| - i
      {
        s := s + [entry.data];
        entry := entry.next;
        i := i + 1;
      }
    }
  }

  /** Queues side by side, like those of the registered protocols. */
  class QueueSet<T> {
    ghost var all: set<QueueHead<T>>
    /** The queue heads and their nodes. */
    ghost var repr: set<object>

    ghost predicate Valid()
      reads this, repr
    {
      && this !in repr
      && (forall q :: q in all ==> q in repr && q.repr <= repr && q.Valid())
      && (forall p, q :: p in all && q in all && p != q ==> p.repr !! q.repr)
    }

    constructor ()
      ensures Valid() && all == {} && fresh(repr)
    {
      all, repr := {}, {};
    }

    method Add() returns (q: QueueHead<T>)
      requires Valid()
      modifies this
      ensures Valid() && fresh(repr - old(repr)) && fresh(q) && all == old(all) + {q} && q.contents == []
    {
      q := new QueueHead<T>();
      all, repr := all + {q}, repr + {q};
    }

    method PushTo(q: QueueHead<T>, data: T)
      requires Valid() && q in all
      modifies this`repr, repr
      ensures Valid() && fresh(repr - old(repr)) && q.contents == old(q.contents) + [data]
      ensures forall p :: p in all && p != q ==> p.contents == old(p.contents)
    {
      q.Push(data);
      repr := repr + q.repr;
    }

    method PopFrom(q: QueueHead<T>) returns (r: Option<T>)
      requires Valid() && q in all
      modifies repr
      ensures Valid()
      ensures if old(q.contents) == [] then r == None && q.contents == []
              else r == Some(old(q.contents)[0]) && q.contents == old(q.contents)[1..]
      ensures forall p :: p in all && p != q ==> p.contents == old(p.contents)
    {
      r := q.Pop();
    }
  }
}
