/** A queue of node records linked through their own `next` fields. */
module NodeQueues {

  class NodeRec {
    const obj: nat
    var next: NodeRec?

    constructor (obj: nat)
      ensures this.obj == obj && next == null
    {
      this.obj := obj;
      next := null;
    }
  }

  class NodeQueue {
    var head: NodeRec?
    var tail: NodeRec?

    /** The records from the head to the tail, and the same as a set. */
    ghost var nodes: seq<NodeRec>
    ghost var repr: set<NodeRec>

    ghost predicate Linked(i: nat)
      reads this, repr
      requires i < |nodes| && nodes[i] in repr
    {
      nodes[i].next == if i + 1 < |nodes| then nodes[i + 1] else null
    }

    ghost predicate Valid()
      reads this, repr
    {
      && (if nodes == [] then head == tail == null else head == nodes[0] && tail == nodes[|nodes| - 1])
      && (forall i :: 0 <= i < |nodes| ==> nodes[i] in repr)
      && (forall i :: 0 <= i < |nodes| ==> Linked(i))
      && (forall i, j :: 0 <= i < j < |nodes| ==> nodes[i] != nodes[j])
    }

    ghost function Objs(): seq<nat>
      reads this
    {
      seq(|nodes|, i requires 0 <= i < |nodes| reads this => nodes[i].obj)
    }

    constructor ()
      ensures Valid() && nodes == [] && repr == {}
    {
      head, tail, nodes, repr := null, null, [], {};
    }

    method PushTail(n: NodeRec)
      requires Valid() && n !in repr && n.next == null
      modifies this, repr
      ensures Valid() && nodes == old(nodes) + [n] && Objs() == old(Objs()) + [n.obj]
      ensures repr == old(repr) + {n} && n.next == null
    {
      var oldTail := tail;
      tail := n;
      if oldTail != null {
        oldTail.next := n;
      } else {
        head := n;
      }
      nodes, repr := nodes + [n], repr + {n};
      forall i | 0 <= i < |nodes|
        ensures Linked(i)
      {
        if i < |old(nodes)| {
          assert old(Linked(i));
        }
      }
    }

    method PopHead() returns (n: NodeRec?)
      requires Valid()
      modifies this, repr
      ensures Valid()
      ensures old(nodes) == [] ==> n == null && nodes == [] && repr == old(repr)
      ensures old(nodes) != [] ==> n != null && n == old(nodes)[0] && n in old(repr) && n.next == null
      ensures old(nodes) != [] ==> nodes == old(nodes)[1..] && Objs() == old(Objs())[1..] && repr == old(repr) - {n}
    {
      n := head;
      if n != null {
        assert Linked(0);
        head := n.next;
        if head == null {
          tail := null;
        }
        n.next := null;
        nodes, repr := nodes[1..], repr - {n};
        forall i | 0 <= i < |nodes|
          ensures Linked(i)
        {
          assert old(Linked(i + 1));
        }
      }
    }
  }
}
