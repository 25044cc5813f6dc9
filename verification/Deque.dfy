/** parc_Deque.c: a doubly linked list of heap nodes, proved to be a sequence read from either end. */
module Deques {
  import opened Basics

  class Node<T> {
    var element: T
    var previous: Node?<T>
    var next: Node?<T>

    constructor (element: T, previous: Node?<T>, next: Node?<T>)
      ensures this.element == element && this.previous == previous && this.next == next
    {
      this.element := element;
      this.previous := previous;
      this.next := next;
    }
  }

  function Reversed<T>(s: seq<T>): (r: seq<T>)
    ensures |r| == |s|
  {
    seq(|s|, i requires 0 <= i < |s| => s[|s| - 1 - i])
  }

  // Runs

  datatype Op<T> = AppendOp(element: T) | PrependOp(element: T) | RemoveFirstOp | RemoveLastOp

  function ApplyOp<T>(s: seq<T>, op: Op<T>): seq<T> {
    match op
    case AppendOp(x) => s + [x]
    case PrependOp(x) => [x] + s
    case RemoveFirstOp => if s == [] then [] else s[1..]
    case RemoveLastOp => if s == [] then [] else s[..|s| - 1]
  }

  function RunOps<T>(s: seq<T>, ops: seq<Op<T>>): seq<T>
    decreases |ops|
  {
    if ops == [] then s else RunOps(ApplyOp(s, ops[0]), ops[1..])
  }

  ghost function NodeAt<T>(nodes: seq<Node<T>>, i: int): Node?<T> {
    if 0 <= i < |nodes| then nodes[i] else null
  }

  lemma {:induction false} AppendedNodes<T>(nodes: seq<Node<T>>, n: Node<T>)
    ensures var r := nodes + [n];
            && r[|nodes|] == n && (forall i :: 0 <= i < |nodes| ==> r[i] == nodes[i])
            && forall x :: x in r <==> x in nodes || x == n
  {
  }

  lemma {:induction false} PrependedNodes<T>(nodes: seq<Node<T>>, n: Node<T>)
    ensures var r := [n] + nodes;
            && r[0] == n && (forall i :: 0 < i <= |nodes| ==> r[i] == nodes[i - 1])
            && forall x :: x in r <==> x in nodes || x == n
  {
  }

  ghost function ElementsOf<T>(nodes: seq<Node<T>>): (r: seq<T>)
    reads nodes
    ensures |r| == |nodes| && forall i :: 0 <= i < |r| ==> r[i] == nodes[i].element
  {
    seq(|nodes|, i requires 0 <= i < |nodes| reads nodes => nodes[i].element)
  }

  class Deque<T> {
    var head: Node?<T>
    var tail: Node?<T>
    var size: nat
    /** The nodes from head to tail. */
    ghost var nodes: seq<Node<T>>

    /** The two chains of links run through the same distinct nodes in opposite directions. */
    ghost predicate Valid()
      reads this, nodes
    {
      && size == |nodes|
      && (forall i, j :: 0 <= i < j < |nodes| ==> nodes[i] != nodes[j])
      && (if nodes == [] then head == null && tail == null else head == nodes[0] && tail == nodes[|nodes| - 1])
      && (forall i {:trigger nodes[i].next} :: 0 <= i < |nodes| ==> nodes[i].next == NodeAt(nodes, i + 1))
      && (forall i {:trigger nodes[i].previous} :: 0 <= i < |nodes| ==> nodes[i].previous == NodeAt(nodes, i - 1))
    }

    ghost function Elements(): seq<T>
      reads this, nodes
    {
      ElementsOf(nodes)
    }

    constructor ()
      ensures Valid() && Elements() == [] && nodes == []
    {
      head, tail, size, nodes := null, null, 0, [];
    }

    method Append(element: T)
      requires Valid()
      modifies this, nodes
      ensures Valid() && Elements() == old(Elements()) + [element]
      ensures forall n :: n in nodes ==> n in old(nodes) || fresh(n)
    {
      var node := new Node(element, tail, null);
      if tail == null {
        tail := node;
      } else {
        tail.next := node;
        tail := node;
      }
      if head == null {
        head := tail;
      }
      size := size + 1;
      nodes := nodes + [node];
      AppendedNodes(old(nodes), node);
    }

    method Prepend(element: T)
      requires Valid()
      modifies this, nodes
      ensures Valid() && Elements() == [element] + old(Elements())
      ensures forall n :: n in nodes ==> n in old(nodes) || fresh(n)
    {
      var node := new Node(element, null, head);
      if head == null {
        head := node;
      } else {
        head.previous := node;
        head := node;
      }
      if tail == null {
        tail := head;
      }
      size := size + 1;
      nodes := [node] + nodes;
      PrependedNodes(old(nodes), node);
    }

    method RemoveFirst() returns (result: Option<T>)
      requires Valid()
      modifies this, nodes
      ensures Valid()
      ensures if old(Elements()) == [] then result == None && Elements() == []
              else result == Some(old(Elements())[0]) && Elements() == old(Elements())[1..]
      ensures nodes == if old(nodes) == [] then [] else old(nodes)[1..]
    {
      result := None;
      if head != null {
        var node := head;
        result := Some(node.element);
        if head == tail {
          head := null;
          tail := null;
        } else {
          head := node.next;
          head.previous := null;
        }
        size := size - 1;
        nodes := nodes[1..];
      }
    }

    /** With exactly one element the source follows a null pointer. */
    method RemoveLast() returns (result: Option<T>)
      requires Valid() && |Elements()| != 1
      modifies this, nodes
      ensures Valid()
      ensures if old(Elements()) == [] then result == None && Elements() == []
              else result == Some(old(Elements())[|old(Elements())| - 1])
                   && Elements() == old(Elements())[..|old(Elements())| - 1]
      ensures nodes == if old(nodes) == [] then [] else old(nodes)[..|old(nodes)| - 1]
    {
      result := None;
      if tail != null {
        var node := tail;
        tail := node.previous;
        tail.next := null;
        result := Some(node.element);
        size := size - 1;
        nodes := nodes[..|nodes| - 1];
      }
    }

    method GetAtIndex(index: nat) returns (element: T)
      requires Valid() && index < size
      ensures element == Elements()[index]
    {
      var node := head;
      var i := 0;
      while i < index
        invariant 0 <= i <= index && node == nodes[i]
      {
        node := node.next;
        i := i + 1;
      }
      element := node.element;
    }

    /** Following `next` from the head reads the sequence. */
    method ForwardWalk() returns (elements: seq<T>)
      requires Valid()
      ensures elements == Elements()
    {
      elements := [];
      var node := head;
      while node != null
        invariant |elements| <= |nodes| && elements == Elements()[..|elements|]
        invariant node == if |elements| < |nodes| then nodes[|elements|] else null
        decreases |nodes| - |elements|
      {
        elements := elements + [node.element];
        node := node.next;
      }
    }

    /** Following `previous` from the tail reads it backwards. */
    method BackwardWalk() returns (elements: seq<T>)
      requires Valid()
      ensures elements == Reversed(Elements())
    {
      elements := [];
      var node := tail;
      while node != null
        invariant |elements| <= |nodes| && elements == Reversed(Elements())[..|elements|]
        invariant node == if |elements| < |nodes| then nodes[|nodes| - 1 - |elements|] else null
        decreases |nodes| - |elements|
      {
        elements := elements + [node.element];
        node := node.previous;
      }
    }

    method Step(op: Op<T>)
      requires Valid() && (op.RemoveLastOp? ==> |Elements()| != 1)
      modifies this, nodes
      ensures Valid() && Elements() == ApplyOp(old(Elements()), op)
      ensures forall n :: n in nodes ==> n in old(nodes) || fresh(n)
    {
      match op {
        case AppendOp(x) => Append(x);
        case PrependOp(x) => Prepend(x);
        case RemoveFirstOp => var _ := RemoveFirst();
        case RemoveLastOp => var _ := RemoveLast();
      }
    }
  }

  /** RemoveLast never meets a deque of one element. */
  predicate Safe<T>(s: seq<T>, ops: seq<Op<T>>)
    decreases |ops|
  {
    ops == [] || ((ops[0].RemoveLastOp? ==> |s| != 1) && Safe(ApplyOp(s, ops[0]), ops[1..]))
  }

  /** Any safe run leaves a well-linked deque holding the sequence the operations mean. */
  method Perform<T>(ops: seq<Op<T>>) returns (d: Deque<T>)
    requires Safe([], ops)
    ensures d.Valid() && d.Elements() == RunOps([], ops)
  {
    d := new Deque();
    var i := 0;
    assert ops[0..] == ops;
    while i < |ops|
      invariant 0 <= i <= |ops| && fresh(d) && fresh(set n | n in d.nodes)
      invariant d.Valid() && Safe(d.Elements(), ops[i..]) && RunOps(d.Elements(), ops[i..]) == RunOps([], ops)
    {
      assert ops[i..][0] == ops[i] && ops[i..][1..] == ops[i + 1..];
      d.Step(ops[i]);
      i := i + 1;
    }
  }
}
