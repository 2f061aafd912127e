/**
 * The linked stack and queue of `int`s. Both are built from one doubly-linked
 * node type; the stack links its nodes through `prev` from the top down, the
 * queue through `next` from front to rear (and back through `prev`).
 *
 * Each container keeps, as ghost state, the sequence of its nodes (`Nodes`) and
 * of their values (`Contents`), listed in the order `Print` shows them, and the
 * set of objects it is made of (`Repr`). `Valid()` ties the link fields to
 * these sequences.
 */
module StackQueue {
  import opened Common

  /** A list node: a value and its two neighbours. */
  class ListNode {
    var data: Int32
    var next: ListNode?
    var prev: ListNode?

    constructor (value: Int32)
      ensures data == value && next == null && prev == null
    {
      data := value;
      next := null;
      prev := null;
    }
  }

  class Stack {
    var top: ListNode?
    var size: int

    ghost var Nodes: seq<ListNode>   // top to bottom
    ghost var Contents: seq<Int32>   // top to bottom
    ghost var Repr: set<object>

    ghost predicate Valid()
      reads this, Repr
    {
      && this in Repr
      && (forall i :: 0 <= i < |Nodes| ==> Nodes[i] in Repr)
      && size == |Nodes| == |Contents|
      && (if Nodes == [] then top == null else top == Nodes[0])
      && (forall i :: 0 <= i < |Nodes| ==> Nodes[i].data == Contents[i])
      && (forall i :: 0 <= i < |Nodes| - 1 ==> Nodes[i].prev == Nodes[i + 1])
      && (Nodes != [] ==> Nodes[|Nodes| - 1].prev == null)
    }

    constructor ()
      ensures Valid() && fresh(Repr) && Contents == []
    {
      top := null;
      size := 0;
      Nodes, Contents := [], [];
      Repr := {this};
    }

    /** `Insert`: the value becomes the new top. */
    method Insert(value: Int32)
      requires Valid()
      modifies this
      ensures Valid() && fresh(Repr - old(Repr))
      ensures Contents == [value] + old(Contents)
      ensures size == old(size) + 1
    {
      var node := new ListNode(value);
      node.prev := top;
      top := node;
      size := size + 1;
      Nodes, Contents := [node] + Nodes, [value] + Contents;
      Repr := Repr + {node};
    }

    /**
     * `Remove`: the most recently inserted value still present is taken off the
     * top; on an empty stack it throws out_of_range and changes nothing.
     */
    method Remove() returns (r: Outcome<Int32>)
      requires Valid()
      modifies this
      ensures Valid() && Repr == old(Repr)
      ensures old(Contents) == [] ==> r == Throw(OutOfRange) && Contents == old(Contents)
      ensures old(Contents) != [] ==>
                r == Ok(old(Contents)[0]) && Contents == old(Contents)[1..] && size == old(size) - 1
    {
      if top == null {
        return Throw(OutOfRange);
      }
      var value := top.data;
      top := top.prev;
      size := size - 1;
      Nodes, Contents := Nodes[1..], Contents[1..];
      r := Ok(value);
    }

    /** `Print`: the values from top to bottom, i.e. newest first. */
    method Print() returns (out: seq<Int32>)
      requires Valid()
      ensures out == Contents
    {
      out := [];
      var current := top;
      ghost var j := 0;
      while current != null
        invariant 0 <= j <= |Nodes|
        invariant current == if j < |Nodes| then Nodes[j] else null
        invariant out == Contents[..j]
        decreases |Nodes| - j
      {
        out := out + [current.data];
        current := current.prev;
        j := j + 1;
      }
    }

    /** `getSize`. */
    function GetSize(): (n: int)
      requires Valid()
      reads this, Repr
      ensures n == |Contents|
    {
      size
    }
  }

  class Queue {
    var front: ListNode?
    var rear: ListNode?
    var size: int

    ghost var Nodes: seq<ListNode>   // front to rear
    ghost var Contents: seq<Int32>   // front to rear
    ghost var Repr: set<object>

    ghost predicate Valid()
      reads this, Repr
    {
      && this in Repr
      && (forall i :: 0 <= i < |Nodes| ==> Nodes[i] in Repr)
      && (forall i, j :: 0 <= i < j < |Nodes| ==> Nodes[i] != Nodes[j])
      && size == |Nodes| == |Contents|
      && (Nodes == [] ==> front == null && rear == null)
      && (Nodes != [] ==> front == Nodes[0] && rear == Nodes[|Nodes| - 1])
      && (forall i :: 0 <= i < |Nodes| ==> Nodes[i].data == Contents[i])
      && (forall i :: 0 <= i < |Nodes| - 1 ==> Nodes[i].next == Nodes[i + 1])
      && (forall i :: 0 < i < |Nodes| ==> Nodes[i].prev == Nodes[i - 1])
      && (Nodes != [] ==> Nodes[|Nodes| - 1].next == null && Nodes[0].prev == null)
    }

    constructor ()
      ensures Valid() && fresh(Repr) && Contents == []
    {
      front, rear := null, null;
      size := 0;
      Nodes, Contents := [], [];
      Repr := {this};
    }

    /** `front` is null exactly when `rear` is, exactly when the queue is empty. */
    lemma FrontNullIffRearNull()
      requires Valid()
      ensures front == null <==> rear == null
      ensures front == null <==> Contents == []
    {
    }

    /** `Insert`: the value joins at the rear; into an empty queue it becomes front and rear. */
    method Insert(value: Int32)
      requires Valid()
      modifies Repr
      ensures Valid() && fresh(Repr - old(Repr))
      ensures Contents == old(Contents) + [value]
      ensures size == old(size) + 1
      ensures old(Contents) == [] ==> front == rear && front != null
    {
      var node := new ListNode(value);
      if rear == null {
        front, rear := node, node;
      } else {
        rear.next := node;
        node.prev := rear;
        rear := node;
      }
      size := size + 1;
      Nodes, Contents := Nodes + [node], Contents + [value];
      Repr := Repr + {node};
    }

    /**
     * `Remove`: the oldest value is taken from the front; when the queue empties
     * `rear` is cleared too. On an empty queue it throws out_of_range.
     */
    method Remove() returns (r: Outcome<Int32>)
      requires Valid()
      modifies Repr
      ensures Valid() && Repr == old(Repr)
      ensures old(Contents) == [] ==> r == Throw(OutOfRange) && Contents == old(Contents)
      ensures old(Contents) != [] ==>
                r == Ok(old(Contents)[0]) && Contents == old(Contents)[1..] && size == old(size) - 1
      ensures Contents == [] ==> rear == null
    {
      if front == null {
        return Throw(OutOfRange);
      }
      var value := front.data;
      front := front.next;
      if front != null {
        assert front == Nodes[1] && front in Repr;
        front.prev := null;
      } else {
        rear := null;
      }
      size := size - 1;
      Nodes, Contents := Nodes[1..], Contents[1..];
      r := Ok(value);
    }

    /** `Print`: the values from front to rear, i.e. oldest first. */
    method Print() returns (out: seq<Int32>)
      requires Valid()
      ensures out == Contents
    {
      out := [];
      var current := front;
      ghost var j := 0;
      while current != null
        invariant 0 <= j <= |Nodes|
        invariant current == if j < |Nodes| then Nodes[j] else null
        invariant out == Contents[..j]
        decreases |Nodes| - j
      {
        out := out + [current.data];
        current := current.next;
        j := j + 1;
      }
    }

    /** `getSize`. */
    function GetSize(): (n: int)
      requires Valid()
      reads this, Repr
      ensures n == |Contents|
    {
      size
    }
  }

  /** The stack tests: three inserts, the printed order, LIFO removal, then underflow. */
  method StackScenario() returns (printed: seq<Int32>, removed: seq<Outcome<Int32>>, finalSize: int)
    ensures printed == [30, 20, 10]
    ensures removed == [Ok(30), Ok(20), Ok(10), Throw(OutOfRange)]
    ensures finalSize == 0
  {
    var stack := new Stack();
    stack.Insert(10);
    stack.Insert(20);
    stack.Insert(30);
    assert stack.Contents == [30, 20, 10];
    printed := stack.Print();
    var a := stack.Remove();
    var b := stack.Remove();
    assert stack.Contents == [10];
    var c := stack.Remove();
    finalSize := stack.GetSize();
    var d := stack.Remove();
    removed := [a, b, c, d];
  }

  /** The queue tests: three inserts, the printed order, FIFO removal, then underflow. */
  method QueueScenario() returns (printed: seq<Int32>, removed: seq<Outcome<Int32>>, finalSize: int)
    ensures printed == [10, 20, 30]
    ensures removed == [Ok(10), Ok(20), Ok(30), Throw(OutOfRange)]
    ensures finalSize == 0
  {
    var queue := new Queue();
    queue.Insert(10);
    queue.Insert(20);
    queue.Insert(30);
    assert queue.Contents == [10, 20, 30];
    printed := queue.Print();
    var a := queue.Remove();
    var b := queue.Remove();
    assert queue.Contents == [30];
    var c := queue.Remove();
    finalSize := queue.GetSize();
    var d := queue.Remove();
    removed := [a, b, c, d];
  }
}
