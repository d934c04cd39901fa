/**
 RRPVECTOR: a singly linked list of strings with head, tail, cursor and count.  Its abstract
 value is the sequence of its strings and the position of the cursor.  Deleting the last of
 several elements leaves the tail pointer behind; `Valid` says when the tail can be trusted,
 `Linked` is what still holds otherwise.
 */
module RrpVector {
  import opened Common
  import opened LinkedNodes

  class Vector {
    var count: int
    var current: Node?<string>
    var head: Node?<string>
    var tail: Node?<string>
    ghost var nodes: seq<Node<string>>  // the chain from head
    ghost var contents: seq<string>    // its strings
    ghost var cursor: nat              // the position of `current`, the length if it is null
    ghost var Repr: set<object>        // the vector and its nodes

    constructor ()
      ensures Valid() && fresh(Repr) && contents == [] && cursor == 0
    {
      count, current, head, tail := 0, null, null, null;
      nodes, contents, cursor, Repr := [], [], 0, {this};
    }

    /** The chain from head is `nodes`, and count, strings and cursor agree with it. */
    ghost predicate Linked()
      reads this, Repr
      ensures Linked() ==> this in Repr
    {
      && this in Repr && (forall n <- nodes :: n in Repr)
      && count == |nodes| == |contents| && head == At(nodes, 0)
      && Chained(nodes) && Distinct(nodes) && Labelled(nodes, contents)
      && cursor <= |nodes| && current == At(nodes, cursor)
    }

    ghost predicate TailOk()
      reads this
    {
      nodes != [] ==> tail == nodes[|nodes| - 1]
    }

    ghost predicate Valid()
      reads this, Repr
      ensures Valid() ==> this in Repr
    {
      Linked() && TailOk()
    }

    lemma LinkedIfValid()
      requires Valid()
      ensures Linked()
    {}

    lemma SizeOf()
      requires Valid()
      ensures |nodes| == |contents|
    {}

    // ------------------------------------------------------------ operations

    method Size() returns (n: int)
      requires Linked()
      ensures n == |contents|
    {
      n := count;
    }

    method ElementAt(index: int) returns (r: Option<string>)
      requires Linked()
      ensures r == if 0 <= index < |contents| then Some(contents[index]) else None
    {
      if index < 0 || index >= count { return None; }
      var node := head;
      var position := 0;
      while position < count
        invariant 0 <= position <= index
        invariant node == nodes[position]
      {
        if position == index { return Some(node.value); }
        node := node.next;
        position := position + 1;
      }
      r := None;
    }

    method Add(value: string)
      requires Valid()
      modifies Repr
      ensures Valid() && fresh(Repr - old(Repr)) && contents == old(contents) + [value]
      ensures cursor == if old(cursor) == |old(nodes)| > 0 then |nodes| else old(cursor)
    {
      hide Distinct, Labelled, Chained;
      var newNode := new Node(value);
      LinkLast(newNode);
      Repr := Repr + {newNode};
      cursor := if cursor == |nodes| > 0 then |nodes| + 1 else cursor;
      AppendKeeps(nodes, contents, newNode);
      ChainedAppend(nodes, newNode);
      nodes, contents := nodes + [newNode], contents + [value];
    }

    /** The assignments that put a node behind the last one. */
    method LinkLast(newNode: Node<string>)
      requires Distinct(nodes) && newNode !in nodes && newNode.next == null
      requires count == |nodes| && (nodes != [] ==> tail == nodes[|nodes| - 1])
      modifies `count, `head, `current, `tail, nodes
      ensures count == |nodes| + 1 && tail == newNode && newNode.next == null
      ensures head == (if nodes == [] then newNode else old(head)) && current == if nodes == [] then newNode else old(current)
      ensures forall i :: 0 <= i < |nodes| - 1 ==> nodes[i].next == old(nodes[i].next)
      ensures nodes != [] ==> nodes[|nodes| - 1].next == newNode
    {
      hide Distinct;
      if nodes != [] { OnlyAt(nodes, |nodes| - 1); }
      if count == 0 {
        head, current := newNode, newNode;
      } else {
        tail.next := newNode;
      }
      tail := newNode;
      count := count + 1;
    }

    method RemoveAll()
      requires Linked()
      modifies Repr
      ensures Valid() && Repr == old(Repr) && contents == [] && cursor == 0
    {
      var currentNode := head;
      ghost var i := 0;
      while currentNode != null
        invariant i <= |nodes| && currentNode == At(nodes, i)
        decreases |nodes| - i
      {
        currentNode := currentNode.next;
        i := i + 1;
      }
      count, head, tail, current := 0, null, null, null;
      nodes, contents, cursor := [], [], 0;
    }

    /** Deletes one element.  The tail is not repaired: the vector stays valid if and only if the
        element was not the last of several; otherwise the tail points to a node off the chain. */
    method DeleteElementAt(index: int) returns (status: int)
      requires Valid()
      modifies Repr
      ensures Linked() && Repr == old(Repr) && status == if 0 <= index < old(count) then 0 else -1
      ensures status == -1 ==> nodes == old(nodes) && contents == old(contents) && cursor == old(cursor) && Valid()
      ensures status == 0 ==> nodes == Without(old(nodes), index) && contents == Without(old(contents), index)
      ensures status == 0 ==> cursor == if index < old(cursor) then old(cursor) - 1 else old(cursor)
      ensures status == 0 ==> (Valid() <==> index != old(count) - 1 || old(count) == 1)
      ensures !Valid() ==> tail !in nodes
    {
      if index < 0 || index >= count { return -1; }
      var currentNode, previousNode, position := head, head, 0;
      while position < count
        invariant 0 <= position <= index
        invariant currentNode == nodes[position] && previousNode == nodes[if position == 0 then 0 else position - 1]
      {
        if position == index {
          Unlink(previousNode, currentNode, position);
          return 0;
        }
        previousNode := currentNode;
        currentNode := currentNode.next;
        position := position + 1;
      }
      status := -1;
    }

    /** Takes the node at `index` off the chain. */
    method Unlink(previousNode: Node<string>, currentNode: Node<string>, ghost index: nat)
      requires Valid() && index < |nodes|
      requires currentNode == nodes[index] && (index > 0 ==> previousNode == nodes[index - 1])
      modifies Repr
      ensures Linked() && Repr == old(Repr) && tail == old(tail)
      ensures nodes == Without(old(nodes), index) && contents == Without(old(contents), index)
      ensures cursor == if index < old(cursor) then old(cursor) - 1 else old(cursor)
    {
      hide Without, Distinct, Labelled, Chained;
      ghost var was := nodes;
      ChainedAt(was, index);
      WithoutKeeps(nodes, contents, index);
      DistinctAt(nodes, index, 0);
      DistinctAt(nodes, index, cursor);
      if index > 0 { OnlyAt(nodes, index - 1); }
      if currentNode == head {
        head := currentNode.next;
      } else {
        previousNode.next := currentNode.next;
      }
      if currentNode == current {
        current := currentNode.next;
      }
      count := count - 1;
      nodes, contents := Without(was, index), Without(contents, index);
      cursor := if index < cursor then cursor - 1 else cursor;
      ChainedWithout(was, index);
      AtWithout(was, index, 0);
      AtWithout(was, index, cursor);
    }

    /** One step of copying: a new node behind `last`. */
    method AppendCopy(last: Node?<string>, value: string) returns (newNode: Node<string>)
      requires Linked() && last == (if nodes == [] then null else nodes[|nodes| - 1])
      modifies Repr
      ensures Linked() && fresh(Repr - old(Repr)) && fresh(newNode) && nodes == old(nodes) + [newNode]
      ensures contents == old(contents) + [value] && tail == old(tail) && current == old(current)
      ensures cursor == if old(cursor) == |old(nodes)| then |nodes| else old(cursor)
    {
      hide Distinct, Labelled, Chained;
      newNode := new Node(value);
      if nodes != [] { OnlyAt(nodes, |nodes| - 1); }
      count := count + 1;
      if last != null {
        last.next := newNode;
      } else {
        head := newNode;
      }
      Repr := Repr + {newNode};
      cursor := if cursor == |nodes| then |nodes| + 1 else cursor;
      AppendKeeps(nodes, contents, newNode);
      ChainedAppend(nodes, newNode);
      nodes, contents := nodes + [newNode], contents + [value];
    }

    /** What a walk along the vector finds at position `i`. */
    lemma AtPosition(i: nat)
      requires Linked() && i <= |contents|
      ensures this in Repr && count == |nodes| == |contents| && head == At(nodes, 0) && cursor <= |nodes|
      ensures i < |nodes| ==>
                nodes[i] in Repr && nodes[i].next == At(nodes, i + 1) && (nodes[i] == current <==> cursor == i)
                && nodes[i].value == contents[i]
    {
      hide Distinct, Chained, Labelled;
      if i < |nodes| {
        LabelledAt(nodes, contents, i);
        ChainedAt(nodes, i);
        DistinctAt(nodes, i, cursor);
      }
    }

    /** A deep copy with its own nodes and the cursor at the same position.  It walks from head, so
        it works on a vector whose tail is left behind, and repairs it. */
    method Clone() returns (copy: Vector)
      requires Linked()
      ensures copy.Valid() && fresh(copy.Repr)
      ensures copy.contents == contents && copy.cursor == cursor
    {
      hide Linked, Valid;
      copy := new Vector();
      copy.LinkedIfValid();
      copy.AtPosition(0);
      AtPosition(0);
      if count == 0 { return; }
      var currentNode := head;
      var lastNode: Node?<string> := null;
      ghost var i := 0;
      while currentNode != null
        invariant i <= |nodes| == |contents| && currentNode == At(nodes, i)
        invariant fresh(copy.Repr) && copy.Linked() && |copy.nodes| == i
        invariant copy.contents == contents[..i] && copy.cursor == if cursor < i then cursor else i
        invariant lastNode == if i == 0 then null else copy.nodes[i - 1]
        invariant currentNode == null ==> copy.Valid()
        decreases |nodes| - i
      {
        AtPosition(i);
        lastNode := CopyNode(copy, lastNode, currentNode, i);
        currentNode := currentNode.next;
        i := i + 1;
      }
    }

    /** The loop body of the copy: a new node behind the nodes already copied. */
    method CopyNode(copy: Vector, lastNode: Node?<string>, currentNode: Node<string>, ghost i: nat) returns (newNode: Node<string>)
      requires Linked() && i < |nodes| == |contents| && currentNode == nodes[i] && copy.Repr !! Repr
      requires copy.Linked() && |copy.nodes| == i && lastNode == (if i == 0 then null else copy.nodes[i - 1])
      requires copy.contents == contents[..i] && copy.cursor == if cursor < i then cursor else i
      modifies copy.Repr
      ensures copy.Linked() && fresh(copy.Repr - old(copy.Repr)) && copy.nodes == old(copy.nodes) + [newNode]
      ensures copy.contents == contents[..i + 1] && copy.cursor == if cursor < i + 1 then cursor else i + 1
      ensures i + 1 == |nodes| ==> copy.Valid()
    {
      hide Distinct, Chained, Labelled;
      AtPosition(i);
      newNode := copy.AppendCopy(lastNode, currentNode.value);
      if current == currentNode {
        copy.current, copy.cursor := newNode, i;
      }
      if currentNode.next == null {
        copy.tail := newNode;
      }
    }
  }
}
