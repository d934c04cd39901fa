/**
 Singly linked nodes: what the chains of RRPVECTOR and RRPPROPERTIES have in common.
 */
module LinkedNodes {

  class Node<T> {
    const value: T
    var next: Node?<T>

    constructor (value: T)
      ensures this.value == value && next == null
    {
      this.value, next := value, null;
    }
  }

  /** The sequence without its element at `index`. */
  function Without<T>(s: seq<T>, index: nat): seq<T>
    requires index < |s|
  {
    s[..index] + s[index + 1..]
  }

  ghost predicate Distinct<T>(nodes: seq<Node<T>>) {
    forall i, j :: 0 <= i < j < |nodes| ==> nodes[i] != nodes[j]
  }

  ghost predicate Labelled<T>(nodes: seq<Node<T>>, contents: seq<T>) {
    |nodes| == |contents| && forall i :: 0 <= i < |nodes| ==> nodes[i].value == contents[i]
  }

  ghost function At<T>(nodes: seq<Node<T>>, i: nat): Node?<T> {
    if i < |nodes| then nodes[i] else null
  }

  /** Each node leads to the next, and the last one nowhere. */
  ghost predicate Chained<T>(nodes: seq<Node<T>>)
    reads nodes
  {
    forall i {:trigger nodes[i]} :: 0 <= i < |nodes| ==> nodes[i].next == At(nodes, i + 1)
  }

  lemma WithoutKeeps<T>(nodes: seq<Node<T>>, contents: seq<T>, index: nat)
    requires Distinct(nodes) && Labelled(nodes, contents) && index < |nodes|
    ensures Distinct(Without(nodes, index)) && Labelled(Without(nodes, index), Without(contents, index))
    ensures forall n <- Without(nodes, index) :: n in nodes
  {}

  lemma ChainedAt<T>(nodes: seq<Node<T>>, i: nat)
    requires Chained(nodes) && i < |nodes|
    ensures nodes[i].next == At(nodes, i + 1)
  {}

  lemma LabelledAt<T>(nodes: seq<Node<T>>, contents: seq<T>, i: nat)
    requires Labelled(nodes, contents) && i < |nodes|
    ensures |nodes| == |contents| && nodes[i].value == contents[i]
  {}

  lemma AtWithout<T>(nodes: seq<Node<T>>, index: nat, i: nat)
    requires index < |nodes|
    ensures |Without(nodes, index)| == |nodes| - 1
    ensures At(Without(nodes, index), i) == At(nodes, if i < index then i else i + 1)
  {}

  lemma DistinctAt<T>(nodes: seq<Node<T>>, index: nat, i: nat)
    requires Distinct(nodes) && index < |nodes|
    ensures At(nodes, i) == nodes[index] <==> i == index
  {}

  /** Leading the predecessor past one node takes that node off the chain. */
  twostate lemma ChainedWithout<T>(nodes: seq<Node<T>>, new index: nat)
    requires index < |nodes| && old(Chained(nodes)) && Distinct(nodes)
    requires forall i :: 0 <= i < |nodes| && i != index - 1 ==> nodes[i].next == old(nodes[i].next)
    requires index > 0 ==> nodes[index - 1].next == old(nodes[index].next)
    ensures Chained(Without(nodes, index))
  {
    hide Distinct, Without;
    var shorter := Without(nodes, index);
    AtWithout(nodes, index, 0);
    forall i | 0 <= i < |shorter| ensures shorter[i].next == At(shorter, i + 1) {
      AtWithout(nodes, index, i);
      AtWithout(nodes, index, i + 1);
    }
  }

  lemma OnlyAt<T>(nodes: seq<Node<T>>, index: nat)
    requires Distinct(nodes) && index < |nodes|
    ensures forall i :: 0 <= i < |nodes| && i != index ==> nodes[i] != nodes[index]
  {}

  /** A new node behind the last one is on the chain. */
  twostate lemma ChainedAppend<T>(nodes: seq<Node<T>>, new node: Node<T>)
    requires old(Chained(nodes)) && node.next == null
    requires forall i :: 0 <= i < |nodes| - 1 ==> nodes[i].next == old(nodes[i].next)
    requires nodes != [] ==> nodes[|nodes| - 1].next == node
    ensures Chained(nodes + [node])
  {}

  lemma AppendKeeps<T>(nodes: seq<Node<T>>, contents: seq<T>, node: Node<T>)
    requires Distinct(nodes) && Labelled(nodes, contents) && node !in nodes
    ensures Distinct(nodes + [node]) && Labelled(nodes + [node], contents + [node.value])
  {}
}
