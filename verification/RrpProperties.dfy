/**
 RRPPROPERTIES: a linked list of keys, each with an RRPVECTOR of values, with head, tail, cursor
 and count.  Its abstract value is an ordered multimap and the position of the cursor.
 */
module RrpProperties {
  import opened Common
  import opened LinkedNodes
  import opened RrpVector
  import opened Multimap
  import opened Text

  datatype Property = Property(key: string, values: Vector)

  /** The vectors' cursors after a put: one that was behind the last value stays behind it. */
  ghost function PutCursors(m: seq<Entry>, cursors: seq<nat>, key: string): seq<nat>
    requires |m| == |cursors|
  {
    var i := Find(m, key);
    if i < |m| then cursors[i := AddedCursor(m[i], cursors[i])] else cursors + [0]
  }

  function AddedCursor(e: Entry, cursor: nat): nat {
    if cursor == |e.values| > 0 then cursor + 1 else cursor
  }

  class Properties {
    var count: int
    var current: Node?<Property>
    var head: Node?<Property>
    var tail: Node?<Property>
    ghost var nodes: seq<Node<Property>>  // the chain from head
    ghost var list: seq<Property>         // what the nodes hold
    ghost var entries: seq<Entry>         // the multimap
    ghost var cursor: nat                 // the position of `current`, the length if it is null
    ghost var cursors: seq<nat>           // the positions of the cursors of the vectors
    ghost var Repr: set<object>           // the list, its nodes, its vectors and theirs

    /** Count, head and cursor agree with the chain of nodes. */
    ghost predicate ChainOk()
      reads `count, `head, `current, `nodes, `list, `cursor, nodes
    {
      && count == |nodes| == |list| && head == At(nodes, 0)
      && Chained(nodes) && Distinct(nodes) && Labelled(nodes, list)
      && cursor <= |nodes| && current == At(nodes, cursor)
    }

    ghost predicate TailOk()
      reads `nodes, `tail
    {
      nodes != [] ==> tail == nodes[|nodes| - 1]
    }

    /** Each property has its key and its values, in a vector with a footprint of its own. */
    ghost predicate Holds(i: nat)
      requires i < |list| == |entries| == |cursors|
      reads `list, `entries, `cursors, list[i].values, list[i].values.Repr
    {
      var v := list[i].values;
      list[i].key == entries[i].key && v.Valid() && v.contents == entries[i].values && v.cursor == cursors[i]
    }

    /** Everything but the tail pointer is in order. */
    ghost predicate Linked()
      reads this, Repr
    {
      && this in Repr && (forall n <- nodes :: n in Repr)
      && ChainOk() && |nodes| == |list| == |entries| == |cursors| && UniqueKeys(entries)
      && (forall i :: 0 <= i < |list| ==>
            var v := list[i].values;
            v in Repr && v.Repr <= Repr && this !in v.Repr && (forall n <- nodes :: n !in v.Repr) && Holds(i))
      && (forall i, j :: 0 <= i < j < |list| ==> list[i].values.Repr !! list[j].values.Repr)
    }

    ghost predicate Valid()
      reads this, Repr
      ensures Valid() ==> this in Repr
    {
      Linked() && TailOk()
    }

    constructor ()
      ensures Valid() && fresh(Repr) && entries == [] && cursor == 0 && cursors == []
    {
      count, current, head, tail := 0, null, null, null;
      nodes, list, entries, cursor, cursors, Repr := [], [], [], 0, [], {this};
    }

    // ------------------------------------------------------------ looking up

    method Size() returns (n: int)
      requires Valid()
      ensures n == |entries|
    {
      n := count;
    }

    method FindProperty(key: string) returns (node: Node?<Property>)
      requires Valid()
      ensures node == At(nodes, Find(entries, key))
    {
      hide Vector.Valid, Chained, Distinct, Labelled, UniqueKeys;
      node := head;
      ghost var i := 0;
      while node != null
        invariant i <= |nodes| && node == At(nodes, i)
        invariant forall j :: 0 <= j < i ==> entries[j].key != key
        decreases |nodes| - i
      {
        ChainedAt(nodes, i);
        LabelledAt(nodes, list, i);
        assert Holds(i);
        if node.value.key == key {
          FindIs(entries, key, i);
          return;
        }
        node := node.next;
        i := i + 1;
      }
      FindIs(entries, key, i);
    }

    /** The vector of a key is the one inside the list, not a copy. */
    method GetProperty(key: string) returns (values: Vector?)
      requires Valid()
      ensures var i := Find(entries, key);
              if i < |entries| then
                values != null && values == list[i].values && values.Valid() && values.contents == entries[i].values
                && i < |cursors| && values.cursor == cursors[i]
              else values == null
    {
      var node := FindProperty(key);
      values := if node == null then null else node.value.values;
      if node != null { assert Holds(Find(entries, key)); }
    }

    method Contains(key: string) returns (r: bool)
      requires Valid()
      ensures r <==> key in Keys(entries)
    {
      var values := GetProperty(key);
      r := values != null;
      if r { assert Keys(entries)[Find(entries, key)] == key; }
    }

    lemma OwnKey(i: nat)
      requires Valid() && i < |entries|
      ensures Find(entries, entries[i].key) == i
    {
      hide Vector.Valid, ChainOk;
      FindIs(entries, entries[i].key, i);
    }

    // ------------------------------------------------------------ the cursor

    method ResetPointer()
      requires Valid()
      modifies this`current, this`cursor
      ensures Valid() && cursor == 0
    {
      hide Vector.Valid, Chained, Distinct, Labelled, UniqueKeys;
      current, cursor := head, 0;
    }

    /** The key at the cursor, which moves on; nothing at the end. */
    method GetNextKey() returns (key: Option<string>)
      requires Valid()
      modifies this`current, this`cursor
      ensures Valid()
      ensures if old(cursor) < |entries| then key == Some(entries[old(cursor)].key) && cursor == old(cursor) + 1
              else key == None && cursor == old(cursor)
    {
      hide Vector.Valid, Chained, Distinct, Labelled, UniqueKeys;
      if current == null { return None; }
      var node := current;
      ChainedAt(nodes, cursor);
      LabelledAt(nodes, list, cursor);
      assert Holds(cursor);
      current, cursor := current.next, cursor + 1;
      key := Some(node.value.key);
    }

    // ------------------------------------------------------------ adding

    /** Adds a value to the key's vector, or a new key at the end. */
    method Put(key: string, value: string)
      requires Valid()
      modifies Repr
      ensures Valid() && fresh(Repr - old(Repr)) && |old(cursors)| == |old(entries)|
      ensures entries == Multimap.Put(old(entries), key, value) && cursors == PutCursors(old(entries), old(cursors), key)
      ensures cursor == if old(cursor) == |old(entries)| > 0 then |entries| else old(cursor)
    {
      var node := FindProperty(key);
      ghost var i := Find(entries, key);
      if node != null {
        AddValue(node, value, i);
      } else {
        AddKey(key, value);
      }
    }

    method AddValue(node: Node<Property>, value: string, ghost i: nat)
      requires Valid() && i < |nodes| && node == nodes[i]
      modifies Repr
      ensures Valid() && fresh(Repr - old(Repr)) && cursor == old(cursor) && |old(cursors)| == |old(entries)|
      ensures cursors == old(cursors)[i := AddedCursor(old(entries)[i], old(cursors)[i])]
      ensures entries == old(entries)[i := Entry(old(entries)[i].key, old(entries)[i].values + [value])]
    {
      hide Chained, Distinct, Labelled, Vector.Valid;
      LabelledAt(nodes, list, i);
      assert Holds(i);
      node.value.values.SizeOf();
      node.value.values.Add(value);
      node.value.values.SizeOf();
      Grow(i, Entry(entries[i].key, entries[i].values + [value]));
    }

    /** The same as `Linked` but for the property at `i`, whose vector holds the values of `e` now. */
    ghost predicate LinkedBut(i: nat, e: Entry)
      requires i < |list|
      reads this, Repr, list[i].values, list[i].values.Repr
    {
      && this in Repr && (forall n <- nodes :: n in Repr)
      && ChainOk() && |nodes| == |list| == |entries| == |cursors| && UniqueKeys(entries) && entries[i].key == e.key
      && (forall k :: 0 <= k < |list| && k != i ==>
            var v := list[k].values;
            v in Repr && v.Repr <= Repr && this !in v.Repr && (forall n <- nodes :: n !in v.Repr) && Holds(k)
            && v.Repr !! list[i].values.Repr)
      && (forall k, l :: 0 <= k < l < |list| && k != i && l != i ==> list[k].values.Repr !! list[l].values.Repr)
      && var v := list[i].values;
         v in Repr && this !in v.Repr && (forall n <- nodes :: n !in v.Repr)
         && list[i].key == e.key && v.Valid() && v.contents == e.values
    }

    ghost method Grow(i: nat, e: Entry)
      requires i < |list| && LinkedBut(i, e)
      modifies `Repr, `entries, `cursors
      ensures Linked() && Repr == old(Repr) + list[i].values.Repr
      ensures |old(entries)| == |old(cursors)| == |list| && entries == old(entries)[i := e]
      ensures cursors == old(cursors)[i := list[i].values.cursor]
    {
      hide Vector.Valid, ChainOk;
      Repr := Repr + list[i].values.Repr;
      entries, cursors := entries[i := e], cursors[i := list[i].values.cursor];
      forall k | 0 <= k < |list| ensures Holds(k) {
        if k != i { assert old(Holds(k)); }
      }
    }

    method AddKey(key: string, value: string)
      requires Valid() && Find(entries, key) == |entries|
      modifies Repr
      ensures Valid() && fresh(Repr - old(Repr)) && cursors == old(cursors) + [0]
      ensures entries == old(entries) + [Entry(key, [value])]
      ensures cursor == if old(cursor) == |old(entries)| > 0 then |entries| else old(cursor)
    {
      hide Vector.Valid, ChainOk, UniqueKeys;
      PutKeeps(entries, key, value);
      assert Multimap.Put(entries, key, value) == entries + [Entry(key, [value])];
      var values := new Vector();
      values.Add(value);
      AppendProperty(key, values, Entry(key, [value]));
    }

    method AppendProperty(key: string, values: Vector, ghost e: Entry)
      requires Valid() && values.Repr !! Repr
      requires UniqueKeys(entries + [e]) && key == e.key && values.Valid() && values.contents == e.values
      modifies Repr
      ensures Valid() && fresh(Repr - old(Repr) - values.Repr) && values.Repr == old(values.Repr)
      ensures entries == old(entries) + [e] && cursors == old(cursors) + [old(values.cursor)]
      ensures cursor == if old(cursor) == |old(entries)| > 0 then |entries| else old(cursor)
    {
      hide Vector.Valid, ChainOk, UniqueKeys;
      var newNode := new Node(Property(key, values));
      LinkNode(newNode);
      Adopt(newNode, values, e);
    }

    /** The same as `Linked` but for a node that has just been linked behind the others. */
    ghost predicate LinkedBefore(newNode: Node<Property>)
      reads this, Repr, nodes
    {
      && this in Repr && newNode !in Repr && ChainOk()
      && |nodes| == |list| == |entries| + 1 == |cursors| + 1 && UniqueKeys(entries)
      && nodes[|entries|] == newNode && (forall n <- nodes[..|entries|] :: n in Repr)
      && (forall i :: 0 <= i < |entries| ==>
            var v := list[i].values;
            v in Repr && v.Repr <= Repr && this !in v.Repr && (forall n <- nodes[..|entries|] :: n !in v.Repr)
            && list[i].key == entries[i].key && v.Valid() && v.contents == entries[i].values && v.cursor == cursors[i])
      && (forall i, j :: 0 <= i < j < |entries| ==> list[i].values.Repr !! list[j].values.Repr)
    }

    /** The new node and its vector become part of the list. */
    ghost method Adopt(newNode: Node<Property>, values: Vector, e: Entry)
      requires LinkedBefore(newNode) && values.Repr !! Repr && newNode !in values.Repr
      requires UniqueKeys(entries + [e]) && values.Valid() && values.contents == e.values
      requires list[|entries|] == Property(e.key, values)
      modifies `Repr, `entries, `cursors
      ensures Linked() && Repr == old(Repr) + {newNode} + values.Repr
      ensures entries == old(entries) + [e] && cursors == old(cursors) + [values.cursor]
    {
      hide Vector.Valid, ChainOk, UniqueKeys;
      Repr := Repr + {newNode} + values.Repr;
      entries, cursors := entries + [e], cursors + [values.cursor];
    }

    method LinkNode(newNode: Node<Property>)
      requires ChainOk() && TailOk() && newNode !in nodes && newNode.next == null
      modifies this, nodes
      ensures ChainOk() && TailOk() && nodes == old(nodes) + [newNode] && list == old(list) + [newNode.value]
      ensures entries == old(entries) && Repr == old(Repr) && cursors == old(cursors)
      ensures cursor == if old(cursor) == |old(nodes)| > 0 then |nodes| else old(cursor)
    {
      hide Chained, Distinct, Labelled;
      if nodes != [] { OnlyAt(nodes, |nodes| - 1); }
      if count == 0 {
        head, current := newNode, newNode;
      } else {
        tail.next := newNode;
      }
      tail := newNode;
      count := count + 1;
      cursor := if cursor == |nodes| > 0 then |nodes| + 1 else cursor;
      AppendKeeps(nodes, list, newNode);
      ChainedAppend(nodes, newNode);
      nodes, list := nodes + [newNode], list + [newNode.value];
    }

    /** The same from one string: nothing is added if it has no colon; the first one separates key
        and value. */
    method PutPair(data: string) returns (status: int)
      requires Valid()
      modifies Repr
      ensures Valid() && fresh(Repr - old(Repr))
      ensures var i := IndexOf(data, ':');
              if i < |data| then status == 0 && entries == Multimap.Put(old(entries), data[..i], data[i + 1..])
              else status == -1 && entries == old(entries)
    {
      var index := 0;
      while index < |data| && data[index] != ':'
        invariant 0 <= index <= |data| && ':' !in data[..index]
      {
        index := index + 1;
      }
      IndexOfIs(data, ':', index);
      if index < |data| {
        Put(data[..index], data[index + 1..]);
        return 0;
      }
      status := -1;
    }

    // ------------------------------------------------------------ removing

    method Clear()
      requires Valid()
      modifies Repr
      ensures Valid() && Repr == old(Repr) && entries == [] && cursor == 0 && cursors == []
    {
      count, head, tail, current := 0, null, null, null;
      nodes, list, entries, cursor, cursors := [], [], [], 0, [];
    }

    /** Takes a key and all its values off the list; the cursor steps back if its property goes,
        unless that was the first one. */
    method Remove(key: string) returns (status: int)
      requires Valid()
      modifies Repr
      ensures Valid() && Repr == old(Repr) && entries == Multimap.Remove(old(entries), key)
      ensures var i := Find(old(entries), key);
              status == (if i < |old(entries)| then 0 else -1)
              && i <= |old(cursors)| && cursors == (if i < |old(entries)| then Without(old(cursors), i) else old(cursors))
              && cursor == if i < old(cursor) || (i == old(cursor) && 0 < i < |old(entries)|) then old(cursor) - 1 else old(cursor)
    {
      hide Linked, Valid, Multimap.Remove, Without, Find;
      var node, prev := head, null;
      AtPosition(0);
      ghost var i := 0;
      while node != null
        invariant Valid() && Repr == old(Repr) && entries == old(entries) && cursor == old(cursor) && cursors == old(cursors)
        invariant i <= |nodes| == |entries| && node == At(nodes, i)
        invariant prev == if i == 0 then null else nodes[i - 1]
        invariant forall j :: 0 <= j < i ==> entries[j].key != key
        decreases |nodes| - i
      {
        AtPosition(i);
        if node.value.key == key {
          FindIs(entries, key, i);
          RemoveIs(entries, key);
          LinkedIfValid();
          NodesInside();
          UnlinkNode(prev, node, i);
          return 0;
        }
        prev := node;
        node := node.next;
        i := i + 1;
      }
      FindIs(entries, key, i);
      RemoveIs(entries, key);
      status := -1;
    }

    lemma RemoveIs(m: seq<Entry>, key: string)
      ensures var i := Find(m, key); Multimap.Remove(m, key) == if i < |m| then Without(m, i) else m
    {}

    lemma NodesInside()
      requires Linked()
      ensures this in Repr && forall n <- nodes :: n in Repr
    {}

    /** Takes the node at `i` off the chain and repairs the tail. */
    method UnlinkNode(prev: Node?<Property>, node: Node<Property>, ghost i: nat)
      requires Valid() && i < |nodes| && node == nodes[i] && prev == (if i == 0 then null else nodes[i - 1])
      modifies this, nodes
      ensures Valid() && Repr == old(Repr) && entries == Without(old(entries), i) && cursors == Without(old(cursors), i)
      ensures cursor == if i < old(cursor) || i == old(cursor) > 0 then old(cursor) - 1 else old(cursor)
    {
      hide Vector.Valid, ChainOk, UniqueKeys;
      UnlinkChain(prev, node, i);
      forall k | 0 <= k < |list| ensures HoldsAs(k, i) {
        assert old(Holds(if k < i then k else k + 1));
      }
      Drop(i);
    }

    /** The property at `k` holds the entry it holds once entry `i` is gone. */
    ghost predicate HoldsAs(k: nat, i: nat)
      requires k < |list| == |entries| - 1 == |cursors| - 1
      reads this, list[k].values, list[k].values.Repr
    {
      var v, e := list[k].values, if k < i then k else k + 1;
      v in Repr && v.Repr <= Repr && this !in v.Repr && (forall n <- nodes :: n !in v.Repr)
      && list[k].key == entries[e].key && v.Valid() && v.contents == entries[e].values && v.cursor == cursors[e]
    }

    /** The entry of a property that has been taken off goes too. */
    ghost method Drop(i: nat)
      requires this in Repr && (forall n <- nodes :: n in Repr) && ChainOk() && UniqueKeys(entries)
      requires |nodes| == |list| == |entries| - 1 == |cursors| - 1 && i < |entries|
      requires forall k :: 0 <= k < |list| ==> HoldsAs(k, i)
      requires forall k, l :: 0 <= k < l < |list| ==> list[k].values.Repr !! list[l].values.Repr
      modifies `entries, `cursors
      ensures Linked() && entries == Without(old(entries), i) && cursors == Without(old(cursors), i)
    {
      hide Vector.Valid, ChainOk, UniqueKeys;
      UniqueWithout(entries, i);
      entries, cursors := Without(entries, i), Without(cursors, i);
      forall k | 0 <= k < |list|
        ensures Holds(k)
        ensures var v := list[k].values; v in Repr && v.Repr <= Repr && this !in v.Repr && forall n <- nodes :: n !in v.Repr
      {
        assert old(HoldsAs(k, i));
      }
    }

    lemma UniqueWithout(m: seq<Entry>, i: nat)
      requires UniqueKeys(m) && i < |m|
      ensures UniqueKeys(Without(m, i))
    {}

    method UnlinkChain(prev: Node?<Property>, node: Node<Property>, ghost i: nat)
      requires ChainOk() && TailOk() && i < |nodes| && node == nodes[i]
      requires prev == (if i == 0 then null else nodes[i - 1])
      modifies this, nodes
      ensures ChainOk() && TailOk() && Repr == old(Repr) && entries == old(entries) && cursors == old(cursors)
      ensures nodes == Without(old(nodes), i) && list == Without(old(list), i)
      ensures forall n <- nodes :: n in old(nodes)
      ensures cursor == if i < old(cursor) || i == old(cursor) > 0 then old(cursor) - 1 else old(cursor)
    {
      hide Without, Distinct, Labelled, Chained;
      ghost var was := nodes;
      ChainedAt(was, i);
      WithoutKeeps(nodes, list, i);
      DistinctAt(nodes, i, cursor);
      DistinctAt(nodes, i, |nodes| - 1);
      SkipNode(prev, node, i);
      nodes, list := Without(was, i), Without(list, i);
      cursor := if i < cursor || i == cursor > 0 then cursor - 1 else cursor;
      ChainedWithout(was, i);
      AtWithout(was, i, 0);
      AtWithout(was, i, cursor);
      if |was| > 1 { AtWithout(was, i, |was| - 2); }
    }

    /** The assignments that lead past a node. */
    method SkipNode(prev: Node?<Property>, node: Node<Property>, ghost i: nat)
      requires i < |nodes| && node == nodes[i] && prev == (if i == 0 then null else nodes[i - 1]) && Distinct(nodes)
      modifies `head, `tail, `current, `count, nodes
      ensures forall k :: 0 <= k < |nodes| && k != i - 1 ==> nodes[k].next == old(nodes[k].next)
      ensures i > 0 ==> nodes[i - 1].next == old(node.next)
      ensures head == (if i == 0 then old(node.next) else old(head)) && count == old(count) - 1
      ensures tail == if i > 0 && node == old(tail) then prev else old(tail)
      ensures current == if old(current) != node then old(current) else if i == 0 then old(node.next) else prev
    {
      hide Distinct;
      if i > 0 { OnlyAt(nodes, i - 1); }
      if prev == null {
        head := node.next;
        if current == node {
          current := node.next;
        }
      } else {
        DistinctAt(nodes, i, i - 1);
        if node == tail {
          tail := prev;
        }
        if current == node {
          current := prev;
        }
        prev.next := node.next;
      }
      count := count - 1;
    }

    // ------------------------------------------------------------ copying

    /** What a walk along the list finds at position `i`. */
    lemma AtPosition(i: nat)
      requires Valid() && i <= |entries|
      ensures this in Repr && |nodes| == |list| == |entries| == |cursors| == count && cursor <= |nodes| && head == At(nodes, 0) && UniqueKeys(entries)
      ensures i < |nodes| ==>
                nodes[i] in Repr && nodes[i].next == At(nodes, i + 1) && (nodes[i] == current <==> cursor == i)
                && nodes[i].value == list[i] && list[i].key == entries[i].key
                && list[i].values.Valid() && list[i].values.contents == entries[i].values && list[i].values.cursor == cursors[i]
    {
      hide Vector.Valid, Distinct, Chained, Labelled, UniqueKeys;
      if i < |nodes| {
        LabelledAt(nodes, list, i);
        ChainedAt(nodes, i);
        DistinctAt(nodes, i, cursor);
        assert Holds(i);
      }
    }

    method PointAt(node: Node<Property>, ghost i: nat)
      requires Linked() && i < |nodes| && node == nodes[i]
      modifies `current, `cursor
      ensures Linked() && cursor == i
    {
      hide Vector.Valid, Distinct, Chained, Labelled, UniqueKeys;
      current, cursor := node, i;
    }

    method EndAt(node: Node<Property>)
      requires Linked() && nodes != [] && node == nodes[|nodes| - 1]
      modifies `tail
      ensures Linked() && Valid()
    {
      hide Vector.Valid, ChainOk, UniqueKeys;
      tail := node;
    }

    /** The first `i` properties have been copied; `last` is the node of the last one. */
    ghost predicate Copied(copy: Properties, last: Node?<Property>, i: nat)
      reads this, Repr, copy, copy.Repr
    {
      && Valid() && i <= |nodes| == |entries| == |cursors| && copy.Repr !! Repr
      && copy.Linked() && |copy.nodes| == i && last == (if i == 0 then null else copy.nodes[i - 1])
      && copy.entries == entries[..i] && copy.cursor == (if cursor < i then cursor else i) && copy.cursors == cursors[..i]
      && (i == |nodes| ==> copy.Valid())
    }

    lemma CopyDone(copy: Properties, last: Node?<Property>, i: nat)
      requires Copied(copy, last, i) && i == |nodes|
      ensures copy.Valid() && copy.entries == entries && copy.cursor == cursor && copy.cursors == cursors
    {
      hide Linked, Valid;
      AtPosition(0);
    }

    lemma CopyStart(copy: Properties)
      requires Valid() && copy.Valid() && copy.Repr !! Repr
      requires copy.entries == [] && copy.cursor == 0 && copy.cursors == []
      ensures Copied(copy, null, 0)
    {
      hide ChainOk, Vector.Valid, UniqueKeys;
    }

    /** A deep copy: its own nodes and vectors, the same multimap, the cursor at the same position and
        those of the vectors too. */
    method Clone() returns (copy: Properties)
      requires Valid()
      ensures copy.Valid() && fresh(copy.Repr)
      ensures copy.entries == entries && copy.cursor == cursor && copy.cursors == cursors
    {
      hide Linked, Valid, Copied;
      copy := new Properties();
      CopyStart(copy);
      AtPosition(0);
      var last: Node?<Property> := null;
      ghost var i := 0;
      if count == 0 {
        CopyDone(copy, last, i);
        return;
      }
      var ptr := head;
      while ptr != null
        invariant i <= |nodes| && ptr == At(nodes, i)
        invariant fresh(copy.Repr) && Copied(copy, last, i)
        decreases |nodes| - i
      {
        AtPosition(i);
        last := CopyNode(copy, last, ptr, i);
        ptr := ptr.next;
        i := i + 1;
      }
      CopyDone(copy, last, i);
    }

    lemma LinkedIfValid()
      requires Valid()
      ensures Linked()
    {}

    /** The loop body of the copy: a new node with a copy of the vector, behind the nodes already copied. */
    method CopyNode(copy: Properties, last: Node?<Property>, ptr: Node<Property>, ghost i: nat) returns (newNode: Node<Property>)
      requires Copied(copy, last, i) && i < |nodes| && ptr == nodes[i]
      modifies copy.Repr
      ensures Copied(copy, newNode, i + 1) && fresh(copy.Repr - old(copy.Repr))
    {
      hide Linked, UniqueKeys, Vector.Valid, Vector.Linked;
      AtPosition(i);
      ptr.value.values.LinkedIfValid();
      UniquePrefix(entries, i + 1);
      assert copy.entries + [entries[i]] == entries[..i + 1];
      var values := ptr.value.values.Clone();
      newNode := copy.AppendCopy(last, ptr.value.key, values, entries[i]);
      if current == ptr {
        copy.PointAt(newNode, i);
      }
      if ptr.next == null {
        copy.EndAt(newNode);
      }
    }

    lemma UniquePrefix(m: seq<Entry>, n: nat)
      requires UniqueKeys(m) && n <= |m|
      ensures UniqueKeys(m[..n])
    {}

    /** One step of copying: a new node behind `last`, with a vector of its own. */
    method AppendCopy(last: Node?<Property>, key: string, values: Vector, ghost e: Entry) returns (newNode: Node<Property>)
      requires Linked() && last == (if nodes == [] then null else nodes[|nodes| - 1])
      requires UniqueKeys(entries + [e]) && key == e.key && values.Valid() && values.contents == e.values
      requires values.Repr !! Repr
      modifies Repr
      ensures Linked() && fresh(Repr - old(Repr) - values.Repr) && nodes == old(nodes) + [newNode]
      ensures values.Repr == old(values.Repr) && cursors == old(cursors) + [old(values.cursor)]
      ensures entries == old(entries) + [e] && current == old(current) && tail == old(tail)
      ensures cursor == if old(cursor) == |old(nodes)| then |nodes| else old(cursor)
    {
      hide Vector.Valid, ChainOk, UniqueKeys;
      newNode := new Node(Property(key, values));
      LinkCopy(last, newNode);
      Adopt(newNode, values, e);
    }

    method LinkCopy(last: Node?<Property>, newNode: Node<Property>)
      requires ChainOk() && newNode !in nodes && newNode.next == null
      requires last == (if nodes == [] then null else nodes[|nodes| - 1])
      modifies this, nodes
      ensures ChainOk() && nodes == old(nodes) + [newNode] && list == old(list) + [newNode.value]
      ensures entries == old(entries) && Repr == old(Repr) && current == old(current) && tail == old(tail) && cursors == old(cursors)
      ensures cursor == if old(cursor) == |old(nodes)| then |nodes| else old(cursor)
    {
      hide Distinct, Chained, Labelled;
      if nodes != [] { OnlyAt(nodes, |nodes| - 1); }
      count := count + 1;
      if last != null {
        last.next := newNode;
      } else {
        head := newNode;
      }
      AppendKeeps(nodes, list, newNode);
      ChainedAppend(nodes, newNode);
      cursor := if cursor == |nodes| then |nodes| + 1 else cursor;
      nodes, list := nodes + [newNode], list + [newNode.value];
    }
  }
}
