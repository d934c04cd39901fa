/**
 Ordered multimaps: keys in the order they were first put, each with its values in the order
 they were put.  This is what an RRPPROPERTIES list stands for, and what both clients make of
 the attributes of a response.
 */
module Multimap {

  datatype Entry = Entry(key: string, values: seq<string>)

  type Pair = (string, string)

  /** The position of a key, or the length if it is absent. */
  function Find(m: seq<Entry>, key: string): (i: nat)
    ensures i <= |m|
    ensures i < |m| ==> m[i].key == key
    ensures forall j :: 0 <= j < i ==> m[j].key != key
  {
    if m == [] || m[0].key == key then 0 else 1 + Find(m[1..], key)
  }

  function Put(m: seq<Entry>, key: string, value: string): seq<Entry> {
    var i := Find(m, key);
    if i < |m| then m[i := Entry(key, m[i].values + [value])] else m + [Entry(key, [value])]
  }

  function Remove(m: seq<Entry>, key: string): seq<Entry> {
    var i := Find(m, key);
    if i < |m| then m[..i] + m[i + 1..] else m
  }

  /** The values of a key, none if it is absent. */
  function Values(m: seq<Entry>, key: string): seq<string> {
    var i := Find(m, key);
    if i < |m| then m[i].values else []
  }

  ghost predicate UniqueKeys(m: seq<Entry>) {
    forall i, j :: 0 <= i < j < |m| ==> m[i].key != m[j].key
  }

  function Keys(m: seq<Entry>): (r: seq<string>)
    ensures |r| == |m| && forall i :: 0 <= i < |r| ==> r[i] == m[i].key
  {
    seq(|m|, i requires 0 <= i < |m| => m[i].key)
  }

  lemma FindIs(m: seq<Entry>, key: string, i: nat)
    requires i <= |m| && (i < |m| ==> m[i].key == key) && forall j :: 0 <= j < i ==> m[j].key != key
    ensures Find(m, key) == i
  {}

  lemma PutKeeps(m: seq<Entry>, key: string, value: string)
    requires UniqueKeys(m)
    ensures UniqueKeys(Put(m, key, value))
    ensures Keys(Put(m, key, value)) == if key in Keys(m) then Keys(m) else Keys(m) + [key]
  {
    var i := Find(m, key);
    if i < |m| {
      assert Keys(m)[i] == key;
    }
  }

  /** Putting extends the values of one key and leaves those of the others. */
  lemma PutValues(m: seq<Entry>, key: string, value: string, other: string)
    requires UniqueKeys(m)
    ensures Values(Put(m, key, value), other) == Values(m, other) + if other == key then [value] else []
  {
    var after := Put(m, key, value);
    var i, j := Find(m, key), Find(m, other);
    if j < |m| {
      FindIs(after, other, j);
    } else {
      FindIs(after, other, if other == key then |m| else |after|);
    }
  }

  /** Removing takes one key and all its values, and nothing else. */
  lemma RemoveValues(m: seq<Entry>, key: string, other: string)
    requires UniqueKeys(m)
    ensures UniqueKeys(Remove(m, key))
    ensures Values(Remove(m, key), other) == if other == key then [] else Values(m, other)
  {
    hide Find;
    var after := Remove(m, key);
    var i, j := Find(m, key), Find(m, other);
    if i < |m| {
      assert forall k :: 0 <= k < |after| ==> after[k] == if k < i then m[k] else m[k + 1];
      FindIs(after, other, if other == key || j == |m| then |after| else if j < i then j else j - 1);
    }
  }

  // ---------------------------------------------------------------- a run of puts

  function PutAll(pairs: seq<Pair>): seq<Entry> {
    if pairs == [] then []
    else
      var last := pairs[|pairs| - 1];
      Put(PutAll(pairs[..|pairs| - 1]), last.0, last.1)
  }

  /** The values given for a key, in order. */
  function ValuesOf(pairs: seq<Pair>, key: string): seq<string> {
    if pairs == [] then []
    else
      var last := pairs[|pairs| - 1];
      ValuesOf(pairs[..|pairs| - 1], key) + if last.0 == key then [last.1] else []
  }

  /** The keys given, in the order of their first occurrence. */
  function FirstKeys(pairs: seq<Pair>): seq<string> {
    if pairs == [] then []
    else
      var before, key := FirstKeys(pairs[..|pairs| - 1]), pairs[|pairs| - 1].0;
      if key in before then before else before + [key]
  }

  /** A run of puts groups the pairs by key: keys once each in the order of their first occurrence,
      each with exactly its own values in the order they were given. */
  lemma {:induction false} PutAllGroups(pairs: seq<Pair>, key: string)
    ensures UniqueKeys(PutAll(pairs)) && Keys(PutAll(pairs)) == FirstKeys(pairs)
    ensures Values(PutAll(pairs), key) == ValuesOf(pairs, key)
    decreases |pairs|
  {
    if pairs != [] {
      var before, last := pairs[..|pairs| - 1], pairs[|pairs| - 1];
      PutAllGroups(before, key);
      PutKeeps(PutAll(before), last.0, last.1);
      PutValues(PutAll(before), last.0, last.1, key);
    }
  }

  // ---------------------------------------------------------------- any run

  datatype Op = PutOp(key: string, value: string) | RemoveOp(key: string) | ClearOp

  function RunOf(ops: seq<Op>): seq<Entry> {
    if ops == [] then []
    else
      var before := RunOf(ops[..|ops| - 1]);
      match ops[|ops| - 1]
      case PutOp(key, value) => Put(before, key, value)
      case RemoveOp(key) => Remove(before, key)
      case ClearOp => []
  }

  /** The values put for a key since it was last removed or the list was last cleared. */
  function Live(ops: seq<Op>, key: string): seq<string> {
    if ops == [] then []
    else
      var before := Live(ops[..|ops| - 1], key);
      match ops[|ops| - 1]
      case PutOp(k, value) => if k == key then before + [value] else before
      case RemoveOp(k) => if k == key then [] else before
      case ClearOp => []
  }

  function Drop(keys: seq<string>, key: string): seq<string> {
    if keys == [] then []
    else (if keys[0] == key then [] else [keys[0]]) + Drop(keys[1..], key)
  }

  /** The keys that have such values, in the order in which they came in. */
  function LiveKeys(ops: seq<Op>): seq<string> {
    if ops == [] then []
    else
      var before := LiveKeys(ops[..|ops| - 1]);
      match ops[|ops| - 1]
      case PutOp(key, _) => if key in before then before else before + [key]
      case RemoveOp(key) => Drop(before, key)
      case ClearOp => []
  }

  lemma {:induction false} DropAbsent(keys: seq<string>, key: string)
    requires key !in keys
    ensures Drop(keys, key) == keys
    decreases |keys|
  {
    if keys != [] {
      assert keys[0] in keys;
      DropAbsent(keys[1..], key);
    }
  }

  lemma {:induction false} DropOne(a: seq<string>, key: string, b: seq<string>)
    requires key !in a && key !in b
    ensures Drop(a + [key] + b, key) == a + b
    decreases |a|
  {
    var all := a + [key] + b;
    if a == [] {
      assert all[1..] == b;
      DropAbsent(b, key);
    } else {
      assert a[0] in a && all[1..] == a[1..] + [key] + b;
      DropOne(a[1..], key, b);
    }
  }

  lemma RemoveKeys(m: seq<Entry>, key: string)
    requires UniqueKeys(m)
    ensures Keys(Remove(m, key)) == Drop(Keys(m), key)
  {
    hide Find, Drop;
    var i, keys := Find(m, key), Keys(m);
    if i < |m| {
      assert keys == keys[..i] + [key] + keys[i + 1..];
      DropOne(keys[..i], key, keys[i + 1..]);
      assert Keys(Remove(m, key)) == keys[..i] + keys[i + 1..];
    } else {
      DropAbsent(keys, key);
    }
  }

  /** After any run of puts, removals and clearings: each key once, in the order in which they came
      in, each with exactly the values put since it was last taken off. */
  lemma {:induction false} RunRefines(ops: seq<Op>, key: string)
    ensures UniqueKeys(RunOf(ops)) && Keys(RunOf(ops)) == LiveKeys(ops)
    ensures Values(RunOf(ops), key) == Live(ops, key)
    decreases |ops|
  {
    hide UniqueKeys, Find, Keys, Put, Remove, Values, Drop;
    NothingHeld(key);
    if ops != [] {
      var before := RunOf(ops[..|ops| - 1]);
      RunRefines(ops[..|ops| - 1], key);
      match ops[|ops| - 1]
      case PutOp(k, value) =>
        PutKeeps(before, k, value);
        PutValues(before, k, value, key);
      case RemoveOp(k) =>
        RemoveValues(before, k, key);
        RemoveKeys(before, k);
      case ClearOp =>
    }
  }

  lemma NothingHeld(key: string)
    ensures UniqueKeys([]) && Keys([]) == [] && Values([], key) == []
  {}
}
