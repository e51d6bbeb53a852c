/**
 * `traverse_dicts_recursively` and `identity` (src/util/__init__.py).
 */
module UtilTraverse {
  import opened Seqs

  /**
   * A parsed JSON-like value: a dict (its keys and, in the same order, its values),
   * a list, or anything else (a scalar).
   */
  datatype Json = Object(keys: seq<string>, values: seq<Json>) | Array(items: seq<Json>) | Scalar(text: string)

  /**
   * `traverse_dicts_recursively(obj)`: the dicts nested in `obj`, each one after
   * everything nested inside it (post-order); scalars yield nothing. A dict is handled
   * by traversing the list of its values and then yielding the dict itself.
   */
  function Traverse(obj: Json): seq<Json>
  {
    match obj
    case Object(_, values) => TraverseList(values) + [obj]
    case Array(items) => TraverseList(items)
    case Scalar(_) => []
  }

  /** The list branch: every element traversed in turn, results concatenated. */
  function TraverseList(items: seq<Json>): seq<Json>
  {
    if items == [] then [] else Traverse(items[0]) + TraverseList(items[1..])
  }

  /** Number of dict occurrences in `obj`, counted independently of the traversal. */
  function DictCount(obj: Json): nat
  {
    match obj
    case Object(_, values) => 1 + DictCountList(values)
    case Array(items) => DictCountList(items)
    case Scalar(_) => 0
  }

  function DictCountList(items: seq<Json>): nat
  {
    if items == [] then 0 else DictCount(items[0]) + DictCountList(items[1..])
  }

  /**
   * `x` is a dict found in `obj`: `obj` itself when it is a dict, or a dict found in one
   * of its values or items.
   */
  predicate NestedDict(x: Json, obj: Json)
    decreases obj, 1
  {
    match obj
    case Object(_, values) => x == obj || NestedInList(x, values)
    case Array(items) => NestedInList(x, items)
    case Scalar(_) => false
  }

  predicate NestedInList(x: Json, items: seq<Json>)
    decreases items, 0
  {
    exists k :: 0 <= k < |items| && NestedDict(x, items[k])
  }

  /** The traversal yields a value exactly when it is a dict found in `obj`. */
  lemma {:induction false} TraverseComplete(obj: Json, x: Json)
    ensures x in Traverse(obj) <==> NestedDict(x, obj)
    decreases obj, 1
  {
    match obj
    case Object(_, values) => TraverseListComplete(values, x);
    case Array(items) => TraverseListComplete(items, x);
    case Scalar(_) =>
  }

  lemma {:induction false} TraverseListComplete(items: seq<Json>, x: Json)
    ensures x in TraverseList(items) <==> NestedInList(x, items)
    decreases items, 0
  {
    if items != [] {
      var rest := items[1..];
      TraverseComplete(items[0], x);
      TraverseListComplete(rest, x);
      if NestedInList(x, items) {
        var k :| 0 <= k < |items| && NestedDict(x, items[k]);
        if k > 0 {
          assert rest[k - 1] == items[k];
        }
      }
      if NestedInList(x, rest) {
        var k :| 0 <= k < |rest| && NestedDict(x, rest[k]);
        assert rest[k] == items[k + 1];
      }
    }
  }

  /** The walk of a list is the walks of its parts one after the other. */
  lemma {:induction false} TraverseListAppend(a: seq<Json>, b: seq<Json>)
    ensures TraverseList(a + b) == TraverseList(a) + TraverseList(b)
  {
    if a == [] {
      assert a + b == b;
    } else {
      assert (a + b)[0] == a[0] && (a + b)[1..] == a[1..] + b;
      TraverseListAppend(a[1..], b);
    }
  }

  /**
   * Siblings are walked in order: the walk of a list is the walk of the items before
   * `k`, then the walk of item `k`, then the walk of the items after it, and item `k`'s
   * walk starts after one entry per dict found in the items before it.
   */
  lemma TraverseListSiblings(items: seq<Json>, k: nat)
    requires k < |items|
    ensures TraverseList(items) == TraverseList(items[..k]) + Traverse(items[k]) + TraverseList(items[k + 1..])
    ensures |TraverseList(items[..k])| == DictCountList(items[..k])
  {
    assert items == items[..k] + items[k..];
    TraverseListAppend(items[..k], items[k..]);
    assert items[k..][0] == items[k] && items[k..][1..] == items[k + 1..];
    TraverseListCount(items[..k]);
  }

  /**
   * Every dict found in `obj` is yielded, nothing else is, and there are as many items as
   * dict occurrences.
   */
  lemma {:induction false} TraverseCount(obj: Json)
    ensures |Traverse(obj)| == DictCount(obj)
    ensures forall x :: x in Traverse(obj) <==> NestedDict(x, obj)
  {
    forall x ensures x in Traverse(obj) <==> NestedDict(x, obj) {
      TraverseComplete(obj, x);
    }
    match obj
    case Object(_, values) => TraverseListCount(values);
    case Array(items) => TraverseListCount(items);
    case Scalar(_) =>
  }

  /**
   * The same for a list, whose items are walked in order, each walk where its position
   * puts it.
   */
  lemma {:induction false} TraverseListCount(items: seq<Json>)
    ensures |TraverseList(items)| == DictCountList(items)
    ensures forall x :: x in TraverseList(items) <==> NestedInList(x, items)
    ensures forall k :: 0 <= k < |items| ==>
              TraverseList(items) == TraverseList(items[..k]) + Traverse(items[k]) + TraverseList(items[k + 1..])
  {
    if items != [] {
      TraverseCount(items[0]);
      TraverseListCount(items[1..]);
    }
    forall x ensures x in TraverseList(items) <==> NestedInList(x, items) {
      TraverseListComplete(items, x);
    }
    forall k | 0 <= k < |items|
      ensures TraverseList(items) == TraverseList(items[..k]) + Traverse(items[k]) + TraverseList(items[k + 1..])
    {
      TraverseListSiblings(items, k);
    }
  }

  /** Only dicts are yielded, and only `obj` itself or values nested inside it. */
  lemma {:induction false} TraverseYieldsNestedDicts(obj: Json)
    ensures forall x :: x in Traverse(obj) ==> x.Object? && (x == obj || x < obj)
  {
    match obj
    case Object(_, values) => TraverseListYieldsNestedDicts(values);
    case Array(items) => TraverseListYieldsNestedDicts(items);
    case Scalar(_) =>
  }

  lemma {:induction false} TraverseListYieldsNestedDicts(items: seq<Json>)
    ensures forall x :: x in TraverseList(items) ==>
              x.Object? && exists k :: 0 <= k < |items| && (x == items[k] || x < items[k])
  {
    if items != [] {
      TraverseYieldsNestedDicts(items[0]);
      TraverseListYieldsNestedDicts(items[1..]);
      forall x | x in TraverseList(items[1..])
        ensures exists k :: 0 <= k < |items| && (x == items[k] || x < items[k])
      {
        var k :| 0 <= k < |items[1..]| && (x == items[1..][k] || x < items[1..][k]);
        assert items[1..][k] == items[k + 1];
      }
    }
  }

  /**
   * Post-order: the item at position `i` is immediately preceded by everything the
   * traversal of that item yields, so a dict's nested dicts all come before it.
   */
  lemma {:induction false} TraversePostOrder(obj: Json, i: nat)
    requires i < |Traverse(obj)|
    ensures var t := Traverse(obj)[i];
            |Traverse(t)| <= i + 1 && Traverse(obj)[i + 1 - |Traverse(t)|..i + 1] == Traverse(t)
    decreases obj, 1
  {
    match obj
    case Object(_, _) => ObjectPostOrder(obj, i);
    case Array(items) => TraverseListPostOrder(items, i);
    case Scalar(_) =>
  }

  /** The dict case: its values' traversal, then the dict itself. */
  lemma {:induction false} ObjectPostOrder(obj: Json, i: nat)
    requires obj.Object? && i < |Traverse(obj)|
    ensures var t := Traverse(obj)[i];
            |Traverse(t)| <= i + 1 && Traverse(obj)[i + 1 - |Traverse(t)|..i + 1] == Traverse(t)
    decreases obj, 0
  {
    var inner := TraverseList(obj.values);
    var all := Traverse(obj);
    assert all == inner + [obj];
    if i < |inner| {
      TraverseListPostOrder(obj.values, i);
      var n := |Traverse(inner[i])|;
      assert all[i] == inner[i];
      SliceLeft(inner, [obj], i + 1 - n, i + 1);
    } else {
      assert all[i] == obj && |all| == i + 1;
      assert all[0..i + 1] == all;
    }
  }

  lemma {:induction false} TraverseListPostOrder(items: seq<Json>, i: nat)
    requires i < |TraverseList(items)|
    ensures var t := TraverseList(items)[i];
            |Traverse(t)| <= i + 1 && TraverseList(items)[i + 1 - |Traverse(t)|..i + 1] == Traverse(t)
    decreases items, 2
  {
    var head, tail := Traverse(items[0]), TraverseList(items[1..]);
    assert TraverseList(items) == head + tail;
    if i < |head| {
      TraversePostOrder(items[0], i);
      var n := |Traverse(head[i])|;
      SliceLeft(head, tail, i + 1 - n, i + 1);
    } else {
      var j := i - |head|;
      TraverseListPostOrder(items[1..], j);
      var n := |Traverse(tail[j])|;
      SliceRight(head, tail, i + 1 - n, i + 1);
    }
  }

  /** `identity` */
  function Identity<T>(arg: T): T
  {
    arg
  }
}
