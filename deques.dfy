/**
 * The double-ended queue contract (`Deque`) and its `ArrayList`-backed implementation.
 * Null returns become `None`.
 */
module Deques {
  import opened Wrappers
  import opened Sequences

  /** `ArrayListDeque`: the deque is the backing list, front first. */
  class ArrayListDeque<E> {
    var list: seq<E>

    constructor ()
      ensures list == []
    {
      list := [];
    }

    /** `list.add(0, element)`: the element becomes index 0 and the rest shift back by one. */
    method AddFirst(element: E)
      modifies this
      ensures list == [element] + old(list)
    {
      list := [element] + list;
    }

    /** `list.add(element)`: the element becomes index size() - 1. */
    method AddLast(element: E)
      modifies this
      ensures list == old(list) + [element]
    {
      list := list + [element];
    }

    /** The element at `index`, or null when `index` is outside [0, size()); never alters the deque. */
    method Get(index: int) returns (r: Option<E>)
      ensures 0 <= index < |list| ==> r == Some(list[index])
      ensures r.None? <==> index < 0 || |list| <= index
    {
      if index >= |list| || index < 0 {
        return None;
      }
      return Some(list[index]);
    }

    method Size() returns (n: nat)
      ensures n == |list|
    {
      return |list|;
    }

    /** The interface's default `isEmpty`: `size() == 0`. */
    method IsEmpty() returns (empty: bool)
      ensures empty <==> list == []
    {
      var n := Size();
      return n == 0;
    }

    /** Null on an empty deque; otherwise the front element, which is removed. */
    method RemoveFirst() returns (r: Option<E>)
      modifies this
      ensures old(list) == [] ==> r == None && list == []
      ensures old(list) != [] ==> r == Some(old(list)[0]) && list == old(list)[1..]
    {
      if |list| == 0 {
        return None;
      }
      r := Some(list[0]);
      list := list[1..];
    }

    /** Null on an empty deque; otherwise the back element, which is removed. */
    method RemoveLast() returns (r: Option<E>)
      modifies this
      ensures old(list) == [] ==> r == None && list == []
      ensures old(list) != [] ==> r == Some(old(list)[|old(list)| - 1]) && list == old(list)[..|old(list)| - 1]
    {
      if |list| == 0 {
        return None;
      }
      var last := |list| - 1;
      r := Some(list[last]);
      list := list[..last];
    }
  }

  /**
   * An independent reference deque made of two stacks: `front` holds the first elements in
   * order, `back` holds the last elements with the very last one first.
   */
  datatype RefDeque<E> = RefDeque(front: seq<E>, back: seq<E>)

  function RefContents<E>(d: RefDeque<E>): seq<E>
  {
    d.front + Reversed(d.back)
  }

  function RefAddFirst<E>(d: RefDeque<E>, x: E): (r: RefDeque<E>)
    ensures RefContents(r) == [x] + RefContents(d)
  {
    RefDeque([x] + d.front, d.back)
  }

  function RefAddLast<E>(d: RefDeque<E>, x: E): (r: RefDeque<E>)
    ensures RefContents(r) == RefContents(d) + [x]
  {
    RefDeque(d.front, [x] + d.back)
  }

  function RefRemoveFirst<E>(d: RefDeque<E>): (r: (Option<E>, RefDeque<E>))
    ensures RefContents(d) == [] ==> r.0 == None && RefContents(r.1) == []
    ensures RefContents(d) != [] ==>
      r.0 == Some(RefContents(d)[0]) && RefContents(r.1) == RefContents(d)[1..]
  {
    if d.front != [] then
      (Some(d.front[0]), RefDeque(d.front[1..], d.back))
    else if d.back != [] then
      var last := |d.back| - 1;
      ReversedSnoc(d.back[..last], d.back[last]);
      assert d.back[..last] + [d.back[last]] == d.back;
      (Some(d.back[last]), RefDeque([], d.back[..last]))
    else
      (None, d)
  }

  function RefRemoveLast<E>(d: RefDeque<E>): (r: (Option<E>, RefDeque<E>))
    ensures RefContents(d) == [] ==> r.0 == None && RefContents(r.1) == []
    ensures RefContents(d) != [] ==>
      var c := RefContents(d);
      r.0 == Some(c[|c| - 1]) && RefContents(r.1) == c[..|c| - 1]
  {
    if d.back != [] then
      (Some(d.back[0]), RefDeque(d.front, d.back[1..]))
    else if d.front != [] then
      var last := |d.front| - 1;
      (Some(d.front[last]), RefDeque(d.front[..last], []))
    else
      (None, d)
  }

  /** The operations the property test draws. */
  datatype Op<E> = AddFirstOp(x: E) | AddLastOp(x: E) | RemoveFirstOp | RemoveLastOp

  /** What the test compares after each operation: the removed value (if any) and the size. */
  datatype Observation<E> = Observation(removed: Option<E>, size: nat)

  /** One operation on the reference deque: what it removes and the deque afterwards. */
  function RefStep<E>(d: RefDeque<E>, op: Op<E>): (Option<E>, RefDeque<E>)
  {
    match op
    case AddFirstOp(x) => (None, RefAddFirst(d, x))
    case AddLastOp(x) => (None, RefAddLast(d, x))
    case RemoveFirstOp => RefRemoveFirst(d)
    case RemoveLastOp => RefRemoveLast(d)
  }

  /** The reference deque's observations for a run of operations. */
  function RefRun<E>(d: RefDeque<E>, ops: seq<Op<E>>): (r: seq<Observation<E>>)
    ensures |r| == |ops|
    decreases |ops|
  {
    if ops == [] then []
    else
      var (removed, d') := RefStep(d, ops[0]);
      [Observation(removed, |RefContents(d')|)] + RefRun(d', ops[1..])
  }

  /** One drawn operation, applied to the deque under test and to the reference alike. */
  method Apply<E>(deque: ArrayListDeque<E>, reference: RefDeque<E>, op: Op<E>)
    returns (removed: Option<E>, next: RefDeque<E>)
    requires deque.list == RefContents(reference)
    modifies deque
    ensures (removed, next) == RefStep(reference, op)
    ensures deque.list == RefContents(next)
  {
    removed := None;
    match op {
      case AddFirstOp(x) =>
        deque.AddFirst(x);
        next := RefAddFirst(reference, x);
      case AddLastOp(x) =>
        deque.AddLast(x);
        next := RefAddLast(reference, x);
      case RemoveFirstOp =>
        removed := deque.RemoveFirst();
        next := RefRemoveFirst(reference).1;
      case RemoveLastOp =>
        removed := deque.RemoveLast();
        next := RefRemoveLast(reference).1;
    }
  }

  /**
   * The property test: any run of add and remove operations on an `ArrayListDeque`
   * returns the same values and sizes as the reference deque.
   */
  method AddAndRemove<E>(ops: seq<Op<E>>) returns (testing: seq<Observation<E>>)
    ensures testing == RefRun(RefDeque([], []), ops)
  {
    var deque := new ArrayListDeque<E>();
    var reference := RefDeque([], []);
    testing := [];
    assert ops[0..] == ops;
    for i := 0 to |ops|
      invariant deque.list == RefContents(reference)
      invariant testing + RefRun(reference, ops[i..]) == RefRun(RefDeque([], []), ops)
    {
      assert ops[i..][1..] == ops[i + 1..];
      var removed, next := Apply(deque, reference, ops[i]);
      var size := deque.Size();
      var observed := Observation(removed, size);
      assert RefRun(reference, ops[i..]) == [observed] + RefRun(next, ops[i + 1..]);
      assert (testing + [observed]) + RefRun(next, ops[i + 1..]) == testing + ([observed] + RefRun(next, ops[i + 1..]));
      reference := next;
      testing := testing + [observed];
    }
  }

  /** The removals that end the interleaved scenario: one from the front, five from the back. */
  method DrainScenario(deque: ArrayListDeque<int>) returns (removed: seq<Option<int>>)
    requires deque.list == [-3, -2, -1, 0, 1, 2, 3, 4, 5]
    modifies deque
    ensures removed == [Some(-3), Some(5), Some(4), Some(3), Some(2), Some(1)]
    ensures deque.list == [-2, -1, 0]
  {
    var r1 := deque.RemoveFirst();
    assert deque.list == [-2, -1, 0, 1, 2, 3, 4, 5];
    var r2 := deque.RemoveLast();
    assert deque.list == [-2, -1, 0, 1, 2, 3, 4];
    var r3 := deque.RemoveLast();
    assert deque.list == [-2, -1, 0, 1, 2, 3];
    var r4 := deque.RemoveLast();
    assert deque.list == [-2, -1, 0, 1, 2];
    var r5 := deque.RemoveLast();
    assert deque.list == [-2, -1, 0, 1];
    var r6 := deque.RemoveLast();
    assert deque.list == [-2, -1, 0];
    removed := [r1, r2, r3, r4, r5, r6];
  }

  /** The first half of the interleaved scenario: adds at both ends, each checked with `get`. */
  method FillScenario(deque: ArrayListDeque<int>)
    requires deque.list == []
    modifies deque
    ensures deque.list == [-1, 0, 1, 2, 3, 4]
  {
    deque.AddFirst(0);
    var g := deque.Get(0);
    assert g == Some(0);
    deque.AddLast(1);
    g := deque.Get(1);
    assert g == Some(1);
    deque.AddFirst(-1);
    deque.AddLast(2);
    assert deque.list == [-1, 0, 1, 2];
    g := deque.Get(3);
    assert g == Some(2);
    deque.AddLast(3);
    deque.AddLast(4);
  }

  /** The interleaved scenario of the deque tests: removals return -3, 5, 4, 3, 2, 1. */
  method ConfusingScenario() returns (removed: seq<Option<int>>)
    ensures removed == [Some(-3), Some(5), Some(4), Some(3), Some(2), Some(1)]
  {
    var deque := new ArrayListDeque<int>();
    FillScenario(deque);
    var r := deque.RemoveFirst();
    assert r == Some(-1) && deque.list == [0, 1, 2, 3, 4];
    deque.AddFirst(-1);
    var g := deque.Get(0);
    assert g == Some(-1);
    deque.AddLast(5);
    deque.AddFirst(-2);
    deque.AddFirst(-3);
    assert deque.list == [-3, -2, -1, 0, 1, 2, 3, 4, 5];
    removed := DrainScenario(deque);
  }
}
