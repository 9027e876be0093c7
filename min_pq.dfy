/**
 * `DoubleMapMinPQ`: a priority queue with extrinsic priorities, kept as two maps that
 * index each other, a map from each priority to the set of its elements and a map from
 * each element to its priority. The `MinPQ` default methods (`addOrChangePriority`,
 * `removeMin(int)`, `isEmpty`) are modelled as methods of this class.
 */
module MinPriorityQueue {
  import opened Wrappers
  import opened Sequences

  /** A finite non-empty set of priorities has a least member: `TreeMap.firstKey`. */
  lemma {:induction false} LeastPriority(s: set<int>) returns (m: int)
    requires s != {}
    ensures m in s && forall q :: q in s ==> m <= q
    decreases |s|
  {
    var x := ElementOf(s);
    if s - {x} == {} {
      assert s == {x};
      m := x;
    } else {
      var y := LeastPriority(s - {x});
      m := if x <= y then x else y;
      assert forall q :: q in s ==> q == x || q in s - {x};
    }
  }

  /**
   * The two maps describe the same queue: every element sits in the bucket of its own
   * priority and nowhere else, and no bucket is empty.
   */
  ghost predicate Indexes<E>(buckets: map<int, set<E>>, priorities: map<E, int>)
  {
    && (forall e :: e in priorities ==> priorities[e] in buckets && e in buckets[priorities[e]])
    && (forall p :: p in buckets ==> buckets[p] != {})
    && (forall p, e :: p in buckets && e in buckets[p] ==> e in priorities && priorities[e] == p)
  }

  /** The buckets with `e` added to the bucket of `p`, which is created when missing. */
  function AddToBucket<E>(buckets: map<int, set<E>>, p: int, e: E): map<int, set<E>>
  {
    buckets[p := (if p in buckets then buckets[p] else {}) + {e}]
  }

  /** The buckets with `e` taken out of the bucket of `p`, which is dropped when it empties. */
  function RemoveFromBucket<E>(buckets: map<int, set<E>>, p: int, e: E): map<int, set<E>>
    requires p in buckets
  {
    var rest := buckets[p] - {e};
    if rest == {} then buckets - {p} else buckets[p := rest]
  }

  lemma AddKeepsIndexes<E>(buckets: map<int, set<E>>, priorities: map<E, int>, e: E, p: int)
    requires Indexes(buckets, priorities) && e !in priorities
    ensures Indexes(AddToBucket(buckets, p, e), priorities[e := p])
  {
  }

  lemma RemoveKeepsIndexes<E>(buckets: map<int, set<E>>, priorities: map<E, int>, e: E)
    requires Indexes(buckets, priorities) && e in priorities
    ensures Indexes(RemoveFromBucket(buckets, priorities[e], e), priorities - {e})
    ensures |priorities - {e}| == |priorities| - 1
  {
    var p, buckets', priorities' := priorities[e], RemoveFromBucket(buckets, priorities[e], e), priorities - {e};
    forall x | x in priorities'
      ensures priorities'[x] in buckets' && x in buckets'[priorities'[x]]
    {
      assert x != e && priorities'[x] == priorities[x];
      assert x in buckets[priorities[x]];
    }
    forall q, x | q in buckets' && x in buckets'[q]
      ensures x in priorities' && priorities'[x] == q
    {
      assert q in buckets && x in buckets[q] && x != e;
    }
    assert priorities'.Keys == priorities.Keys - {e};
  }

  /**
   * `removed` lists, in order, elements drawn from `original` that leave `rest` behind:
   * no element twice, priorities never decreasing, and none above anything left.
   */
  ghost predicate DrainedInOrder<E>(original: map<E, int>, removed: seq<E>, rest: map<E, int>)
  {
    && rest == original - (set e | e in removed)
    && (forall i :: 0 <= i < |removed| ==> removed[i] in original)
    && (forall i, j :: 0 <= i < j < |removed| ==> removed[i] != removed[j])
    && (forall i, j :: 0 <= i < j < |removed| ==> original[removed[i]] <= original[removed[j]])
    && (forall i, e :: 0 <= i < |removed| && e in rest ==> original[removed[i]] <= rest[e])
  }

  /** Taking a least element of what is left extends the ordered drain by one. */
  lemma DrainStep<E>(original: map<E, int>, removed: seq<E>, rest: map<E, int>, x: E)
    requires DrainedInOrder(original, removed, rest)
    requires x in rest && forall e :: e in rest ==> rest[x] <= rest[e]
    ensures DrainedInOrder(original, removed + [x], rest - {x})
  {
    var removed' := removed + [x];
    assert (set e | e in removed') == (set e | e in removed) + {x};
    forall i | 0 <= i < |removed|
      ensures removed[i] != x && original[removed[i]] <= original[x]
    {
    }
  }

  class DoubleMapMinPQ<E(==)> {
    var priorityToElement: map<int, set<E>>
    var elementToPriority: map<E, int>

    ghost predicate Valid()
      reads this
    {
      Indexes(priorityToElement, elementToPriority)
    }

    /** Whether `e` has the least priority in the queue. */
    ghost predicate IsMin(e: E)
      reads this
    {
      e in elementToPriority && forall x :: x in elementToPriority ==> elementToPriority[e] <= elementToPriority[x]
    }

    constructor ()
      ensures Valid() && elementToPriority == map[]
    {
      priorityToElement := map[];
      elementToPriority := map[];
    }

    /** A queue holding exactly the given elements with the given priorities. */
    constructor FromMap(elementsAndPriorities: map<E, int>)
      ensures Valid() && elementToPriority == elementsAndPriorities
    {
      priorityToElement := map[];
      elementToPriority := elementsAndPriorities;
      new;
      var remaining := elementsAndPriorities.Keys;
      while remaining != {}
        invariant remaining <= elementsAndPriorities.Keys
        invariant elementToPriority == elementsAndPriorities
        invariant Indexes(priorityToElement,
          map e | e in elementsAndPriorities.Keys - remaining :: elementsAndPriorities[e])
        decreases |remaining|
      {
        var element :| element in remaining;
        var priority := elementsAndPriorities[element];
        ghost var done := map e | e in elementsAndPriorities.Keys - remaining :: elementsAndPriorities[e];
        ghost var buckets := priorityToElement;
        AddKeepsIndexes(buckets, done, element, priority);
        if priority !in priorityToElement {
          priorityToElement := priorityToElement[priority := {}];
        }
        var elementsWithPriority := priorityToElement[priority];
        priorityToElement := priorityToElement[priority := elementsWithPriority + {element}];
        assert priorityToElement == AddToBucket(buckets, priority, element);
        remaining := remaining - {element};
        assert (map e | e in elementsAndPriorities.Keys - remaining :: elementsAndPriorities[e]) == done[element := priority];
      }
      assert (map e | e in elementsAndPriorities.Keys - remaining :: elementsAndPriorities[e]) == elementsAndPriorities;
    }

    function Contains(element: E): (b: bool)
      reads this
      requires Valid()
      ensures b <==> exists p :: p in priorityToElement && element in priorityToElement[p]
    {
      if element in elementToPriority then
        var p := elementToPriority[element];
        assert p in priorityToElement && element in priorityToElement[p];
        true
      else
        false
    }

    function Size(): (n: nat)
      reads this
      ensures n == |elementToPriority.Keys|
    {
      |elementToPriority|
    }

    /** `MinPQ.isEmpty`: no element is queued. */
    function IsEmpty(): (b: bool)
      reads this
      ensures b <==> elementToPriority == map[]
    {
      Size() == 0
    }

    function GetPriority(element: E): (r: Result<int>)
      reads this
      requires Valid()
      ensures r.Failure? <==> !Contains(element)
      ensures r.Failure? ==> r.error == NoSuchElement
      ensures r.Success? ==> r.value in priorityToElement && element in priorityToElement[r.value]
    {
      if !Contains(element) then Failure(NoSuchElement) else Success(elementToPriority[element])
    }

    /** Adds an element that is not yet queued; a present element is refused. */
    method Add(element: E, priority: int) returns (o: Outcome)
      requires Valid()
      modifies this
      ensures Valid()
      ensures old(Contains(element)) ==> o == Fail(IllegalArgument) && unchanged(this)
      ensures !old(Contains(element)) ==>
        o == Pass && elementToPriority == old(elementToPriority)[element := priority]
    {
      if Contains(element) {
        return Fail(IllegalArgument);
      }
      AddKeepsIndexes(priorityToElement, elementToPriority, element, priority);
      if priority !in priorityToElement {
        priorityToElement := priorityToElement[priority := {}];
      }
      var elementsWithPriority := priorityToElement[priority];
      priorityToElement := priorityToElement[priority := elementsWithPriority + {element}];
      elementToPriority := elementToPriority[element := priority];
      o := Pass;
    }

    /** An element of least priority, taken from the bucket of the least priority. */
    method PeekMin() returns (r: Result<E>)
      requires Valid()
      ensures r.Failure? <==> elementToPriority == map[]
      ensures r.Failure? ==> r.error == NoSuchElement
      ensures r.Success? ==> IsMin(r.value)
    {
      if IsEmpty() {
        return Failure(NoSuchElement);
      }
      var minPriority := MinKey();
      var elementsWithMinPriority := priorityToElement[minPriority];
      var element :| element in elementsWithMinPriority;
      r := Success(element);
    }

    /** `TreeMap.firstKey` of the buckets. */
    method MinKey() returns (minPriority: int)
      requires Valid() && elementToPriority != map[]
      ensures minPriority in priorityToElement
      ensures forall e :: e in elementToPriority ==> minPriority <= elementToPriority[e]
    {
      var e0 :| e0 in elementToPriority;
      var m := LeastPriority(priorityToElement.Keys);
      minPriority :| minPriority in priorityToElement && forall q :: q in priorityToElement ==> minPriority <= q;
    }

    /** Removes and answers an element of least priority, dropping its bucket when it empties. */
    method RemoveMin() returns (r: Result<E>)
      requires Valid()
      modifies this
      ensures Valid()
      ensures r.Failure? <==> old(elementToPriority) == map[]
      ensures r.Failure? ==> r.error == NoSuchElement && unchanged(this)
      ensures r.Success? ==>
        && r.value in old(elementToPriority)
        && (forall e :: e in old(elementToPriority) ==> old(elementToPriority)[r.value] <= old(elementToPriority)[e])
        && elementToPriority == old(elementToPriority) - {r.value}
        && |elementToPriority| == |old(elementToPriority)| - 1
    {
      if IsEmpty() {
        return Failure(NoSuchElement);
      }
      var minPriority := MinKey();
      var elementsWithMinPriority := priorityToElement[minPriority];
      var element :| element in elementsWithMinPriority;
      RemoveKeepsIndexes(priorityToElement, elementToPriority, element);
      elementsWithMinPriority := elementsWithMinPriority - {element};
      if elementsWithMinPriority == {} {
        priorityToElement := priorityToElement - {minPriority};
      } else {
        priorityToElement := priorityToElement[minPriority := elementsWithMinPriority];
      }
      elementToPriority := elementToPriority - {element};
      r := Success(element);
    }

    /**
     * Gives a queued element a new priority; an absent element is refused, and an equal
     * priority changes nothing.
     */
    method ChangePriority(element: E, priority: int) returns (o: Outcome)
      requires Valid()
      modifies this
      ensures Valid()
      ensures !old(Contains(element)) ==> o == Fail(NoSuchElement) && unchanged(this)
      ensures old(Contains(element)) ==>
        o == Pass && elementToPriority == old(elementToPriority)[element := priority]
      ensures old(Contains(element)) && old(elementToPriority[element]) == priority ==> unchanged(this)
    {
      if !Contains(element) {
        return Fail(NoSuchElement);
      }
      var oldPriority := elementToPriority[element];
      if priority != oldPriority {
        RemoveKeepsIndexes(priorityToElement, elementToPriority, element);
        var elementsWithOldPriority := priorityToElement[oldPriority] - {element};
        if elementsWithOldPriority == {} {
          priorityToElement := priorityToElement - {oldPriority};
        } else {
          priorityToElement := priorityToElement[oldPriority := elementsWithOldPriority];
        }
        elementToPriority := elementToPriority - {element};
        var added := Add(element, priority);
        assert elementToPriority == old(elementToPriority)[element := priority];
      }
      o := Pass;
    }

    /** `MinPQ.addOrChangePriority`: afterwards the element is queued with this priority. */
    method AddOrChangePriority(element: E, priority: int)
      requires Valid()
      modifies this
      ensures Valid()
      ensures elementToPriority == old(elementToPriority)[element := priority]
    {
      if !Contains(element) {
        var added := Add(element, priority);
      } else {
        var changed := ChangePriority(element, priority);
      }
    }

    /**
     * `MinPQ.removeMin(int)`: removes the `min(numElements, size)` elements of least
     * priority, in non-decreasing order of priority. A negative count is refused by the
     * list allocation before anything is removed.
     */
    method RemoveMinElements(numElements: int) returns (r: Result<seq<E>>)
      requires Valid()
      modifies this
      ensures Valid()
      ensures r.Failure? <==> numElements < 0
      ensures r.Failure? ==> r.error == IllegalArgument && unchanged(this)
      ensures r.Success? ==>
        && |r.value| == (if numElements < |old(elementToPriority)| then numElements else |old(elementToPriority)|)
        && DrainedInOrder(old(elementToPriority), r.value, elementToPriority)
    {
      if numElements < 0 {
        return Failure(IllegalArgument);
      }
      var count := if numElements < Size() then numElements else Size();
      var result: seq<E> := [];
      ghost var original := elementToPriority;
      for i := 0 to count
        invariant Valid()
        invariant |result| == i
        invariant |elementToPriority| == |original| - i
        invariant DrainedInOrder(original, result, elementToPriority)
      {
        ghost var before := elementToPriority;
        var next := RemoveMin();
        DrainStep(original, result, before, next.value);
        result := result + [next.value];
      }
      r := Success(result);
    }
  }
}
