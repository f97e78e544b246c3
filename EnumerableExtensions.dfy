/** `Count` over a non-generic enumerable: a collection knows its count, any other source is
    enumerated to the end. */
module EnumerableExtensions {
  import opened Common

  /** A source of elements, and whether it is an `ICollection`. */
  datatype Source<T> = Collection(items: seq<T>) | Sequence(items: seq<T>)

  /** An enumerator over a finite sequence, counting the `MoveNext` calls made on it. */
  class Enumerator<T> {
    const items: seq<T>
    /** How many elements have been passed; `items[passed - 1]` is the current one. */
    var passed: nat
    var moveNextCalls: nat

    ghost predicate Valid()
      reads this
    {
      passed <= |items|
    }

    constructor(items: seq<T>)
      ensures Valid() && this.items == items && passed == 0 && moveNextCalls == 0
    {
      this.items := items;
      passed := 0;
      moveNextCalls := 0;
    }

    /** `MoveNext`: steps to the next element if there is one. */
    method MoveNext() returns (more: bool)
      requires Valid()
      modifies this
      ensures Valid()
      ensures more <==> old(passed) < |items|
      ensures passed == if more then old(passed) + 1 else old(passed)
      ensures moveNextCalls == old(moveNextCalls) + 1
    {
      more := passed < |items|;
      if more {
        passed := passed + 1;
      }
      moveNextCalls := moveNextCalls + 1;
    }
  }

  /** `Count`: the collection's own count, or the number of successful `MoveNext` calls in
      unchecked `int` arithmetic. `calls` is how many `MoveNext` calls were made. */
  method Count<T>(source: Source<T>) returns (count: Int32, calls: nat)
    ensures count == Wrap32(|source.items|)
    ensures |source.items| < TwoTo31 ==> count == |source.items|
    ensures source.Collection? ==> calls == 0
    ensures source.Sequence? ==> calls == |source.items| + 1
  {
    if source.Collection? {
      return Wrap32(|source.items|), 0;
    }
    var e := new Enumerator(source.items);
    count := 0;
    var more := e.MoveNext();
    while more
      invariant e.Valid() && e.items == source.items
      invariant more ==> 1 <= e.passed && count == Wrap32(e.passed - 1) && e.moveNextCalls == e.passed
      invariant !more ==> e.passed == |e.items| && count == Wrap32(e.passed) && e.moveNextCalls == e.passed + 1
      decreases |e.items| - e.passed + (if more then 1 else 0)
    {
      Wrap32Add(e.passed - 1, 1);
      count := Wrap32(count + 1);
      more := e.MoveNext();
    }
    calls := e.moveNextCalls;
  }
}
