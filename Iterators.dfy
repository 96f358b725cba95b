/**
 * ChunkList_iterator and ChunkList_const_iterator. An iterator holds a list
 * pointer, an element index and a pointer to the element. The element pointer
 * is obtained through at(index), so it is named here by the absolute position
 * at which it was resolved. Iterators compare equal when their element pointers
 * are equal, and are ordered by index alone.
 */
module Iterators {
  import opened Outcomes
  import Capacity

  /** attached: the list pointer is set; target: the slot current_value points at (None for nullptr). */
  datatype Iter = Iter(attached: bool, index: int, target: Option<int>)

  /** The default-constructed iterator: what end() returns and what ++ collapses to. */
  const End: Iter := Iter(false, 0, None)

  /**
   * Building an iterator at an index resolves its element pointer through
   * at(), which throws unless 0 <= index < max_size(): every position of the
   * list resolves, and the element it points at is the slot at its own index.
   */
  function Resolve(index: int, size: nat, n: nat): (r: Result<Iter>)
    requires n > 0
    ensures r == Err(OutOfRange) <==> index < 0 || index >= Capacity.MaxSize(size, n)
    ensures 0 <= index < size ==> r == Ok(Iter(true, index, Some(index)))
    ensures r.Ok? ==> r.value.attached && r.value.index == index && r.value.target == Some(index)
  {
    if 0 <= index < Capacity.MaxSize(size, n) then Ok(Iter(true, index, Some(index))) else Err(OutOfRange)
  }

  /** operator== and operator!= (its negation): the element pointers are compared. */
  predicate Same(a: Iter, b: Iter)
  {
    a.target == b.target
  }

  /** operator< (and operator> with the operands swapped): indices are compared. */
  predicate Before(a: Iter, b: Iter)
  {
    a.index < b.index
  }

  /** operator<= (and operator>= with the operands swapped). */
  predicate NotAfter(a: Iter, b: Iter)
  {
    a.index <= b.index
  }

  /**
   * Prefix ++ of either iterator kind: from index size()-1 to an iterator equal
   * to end(); before that, one index on, strictly after the old one and not
   * equal to end().
   */
  function Increment(it: Iter, size: nat, n: nat): (r: Result<Iter>)
    requires n > 0 && it.attached
    ensures it.index + 1 == size ==> r == Ok(End)
    ensures 0 <= it.index + 1 < size ==>
              r == Ok(Iter(true, it.index + 1, Some(it.index + 1))) && Before(it, r.value) && !Same(r.value, End)
    ensures r.Err? ==> r.error == OutOfRange
  {
    if it.index + 1 == size then Ok(End) else Resolve(it.index + 1, size, n)
  }

  /**
   * Postfix ++ of either iterator kind, as the pair (the iterator afterwards,
   * the value returned). At index size()-1 the iterator is left as it is and a
   * default iterator is returned; otherwise both are the advanced iterator.
   */
  function PostIncrement(it: Iter, size: nat, n: nat): (r: Result<(Iter, Iter)>)
    requires n > 0 && it.attached
    ensures it.index + 1 == size ==> r == Ok((it, End))
    ensures 0 <= it.index + 1 < size ==> r.Ok? && r.value.0 == r.value.1 && Before(it, r.value.0)
    ensures r.Err? ==> r.error == OutOfRange
  {
    if it.index + 1 == size then
      Ok((it, End))
    else
      match Resolve(it.index + 1, size, n)
      case Ok(next) => Ok((next, next))
      case Err(e) => Err(e)
  }

  /**
   * Prefix and postfix -- of ChunkList_iterator: the index goes down by one; at
   * -1 or below the stale element pointer is kept, so the iterator still
   * equals the one it came from; otherwise it is re-resolved one index back.
   */
  function Decrement(it: Iter, size: nat, n: nat): (r: Result<Iter>)
    requires n > 0 && (it.attached || it.index <= 0)
    ensures it.index <= 0 ==> r == Ok(it.(index := it.index - 1)) && Same(r.value, it) && Before(r.value, it)
    ensures 0 < it.index <= size ==> r == Ok(Iter(true, it.index - 1, Some(it.index - 1))) && Before(r.value, it)
    ensures r.Err? ==> r.error == OutOfRange
  {
    if it.index - 1 <= -1 then Ok(it.(index := it.index - 1)) else Resolve(it.index - 1, size, n)
  }

  /**
   * Prefix -- of ChunkList_const_iterator: throws at index 0 and otherwise
   * re-resolves one index back through at(). At a positive index it agrees
   * with the mutable --; below 0, at() throws out_of_range where the mutable
   * -- just steps back.
   */
  function ConstDecrement(it: Iter, size: nat, n: nat): (r: Result<Iter>)
    requires n > 0 && (it.attached || it.index == 0)
    ensures it.index == 0 ==> r == Err(InvalidIterator)
    ensures it.index < 0 ==> r == Err(OutOfRange)
    ensures it.index > 0 ==> r == Decrement(it, size, n)
    ensures 0 < it.index <= size ==> r.Ok? && r.value.index == it.index - 1
  {
    if it.index - 1 == -1 then Err(InvalidIterator) else Resolve(it.index - 1, size, n)
  }

  /** += d, and + d, which builds the same iterator without changing its operand: d indices on, re-resolved. */
  function Advance(it: Iter, d: int, size: nat, n: nat): (r: Result<Iter>)
    requires n > 0 && it.attached
    ensures r.Err? <==> it.index + d < 0 || it.index + d >= Capacity.MaxSize(size, n)
    ensures 0 <= it.index + d < size ==> r == Ok(Iter(true, it.index + d, Some(it.index + d)))
    ensures r.Ok? ==> r.value.index == it.index + d && r.value.target == Some(it.index + d)
  {
    Resolve(it.index + d, size, n)
  }

  /** -= d, and - d: the same as advancing by -d. */
  function Retreat(it: Iter, d: int, size: nat, n: nat): (r: Result<Iter>)
    requires n > 0 && it.attached
    ensures r == Advance(it, -d, size, n)
  {
    Resolve(it.index - d, size, n)
  }

  /**
   * begin() as written: the iterator at index 0, resolved through at(0). On an
   * empty list at(0) throws out_of_range inside the noexcept begin(), so the
   * program terminates; Err(OutOfRange) stands for that termination.
   */
  function BeginAsWritten(size: nat, n: nat): (r: Result<Iter>)
    requires n > 0
    ensures size > 0 ==> r == Ok(Iter(true, 0, Some(0)))
    ensures size == 0 ==> r == Err(OutOfRange)
  {
    Resolve(0, size, n)
  }

  /** begin() as documented: the first element, or End when the list is empty. */
  function Begin(size: nat, n: nat): (it: Iter)
    requires n > 0
    ensures Same(it, End) <==> size == 0
    ensures size > 0 ==> it.attached && it.index == 0 && BeginAsWritten(size, n) == Ok(it)
  {
    match BeginAsWritten(size, n)
    case Ok(first) => first
    case Err(_) => End
  }

  /** The discrepancy: on an empty list begin() throws out_of_range instead of returning end(). */
  lemma BeginAsWrittenThrowsWhenEmpty(n: nat)
    requires n > 0
    ensures BeginAsWritten(0, n) == Err(OutOfRange)
    ensures Begin(0, n) == End
  {
  }

  /** The positions a range-for loop dereferences: from it, until it equals end(), applying prefix ++. */
  function Traverse(it: Iter, size: nat, n: nat): seq<int>
    requires n > 0
    decreases if it.attached then 1 else 0, Capacity.MaxSize(size, n) - it.index
  {
    if Same(it, End) || !it.attached then
      []
    else
      match Increment(it, size, n)
      case Ok(next) =>
        if next.attached then
          [it.index] + Traverse(next, size, n)
        else
          [it.index]
      case Err(_) => [it.index]
  }

  /** [lo, lo + 1, ..., hi - 1]. */
  function Range(lo: int, hi: int): (r: seq<int>)
    decreases hi - lo
  {
    if lo >= hi then [] else [lo] + Range(lo + 1, hi)
  }

  /** From the iterator resolved at i, a range-for loop visits i, i + 1, ..., size - 1 and stops. */
  lemma {:induction false} TraverseFrom(i: nat, size: nat, n: nat)
    requires n > 0 && i < size
    ensures Traverse(Iter(true, i, Some(i)), size, n) == Range(i, size)
    decreases size - i
  {
    if i + 1 < size {
      TraverseFrom(i + 1, size, n);
    }
  }

  /** A range-for loop from begin() visits every position of the list once, in order, then stops at end(). */
  lemma TraverseAll(size: nat, n: nat)
    requires n > 0
    ensures Traverse(Begin(size, n), size, n) == Range(0, size)
  {
    if size > 0 {
      TraverseFrom(0, size, n);
    }
  }

  /**
   * Postfix ++ returns what prefix ++ yields rather than the old value. At
   * index size()-1 it leaves the iterator where it was and returns end(),
   * while prefix ++ turns the iterator itself into end().
   */
  lemma PostIncrementAgrees(it: Iter, size: nat, n: nat)
    requires n > 0 && it.attached
    ensures PostIncrement(it, size, n).Ok? <==> Increment(it, size, n).Ok?
    ensures PostIncrement(it, size, n).Ok? ==> PostIncrement(it, size, n).value.1 == Increment(it, size, n).value
    ensures it.index + 1 != size && PostIncrement(it, size, n).Ok? ==>
              PostIncrement(it, size, n).value.0 == Increment(it, size, n).value
    ensures it.index + 1 == size ==> PostIncrement(it, size, n).value.0 == it && Same(Increment(it, size, n).value, End)
  {
  }

  /** == compares element pointers: it is an equivalence, and end() equals exactly the iterators with no element. */
  lemma SameIsEquivalence(a: Iter, b: Iter, c: Iter)
    ensures Same(a, a)
    ensures Same(a, b) ==> Same(b, a)
    ensures Same(a, b) && Same(b, c) ==> Same(a, c)
    ensures Same(a, End) <==> a.target == None
  {
  }

  /**
   * <, <=, > and >= compare indices: > is < with the operands swapped, < is the
   * negation of >=, and < is transitive. Between resolved iterators, <= both
   * ways is ==; end() and the iterator at index 0 are <= both ways yet not ==.
   */
  lemma IndexOrder(a: Iter, b: Iter, c: Iter)
    ensures Before(a, b) <==> !NotAfter(b, a)
    ensures NotAfter(a, b) <==> Before(a, b) || a.index == b.index
    ensures Before(a, b) && Before(b, c) ==> Before(a, c)
    ensures a.target == Some(a.index) && b.target == Some(b.index) ==> (NotAfter(a, b) && NotAfter(b, a) <==> Same(a, b))
    ensures a == Iter(true, 0, Some(0)) ==> NotAfter(a, End) && NotAfter(End, a) && !Same(a, End)
  {
  }

  /** Within the list, -- then ++ returns to the same iterator, and both kinds of -- agree there. */
  lemma DecrementIncrement(i: nat, size: nat, n: nat)
    requires n > 0 && 0 < i < size
    ensures Decrement(Iter(true, i, Some(i)), size, n) == ConstDecrement(Iter(true, i, Some(i)), size, n)
    ensures Decrement(Iter(true, i, Some(i)), size, n).Ok?
    ensures Increment(Decrement(Iter(true, i, Some(i)), size, n).value, size, n) == Ok(Iter(true, i, Some(i)))
  {
  }

  /** At index 0 the const -- throws, while the mutable -- leaves index -1 with the stale pointer to element 0. */
  lemma DecrementAtFirst(size: nat, n: nat)
    requires n > 0 && size > 0
    ensures ConstDecrement(Begin(size, n), size, n) == Err(InvalidIterator)
    ensures Decrement(Begin(size, n), size, n) == Ok(Iter(true, -1, Some(0)))
    ensures Same(Decrement(Begin(size, n), size, n).value, Begin(size, n))
  {
  }

  /** Two resolved iterators are equal exactly when their indices are. */
  lemma SameIffSameIndex(i: int, j: int, size: nat, n: nat)
    requires n > 0 && Resolve(i, size, n).Ok? && Resolve(j, size, n).Ok?
    ensures Same(Resolve(i, size, n).value, Resolve(j, size, n).value) <==> i == j
  {
  }

  /** Advancing by a and then by b is advancing by a + b; retreating by d is advancing by -d. */
  lemma AdvanceAdds(it: Iter, a: int, b: int, size: nat, n: nat)
    requires n > 0 && it.attached && Advance(it, a, size, n).Ok?
    ensures Advance(Advance(it, a, size, n).value, b, size, n) == Advance(it, a + b, size, n)
    ensures Retreat(it, a, size, n) == Advance(it, -a, size, n)
  {
  }
}
