/**
 * operator==, operator!= and operator<=> on ChunkList: loops over at(i),
 * specified by functions on the element sequences. The element type's own
 * operator< is the parameter `less`; its operator> is taken to be `less`
 * with the operands swapped.
 */
module Comparisons {
  import opened ChunkLists

  /** std::strong_ordering. */
  datatype Ordering = Less | Equal | Greater

  /** The ordering seen from the other operand. */
  function Flip(o: Ordering): Ordering
  {
    match o
    case Less => Greater
    case Equal => Equal
    case Greater => Less
  }

  /** Two equally long sequences ordered by their first differing element at or after position i. */
  function FirstDifference<T>(a: seq<T>, b: seq<T>, less: (T, T) -> bool, i: nat): Ordering
    requires |a| == |b| && i <= |a|
    decreases |a| - i
  {
    if i == |a| then Equal
    else if less(a[i], b[i]) then Less
    else if less(b[i], a[i]) then Greater
    else FirstDifference(a, b, less, i + 1)
  }

  /** operator<=>: the shorter list is less; lists of one size compare element by element. */
  function ContentOrder<T>(a: seq<T>, b: seq<T>, less: (T, T) -> bool): Ordering
  {
    if |a| < |b| then Less
    else if |a| > |b| then Greater
    else FirstDifference(a, b, less, 0)
  }

  /** Two equally long sequences agree at every position from i on. */
  function Matches<T(==)>(a: seq<T>, b: seq<T>, i: nat): bool
    requires |a| == |b| && i <= |a|
    decreases |a| - i
  {
    i == |a| || (a[i] == b[i] && Matches(a, b, i + 1))
  }

  /** Agreeing from i on is equality of the suffixes. */
  lemma {:induction false} MatchesIff<T>(a: seq<T>, b: seq<T>, i: nat)
    requires |a| == |b| && i <= |a|
    ensures Matches(a, b, i) <==> a[i..] == b[i..]
    decreases |a| - i
  {
    if i < |a| {
      MatchesIff(a, b, i + 1);
      assert a[i..] == [a[i]] + a[i + 1..] && b[i..] == [b[i]] + b[i + 1..];
    }
  }

  /** Agreeing everywhere is equality. */
  lemma MatchesEqual<T>(a: seq<T>, b: seq<T>)
    requires |a| == |b|
    ensures Matches(a, b, 0) <==> a == b
  {
    MatchesIff(a, b, 0);
    assert a[0..] == a && b[0..] == b;
  }

  /** operator<: no element is less than itself. */
  ghost predicate Irreflexive<T(!new)>(less: (T, T) -> bool)
  {
    forall x :: !less(x, x)
  }

  /** operator<: any two elements are equal or ordered one way. */
  ghost predicate Trichotomous<T(!new)>(less: (T, T) -> bool)
  {
    forall x, y :: less(x, y) || less(y, x) || x == y
  }

  /** operator<: never both ways. */
  ghost predicate Asymmetric<T(!new)>(less: (T, T) -> bool)
  {
    forall x, y :: less(x, y) ==> !less(y, x)
  }

  /** operator<: ordered pairs chain. */
  ghost predicate Transitive<T(!new)>(less: (T, T) -> bool)
  {
    forall x, y, z :: less(x, y) && less(y, z) ==> less(x, z)
  }

  /** Element by element: equal exactly when the sequences are. */
  lemma {:induction false} FirstDifferenceEqualIff<T(!new)>(a: seq<T>, b: seq<T>, less: (T, T) -> bool, i: nat)
    requires |a| == |b| && i <= |a| && Irreflexive(less) && Trichotomous(less)
    ensures FirstDifference(a, b, less, i) == Equal <==> a[i..] == b[i..]
    decreases |a| - i
  {
    if i < |a| {
      FirstDifferenceEqualIff(a, b, less, i + 1);
      assert a[i..] == [a[i]] + a[i + 1..] && b[i..] == [b[i]] + b[i + 1..];
    }
  }

  /** <=> returns equal exactly when == holds. */
  lemma ContentOrderEqualIff<T(!new)>(a: seq<T>, b: seq<T>, less: (T, T) -> bool)
    requires Irreflexive(less) && Trichotomous(less)
    ensures ContentOrder(a, b, less) == Equal <==> a == b
  {
    if |a| == |b| {
      FirstDifferenceEqualIff(a, b, less, 0);
      assert a[0..] == a && b[0..] == b;
    }
  }

  /** Swapping the operands of the element comparison flips the result. */
  lemma {:induction false} FirstDifferenceFlip<T(!new)>(a: seq<T>, b: seq<T>, less: (T, T) -> bool, i: nat)
    requires |a| == |b| && i <= |a| && Asymmetric(less)
    ensures FirstDifference(b, a, less, i) == Flip(FirstDifference(a, b, less, i))
    decreases |a| - i
  {
    if i < |a| {
      FirstDifferenceFlip(a, b, less, i + 1);
    }
  }

  /** b <=> a is a <=> b reversed. */
  lemma ContentOrderFlip<T(!new)>(a: seq<T>, b: seq<T>, less: (T, T) -> bool)
    requires Asymmetric(less)
    ensures ContentOrder(b, a, less) == Flip(ContentOrder(a, b, less))
  {
    if |a| == |b| {
      FirstDifferenceFlip(a, b, less, 0);
    }
  }

  /** First-difference order is transitive when the element order is a strict total order. */
  lemma {:induction false} FirstDifferenceTransitive<T(!new)>(a: seq<T>, b: seq<T>, c: seq<T>, less: (T, T) -> bool, i: nat)
    requires |a| == |b| == |c| && i <= |a| && Asymmetric(less) && Transitive(less) && Trichotomous(less)
    requires FirstDifference(a, b, less, i) == Less && FirstDifference(b, c, less, i) == Less
    ensures FirstDifference(a, c, less, i) == Less
    decreases |a| - i
  {
    if !less(a[i], b[i]) && !less(b[i], c[i]) {
      FirstDifferenceTransitive(a, b, c, less, i + 1);
    }
  }

  /** <=> orders lists: less than is transitive. */
  lemma ContentOrderTransitive<T(!new)>(a: seq<T>, b: seq<T>, c: seq<T>, less: (T, T) -> bool)
    requires Asymmetric(less) && Transitive(less) && Trichotomous(less)
    requires ContentOrder(a, b, less) == Less && ContentOrder(b, c, less) == Less
    ensures ContentOrder(a, c, less) == Less
  {
    if |a| == |b| == |c| {
      FirstDifferenceTransitive(a, b, c, less, 0);
    }
  }

  /** operator==: equal sizes, then at(i) compared pairwise. */
  method Equals<T(==, 0)>(lhs: ChunkList<T>, rhs: ChunkList<T>) returns (r: bool)
    requires lhs.Valid() && rhs.Valid()
    ensures r <==> lhs.Contents == rhs.Contents
  {
    if lhs.listSize != rhs.listSize {
      return false;
    }
    r := ElementsMatch(lhs, rhs);
    MatchesEqual(lhs.Contents, rhs.Contents);
  }

  /** The loop of operator==: the first i with lhs.at(i) != rhs.at(i) answers false. */
  method ElementsMatch<T(==, 0)>(lhs: ChunkList<T>, rhs: ChunkList<T>) returns (r: bool)
    requires lhs.Valid() && rhs.Valid() && |lhs.Contents| == |rhs.Contents|
    ensures r == Matches(lhs.Contents, rhs.Contents, 0)
  {
    var i := 0;
    while i < lhs.listSize
      invariant i <= lhs.listSize
      invariant Matches(lhs.Contents, rhs.Contents, 0) == Matches(lhs.Contents, rhs.Contents, i)
    {
      var l := lhs.Element(i);
      var v := rhs.Element(i);
      if l != v {
        return false;
      }
      i := i + 1;
    }
    return true;
  }

  /** operator!=: the negation of operator==. */
  method NotEquals<T(==, 0)>(lhs: ChunkList<T>, rhs: ChunkList<T>) returns (r: bool)
    requires lhs.Valid() && rhs.Valid()
    ensures r <==> lhs.Contents != rhs.Contents
  {
    var same := Equals(lhs, rhs);
    r := !same;
  }

  /** operator<=>: sizes first; on equal sizes the first i with l < r or l > r decides. */
  method Compare<T(0)>(lhs: ChunkList<T>, rhs: ChunkList<T>, less: (T, T) -> bool) returns (r: Ordering)
    requires lhs.Valid() && rhs.Valid()
    ensures r == ContentOrder(lhs.Contents, rhs.Contents, less)
  {
    if lhs.listSize < rhs.listSize {
      return Less;
    } else if lhs.listSize > rhs.listSize {
      return Greater;
    }
    var i := 0;
    while i < lhs.listSize
      invariant i <= lhs.listSize
      invariant FirstDifference(lhs.Contents, rhs.Contents, less, 0) == FirstDifference(lhs.Contents, rhs.Contents, less, i)
    {
      var l := lhs.Element(i);
      var v := rhs.Element(i);
      if less(l, v) {
        return Less;
      } else if less(v, l) {
        return Greater;
      }
      i := i + 1;
    }
    return Equal;
  }
}
