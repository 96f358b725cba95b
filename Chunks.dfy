/** One block of a ChunkList: a buffer of chunk_size slots, of which the first num_of_elements are live. */
module Chunks {

  function Min(a: nat, b: nat): nat
  {
    if a < b then a else b
  }

  class Chunk<T(0)> {
    var list: array<T>        // the slot buffer (allocator.allocate(chunk_size))
    var prev: Chunk?<T>       // non-owning back link
    var next: Chunk?<T>       // owning forward link
    var chunkSize: nat
    var numOfElements: nat

    /** The buffer has chunk_size slots and the live count fits in them. */
    ghost predicate Valid()
      reads this
    {
      list.Length == chunkSize && numOfElements <= chunkSize
    }

    /** Chunk(N): a fresh, empty, unlinked block of n slots. */
    constructor (n: nat)
      ensures Valid() && fresh(list)
      ensures chunkSize == n && numOfElements == 0
      ensures prev == null && next == null
    {
      list := new T[n];
      prev := null;
      next := null;
      chunkSize := n;
      numOfElements := 0;
    }

    /**
     * resize(new_size): reallocates the buffer to new_size slots, keeping the
     * first min(chunk_size, new_size) slots and truncating the live count.
     * Nothing happens when the size is unchanged.
     */
    method Resize(newSize: nat)
      requires Valid()
      modifies this
      ensures Valid() && prev == old(prev) && next == old(next)
      ensures chunkSize == newSize
      ensures newSize == old(chunkSize) ==> list == old(list) && numOfElements == old(numOfElements)
      ensures newSize != old(chunkSize) ==> fresh(list)
      ensures list[..Min(old(chunkSize), newSize)] == old(list[..Min(chunkSize, newSize)])
      ensures numOfElements == Min(old(numOfElements), newSize)
    {
      if newSize == chunkSize {
        return;
      }
      var minV := if chunkSize > newSize then newSize else chunkSize;
      var newList := new T[newSize];
      var i := 0;
      while i < minV
        modifies newList
        invariant 0 <= i <= minV
        invariant newList[..i] == list[..i]
      {
        newList[i] := list[i];
        i := i + 1;
      }
      if numOfElements > newSize {
        numOfElements := newSize;
      }
      list := newList;
      chunkSize := newSize;
    }

    /**
     * resize(new_size, value): as Resize, but slots added by growing are set to
     * value, and the live count becomes new_size whenever the size changes.
     */
    method ResizeWithValue(newSize: nat, value: T)
      requires Valid()
      modifies this
      ensures Valid() && prev == old(prev) && next == old(next)
      ensures chunkSize == newSize
      ensures newSize == old(chunkSize) ==> list == old(list) && numOfElements == old(numOfElements)
      ensures newSize != old(chunkSize) ==> fresh(list) && numOfElements == newSize
      ensures list[..Min(old(chunkSize), newSize)] == old(list[..Min(chunkSize, newSize)])
      ensures forall i :: old(chunkSize) <= i < newSize ==> list[i] == value
    {
      if newSize == chunkSize {
        return;
      }
      var newList := new T[newSize];
      var i := 0;
      if newSize <= chunkSize {
        while i < newSize
          modifies newList
          invariant 0 <= i <= newSize
          invariant newList[..i] == list[..i]
        {
          newList[i] := list[i];
          i := i + 1;
        }
      } else {
        while i < chunkSize
          modifies newList
          invariant 0 <= i <= chunkSize
          invariant newList[..i] == list[..i]
        {
          newList[i] := list[i];
          i := i + 1;
        }
        while i < newSize
          modifies newList
          invariant chunkSize <= i <= newSize
          invariant newList[..chunkSize] == list[..chunkSize]
          invariant forall j :: chunkSize <= j < i ==> newList[j] == value
        {
          newList[i] := value;
          i := i + 1;
        }
      }
      list := newList;
      chunkSize := newSize;
      numOfElements := newSize;
    }
  }
}
