/**
 * ChunkList<T, N>: a sequence stored in a chain of chunks of N slots each.
 * The chain is `chunks` (first_chunk, first_chunk->next, ...; empty when
 * first_chunk is null), and every chunk also carries its own prev/next links.
 * Element `pos` lives in chunk `pos / N` at offset `pos % N`; the invariant
 * counts slots chunk by chunk (Capacity.Times, ChunkOf, OffsetOf) so that it
 * stays linear.
 */
module ChunkLists {
  import opened Outcomes
  import Capacity
  import opened Chunks
  import opened Iterators

  class ChunkList<T(0)> {
    const N: nat                    // the template parameter N, the capacity of every chunk
    var chunks: seq<Chunk<T>>       // the chain from first_chunk along the next links
    var listSize: nat               // list_size
    ghost var Contents: seq<T>      // the elements, in order
    ghost var Repr: set<object>     // this, the chunks and their buffers

    /** The buffers of the chain. */
    ghost function Arrays(): set<array<T>>
      reads this`chunks, chunks`list
    {
      set i | 0 <= i < |chunks| :: chunks[i].list
    }

    /** Every chunk has its own buffer of N slots. */
    ghost predicate Storage()
      reads this`chunks, chunks`list
    {
      && N > 0
      && (forall i :: 0 <= i < |chunks| ==> chunks[i].list.Length == N)
      && (forall i, j :: 0 <= i < j < |chunks| ==> chunks[i].list != chunks[j].list)
    }

    /** The chain is linear: distinct chunks, next and prev links between neighbours, null at both ends. */
    ghost predicate Links()
      reads this`chunks, chunks`next, chunks`prev
    {
      && (forall i, j :: 0 <= i < j < |chunks| ==> chunks[i] != chunks[j])
      && (forall i :: 0 <= i < |chunks| - 1 ==> chunks[i].next == chunks[i + 1] && chunks[i + 1].prev == chunks[i])
      && (|chunks| > 0 ==> chunks[0].prev == null && chunks[|chunks| - 1].next == null)
    }

    /** Every chunk but the tail is full, and list_size counts them all. */
    ghost predicate Counts()
      reads this`chunks, this`listSize, chunks`chunkSize, chunks`numOfElements
    {
      && (forall i :: 0 <= i < |chunks| ==> chunks[i].chunkSize == N && chunks[i].numOfElements <= N)
      && (forall i :: 0 <= i < |chunks| - 1 ==> chunks[i].numOfElements == N)
      && (|chunks| == 0 ==> listSize == 0)
      && (|chunks| > 0 ==> listSize == Capacity.Times(|chunks| - 1, N) + chunks[|chunks| - 1].numOfElements)
    }

    /** The slot at absolute position p: chunk p / N, offset p % N. */
    function Slot(p: nat): T
      requires Storage() && p < Capacity.Times(|chunks|, N)
      reads this`chunks, chunks`list, Arrays()
    {
      Capacity.ChunkBelow(p, |chunks|, N);
      Capacity.Decompose(p, N);
      chunks[Capacity.ChunkOf(p, N)].list[Capacity.OffsetOf(p, N)]
    }

    /** Contents is what the first list_size slots hold. */
    ghost predicate Abstraction()
      requires Storage()
      reads this`chunks, this`listSize, this`Contents, chunks`list, Arrays()
    {
      && listSize <= Capacity.Times(|chunks|, N)
      && |Contents| == listSize
      && (forall p :: 0 <= p < listSize ==> Contents[p] == Slot(p))
    }

    /** Repr holds this and every chunk of the chain. */
    ghost predicate Owned()
      reads this`Repr, this`chunks
    {
      this in Repr && forall i :: 0 <= i < |chunks| ==> chunks[i] in Repr
    }

    /** Repr holds this, every chunk of the chain and every buffer. */
    ghost predicate Members()
      reads this`Repr, this`chunks, chunks`list
    {
      Owned() && forall i :: 0 <= i < |chunks| ==> chunks[i].list in Repr
    }

    /** The invariant, except that the tail chunk may be empty. */
    ghost predicate Wf()
      reads this, Repr
    {
      Owned() && Members() && Storage() && Links() && Counts() && Abstraction()
    }

    /** The invariant: in addition, only the head chunk may be empty. */
    ghost predicate Valid()
      reads this, Repr
    {
      Wf() && (|chunks| > 1 ==> chunks[|chunks| - 1].numOfElements > 0)
    }

    /** ChunkList(): an empty list whose head chunk is already allocated. */
    constructor (n: nat)
      requires n > 0
      ensures Valid() && fresh(Repr)
      ensures N == n && Contents == [] && |chunks| == 1
    {
      N := n;
      var head := new Chunk<T>(n);
      chunks := [head];
      listSize := 0;
      Contents := [];
      Repr := {this, head, head.list};
    }

    /** size() */
    function Size(): (r: nat)
      requires Valid()
      reads this, Repr
      ensures r == |Contents|
    {
      listSize
    }

    /** empty() */
    function Empty(): (r: bool)
      requires Valid()
      reads this, Repr
      ensures r <==> Contents == []
    {
      listSize == 0
    }

    /** max_size(): list_size rounded up to a whole number of chunks. */
    function MaxSize(): (r: nat)
      requires N > 0
      reads this
      ensures r % N == 0 && listSize <= r < listSize + N
    {
      Capacity.MaxSize(listSize, N)
    }

    /** max_size() is 0 for an empty list and otherwise the slot count of the whole chain. */
    lemma MaxSizeCoversChunks()
      requires Valid()
      ensures listSize == 0 ==> MaxSize() == 0
      ensures listSize > 0 ==> MaxSize() == Capacity.Times(|chunks|, N)
      ensures listSize > 0 ==> (MaxSize() > listSize <==> chunks[|chunks| - 1].numOfElements < N)
    {
      if listSize > 0 {
        var k, t := |chunks|, chunks[|chunks| - 1].numOfElements;
        Capacity.Division(listSize, N);
        if t == N {
          Capacity.Compose(k, 0, N);
        } else {
          Capacity.Compose(k - 1, t, N);
        }
      }
    }

    /** last_chunk(): walks the next links from first_chunk to the chunk whose next is null. */
    method LastChunk() returns (c: Chunk<T>)
      requires Links() && |chunks| > 0
      ensures c == chunks[|chunks| - 1]
    {
      c := chunks[0];
      ghost var k := 0;
      while c.next != null
        invariant 0 <= k < |chunks| && c == chunks[k]
        invariant k < |chunks| - 1 ==> c.next == chunks[k + 1]
        decreases |chunks| - k
      {
        c := c.next;
        k := k + 1;
      }
    }

    /**
     * The chunk walk of at() and operator[]: starting at first_chunk, follow
     * chunkIndex next links. The caller passes the chunk index pos / N that
     * at() computes; get_chunk_at_index takes the element index instead and
     * divides by N itself before the same walk.
     */
    method GetChunkAtIndex(chunkIndex: nat) returns (c: Chunk<T>)
      requires Links() && chunkIndex < |chunks|
      ensures c == chunks[chunkIndex]
    {
      c := chunks[0];
      var k := chunkIndex;
      while k > 0
        invariant 0 <= k <= chunkIndex && c == chunks[chunkIndex - k]
      {
        assert c.next == chunks[chunkIndex - k + 1];
        c := c.next;
        k := k - 1;
      }
    }

    /** at(pos): out_of_range exactly when pos >= max_size(); otherwise the slot pos resolves to. */
    method At(pos: nat) returns (r: Result<T>)
      requires Valid()
      ensures r.Err? <==> pos >= MaxSize()
      ensures r.Err? ==> r.error == OutOfRange
      ensures pos < |Contents| ==> r == Ok(Contents[pos])
      ensures r.Ok? ==> pos < Capacity.Times(|chunks|, N) && r.value == Slot(pos)
    {
      if pos >= MaxSize() {
        return Err(OutOfRange);
      }
      MaxSizeCoversChunks();
      var v := Get(pos);
      r := Ok(v);
    }

    /** at(i) for a position below size(): never throws, and yields element i. */
    method Element(i: nat) returns (v: T)
      requires Valid() && i < |Contents|
      ensures v == Contents[i]
    {
      var r := At(i);
      v := r.value;
    }

    /** operator[](pos): the same resolution as at(), without the bounds check; defined on the whole chain. */
    method Get(pos: nat) returns (v: T)
      requires Storage() && Links() && pos < Capacity.Times(|chunks|, N)
      ensures v == Slot(pos)
      ensures Wf() && pos < |Contents| ==> v == Contents[pos]
    {
      Capacity.ChunkBelow(pos, |chunks|, N);
      Capacity.Division(pos, N);
      var chunkIndex := pos / N;
      var elementIndex := pos % N;
      var c := GetChunkAtIndex(chunkIndex);
      v := c.list[elementIndex];
    }

    /** front(): logic_error on an empty list, else the first element. */
    method Front() returns (r: Result<T>)
      requires Valid()
      ensures r.Err? <==> Contents == []
      ensures r.Err? ==> r.error == EmptyContainer
      ensures r.Ok? ==> r.value == Contents[0]
    {
      if listSize == 0 {
        return Err(EmptyContainer);
      }
      assert Contents[0] == Slot(0);
      r := Ok(chunks[0].list[0]);
    }

    /** back(): logic_error on an empty list, else the last live slot of the last chunk. */
    method Back() returns (r: Result<T>)
      requires Valid()
      ensures r.Err? <==> Contents == []
      ensures r.Err? ==> r.error == EmptyContainer
      ensures r.Ok? ==> r.value == Contents[|Contents| - 1]
    {
      if listSize == 0 {
        return Err(EmptyContainer);
      }
      var c := LastChunk();
      Capacity.Compose(|chunks| - 1, c.numOfElements - 1, N);
      assert Contents[listSize - 1] == Slot(listSize - 1);
      r := Ok(c.list[c.numOfElements - 1]);
    }

    /** clear(): every chunk is released and first_chunk becomes null. */
    method Clear()
      requires Valid()
      modifies this
      ensures Valid() && fresh(Repr - old(Repr))
      ensures Contents == [] && chunks == [] && MaxSize() == 0
    {
      chunks := [];
      listSize := 0;
      Contents := [];
      Repr := {this};
    }

    /** push_back on a list whose chain was released: a new head chunk is allocated. */
    method LinkHead()
      requires Wf() && chunks == []
      modifies this
      ensures Wf() && |chunks| == 1 && fresh(chunks[0]) && fresh(chunks[0].list)
      ensures chunks[0].numOfElements == 0
      ensures Contents == old(Contents) && listSize == old(listSize)
      ensures Repr == old(Repr) + {chunks[0], chunks[0].list}
    {
      var head := new Chunk<T>(N);
      chunks := [head];
      Repr := Repr + {head, head.list};
    }

    /** A new empty chunk is linked behind the full tail chunk, in both directions. */
    method AppendChunk(cur: Chunk<T>) returns (tail: Chunk<T>)
      requires Wf() && |chunks| > 0 && cur == chunks[|chunks| - 1] && cur.numOfElements == N
      modifies this, cur
      ensures Wf() && fresh(tail) && fresh(tail.list)
      ensures chunks == old(chunks) + [tail] && tail.numOfElements == 0
      ensures Contents == old(Contents) && listSize == old(listSize)
      ensures Repr == old(Repr) + {tail, tail.list}
      ensures cur.next == tail && Arrays() == old(Arrays()) + {tail.list}
    {
      tail := new Chunk<T>(N);
      cur.next := tail;
      tail.prev := cur;
      chunks := chunks + [tail];
      Repr := Repr + {tail, tail.list};
      Appended(cur, tail);
    }

    /** Linking a fresh empty chunk after the full tail keeps Wf(). */
    twostate lemma Appended(cur: Chunk<T>, new tail: Chunk<T>)
      requires old(Wf()) && old(|chunks|) > 0 && cur == old(chunks[|chunks| - 1]) && old(cur.numOfElements) == N
      requires chunks == old(chunks) + [tail] && tail !in old(chunks) && tail.list !in old(Arrays())
      requires Repr == old(Repr) + {tail, tail.list} && listSize == old(listSize) && Contents == old(Contents)
      requires cur.next == tail && tail.prev == cur && tail.next == null
      requires tail.list.Length == N && tail.chunkSize == N && tail.numOfElements == 0
      requires forall i :: 0 <= i < |chunks| - 1 ==>
                 && chunks[i].list == old(chunks[i].list) && chunks[i].list[..] == old(chunks[i].list[..])
                 && chunks[i].prev == old(chunks[i].prev)
                 && chunks[i].chunkSize == old(chunks[i].chunkSize) && chunks[i].numOfElements == old(chunks[i].numOfElements)
      requires forall i :: 0 <= i < |chunks| - 2 ==> chunks[i].next == old(chunks[i].next)
      ensures Wf()
    {
      AppendedLinks(cur, tail);
      AppendedStorage(tail);
      AppendedCounts(tail);
      AppendedAbstraction(tail);
    }

    twostate lemma AppendedLinks(cur: Chunk<T>, new tail: Chunk<T>)
      requires old(Links()) && old(|chunks|) > 0 && cur == old(chunks[|chunks| - 1])
      requires chunks == old(chunks) + [tail] && tail !in old(chunks)
      requires cur.next == tail && tail.prev == cur && tail.next == null
      requires forall i :: 0 <= i < |chunks| - 1 ==> chunks[i].prev == old(chunks[i].prev)
      requires forall i :: 0 <= i < |chunks| - 2 ==> chunks[i].next == old(chunks[i].next)
      ensures Links()
    {
    }

    twostate lemma AppendedStorage(new tail: Chunk<T>)
      requires old(Storage()) && chunks == old(chunks) + [tail] && tail.list.Length == N
      requires forall i :: 0 <= i < |chunks| - 1 ==> chunks[i].list == old(chunks[i].list)
      requires tail.list !in old(Arrays())
      ensures Storage()
    {
    }

    twostate lemma AppendedCounts(new tail: Chunk<T>)
      requires old(Counts()) && old(|chunks|) > 0 && chunks == old(chunks) + [tail] && listSize == old(listSize)
      requires old(chunks[|chunks| - 1].numOfElements) == N
      requires tail.chunkSize == N && tail.numOfElements == 0
      requires forall i :: 0 <= i < |chunks| - 1 ==> chunks[i].chunkSize == old(chunks[i].chunkSize) && chunks[i].numOfElements == old(chunks[i].numOfElements)
      ensures Counts()
    {
      assert Capacity.Times(|chunks| - 1, N) == Capacity.Times(|chunks| - 2, N) + N;
    }

    twostate lemma AppendedAbstraction(new tail: Chunk<T>)
      requires old(Storage()) && old(Abstraction()) && Storage() && chunks == old(chunks) + [tail]
      requires listSize == old(listSize) && Contents == old(Contents)
      requires forall i :: 0 <= i < |chunks| - 1 ==> chunks[i].list == old(chunks[i].list) && chunks[i].list[..] == old(chunks[i].list[..])
      ensures Abstraction()
    {
      forall p | 0 <= p < listSize
        ensures Contents[p] == Slot(p)
      {
        Capacity.ChunkBelow(p, |chunks| - 1, N);
        Capacity.TimesGrows(|chunks| - 1, |chunks|, N);
        Capacity.Decompose(p, N);
        var c, o := Capacity.ChunkOf(p, N), Capacity.OffsetOf(p, N);
        assert chunks[c].list[..][o] == old(chunks[c].list[..])[o];
      }
    }

    /** A write into slot offset of chunk number k of the chain: only that one slot changes. */
    method WriteSlot(c: Chunk<T>, k: nat, offset: nat, value: T)
      requires Storage() && k < |chunks| && c == chunks[k] && offset < N
      modifies c.list
      ensures Untouched()
      ensures Storage() && Capacity.Times(k, N) + offset < Capacity.Times(|chunks|, N)
      ensures forall p :: 0 <= p < Capacity.Times(|chunks|, N) ==>
                Slot(p) == if p == Capacity.Times(k, N) + offset then value else old(Slot(p))
    {
      Capacity.Compose(k, offset, N);
      Capacity.TimesGrows(k, |chunks|, N);
      c.list[offset] := value;
      forall p | 0 <= p < Capacity.Times(|chunks|, N)
        ensures Slot(p) == if p == Capacity.Times(k, N) + offset then value else old(Slot(p))
      {
        Capacity.ChunkBelow(p, |chunks|, N);
        Capacity.Decompose(p, N);
      }
    }

    /** The store of push_back: the value goes into the first free slot of the non-full tail chunk. */
    method WriteTail(cur: Chunk<T>, value: T)
      requires Wf() && |chunks| > 0 && cur == chunks[|chunks| - 1] && cur.numOfElements < N
      modifies cur.list
      ensures Wf() && listSize < Capacity.Times(|chunks|, N) && Slot(listSize) == value
    {
      WriteSlot(cur, |chunks| - 1, cur.numOfElements, value);
      assert Storage() == old(Storage()) && Links() == old(Links()) && Counts() == old(Counts());
      assert forall p :: 0 <= p < listSize ==> Slot(p) == old(Slot(p));
    }

    /** The count step of push_back: the tail's count and the list size go up by one, so the slot just written becomes the last element. */
    method CountTail(cur: Chunk<T>, ghost value: T)
      requires Wf() && |chunks| > 0 && cur == chunks[|chunks| - 1] && cur.numOfElements < N
      requires listSize < Capacity.Times(|chunks|, N) && Slot(listSize) == value
      modifies this, cur
      ensures Valid() && chunks == old(chunks) && Repr == old(Repr)
      ensures Contents == old(Contents) + [value] && cur.numOfElements == old(cur.numOfElements) + 1
    {
      cur.numOfElements := cur.numOfElements + 1;
      listSize := listSize + 1;
      Contents := Contents + [value];
      Recounted();
    }

    /**
     * A step that changes only the counts of the tail chunk and list_size, and
     * Contents to match, keeps Wf().
     */
    twostate lemma Recounted()
      requires old(Owned() && Members() && Storage() && Links() && Counts()) && old(|chunks|) > 0 && chunks == old(chunks) && Repr == old(Repr)
      requires forall i :: 0 <= i < |chunks| ==>
                 && chunks[i].list == old(chunks[i].list) && chunks[i].list[..] == old(chunks[i].list[..])
                 && chunks[i].next == old(chunks[i].next) && chunks[i].prev == old(chunks[i].prev)
                 && chunks[i].chunkSize == old(chunks[i].chunkSize)
      requires forall i :: 0 <= i < |chunks| - 1 ==> chunks[i].numOfElements == old(chunks[i].numOfElements)
      requires chunks[|chunks| - 1].numOfElements <= N
      requires listSize == Capacity.Times(|chunks| - 1, N) + chunks[|chunks| - 1].numOfElements
      requires listSize <= Capacity.Times(|chunks|, N) && |Contents| == listSize
      requires forall p :: 0 <= p < listSize ==> Contents[p] == old(Slot(p))
      ensures Wf()
    {
      SlotsKept();
    }

    /** The tail has room: the value goes into its first free slot and becomes the last element. */
    method AddToTail(cur: Chunk<T>, value: T)
      requires Wf() && |chunks| > 0 && cur == chunks[|chunks| - 1] && cur.numOfElements < N
      modifies this, cur, cur.list
      ensures Valid() && chunks == old(chunks) && Repr == old(Repr)
      ensures Contents == old(Contents) + [value] && cur.numOfElements == old(cur.numOfElements) + 1
    {
      WriteTail(cur, value);
      CountTail(cur, value);
    }

    /**
     * push_back(value): a missing head chunk is created first; a new tail chunk,
     * back-linked to the old one, is added only when the old tail is full.
     */
    method PushBack(value: T)
      requires Valid()
      modifies Repr
      ensures Valid() && fresh(Repr - old(Repr))
      ensures Contents == old(Contents) + [value]
      ensures old(|chunks|) == 0 ==> |chunks| == 1
      ensures old(|chunks|) > 0 && old(chunks[|chunks| - 1].numOfElements) < N ==> chunks == old(chunks)
      ensures old(|chunks|) > 0 && old(chunks[|chunks| - 1].numOfElements) == N ==>
                |chunks| == old(|chunks|) + 1 && chunks[..old(|chunks|)] == old(chunks)
    {
      var cur := TailWithRoom();
      AddToTail(cur, value);
    }

    /**
     * The first half of push_back: recreate a missing head chunk, then find the
     * tail chunk and link a new one after it when it is full.
     */
    method TailWithRoom() returns (cur: Chunk<T>)
      requires Valid()
      modifies Repr
      ensures Wf() && |chunks| > 0 && cur == chunks[|chunks| - 1] && cur.numOfElements < N && fresh(Repr - old(Repr))
      ensures Contents == old(Contents) && listSize == old(listSize)
      ensures old(|chunks|) == 0 ==> |chunks| == 1
      ensures old(|chunks|) > 0 && old(chunks[|chunks| - 1].numOfElements) < N ==> chunks == old(chunks)
      ensures old(|chunks|) > 0 && old(chunks[|chunks| - 1].numOfElements) == N ==>
                |chunks| == old(|chunks|) + 1 && chunks[..old(|chunks|)] == old(chunks)
    {
      if |chunks| == 0 {
        LinkHead();
      }
      cur := LastChunk();
      if cur.numOfElements == N {
        cur := AppendChunk(cur);
      }
    }
  
    /** The list size and the tail's count go down by one: the last element stops being live. */
    method DropLast(cur: Chunk<T>)
      requires Valid() && listSize > 0 && cur == chunks[|chunks| - 1]
      modifies this, cur
      ensures Wf() && chunks == old(chunks) && Repr == old(Repr)
      ensures Contents == old(Contents)[..|old(Contents)| - 1]
      ensures cur.numOfElements == old(cur.numOfElements) - 1
    {
      cur.numOfElements := cur.numOfElements - 1;
      listSize := listSize - 1;
      Contents := Contents[..listSize];
      Recounted();
    }

    /** The empty tail chunk is released, and the chunk before it, reached through prev, becomes the tail. */
    method UnlinkTail(cur: Chunk<T>)
      requires Wf() && |chunks| > 1 && cur == chunks[|chunks| - 1] && cur.numOfElements == 0
      modifies this, chunks[|chunks| - 2]
      ensures Valid() && Repr == old(Repr) && Contents == old(Contents)
      ensures chunks == old(chunks)[..|old(chunks)| - 1]
    {
      assert cur.prev == chunks[|chunks| - 2];
      var prev := cur.prev;
      prev.next := null;
      chunks := chunks[..|chunks| - 1];
      Truncated(prev);
    }

    /** Dropping the empty tail chunk from the chain, with prev's next cleared, keeps the invariant. */
    twostate lemma Truncated(prev: Chunk<T>)
      requires old(Wf()) && old(|chunks|) > 1 && prev == old(chunks[|chunks| - 2]) && old(chunks[|chunks| - 1].numOfElements) == 0
      requires chunks == old(chunks)[..old(|chunks|) - 1] && prev.next == null
      requires Repr == old(Repr) && listSize == old(listSize) && Contents == old(Contents)
      requires forall i :: 0 <= i < |chunks| ==>
                 && chunks[i].list == old(chunks[i].list) && chunks[i].list[..] == old(chunks[i].list[..])
                 && chunks[i].prev == old(chunks[i].prev)
                 && chunks[i].chunkSize == old(chunks[i].chunkSize) && chunks[i].numOfElements == old(chunks[i].numOfElements)
      requires forall i :: 0 <= i < |chunks| - 1 ==> chunks[i].next == old(chunks[i].next)
      ensures Valid()
    {
      TruncatedLinks(prev);
      TruncatedCounts();
      Capacity.TimesGrows(|chunks|, |chunks| + 1, N);
      TruncatedAbstraction();
    }

    twostate lemma TruncatedLinks(prev: Chunk<T>)
      requires old(Links()) && old(|chunks|) > 1 && prev == old(chunks[|chunks| - 2])
      requires chunks == old(chunks)[..old(|chunks|) - 1] && prev.next == null
      requires forall i :: 0 <= i < |chunks| ==> chunks[i].prev == old(chunks[i].prev)
      requires forall i :: 0 <= i < |chunks| - 1 ==> chunks[i].next == old(chunks[i].next)
      ensures Links()
    {
    }

    twostate lemma TruncatedCounts()
      requires old(Counts()) && old(|chunks|) > 1 && chunks == old(chunks)[..old(|chunks|) - 1]
      requires old(chunks[|chunks| - 1].numOfElements) == 0 && listSize == old(listSize)
      requires forall i :: 0 <= i < |chunks| ==> chunks[i].chunkSize == old(chunks[i].chunkSize) && chunks[i].numOfElements == old(chunks[i].numOfElements)
      ensures Counts() && chunks[|chunks| - 1].numOfElements == N
    {
    }

    twostate lemma TruncatedAbstraction()
      requires old(Storage()) && old(Abstraction()) && Storage()
      requires old(|chunks|) > 0 && chunks == old(chunks)[..old(|chunks|) - 1]
      requires listSize == old(listSize) && Contents == old(Contents) && listSize <= Capacity.Times(|chunks|, N)
      requires forall i :: 0 <= i < |chunks| ==> chunks[i].list == old(chunks[i].list) && chunks[i].list[..] == old(chunks[i].list[..])
      ensures Abstraction()
    {
      forall p | 0 <= p < listSize
        ensures Contents[p] == Slot(p)
      {
        Capacity.ChunkBelow(p, |chunks|, N);
        Capacity.TimesGrows(|chunks|, |chunks| + 1, N);
        Capacity.Decompose(p, N);
        var c, o := Capacity.ChunkOf(p, N), Capacity.OffsetOf(p, N);
        assert chunks[c].list[..][o] == old(chunks[c].list[..])[o];
      }
    }

    /**
     * pop_back(): nothing happens on an empty list; otherwise the last element
     * is dropped, and a tail chunk left empty is unlinked unless it is the head.
     */
    method PopBack()
      requires Valid()
      modifies Repr
      ensures Valid() && Repr == old(Repr)
      ensures old(Contents) == [] ==> Contents == [] && chunks == old(chunks)
      ensures old(Contents) != [] ==> Contents == old(Contents)[..|old(Contents)| - 1]
      ensures old(|chunks|) > 1 && old(chunks[|chunks| - 1].numOfElements) == 1 ==>
                chunks == old(chunks)[..old(|chunks|) - 1]
      ensures old(|chunks|) <= 1 || old(chunks[|chunks| - 1].numOfElements) > 1 ==> chunks == old(chunks)
    {
      if listSize == 0 {
        return;
      }
      var cur := LastChunk();
      RemoveLast(cur);
    }

    /**
     * The body of pop_back on a non-empty list: the size and the tail's count go
     * down by one, then a tail chunk left empty is unlinked unless it is the head.
     */
    method RemoveLast(cur: Chunk<T>)
      requires Valid() && listSize > 0 && cur == chunks[|chunks| - 1]
      modifies this, cur, if |chunks| > 1 then {chunks[|chunks| - 2]} else {}
      ensures Valid() && Repr == old(Repr)
      ensures Contents == old(Contents)[..|old(Contents)| - 1]
      ensures old(|chunks|) > 1 && old(cur.numOfElements) == 1 ==> chunks == old(chunks)[..old(|chunks|) - 1]
      ensures old(|chunks|) <= 1 || old(cur.numOfElements) > 1 ==> chunks == old(chunks)
    {
      DropLast(cur);
      if cur.numOfElements == 0 && chunks[0] != cur {
        UnlinkTail(cur);
      }
    }

    /** Assigning through at(pos): at() does not throw (pos < max_size()), and only slot pos changes. */
    method Store(pos: nat, value: T)
      requires Storage() && Links() && pos < Capacity.Times(|chunks|, N)
      requires pos < Capacity.MaxSize(listSize, N)
      modifies Arrays()
      ensures Untouched()
      ensures Storage() && Links()
      ensures forall p :: 0 <= p < Capacity.Times(|chunks|, N) ==> Slot(p) == if p == pos then value else old(Slot(p))
    {
      Capacity.ChunkBelow(pos, |chunks|, N);
      Capacity.Division(pos, N);
      Capacity.Decompose(pos, N);
      var c := GetChunkAtIndex(pos / N);
      assert Capacity.Times(pos / N, N) + pos % N == pos;
      WriteSlot(c, pos / N, pos % N, value);
    }

    /** Assigning the element at(from) to at(to): slot to takes the value of slot from; no other slot changes. */
    method Move(from: nat, to: nat)
      requires Storage() && Links() && from < Capacity.Times(|chunks|, N) && to < Capacity.Times(|chunks|, N)
      requires to < Capacity.MaxSize(listSize, N)
      modifies Arrays()
      ensures Untouched()
      ensures Storage() && Links()
      ensures forall p :: 0 <= p < Capacity.Times(|chunks|, N) ==> Slot(p) == if p == to then old(Slot(from)) else old(Slot(p))
    {
      var v := Get(from);
      Store(to, v);
    }

    /**
     * The shift loop of insert: walking down from position last - 1 to index,
     * each slot is copied one place up. The slots index .. last - 1 move up by
     * one, and slot index keeps its old value.
     */
    method ShiftUp(index: nat, last: nat, ghost s: seq<T>)
      requires Storage() && Links() && index < last < Capacity.Times(|chunks|, N)
      requires last < Capacity.MaxSize(listSize, N) && |s| == last
      requires forall p :: 0 <= p < last ==> Slot(p) == s[p]
      modifies Arrays()
      ensures Storage() && Links() && Untouched()
      ensures forall p {:trigger Slot(p)} :: 0 <= p <= last ==> Slot(p) == if p <= index then s[p] else s[p - 1]
    {
      ghost var t := s + [Slot(last)];
      var i := 0;
      while last - 1 - i >= index
        invariant 0 <= i <= last - index
        invariant Storage() && Links()
        invariant forall p {:trigger Slot(p)} :: 0 <= p <= last ==> Slot(p) == if p > last - i then t[p - 1] else t[p]
        decreases last - i
      {
        MoveUp(last, i, t);
        i := i + 1;
      }
    }

    /** One step of the shift loop: slot last - i - 1 is copied into slot last - i. */
    method MoveUp(last: nat, i: nat, ghost t: seq<T>)
      requires Storage() && Links() && i < last < Capacity.Times(|chunks|, N) && |t| == last + 1
      requires last < Capacity.MaxSize(listSize, N)
      requires forall p {:trigger Slot(p)} :: 0 <= p <= last ==> Slot(p) == if p > last - i then t[p - 1] else t[p]
      modifies Arrays()
      ensures Storage() && Links()
      ensures forall p {:trigger Slot(p)} :: 0 <= p <= last ==> Slot(p) == if p > last - i - 1 then t[p - 1] else t[p]
    {
      label Step:
      Move(last - i - 1, last - i);
      forall p | 0 <= p <= last
        ensures Slot(p) == if p > last - i - 1 then t[p - 1] else t[p]
      {
        if p == last - i {
          assert old@Step(Slot(last - i - 1)) == t[p - 1];
        } else {
          assert old@Step(Slot(p)) == if p > last - i then t[p - 1] else t[p];
        }
      }
    }

    /** Only buffer slots have changed: the fields of the list and of every chunk are as they were. */
    twostate predicate Untouched()
      reads this, chunks
    {
      && chunks == old(chunks) && Repr == old(Repr) && listSize == old(listSize) && Contents == old(Contents)
      && forall i :: 0 <= i < |chunks| ==>
           && chunks[i].list == old(chunks[i].list) && chunks[i].next == old(chunks[i].next) && chunks[i].prev == old(chunks[i].prev)
           && chunks[i].chunkSize == old(chunks[i].chunkSize) && chunks[i].numOfElements == old(chunks[i].numOfElements)
    }

    /**
     * The state of insert just before the value is stored: list_size already
     * counts the new element, the tail chunk does not yet, and the elements of s
     * from index on have moved up one slot.
     */
    ghost predicate Room(index: nat, s: seq<T>)
      reads this, Repr
    {
      Owned() && Members() && Storage() && Links() && Pending() && Shifted(index, s) && Contents == s
    }

    /** Counts(), except that list_size already includes one element the non-full tail does not. */
    ghost predicate Pending()
      reads this`chunks, this`listSize, chunks`chunkSize, chunks`numOfElements
    {
      && |chunks| > 0
      && (forall i :: 0 <= i < |chunks| ==> chunks[i].chunkSize == N && chunks[i].numOfElements <= N)
      && (forall i :: 0 <= i < |chunks| - 1 ==> chunks[i].numOfElements == N)
      && chunks[|chunks| - 1].numOfElements < N
      && listSize == Capacity.Times(|chunks| - 1, N) + chunks[|chunks| - 1].numOfElements + 1
    }

    /** The first list_size slots hold s with its elements from index on moved up one slot; slot index is free. */
    ghost predicate Shifted(index: nat, s: seq<T>)
      requires Storage()
      reads this`chunks, this`listSize, chunks`list, Arrays()
    {
      && listSize <= Capacity.Times(|chunks|, N)
      && index <= |s| && listSize == |s| + 1
      && (forall p {:trigger Slot(p)} :: 0 <= p < listSize && p != index ==> Slot(p) == if p < index then s[p] else s[p - 1])
    }

    /** The max_size() > list_size branch of insert: the shift stays inside the chain, then the list size goes up by one. */
    method ShiftInTail(index: nat)
      requires Owned() && Members() && Storage() && Links() && Counts() && Abstraction()
      requires |chunks| > 0 && chunks[|chunks| - 1].numOfElements < N
      requires index <= listSize < Capacity.MaxSize(listSize, N)
      modifies this`listSize, Arrays()
      ensures Room(index, old(Contents)) && chunks == old(chunks) && Repr == old(Repr)
    {
      ghost var s := Contents;
      if index < listSize {
        ShiftUp(index, listSize, s);
      }
      label Moved:
      listSize := listSize + 1;
      Opened@Moved(index, s);
      ChainKept();
      CountedAhead();
    }

    /** Counting the new element in list_size keeps the slots: s, moved up one slot from index on. */
    twostate lemma Opened(index: nat, new s: seq<T>)
      requires old(Storage()) && chunks == old(chunks) && listSize == old(listSize) + 1 && index <= |s| == old(listSize)
      requires listSize <= Capacity.Times(|chunks|, N)
      requires forall i :: 0 <= i < |chunks| ==> chunks[i].list == old(chunks[i].list) && chunks[i].list[..] == old(chunks[i].list[..])
      requires old(forall p :: 0 <= p <= listSize && p != index ==> Slot(p) == if p < index then s[p] else s[p - 1])
      ensures Storage() && Shifted(index, s)
    {
      SlotsKept();
      forall p | 0 <= p < listSize && p != index
        ensures Slot(p) == if p < index then s[p] else s[p - 1]
      {
        assert Slot(p) == old(Slot(p));
      }
    }

    /** A step that leaves the chain and every buffer alone leaves every slot alone. */
    twostate lemma SlotsKept()
      requires old(Storage()) && chunks == old(chunks)
      requires forall i :: 0 <= i < |chunks| ==> chunks[i].list == old(chunks[i].list) && chunks[i].list[..] == old(chunks[i].list[..])
      ensures Storage() && forall p :: 0 <= p < Capacity.Times(|chunks|, N) ==> Slot(p) == old(Slot(p))
    {
      forall p | 0 <= p < Capacity.Times(|chunks|, N)
        ensures Slot(p) == old(Slot(p))
      {
        Capacity.ChunkBelow(p, |chunks|, N);
        Capacity.Decompose(p, N);
        var c, o := Capacity.ChunkOf(p, N), Capacity.OffsetOf(p, N);
        assert chunks[c].list[..][o] == old(chunks[c].list[..])[o];
      }
    }

    /** Nothing that Members(), Storage() and Links() read has changed. */
    twostate lemma ChainKept()
      requires old(Members() && Storage() && Links()) && chunks == old(chunks) && Repr == old(Repr)
      requires forall i :: 0 <= i < |chunks| ==>
                 chunks[i].list == old(chunks[i].list) && chunks[i].next == old(chunks[i].next) && chunks[i].prev == old(chunks[i].prev)
      ensures Members() && Storage() && Links()
    {
    }

    /** A step that only writes buffer slots keeps the chain and Pending(). */
    twostate lemma PendingKept()
      requires old(Owned() && Members() && Storage() && Links() && Pending())
      requires chunks == old(chunks) && Repr == old(Repr) && listSize == old(listSize)
      requires forall i :: 0 <= i < |chunks| ==>
                 && chunks[i].list == old(chunks[i].list) && chunks[i].next == old(chunks[i].next) && chunks[i].prev == old(chunks[i].prev)
                 && chunks[i].chunkSize == old(chunks[i].chunkSize) && chunks[i].numOfElements == old(chunks[i].numOfElements)
      ensures Owned() && Members() && Storage() && Links() && Pending()
    {
    }

    /** Counting one more element in list_size but not in the chunks turns Counts() into Pending(). */
    twostate lemma CountedAhead()
      requires old(Counts()) && old(|chunks|) > 0 && chunks == old(chunks) && listSize == old(listSize) + 1
      requires old(chunks[|chunks| - 1].numOfElements) < N
      requires forall i :: 0 <= i < |chunks| ==>
                 chunks[i].chunkSize == old(chunks[i].chunkSize) && chunks[i].numOfElements == old(chunks[i].numOfElements)
      ensures Pending()
    {
    }

    /**
     * The max_size() == list_size branch of insert: a new tail chunk is linked
     * after the full tail cur, the list size goes up by one, then the shift
     * reaches into the new chunk.
     */
    method ShiftIntoNewChunk(cur: Chunk<T>, index: nat)
      requires Valid() && index < listSize == MaxSize() && cur == chunks[|chunks| - 1]
      modifies this, cur, Arrays()
      ensures Room(index, old(Contents)) && fresh(Repr - old(Repr))
      ensures |chunks| == old(|chunks|) + 1 && chunks[..old(|chunks|)] == old(chunks) && cur.next == chunks[|chunks| - 1]
    {
      var tail := Grow(cur);
      label Grown:
      ShiftUp(index, listSize - 1, Contents);
      PendingKept@Grown();
    }

    /**
     * A new chunk is linked behind the full tail in both directions, then the
     * list size goes up by one: the slots of the new chunk are in reach of at().
     */
    method Grow(cur: Chunk<T>) returns (tail: Chunk<T>)
      requires Valid() && 0 < listSize == MaxSize() && cur == chunks[|chunks| - 1]
      modifies this, cur
      ensures Members() && Storage() && Links() && Pending()
      ensures chunks == old(chunks) + [tail] && cur.next == tail && fresh(tail) && fresh(tail.list)
      ensures Repr == old(Repr) + {tail, tail.list} && Arrays() == old(Arrays()) + {tail.list}
      ensures listSize == old(listSize) + 1 && Contents == old(Contents)
      ensures listSize <= Capacity.Times(|chunks|, N)
      ensures forall p :: 0 <= p < |Contents| ==> Slot(p) == Contents[p]
    {
      MaxSizeCoversChunks();
      tail := AppendChunk(cur);
      label Linked:
      listSize := listSize + 1;
      ChainKept@Linked();
      CountedAhead@Linked();
    }

    /** The end of insert: the value is stored in the freed slot and the tail counts it, so the list holds s with value inserted at index. */
    method Place(cur: Chunk<T>, index: nat, value: T, ghost s: seq<T>)
      requires Room(index, s) && cur == chunks[|chunks| - 1]
      modifies this`Contents, cur`numOfElements, Arrays()
      ensures Valid() && Contents == s[..index] + [value] + s[index..]
    {
      Store(index, value);
      Inserted(index, value);
      Settle(cur, s[..index] + [value] + s[index..]);
    }

    /** Once the slots spell out c, the tail chunk's count goes up by one to take in the new element. */
    method Settle(cur: Chunk<T>, ghost c: seq<T>)
      requires Owned() && Members() && Storage() && Links() && Pending() && cur == chunks[|chunks| - 1]
      requires listSize <= Capacity.Times(|chunks|, N) && |c| == listSize
      requires forall p :: 0 <= p < listSize ==> Slot(p) == c[p]
      modifies this`Contents, cur`numOfElements
      ensures Valid() && Contents == c
    {
      cur.numOfElements := cur.numOfElements + 1;
      Contents := c;
      Reabstracted();
      ChainKept();
      CountedTail();
    }

    /** The tail count catching up with list_size turns Pending() back into Counts(). */
    twostate lemma CountedTail()
      requires old(Pending()) && chunks == old(chunks) && listSize == old(listSize)
      requires chunks[|chunks| - 1].numOfElements == old(chunks[|chunks| - 1].numOfElements) + 1
      requires forall i :: 0 <= i < |chunks| ==> chunks[i].chunkSize == old(chunks[i].chunkSize)
      requires forall i :: 0 <= i < |chunks| - 1 ==> chunks[i].numOfElements == old(chunks[i].numOfElements)
      ensures Counts() && chunks[|chunks| - 1].numOfElements > 0
    {
    }

    /** Writing value into the slot the shift freed gives the old contents with value inserted at index. */
    twostate lemma Inserted(index: nat, new value: T)
      requires old(Storage()) && Storage() && chunks == old(chunks) && listSize == old(listSize)
      requires old(Shifted(index, Contents))
      requires forall p :: 0 <= p < Capacity.Times(|chunks|, N) ==> Slot(p) == if p == index then value else old(Slot(p))
      ensures forall p :: 0 <= p < listSize ==> Slot(p) == (old(Contents)[..index] + [value] + old(Contents)[index..])[p]
    {
      ghost var s := old(Contents);
      forall p | 0 <= p < listSize
        ensures Slot(p) == (s[..index] + [value] + s[index..])[p]
      {
        if p != index {
          assert old(Slot(p)) == if p < index then s[p] else s[p - 1];
        }
      }
    }

    /** When the buffers are untouched and the slots spell out the new Contents, Abstraction() holds. */
    twostate lemma Reabstracted()
      requires old(Storage()) && chunks == old(chunks) && listSize == old(listSize)
      requires forall i :: 0 <= i < |chunks| ==> chunks[i].list == old(chunks[i].list) && chunks[i].list[..] == old(chunks[i].list[..])
      requires listSize <= Capacity.Times(|chunks|, N) && |Contents| == listSize
      requires forall p :: 0 <= p < listSize ==> old(Slot(p)) == Contents[p]
      ensures Storage() && Abstraction()
    {
      SlotsKept();
    }

    /**
     * insert(pos, value): at cend() this is push_back and returns end().
     * Otherwise the value goes in before position pos.index and the result is
     * the iterator at that position. A resolved iterator may also sit at
     * index size() while the tail has room: nothing moves and the value is
     * appended.
     */
    method Insert(pos: Iter, value: T) returns (r: Iter)
      requires Valid()
      requires Same(pos, End) || (0 <= pos.index <= |Contents| && pos.index < MaxSize())
      modifies Repr
      ensures Valid() && fresh(Repr - old(Repr))
      ensures Same(pos, End) ==> Contents == old(Contents) + [value] && r == End
      ensures !Same(pos, End) ==>
                Contents == old(Contents)[..pos.index] + [value] + old(Contents)[pos.index..] &&
                r == Iter(true, pos.index, Some(pos.index))
    {
      if Same(pos, End) {
        PushBack(value);
        return End;
      }
      InsertBefore(pos.index, value);
      r := Iter(true, pos.index, Some(pos.index));
    }

    /**
     * The body of insert(pos, value) for a position before cend(): the elements
     * from index on move up one slot, through a new tail chunk when the chain
     * is full (max_size() == size()), and value goes into the freed slot.
     */
    method InsertBefore(index: nat, value: T)
      requires Valid() && index <= |Contents| && index < MaxSize()
      modifies Repr
      ensures Valid() && fresh(Repr - old(Repr))
      ensures Contents == old(Contents)[..index] + [value] + old(Contents)[index..]
      ensures old(MaxSize()) > old(listSize) ==> chunks == old(chunks)
      ensures old(MaxSize()) == old(listSize) ==> |chunks| == old(|chunks|) + 1 && chunks[..old(|chunks|)] == old(chunks)
    {
      var cur := LastChunk();
      if MaxSize() > listSize {
        InsertInTail(cur, index, value);
      } else {
        InsertIntoNewChunk(cur, index, value);
      }
    }

    /**
     * insert before index when max_size() > list_size: the tail chunk has a
     * free slot. At index == list_size the shift loop does not run.
     */
    method InsertInTail(cur: Chunk<T>, index: nat, value: T)
      requires Valid() && index <= listSize < MaxSize() && cur == chunks[|chunks| - 1]
      modifies Repr
      ensures Valid() && chunks == old(chunks) && Repr == old(Repr)
      ensures Contents == old(Contents)[..index] + [value] + old(Contents)[index..]
    {
      MaxSizeCoversChunks();
      ShiftInTail(index);
      Place(cur, index, value, old(Contents));
    }

    /** insert before index when max_size() == list_size: a new tail chunk takes the last element. */
    method InsertIntoNewChunk(cur: Chunk<T>, index: nat, value: T)
      requires Valid() && index < listSize == MaxSize() && cur == chunks[|chunks| - 1]
      modifies Repr
      ensures Valid() && fresh(Repr - old(Repr))
      ensures Contents == old(Contents)[..index] + [value] + old(Contents)[index..]
      ensures |chunks| == old(|chunks|) + 1 && chunks[..old(|chunks|)] == old(chunks)
    {
      ShiftIntoNewChunk(cur, index);
      Place(cur.next, index, value, old(Contents));
    }

    /**
     * erase(pos): removes the element at pos.index (end() has index 0). Erasing
     * the last element returns end(); otherwise the elements after it move down
     * one slot, the tail chunk is freed when it held exactly one element, and the
     * result is the iterator at pos.index.
     */
    method Erase(pos: Iter) returns (r: Iter)
      requires Valid() && 0 <= pos.index < |Contents|
      modifies Repr
      ensures Valid() && Repr == old(Repr)
      ensures Contents == old(Contents)[..pos.index] + old(Contents)[pos.index + 1..]
      ensures pos.index + 1 == old(|Contents|) ==> r == End
      ensures pos.index + 1 < old(|Contents|) ==> r == Iter(true, pos.index, Some(pos.index))
      ensures old(|chunks|) > 1 && old(chunks[|chunks| - 1].numOfElements) == 1 ==> chunks == old(chunks)[..old(|chunks|) - 1]
      ensures old(|chunks|) <= 1 || old(chunks[|chunks| - 1].numOfElements) > 1 ==> chunks == old(chunks)
    {
      var index: nat := pos.index;
      var cur := LastChunk();
      if index + 1 == listSize {
        RemoveLast(cur);
        return End;
      }
      EraseInside(cur, index);
      r := Iter(true, index, Some(index));
    }

    /**
     * erase(pos) as written for the last element: only the list size and the
     * tail's count go down by one, so a tail chunk that held one element
     * stays linked although it is empty.
     */
    method EraseLastAsWritten(cur: Chunk<T>) returns (r: Iter)
      requires Valid() && listSize > 0 && cur == chunks[|chunks| - 1]
      modifies this, cur
      ensures Wf() && r == End && chunks == old(chunks)
      ensures Contents == old(Contents)[..|old(Contents)| - 1]
      ensures old(|chunks|) > 1 && old(cur.numOfElements) == 1 ==> !Valid()
    {
      DropLast(cur);
      return End;
    }

    /** erase of an element before the last: shift down, then shrink or free the tail chunk, and the size goes down by one. */
    method EraseInside(cur: Chunk<T>, index: nat)
      requires Valid() && index + 1 < listSize && cur == chunks[|chunks| - 1]
      modifies Repr
      ensures Valid() && Repr == old(Repr)
      ensures Contents == old(Contents)[..index] + old(Contents)[index + 1..]
      ensures old(cur.numOfElements) == 1 ==> |chunks| > 0 && chunks == old(chunks)[..old(|chunks|) - 1]
      ensures old(cur.numOfElements) > 1 ==> chunks == old(chunks)
    {
      MaxSizeCoversChunks();
      OneInTail();
      ghost var c := Contents[..index] + Contents[index + 1..];
      ShiftDown(index, listSize, Contents);
      UntouchedKeeps();
      if listSize == MaxSize() - N + 1 {
        FreeTail(cur, c);
      } else {
        ShrinkTail(cur, c);
      }
    }

    /** list_size == max_size() - N + 1 says exactly that the tail chunk holds one element. */
    lemma OneInTail()
      requires Valid() && listSize > 0
      ensures listSize == MaxSize() - N + 1 <==> chunks[|chunks| - 1].numOfElements == 1
      ensures |chunks| == 1 ==> chunks[0].numOfElements == listSize
    {
      MaxSizeCoversChunks();
    }

    /** A step that only writes buffer slots keeps Owned(), Members() and Counts(). */
    twostate lemma UntouchedKeeps()
      requires old(Owned() && Members() && Counts()) && Untouched()
      ensures Owned() && Members() && Counts()
    {
    }

    /**
     * The shift loop of erase: walking up from position index + 1 to last - 1,
     * each slot is copied one place down. The elements of s after index move
     * down one slot.
     */
    method ShiftDown(index: nat, last: nat, ghost s: seq<T>)
      requires Storage() && Links() && index + 1 < last <= Capacity.Times(|chunks|, N)
      requires last <= Capacity.MaxSize(listSize, N) && |s| == last
      requires forall p :: 0 <= p < last ==> Slot(p) == s[p]
      modifies Arrays()
      ensures Storage() && Links() && Untouched()
      ensures forall p :: 0 <= p < last - 1 ==> Slot(p) == (s[..index] + s[index + 1..])[p]
    {
      var i := index + 1;
      while i < last
        invariant index + 1 <= i <= last
        invariant Storage() && Links() && Untouched()
        invariant forall p {:trigger Slot(p)} :: 0 <= p < last ==> Slot(p) == if index <= p < i - 1 then s[p + 1] else s[p]
      {
        MoveDown(index, i, last, s);
        i := i + 1;
      }
    }

    /** One step of the erase loop: slot i is copied into slot i - 1. */
    method MoveDown(index: nat, i: nat, last: nat, ghost s: seq<T>)
      requires Storage() && Links() && index < i < last <= Capacity.Times(|chunks|, N) && |s| == last
      requires last <= Capacity.MaxSize(listSize, N)
      requires forall p {:trigger Slot(p)} :: 0 <= p < last ==> Slot(p) == if index <= p < i - 1 then s[p + 1] else s[p]
      modifies Arrays()
      ensures Storage() && Links() && Untouched()
      ensures forall p {:trigger Slot(p)} :: 0 <= p < last ==> Slot(p) == if index <= p < i then s[p + 1] else s[p]
    {
      label Step:
      Move(i, i - 1);
      forall p | 0 <= p < last
        ensures Slot(p) == if index <= p < i then s[p + 1] else s[p]
      {
        if p == i - 1 {
          assert old@Step(Slot(i)) == s[i];
        } else {
          assert old@Step(Slot(p)) == if index <= p < i - 1 then s[p + 1] else s[p];
        }
      }
    }

    /**
     * The tail chunk held one element: it is released through its predecessor,
     * reached by prev, which becomes the tail; then the list size goes down by one.
     */
    method FreeTail(cur: Chunk<T>, ghost c: seq<T>)
      requires Owned() && Members() && Storage() && Links() && Counts()
      requires |chunks| > 1 && cur == chunks[|chunks| - 1] && cur.numOfElements == 1
      requires listSize > 0 && |c| == listSize - 1 && forall p :: 0 <= p < |c| ==> Slot(p) == c[p]
      modifies this, chunks[|chunks| - 2]
      ensures Valid() && Repr == old(Repr) && Contents == c
      ensures chunks == old(chunks)[..|old(chunks)| - 1]
    {
      assert cur.prev == chunks[|chunks| - 2];
      assert listSize <= Capacity.Times(|chunks|, N);
      var prev := cur.prev;
      prev.next := null;
      chunks := chunks[..|chunks| - 1];
      listSize := listSize - 1;
      Contents := c;
      assert forall p :: 0 <= p < listSize ==> p < old(Capacity.Times(|chunks|, N)) && Contents[p] == old(Slot(p));
      Freed(prev);
    }

    /** Dropping a tail chunk that held one element, together with that element, keeps the invariant. */
    twostate lemma Freed(prev: Chunk<T>)
      requires old(Owned() && Members() && Storage() && Links() && Counts())
      requires old(|chunks|) > 1 && prev == old(chunks[|chunks| - 2]) && old(chunks[|chunks| - 1].numOfElements) == 1
      requires chunks == old(chunks)[..old(|chunks|) - 1] && prev.next == null
      requires Repr == old(Repr) && listSize == old(listSize) - 1 && |Contents| == listSize
      requires forall i :: 0 <= i < |chunks| ==>
                 && chunks[i].list == old(chunks[i].list) && chunks[i].list[..] == old(chunks[i].list[..])
                 && chunks[i].prev == old(chunks[i].prev)
                 && chunks[i].chunkSize == old(chunks[i].chunkSize) && chunks[i].numOfElements == old(chunks[i].numOfElements)
      requires forall i :: 0 <= i < |chunks| - 1 ==> chunks[i].next == old(chunks[i].next)
      requires forall p :: 0 <= p < listSize ==> p < old(Capacity.Times(|chunks|, N)) && Contents[p] == old(Slot(p))
      ensures Valid()
    {
      TruncatedLinks(prev);
      assert Capacity.Times(old(|chunks|) - 1, N) == Capacity.Times(|chunks| - 1, N) + N;
      forall p | 0 <= p < listSize
        ensures p < Capacity.Times(|chunks|, N) && Contents[p] == Slot(p)
      {
        Capacity.ChunkBelow(p, |chunks|, N);
        Capacity.Decompose(p, N);
        var k, o := Capacity.ChunkOf(p, N), Capacity.OffsetOf(p, N);
        Capacity.TimesGrows(k, |chunks|, N);
        assert chunks[k].list[..][o] == old(chunks[k].list[..])[o];
      }
    }

    /** The tail chunk held more than one element: its count, then the list size, go down by one. */
    method ShrinkTail(cur: Chunk<T>, ghost c: seq<T>)
      requires Owned() && Members() && Storage() && Links() && Counts()
      requires |chunks| > 0 && cur == chunks[|chunks| - 1] && cur.numOfElements > 1
      requires listSize > 0 && |c| == listSize - 1 && forall p :: 0 <= p < |c| ==> Slot(p) == c[p]
      modifies this`listSize, this`Contents, cur`numOfElements
      ensures Valid() && Contents == c
    {
      cur.numOfElements := cur.numOfElements - 1;
      listSize := listSize - 1;
      Contents := c;
      Recounted();
    }

    /** push_front(value): insert(cbegin(), value). */
    method PushFront(value: T)
      requires Valid()
      modifies Repr
      ensures Valid() && fresh(Repr - old(Repr))
      ensures Contents == [value] + old(Contents)
    {
      var first := Begin(listSize, N);
      var _ := Insert(first, value);
      assert old(Contents)[..0] == [];
    }

    /** pop_front(): erase(cbegin()); the caller must not call it on an empty list. */
    method PopFront()
      requires Valid() && |Contents| > 0
      modifies Repr
      ensures Valid() && Repr == old(Repr)
      ensures Contents == old(Contents)[1..]
    {
      var first := Begin(listSize, N);
      var _ := Erase(first);
    }

    /** swap(other): the two lists exchange their chains and their sizes; no element moves. */
    method Swap(other: ChunkList<T>)
      requires Valid() && other.Valid() && N == other.N
      requires this != other ==> Repr !! other.Repr
      modifies this, other
      ensures Valid() && other.Valid()
      ensures Contents == old(other.Contents) && other.Contents == old(Contents)
      ensures this != other ==> chunks == old(other.chunks) && other.chunks == old(chunks)
    {
      if other == this {
        return;
      }
      ghost var mine, theirs := Repr - {this}, other.Repr - {other};
      chunks, other.chunks := other.chunks, chunks;
      listSize, other.listSize := other.listSize, listSize;
      Contents, other.Contents := other.Contents, Contents;
      Repr, other.Repr := {this} + theirs, {other} + mine;
      Exchanged(other);
      other.Exchanged(this);
    }

    /** This list now holds, unchanged, the chain that `from` held before. */
    twostate lemma Exchanged(from: ChunkList<T>)
      requires old(from.Valid()) && N == from.N
      requires chunks == old(from.chunks) && listSize == old(from.listSize) && Contents == old(from.Contents)
      requires Repr == {this} + (old(from.Repr) - {from})
      requires unchanged(Repr - {this})
      ensures Valid()
    {
      forall i | 0 <= i < |chunks|
        ensures chunks[i] in Repr - {this} && chunks[i].list in Repr - {this}
      {
      }
      ExchangedChain(from);
    }

    /** Exchanged(), with the chunks and buffers of the chain spelled out. */
    twostate lemma ExchangedChain(from: ChunkList<T>)
      requires old(from.Valid()) && N == from.N
      requires chunks == old(from.chunks) && listSize == old(from.listSize) && Contents == old(from.Contents)
      requires Repr == {this} + (old(from.Repr) - {from})
      requires forall i :: 0 <= i < |chunks| ==>
                 && chunks[i].list == old(from.chunks[i].list) && chunks[i].list[..] == old(from.chunks[i].list[..])
                 && chunks[i].next == old(from.chunks[i].next) && chunks[i].prev == old(from.chunks[i].prev)
                 && chunks[i].chunkSize == old(from.chunks[i].chunkSize)
                 && chunks[i].numOfElements == old(from.chunks[i].numOfElements)
      ensures Valid()
    {
      forall p | 0 <= p < listSize
        ensures p < Capacity.Times(|chunks|, N) && Contents[p] == Slot(p)
      {
        Capacity.ChunkBelow(p, |chunks|, N);
        Capacity.Decompose(p, N);
        var c, o := Capacity.ChunkOf(p, N), Capacity.OffsetOf(p, N);
        assert chunks[c].list[..][o] == old(from.chunks[c].list[..])[o];
        assert Contents[p] == old(from.Slot(p));
      }
    }

    /** ChunkList(first, last): the chain filled chunk by chunk with the range, with the prev links push_back sets. */
    constructor FromRange(n: nat, items: seq<T>)
      requires n > 0
      ensures Valid() && fresh(Repr)
      ensures N == n && Contents == items
    {
      N := n;
      var head := new Chunk<T>(n);
      chunks := [head];
      listSize := 0;
      Contents := [];
      Repr := {this, head, head.list};
      new;
      var cur := head;
      var i := 0;
      while i < |items|
        invariant i <= |items| && Wf() && fresh(Repr) && Contents == items[..i]
        invariant |chunks| > 0 && cur == chunks[|chunks| - 1]
        invariant i < |items| ==> cur.numOfElements == 0
        invariant i == |items| ==> Valid()
        decreases |items| - i
      {
        i, cur := FillChunk(cur, items, i);
      }
    }

    /**
     * The range constructor and emplace_back, as written, link each new chunk
     * through the next link of the full chunk only: the new chunk's prev stays
     * null, so the chain's back links are broken as soon as a second chunk exists.
     */
    method AppendChunkAsWritten(cur: Chunk<T>) returns (tail: Chunk<T>)
      requires Wf() && |chunks| > 0 && cur == chunks[|chunks| - 1] && cur.numOfElements == N
      modifies this, cur
      ensures fresh(tail) && chunks == old(chunks) + [tail] && cur.next == tail
      ensures tail.prev == null && !Links()
    {
      tail := new Chunk<T>(N);
      cur.next := tail;
      chunks := chunks + [tail];
      Repr := Repr + {tail, tail.list};
      assert chunks[|chunks| - 2] == cur && chunks[|chunks| - 1].prev == null;
    }

    /** One round of the range constructor's outer loop: fill the empty tail, then link a new one if the range goes on. */
    method FillChunk(cur: Chunk<T>, items: seq<T>, from: nat) returns (i: nat, next: Chunk<T>)
      requires Wf() && |chunks| > 0 && cur == chunks[|chunks| - 1] && cur.numOfElements == 0
      requires from < |items| && Contents == items[..from]
      modifies Repr
      ensures Wf() && fresh(Repr - old(Repr)) && from < i <= |items| && Contents == items[..i]
      ensures |chunks| > 0 && next == chunks[|chunks| - 1]
      ensures i < |items| ==> next.numOfElements == 0
      ensures i == |items| ==> Valid()
    {
      i := FillTail(cur, items, from);
      next := cur;
      if i < |items| {
        next := AppendChunk(cur);
      }
    }

    /** The inner loop of the range constructor: copy items[from..] into the empty tail until it is full or the range ends. */
    method FillTail(cur: Chunk<T>, items: seq<T>, from: nat) returns (i: nat)
      requires Wf() && |chunks| > 0 && cur == chunks[|chunks| - 1] && cur.numOfElements == 0
      requires from < |items| && Contents == items[..from]
      modifies Repr
      ensures Valid() && from < i <= |items| && Contents == items[..i]
      ensures chunks == old(chunks) && Repr == old(Repr)
      ensures i < |items| ==> cur.numOfElements == N
    {
      i := from;
      var j := 0;
      while j < N && i < |items|
        invariant from <= i <= |items| && j == i - from == cur.numOfElements <= N
        invariant Wf() && chunks == old(chunks) && Repr == old(Repr) && cur == chunks[|chunks| - 1]
        invariant Contents == items[..i] && (j > 0 ==> Valid())
      {
        AddToTail(cur, items[i]);
        i := i + 1;
        j := j + 1;
      }
    }

    /** The live counts of the first k chunks, added up. */
    ghost function Counted(k: nat): nat
      requires k <= |chunks|
      reads this`chunks, chunks`numOfElements
    {
      if k == 0 then 0 else Counted(k - 1) + chunks[k - 1].numOfElements
    }

    /** The live prefixes of the first k chunks, one after the other. */
    ghost function Live(k: nat): seq<T>
      requires k <= |chunks| && forall i :: 0 <= i < k ==> chunks[i].numOfElements <= chunks[i].list.Length
      reads this`chunks, chunks`list, chunks`numOfElements, Arrays()
    {
      if k == 0 then [] else Live(k - 1) + chunks[k - 1].list[..chunks[k - 1].numOfElements]
    }

    /** Full chunks hold N elements each. */
    lemma {:induction false} FullChunksCounted(k: nat)
      requires Counts() && k < |chunks|
      ensures Counted(k) == Capacity.Times(k, N)
    {
      if k > 0 {
        FullChunksCounted(k - 1);
      }
    }

    /** list_size is the sum of the chunks' num_of_elements. */
    lemma ListSizeIsSum()
      requires Valid()
      ensures listSize == Counted(|chunks|)
    {
      if |chunks| > 0 {
        FullChunksCounted(|chunks| - 1);
      }
    }

    /** The first m slots of chunk k are the m elements from position k * N on. */
    lemma ChunkSlice(k: nat, m: nat)
      requires Storage() && Counts() && Abstraction() && k < |chunks| && m <= N && Capacity.Times(k, N) + m <= listSize
      ensures chunks[k].list[..m] == Contents[Capacity.Times(k, N)..Capacity.Times(k, N) + m]
    {
      var base := Capacity.Times(k, N);
      forall o | 0 <= o < m
        ensures chunks[k].list[o] == Contents[base + o]
      {
        Capacity.Compose(k, o, N);
        Capacity.TimesGrows(k, |chunks|, N);
      }
    }

    /** Every chunk before k is full, so their live prefixes are the first k * N elements. */
    lemma {:induction false} FullChunksLive(k: nat)
      requires Storage() && Counts() && Abstraction() && k < |chunks|
      ensures Capacity.Times(k, N) <= listSize && Live(k) == Contents[..Capacity.Times(k, N)]
    {
      if k > 0 {
        FullChunksLive(k - 1);
        var lo := Capacity.Times(k - 1, N);
        Capacity.TimesGrows(k - 1, |chunks| - 1, N);
        ChunkSlice(k - 1, N);
        assert Contents[..lo + N] == Contents[..lo] + Contents[lo..lo + N];
      }
    }

    /** Contents is the concatenation of every chunk's live prefix, in chain order. */
    lemma ContentsIsConcatenation()
      requires Valid()
      ensures Contents == Live(|chunks|)
    {
      if |chunks| > 0 {
        var k := |chunks| - 1;
        FullChunksLive(k);
        ChunkSlice(k, chunks[k].numOfElements);
        assert Contents == Contents[..Capacity.Times(k, N)] + Contents[Capacity.Times(k, N)..listSize];
      }
    }
}
}
