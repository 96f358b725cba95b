# ChunkList in Dafny

A model of `ChunkList<T, N>` from `Chunk.h`: a sequence container stored as a
chain of chunks, each a buffer of `N` slots with a live count and `prev`/`next`
links. Element `pos` lives in chunk `pos / N` at offset `pos % N`.

- `Outcomes.dfy`: the exceptions the container throws (`out_of_range`,
  `logic_error`, the const iterator's `std::exception`), as error results.
- `Chunks.dfy`: class `Chunk` (buffer, links, `chunk_size`,
  `num_of_elements`), its constructor and both `resize` overloads.
- `Capacity.dfy`: the index arithmetic. It covers `pos / N` and `pos % N`,
  counted chunk by chunk, and `max_size()`, which rounds the size up to a
  multiple of `N`.
- `ChunkLists.dfy`: class `ChunkList`.
  - State: the chain `chunks` (first_chunk, then along `next`), `listSize`,
    and the ghost `Contents` and `Repr`.
  - The invariant `Valid()`:
    - every chunk has its own buffer of `N` slots;
    - `prev` and `next` link neighbours, with null at both ends;
    - every chunk but the tail is full;
    - `list_size` counts the elements, and only the head chunk may be empty;
    - `Contents[p]` is the slot `p` resolves to.
  - Operations, each proved against `Contents`: element access, `clear`,
    `push_back`, `pop_back`, `insert`, `erase`, `push_front`, `pop_front`,
    `swap`, and the default and range constructors.
- `Iterators.dfy`: `ChunkList_iterator` and `ChunkList_const_iterator`. An
  iterator is a value: attached or not, an index, and the position its element
  pointer was resolved at. The module covers `++`, `--`, `+=`/`-=`,
  `==`/`!=`, the index comparisons, `begin()` and `end()`.
- `Comparisons.dfy`: `operator==`, `operator!=` and `operator<=>`. Each is a
  loop over `at(i)`, specified by a function on the element sequences.

## Model

| member | source | states |
|---|---|---|
| Chunks.Chunk.constructor | Chunk.h:60-63 | a fresh chunk has a buffer of N slots, no live elements and null links |
| Chunks.Chunk.Resize | Chunk.h:80-99 | the buffer gets new_size slots, the first min(old, new) slots are kept, the live count is truncated to new_size, and nothing changes when the size is unchanged |
| Chunks.Chunk.ResizeWithValue | Chunk.h:101-131 | as Resize; slots added by growing hold value; the live count becomes new_size whenever the size changes |
| Capacity.MaxSize | Chunk.h:901-904 | max_size() is a multiple of N, at least the size and less than the size plus N |
| Capacity.Division | Chunk.h:742-743 | the chunk-by-chunk chunk index and offset are C++'s pos / N and pos % N |
| Capacity.Decompose | Chunk.h:742-743 | every position is its chunk's first slot plus an offset below N |
| Capacity.Compose | Chunk.h:742-743 | offset r of chunk q resolves back to chunk q, offset r |
| ChunkLists.ChunkList.constructor | Chunk.h:443 | the default list is valid and empty and already has one head chunk |
| ChunkLists.ChunkList.Size | Chunk.h:896 | size() is the number of elements |
| ChunkLists.ChunkList.Empty | Chunk.h:892 | empty() holds exactly when there are no elements |
| ChunkLists.ChunkList.MaxSize | Chunk.h:901-904 | max_size() is the smallest multiple of N that is at least size() |
| ChunkLists.ChunkList.MaxSizeCoversChunks | Chunk.h:901-904 | max_size() is 0 on an empty list, else the capacity of all chunks; it exceeds size() exactly when the tail chunk has a free slot |
| ChunkLists.ChunkList.LastChunk | Chunk.h:723-728 | last_chunk() walks the next links to the tail chunk |
| ChunkLists.ChunkList.GetChunkAtIndex | Chunk.h:745-749 | walking chunkIndex next links from the first chunk reaches the chunk at that index (the walk at() does after dividing pos by N) |
| ChunkLists.ChunkList.At | Chunk.h:738-751 | at(pos) throws out_of_range exactly when pos >= max_size(); below size() it yields element pos; otherwise it yields the slot pos / N, pos % N |
| ChunkLists.ChunkList.Element | Chunk.h:738-751 | at(i) below size() does not throw and yields element i |
| ChunkLists.ChunkList.Get | Chunk.h:778-788 | operator[] reads the same slot as at(), without a bounds check, and yields element pos below size() |
| ChunkLists.ChunkList.Front | Chunk.h:809-815 | front() throws logic_error exactly when the list is empty, else yields the first element |
| ChunkLists.ChunkList.Back | Chunk.h:829-837 | back() throws logic_error exactly when the list is empty, else yields the last element |
| ChunkLists.ChunkList.Clear | Chunk.h:930-939 | clear() leaves a valid list with no elements, no chunks and max_size() == 0 |
| ChunkLists.ChunkList.PushBack | Chunk.h:1238-1252 | push_back appends the value and keeps every earlier element. A missing head chunk is created first. A new chunk is linked only when the old tail was full; otherwise the chain is unchanged |
| ChunkLists.ChunkList.LinkHead | Chunk.h:1239-1241 | on a list whose chain was released, a new empty head chunk becomes the whole chain and the elements are unchanged |
| ChunkLists.ChunkList.TailWithRoom | Chunk.h:1239-1248 | after creating a missing head and linking a new tail behind a full one, the tail has a free slot and the elements are unchanged |
| ChunkLists.ChunkList.AppendChunk | Chunk.h:1244-1248 | a new empty chunk, back-linked to the full tail, extends the chain; the elements are unchanged |
| ChunkLists.ChunkList.AddToTail | Chunk.h:1250-1251 | writing the first free tail slot and counting it appends the value |
| ChunkLists.ChunkList.PopBack | Chunk.h:1294-1309 | pop_back does nothing on an empty list. Otherwise it drops the last element and keeps the rest. A tail that empties is unlinked unless it is the head |
| ChunkLists.ChunkList.RemoveLast | Chunk.h:1298-1308 | drops the last element and unlinks a non-head tail chunk that held only that element |
| ChunkLists.ChunkList.DropLast | Chunk.h:1298-1302 | decrementing both counts drops the last element |
| ChunkLists.ChunkList.UnlinkTail | Chunk.h:1304-1308 | unlinking an empty non-head tail keeps the invariant and the elements |
| ChunkLists.ChunkList.Insert | Chunk.h:945-981 | insert at cend() is push_back and returns end(). Otherwise, for a position i with 0 <= i <= size(), the value goes in before position i, the elements are old[..i] + [v] + old[i..], and the result points at i. This includes an iterator at index size() while the tail has room, where the value is appended |
| ChunkLists.ChunkList.InsertBefore | Chunk.h:950-981 | inserting before any position up to size() (below max_size()) splices the value in. A chunk is added only when max_size() == size(); otherwise the chain is unchanged |
| ChunkLists.ChunkList.InsertInTail | Chunk.h:954-963 | with a free tail slot, shifting up and storing splices the value in without changing the chain; at index size() nothing moves and the value is appended |
| ChunkLists.ChunkList.InsertIntoNewChunk | Chunk.h:964-977 | with every chunk full, one new chunk is linked and the value is spliced in |
| ChunkLists.ChunkList.ShiftUp | Chunk.h:960-961 | the shift loop moves the slots index..last-1 up by one; slot index and the slots before it keep their values |
| ChunkLists.ChunkList.Move | Chunk.h:961 | copying at(from) into at(to) changes slot to, to the old value of slot from, and no other slot |
| ChunkLists.ChunkList.Grow | Chunk.h:964-973 | with every chunk full, a new chunk linked behind the tail with its prev set, and the size grown by one, leaves every element in reach of at() and the elements unchanged |
| ChunkLists.ChunkList.Place | Chunk.h:978-979 | storing the value in the freed slot and counting it in the tail gives s with the value inserted at index, and the invariant holds again |
| ChunkLists.ChunkList.Store | Chunk.h:978 | at(index) = value changes exactly that slot |
| ChunkLists.ChunkList.Erase | Chunk.h:1174-1199 | for a position i with 0 <= i < size(), erase removes element i (old[..i] + old[i+1..]). It returns end() when i was last, else an iterator at i. A non-head tail chunk left empty is unlinked |
| ChunkLists.ChunkList.EraseInside | Chunk.h:1184-1198 | erasing before the last element shifts the rest down, then frees a tail that held one element or decrements its count |
| ChunkLists.ChunkList.ShiftDown | Chunk.h:1184-1186 | the loop at(i - 1) = at(i) moves the slots after index down by one |
| ChunkLists.ChunkList.FreeTail | Chunk.h:1188-1192 | freeing a tail that held one element through prev keeps the invariant with one chunk fewer |
| ChunkLists.ChunkList.ShrinkTail | Chunk.h:1193-1197 | decrementing the tail's count and list_size keeps the invariant |
| ChunkLists.ChunkList.EraseLastAsWritten | Chunk.h:1178-1182 | erasing the last element only decrements the counts; when that empties a non-head tail the invariant is broken |
| ChunkLists.ChunkList.PushFront | Chunk.h:1313-1315 | push_front puts the value before every element |
| ChunkLists.ChunkList.PopFront | Chunk.h:1333-1335 | pop_front removes the first element |
| ChunkLists.ChunkList.Swap | Chunk.h:1401-1404 | swap exchanges the two lists' chains and elements and keeps both valid |
| ChunkLists.ChunkList.FromRange | Chunk.h:506-526 | the range constructor yields a valid list holding exactly the range, in order |
| ChunkLists.ChunkList.FillChunk | Chunk.h:512-524 | one round of the outer loop fills the empty tail, then links a new empty tail if the range goes on |
| ChunkLists.ChunkList.FillTail | Chunk.h:514-519 | the inner loop copies the range into the tail until it is full or the range ends |
| ChunkLists.ChunkList.AppendChunkAsWritten | Chunk.h:521-524 | linking through the full chunk's next alone, as the range constructor and emplace_back do, leaves the new chunk's prev null and breaks the chain's back links |
| ChunkLists.ChunkList.ListSizeIsSum | Chunk.h:1250-1251 | list_size is the sum of the chunks' num_of_elements |
| ChunkLists.ChunkList.ContentsIsConcatenation | Chunk.h:1410-1413 | the elements are each chunk's live prefix (begin() to end()), chunk after chunk |
| Iterators.Resolve | Chunk.h:738-741 | building an iterator at an index throws out_of_range exactly outside [0, max_size()); every position below size() resolves, to the slot at that index |
| Iterators.BeginAsWritten | Chunk.h:855-857 | begin() as written is the iterator at index 0 on a non-empty list and throws out_of_range on an empty one |
| Iterators.Begin | Chunk.h:853-857 | begin() equals end() exactly on an empty list, else it is the iterator at index 0 |
| Iterators.BeginAsWrittenThrowsWhenEmpty | Chunk.h:855-857 | on an empty list, begin() as written throws out_of_range from at(0) |
| Iterators.TraverseAll | Chunk.h:220-230 | a loop from begin() with prefix ++ until end() visits 0, 1, ..., size - 1 and stops |
| Iterators.Increment | Chunk.h:220-230 | prefix ++ at index size - 1 gives end(); below that it gives the iterator one index on, after the old one and not equal to end() |
| Iterators.PostIncrement | Chunk.h:204-210 | postfix ++ at index size - 1 leaves the iterator in place and returns end(); below that the iterator and the returned value are both one index on |
| Iterators.PostIncrementAgrees | Chunk.h:204-230 | postfix ++ returns what prefix ++ yields, not the old iterator; it differs from prefix ++ only at index size - 1, where it leaves the iterator in place |
| Iterators.Decrement | Chunk.h:211-239 | the mutable -- moves one index back and re-resolves; at index 0 or below it keeps the stale pointer, so the result still equals the old iterator |
| Iterators.ConstDecrement | Chunk.h:375-381 | the const -- throws std::exception at index 0 and out_of_range below 0 (where the mutable -- does not throw); at a positive index it agrees with the mutable -- |
| Iterators.Advance | Chunk.h:241-254 | + d and += d give the iterator d indices on, and throw out_of_range exactly outside [0, max_size()) |
| Iterators.Retreat | Chunk.h:246-260 | - d and -= d are + (-d) and += (-d) |
| Iterators.DecrementIncrement | Chunk.h:232-239 | within the list, -- then ++ returns to the same iterator, and both kinds of -- agree |
| Iterators.DecrementAtFirst | Chunk.h:375-381 | at index 0, the const -- throws, while the mutable -- leaves index -1 and a stale pointer |
| Iterators.SameIsEquivalence | Chunk.h:191-199 | == compares element pointers, so it is an equivalence, and an iterator equals end() exactly when it has no element |
| Iterators.IndexOrder | Chunk.h:267-282 | <, <=, >, >= compare indices: < is the negation of >=, and < is transitive. Between resolved iterators, <= both ways is ==, but end() and the iterator at index 0 are <= both ways and not == |
| Iterators.SameIffSameIndex | Chunk.h:191-199 | two resolved iterators are equal exactly when their indices are |
| Iterators.AdvanceAdds | Chunk.h:250-260 | += a then += b is += (a + b), and -= d is += -d |
| Comparisons.Equals | Chunk.h:1431-1440 | == holds exactly when the two lists hold the same elements |
| Comparisons.ElementsMatch | Chunk.h:1435-1438 | the at(i) loop over two lists of one size answers true exactly when they agree at every position |
| Comparisons.NotEquals | Chunk.h:1445-1448 | != holds exactly when the elements differ |
| Comparisons.Compare | Chunk.h:1497-1517 | <=> is ContentOrder: the smaller size is less; otherwise the first i with l < r or l > r decides |
| Comparisons.MatchesEqual | Chunk.h:1435-1437 | the pairwise at(i) check succeeds exactly when the sequences are equal |
| Comparisons.ContentOrderEqualIff | Chunk.h:1497-1517 | under a strict total element order, <=> returns equal exactly when == holds |
| Comparisons.ContentOrderFlip | Chunk.h:1497-1517 | swapping the operands of <=> flips the result |
| Comparisons.ContentOrderTransitive | Chunk.h:1497-1517 | under a strict total element order, <=> less is transitive |

## Left out

**Memory and I/O**
- The allocator (Chunk.h:12-47): buffers are Dafny arrays, and deleting a chunk is dropping it from the chain.
- The per-chunk allocator copies are not modelled either.
- `print` (Chunk.h:1406-1425): console output.

**Constructors and assignments not modelled**
- The fill constructors never set the counts.
- The init-list and copy constructors never set `num_of_elements`.
- The allocator-extended constructors and copy assignment assign to `this`.
- Move construction and assignment free the chain they have just moved.

**Operations not modelled**
- Bulk `insert` (count, range, initializer list): they call a `Chunk` constructor that does not exist. The count and range overloads add zeroed counts; the initializer-list overload adds `ilist.size()` to `list_size` (Chunk.h:1158) whether or not each value was stored.
- `erase(first, last)`: it treats `last` as inclusive.
- `ChunkList::resize`: it re-capacities every chunk, which breaks the `pos / N` mapping.
- `shrink_to_fit`.
- The rvalue overloads of `push_back`, `push_front` and `insert`, and `emplace_front`, which behave like the copying ones.
- `emplace_back` (Chunk.h:1277-1291): it links a new tail chunk through `next` only and never sets its `prev`, the defect recorded under Findings for Chunk.h:1283-1286. Only that linking step is modelled, by ChunkLists.ChunkList.AppendChunkAsWritten.
- The list relational operators `<`, `>`, `<=`, `>=`: `<` is defined as the negation of `>`, so they are not an order.
- The iterator `operator[]` and the const postfix `--`, which call into the wrong object.
- The declaration-only non-member `swap`, `erase` and `erase_if`.

**Values and widths**
- The `(value_type)nullptr` write in `pop_back`: slots beyond the live count are unconstrained here.
- Sizes are unbounded naturals, so `int`/`size_t` overflow and `resize`'s unreachable `new_size < 0` check are not modelled.
- An iterator's element pointer is named by the position at which it was resolved. Pointer identity beyond that is not modelled.
- Exceptions are `Result` errors. `pop_front` on an empty list is excluded by its precondition: in the code `cbegin()` calls `begin()`, whose `at(0)` throws `out_of_range` inside a `noexcept` function, so the program terminates (Chunk.h:739, 855-857, 867). Only under the corrected `begin()` would it reach `erase(end())`.

**Deliberately weaker or different contracts**
- Comparisons.Compare: the element type's `operator>` is taken to be its `operator<` with the operands swapped.
- Comparisons.ContentOrderEqualIff, Comparisons.ContentOrderTransitive: these assume that `operator<` on elements is a strict total order.
- ChunkLists.ChunkList.PushFront, ChunkLists.ChunkList.PopFront: these use the corrected `begin()`. As written, `push_front` on an empty list calls `begin()`, whose `at(0)` throws inside a `noexcept` function, so the program terminates (Chunk.h:855-857).
- ChunkLists.ChunkList.Erase: this models the corrected last-element branch (see Findings): a non-head tail chunk left empty is unlinked. As written (Chunk.h:1178-1182) only the counts go down; ChunkLists.ChunkList.EraseLastAsWritten models that.
- Iterators.Begin: this models `begin()` as its comment documents, equal to `end()` on an empty list. As written (Chunk.h:855-857) it throws from `at(0)` inside a `noexcept` function; Iterators.BeginAsWritten models that.
- ChunkLists.ChunkList.Insert: this requires `end()` or a position from 0 to size() (below max_size()). Other iterators the model's own iterator functions can yield are not modelled, and the code misbehaves on them. At a position between size() and max_size() the shift loop does not run (Chunk.h:960): the value is stored beyond the new size, and the tail counts a slot that was never written (Chunk.h:978-979), so the value is lost. At index -1, which `--` on `begin()` yields, every element is shifted up and then `at(-1)` throws `out_of_range`, so [a, b, c] is left as [a, a, b].
- ChunkLists.ChunkList.Erase: this requires a position from 0 to size()-1. Other positions are not modelled. At a position from size() up to max_size() the shift loop does not run (Chunk.h:1184-1186), so the last element is dropped instead. On a one-element list, `erase(begin() + 1)` takes the `list_size == max_size() - N + 1` branch and frees the tail through the head chunk's null `prev` (Chunk.h:1188-1190). That null dereference is not modelled. At index -1, the first `at(i - 1)` throws `out_of_range`.
- ChunkLists.ChunkList.Swap: this requires the two lists to share no chunk, or to be the same list. The code imposes no such condition.
- ChunkLists.ChunkList.FromRange: this uses the corrected chunk linking (see Findings). The range is a sequence, not an input-iterator pair.

## Findings

| source | as written | input that shows it | evidently intended | confidence | as-written member | corrected member |
|---|---|---|---|---|---|---|
| Chunk.h:1178-1182 | erasing the last element only decrements `list_size` and the tail count | N = 2, elements [a, b, c] (tail chunk holds c alone), erase at index 2: the tail chunk stays linked with no elements, and a later `back()` reads `list[-1]` | free the emptied tail chunk, as `pop_back` and the other `erase` branch do | not executed | ChunkLists.ChunkList.EraseLastAsWritten | ChunkLists.ChunkList.Erase |
| Chunk.h:855-857 | `begin()` builds its iterator from `&at(0)` | an empty list: `max_size()` is 0, so `at(0)` throws `out_of_range` inside a `noexcept` function | `begin() == end()` on an empty list, as its comment says | not executed | Iterators.BeginAsWritten, Iterators.BeginAsWrittenThrowsWhenEmpty | Iterators.Begin |
| Chunk.h:521-524 | the range constructor links each new chunk by `next` only | N = 2, range [a, b, c]: the second chunk's `prev` is null, and the first `pop_back` empties that chunk and unlinks it through the null `prev` | set `prev` as `push_back` does (Chunk.h:1244-1248) | not executed | ChunkLists.ChunkList.AppendChunkAsWritten | ChunkLists.ChunkList.AppendChunk |
| Chunk.h:1283-1286 | `emplace_back` links a new tail chunk by `next` only, as the range constructor does | N = 2, `emplace_back` three times: the second chunk's `prev` is null, and a `pop_back` then unlinks it through the null `prev` (Chunk.h:1305-1307) | set `prev` as `push_back` does (Chunk.h:1244-1248) | not executed | ChunkLists.ChunkList.AppendChunkAsWritten | ChunkLists.ChunkList.AppendChunk |
