# Block deque

A model of a √n-decomposed deque and the doubly linked list it is built
from.

`double_list<T>` is a doubly linked list of heap nodes with `head`, `tail`
and a cached size. Its iterator is a node pointer, and the null pointer is
`end()`. `deque<T>` keeps a list of blocks, each block a list of items,
together with `total_size` and a target `block_size`. Each push, pop, insert
and erase edits one block locally. It then runs `Balance`, which sets
`block_size` to ⌊√total_size⌋ + 1. When that value changes, `Balance` makes
one pass over the blocks: it splits blocks larger than `2·block_size` and
merges blocks smaller than half of `block_size` into their successor when
the two fit in one block. A deque iterator is a (block, item) pair. Its end
position is the last block paired with that block's items-end.

Files:

- `exceptions.dfy`: the `out_of_range` failure as `Throw(OutOfRange)`, with
  the `Result` type used by every operation that can fail.
- `double_list.dfy`: `DoubleLinkedList.DoubleList`, a class over real `Node`
  objects.
  - Its methods relink `pre`/`nxt` and update `head`, `tail` and `size` in
    place.
  - The ghost `Nodes` is the chain from head to tail, and `Contents` is the
    values along it.
  - `Valid()` states that the links in both directions, `head`, `tail` and
    `size` all agree with `Nodes`.
  - A list iterator is a `Node?`, given together with its ghost index `k`
    in the chain.
- `blocks.dfy`: the deque's block list as a value `seq<seq<T>>`.
  - `Flatten` is the concatenation of all blocks.
  - It holds the local edits that push, pop, insert and erase make.
  - `Scan` is the single rebalancing pass, and `Rebalance` is the whole of
    `Balance`.
  - It holds the lemmas that these keep the items in order and leave no
    empty block.
- `deque_iterator.dfy`: the iterator as `Null | At(block, item)`.
  - `Offset` gives its logical position.
  - It holds `+n`, `-n`, `++`, `--` and the difference of two iterators, as
    loops over the block list that mirror the source's walks.
  - Each loop is proved against the offset it must reach.
- `deque.dfy`: `DequeCore.Deque`, a class with fields `blocks`, `totalSize`
  and `blockSize` and a ghost `Contents`.
  - `Valid()` is the deque's invariant: the blocks flatten to `Contents`,
    `totalSize` is its length, no block is empty, and `blockSize >= 1`.
  - Every mutator keeps `Valid()`.
  - Every mutator also states its new blocks and block size exactly. For
    the ones the source follows with `Balance` (push, pop, and insert and
    erase in a non-empty deque) that is the local edit followed by
    `Rebalance`. `Insert` into an empty deque and `Erase` of the last item
    skip `Balance`, as the source does, and `Clear` resets.
  - `Balance`, `Split` and `Merge` are loops proved against `Scan`,
    `SplitBlock` and `MergeBlocks`.

Two points where the model follows the code rather than the design it
serves:

- A √n deque is meant to leave every block between `block_size/2` and
  `2·block_size` items after a rebalancing pass. One pass of this code does
  not establish that. The first half of a split block is not visited again,
  so a block of 49 items with block size 8 leaves a 24-item block. A small
  block whose successor is too large to merge with stays small.
  `Blocks.ScanCounterexample` exhibits both cases. `Blocks.ScanBound` and
  `Blocks.ScanUpperBound` state what one pass does guarantee. This is a
  performance property only: the contents are never affected.
- The comment on iterator difference (deque.hpp:462-465) promises
  `invalid_iterator` for iterators of different containers. The code does
  detect that case: both block walks (deque.hpp:491-499 and 512-520) run
  off the end of their block list, and it then throws at deque.hpp:526. But
  the exception it throws is `out_of_range`, not `invalid_iterator`. The
  model interprets both iterators against one block list, so that case does
  not arise in it.

## Model

| member | source | states |
|---|---|---|
| DoubleLinkedList.DoubleList.constructor | double_list.hpp:23 | a new list is empty, with null head and tail and size 0 |
| DoubleLinkedList.DoubleList.Copy | double_list.hpp:25-33 | the copy has the same values in the same order and the same size, in fresh nodes |
| DoubleLinkedList.DoubleList.Next | double_list.hpp:61-68 | `++` throws exactly on `end()`; otherwise it yields the node at the next index, which is `end()` after the tail |
| DoubleLinkedList.DoubleList.Prev | double_list.hpp:80-87 | `--` throws exactly on `end()` and on the head; otherwise it yields the node at the previous index |
| DoubleLinkedList.DoubleList.Get | double_list.hpp:89-94 | dereferencing throws exactly on `end()`; otherwise it yields the value at that index |
| DoubleLinkedList.DoubleList.Begin | double_list.hpp:109-111 | `begin()` is the node at index 0, which is `end()` for an empty list |
| DoubleLinkedList.DoubleList.GetTail | double_list.hpp:112-114 | `get_tail()` is the last node, or null for an empty list |
| DoubleLinkedList.DoubleList.End | double_list.hpp:115-117 | `end()` is the position one past the last node |
| DoubleLinkedList.DoubleList.Erase | double_list.hpp:119-142 | throws exactly on `end()`; otherwise removes the value at the index, decrements size, and returns the successor position, or `end()` after the last node |
| DoubleLinkedList.DoubleList.Insert | double_list.hpp:144-169 | splices `v` in before the position, so `end()` appends; size grows by one and the result is the position of `v` |
| DoubleLinkedList.DoubleList.InsertHead | double_list.hpp:171-181 | contents become `[v] + old`, size grows by one, the list stays well linked |
| DoubleLinkedList.DoubleList.InsertTail | double_list.hpp:183-193 | contents become `old + [v]`, size grows by one, the list stays well linked |
| DoubleLinkedList.DoubleList.DeleteHead | double_list.hpp:195-211 | does nothing on an empty list; otherwise drops the first value and decrements size |
| DoubleLinkedList.DoubleList.DeleteTail | double_list.hpp:213-229 | does nothing on an empty list; otherwise drops the last value and decrements size |
| DoubleLinkedList.DoubleList.Empty | double_list.hpp:231-233 | true exactly when the list has no values |
| DoubleLinkedList.DoubleList.Size | double_list.hpp:235-237 | the cached size is the number of values |
| DoubleLinkedList.DoubleList.Clear | double_list.hpp:239-247 | leaves no values, size 0, null head and tail |
| DoubleLinkedList.DoubleList.Front | double_list.hpp:249-261 | throws exactly on an empty list; otherwise yields the first value |
| DoubleLinkedList.DoubleList.Back | double_list.hpp:263-275 | throws exactly on an empty list; otherwise yields the last value |
| Blocks.ISqrt | deque.hpp:296 | the integer square root: the largest `r` with `r*r <= n` |
| Blocks.PushBackBlocks | deque.hpp:1126-1129 | the items become `old + [v]` with no empty block; a new block is opened exactly when there are no blocks or the last one holds at least `block_size` items |
| Blocks.PushFrontBlocks | deque.hpp:1144-1147 | the items become `[v] + old` with no empty block; a new block is opened exactly when there are no blocks or the first one holds at least `block_size` items |
| Blocks.PopBackBlocks | deque.hpp:1136-1138 | the last item is removed, and the last block is dropped exactly when it held one item |
| Blocks.PopFrontBlocks | deque.hpp:1154-1156 | the first item is removed, and the first block is dropped exactly when it held one item |
| Blocks.InsertBlocks | deque.hpp:1071-1072 | inserting at item `i` of block `b` puts `v` at logical index `Start(b) + i` and keeps the block count |
| Blocks.EraseBlocks | deque.hpp:1099-1105 | erasing item `i` of block `b` removes logical index `Start(b) + i`, and the block is dropped exactly when it held one item |
| Blocks.SplitKeepsItems | deque.hpp:330-346 | splitting a block in half keeps the items and their order |
| Blocks.SplitNoEmpty | deque.hpp:330-346 | splitting a block of at least two items leaves no empty block |
| Blocks.MergeKeepsItems | deque.hpp:313-328 | appending a block to its predecessor keeps the items and their order |
| Blocks.MergeNoEmpty | deque.hpp:313-328 | merging leaves no empty block |
| Blocks.VisitBlock | deque.hpp:302-309 | one visit of the walk (split, merge or nothing, then `++it`) extends the finished prefix by one block without changing what the pass produces, and the walk gets closer to its end |
| Blocks.ScanKeepsItems | deque.hpp:293-311 | the rebalancing pass keeps every item, in order |
| Blocks.ScanNoEmpty | deque.hpp:293-311 | the rebalancing pass leaves no empty block |
| Blocks.ScanBound | deque.hpp:301-309 | after the pass each block holds at most `2·block_size` items or at most half of the largest block it started from |
| Blocks.ScanUpperBound | deque.hpp:301-309 | when no block exceeds `4·block_size + 1` items, no block exceeds `2·block_size` after the pass |
| Blocks.ScanCounterexample | deque.hpp:301-309 | one pass can leave a block above `2·block_size` (49 items, block size 8) and a block below `block_size/2` |
| Blocks.Rebalance | deque.hpp:293-311 | Balance keeps the items, leaves no empty block and does nothing without blocks; the new block size is ⌊√total⌋+1, and the blocks are rescanned exactly when the size changes |
| DequeIterator.IterEquality | deque.hpp:625-627 | two valid iterators are equal exactly when they denote the same logical position |
| DequeIterator.IterAtOffset | deque.hpp:625-627 | each logical position has exactly one valid iterator, so end is only ever (last block, items-end) |
| DequeIterator.MovedUnique | deque.hpp:377-459 | a successful `+n`/`-n` yields the one iterator at the target offset |
| DequeIterator.MovedBack | deque.hpp:377-459 | moving by `n` and then by `-n` returns to the starting iterator |
| DequeIterator.MovedTwice | deque.hpp:377-459 | moving by `m` and then by `n` is moving by `m + n` |
| DequeIterator.Deref | deque.hpp:617 | `*it` throws `out_of_range` exactly on `end()` and on the null iterator of an empty deque; otherwise it is the item at the iterator's logical position |
| DequeIterator.Forward | deque.hpp:381-416 | the walk for `+n`, `n >= 0`, reaches offset `+n` and lands on `end()` exactly at the end; overshooting throws |
| DequeIterator.Backward | deque.hpp:424-458 | the walk for `-n`, `n >= 0`, reaches offset `-n`; going before the first item throws |
| DequeIterator.Add | deque.hpp:377-417 | `it + n` for any sign of `n` moves by `n` or throws when the target is outside `[0, size]` |
| DequeIterator.Sub | deque.hpp:420-459 | `it - n` for any sign of `n` moves by `-n` or throws when the target is outside `[0, size]` |
| DequeIterator.Increment | deque.hpp:559-571 | `++it` moves one position forward and throws on `end()` |
| DequeIterator.Decrement | deque.hpp:594-614 | `--it` moves one position back, goes from `end()` to the last item, and throws on `begin()` |
| DequeIterator.Difference | deque.hpp:466-527 | `a - rhs` throws exactly when either is null; otherwise it is the difference of their logical offsets, whichever comes first |
| DequeCore.Deque.constructor | deque.hpp:919 | a new deque is empty, has no blocks and has block size 4 |
| DequeCore.Deque.Split | deque.hpp:330-346 | leaves the block unchanged when it holds at most `block_size` items; otherwise moves items from index size/2 on, in order, into a new block right after it |
| DequeCore.Deque.Merge | deque.hpp:313-328 | acts only when a successor exists and the two fit in `block_size`; then appends the successor's items and removes it |
| DequeCore.Deque.Balance | deque.hpp:293-311 | keeps the invariant and the contents; the new blocks and block size are exactly `Rebalance` of the old ones |
| DequeCore.Deque.Locate | deque.hpp:1077-1086 | the walk after insert/erase finds the iterator at logical index `dis` |
| DequeCore.Deque.At | deque.hpp:954-969 | throws exactly when `pos >= size`; otherwise yields element `pos` of the concatenated blocks |
| DequeCore.Deque.Front | deque.hpp:997-1002 | throws exactly on an empty deque; otherwise yields the first element |
| DequeCore.Deque.Back | deque.hpp:1003-1008 | throws exactly on an empty deque; otherwise yields the last element |
| DequeCore.Deque.Begin | deque.hpp:1010-1015 | `begin()` is valid and denotes logical position 0 |
| DequeCore.Deque.End | deque.hpp:1023-1028 | `end()` is valid and denotes logical position `size` |
| DequeCore.Deque.Empty | deque.hpp:1037 | true exactly when the deque has no elements |
| DequeCore.Deque.Size | deque.hpp:1038 | the cached total is the number of elements |
| DequeCore.Deque.Clear | deque.hpp:1040-1047 | leaves no blocks, no elements and block size 4 |
| DequeCore.Deque.PushBack | deque.hpp:1125-1132 | contents become `old + [v]`, the invariant holds, and the blocks are the tail edit followed by Balance |
| DequeCore.Deque.PopBack | deque.hpp:1133-1141 | throws exactly on an empty deque and then changes nothing; otherwise drops the last element, then Balance |
| DequeCore.Deque.PushFront | deque.hpp:1143-1150 | contents become `[v] + old`, the invariant holds, and the blocks are the head edit followed by Balance |
| DequeCore.Deque.PopFront | deque.hpp:1151-1159 | throws exactly on an empty deque and then changes nothing; otherwise drops the first element, then Balance |
| DequeCore.Deque.Insert | deque.hpp:1056-1088 | an empty deque accepts only `end()` and becomes `[v]` without Balance; otherwise the null iterator throws, `v` lands at offset `d = pos - begin()`, and the result denotes offset `d` after Balance |
| DequeCore.Deque.Erase | deque.hpp:1091-1123 | throws exactly on a null iterator or offset `size`; otherwise removes element `d`, returns `end()` without Balance when `d` is the new size, and otherwise an iterator at offset `d` after Balance |

## Left out

- `ddeqquee.hpp`: an alternative deque that cannot be compiled together
  with `deque.hpp` (both use the same include guard). It also relies on list
  operations that `double_list.hpp` does not have.
- The exception classes of `exceptions.hpp` only build messages. Every
  failure in the core is `std::out_of_range`, modelled as
  `Throw(OutOfRange)`, and the message text is not modelled.
- `std::sqrt` on a floating-point value at deque.hpp:296 is modelled as the
  exact integer square root `ISqrt`. This is a difference only if rounding
  of the double ever crossed an integer, which does not happen for sizes
  that fit in memory.
- Memory is not modelled: `shared_ptr` value cells, `new`/`delete`,
  destructors, and the `delete` of each node in the list's `clear`. The
  walk of that loop from the head to null is modelled; only the freeing
  is not. The per-block `clear` loop in the deque's `clear` only frees
  memory.
- DoubleLinkedList.DoubleList.Copy: the source's copy constructor
  (double_list.hpp:25-33) never initialises `size_` before `insert_tail`
  increments it, which reads an indeterminate value. It overwrites the
  count with `other.size_` at the end. The model starts the count at 0, so
  the final state is the same, but the undefined read is not modelled.
- The deque's copy constructor and assignment (deque.hpp:920-952) are not
  modelled. The assignment is declared `const` and cannot compile once
  instantiated.
- The iterator's `outer` back-pointer and pointer identity across
  containers are not modelled. An iterator is interpreted against the block
  list of the deque it is used with.
- `const_iterator` (deque.hpp:639-917) duplicates `iterator`, and the copy of
  `double_list` inside deque.hpp (lines 13-282) duplicates double_list.hpp;
  each is modelled once. Postfix `++`/`--` return the old value and move
  like the prefix forms, so only the prefix forms are modelled.
- DequeCore.Deque: the blocks are a `seq<seq<T>>` value rather than a
  `double_list` of `double_list` objects. The block-level list operations are
  the ones modelled in `double_list.dfy`; their composition inside the deque
  is stated on values.
- DequeIterator.Difference: returns the signed difference as an unbounded
  `int`. The source returns `size_t`, so a negative difference wraps modulo
  2^64.
- DequeIterator.Decrement: on an empty deque, `--end()` dereferences a null
  block pointer (undefined behaviour). The model throws instead. The same
  holds for `-n` on an empty deque in DequeIterator.Backward.
- Defensive checks that can never fire on valid iterators are not modelled.
  These are the list insert's `!pos.current` check after `pos == end()`, the
  deque insert's `dis > total_size`, the final throw of `at`, the
  `get_tail()` break in the re-walk of insert and erase, and the final throw
  of iterator difference.
- Integer widths: `size_t` and `int` counters are unbounded integers. No
  container in the model is large enough to overflow them. The offset
  argument `n` of DequeIterator.Add and DequeIterator.Sub is an unbounded
  `int` too. In the source it is an `int`, and the negation `-n` at
  deque.hpp:378 and 421 overflows for `INT_MIN`; the model negates
  exactly.
