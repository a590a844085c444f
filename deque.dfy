/// The block deque: a list of blocks, each a list of items, with the total
/// item count and the target block size.  `Contents` is the deque as one
/// sequence; `Valid()` ties it to the blocks.  After every insertion or
/// removal the deque rebalances: when `sqrt(size) + 1` differs from the
/// current block size it becomes the new block size and one pass over the
/// blocks splits the large ones and merges the small ones.
module DequeCore {
  import opened Exceptions
  import opened Blocks
  import opened DequeIterator

  class Deque<T> {
    var blocks: seq<seq<T>>
    var totalSize: nat
    var blockSize: nat
    ghost var Contents: seq<T>

    ghost predicate Valid()
      reads this
    {
      && Flatten(blocks) == Contents
      && totalSize == |Contents|
      && NoEmpty(blocks)
      && blockSize >= 1
    }

    /** The new deque is empty, with the initial block size 4. */
    constructor ()
      ensures Valid() && Contents == [] && blocks == [] && blockSize == 4
    {
      blocks, totalSize, blockSize := [], 0, 4;
      Contents := [];
    }

    /** Split(it): when block `i` holds more than `blockSize` items, moves
        its upper half, item by item, into a new block right after it. */
    method Split(i: nat)
      requires i < |blocks|
      modifies this
      ensures totalSize == old(totalSize) && blockSize == old(blockSize) && Contents == old(Contents)
      ensures blocks == if |old(blocks)[i]| <= blockSize then old(blocks) else SplitBlock(old(blocks), i)
    {
      var cur := blocks[i];
      if |cur| <= blockSize {
        return;
      }
      var h := |cur| / 2;
      var kept, moved := cur, [];
      while |kept| > h
        invariant h + |moved| <= |cur|
        invariant moved == cur[h..h + |moved|] && kept == cur[..h] + cur[h + |moved|..]
        decreases |kept|
      {
        moved := moved + [kept[h]];
        kept := kept[..h] + kept[h + 1..];
      }
      assert kept == cur[..h] && moved == cur[h..];
      // the new block goes before the next one, or at the tail: the same place
      blocks := blocks[..i] + [kept, moved] + blocks[i + 1..];
    }

    /** Merge(it): when block `i` has a successor and the two together hold
        at most `blockSize` items, appends the successor's items to block
        `i` one by one and removes the successor.  `i == |blocks|` is the
        end position. */
    method Merge(i: nat)
      requires i <= |blocks|
      modifies this
      ensures totalSize == old(totalSize) && blockSize == old(blockSize) && Contents == old(Contents)
      ensures blocks == if i + 1 < |old(blocks)| && |old(blocks)[i]| + |old(blocks)[i + 1]| <= blockSize
                        then MergeBlocks(old(blocks), i) else old(blocks)
    {
      if i == |blocks| {
        return;
      }
      if i + 1 == |blocks| {
        return;
      }
      var cur, next := blocks[i], blocks[i + 1];
      if |cur| + |next| <= blockSize {
        var j := 0;
        while j < |next|
          invariant j <= |next| && cur == blocks[i] + next[..j]
        {
          cur := cur + [next[j]];
          j := j + 1;
        }
        assert next[..j] == next;
        blocks := blocks[..i] + [cur] + blocks[i + 2..];
      }
    }

    /** Balance: keeps the items and their order, and leaves the blocks and
        block size that one rebalancing pass computes. */
    method Balance()
      requires Valid()
      modifies this
      ensures Valid() && Contents == old(Contents) && totalSize == old(totalSize)
      ensures (blocks, blockSize) == Rebalance(old(blocks), totalSize, old(blockSize))
    {
      if blocks == [] {
        return;
      }
      var nbs := ISqrt(totalSize) + 1;
      if nbs != blockSize {
        blockSize := nbs;
        ghost var orig := blocks;
        var i := 0;
        while i < |blocks|
          invariant i <= |blocks| && blockSize == nbs
          invariant totalSize == old(totalSize) && Contents == old(Contents)
          invariant blocks[..i] + Scan(blocks[i..], blockSize) == Scan(orig, blockSize)
          decreases |blocks| - i, if i < |blocks| then |blocks[i]| else 0
        {
          ghost var before := blocks;
          if |blocks[i]| > blockSize * 2 {
            Split(i);
          } else if |blocks[i]| * 2 < blockSize {
            Merge(i);
          }
          VisitBlock(before, i, blockSize, blocks);
          i := i + 1;
        }
        assert blocks == Scan(orig, blockSize) by {
          assert blocks[..i] == blocks && blocks[i..] == [];
        }
        ScanKeepsItems(orig, blockSize);
        ScanNoEmpty(orig, blockSize);
      }
    }

    /** The position re-walk after insert and erase: the iterator at
        logical index `dis`. */
    method Locate(dis: nat) returns (it: Iter)
      requires Valid() && dis < totalSize
      ensures ValidIter(blocks, it) && Offset(blocks, it) == dis && it.At? && it.item < |blocks[it.block]|
    {
      StartAll(blocks);
      var b: nat, d: nat := 0, dis;
      while d >= |blocks[b]|
        invariant b < |blocks| && Start(blocks, b) + d == dis
        decreases |blocks| - b
      {
        StartNext(blocks, b);
        d := d - |blocks[b]|;
        b := b + 1;
      }
      it := Iter.At(b, d);
    }

    /** at(pos) and operator[]: the item at `pos`, or out_of_range. */
    method At(pos: nat) returns (r: Result<T>)
      requires Valid()
      ensures r == if pos < |Contents| then Ok(Contents[pos]) else Throw(OutOfRange)
    {
      if pos >= totalSize {
        return Throw(OutOfRange);
      }
      StartAll(blocks);
      var b, cur := 0, 0;
      while cur + |blocks[b]| <= pos
        invariant b < |blocks| && cur == Start(blocks, b) && cur <= pos
        decreases |blocks| - b
      {
        StartNext(blocks, b);
        cur := cur + |blocks[b]|;
        b := b + 1;
      }
      FlattenIndex(blocks, b, pos - cur);
      r := Ok(blocks[b][pos - cur]);
    }

    /** front(): the first item, or out_of_range when there are no blocks. */
    function Front(): (r: Result<T>)
      reads this
      requires Valid()
      ensures r == if Contents == [] then Throw(OutOfRange) else Ok(Contents[0])
    {
      if blocks == [] then Throw(OutOfRange)
      else
        FlattenIndex(blocks, 0, 0);
        Ok(blocks[0][0])
    }

    /** back(): the last item, or out_of_range when there are no blocks. */
    function Back(): (r: Result<T>)
      reads this
      requires Valid()
      ensures r == if Contents == [] then Throw(OutOfRange) else Ok(Contents[|Contents| - 1])
    {
      if blocks == [] then Throw(OutOfRange)
      else
        var b := |blocks| - 1;
        StartNext(blocks, b);
        StartAll(blocks);
        FlattenIndex(blocks, b, |blocks[b]| - 1);
        Ok(blocks[b][|blocks[b]| - 1])
    }

    /** begin(): logical position 0. */
    function Begin(): (it: Iter)
      reads this
      requires Valid()
      ensures ValidIter(blocks, it) && Offset(blocks, it) == 0
    {
      if blocks == [] then Null else Iter.At(0, 0)
    }

    /** end(): one past the last item. */
    function End(): (it: Iter)
      reads this
      requires Valid()
      ensures ValidIter(blocks, it) && Offset(blocks, it) == |Contents|
    {
      if blocks == [] then Null else Iter.At(|blocks| - 1, |blocks[|blocks| - 1]|)
    }

    function Empty(): (b: bool)
      reads this
      requires Valid()
      ensures b <==> Contents == []
    {
      totalSize == 0
    }

    function Size(): (n: nat)
      reads this
      requires Valid()
      ensures n == |Contents|
    {
      totalSize
    }

    /** clear(): no blocks, no items, block size back to 4. */
    method Clear()
      modifies this
      ensures Valid() && Contents == [] && blocks == [] && blockSize == 4
    {
      blocks, totalSize, blockSize := [], 0, 4;
      Contents := [];
    }

    /** push_back(v): appends to the last block, opening a new one when
        there is none or the last is full, then rebalances. */
    method PushBack(v: T)
      requires Valid()
      modifies this
      ensures Valid() && Contents == old(Contents) + [v]
      ensures (blocks, blockSize) == Rebalance(PushBackBlocks(old(blocks), old(blockSize), v), |Contents|, old(blockSize))
    {
      blocks := PushBackBlocks(blocks, blockSize, v);
      totalSize := totalSize + 1;
      Contents := Contents + [v];
      Balance();
    }

    /** push_front(v): prepends to the first block, opening a new one when
        there is none or the first is full, then rebalances. */
    method PushFront(v: T)
      requires Valid()
      modifies this
      ensures Valid() && Contents == [v] + old(Contents)
      ensures (blocks, blockSize) == Rebalance(PushFrontBlocks(old(blocks), old(blockSize), v), |Contents|, old(blockSize))
    {
      blocks := PushFrontBlocks(blocks, blockSize, v);
      totalSize := totalSize + 1;
      Contents := [v] + Contents;
      Balance();
    }

    /** pop_back(): out_of_range on an empty deque; otherwise removes the
        last item, drops the last block if it became empty, rebalances. */
    method PopBack() returns (r: Result<()>)
      requires Valid()
      modifies this
      ensures Valid()
      ensures r.Throw? <==> old(Contents) == []
      ensures r.Throw? ==> r.error == OutOfRange && unchanged(this)
      ensures r.Ok? ==> && Contents == old(Contents)[..|old(Contents)| - 1]
                        && (blocks, blockSize) == Rebalance(PopBackBlocks(old(blocks)), |Contents|, old(blockSize))
    {
      if totalSize == 0 {
        return Throw(OutOfRange);
      }
      blocks := PopBackBlocks(blocks);
      totalSize := totalSize - 1;
      Contents := Contents[..|Contents| - 1];
      Balance();
      r := Ok(());
    }

    /** pop_front(): out_of_range on an empty deque; otherwise removes the
        first item, drops the first block if it became empty, rebalances. */
    method PopFront() returns (r: Result<()>)
      requires Valid()
      modifies this
      ensures Valid()
      ensures r.Throw? <==> old(Contents) == []
      ensures r.Throw? ==> r.error == OutOfRange && unchanged(this)
      ensures r.Ok? ==> && Contents == old(Contents)[1..]
                        && (blocks, blockSize) == Rebalance(PopFrontBlocks(old(blocks)), |Contents|, old(blockSize))
    {
      if totalSize == 0 {
        return Throw(OutOfRange);
      }
      blocks := PopFrontBlocks(blocks);
      totalSize := totalSize - 1;
      Contents := Contents[1..];
      Balance();
      r := Ok(());
    }

    /** insert(pos, v): inserts `v` before `pos` and returns the iterator
        at the new item.  On an empty deque only `end()` is accepted and the
        deque becomes one block `[v]`; on a non-empty deque `end()` of an
        empty one (`Null`) is refused.  Otherwise the item goes into the
        block of `pos`, the deque rebalances and the result is found again
        by logical index. */
    method Insert(pos: Iter, v: T) returns (r: Result<Iter>)
      requires Valid() && (blocks != [] && pos.At? ==> ValidIter(blocks, pos))
      modifies this
      ensures Valid()
      ensures r.Throw? <==> (old(blocks) == [] <==> pos.At?)
      ensures r.Throw? ==> r.error == OutOfRange && unchanged(this)
      ensures old(blocks) == [] && r.Ok? ==>
                && Contents == [v] && blocks == [[v]] && blockSize == old(blockSize)
                && r.value == Iter.At(0, 0)
      ensures old(blocks) != [] && r.Ok? ==>
                var d := Offset(old(blocks), pos);
                && Contents == old(Contents)[..d] + [v] + old(Contents)[d..]
                && (blocks, blockSize) == Rebalance(InsertBlocks(old(blocks), pos.block, pos.item, v), |Contents|, old(blockSize))
                && ValidIter(blocks, r.value) && Offset(blocks, r.value) == d
    {
      if blocks == [] {
        if pos != Null {
          return Throw(OutOfRange);
        }
        blocks := [[v]];
        totalSize := totalSize + 1;
        Contents := [v];
        assert Flatten(blocks) == [v] + Flatten([]);
        return Ok(Iter.At(0, 0));
      }
      if pos.Null? {
        return Throw(OutOfRange);
      }
      var diff := Difference(blocks, pos, Begin());
      var dis: nat := diff.value;
      blocks := InsertBlocks(blocks, pos.block, pos.item, v);
      totalSize := totalSize + 1;
      Contents := Contents[..dis] + [v] + Contents[dis..];
      Balance();
      var it := Locate(dis);
      r := Ok(it);
    }

    /** erase(pos): removes the item at `pos` and returns the iterator at
        the item that followed it.  `Null` and `end()` are refused.  When
        the deque becomes empty or the erased item was the last one the
        result is `end()` and no rebalancing happens; otherwise the deque
        rebalances and the result is found again by logical index. */
    method Erase(pos: Iter) returns (r: Result<Iter>)
      requires Valid() && (pos.At? ==> ValidIter(blocks, pos))
      modifies this
      ensures Valid()
      ensures r.Throw? <==> pos.Null? || Offset(old(blocks), pos) == |old(Contents)|
      ensures r.Throw? ==> r.error == OutOfRange && unchanged(this)
      ensures r.Ok? ==>
                var d := Offset(old(blocks), pos);
                var erased := EraseBlocks(old(blocks), pos.block, pos.item);
                && Contents == old(Contents)[..d] + old(Contents)[d + 1..]
                && (blocks, blockSize) == (if d == |Contents| then (erased, old(blockSize))
                                           else Rebalance(erased, |Contents|, old(blockSize)))
                && ValidIter(blocks, r.value) && Offset(blocks, r.value) == d
    {
      if pos.Null? {
        return Throw(OutOfRange);
      }
      var diff := Difference(blocks, pos, Begin());
      var dis: nat := diff.value;
      if dis >= totalSize {
        return Throw(OutOfRange);
      }
      blocks := EraseBlocks(blocks, pos.block, pos.item);
      totalSize := totalSize - 1;
      Contents := Contents[..dis] + Contents[dis + 1..];
      if totalSize == 0 || dis == totalSize {
        return Ok(End());
      }
      Balance();
      var it := Locate(dis);
      r := Ok(it);
    }
  }
}
