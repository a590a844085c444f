/// The deque's iterator: a (block, item) position over the block list.  An
/// element position has `item` below the size of its block; the end of the
/// deque is `(last block, size of last block)`; an empty deque has no blocks
/// and its only iterator is `Null`.  Every operation reads the block list of
/// the deque the iterator belongs to and changes nothing.
module DequeIterator {
  import opened Exceptions
  import opened Blocks

  datatype Iter = Null | At(block: nat, item: nat)

  /** `it` is `begin()`, `end()` or a position reached from them. */
  ghost predicate ValidIter<T>(bl: seq<seq<T>>, it: Iter)
  {
    if bl == [] then it.Null?
    else
      && it.At?
      && it.block < |bl|
      && (it.item < |bl[it.block]| || (it.block == |bl| - 1 && it.item == |bl[it.block]|))
  }

  /** The logical position `it` denotes: items before it in the deque. */
  ghost function Offset<T>(bl: seq<seq<T>>, it: Iter): (k: nat)
    requires ValidIter(bl, it)
    ensures k <= |Flatten(bl)|
    ensures k == |Flatten(bl)| <==> it == Null || (it.block == |bl| - 1 && it.item == |bl[it.block]|)
  {
    if it.Null? then 0
    else
      StartAll(bl);
      StartNext(bl, |bl| - 1);
      if it.item < |bl[it.block]| then
        FlattenIndex(bl, it.block, it.item);
        Start(bl, it.block) + it.item
      else
        Start(bl, it.block) + it.item
  }

  /** The element position of logical index `k`. */
  ghost function Find<T>(bl: seq<seq<T>>, k: nat): (it: Iter)
    requires k < |Flatten(bl)|
    ensures it.At? && it.block < |bl| && it.item < |bl[it.block]|
    ensures Start(bl, it.block) + it.item == k
    decreases |bl|
  {
    if k < |bl[0]| then At(0, k)
    else
      assert bl == [bl[0]] + bl[1..];
      FlattenCons(bl[0], bl[1..]);
      var r := Find(bl[1..], k - |bl[0]|);
      StartTail(bl, r.block + 1);
      At(r.block + 1, r.item)
  }

  /** The iterator at logical position `k`; `k == |Flatten(bl)|` gives
      `end()`. */
  ghost function IterAt<T>(bl: seq<seq<T>>, k: nat): (it: Iter)
    requires k <= |Flatten(bl)|
    ensures ValidIter(bl, it) && Offset(bl, it) == k
  {
    if bl == [] then Null
    else if k == |Flatten(bl)| then
      StartNext(bl, |bl| - 1);
      StartAll(bl);
      At(|bl| - 1, |bl[|bl| - 1]|)
    else Find(bl, k)
  }

  lemma {:induction false} FindOffset<T>(bl: seq<seq<T>>, b: nat, i: nat)
    requires b < |bl| && i < |bl[b]|
    ensures Start(bl, b) + i < |Flatten(bl)|
    ensures Find(bl, Start(bl, b) + i) == At(b, i)
    decreases b
  {
    FlattenIndex(bl, b, i);
    if b > 0 {
      StartTail(bl, b);
      FindOffset(bl[1..], b - 1, i);
    }
  }

  /** Every valid iterator is the one at its own position, so two valid
      iterators are equal exactly when they denote the same position. */
  lemma IterAtOffset<T>(bl: seq<seq<T>>, it: Iter)
    requires ValidIter(bl, it)
    ensures IterAt(bl, Offset(bl, it)) == it
  {
    if it.At? {
      if it.item < |bl[it.block]| {
        FindOffset(bl, it.block, it.item);
      } else {
        StartNext(bl, |bl| - 1);
        StartAll(bl);
      }
    }
  }

  lemma IterEquality<T>(bl: seq<seq<T>>, a: Iter, c: Iter)
    requires ValidIter(bl, a) && ValidIter(bl, c)
    ensures a == c <==> Offset(bl, a) == Offset(bl, c)
  {
    IterAtOffset(bl, a);
    IterAtOffset(bl, c);
  }

  /** `r` is the outcome of moving `it` by `n` positions: the iterator at
      the new position, or out_of_range when that leaves
      `[begin(), end()]`. */
  ghost predicate Moved<T>(bl: seq<seq<T>>, it: Iter, n: int, r: Result<Iter>)
    requires ValidIter(bl, it)
  {
    var k := Offset(bl, it) + n;
    if 0 <= k <= |Flatten(bl)| then
      r.Ok? && ValidIter(bl, r.value) && Offset(bl, r.value) == k
    else
      r == Throw(OutOfRange)
  }

  /** A move has one outcome, the iterator `IterAt` gives. */
  lemma MovedUnique<T>(bl: seq<seq<T>>, it: Iter, n: int, r: Result<Iter>)
    requires ValidIter(bl, it) && Moved(bl, it, n, r)
    ensures r.Ok? ==> r.value == IterAt(bl, Offset(bl, it) + n)
  {
    if r.Ok? {
      IterAtOffset(bl, r.value);
    }
  }

  /** Moving back by `n` undoes a move by `n` that stayed in range. */
  lemma MovedBack<T>(bl: seq<seq<T>>, it: Iter, n: int, r: Result<Iter>, r': Result<Iter>)
    requires ValidIter(bl, it) && Moved(bl, it, n, r) && r.Ok?
    requires Moved(bl, r.value, -n, r')
    ensures r' == Ok(it)
  {
    IterEquality(bl, r'.value, it);
  }

  /** Two moves in a row are one move by the sum. */
  lemma MovedTwice<T>(bl: seq<seq<T>>, it: Iter, m: int, n: int, r: Result<Iter>, r': Result<Iter>)
    requires ValidIter(bl, it) && Moved(bl, it, m, r) && r.Ok?
    requires Moved(bl, r.value, n, r')
    ensures Moved(bl, it, m + n, r')
  {
  }

  /** `*it`: the element at the iterator's position; `end()` and `Null`
      hold the list's null node, whose dereference throws. */
  function Deref<T>(bl: seq<seq<T>>, it: Iter): (r: Result<T>)
    requires ValidIter(bl, it)
    ensures r == if Offset(bl, it) < |Flatten(bl)| then Ok(Flatten(bl)[Offset(bl, it)]) else Throw(OutOfRange)
  {
    if it.Null? || it.item == |bl[it.block]| then Throw(OutOfRange)
    else
      StartNext(bl, |bl| - 1);
      StartAll(bl);
      FlattenIndex(bl, it.block, it.item);
      Ok(bl[it.block][it.item])
  }

  /** `it + n` for `n >= 0`: within the block when it fits, else block by
      block; landing exactly after the last item gives `end()`. */
  method Forward<T>(bl: seq<seq<T>>, it: Iter, n: nat) returns (r: Result<Iter>)
    requires NoEmpty(bl) && ValidIter(bl, it)
    ensures Moved(bl, it, n, r)
  {
    if n == 0 {
      return Ok(it);
    }
    if it.Null? {
      return Throw(OutOfRange);
    }
    ghost var target := Offset(bl, it) + n;
    StartAll(bl);
    StartNext(bl, it.block);
    var b, i := it.block, it.item;
    var remain: int := n;
    var blockRemaining := |bl[b]| - i;
    if remain < blockRemaining {
      assert ValidIter(bl, At(b, i + remain));
      assert Offset(bl, At(b, i + remain)) == target;
      return Ok(At(b, i + remain));
    }
    remain := remain - blockRemaining;
    if remain == 0 && b == |bl| - 1 {
      assert target == |Flatten(bl)|;
      return Ok(At(b, |bl[b]|));
    }
    b := b + 1;
    if b == |bl| {
      assert target > |Flatten(bl)|;
      return Throw(OutOfRange);
    }
    i := 0;
    while remain > 0
      invariant b < |bl| && remain >= 0
      invariant i == 0 || (b == |bl| - 1 && i == |bl[b]| && remain == 0)
      invariant Start(bl, b) + i + remain == target
      decreases remain
    {
      if remain < |bl[b]| {
        break;
      }
      StartNext(bl, b);
      remain := remain - |bl[b]|;
      if b != |bl| - 1 {
        b := b + 1;
        i := 0;
      } else {
        if remain != 0 {
          assert target > |Flatten(bl)|;
          return Throw(OutOfRange);
        }
        i := |bl[b]|;
      }
    }
    assert bl[b] != [];
    assert ValidIter(bl, At(b, i + remain));
    assert Offset(bl, At(b, i + remain)) == target;
    r := Ok(At(b, i + remain));
  }

  /** `it - n` for `n >= 0`: `end()` first steps back to the last item; then
      within the block when it fits, else block by block towards the front.
      On an empty deque `end() - n` dereferences a missing block; that
      case throws here. */
  method Backward<T>(bl: seq<seq<T>>, it: Iter, n: nat) returns (r: Result<Iter>)
    requires NoEmpty(bl) && ValidIter(bl, it)
    ensures Moved(bl, it, -(n as int), r)
  {
    if n == 0 {
      return Ok(it);
    }
    if it.Null? {
      return Throw(OutOfRange);
    }
    ghost var target := Offset(bl, it) - n;
    var b, i := it.block, it.item;
    var remain: int := n;
    if b == |bl| - 1 && i == |bl[b]| {
      i := |bl[b]| - 1;
      remain := remain - 1;
    }
    var blockRemaining := i;
    if remain <= blockRemaining {
      return Ok(At(b, i - remain));
    }
    if b == 0 {
      return Throw(OutOfRange);
    }
    remain := remain - blockRemaining - 1;
    StartNext(bl, b - 1);
    b := b - 1;
    i := |bl[b]| - 1;
    while remain > 0
      invariant b < |bl| && i == |bl[b]| - 1 && remain >= 0
      invariant Start(bl, b) + i - remain == target
      decreases remain
    {
      if remain < |bl[b]| {
        break;
      }
      if b == 0 {
        return Throw(OutOfRange);
      }
      remain := remain - |bl[b]|;
      StartNext(bl, b - 1);
      b := b - 1;
      i := |bl[b]| - 1;
    }
    r := Ok(At(b, i - remain));
  }

  /** `it + n`: a negative `n` moves back. */
  method Add<T>(bl: seq<seq<T>>, it: Iter, n: int) returns (r: Result<Iter>)
    requires NoEmpty(bl) && ValidIter(bl, it)
    ensures Moved(bl, it, n, r)
  {
    if n < 0 {
      r := Backward(bl, it, -n);
    } else {
      r := Forward(bl, it, n);
    }
  }

  /** `it - n`: a negative `n` moves forward. */
  method Sub<T>(bl: seq<seq<T>>, it: Iter, n: int) returns (r: Result<Iter>)
    requires NoEmpty(bl) && ValidIter(bl, it)
    ensures Moved(bl, it, -n, r)
  {
    if n < 0 {
      r := Forward(bl, it, -n);
    } else {
      r := Backward(bl, it, n);
    }
  }

  /** `++it`: throws on `end()`; the step past the last item of a block
      moves to the first item of the next one. */
  method Increment<T>(bl: seq<seq<T>>, it: Iter) returns (r: Result<Iter>)
    requires NoEmpty(bl) && ValidIter(bl, it)
    ensures Moved(bl, it, 1, r)
  {
    if it.Null? {
      return Throw(OutOfRange);
    }
    StartAll(bl);
    StartNext(bl, it.block);
    if it.block == |bl| - 1 && it.item == |bl[it.block]| {
      return Throw(OutOfRange);
    }
    var b, i := it.block, it.item + 1;
    if i == |bl[b]| && b != |bl| - 1 {
      b, i := b + 1, 0;
    }
    r := Ok(At(b, i));
  }

  /** `--it`: `end()` moves to the last item; the first item throws; the
      step before the first item of a block moves to the last item of the
      previous one.  On an empty deque `--end()` dereferences a missing
      block; that case throws here. */
  method Decrement<T>(bl: seq<seq<T>>, it: Iter) returns (r: Result<Iter>)
    requires NoEmpty(bl) && ValidIter(bl, it)
    ensures Moved(bl, it, -1, r)
  {
    if it.Null? {
      return Throw(OutOfRange);
    }
    var b, i := it.block, it.item;
    if b == |bl| - 1 && i == |bl[b]| {
      return Ok(At(b, i - 1));
    }
    if b == 0 && i == 0 {
      return Throw(OutOfRange);
    }
    if i == 0 {
      StartNext(bl, b - 1);
      b := b - 1;
      i := |bl[b]| - 1;
    } else {
      i := i - 1;
    }
    r := Ok(At(b, i));
  }

  /** `a - rhs`: the signed number of positions from `rhs` to `a`.  Within
      one block it walks the items from `rhs`; across blocks it first walks
      forward from `rhs`, and when it runs off the end walks forward from
      `a` instead and negates. */
  method Difference<T>(bl: seq<seq<T>>, a: Iter, rhs: Iter) returns (r: Result<int>)
    requires ValidIter(bl, a) && ValidIter(bl, rhs)
    ensures r == if a.Null? || rhs.Null? then Throw(OutOfRange)
                 else Ok(Offset(bl, a) - Offset(bl, rhs))
  {
    if a.Null? || rhs.Null? {
      return Throw(OutOfRange);
    }
    var distance := 0;
    var tb, ti := rhs.block, rhs.item;
    if a.block == rhs.block {
      var behind := false;
      while ti != a.item
        invariant rhs.item <= ti <= |bl[tb]| && distance == ti - rhs.item
        invariant a.item >= rhs.item ==> ti <= a.item
        decreases |bl[tb]| - ti
      {
        if ti == |bl[tb]| {
          behind := true;
          break;
        }
        distance := distance + 1;
        ti := ti + 1;
      }
      if behind {
        return Ok(-(rhs.item - a.item));
      }
      return Ok(distance);
    }
    distance := distance + (|bl[tb]| - ti);
    StartNext(bl, tb);
    tb := tb + 1;
    var found := true;
    while tb != a.block
      invariant rhs.block < tb <= |bl|
      invariant a.block > rhs.block ==> tb <= a.block
      invariant distance == Start(bl, tb) - Offset(bl, rhs)
      decreases |bl| - tb
    {
      if tb == |bl| {
        found := false;
        break;
      }
      StartNext(bl, tb);
      distance := distance + |bl[tb]|;
      tb := tb + 1;
    }
    if found {
      return Ok(distance + a.item);
    }
    distance := |bl[a.block]| - a.item;
    StartNext(bl, a.block);
    tb := a.block + 1;
    while tb != rhs.block
      invariant a.block < tb <= rhs.block
      invariant distance == Start(bl, tb) - Offset(bl, a)
      decreases rhs.block - tb
    {
      StartNext(bl, tb);
      distance := distance + |bl[tb]|;
      tb := tb + 1;
    }
    r := Ok(-(distance + rhs.item));
  }
}
