/// The deque's block list as a value: a sequence of blocks, each block the
/// items of one inner list, together with the local edits the deque makes to
/// it and the rebalancing pass (`Balance`) that splits and merges blocks.
module Blocks {
  /** The items of all blocks, block after block: the deque's contents. */
  function Flatten<T>(bl: seq<seq<T>>): seq<T>
  {
    if bl == [] then [] else bl[0] + Flatten(bl[1..])
  }

  /** No block is empty. */
  ghost predicate NoEmpty<T>(bl: seq<seq<T>>)
  {
    forall b | 0 <= b < |bl| :: bl[b] != []
  }

  /** The logical index of the first item of block `b`. */
  ghost function Start<T>(bl: seq<seq<T>>, b: nat): nat
    requires b <= |bl|
  {
    |Flatten(bl[..b])|
  }

  lemma {:induction false} FlattenAppend<T>(a: seq<seq<T>>, c: seq<seq<T>>)
    ensures Flatten(a + c) == Flatten(a) + Flatten(c)
  {
    if a == [] {
      assert a + c == c;
    } else {
      assert (a + c)[1..] == a[1..] + c;
      FlattenAppend(a[1..], c);
    }
  }

  lemma FlattenCons<T>(x: seq<T>, s: seq<seq<T>>)
    ensures Flatten([x] + s) == x + Flatten(s)
  {
    assert ([x] + s)[1..] == s;
  }

  lemma Assoc3<T>(a: seq<T>, x: seq<T>, z: seq<T>)
    ensures a + (x + z) == a + x + z
  {
  }

  lemma Assoc<T>(a: seq<T>, x: seq<T>, y: seq<T>, z: seq<T>)
    ensures a + (x + (y + z)) == a + (x + y) + z == a + ((x + y) + z) == a + x + (y + z)
  {
  }

  lemma SeqAround<T>(bl: seq<seq<T>>, b: nat)
    requires b < |bl|
    ensures bl == bl[..b] + ([bl[b]] + bl[b + 1..])
  {
  }

  /** The contents split around block `b`. */
  lemma FlattenAround<T>(bl: seq<seq<T>>, b: nat)
    requires b < |bl|
    ensures Flatten(bl) == Flatten(bl[..b]) + bl[b] + Flatten(bl[b + 1..])
  {
    var p, q := bl[..b], bl[b + 1..];
    SeqAround(bl, b);
    FlattenAppend(p, [bl[b]] + q);
    FlattenCons(bl[b], q);
    Assoc3(Flatten(p), bl[b], Flatten(q));
  }

  lemma StartNext<T>(bl: seq<seq<T>>, b: nat)
    requires b < |bl|
    ensures Start(bl, b + 1) == Start(bl, b) + |bl[b]|
  {
    assert bl[..b + 1] == bl[..b] + [bl[b]];
    FlattenAppend(bl[..b], [bl[b]]);
    assert Flatten([bl[b]]) == bl[b] + Flatten([]);
  }

  lemma StartAll<T>(bl: seq<seq<T>>)
    ensures Start(bl, |bl|) == |Flatten(bl)|
  {
    assert bl[..|bl|] == bl;
  }

  /** Dropping the first block shifts every start back by its size. */
  lemma StartTail<T>(bl: seq<seq<T>>, b: nat)
    requires 0 < b <= |bl|
    ensures Start(bl, b) == |bl[0]| + Start(bl[1..], b - 1)
  {
    assert bl[..b][1..] == bl[1..][..b - 1];
  }

  /** Item `i` of block `b` is item `Start(bl, b) + i` of the contents. */
  lemma FlattenIndex<T>(bl: seq<seq<T>>, b: nat, i: nat)
    requires b < |bl| && i < |bl[b]|
    ensures Start(bl, b) + i < |Flatten(bl)|
    ensures Flatten(bl)[Start(bl, b) + i] == bl[b][i]
  {
    FlattenAround(bl, b);
  }

  /** `Flatten` of a block list whose block `b` is replaced by `nb`. */
  lemma FlattenUpdate<T>(bl: seq<seq<T>>, b: nat, nb: seq<T>)
    requires b < |bl|
    ensures Flatten(bl[b := nb]) == Flatten(bl[..b]) + nb + Flatten(bl[b + 1..])
  {
    var r := bl[b := nb];
    FlattenAround(r, b);
    assert r[..b] == bl[..b] && r[b + 1..] == bl[b + 1..];
  }

  // ---------------------------------------------------------------------
  // Local edits made by the public operations before rebalancing.

  /** `push_back`: append to the end block, or to a new end block when
      there are no blocks or the end block already holds `bs` items. */
  function PushBackBlocks<T>(bl: seq<seq<T>>, bs: nat, v: T): (r: seq<seq<T>>)
    ensures Flatten(r) == Flatten(bl) + [v]
    ensures NoEmpty(bl) ==> NoEmpty(r)
    ensures |r| == |bl| + 1 <==> bl == [] || |bl[|bl| - 1]| >= bs
    ensures |r| == |bl| + 1 || |r| == |bl|
  {
    if bl == [] || |bl[|bl| - 1]| >= bs then
      FlattenAppend(bl, [[v]]);
      assert Flatten([[v]]) == [v] + Flatten([]);
      bl + [[v]]
    else
      var n := |bl| - 1;
      FlattenAround(bl, n);
      FlattenUpdate(bl, n, bl[n] + [v]);
      assert bl[n + 1..] == [];
      bl[n := bl[n] + [v]]
  }

  /** `push_front`: prepend to the first block, or to a new first block when
      there are no blocks or the first block already holds `bs` items. */
  function PushFrontBlocks<T>(bl: seq<seq<T>>, bs: nat, v: T): (r: seq<seq<T>>)
    ensures Flatten(r) == [v] + Flatten(bl)
    ensures NoEmpty(bl) ==> NoEmpty(r)
    ensures |r| == |bl| + 1 <==> bl == [] || |bl[0]| >= bs
    ensures |r| == |bl| + 1 || |r| == |bl|
  {
    if bl == [] || |bl[0]| >= bs then
      assert ([[v]] + bl)[1..] == bl;
      [[v]] + bl
    else
      FlattenAround(bl, 0);
      FlattenUpdate(bl, 0, [v] + bl[0]);
      assert bl[..0] == [];
      bl[0 := [v] + bl[0]]
  }

  /** `pop_back`: drop the last item, and the end block if it empties. */
  function PopBackBlocks<T>(bl: seq<seq<T>>): (r: seq<seq<T>>)
    requires bl != [] && NoEmpty(bl)
    ensures |Flatten(bl)| > 0
    ensures Flatten(r) == Flatten(bl)[..|Flatten(bl)| - 1]
    ensures NoEmpty(r)
    ensures |r| == |bl| - 1 <==> |bl[|bl| - 1]| == 1
    ensures |r| == |bl| - 1 || |r| == |bl|
  {
    var n := |bl| - 1;
    var last := bl[n][..|bl[n]| - 1];
    FlattenAround(bl, n);
    assert bl[n + 1..] == [];
    if last == [] then
      bl[..n]
    else
      FlattenUpdate(bl, n, last);
      bl[n := last]
  }

  /** `pop_front`: drop the first item, and the first block if it empties. */
  function PopFrontBlocks<T>(bl: seq<seq<T>>): (r: seq<seq<T>>)
    requires bl != [] && NoEmpty(bl)
    ensures |Flatten(bl)| > 0
    ensures Flatten(r) == Flatten(bl)[1..]
    ensures NoEmpty(r)
    ensures |r| == |bl| - 1 <==> |bl[0]| == 1
    ensures |r| == |bl| - 1 || |r| == |bl|
  {
    var first := bl[0][1..];
    FlattenAround(bl, 0);
    assert bl[..0] == [];
    if first == [] then
      bl[1..]
    else
      FlattenUpdate(bl, 0, first);
      bl[0 := first]
  }

  /** Inserting into the middle part of `a + x + c`, by global position. */
  lemma InsertSeq<T>(a: seq<T>, x: seq<T>, c: seq<T>, i: nat, v: T)
    requires i <= |x|
    ensures var f, d := a + x + c, |a| + i;
      f[..d] + [v] + f[d..] == a + (x[..i] + [v] + x[i..]) + c
  {
    var f, d := a + x + c, |a| + i;
    assert f[..d] == a + x[..i];
    assert f[d..] == x[i..] + c;
  }

  /** Erasing from the middle part of `a + x + c`, by global position. */
  lemma EraseSeq<T>(a: seq<T>, x: seq<T>, c: seq<T>, i: nat)
    requires i < |x|
    ensures var f, d := a + x + c, |a| + i;
      f[..d] + f[d + 1..] == a + (x[..i] + x[i + 1..]) + c
  {
    var f, d := a + x + c, |a| + i;
    assert f[..d] == a + x[..i];
    assert f[d + 1..] == x[i + 1..] + c;
  }

  /** The inner list's `insert`: `v` goes in before item `i` of block `b`,
      which is logical position `Start(bl, b) + i`. */
  function InsertBlocks<T>(bl: seq<seq<T>>, b: nat, i: nat, v: T): (r: seq<seq<T>>)
    requires b < |bl| && i <= |bl[b]|
    ensures Start(bl, b) + i <= |Flatten(bl)|
    ensures var d := Start(bl, b) + i;
      Flatten(r) == Flatten(bl)[..d] + [v] + Flatten(bl)[d..]
    ensures NoEmpty(bl) ==> NoEmpty(r)
    ensures |r| == |bl|
  {
    var nb := bl[b][..i] + [v] + bl[b][i..];
    FlattenAround(bl, b);
    FlattenUpdate(bl, b, nb);
    InsertSeq(Flatten(bl[..b]), bl[b], Flatten(bl[b + 1..]), i, v);
    bl[b := nb]
  }

  /** Removing an empty block leaves the contents as they are. */
  lemma DropEmpty<T>(bl: seq<seq<T>>, b: nat)
    requires b < |bl| && bl[b] == []
    ensures Flatten(bl[..b] + bl[b + 1..]) == Flatten(bl)
  {
    assert Flatten(bl[..b]) + bl[b] == Flatten(bl[..b]);
    FlattenAround(bl, b);
    FlattenAppend(bl[..b], bl[b + 1..]);
  }

  /** The inner list's `erase` of item `i` of block `b`, followed by the
      removal of block `b` when that leaves it empty. */
  function EraseBlocks<T>(bl: seq<seq<T>>, b: nat, i: nat): (r: seq<seq<T>>)
    requires b < |bl| && i < |bl[b]|
    ensures Start(bl, b) + i < |Flatten(bl)|
    ensures var d := Start(bl, b) + i;
      Flatten(r) == Flatten(bl)[..d] + Flatten(bl)[d + 1..]
    ensures NoEmpty(bl) ==> NoEmpty(r)
    ensures |r| == |bl| - 1 <==> |bl[b]| == 1
    ensures |r| == |bl| - 1 || |r| == |bl|
  {
    var nb := bl[b][..i] + bl[b][i + 1..];
    var u := bl[b := nb];
    FlattenAround(bl, b);
    FlattenUpdate(bl, b, nb);
    EraseSeq(Flatten(bl[..b]), bl[b], Flatten(bl[b + 1..]), i);
    if nb == [] then
      DropEmpty(u, b);
      u[..b] + u[b + 1..]
    else
      u
  }

  // ---------------------------------------------------------------------
  // Rebalancing.

  /** The integer square root: `std::sqrt` truncated to an integer. */
  function ISqrt(n: nat): (r: nat)
    ensures r * r <= n < (r + 1) * (r + 1)
  {
    if n == 0 then 0
    else
      var s := ISqrt(n - 1);
      if (s + 1) * (s + 1) <= n then s + 1 else s
  }

  /** `Split`: the items of block `i` from index `size / 2` on, in order,
      become a new block right after it. */
  function SplitBlock<T>(bl: seq<seq<T>>, i: nat): seq<seq<T>>
    requires i < |bl|
  {
    var h := |bl[i]| / 2;
    bl[..i] + [bl[i][..h], bl[i][h..]] + bl[i + 1..]
  }

  /** `Merge`: the items of block `i + 1` are appended to block `i`, and
      block `i + 1` is removed. */
  function MergeBlocks<T>(bl: seq<seq<T>>, i: nat): seq<seq<T>>
    requires i + 1 < |bl|
  {
    bl[..i] + [bl[i] + bl[i + 1]] + bl[i + 2..]
  }

  lemma SplitShape<T>(bl: seq<seq<T>>, i: nat)
    requires i < |bl|
    ensures var h := |bl[i]| / 2;
      && SplitBlock(bl, i) == bl[..i] + ([bl[i][..h]] + ([bl[i][h..]] + bl[i + 1..]))
      && bl[i][..h] + bl[i][h..] == bl[i]
  {
  }

  lemma SplitKeepsItems<T>(bl: seq<seq<T>>, i: nat)
    requires i < |bl|
    ensures Flatten(SplitBlock(bl, i)) == Flatten(bl)
  {
    var h := |bl[i]| / 2;
    var x, y, p, q := bl[i][..h], bl[i][h..], bl[..i], bl[i + 1..];
    SplitShape(bl, i);
    FlattenAppend(p, [x] + ([y] + q));
    FlattenCons(x, [y] + q);
    FlattenCons(y, q);
    FlattenAround(bl, i);
    Assoc(Flatten(p), x, y, Flatten(q));
  }

  lemma SplitNoEmpty<T>(bl: seq<seq<T>>, i: nat)
    requires i < |bl| && NoEmpty(bl) && |bl[i]| >= 2
    ensures NoEmpty(SplitBlock(bl, i))
  {
  }

  lemma MergeShape<T>(bl: seq<seq<T>>, i: nat)
    requires i + 1 < |bl|
    ensures MergeBlocks(bl, i) == bl[..i] + ([bl[i] + bl[i + 1]] + bl[i + 2..])
    ensures bl[i + 1..] == [bl[i + 1]] + bl[i + 2..]
  {
  }

  lemma MergeKeepsItems<T>(bl: seq<seq<T>>, i: nat)
    requires i + 1 < |bl|
    ensures Flatten(MergeBlocks(bl, i)) == Flatten(bl)
  {
    var x, y, p, q := bl[i], bl[i + 1], bl[..i], bl[i + 2..];
    MergeShape(bl, i);
    FlattenAppend(p, [x + y] + q);
    FlattenCons(x + y, q);
    FlattenCons(y, q);
    FlattenAround(bl, i);
    Assoc(Flatten(p), x, y, Flatten(q));
  }

  lemma MergeNoEmpty<T>(bl: seq<seq<T>>, i: nat)
    requires i + 1 < |bl| && NoEmpty(bl)
    ensures NoEmpty(MergeBlocks(bl, i))
  {
  }

  /** The scan of `Balance` with target size `bs`, from the first block on:
      a block over `2 * bs` items is split and the scan goes on at its second
      half; a block under `bs / 2` items absorbs its successor when the two
      hold at most `bs` items and the scan goes on after the pair; any other
      block is kept. */
  function Scan<T>(bl: seq<seq<T>>, bs: nat): seq<seq<T>>
    requires bs >= 1
    decreases |bl|, if bl == [] then 0 else |bl[0]|
  {
    if bl == [] then []
    else if |bl[0]| > 2 * bs then
      var s := SplitBlock(bl, 0);
      [s[0]] + Scan(s[1..], bs)
    else if |bl[0]| * 2 < bs && |bl| > 1 && |bl[0]| + |bl[1]| <= bs then
      var m := MergeBlocks(bl, 0);
      [m[0]] + Scan(m[1..], bs)
    else
      [bl[0]] + Scan(bl[1..], bs)
  }

  lemma ConsShape<T>(s: seq<seq<T>>)
    requires s != []
    ensures s == [s[0]] + s[1..]
  {
  }

  lemma NoEmptyCons<T>(h: seq<T>, s: seq<seq<T>>)
    requires h != [] && NoEmpty(s)
    ensures NoEmpty([h] + s)
  {
  }

  /** The list a scan step continues from, with the block it emits as its
      head: the split list, the merged list, or `bl` itself. */
  function ScanStep<T>(bl: seq<seq<T>>, bs: nat): (s: seq<seq<T>>)
    requires bs >= 1 && bl != []
    ensures s != [] && Scan(bl, bs) == [s[0]] + Scan(s[1..], bs)
  {
    if |bl[0]| > 2 * bs then SplitBlock(bl, 0)
    else if |bl[0]| * 2 < bs && |bl| > 1 && |bl[0]| + |bl[1]| <= bs then MergeBlocks(bl, 0)
    else bl
  }

  /** Splitting block `i` of `bl` is splitting the first block of `bl[i..]`. */
  lemma SplitAt<T>(bl: seq<seq<T>>, i: nat)
    requires i < |bl|
    ensures SplitBlock(bl, i) == bl[..i] + SplitBlock(bl[i..], 0)
  {
    assert bl[i..][0] == bl[i] && bl[i..][1..] == bl[i + 1..];
  }

  /** Merging block `i` of `bl` is merging the first two blocks of `bl[i..]`. */
  lemma MergeAt<T>(bl: seq<seq<T>>, i: nat)
    requires i + 1 < |bl|
    ensures MergeBlocks(bl, i) == bl[..i] + MergeBlocks(bl[i..], 0)
  {
    assert bl[i..][0] == bl[i] && bl[i..][1] == bl[i + 1] && bl[i..][2..] == bl[i + 2..];
  }

  /** One step of the scan over the unvisited suffix `S`, with the visited
      prefix `p` kept in front: the emitted block joins the prefix and the
      scan of the rest is unchanged. */
  lemma ScanAdvance<T>(p: seq<seq<T>>, S: seq<seq<T>>, bs: nat)
    requires bs >= 1 && S != []
    ensures var r := p + ScanStep(S, bs);
      |p| < |r| && r[..|p| + 1] + Scan(r[|p| + 1..], bs) == p + Scan(S, bs)
  {
    var s := ScanStep(S, bs);
    var r := p + s;
    assert r[..|p| + 1] == p + [s[0]];
    assert r[|p| + 1..] == s[1..];
    Assoc3(p, [s[0]], Scan(s[1..], bs));
  }

  /** One visit of the balance walk at block `i`: `r` is `bl` after the
      split or merge the walk makes there (or `bl` itself).  The visited
      prefix grows by one block, the scan of prefix and rest is unchanged,
      and the walk gets closer to its end. */
  lemma VisitBlock<T>(bl: seq<seq<T>>, i: nat, bs: nat, r: seq<seq<T>>)
    requires bs >= 1 && i < |bl|
    requires r == if |bl[i]| > 2 * bs then SplitBlock(bl, i)
                  else if |bl[i]| * 2 < bs && i + 1 < |bl| && |bl[i]| + |bl[i + 1]| <= bs then MergeBlocks(bl, i)
                  else bl
    ensures i < |r| && r[..i + 1] + Scan(r[i + 1..], bs) == bl[..i] + Scan(bl[i..], bs)
    ensures |r| <= |bl| || (|r| == |bl| + 1 && |r[i + 1]| < |bl[i]|)
  {
    var rest := bl[i..];
    assert rest[0] == bl[i];
    if |bl[i]| > 2 * bs {
      SplitAt(bl, i);
    } else if |bl[i]| * 2 < bs && i + 1 < |bl| && |bl[i]| + |bl[i + 1]| <= bs {
      assert rest[1] == bl[i + 1];
      MergeAt(bl, i);
    } else if i + 1 < |bl| {
      assert rest[1] == bl[i + 1];
    }
    assert r == bl[..i] + ScanStep(rest, bs);
    ScanAdvance(bl[..i], rest, bs);
  }

  /** The scan keeps every item, in order. */
  lemma {:induction false} ScanKeepsItems<T>(bl: seq<seq<T>>, bs: nat)
    requires bs >= 1
    ensures Flatten(Scan(bl, bs)) == Flatten(bl)
    decreases |bl|, if bl == [] then 0 else |bl[0]|
  {
    if bl != [] {
      var s := ScanStep(bl, bs);
      if |bl[0]| > 2 * bs {
        SplitKeepsItems(bl, 0);
      } else if |bl[0]| * 2 < bs && |bl| > 1 && |bl[0]| + |bl[1]| <= bs {
        MergeKeepsItems(bl, 0);
      }
      ConsShape(s);
      ScanKeepsItems(s[1..], bs);
      FlattenCons(s[0], Scan(s[1..], bs));
      FlattenCons(s[0], s[1..]);
    }
  }

  /** The scan never leaves an empty block. */
  lemma {:induction false} ScanNoEmpty<T>(bl: seq<seq<T>>, bs: nat)
    requires bs >= 1
    ensures NoEmpty(bl) ==> NoEmpty(Scan(bl, bs))
    decreases |bl|, if bl == [] then 0 else |bl[0]|
  {
    if bl != [] && NoEmpty(bl) {
      var s := ScanStep(bl, bs);
      if |bl[0]| > 2 * bs {
        SplitNoEmpty(bl, 0);
      } else if |bl[0]| * 2 < bs && |bl| > 1 && |bl[0]| + |bl[1]| <= bs {
        MergeNoEmpty(bl, 0);
      }
      assert s[0] != [];
      ScanNoEmpty(s[1..], bs);
      NoEmptyCons(s[0], Scan(s[1..], bs));
    }
  }

  /** The sizes the scan guarantees: every block it leaves holds at most
      `2 * bs` items, or at most half of the largest block it was given
      (the first half of a split is not visited again). */
  lemma {:induction false} ScanBound<T>(bl: seq<seq<T>>, bs: nat, m: nat)
    requires bs >= 1
    requires forall b | 0 <= b < |bl| :: |bl[b]| <= m
    ensures forall b | 0 <= b < |Scan(bl, bs)| :: |Scan(bl, bs)[b]| <= 2 * bs || |Scan(bl, bs)[b]| <= m / 2
    decreases |bl|, if bl == [] then 0 else |bl[0]|
  {
    if bl != [] {
      var s := ScanStep(bl, bs);
      var r, rest := Scan(bl, bs), s[1..];
      assert |bl[0]| <= m;
      assert |s[0]| <= 2 * bs || |s[0]| <= m / 2;
      assert forall b | 0 <= b < |rest| :: |rest[b]| <= m by {
        forall b | 0 <= b < |rest| ensures |rest[b]| <= m {
          assert rest[b] == s[b + 1];
          if |bl[0]| > 2 * bs && b == 0 {
          } else if |bl[0]| > 2 * bs {
            assert s[b + 1] == bl[b];
          } else if |bl[0]| * 2 < bs && |bl| > 1 && |bl[0]| + |bl[1]| <= bs {
            assert s[b + 1] == bl[b + 2];
          } else {
            assert s[b + 1] == bl[b + 1];
          }
        }
      }
      ScanBound(rest, bs, m);
      assert forall b | 1 <= b < |r| :: r[b] == Scan(rest, bs)[b - 1];
    }
  }

  /** When no block holds more than `4 * bs + 1` items, one scan leaves every
      block within `2 * bs` items. */
  lemma ScanUpperBound<T>(bl: seq<seq<T>>, bs: nat)
    requires bs >= 1
    requires forall b | 0 <= b < |bl| :: |bl[b]| <= 4 * bs + 1
    ensures forall b | 0 <= b < |Scan(bl, bs)| :: |Scan(bl, bs)[b]| <= 2 * bs
  {
    ScanBound(bl, bs, 4 * bs + 1);
  }

  /** A block of 49 items scanned with target size 8 is split into blocks of
      24, 12 and 13 items: the first half of a split stays above `2 * bs`,
      and a block under `bs / 2` items stays when its successor is too big
      to absorb. */
  lemma ScanCounterexample()
    ensures var r := Scan([seq(49, k => k)], 8); |r| == 3 && |r[0]| == 24 > 2 * 8
    ensures var r := Scan([[0], seq(8, k => k)], 8); |r| == 2 && |r[0]| == 1 && 2 * |r[0]| < 8
  {
    var a := seq(49, k => k);
    var s1 := SplitBlock([a], 0);
    assert s1[1..] == [a[24..]];
    var s2 := SplitBlock([a[24..]], 0);
    assert s2[1..] == [a[24..][12..]];
    assert Scan([a[24..][12..]], 8) == [a[24..][12..]] + Scan([], 8);
    var b := [[0], seq(8, k => k)];
    assert b[1..] == [seq(8, k => k)];
    assert Scan(b[1..], 8) == [seq(8, k => k)] + Scan([], 8);
  }

  /** `Balance` on the block list: nothing happens when there are no blocks
      or when `ISqrt(total) + 1` is already the target size; otherwise the
      target becomes that value and one scan runs with it. */
  function Rebalance<T>(bl: seq<seq<T>>, total: nat, bs: nat): (r: (seq<seq<T>>, nat))
    requires bs >= 1
    ensures Flatten(r.0) == Flatten(bl) && (NoEmpty(bl) ==> NoEmpty(r.0))
    ensures r.1 >= 1 && (bl != [] ==> r.1 * r.1 > total && (r.1 - 1) * (r.1 - 1) <= total)
    ensures r.1 != bs ==> r.0 == Scan(bl, r.1)
    ensures r.1 == bs ==> r.0 == bl
    ensures bl == [] ==> r == (bl, bs)
  {
    if bl == [] then (bl, bs)
    else
      var nbs := ISqrt(total) + 1;
      if nbs == bs then (bl, bs)
      else
        ScanKeepsItems(bl, nbs);
        ScanNoEmpty(bl, nbs);
        (Scan(bl, nbs), nbs)
  }
}
