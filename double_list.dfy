/// The doubly linked list `double_list<T>`: heap nodes linked by `pre` and
/// `nxt`, with `head`, `tail` and a cached `size`.  An iterator of the list
/// is a `Node?<T>`; `null` is `end()`.  The ghost sequence `Nodes` is the
/// node chain from head to tail and `Contents` the values it holds.
module DoubleLinkedList {
  import opened Exceptions

  /** No node occurs twice in the chain. */
  ghost predicate Distinct<T>(s: seq<Node<T>>) {
    forall j, k | 0 <= j < k < |s| :: s[j] != s[k]
  }

  lemma DistinctRemove<T>(s: seq<Node<T>>, k: nat)
    requires Distinct(s) && k < |s|
    ensures Distinct(s[..k] + s[k + 1..]) && s[k] !in s[..k] + s[k + 1..]
  {
    var t := s[..k] + s[k + 1..];
    forall i, j | 0 <= i < j < |t| ensures t[i] != t[j] {
      var i', j' := if i < k then i else i + 1, if j < k then j else j + 1;
      assert t[i] == s[i'] && t[j] == s[j'];
    }
  }

  lemma DistinctInsert<T>(s: seq<Node<T>>, k: nat, n: Node<T>)
    requires Distinct(s) && k <= |s| && n !in s
    ensures Distinct(s[..k] + [n] + s[k..])
  {
    var t := s[..k] + [n] + s[k..];
    forall i, j | 0 <= i < j < |t| ensures t[i] != t[j] {
      if i != k && j != k {
        var i', j' := if i < k then i else i - 1, if j < k then j else j - 1;
        assert t[i] == s[i'] && t[j] == s[j'];
      }
    }
  }

  class Node<T> {
    var data: T
    var pre: Node?<T>
    var nxt: Node?<T>

    constructor (v: T)
      ensures data == v && pre == null && nxt == null
    {
      data := v;
      pre := null;
      nxt := null;
    }
  }

  class DoubleList<T> {
    var head: Node?<T>
    var tail: Node?<T>
    var size: nat

    ghost var Contents: seq<T>
    ghost var Nodes: seq<Node<T>>
    ghost var Repr: set<object>

    /** The chain invariant: `nxt` links from head to tail and `pre` links
        from tail to head both follow `Nodes`, and `size` counts them. */
    ghost predicate Valid()
      reads this, Repr
    {
      && this in Repr
      && |Nodes| == |Contents| == size
      && (forall k | 0 <= k < |Nodes| :: Nodes[k] in Repr)
      && (forall k | 0 <= k < |Nodes| :: Nodes[k].data == Contents[k])
      && Distinct(Nodes)
      && head == (if |Nodes| == 0 then null else Nodes[0])
      && tail == (if |Nodes| == 0 then null else Nodes[|Nodes| - 1])
      && (|Nodes| > 0 ==> Nodes[0].pre == null && Nodes[|Nodes| - 1].nxt == null)
      && (forall k | 0 <= k < |Nodes| - 1 :: Nodes[k].nxt == Nodes[k + 1])
      && (forall k | 0 < k < |Nodes| :: Nodes[k].pre == Nodes[k - 1])
    }

    /** The iterator that denotes position `k`; position `|Nodes|` is `end()`. */
    ghost function Pos(k: nat): Node?<T>
      reads this
      requires k <= |Nodes|
    {
      if k < |Nodes| then Nodes[k] else null
    }

    constructor ()
      ensures Valid() && fresh(Repr)
      ensures Contents == [] && head == null && tail == null && size == 0
    {
      head, tail, size := null, null, 0;
      Contents, Nodes, Repr := [], [], {this};
    }

    /** The copy constructor: appends every value of `other`, head to tail. */
    constructor Copy(other: DoubleList<T>)
      requires other.Valid()
      ensures Valid() && fresh(Repr)
      ensures Contents == other.Contents && size == other.size
    {
      head, tail, size := null, null, 0;
      Contents, Nodes, Repr := [], [], {this};
      new;
      var current := other.head;
      ghost var j := 0;
      while current != null
        invariant Valid() && fresh(Repr)
        invariant other.Valid()
        invariant j <= |other.Nodes|
        invariant current == (if j < |other.Nodes| then other.Nodes[j] else null)
        invariant Contents == other.Contents[..j]
        decreases |other.Nodes| - j
      {
        assert current == other.Nodes[j];
        assert current.nxt == (if j < |other.Nodes| - 1 then other.Nodes[j + 1] else null);
        InsertTail(current.data);
        current := current.nxt;
        j := j + 1;
      }
      size := other.size;
    }

    function Begin(): (it: Node?<T>)
      reads this, Repr
      requires Valid()
      ensures it == Pos(0)
    {
      head
    }

    /** `get_tail()`: the last node, or `null` on an empty list. */
    function GetTail(): (it: Node?<T>)
      reads this, Repr
      requires Valid()
      ensures it == if Contents == [] then null else Pos(|Contents| - 1)
    {
      tail
    }

    function End(): (it: Node?<T>)
      reads this, Repr
      requires Valid()
      ensures it == Pos(|Contents|)
    {
      null
    }

    method Empty() returns (b: bool)
      requires Valid()
      ensures b <==> Contents == []
    {
      b := size == 0;
    }

    method Size() returns (n: nat)
      requires Valid()
      ensures n == |Contents|
    {
      n := size;
    }

    method InsertHead(v: T)
      requires Valid()
      modifies Repr
      ensures Valid() && fresh(Repr - old(Repr))
      ensures Contents == [v] + old(Contents) && size == old(size) + 1
    {
      var n := new Node(v);
      if head == null {
        head, tail := n, n;
      } else {
        head.pre := n;
        n.nxt := head;
        head := n;
      }
      size := size + 1;
      Contents, Nodes, Repr := [v] + Contents, [n] + Nodes, Repr + {n};
      assert forall k | 0 <= k < |old(Nodes)| ::
        old(Nodes[k].nxt) == (if k == |old(Nodes)| - 1 then null else old(Nodes[k + 1]));
    }

    method InsertTail(v: T)
      requires Valid()
      modifies Repr
      ensures Valid() && fresh(Repr - old(Repr))
      ensures Contents == old(Contents) + [v] && size == old(size) + 1
    {
      var n := new Node(v);
      if tail == null {
        head, tail := n, n;
      } else {
        tail.nxt := n;
        n.pre := tail;
        tail := n;
      }
      size := size + 1;
      Contents, Nodes, Repr := Contents + [v], Nodes + [n], Repr + {n};
      assert forall k | 0 <= k < |old(Nodes)| ::
        old(Nodes[k].pre) == (if k == 0 then null else old(Nodes[k - 1]));
    }

    /** Removes the first value; does nothing on an empty list. */
    method DeleteHead()
      requires Valid()
      modifies Repr
      ensures Valid() && Repr <= old(Repr)
      ensures old(Contents) == [] ==> Contents == [] && size == 0
      ensures old(Contents) != [] ==> Contents == old(Contents)[1..] && size == old(size) - 1
    {
      if head == null {
        return;
      }
      ghost var s := Nodes;
      assert head == s[0] && head.nxt == (if |s| > 1 then s[1] else null);
      var node := head;
      head := head.nxt;
      if head != null {
        head.pre := null;
      } else {
        tail := null;
      }
      size := size - 1;
      Contents, Nodes, Repr := Contents[1..], Nodes[1..], Repr - {node};
      forall j | 0 <= j < |Nodes| - 1
        ensures Nodes[j].nxt == Nodes[j + 1]
      {
        assert Nodes[j] == s[j + 1] && Nodes[j + 1] == s[j + 2];
      }
      forall j | 0 < j < |Nodes|
        ensures Nodes[j].pre == Nodes[j - 1]
      {
        assert Nodes[j] == s[j + 1] && Nodes[j - 1] == s[j];
      }
    }

    /** Removes the last value; does nothing on an empty list. */
    method DeleteTail()
      requires Valid()
      modifies Repr
      ensures Valid() && Repr <= old(Repr)
      ensures old(Contents) == [] ==> Contents == [] && size == 0
      ensures old(Contents) != [] ==> Contents == old(Contents)[..|old(Contents)| - 1] && size == old(size) - 1
    {
      if tail == null {
        return;
      }
      ghost var s := Nodes;
      assert tail == s[|s| - 1] && tail.pre == (if |s| > 1 then s[|s| - 2] else null);
      var node := tail;
      tail := tail.pre;
      if tail != null {
        tail.nxt := null;
      } else {
        head := null;
      }
      size := size - 1;
      Contents, Nodes, Repr := Contents[..|Contents| - 1], Nodes[..|Nodes| - 1], Repr - {node};
      forall j | 0 <= j < |Nodes| - 1
        ensures Nodes[j].nxt == Nodes[j + 1]
      {
        assert Nodes[j] == s[j] && Nodes[j + 1] == s[j + 1];
      }
      forall j | 0 < j < |Nodes|
        ensures Nodes[j].pre == Nodes[j - 1]
      {
        assert Nodes[j] == s[j] && Nodes[j - 1] == s[j - 1];
      }
    }

    /** Unlinking the node at position `k` (its neighbours now point at each
        other, every other link and value unchanged) keeps the chain valid. */
    twostate lemma EraseValid(k: nat)
      requires old(Valid()) && k < |old(Nodes)|
      requires Nodes == old(Nodes)[..k] + old(Nodes)[k + 1..] && Repr == old(Repr) - {old(Nodes)[k]}
      requires Contents == old(Contents)[..k] + old(Contents)[k + 1..] && size == old(size) - 1
      requires head == (if k == 0 then old(Nodes)[k].nxt else old(head))
      requires tail == (if k == |old(Nodes)| - 1 then old(Nodes)[k].pre else old(tail))
      requires forall j | 0 <= j < |old(Nodes)| :: old(Nodes)[j].data == old(Nodes[j].data)
      requires forall j | 0 <= j < |old(Nodes)| && j != k - 1 :: old(Nodes)[j].nxt == old(Nodes[j].nxt)
      requires forall j | 0 <= j < |old(Nodes)| && j != k + 1 :: old(Nodes)[j].pre == old(Nodes[j].pre)
      requires k > 0 ==> old(Nodes)[k - 1].nxt == old(Nodes[k].nxt)
      requires k < |old(Nodes)| - 1 ==> old(Nodes)[k + 1].pre == old(Nodes[k].pre)
      ensures Valid()
    {
      var s := old(Nodes);
      DistinctRemove(s, k);
      forall j | 0 <= j < |Nodes|
        ensures Nodes[j] == (if j < k then s[j] else s[j + 1])
      {
      }
      forall j | 0 <= j < |Nodes| - 1
        ensures Nodes[j].nxt == Nodes[j + 1]
      {
        if j < k - 1 {
          assert old(s[j].nxt) == s[j + 1];
        } else if j >= k {
          assert old(s[j + 1].nxt) == s[j + 2];
        }
      }
      forall j | 0 < j < |Nodes|
        ensures Nodes[j].pre == Nodes[j - 1]
      {
        if j < k {
          assert old(s[j].pre) == s[j - 1];
        } else if j > k {
          assert old(s[j + 1].pre) == s[j];
        }
      }
    }

    /** Splicing a new node `n` in before position `k` keeps the chain valid. */
    twostate lemma InsertValid(k: nat, new n: Node<T>)
      requires old(Valid()) && k < |old(Nodes)| && n !in old(Repr)
      requires Nodes == old(Nodes)[..k] + [n] + old(Nodes)[k..] && Repr == old(Repr) + {n}
      requires Contents == old(Contents)[..k] + [n.data] + old(Contents)[k..] && size == old(size) + 1
      requires head == (if k == 0 then n else old(head)) && tail == old(tail)
      requires forall j | 0 <= j < |old(Nodes)| :: old(Nodes)[j].data == old(Nodes[j].data)
      requires forall j | 0 <= j < |old(Nodes)| && j != k - 1 :: old(Nodes)[j].nxt == old(Nodes[j].nxt)
      requires forall j | 0 <= j < |old(Nodes)| && j != k :: old(Nodes)[j].pre == old(Nodes[j].pre)
      requires k > 0 ==> old(Nodes)[k - 1].nxt == n
      requires old(Nodes)[k].pre == n && n.nxt == old(Nodes)[k] && n.pre == (if k > 0 then old(Nodes)[k - 1] else null)
      ensures Valid()
    {
      var s := old(Nodes);
      DistinctInsert(s, k, n);
      forall j | 0 <= j < |Nodes|
        ensures Nodes[j] == (if j < k then s[j] else if j == k then n else s[j - 1])
      {
      }
      forall j | 0 <= j < |Nodes| - 1
        ensures Nodes[j].nxt == Nodes[j + 1]
      {
        if j < k - 1 {
          assert old(s[j].nxt) == s[j + 1];
        } else if j > k {
          assert old(s[j - 1].nxt) == s[j];
        }
      }
      forall j | 0 < j < |Nodes|
        ensures Nodes[j].pre == Nodes[j - 1]
      {
        if j < k {
          assert old(s[j].pre) == s[j - 1];
        } else if j > k + 1 {
          assert old(s[j - 1].pre) == s[j - 2];
        }
      }
    }

    /** Unlinks the node at position `k`; `end()` throws.  The result is the
        iterator at the same position afterwards: the old successor. */
    method Erase(pos: Node?<T>, ghost k: nat) returns (r: Result<Node?<T>>)
      requires Valid() && k <= |Nodes| && pos == Pos(k)
      modifies Repr
      ensures Valid() && Repr <= old(Repr)
      ensures r.Throw? <==> k == old(|Contents|)
      ensures r.Throw? ==> Contents == old(Contents) && size == old(size)
      ensures r.Ok? ==> Contents == old(Contents)[..k] + old(Contents)[k + 1..] && size == old(size) - 1
      ensures r.Ok? ==> r == Ok(Pos(k))
    {
      if pos == null {
        return Throw(OutOfRange);
      }
      ghost var s := Nodes;
      assert pos == s[k];
      assert pos.pre == (if k > 0 then s[k - 1] else null);
      assert pos.nxt == (if k < |s| - 1 then s[k + 1] else null);
      var node := pos;
      if node.pre != null {
        node.pre.nxt := node.nxt;
      } else {
        head := node.nxt;
      }
      if node.nxt != null {
        node.nxt.pre := node.pre;
      } else {
        tail := node.pre;
      }
      var next := node.nxt;
      size := size - 1;
      Contents, Nodes, Repr := Contents[..k] + Contents[k + 1..], Nodes[..k] + Nodes[k + 1..], Repr - {node};
      EraseValid(k);
      r := Ok(next);
    }

    /** Links a new node holding `v` just before position `k` (appends at
        `end()`); the result is the new node, now at position `k`. */
    method Insert(pos: Node?<T>, ghost k: nat, v: T) returns (r: Node<T>)
      requires Valid() && k <= |Nodes| && pos == Pos(k)
      modifies Repr
      ensures Valid() && fresh(Repr - old(Repr))
      ensures Contents == old(Contents)[..k] + [v] + old(Contents)[k..] && size == old(size) + 1
      ensures r == Pos(k)
    {
      if pos == null {
        InsertTail(v);
        return tail;
      }
      ghost var s := Nodes;
      assert pos == s[k];
      assert pos.pre == (if k > 0 then s[k - 1] else null);
      var n := new Node(v);
      var current := pos;
      if current.pre != null {
        current.pre.nxt := n;
        n.pre := current.pre;
      } else {
        head := n;
      }
      n.nxt := current;
      current.pre := n;
      size := size + 1;
      Contents, Nodes, Repr := Contents[..k] + [v] + Contents[k..], Nodes[..k] + [n] + Nodes[k..], Repr + {n};
      InsertValid(k, n);
      r := n;
    }

    /** Drops every node, walking the chain from the head. */
    method Clear()
      requires Valid()
      modifies this
      ensures Valid() && Repr == {this}
      ensures Contents == [] && size == 0 && head == null && tail == null
    {
      ghost var s := Nodes;
      ghost var j := 0;
      while head != null
        invariant j <= |s|
        invariant head == (if j < |s| then s[j] else null)
        decreases |s| - j
      {
        assert s[j].nxt == (if j < |s| - 1 then s[j + 1] else null);
        head := head.nxt;
        j := j + 1;
      }
      tail := null;
      size := 0;
      Contents, Nodes, Repr := [], [], {this};
    }

    method Front() returns (r: Result<T>)
      requires Valid()
      ensures r == if Contents == [] then Throw(OutOfRange) else Ok(Contents[0])
    {
      if head == null {
        return Throw(OutOfRange);
      }
      r := Ok(head.data);
    }

    method Back() returns (r: Result<T>)
      requires Valid()
      ensures r == if Contents == [] then Throw(OutOfRange) else Ok(Contents[|Contents| - 1])
    {
      if tail == null {
        return Throw(OutOfRange);
      }
      r := Ok(tail.data);
    }

    /** `*it`: throws on `end()`. */
    method Get(it: Node?<T>, ghost k: nat) returns (r: Result<T>)
      requires Valid() && k <= |Nodes| && it == Pos(k)
      ensures r == if k == |Contents| then Throw(OutOfRange) else Ok(Contents[k])
    {
      if it == null {
        return Throw(OutOfRange);
      }
      r := Ok(it.data);
    }

    /** `++it`: throws on `end()`; otherwise moves to the next position. */
    method Next(it: Node?<T>, ghost k: nat) returns (r: Result<Node?<T>>)
      requires Valid() && k <= |Nodes| && it == Pos(k)
      ensures r.Throw? <==> k == |Nodes|
      ensures r.Ok? ==> r.value == Pos(k + 1)
    {
      if it == null {
        return Throw(OutOfRange);
      }
      assert it == Nodes[k] && it.nxt == Pos(k + 1);
      r := Ok(it.nxt);
    }

    /** `--it`: throws on `end()` and on the first node, since both need a
        current node with a predecessor. */
    method Prev(it: Node?<T>, ghost k: nat) returns (r: Result<Node?<T>>)
      requires Valid() && k <= |Nodes| && it == Pos(k)
      ensures r.Throw? <==> k == 0 || k == |Nodes|
      ensures r.Ok? ==> r.value == Pos(k - 1)
    {
      assert it != null ==> it == Nodes[k] && it.pre == (if k > 0 then Nodes[k - 1] else null);
      if it != null && it.pre != null {
        r := Ok(it.pre);
      } else {
        r := Throw(OutOfRange);
      }
    }
  }
}
