/**
 * The doubly-linked list engine: heap-allocated nodes with `next`/`prev`
 * links, and a list object holding `head`, `tail` and a `u32` length.
 *
 * The abstract view is the ghost sequence `nodes` of the nodes in chain order
 * and the ghost sequence `Contents` of their values; `Repr` is the list object
 * together with every node it currently owns. Releasing a node is modelled
 * by dropping it from `nodes` and `Repr`.
 */
module LinkedList {
  import opened Wrappers

  /** Largest value of the source's `u32` length counter. */
  const U32_MAX: nat := 0xFFFF_FFFF

  /** A list node: a value and the links to its neighbours. */
  class Node<T> {
    var val: T
    var next: Node?<T>
    var prev: Node?<T>

    /** A detached node holding `t`. */
    constructor (t: T)
      ensures val == t && next == null && prev == null
    {
      val := t;
      prev := null;
      next := null;
    }
  }

  /** The value of each part rendered by `show`, in order. */
  function Shown<T>(xs: seq<T>, show: T -> string): (parts: seq<string>)
    ensures |parts| == |xs|
    ensures forall i :: 0 <= i < |xs| ==> parts[i] == show(xs[i])
  {
    if xs == [] then [] else [show(xs[0])] + Shown(xs[1..], show)
  }

  /** The parts separated by ", ", the empty string for no parts. */
  function Join(parts: seq<string>): string
  {
    if parts == [] then ""
    else if |parts| == 1 then parts[0]
    else parts[0] + ", " + Join(parts[1..])
  }

  /** `s` with `x` placed at position `i`. */
  function Inserted<X>(s: seq<X>, i: nat, x: X): (r: seq<X>)
    requires i <= |s|
    ensures |r| == |s| + 1 && r[i] == x
    ensures forall k {:trigger r[k]} :: 0 <= k < i ==> r[k] == s[k]
    ensures forall k {:trigger r[k]} :: i < k < |r| ==> r[k] == s[k - 1]
  {
    s[..i] + [x] + s[i..]
  }

  /** `s` without its element at position `i`. */
  function Removed<X>(s: seq<X>, i: nat): (r: seq<X>)
    requires i < |s|
    ensures |r| == |s| - 1
    ensures forall k {:trigger r[k]} :: 0 <= k < i ==> r[k] == s[k]
    ensures forall k {:trigger r[k]} :: i <= k < |r| ==> r[k] == s[k + 1]
  {
    s[..i] + s[i + 1..]
  }

  /** No element occurs twice in `s`. */
  ghost predicate Distinct<X>(s: seq<X>)
  {
    forall i, j :: 0 <= i < j < |s| ==> s[i] != s[j]
  }

  class LinkedList<T> {
    var length: nat
    var head: Node?<T>
    var tail: Node?<T>

    /** The nodes in chain order, from `head` along `next`. */
    ghost var nodes: seq<Node<T>>
    /** The values held by `nodes`, in the same order. */
    ghost var Contents: seq<T>
    ghost var Repr: set<object>

    /**
     * Everything of the list invariant except `tail`: the nodes are owned,
     * `next` and `prev` link each node to its neighbours in `nodes` (null
     * past either end), the nodes hold `Contents`, `length` counts them and
     * `head` is the first.
     */
    ghost predicate Linked()
      reads this, Repr
    {
      this in Repr &&
      (forall i :: 0 <= i < |nodes| ==> nodes[i] in Repr) &&
      |nodes| == |Contents| == length <= U32_MAX &&
      (forall i {:trigger nodes[i].val} :: 0 <= i < |nodes| ==> nodes[i].val == Contents[i]) &&
      (forall i {:trigger nodes[i].next} :: 0 <= i < |nodes| ==>
         nodes[i].next == if i + 1 < |nodes| then nodes[i + 1] else null) &&
      (forall i {:trigger nodes[i].prev} :: 0 <= i < |nodes| ==>
         nodes[i].prev == if i == 0 then null else nodes[i - 1]) &&
      head == if nodes == [] then null else nodes[0]
    }

    /** The list invariant: the chain is linked and `tail` is its last node. */
    ghost predicate Valid()
      reads this, Repr
    {
      Linked() &&
      tail == if nodes == [] then null else nodes[|nodes| - 1]
    }

    /** `new`: the empty list. */
    constructor ()
      ensures Valid() && fresh(Repr)
      ensures Contents == [] && length == 0 && head == null && tail == null
    {
      length := 0;
      head := null;
      tail := null;
      nodes, Contents, Repr := [], [], {this};
    }

    /** Valid() read at the anchors: the empty list has neither head nor tail. */
    lemma Anchors()
      requires Valid()
      ensures length == 0 <==> head == null
      ensures length == 0 <==> tail == null
      ensures length == 1 ==> head == tail
      ensures head != null ==> head.prev == null
      ensures tail != null ==> tail.next == null
      ensures length > 0 ==> GetIthNode(head, length - 1, 0) == tail
      ensures GetIthNode(head, length, 0) == null
    {
    }

    /**
     * Walking `prev` back from two occurrences of one node would reach the
     * head from the earlier one and a node with a predecessor from the later
     * one: a linked chain never repeats a node.
     */
    lemma {:induction false} NoRepeat(i: nat, j: nat)
      requires Linked() && i < j < |nodes|
      ensures nodes[i] != nodes[j]
      decreases i
    {
      assert nodes[i].prev == (if i == 0 then null else nodes[i - 1]);
      assert nodes[j].prev == nodes[j - 1];
      if i > 0 {
        NoRepeat(i - 1, j - 1);
      }
    }

    lemma NodesDistinct()
      requires Linked()
      ensures Distinct(nodes)
    {
      forall i, j | 0 <= i < j < |nodes|
        ensures nodes[i] != nodes[j]
      {
        NoRepeat(i, j);
      }
    }

    /**
     * Splicing `node` in at position `i` keeps the chain linked, given the
     * link writes of the source: `node` points at its two neighbours, they
     * point back at it, and no other link or value of an old node changed.
     */
    twostate lemma SpliceLinked(i: nat, new node: Node<T>)
      requires old(Linked()) && Distinct(old(nodes)) && i <= |old(nodes)|
      requires nodes == Inserted(old(nodes), i, node) && Contents == Inserted(old(Contents), i, node.val)
      requires Repr == old(Repr) + {node} && length == old(length) + 1 <= U32_MAX
      requires head == if i == 0 then node else old(head)
      requires node.next == (if i < |old(nodes)| then old(nodes)[i] else null)
      requires node.prev == (if i > 0 then old(nodes)[i - 1] else null)
      requires i > 0 ==> old(nodes)[i - 1].next == node
      requires i < |old(nodes)| ==> old(nodes)[i].prev == node
      requires forall k {:trigger old(nodes)[k].val} :: 0 <= k < |old(nodes)| ==> old(nodes)[k].val == old(nodes[k].val)
      requires forall k {:trigger old(nodes)[k].next} :: 0 <= k < |old(nodes)| && (i == 0 || old(nodes)[k] != old(nodes)[i - 1]) ==>
        old(nodes)[k].next == old(nodes[k].next)
      requires forall k {:trigger old(nodes)[k].prev} :: 0 <= k < |old(nodes)| && (i == |old(nodes)| || old(nodes)[k] != old(nodes)[i]) ==>
        old(nodes)[k].prev == old(nodes[k].prev)
      ensures Linked()
    {
      var ns := old(nodes);
      forall k | 0 <= k < |nodes|
        ensures nodes[k] in Repr && nodes[k].val == Contents[k]
      {
        if k != i {
          var k' := if k < i then k else k - 1;
          assert nodes[k] == ns[k'] && old(ns[k'] in Repr) && Contents[k] == old(Contents[k']);
        }
      }
      forall k | 0 <= k < |nodes|
        ensures nodes[k].next == if k + 1 < |nodes| then nodes[k + 1] else null
      {
        if k + 1 < i {
          assert nodes[k] == ns[k] && ns[k] != ns[i - 1] && nodes[k + 1] == ns[k + 1];
          assert old(ns[k].next) == ns[k + 1];
        } else if k > i {
          assert nodes[k] == ns[k - 1] && (i == 0 || ns[k - 1] != ns[i - 1]);
          assert old(ns[k - 1].next) == if k < |ns| then ns[k] else null;
        }
      }
      forall k | 0 <= k < |nodes|
        ensures nodes[k].prev == if k == 0 then null else nodes[k - 1]
      {
        if k < i {
          assert nodes[k] == ns[k] && (i == |ns| || ns[k] != ns[i]);
          assert old(ns[k].prev) == if k == 0 then null else ns[k - 1];
        } else if k > i + 1 {
          assert nodes[k] == ns[k - 1] && ns[k - 1] != ns[i] && nodes[k - 1] == ns[k - 2];
          assert old(ns[k - 1].prev) == ns[k - 2];
        }
      }
    }

    /**
     * Unlinking the node at position `i` keeps the rest of the chain linked,
     * given the link writes of the source: its neighbours point past it at
     * each other, and no other link or value of a remaining node changed.
     */
    twostate lemma UnlinkLinked(i: nat)
      requires old(Linked()) && Distinct(old(nodes)) && i < |old(nodes)|
      requires nodes == Removed(old(nodes), i) && Contents == Removed(old(Contents), i)
      requires Repr == old(Repr) - {old(nodes)[i]} && length == old(length) - 1
      requires head == if i == 0 then (if 1 < |old(nodes)| then old(nodes)[1] else null) else old(head)
      requires i > 0 ==> old(nodes)[i - 1].next == (if i + 1 < |old(nodes)| then old(nodes)[i + 1] else null)
      requires i + 1 < |old(nodes)| ==> old(nodes)[i + 1].prev == (if i > 0 then old(nodes)[i - 1] else null)
      requires forall k {:trigger old(nodes)[k].val} :: 0 <= k < |old(nodes)| ==> old(nodes)[k].val == old(nodes[k].val)
      requires forall k {:trigger old(nodes)[k].next} :: 0 <= k < |old(nodes)| && (i == 0 || old(nodes)[k] != old(nodes)[i - 1]) ==>
        old(nodes)[k].next == old(nodes[k].next)
      requires forall k {:trigger old(nodes)[k].prev} :: 0 <= k < |old(nodes)| && (i + 1 == |old(nodes)| || old(nodes)[k] != old(nodes)[i + 1]) ==>
        old(nodes)[k].prev == old(nodes[k].prev)
      ensures Linked()
    {
      var ns := old(nodes);
      forall k | 0 <= k < |nodes|
        ensures nodes[k] in Repr && nodes[k].val == Contents[k]
      {
        var k' := if k < i then k else k + 1;
        assert nodes[k] == ns[k'] && ns[k'] != ns[i] && old(ns[k'] in Repr) && Contents[k] == old(Contents[k']);
      }
      forall k | 0 <= k < |nodes|
        ensures nodes[k].next == if k + 1 < |nodes| then nodes[k + 1] else null
      {
        if k + 1 < i {
          assert nodes[k] == ns[k] && ns[k] != ns[i - 1] && nodes[k + 1] == ns[k + 1];
          assert old(ns[k].next) == ns[k + 1];
        } else if k >= i {
          assert nodes[k] == ns[k + 1] && (i == 0 || ns[k + 1] != ns[i - 1]);
          assert old(ns[k + 1].next) == if k + 2 < |ns| then ns[k + 2] else null;
        }
      }
      forall k | 0 <= k < |nodes|
        ensures nodes[k].prev == if k == 0 then null else nodes[k - 1]
      {
        if k < i {
          assert nodes[k] == ns[k] && (i + 1 == |ns| || ns[k] != ns[i + 1]);
          assert old(ns[k].prev) == if k == 0 then null else ns[k - 1];
        } else if k > i {
          assert nodes[k] == ns[k + 1] && ns[k + 1] != ns[i + 1] && nodes[k - 1] == ns[k];
          assert old(ns[k + 1].prev) == ns[k];
        }
      }
    }

    method InsertAtHead(obj: T)
      requires Valid() && length < U32_MAX
      modifies Repr
      ensures Valid() && fresh(Repr - old(Repr))
      ensures Contents == [obj] + old(Contents) && length == old(length) + 1
      ensures Repr == old(Repr) + {head} && fresh(head)
      ensures old(length) == 0 ==> head == tail
    {
      NodesDistinct();
      var node := new Node(obj);
      node.next := head;
      node.prev := null;
      if head != null {
        head.prev := node;
      } else {
        tail := node;
      }
      head, length := node, length + 1;
      nodes, Contents, Repr := Inserted(nodes, 0, node), Inserted(Contents, 0, obj), Repr + {node};
      SpliceLinked(0, node);
    }

    method InsertAtTail(obj: T)
      requires Valid() && length < U32_MAX
      modifies Repr
      ensures Valid() && fresh(Repr - old(Repr))
      ensures Contents == old(Contents) + [obj] && length == old(length) + 1
      ensures Repr == old(Repr) + {tail} && fresh(tail)
      ensures old(length) == 0 ==> head == tail
    {
      NodesDistinct();
      var node := new Node(obj);
      node.next := null;
      node.prev := tail;
      if tail != null {
        tail.next := node;
      } else {
        head := node;
      }
      tail, length := node, length + 1;
      nodes, Contents, Repr := Inserted(nodes, |nodes|, node), Inserted(Contents, |Contents|, obj), Repr + {node};
      SpliceLinked(|old(nodes)|, node);
    }

    /** Splices a node holding `obj` in front of the `index`-th node; the source panics for `index > length`. */
    method InsertAtIth(index: nat, obj: T)
      requires Valid() && index <= length && length < U32_MAX
      modifies Repr
      ensures Valid() && fresh(Repr - old(Repr))
      ensures Contents == old(Contents)[..index] + [obj] + old(Contents)[index..]
      ensures length == old(length) + 1
      ensures Repr == old(Repr) + {nodes[index]} && fresh(nodes[index])
    {
      if index == 0 || head == null {
        InsertAtHead(obj);
        assert nodes[index] == head;
        return;
      }
      if index == length {
        InsertAtTail(obj);
        assert nodes[index] == tail;
        return;
      }
      NodesDistinct();
      var ith := WalkTo(index);
      var node := new Node(obj);
      node.prev := ith.prev;
      node.next := ith;
      // index >= 1, so the node at index has a predecessor: the source's
      // silent no-op for a missing predecessor is unreachable
      var p := ith.prev;
      assert p == nodes[index - 1];
      p.next := node;
      ith.prev := node;
      length := length + 1;
      nodes, Contents, Repr := Inserted(nodes, index, node), Inserted(Contents, index, obj), Repr + {node};
      SpliceLinked(index, node);
    }

    /**
     * The `for _ in 0..index` walk of `insert_at_ith` and `delete_ith`:
     * follows `next` from `head` `index` times. Its panic on a missing
     * successor cannot fire, since `index < length`.
     */
    method WalkTo(index: nat) returns (ith: Node<T>)
      requires Linked() && index < length
      ensures ith == nodes[index]
    {
      ith := head;
      for k := 0 to index
        invariant ith == nodes[k]
      {
        ith := ith.next;
      }
    }

    /**
     * `delete_head`. It never reads `tail`, so it asks only for a linked
     * chain; it keeps Valid() when it had it, and clears `tail` when it
     * removes the last node.
     */
    method DeleteHead() returns (r: Option<T>)
      requires Linked()
      modifies Repr
      ensures Linked() && Repr <= old(Repr)
      ensures old(Valid()) ==> Valid()
      ensures old(length) == 1 ==> tail == null
      ensures old(length) == 0 ==> r == None && Contents == old(Contents) && length == 0
      ensures old(length) > 0 ==>
        r == Some(old(Contents)[0]) && Contents == old(Contents)[1..] && length == old(length) - 1
      ensures old(length) > 0 ==> nodes == old(nodes)[1..] && Repr == old(Repr) - {old(head)}
      ensures old(length) == 0 ==>
        Repr == old(Repr) && nodes == old(nodes) && head == old(head) && tail == old(tail)
    {
      if length == 0 {
        return None;
      }
      NodesDistinct();
      var oldHead := head;
      if oldHead.next != null {
        oldHead.next.prev := null;
      } else {
        tail := null;
      }
      head := oldHead.next;
      // the source's fallback to 0 when the decrement would underflow is never reached here: length > 0
      length := length - 1;
      r := Some(oldHead.val);
      nodes, Contents, Repr := Removed(nodes, 0), Removed(Contents, 0), Repr - {oldHead};
      UnlinkLinked(0);
    }

    method DeleteTail() returns (r: Option<T>)
      requires Valid()
      modifies Repr
      ensures Valid() && Repr <= old(Repr)
      ensures old(length) == 0 ==> r == None && Contents == old(Contents) && length == 0
      ensures old(length) > 0 ==>
        r == Some(old(Contents)[old(length) - 1]) &&
        Contents == old(Contents)[..old(length) - 1] && length == old(length) - 1
      ensures old(length) > 0 ==> nodes == old(nodes)[..old(length) - 1] && Repr == old(Repr) - {old(tail)}
      ensures old(length) == 0 ==>
        Repr == old(Repr) && nodes == old(nodes) && head == old(head) && tail == old(tail)
    {
      if tail == null {
        return None;
      }
      NodesDistinct();
      var oldTail := tail;
      if oldTail.prev != null {
        oldTail.prev.next := null;
      } else {
        head := null;
      }
      tail := oldTail.prev;
      length := length - 1;
      r := Some(oldTail.val);
      nodes, Contents, Repr := Removed(nodes, |nodes| - 1), Removed(Contents, |Contents| - 1), Repr - {oldTail};
      UnlinkLinked(|old(nodes)| - 1);
    }

    /**
     * `delete_ith` as the source writes it. For `0 < index == length - 1`
     * the middle path unlinks the last node but leaves `tail` on it, so the
     * chain stays linked while Valid() is lost.
     */
    method DeleteIth(index: nat) returns (r: Option<T>)
      requires Valid() && index <= length
      modifies Repr
      ensures Linked() && Repr <= old(Repr)
      ensures Valid() <==> !(0 < index == old(length) - 1)
      ensures 0 < index == old(length) - 1 ==> tail == old(tail) && tail !in Repr
      ensures old(length) == 0 ==> r == None && Contents == old(Contents) && length == 0
      ensures old(length) > 0 ==>
        var j := if index == old(length) then index - 1 else index;
        r == Some(old(Contents)[j]) &&
        Contents == old(Contents)[..j] + old(Contents)[j + 1..] && length == old(length) - 1
      ensures old(length) > 0 ==>
        var j := if index == old(length) then index - 1 else index;
        nodes == old(nodes)[..j] + old(nodes)[j + 1..] && Repr == old(Repr) - {old(nodes)[j]}
    {
      if index == 0 || head == null {
        r := DeleteHead();
        return;
      }
      if length == index {
        r := DeleteTail();
        return;
      }
      NodesDistinct();
      var ith := WalkTo(index);
      if ith.prev != null {
        ith.prev.next := ith.next;
      }
      if ith.next != null {
        ith.next.prev := ith.prev;
      }
      length := length - 1;
      r := Some(ith.val);
      nodes, Contents, Repr := Removed(nodes, index), Removed(Contents, index), Repr - {ith};
      UnlinkLinked(index);
    }

    /** `delete_ith` with `tail` moved to the predecessor when the last node is unlinked. */
    method DeleteIthCorrected(index: nat) returns (r: Option<T>)
      requires Valid() && index <= length
      modifies Repr
      ensures Valid() && Repr <= old(Repr)
      ensures old(length) == 0 ==> r == None && Contents == old(Contents) && length == 0
      ensures old(length) > 0 ==>
        var j := if index == old(length) then index - 1 else index;
        r == Some(old(Contents)[j]) &&
        Contents == old(Contents)[..j] + old(Contents)[j + 1..] && length == old(length) - 1
      ensures old(length) > 0 ==>
        var j := if index == old(length) then index - 1 else index;
        nodes == old(nodes)[..j] + old(nodes)[j + 1..] && Repr == old(Repr) - {old(nodes)[j]}
    {
      if index == 0 || head == null {
        r := DeleteHead();
        return;
      }
      if length == index {
        r := DeleteTail();
        return;
      }
      NodesDistinct();
      var ith := WalkTo(index);
      if ith.prev != null {
        ith.prev.next := ith.next;
      }
      if ith.next != null {
        ith.next.prev := ith.prev;
      } else {
        tail := ith.prev;
      }
      length := length - 1;
      r := Some(ith.val);
      nodes, Contents, Repr := Removed(nodes, index), Removed(Contents, index), Repr - {ith};
      UnlinkLinked(index);
    }

    /** `get_ith_node`: walks `next` from `node` (the `k`-th node, or null past the end) `index` times. */
    function GetIthNode(node: Node?<T>, index: int, ghost k: nat): (r: Node?<T>)
      reads this, Repr
      requires Linked() && k <= |nodes|
      requires node == if k < |nodes| then nodes[k] else null
      ensures r == if 0 <= index < |nodes| - k then nodes[k + index] else null
      decreases |nodes| - k
    {
      if node == null then null
      else if index == 0 then node
      else GetIthNode(node.next, index - 1, k + 1)
    }

    /** `get`: the value at `index`, absent for a negative or too large index. */
    function Get(index: int): (r: Option<T>)
      reads this, Repr
      requires Linked()
      ensures r == if 0 <= index < |Contents| then Some(Contents[index]) else None
    {
      var n := GetIthNode(head, index, 0);
      if n == null then None else Some(n.val)
    }

    /** `Display` for a node: its value, then ", " and the rest of the chain. */
    function FmtNode(node: Node<T>, ghost k: nat, show: T -> string): (s: string)
      reads this, Repr
      requires Linked() && k < |nodes| && node == nodes[k]
      ensures s == Join(Shown(Contents[k..], show))
      decreases |nodes| - k
    {
      if node.next == null then show(node.val)
      else show(node.val) + ", " + FmtNode(node.next, k + 1, show)
    }

    /** `Display` for the list: the values joined by ", ", empty for the empty list. */
    function Fmt(show: T -> string): (s: string)
      reads this, Repr
      requires Linked()
      ensures s == Join(Shown(Contents, show))
    {
      if head == null then "" else FmtNode(head, 0, show)
    }

    /** `Drop`: deletes the head until `delete_head` reports the list empty. */
    method Drop() returns (calls: nat)
      requires Linked() && (length == 0 ==> tail == null)
      modifies Repr
      ensures Valid() && Contents == [] && length == 0 && head == null && tail == null
      ensures forall k :: 0 <= k < |old(nodes)| ==> old(nodes)[k] !in Repr
      ensures calls == old(length)
    {
      calls := 0;
      while true
        invariant Linked() && (length == 0 ==> tail == null) && Repr <= old(Repr)
        invariant calls + length == old(length)
        invariant Contents == old(Contents)[calls..] && nodes == old(nodes)[calls..]
        invariant forall k :: 0 <= k < calls ==> old(nodes)[k] !in Repr
        decreases length
      {
        var r := DeleteHead();
        if r.None? {
          break;
        }
        calls := calls + 1;
      }
    }
  }
}
