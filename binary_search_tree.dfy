/**
 * The binary search tree: a uniquely owned recursive node with an optional
 * key and optional left and right subtrees. The empty tree is a root without
 * a key. Keys smaller than a node's key go left, all others (duplicates
 * included) go right.
 *
 * Queries and insertion are pure functions over the `Tree` datatype (with
 * unique ownership, the source's in-place `insert` is a tree-to-tree
 * function); the in-order iterator is a class over an explicit stack.
 */
module BinarySearchTree {
  import opened Wrappers

  datatype Tree = Tree(value: Option<int>, left: Option<Tree>, right: Option<Tree>)

  /** `new`: the empty tree, a root without a key. */
  function New(): (t: Tree)
    ensures Elems(t) == multiset{} && IsSearchTree(t)
  {
    Tree(None, None, None)
  }

  /** The key of a node as a sequence of zero or one values. */
  function Opt(o: Option<int>): seq<int>
  {
    if o.Some? then [o.value] else []
  }

  /** Every key stored in `t`, with duplicates. */
  ghost function Elems(t: Tree): multiset<int>
  {
    (if t.left.Some? then Elems(t.left.value) else multiset{}) +
    (if t.value.Some? then multiset{t.value.value} else multiset{}) +
    (if t.right.Some? then Elems(t.right.value) else multiset{})
  }

  /** The keys of an optional subtree. */
  ghost function ElemsOf(o: Option<Tree>): multiset<int>
  {
    if o.Some? then Elems(o.value) else multiset{}
  }

  /** The keys of `t` in order: left subtree, own key, right subtree. */
  ghost function InOrder(t: Tree): seq<int>
  {
    (if t.left.Some? then InOrder(t.left.value) else []) +
    Opt(t.value) +
    (if t.right.Some? then InOrder(t.right.value) else [])
  }

  /** The in-order keys of an optional subtree. */
  ghost function InOrderOf(o: Option<Tree>): seq<int>
  {
    if o.Some? then InOrder(o.value) else []
  }

  /**
   * The shape every tree built by `new` and `insert` has: a node without a
   * key has no children, and every child holds a key.
   */
  ghost predicate WellFormed(t: Tree)
  {
    (t.value.None? ==> t.left.None? && t.right.None?) &&
    (t.left.Some? ==> t.left.value.value.Some? && WellFormed(t.left.value)) &&
    (t.right.Some? ==> t.right.value.value.Some? && WellFormed(t.right.value))
  }

  /** Every key in a left subtree is smaller than the node's key, every key in a right subtree at least as large. */
  ghost predicate Ordered(t: Tree)
  {
    (t.value.Some? ==>
       (forall x | x in ElemsOf(t.left) :: x < t.value.value) &&
       (forall x | x in ElemsOf(t.right) :: t.value.value <= x)) &&
    (t.left.Some? ==> Ordered(t.left.value)) &&
    (t.right.Some? ==> Ordered(t.right.value))
  }

  ghost predicate IsSearchTree(t: Tree)
  {
    WellFormed(t) && Ordered(t)
  }

  ghost predicate Sorted(s: seq<int>)
  {
    forall i, j :: 0 <= i < j < |s| ==> s[i] <= s[j]
  }

  /** `search`: whether `v` is stored, following the ordering down one path. */
  function Search(t: Tree, v: int): (found: bool)
    ensures found ==> v in Elems(t)
  {
    match t.value
    case None => false
    case Some(key) =>
      if key == v then true
      else if key > v then (if t.left.Some? then Search(t.left.value, v) else false)
      else (if t.right.Some? then Search(t.right.value, v) else false)
  }

  /** On a search tree, `search` finds `v` exactly when `v` is stored. */
  lemma {:induction false} SearchCorrect(t: Tree, v: int)
    requires IsSearchTree(t)
    ensures Search(t, v) <==> v in Elems(t)
  {
    if t.value.Some? {
      var key := t.value.value;
      if key > v {
        assert v !in ElemsOf(t.right);
        if t.left.Some? {
          SearchCorrect(t.left.value, v);
        }
      } else if key < v {
        assert v !in ElemsOf(t.left);
        if t.right.Some? {
          SearchCorrect(t.right.value, v);
        }
      }
    }
  }

  /** A node holding `v` and nothing else. */
  function Leaf(v: int): (t: Tree)
    ensures Elems(t) == multiset{v} && IsSearchTree(t)
  {
    Tree(Some(v), None, None)
  }

  /**
   * `insert`: a tree without a key takes `v` as its key; otherwise `v` goes
   * into the left subtree when smaller than the key and into the right one
   * when not, becoming a new leaf where that subtree is absent.
   */
  function Insert(t: Tree, v: int): (r: Tree)
    ensures Elems(r) == Elems(t) + multiset{v}
    ensures r.value == if t.value.None? then Some(v) else t.value
  {
    match t.value
    case None => Tree(Some(v), t.left, t.right)
    case Some(key) =>
      if v < key then
        var l := if t.left.Some? then Insert(t.left.value, v) else Leaf(v);
        ElemsWithLeft(t, l, v);
        Tree(t.value, Some(l), t.right)
      else
        var g := if t.right.Some? then Insert(t.right.value, v) else Leaf(v);
        ElemsWithRight(t, g, v);
        Tree(t.value, t.left, Some(g))
  }

  /** Replacing the left subtree by one with `v` added adds `v` to the tree. */
  lemma ElemsWithLeft(t: Tree, l: Tree, v: int)
    requires Elems(l) == ElemsOf(t.left) + multiset{v}
    ensures Elems(Tree(t.value, Some(l), t.right)) == Elems(t) + multiset{v}
  {
  }

  /** Replacing the right subtree by one with `v` added adds `v` to the tree. */
  lemma ElemsWithRight(t: Tree, g: Tree, v: int)
    requires Elems(g) == ElemsOf(t.right) + multiset{v}
    ensures Elems(Tree(t.value, t.left, Some(g))) == Elems(t) + multiset{v}
  {
  }

  /** `insert` keeps the shape: on the empty tree it only fills the root, elsewhere it adds a keyed leaf. */
  lemma {:induction false} InsertWellFormed(t: Tree, v: int)
    requires WellFormed(t)
    ensures WellFormed(Insert(t, v))
    ensures t == New() ==> Insert(t, v) == Leaf(v)
  {
    if t.value.Some? {
      if v < t.value.value {
        if t.left.Some? {
          InsertWellFormed(t.left.value, v);
        }
      } else {
        if t.right.Some? {
          InsertWellFormed(t.right.value, v);
        }
      }
    }
  }

  /** `insert` keeps the ordering: smaller keys stay left of each node, the others right. */
  lemma {:induction false} InsertOrdered(t: Tree, v: int)
    requires IsSearchTree(t)
    ensures IsSearchTree(Insert(t, v))
  {
    InsertWellFormed(t, v);
    if t.value.Some? {
      if v < t.value.value {
        if t.left.Some? {
          InsertOrdered(t.left.value, v);
        }
        var l := if t.left.Some? then Insert(t.left.value, v) else Leaf(v);
        OrderedWithLeft(t, l, v);
      } else {
        if t.right.Some? {
          InsertOrdered(t.right.value, v);
        }
        var g := if t.right.Some? then Insert(t.right.value, v) else Leaf(v);
        OrderedWithRight(t, g, v);
      }
    }
  }

  lemma OrderedWithLeft(t: Tree, l: Tree, v: int)
    requires Ordered(t) && t.value.Some? && v < t.value.value
    requires Ordered(l) && Elems(l) == ElemsOf(t.left) + multiset{v}
    ensures Ordered(Tree(t.value, Some(l), t.right))
  {
  }

  lemma OrderedWithRight(t: Tree, g: Tree, v: int)
    requires Ordered(t) && t.value.Some? && t.value.value <= v
    requires Ordered(g) && Elems(g) == ElemsOf(t.right) + multiset{v}
    ensures Ordered(Tree(t.value, t.left, Some(g)))
  {
  }

  /** `r` is the least element of `s`, or None when `s` is empty. */
  ghost predicate IsLeast(r: Option<int>, s: multiset<int>)
  {
    match r
    case None => s == multiset{}
    case Some(m) => m in s && forall x | x in s :: m <= x
  }

  /** `r` is the greatest element of `s`, or None when `s` is empty. */
  ghost predicate IsGreatest(r: Option<int>, s: multiset<int>)
  {
    match r
    case None => s == multiset{}
    case Some(m) => m in s && forall x | x in s :: x <= m
  }

  /** `minimum`: the key of the leftmost node. */
  function Minimum(t: Tree): (r: Option<int>)
    ensures r.Some? ==> r.value in Elems(t)
  {
    if t.left.Some? then Minimum(t.left.value) else t.value
  }

  /** On a search tree `minimum` is the least stored key, None exactly for the empty tree. */
  lemma {:induction false} MinimumCorrect(t: Tree)
    requires IsSearchTree(t)
    ensures IsLeast(Minimum(t), Elems(t))
  {
    if t.left.Some? {
      MinimumCorrect(t.left.value);
    }
  }

  /** `maximum`: the key of the rightmost node. */
  function Maximum(t: Tree): (r: Option<int>)
    ensures r.Some? ==> r.value in Elems(t)
  {
    if t.right.Some? then Maximum(t.right.value) else t.value
  }

  /** On a search tree `maximum` is the greatest stored key, None exactly for the empty tree. */
  lemma {:induction false} MaximumCorrect(t: Tree)
    requires IsSearchTree(t)
    ensures IsGreatest(Maximum(t), Elems(t))
  {
    if t.right.Some? {
      MaximumCorrect(t.right.value);
    }
  }

  /** `r` is the greatest element of `s` not above `v`, or None when there is none. */
  ghost predicate IsFloor(r: Option<int>, s: multiset<int>, v: int)
  {
    match r
    case None => forall x | x in s :: v < x
    case Some(f) => f in s && f <= v && forall x | x in s && x <= v :: x <= f
  }

  /** `r` is the least element of `s` not below `v`, or None when there is none. */
  ghost predicate IsCeil(r: Option<int>, s: multiset<int>, v: int)
  {
    match r
    case None => forall x | x in s :: x < v
    case Some(c) => c in s && v <= c && forall x | x in s && v <= x :: c <= x
  }

  /** `floor`: the greatest stored key `<= v`. */
  function Floor(t: Tree, v: int): (r: Option<int>)
    ensures r.Some? ==> r.value in Elems(t) && r.value <= v
  {
    match t.value
    case None => None
    case Some(key) =>
      if key > v then (if t.left.Some? then Floor(t.left.value, v) else None)
      else if key < v then
        (if t.right.Some? then
           var f := Floor(t.right.value, v);
           if f.Some? then f else Some(key)
         else Some(key))
      else Some(key)
  }

  /** On a search tree `floor(v)` is the greatest stored key not above `v`. */
  lemma {:induction false} FloorCorrect(t: Tree, v: int)
    requires IsSearchTree(t)
    ensures IsFloor(Floor(t, v), Elems(t), v)
  {
    if t.value.Some? {
      var key, l, g := t.value.value, ElemsOf(t.left), ElemsOf(t.right);
      assert Elems(t) == l + multiset{key} + g;
      if key > v {
        if t.left.Some? {
          FloorCorrect(t.left.value, v);
        }
        FloorBelowKey(l, key, g, v, Floor(t, v));
      } else if key < v {
        if t.right.Some? {
          FloorCorrect(t.right.value, v);
        }
        FloorAboveKey(l, key, g, v, if t.right.Some? then Floor(t.right.value, v) else None);
      } else {
        FloorAtKey(l, key, g, v);
      }
    }
  }

  /** The keys `l` of a left subtree lie below `key`, the keys `g` of a right subtree not below it. */
  ghost predicate SplitAt(l: multiset<int>, key: int, g: multiset<int>)
  {
    (forall x | x in l :: x < key) && (forall x | x in g :: key <= x)
  }

  /** Below a node's key the floor can only come from the left subtree. */
  lemma FloorBelowKey(l: multiset<int>, key: int, g: multiset<int>, v: int, r: Option<int>)
    requires SplitAt(l, key, g) && v < key && IsFloor(r, l, v)
    ensures IsFloor(r, l + multiset{key} + g, v)
  {
  }

  /** Above a node's key the floor is the right subtree's floor, or the key itself when there is none. */
  lemma FloorAboveKey(l: multiset<int>, key: int, g: multiset<int>, v: int, f: Option<int>)
    requires SplitAt(l, key, g) && key < v && IsFloor(f, g, v)
    ensures IsFloor(if f.Some? then f else Some(key), l + multiset{key} + g, v)
  {
  }

  lemma FloorAtKey(l: multiset<int>, key: int, g: multiset<int>, v: int)
    requires SplitAt(l, key, g) && key == v
    ensures IsFloor(Some(key), l + multiset{key} + g, v)
  {
  }

  /** `ceil`: the least stored key `>= v`. */
  function Ceil(t: Tree, v: int): (r: Option<int>)
    ensures r.Some? ==> r.value in Elems(t) && v <= r.value
  {
    match t.value
    case None => None
    case Some(key) =>
      if key < v then (if t.right.Some? then Ceil(t.right.value, v) else None)
      else if key > v then
        (if t.left.Some? then
           var c := Ceil(t.left.value, v);
           if c.Some? then c else Some(key)
         else Some(key))
      else Some(key)
  }

  /** On a search tree `ceil(v)` is the least stored key not below `v`. */
  lemma {:induction false} CeilCorrect(t: Tree, v: int)
    requires IsSearchTree(t)
    ensures IsCeil(Ceil(t, v), Elems(t), v)
  {
    if t.value.Some? {
      var key, l, g := t.value.value, ElemsOf(t.left), ElemsOf(t.right);
      assert Elems(t) == l + multiset{key} + g;
      if key < v {
        if t.right.Some? {
          CeilCorrect(t.right.value, v);
        }
        CeilAboveKey(l, key, g, v, Ceil(t, v));
      } else if key > v {
        if t.left.Some? {
          CeilCorrect(t.left.value, v);
        }
        CeilBelowKey(l, key, g, v, if t.left.Some? then Ceil(t.left.value, v) else None);
      } else {
        CeilAtKey(l, key, g, v);
      }
    }
  }

  /** Above a node's key the ceiling can only come from the right subtree. */
  lemma CeilAboveKey(l: multiset<int>, key: int, g: multiset<int>, v: int, r: Option<int>)
    requires SplitAt(l, key, g) && key < v && IsCeil(r, g, v)
    ensures IsCeil(r, l + multiset{key} + g, v)
  {
  }

  /** Below a node's key the ceiling is the left subtree's ceiling, or the key itself when there is none. */
  lemma CeilBelowKey(l: multiset<int>, key: int, g: multiset<int>, v: int, c: Option<int>)
    requires SplitAt(l, key, g) && v < key && IsCeil(c, l, v)
    ensures IsCeil(if c.Some? then c else Some(key), l + multiset{key} + g, v)
  {
  }

  lemma CeilAtKey(l: multiset<int>, key: int, g: multiset<int>, v: int)
    requires SplitAt(l, key, g) && key == v
    ensures IsCeil(Some(key), l + multiset{key} + g, v)
  {
  }

  /** At most one answer meets the floor specification. */
  lemma FloorUnique(r1: Option<int>, r2: Option<int>, s: multiset<int>, v: int)
    requires IsFloor(r1, s, v) && IsFloor(r2, s, v)
    ensures r1 == r2
  {
  }

  /** At most one answer meets the ceil specification. */
  lemma CeilUnique(r1: Option<int>, r2: Option<int>, s: multiset<int>, v: int)
    requires IsCeil(r1, s, v) && IsCeil(r2, s, v)
    ensures r1 == r2
  {
  }

  /** The in-order walk lists exactly the stored keys. */
  lemma {:induction false} InOrderElems(t: Tree)
    ensures multiset(InOrder(t)) == Elems(t)
  {
    if t.left.Some? {
      InOrderElems(t.left.value);
    }
    if t.right.Some? {
      InOrderElems(t.right.value);
    }
  }

  /** Every key the in-order walk lists is stored in the tree. */
  lemma {:induction false} InOrderKeys(t: Tree)
    ensures forall i | 0 <= i < |InOrder(t)| :: InOrder(t)[i] in Elems(t)
  {
    var l, k, g := InOrderOf(t.left), Opt(t.value), InOrderOf(t.right);
    if t.left.Some? {
      InOrderKeys(t.left.value);
    }
    if t.right.Some? {
      InOrderKeys(t.right.value);
    }
    KeysOfParts(l, k, g, ElemsOf(t.left), if t.value.Some? then multiset{t.value.value} else multiset{}, ElemsOf(t.right));
  }

  lemma KeysOfParts(l: seq<int>, k: seq<int>, g: seq<int>, L: multiset<int>, K: multiset<int>, G: multiset<int>)
    requires forall i | 0 <= i < |l| :: l[i] in L
    requires forall i | 0 <= i < |k| :: k[i] in K
    requires forall i | 0 <= i < |g| :: g[i] in G
    ensures forall i | 0 <= i < |l + k + g| :: (l + k + g)[i] in L + K + G
  {
    var s := l + k + g;
    forall i | 0 <= i < |s|
      ensures s[i] in L + K + G
    {
      if i < |l| {
        assert s[i] == l[i];
      } else if i < |l| + |k| {
        assert s[i] == k[i - |l|];
      } else {
        assert s[i] == g[i - |l| - |k|];
      }
    }
  }

  /** On a search tree the in-order walk never decreases. */
  lemma {:induction false} InOrderSorted(t: Tree)
    requires IsSearchTree(t)
    ensures Sorted(InOrder(t))
  {
    if t.value.None? {
      assert InOrder(t) == [];
      return;
    }
    var key, l, g := t.value.value, InOrderOf(t.left), InOrderOf(t.right);
    if t.left.Some? {
      InOrderSorted(t.left.value);
      InOrderKeys(t.left.value);
    }
    if t.right.Some? {
      InOrderSorted(t.right.value);
      InOrderKeys(t.right.value);
    }
    assert forall i | 0 <= i < |l| :: l[i] in ElemsOf(t.left);
    assert forall i | 0 <= i < |g| :: g[i] in ElemsOf(t.right);
    SortedAround(l, key, g);
  }

  /** A sorted run below `key`, then `key`, then a sorted run not below it, is sorted. */
  lemma SortedAround(l: seq<int>, key: int, g: seq<int>)
    requires Sorted(l) && Sorted(g)
    requires forall i | 0 <= i < |l| :: l[i] < key
    requires forall i | 0 <= i < |g| :: key <= g[i]
    ensures Sorted(l + [key] + g)
  {
    var s := l + [key] + g;
    forall i, j | 0 <= i < j < |s|
      ensures s[i] <= s[j]
    {
      if j < |l| {
        assert s[i] == l[i] && s[j] == l[j];
      } else if i > |l| {
        assert s[i] == g[i - |l| - 1] && s[j] == g[j - |l| - 1];
      } else if j == |l| {
        assert s[i] == l[i] && s[j] == key;
      } else if i < |l| {
        assert s[i] == l[i] && s[j] == g[j - |l| - 1];
      } else {
        assert s[i] == key && s[j] == g[j - |l| - 1];
      }
    }
  }

  /** The keys still to come from `stack`: each entry's own key, then its right subtree, from the top down. */
  ghost function Pending(stack: seq<Tree>): seq<int>
  {
    if stack == [] then []
    else
      var t := stack[|stack| - 1];
      Opt(t.value) + InOrderOf(t.right) + Pending(stack[..|stack| - 1])
  }

  /** Pushing `t` puts its key and right subtree in front of what was pending. */
  lemma PendingPush(stack: seq<Tree>, t: Tree)
    ensures Pending(stack + [t]) == Opt(t.value) + InOrderOf(t.right) + Pending(stack)
  {
    assert (stack + [t])[..|stack|] == stack;
  }

  /** Every stacked subtree is well formed, and only the bottom one (the root) may lack a key. */
  ghost predicate StackOk(stack: seq<Tree>)
  {
    (forall i | 0 <= i < |stack| :: WellFormed(stack[i])) &&
    (forall i | 0 < i < |stack| :: stack[i].value.Some?)
  }

  /**
   * One step of `stack_push_left`: pushing the top's left child keeps the
   * stack well formed, and the keys still to come, counting the top's
   * left subtree, stay the same.
   */
  lemma PushLeftStep(below: seq<Tree>, child: Tree)
    requires StackOk(below) && below != [] && below[|below| - 1].left == Some(child)
    ensures StackOk(below + [child])
    ensures InOrderOf(child.left) + Pending(below + [child]) ==
      InOrderOf(below[|below| - 1].left) + Pending(below)
  {
    StackOkPush(below, child);
    PendingPush(below, child);
    Regroup(InOrderOf(child.left), Opt(child.value), InOrderOf(child.right), Pending(below));
  }

  /** Popping the top leaves a good stack; the top's key and right subtree come first. */
  lemma PopStep(stack: seq<Tree>)
    requires StackOk(stack) && stack != []
    ensures StackOk(stack[..|stack| - 1])
    ensures Pending(stack) ==
      Opt(stack[|stack| - 1].value) + InOrderOf(stack[|stack| - 1].right) + Pending(stack[..|stack| - 1])
    ensures stack[|stack| - 1].value.None? <==> Pending(stack) == []
    ensures stack[|stack| - 1].value.None? ==> stack[..|stack| - 1] == [] && stack[|stack| - 1].right.None?
    ensures stack[|stack| - 1].right.Some? ==>
      WellFormed(stack[|stack| - 1].right.value) && stack[|stack| - 1].right.value.value.Some?
  {
    var top, rest := stack[|stack| - 1], stack[..|stack| - 1];
    assert WellFormed(top);
    forall i | 0 <= i < |rest|
      ensures WellFormed(rest[i]) && (i > 0 ==> rest[i].value.Some?)
    {
      assert rest[i] == stack[i];
    }
    if top.value.None? {
      assert |stack| == 1 && rest == [];
    } else {
      assert |Opt(top.value)| == 1;
    }
  }

  /** Pushing a keyed subtree `t`, with its left subtree still to walk, makes all of `t` pending. */
  lemma PushSubtree(rest: seq<Tree>, t: Tree)
    requires StackOk(rest) && WellFormed(t) && t.value.Some?
    ensures StackOk(rest + [t])
    ensures InOrderOf(t.left) + Pending(rest + [t]) == InOrder(t) + Pending(rest)
  {
    StackOkPush(rest, t);
    PendingPush(rest, t);
    Regroup(InOrderOf(t.left), Opt(t.value), InOrderOf(t.right), Pending(rest));
  }

  /** Pushing a keyed, well-formed subtree keeps the stack invariant. */
  lemma StackOkPush(below: seq<Tree>, t: Tree)
    requires StackOk(below) && WellFormed(t) && t.value.Some?
    ensures StackOk(below + [t])
  {
  }

  /** A stack holding just `t`, with its left subtree still to walk, has all of `t` pending. */
  lemma PendingRoot(t: Tree)
    ensures InOrderOf(t.left) + Pending([t]) == InOrder(t)
  {
    PendingPush([], t);
    assert [] + [t] == [t];
    Regroup(InOrderOf(t.left), Opt(t.value), InOrderOf(t.right), []);
  }

  lemma Assoc<X>(x: seq<X>, y: seq<X>, z: seq<X>)
    ensures x + (y + z) == x + y + z
  {
  }

  lemma Regroup(a: seq<int>, b: seq<int>, c: seq<int>, p: seq<int>)
    ensures a + (b + c + p) == (a + b + c) + p
  {
  }

  /**
   * The in-order iterator: a stack of subtrees whose keys and right subtrees
   * are still to come; their left subtrees are consumed or above them on
   * the stack.
   */
  class BinarySearchTreeIter {
    var stack: seq<Tree>

    /** The stack invariant, on the current stack. */
    ghost predicate Valid()
      reads this
    {
      StackOk(stack)
    }

    /** `iter` / `new`: the stack holds the tree and its left spine. */
    constructor (tree: Tree)
      requires WellFormed(tree)
      ensures Valid() && Pending(stack) == InOrder(tree)
      ensures stack != [] && stack[0] == tree && stack[|stack| - 1].left.None?
    {
      stack := [tree];
      new;
      PendingRoot(tree);
      ghost var pushed := StackPushLeft();
      assert stack[0] == ([tree] + pushed)[0];
    }

    /** `stack_push_left`: pushes the left child of the top until the top has none. */
    method StackPushLeft() returns (ghost pushed: seq<Tree>)
      requires Valid() && stack != []
      modifies this
      ensures Valid() && stack != [] && stack[|stack| - 1].left.None?
      ensures stack == old(stack) + pushed
      ensures Pending(stack) == InOrderOf(old(stack)[|old(stack)| - 1].left) + old(Pending(stack))
    {
      ghost var base, target := stack, InOrderOf(stack[|stack| - 1].left) + Pending(stack);
      pushed := [];
      while stack[|stack| - 1].left.Some?
        invariant Valid() && stack != []
        invariant stack == base + pushed
        invariant InOrderOf(stack[|stack| - 1].left) + Pending(stack) == target
        decreases stack[|stack| - 1]
      {
        var below := stack;
        var child := below[|below| - 1].left.value;
        PushLeftStep(below, child);
        Assoc(base, pushed, [child]);
        stack, pushed := below + [child], pushed + [child];
      }
    }

    /** `next`: pops the top, stacks its right subtree's left spine, and yields the popped key. */
    method Next() returns (r: Option<int>)
      requires Valid()
      modifies this
      ensures Valid()
      ensures Opt(r) + Pending(stack) == old(Pending(stack))
      ensures r.None? <==> old(Pending(stack)) == []
      ensures r.None? ==> stack == []
    {
      if stack == [] {
        return None;
      }
      var node, rest := stack[|stack| - 1], stack[..|stack| - 1];
      PopStep(stack);
      stack := rest;
      if node.right.Some? {
        PushSubtree(rest, node.right.value);
        stack := rest + [node.right.value];
        ghost var pushed := StackPushLeft();
        Assoc(Opt(node.value), InOrder(node.right.value), Pending(rest));
      }
      r := node.value;
    }

    /**
     * `n` calls of `next`: they yield the keys that were pending, in order,
     * then None for every further call; once one has yielded None the stack
     * is empty.
     */
    method TakeNext(n: nat) returns (got: seq<Option<int>>)
      requires Valid()
      modifies this
      ensures Valid() && |got| == n
      ensures forall k | 0 <= k < n :: got[k] == Yield(old(Pending(stack)), k)
      ensures n > |old(Pending(stack))| ==> stack == []
    {
      ghost var keys := Pending(stack);
      got := [];
      for i := 0 to n
        invariant Valid() && |got| == i
        invariant forall k | 0 <= k < i :: got[k] == Yield(keys, k)
        invariant Pending(stack) == keys[Passed(keys, i)..]
        invariant i > |keys| ==> stack == []
      {
        ghost var before := Pending(stack);
        var r := Next();
        TakeStep(keys, i, r, before, Pending(stack));
        if i >= |keys| {
          assert r.None?;
          assert stack == [];
        }
        YieldsExtend(keys, got, r);
        got := got + [r];
      }
    }
  }

  /** What the `k`-th call of `next` yields when `keys` were pending. */
  function Yield(keys: seq<int>, k: nat): Option<int>
  {
    if k < |keys| then Some(keys[k]) else None
  }

  /** How many of `keys` the first `i` calls of `next` have yielded. */
  function Passed(keys: seq<int>, i: nat): nat
  {
    if i < |keys| then i else |keys|
  }

  /** The first `|got|` calls yielded `got`; with `r` from the next call, `got + [r]` is right too. */
  lemma YieldsExtend(keys: seq<int>, got: seq<Option<int>>, r: Option<int>)
    requires forall k | 0 <= k < |got| :: got[k] == Yield(keys, k)
    requires r == Yield(keys, |got|)
    ensures forall k | 0 <= k < |got| + 1 :: (got + [r])[k] == Yield(keys, k)
  {
  }

  /** Call `i` of `next`, with `keys` pending at the start, yields `Yield(keys, i)` and passes one more key. */
  lemma TakeStep(keys: seq<int>, i: nat, r: Option<int>, before: seq<int>, after: seq<int>)
    requires before == keys[Passed(keys, i)..]
    requires Opt(r) + after == before && (r.None? <==> before == [])
    ensures r == Yield(keys, i) && after == keys[Passed(keys, i + 1)..]
  {
    NextYieldsFirst(r, before, after);
  }

  /**
   * What one `next` yields, read off its contract: the first pending key,
   * which leaves the rest pending, or None when nothing is pending.
   */
  lemma NextYieldsFirst(r: Option<int>, before: seq<int>, after: seq<int>)
    requires Opt(r) + after == before && (r.None? <==> before == [])
    ensures before == [] ==> r == None && after == []
    ensures before != [] ==> r == Some(before[0]) && after == before[1..]
  {
    if r.Some? {
      assert before[0] == (Opt(r) + after)[0];
      assert before[1..] == (Opt(r) + after)[1..];
    }
  }

  /**
   * Draining `tree.iter()`: calls `next` until it yields None. The keys come
   * out in order, each stored key exactly once, sorted on a search tree.
   */
  method Collect(tree: Tree) returns (keys: seq<int>)
    requires WellFormed(tree)
    ensures keys == InOrder(tree)
    ensures multiset(keys) == Elems(tree)
    ensures IsSearchTree(tree) ==> Sorted(keys)
  {
    var it := new BinarySearchTreeIter(tree);
    keys := [];
    while true
      invariant it.Valid()
      invariant keys + Pending(it.stack) == InOrder(tree)
      decreases |Pending(it.stack)|
    {
      var r := it.Next();
      if r.None? {
        break;
      }
      Assoc(keys, [r.value], Pending(it.stack));
      keys := keys + [r.value];
    }
    InOrderFacts(tree);
  }

  /** The in-order walk is a permutation of the stored keys, sorted on a search tree. */
  lemma InOrderFacts(t: Tree)
    ensures multiset(InOrder(t)) == Elems(t)
    ensures IsSearchTree(t) ==> Sorted(InOrder(t))
  {
    InOrderElems(t);
    if IsSearchTree(t) {
      InOrderSorted(t);
    }
  }
}
