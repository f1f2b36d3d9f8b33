/**
 * The binary-search-tree unit tests of the source, replayed against the
 * model. The string keys of the source's sample tree become integers with
 * the same order (a key's rank among the strings, times ten); each query
 * string that is not stored becomes an integer strictly between the ranks of
 * its stored neighbours, so every comparison the tree makes comes out as
 * it does on the strings.
 *
 *   10 "back away...I will deal with this jedi slime myself"
 *   20 "general kenobi"
 *   30 "hello there"
 *   40 "kill him"
 *   50 "you are a bold one"
 *   60 "you fool"
 *   70 "your move"
 *
 * Queries not stored: 5 "another death star", 15 "but i was going to
 * tasche station" / "... tosche station ...", 43 "only a sith deals in
 * absolutes", 47 "these are not the droids you're looking for",
 * 65 "you underestimate my power", 75 "your new empire".
 */
module BinarySearchTreeScenarios {
  import opened Wrappers
  import opened BinarySearchTree

  /** The sample tree, node by node. */
  const Sample := Tree(Some(30),
                       Some(Tree(Some(20), Some(Tree(Some(10), None, None)), None)),
                       Some(Tree(Some(50), Some(Tree(Some(40), None, None)),
                                 Some(Tree(Some(70), Some(Tree(Some(60), None, None)), None)))))

  /** Inserting the seven keys in the test's order into a new tree builds `Sample`. */
  lemma SampleBuilt()
    ensures Sample == Insert(Insert(Insert(Insert(Insert(Insert(Insert(New(), 30), 20), 50), 40), 10), 70), 60)
  {
  }

  /** `search` finds the five stored keys the test asks for. */
  method SearchStored() returns (found: seq<bool>)
    ensures found == [true, true, true, true, true]
  {
    found := [Search(Sample, 30), Search(Sample, 50), Search(Sample, 20), Search(Sample, 60), Search(Sample, 40)];
  }

  /** `search` finds none of the three keys the test expects to be absent. */
  method SearchAbsent() returns (found: seq<bool>)
    ensures found == [false, false, false]
  {
    found := [Search(Sample, 15), Search(Sample, 43), Search(Sample, 65)];
  }

  /** `maximum` and `minimum` of the sample tree. */
  method MaximumAndMinimumSample() returns (max: Option<int>, min: Option<int>)
    ensures max == Some(70) && min == Some(10)
  {
    max, min := Maximum(Sample), Minimum(Sample);
  }

  /** On an integer tree: none for the empty tree, then 0 / 0, -5 / 0 and -5 / 5 after inserting 0, -5 and 5. */
  method MaximumAndMinimumIntegers() returns (got: seq<(Option<int>, Option<int>)>)
    ensures got == [(None, None), (Some(0), Some(0)), (Some(-5), Some(0)), (Some(-5), Some(5))]
  {
    var t := New();
    got := [(Minimum(t), Maximum(t))];
    t := Insert(t, 0);
    got := got + [(Minimum(t), Maximum(t))];
    t := Insert(t, -5);
    got := got + [(Minimum(t), Maximum(t))];
    t := Insert(t, 5);
    got := got + [(Minimum(t), Maximum(t))];
  }

  /** `floor` of a stored key is that key. */
  method FloorStored() returns (got: seq<Option<int>>)
    ensures got == [Some(30), Some(60)]
  {
    got := [Floor(Sample, 30), Floor(Sample, 60)];
  }

  /** `floor` between two stored keys is the smaller one. */
  method FloorBetween() returns (got: seq<Option<int>>)
    ensures got == [Some(40), Some(10), Some(60)]
  {
    got := [Floor(Sample, 47), Floor(Sample, 15), Floor(Sample, 65)];
  }

  /** `floor` below every key is None, above every key the maximum. */
  method FloorOutside() returns (got: seq<Option<int>>)
    ensures got == [None, Some(70)]
  {
    got := [Floor(Sample, 5), Floor(Sample, 75)];
  }

  /** `ceil` of a stored key is that key. */
  method CeilStored() returns (got: seq<Option<int>>)
    ensures got == [Some(30), Some(60)]
  {
    got := [Ceil(Sample, 30), Ceil(Sample, 60)];
  }

  /** `ceil` between two stored keys is the larger one. */
  method CeilBetween() returns (got: seq<Option<int>>)
    ensures got == [Some(50), Some(20), Some(70)]
  {
    got := [Ceil(Sample, 47), Ceil(Sample, 15), Ceil(Sample, 65)];
  }

  /** `ceil` below every key is the minimum, above every key None. */
  method CeilOutside() returns (got: seq<Option<int>>)
    ensures got == [Some(10), None]
  {
    got := [Ceil(Sample, 5), Ceil(Sample, 75)];
  }

  /** The in-order walk of `Sample` lists its seven keys ascending. */
  lemma SampleInOrder()
    ensures InOrder(Sample) == [10, 20, 30, 40, 50, 60, 70]
  {
  }

  /** Nine calls of `next` over the seven keys: the keys, then None twice. */
  lemma NineYields(got: seq<Option<int>>)
    requires |got| == 9 && forall k | 0 <= k < 9 :: got[k] == Yield([10, 20, 30, 40, 50, 60, 70], k)
    ensures got == [Some(10), Some(20), Some(30), Some(40), Some(50), Some(60), Some(70), None, None]
  {
  }

  /** The iterator yields the seven keys in order, then None, and None again. */
  method IterateSample() returns (got: seq<Option<int>>)
    ensures got == [Some(10), Some(20), Some(30), Some(40), Some(50), Some(60), Some(70), None, None]
  {
    SampleInOrder();
    var it := new BinarySearchTreeIter(Sample);
    got := it.TakeNext(9);
    NineYields(got);
  }
}
