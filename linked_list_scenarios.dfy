/**
 * The linked-list unit tests of the source, replayed against the model:
 * each method builds a fresh list, performs the test's calls and promises
 * the values the test asserts.
 */
module LinkedListScenarios {
  import opened Wrappers
  import opened LinkedList

  /** Two tail inserts, then `get(1)` finds the second value (the same steps check `get` on a numeric list). */
  method InsertAtTailThenGet() returns (got: Option<int>)
    ensures got == Some(2)
  {
    var list := new LinkedList<int>();
    list.InsertAtTail(1);
    list.InsertAtTail(2);
    got := list.Get(1);
  }

  /** Two head inserts, then `get(0)` finds the value inserted last. */
  method InsertAtHeadThenGet() returns (got: Option<int>)
    ensures got == Some(2)
  {
    var list := new LinkedList<int>();
    list.InsertAtHead(1);
    list.InsertAtHead(2);
    got := list.Get(0);
  }

  /** Positional inserts at 0 and then at the length put the second value at index 1. */
  method InsertAtIthToTail() returns (got: Option<int>)
    ensures got == Some(2)
  {
    var list := new LinkedList<int>();
    list.InsertAtIth(0, 0);
    list.InsertAtIth(1, 2);
    got := list.Get(1);
  }

  /** Two positional inserts at 0 put the second value at the head. */
  method InsertAtIthToHead() returns (got: Option<int>)
    ensures got == Some(2)
  {
    var list := new LinkedList<int>();
    list.InsertAtIth(0, 1);
    list.InsertAtIth(0, 2);
    got := list.Get(0);
  }

  /** An insert at 1 into [1, 2] goes between them: [1, 3, 2]. */
  method InsertAtIthToMiddle() returns (got1: Option<int>, got2: Option<int>)
    ensures got1 == Some(3) && got2 == Some(2)
  {
    var list := new LinkedList<int>();
    list.InsertAtIth(0, 1);
    list.InsertAtIth(1, 2);
    list.InsertAtIth(1, 3);
    got1, got2 := list.Get(1), list.Get(2);
  }

  /** Four positional inserts, a middle delete and a re-insert give 0, 1, 2, 3. */
  method MiddleInsertDelete() returns (got: seq<Option<int>>)
    ensures got == [Some(0), Some(1), Some(2), Some(3)]
  {
    var list := new LinkedList<int>();
    list.InsertAtIth(0, 0);
    list.InsertAtIth(1, 3);
    list.InsertAtIth(1, 2);
    list.InsertAtIth(1, 1);
    assert list.Contents == [0, 1, 2, 3];
    var _ := list.DeleteIth(2);
    assert list.Contents == [0, 1, 3];
    list.InsertAtIth(2, 2);
    assert list.Contents == [0, 1, 2, 3];
    got := [list.Get(0), list.Get(1), list.Get(2), list.Get(3)];
  }

  /**
   * 100 positional inserts of 0..99, deletes at every even index below 50
   * (which removes 0, 3, 6, ..., 72), then inserts at those indices again:
   * the length goes to 75 and back to 100, and the last 27 values 73..99
   * are never disturbed, so position 78 holds 78.
   */
  method ManyIterations() returns (afterDeletes: nat, afterInserts: nat, got: Option<int>)
    ensures afterDeletes == 75 && afterInserts == 100
    ensures got == Some(78)
  {
    var list := new LinkedList<int>();
    for i := 0 to 100
      invariant list.Valid() && fresh(list.Repr)
      invariant list.length == i
      invariant forall k :: 0 <= k < i ==> list.Contents[k] == k
    {
      list.InsertAtIth(i, i);
    }
    for i := 0 to 50
      invariant list.Valid() && fresh(list.Repr)
      invariant list.length == 100 - (i + 1) / 2
      invariant forall k :: list.length - 27 <= k < list.length ==> list.Contents[k] == k - list.length + 100
    {
      if i % 2 == 0 {
        ghost var before := list.Contents;
        var _ := list.DeleteIth(i);
        SuffixAfterRemoval(before, list.Contents, i);
      }
    }
    afterDeletes := list.length;
    for i := 0 to 50
      invariant list.Valid() && fresh(list.Repr)
      invariant list.length == 75 + (i + 1) / 2
      invariant forall k :: list.length - 27 <= k < list.length ==> list.Contents[k] == k - list.length + 100
    {
      if i % 2 == 0 {
        ghost var before := list.Contents;
        list.InsertAtIth(i, i);
        SuffixAfterInsertion(before, list.Contents, i, i);
      }
    }
    afterInserts := list.length;
    got := list.Get(78);
  }

  /** Removing a value in front of the last `|s| - 1 - i` positions shifts them down by one. */
  lemma SuffixAfterRemoval(s: seq<int>, r: seq<int>, i: nat)
    requires i < |s| && r == s[..i] + s[i + 1..]
    ensures |r| == |s| - 1
    ensures forall k :: i <= k < |r| ==> r[k] == s[k + 1]
  {
    forall k | i <= k < |r|
      ensures r[k] == s[k + 1]
    {
      assert r[k] == s[i + 1..][k - i];
    }
  }

  /** Inserting a value at `i` shifts every later position up by one. */
  lemma SuffixAfterInsertion(s: seq<int>, r: seq<int>, i: nat, x: int)
    requires i <= |s| && r == s[..i] + [x] + s[i..]
    ensures |r| == |s| + 1
    ensures forall k :: i < k < |r| ==> r[k] == s[k - 1]
  {
    forall k | i < k < |r|
      ensures r[k] == s[k - 1]
    {
      assert r[k] == s[i..][k - i - 1];
    }
  }

  /** `delete_tail` on [1, 2] returns 2 and leaves 1 at the front. */
  method DeleteTailScenario() returns (r: Option<int>, got: Option<int>)
    ensures r == Some(2) && got == Some(1)
  {
    var list := new LinkedList<int>();
    list.InsertAtTail(1);
    list.InsertAtTail(2);
    r := list.DeleteTail();
    got := list.Get(0);
  }

  /** `delete_head` on [1, 2] returns 1 and leaves 2 at the front. */
  method DeleteHeadScenario() returns (r: Option<int>, got: Option<int>)
    ensures r == Some(1) && got == Some(2)
  {
    var list := new LinkedList<int>();
    list.InsertAtTail(1);
    list.InsertAtTail(2);
    r := list.DeleteHead();
    got := list.Get(0);
  }

  /**
   * `delete_ith(1)` on [1, 2]: the value and length the test checks are
   * right, but the list of one node still has `tail` on the unlinked node,
   * so `head` and `tail` differ. Dropping the list at the end of the test
   * still releases its one node, since `delete_head` never reads `tail`.
   */
  method DeleteIthAtTailAsWritten() returns (r: Option<int>, length: nat, headIsTail: bool, dropped: nat)
    ensures r == Some(2) && length == 1
    ensures !headIsTail
    ensures dropped == 1
  {
    var list := new LinkedList<int>();
    list.InsertAtTail(1);
    list.InsertAtTail(2);
    list.Anchors();
    r := list.DeleteIth(1);
    length := list.length;
    headIsTail := list.head == list.tail;
    dropped := list.Drop();
  }

  /** The same calls with the corrected `delete_ith`: a list of one node whose head is its tail. */
  method DeleteIthAtTailCorrected() returns (r: Option<int>, length: nat, headIsTail: bool)
    ensures r == Some(2) && length == 1
    ensures headIsTail
  {
    var list := new LinkedList<int>();
    list.InsertAtTail(1);
    list.InsertAtTail(2);
    r := list.DeleteIthCorrected(1);
    length := list.length;
    list.Anchors();
    headIsTail := list.head == list.tail;
  }

  /** `delete_ith(0)` on [1, 2] behaves as `delete_head`. */
  method DeleteIthAtHead() returns (r: Option<int>, length: nat)
    ensures r == Some(1) && length == 1
  {
    var list := new LinkedList<int>();
    list.InsertAtTail(1);
    list.InsertAtTail(2);
    r := list.DeleteIth(0);
    length := list.length;
  }

  /** `delete_ith(1)` on [1, 2, 3] returns 2 and closes the gap. */
  method DeleteIthInMiddle() returns (r: Option<int>, got: Option<int>)
    ensures r == Some(2) && got == Some(3)
  {
    var list := new LinkedList<int>();
    list.InsertAtTail(1);
    list.InsertAtTail(2);
    list.InsertAtTail(3);
    r := list.DeleteIth(1);
    got := list.Get(1);
  }

  /** Three tail inserts give length 3. */
  method NumericListLength() returns (length: nat)
    ensures length == 3
  {
    var list := new LinkedList<int>();
    list.InsertAtTail(1);
    list.InsertAtTail(2);
    list.InsertAtTail(3);
    length := list.length;
  }

  /** `get(1)` on the strings A, B finds B. */
  method GetInStringList() returns (got: Option<string>)
    ensures got == Some("B")
  {
    var list := new LinkedList<string>();
    list.InsertAtTail("A");
    list.InsertAtTail("B");
    got := list.Get(1);
  }

  /** On any list, `insert_at_tail(v)` then `delete_tail()` yields `v` and restores the contents and length. */
  method InsertThenDeleteTail<T>(list: LinkedList<T>, v: T) returns (r: Option<T>)
    requires list.Valid() && list.length < U32_MAX
    modifies list.Repr
    ensures list.Valid()
    ensures r == Some(v) && list.Contents == old(list.Contents) && list.length == old(list.length)
  {
    list.InsertAtTail(v);
    r := list.DeleteTail();
  }

  /** On any list, `insert_at_ith(0, v)` then `get(0)` finds `v`. */
  method InsertAtZeroThenGet<T>(list: LinkedList<T>, v: T) returns (got: Option<T>)
    requires list.Valid() && list.length < U32_MAX
    modifies list.Repr
    ensures list.Valid() && got == Some(v)
  {
    list.InsertAtIth(0, v);
    got := list.Get(0);
  }

  /** A list of the strings A, B, C has length 3 and displays as "A, B, C". */
  method DisplayStrings() returns (length: nat, shown: string)
    ensures length == 3 && shown == "A, B, C"
  {
    var list := new LinkedList<string>();
    list.InsertAtTail("A");
    list.InsertAtTail("B");
    list.InsertAtTail("C");
    length := list.length;
    shown := list.Fmt(s => s);
    var parts := Shown(list.Contents, s => s);
    assert parts == ["A", "B", "C"];
    assert Join(parts[2..]) == "C";
    assert Join(parts[1..]) == "B, C";
  }
}
