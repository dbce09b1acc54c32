/** Whole-list behaviour built from the operations: `pop` undoing `push`,
    last-in-first-out order from the tail, and the sequential test run of
    `pop` and `insertAfter`. */
module Scenarios {
  import opened Heap
  import opened TailList

  /** `pop` undoes `push`: it hands back the pushed element and leaves the
      chain, and so the contents and the tail reference, as they were. */
  method PushThenPop<T>(l: LinkedList<T>, x: T) returns (l': LinkedList<T>, popped: Option<T>)
    requires Valid(l)
    ensures Valid(l') && popped == Some(x)
    ensures Spine(l') == Spine(l) && Contents(l') == Contents(l)
    ensures l'.head == l.head && l'.tail == l.tail
  {
    var l1, pushed := Push(l, Some(x));
    l', popped := Pop(l1);
    assert Spine(l1)[..|Spine(l1)| - 1] == Spine(l);
  }

  /** A new list after `push(0)`, `push(1)`, ..., `push(n - 1)`: every push
      succeeds and the contents are 0, 1, ..., n - 1 in order. */
  method PushRange(n: nat) returns (l: LinkedList<int>)
    ensures Valid(l) && |Contents(l)| == n
    ensures forall j :: 0 <= j < n ==> Contents(l)[j] == j
  {
    l := Empty<int>();
    var i := 0;
    while i < n
      invariant i <= n && Valid(l)
      invariant |Contents(l)| == i && forall j :: 0 <= j < i ==> Contents(l)[j] == j
    {
      var pushed;
      l, pushed := Push(l, Some(i));
      i := i + 1;
    }
  }

  /** Pushing 0, 1, ..., n - 1 onto a new list and then popping n times
      yields n - 1, n - 2, ..., 0, after which `pop` finds the list empty. */
  method PushAllThenPopAll(n: nat) returns (popped: seq<Option<int>>, after: Option<int>)
    ensures |popped| == n
    ensures forall j :: 0 <= j < n ==> popped[j] == Some(n - 1 - j)
    ensures after == None
  {
    var l := PushRange(n);
    var i := n;
    popped := [];
    while i > 0
      invariant i <= n && Valid(l)
      invariant |Contents(l)| == i && forall j :: 0 <= j < i ==> Contents(l)[j] == j
      invariant |popped| == n - i
      invariant forall j :: 0 <= j < n - i ==> popped[j] == Some(n - 1 - j)
    {
      var r;
      l, r := Pop(l);
      popped := popped + [r];
      i := i - 1;
    }
    l, after := Pop(l);
  }

  /** The first half of the sequential test: push 0..4, then pop twice. */
  method PushFiveThenPopTwo() returns (l: LinkedList<int>, p1: Option<int>, p2: Option<int>)
    ensures p1 == Some(4) && p2 == Some(3)
    ensures Valid(l) && Contents(l) == [0, 1, 2]
  {
    l := PushRange(5);
    assert Contents(l) == [0, 1, 2, 3, 4];
    l, p1 := Pop(l);
    l, p2 := Pop(l);
  }

  /** `insertAfter(3, 0)` on [0, 1, 2]: 3 goes after the leading 0. */
  lemma InsertThreeAfterZero()
    ensures Sequences.InsertAfterAsWritten([0, 1, 2], 3, 0) == [0, 3, 1, 2]
  {
    var s := [0, 1, 2];
    assert s[..0] == [];
    Sequences.InsertAfterFirstAt(s, 3, 0, 0);
    assert s[..1] == [0] && s[1..] == [1, 2];
  }

  /** `insertAfter(20, 1)` on [0, 3, 1, 2]: 20 goes after the 1. */
  lemma InsertTwentyAfterOne()
    ensures Sequences.InsertAfterAsWritten([0, 3, 1, 2], 20, 1) == [0, 3, 1, 20, 2]
  {
    var s := [0, 3, 1, 2];
    assert s[..2] == [0, 3];
    Sequences.InsertAfterFirstAt(s, 20, 1, 2);
    assert s[..3] == [0, 3, 1] && s[3..] == [2];
  }

  /** `insertAfter(4, 2)` on [0, 3, 1, 20, 2]: 2 is last, so 4 is appended. */
  lemma InsertFourAfterTwo()
    ensures Sequences.InsertAfterAsWritten([0, 3, 1, 20, 2], 4, 2) == [0, 3, 1, 20, 2, 4]
  {
    var s := [0, 3, 1, 20, 2];
    assert s[4] == 2;
  }

  /** The sequential test: push 0..4, pop twice, insert the second popped
      value after 0, 20 after 1, 14 after the absent 4, and 4 after the last
      element 2. */
  method SequentialPopTest() returns (l: LinkedList<int>, p1: Option<int>, p2: Option<int>,
                                      r1: Outcome<bool>, r2: Outcome<bool>,
                                      r3: Outcome<bool>, r4: Outcome<bool>)
    ensures p1 == Some(4) && p2 == Some(3)
    ensures r1 == Returned(true) && r2 == Returned(true)
    ensures r3 == Returned(false) && r4 == Returned(true)
    ensures Valid(l) && Contents(l) == [0, 3, 1, 20, 2, 4]
  {
    InsertThreeAfterZero();
    InsertTwentyAfterOne();
    InsertFourAfterTwo();
    assert 4 !in [0, 3, 1, 20, 2];
    l, p1, p2 := PushFiveThenPopTwo();
    l, r1 := InsertAfter(l, p2, Some(0));
    l, r2 := InsertAfter(l, Some(20), Some(1));
    l, r3 := InsertAfter(l, Some(14), Some(4));
    l, r4 := InsertAfter(l, Some(4), Some(2));
  }
}
