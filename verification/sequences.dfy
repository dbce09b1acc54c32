/** The effect of `insertAfter` on the abstract contents: as the code does it
    and as its documentation promises it, and how the two relate. */
module Sequences {

  /** The position of the first occurrence of `a` in `s`. */
  function FirstIndex<T(==)>(s: seq<T>, a: T): (k: nat)
    requires a in s
    ensures k < |s| && s[k] == a && a !in s[..k]
  {
    if s[0] == a then 0
    else
      var k := FirstIndex(s[1..], a);
      assert s[..k + 1] == [s[0]] + s[1..][..k];
      k + 1
  }

  /** `x` placed at position `k` of `s`, between `s[k - 1]` and `s[k]`. */
  function InsertAt<T>(s: seq<T>, k: nat, x: T): (r: seq<T>)
    requires k <= |s|
    ensures |r| == |s| + 1 && r[k] == x
    ensures r[..k] == s[..k] && r[k + 1..] == s[k..]
  {
    s[..k] + [x] + s[k..]
  }

  /** `r` is `s` with `x` placed right after an occurrence of `a`, the first
      one when `first` holds. */
  predicate PlacedAfter<T(==)>(s: seq<T>, r: seq<T>, x: T, a: T, first: bool) {
    exists k :: 0 < k <= |s| && s[k - 1] == a && (first ==> a !in s[..k - 1]) && r == InsertAt(s, k, x)
  }

  /** The documented behaviour: `x` goes right after the first `a`; when
      there is no `a` nothing changes. */
  function InsertAfterFirst<T(==)>(s: seq<T>, x: T, a: T): (r: seq<T>)
    ensures a !in s ==> r == s
    ensures a in s ==> var k := FirstIndex(s, a);
      |r| == |s| + 1 && r[..k + 1] == s[..k + 1] && r[k + 1] == x && r[k + 2..] == s[k + 1..]
  {
    if a in s then InsertAt(s, FirstIndex(s, a) + 1, x) else s
  }

  /** The code's behaviour: when the last element is `a` the new element is
      appended, whatever comes earlier; otherwise it goes after the first `a`. */
  function InsertAfterAsWritten<T(==)>(s: seq<T>, x: T, a: T): (r: seq<T>)
    ensures a !in s ==> r == s
    ensures a in s ==> |r| == |s| + 1
    ensures a in s && s[|s| - 1] == a ==> r[..|s|] == s && r[|s|] == x
  {
    if a !in s then s
    else if s[|s| - 1] == a then
      assert s + [x] == InsertAt(s, |s|, x);
      s + [x]
    else InsertAfterFirst(s, x, a)
  }

  /** The first occurrence is determined by its two defining facts. */
  lemma {:induction false} FirstIndexUnique<T>(s: seq<T>, a: T, k: nat)
    requires k < |s| && s[k] == a && a !in s[..k]
    ensures FirstIndex(s, a) == k
  {
    if k > 0 {
      assert s[0] in s[..k];
      assert s[1..][..k - 1] == s[1..k];
      assert forall y :: y in s[1..k] ==> y in s[..k];
      FirstIndexUnique(s[1..], a, k - 1);
    }
  }

  /** With the first `a` at position `k`, the documented placement puts `x`
      at position `k + 1`. */
  lemma InsertAfterFirstAt<T>(s: seq<T>, x: T, a: T, k: nat)
    requires k < |s| && s[k] == a && a !in s[..k]
    ensures InsertAfterFirst(s, x, a) == InsertAt(s, k + 1, x)
  {
    FirstIndexUnique(s, a, k);
  }

  /** The documented rule is exactly "right after the first `a`": its result
      is such a placement, and any such placement is its result. */
  lemma InsertAfterFirstIsFirstPlacement<T>(s: seq<T>, r: seq<T>, x: T, a: T)
    requires a in s
    ensures PlacedAfter(s, r, x, a, true) <==> r == InsertAfterFirst(s, x, a)
  {
    var k := FirstIndex(s, a);
    if r == InsertAfterFirst(s, x, a) {
      assert s[k + 1 - 1] == a && s[..k + 1 - 1] == s[..k];
      assert r == InsertAt(s, k + 1, x);
    }
    if PlacedAfter(s, r, x, a, true) {
      var j :| 0 < j <= |s| && s[j - 1] == a && a !in s[..j - 1] && r == InsertAt(s, j, x);
      FirstIndexUnique(s, a, j - 1);
    }
  }

  /** The code, too, always puts `x` right after some `a`. */
  lemma AsWrittenPlacesAfterAnOccurrence<T>(s: seq<T>, x: T, a: T)
    requires a in s
    ensures PlacedAfter(s, InsertAfterAsWritten(s, x, a), x, a, false)
  {
    var r := InsertAfterAsWritten(s, x, a);
    if s[|s| - 1] == a {
      assert r == InsertAt(s, |s|, x);
    } else {
      InsertAfterFirstIsFirstPlacement(s, r, x, a);
    }
  }

  /** Where a scan that checks every element but the last two, and the
      second-to-last only when it gets there, finds the first `a`: at the
      position `j` it stopped at, or else in the last place. */
  lemma FirstAfterScan<T>(c: seq<T>, a: T, j: nat)
    requires a in c && j < |c| - 1 && a !in c[..j]
    requires j < |c| - 2 ==> c[j] == a
    ensures c[j] == a ==> FirstIndex(c, a) == j
    ensures c[j] != a ==> j == |c| - 2 && FirstIndex(c, a) == |c| - 1
  {
    if c[j] == a {
      FirstIndexUnique(c, a, j);
    } else {
      assert c == c[..j] + [c[j], c[j + 1]];
      assert c[..j + 1] == c[..j] + [c[j]];
      FirstIndexUnique(c, a, j + 1);
    }
  }

  /** Inserting after the first `a` puts `x` right behind an `a` with no `a`
      before it, and taking `x` out again gives back `s`. */
  lemma InsertAfterFirstPlacement<T>(s: seq<T>, x: T, a: T)
    requires a in s
    ensures var r := InsertAfterFirst(s, x, a); var k := FirstIndex(s, a);
      && |r| == |s| + 1
      && r[k] == a && r[k + 1] == x && a !in r[..k]
      && r[..k + 1] + r[k + 2..] == s
  {
    var r := InsertAfterFirst(s, x, a);
    var k := FirstIndex(s, a);
    assert r[..k] == s[..k];
    assert r[..k + 1] == s[..k + 1];
    assert r[k + 2..] == s[k + 1..];
    assert s == s[..k + 1] + s[k + 1..];
  }

  /** The code keeps the documented promise unless `a` occurs both last and
      somewhere earlier. */
  lemma AsWrittenAgreesWithoutLateDuplicate<T>(s: seq<T>, x: T, a: T)
    requires a in s
    requires s[|s| - 1] != a || a !in s[..|s| - 1]
    ensures InsertAfterAsWritten(s, x, a) == InsertAfterFirst(s, x, a)
  {
    if s[|s| - 1] == a {
      FirstIndexUnique(s, a, |s| - 1);
      assert s[..|s|] == s;
    }
  }

  /** `[1, 2, 1]` with `insertAfter(9, 1)`: the code appends, the documented
      first-occurrence rule would place 9 after the leading 1. */
  lemma TailShortcutSkipsFirstOccurrence()
    ensures InsertAfterAsWritten([1, 2, 1], 9, 1) == [1, 2, 1, 9]
    ensures InsertAfterFirst([1, 2, 1], 9, 1) == [1, 9, 2, 1]
  {
    FirstIndexUnique([1, 2, 1], 1, 0);
    assert [1, 2, 1][..1] == [1];
    assert [1, 2, 1][1..] == [2, 1];
  }
}
