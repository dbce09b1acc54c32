/** The operations of the tail list, `push`, `pop` and `insertAfter` with
    the `contains` scan they use, run one at a time.

    Each source operation is a retry loop around compare-and-swap steps.
    With no other thread about, every compare sees the value it expects, so
    the first pass through the loop always finishes: the branches that would
    retry (a failed CAS, a null cursor, `continue outer`) or help a lagging
    tail forward are shown unreachable by asserting the fact that rules them
    out at the point the source tests it. */
module TailList {
  import opened Heap
  import opened Sequences
  import Edits

  /** What a call gives back: a value, or the `IllegalArgumentException`
      thrown for a null argument. */
  datatype Outcome<R> = Returned(value: R) | ThrewIllegalArgument

  /** The last two steps of `push`: link `n` after the tail, then move the
      tail reference to it. */
  method AppendNode<T>(l: LinkedList<T>, n: Ref) returns (l': LinkedList<T>)
    requires Valid(l)
    requires n in l.nodes && n !in Spine(l)
    requires l.nodes[n].element.Some? && l.nodes[n].next == None
    ensures Valid(l') && l'.head == l.head && l'.tail == n && l'.nodes[n].next == None
    ensures l'.nodes.Keys == l.nodes.Keys
    ensures Spine(l') == Spine(l) + [n]
    ensures Contents(l') == Contents(l) + [l.nodes[n].element.value]
    ensures SameExcept(l, l', l.tail)
  {
    var oldTail := l.tail;
    var nullEnd := l.nodes[oldTail].next;
    // A successor here would mean another thread's append is half done, and
    // the code would help it by advancing the tail; alone, the tail is last.
    assert nullEnd == None;
    var linked;
    linked, l' := CasNext(l, oldTail, nullEnd, Some(n));
    // Nothing can change the tail's `next` in between, so no retry.
    assert linked;
    var moved;
    moved, l' := CasTail(l', oldTail, n);
    assert moved;
    Edits.LinkAtTail(l, l', n);
  }

  /** `push(elem)`: appends `elem` at the end; null is refused. */
  method Push<T>(l: LinkedList<T>, elem: Option<T>) returns (l': LinkedList<T>, res: Outcome<bool>)
    requires Valid(l)
    ensures Valid(l') && l'.head == l.head
    ensures elem.None? ==> res == ThrewIllegalArgument && l' == l
    ensures elem.Some? ==>
      && res == Returned(true)
      && Contents(l') == Contents(l) + [elem.value]
      && l'.tail !in l.nodes && l'.nodes[l'.tail] == Node(elem, None)
      && l'.nodes.Keys == l.nodes.Keys + {l'.tail}
      && Spine(l') == Spine(l) + [l'.tail]
      && SameExcept(l, l', l.tail)
  {
    if elem.None? {
      return l, ThrewIllegalArgument;
    }
    var l1, n := Alloc(l, elem);
    Edits.OffChainChange(l, l1);
    l' := AppendNode(l1, n);
    res := Returned(true);
  }

  /** The two-cursor walk of `pop`: `left` trails `right` by one node from
      the sentinel until `right` reaches the tail. */
  method FindLastTwo<T>(l: LinkedList<T>) returns (left: Ref, right: Ref)
    requires Valid(l) && l.nodes[l.head].next.Some?
    ensures |Spine(l)| >= 2
    ensures left == Spine(l)[|Spine(l)| - 2] && right == Spine(l)[|Spine(l)| - 1]
    ensures right == l.tail && l.nodes[left].next == Some(right)
  {
    ghost var sp := Spine(l);
    SpineAcyclic(l, sp);
    TailOnlyAtEnd(l, sp, 0);
    var lc: Option<Ref> := Some(l.head);
    var rc := l.nodes[l.head].next;
    ghost var i := 0;
    while rc != Some(l.tail)
      invariant i < |sp| - 1
      invariant lc == Some(sp[i]) && rc == Some(sp[i + 1])
      decreases |sp| - i
    {
      // The cursors stay on the chain, so the `continue outer` restarts on a
      // null cursor never fire.
      assert lc.Some?;
      lc := l.nodes[lc.value].next;
      assert rc.Some?;
      rc := l.nodes[rc.value].next;
      i := i + 1;
    }
    TailOnlyAtEnd(l, sp, i + 1);
    left, right := lc.value, rc.value;
  }

  /** `pop()`: removes the last node and returns its element, or null when
      the list is empty. */
  method Pop<T>(l: LinkedList<T>) returns (l': LinkedList<T>, res: Option<T>)
    requires Valid(l)
    ensures Valid(l') && l'.head == l.head && l'.nodes.Keys == l.nodes.Keys
    ensures Contents(l) == [] ==> res == None && l' == l
    ensures Contents(l) != [] ==>
      && res == Some(Contents(l)[|Contents(l)| - 1])
      && Contents(l') == Contents(l)[..|Contents(l)| - 1]
      && l'.tail == Spine(l)[|Spine(l)| - 2]
      && (|Contents(l)| == 1 ==> l'.tail == l.head)
      && l'.nodes[l'.tail].next == None
      && Spine(l') == Spine(l)[..|Spine(l)| - 1]
      && SameExcept(l, l', l'.tail)
  {
    EmptyIffNoSuccessor(l);
    if l.nodes[l.head].next == None {
      return l, None;
    }
    var oldTail := l.tail;
    var left, right := FindLastTwo(l);
    var reserved;
    reserved, l' := CasTail(l, oldTail, left);
    // Nobody else moves the tail, so the reservation never fails and the
    // operation never restarts.
    assert reserved;
    var unlinked;
    unlinked, l' := CasNext(l', l'.tail, Some(right), None);
    assert unlinked;
    Edits.UnlinkTail(l, l');
    res := l'.nodes[right].element;
  }

  /** `contains(obj)`: scans from the first real node for an element equal
      to `obj`; null is never contained. */
  method Contains<T(==)>(l: LinkedList<T>, obj: Option<T>) returns (found: bool)
    requires Valid(l)
    ensures found <==> obj.Some? && obj.value in Contents(l)
  {
    if obj.None? {
      return false;
    }
    ghost var sp := Spine(l);
    ghost var c := Contents(l);
    TailOnlyAtEnd(l, sp, 0);
    var p := l.nodes[l.head].next;
    ghost var k := 1;
    while p.Some?
      invariant 1 <= k <= |sp|
      invariant p == if k < |sp| then Some(sp[k]) else None
      invariant obj.value !in c[..k - 1]
      decreases |sp| - k
    {
      var element := l.nodes[p.value].element;
      if element.Some? && obj.value == element.value {
        assert c[k - 1] == obj.value;
        return true;
      }
      assert c[..k] == c[..k - 1] + [c[k - 1]];
      p := l.nodes[p.value].next;
      k := k + 1;
    }
    assert c[..k - 1] == c;
    return false;
  }

  /** The scan of `insertAfter`: `left` walks from the first real node,
      `right` one ahead, stopping at the first node holding `a`, or when
      `right` reaches the tail, whose predecessor is then `left`. */
  method ScanForAfter<T(==)>(l: LinkedList<T>, a: T) returns (left: Ref, right: Ref, k: nat)
    requires Valid(l) && |Contents(l)| >= 2
    ensures 1 <= k < |Spine(l)| - 1
    ensures left == Spine(l)[k] && right == Spine(l)[k + 1]
    ensures a !in Contents(l)[..k - 1]
    ensures k < |Spine(l)| - 2 ==> Contents(l)[k - 1] == a
  {
    ghost var sp := Spine(l);
    ghost var c := Contents(l);
    assert l.nodes[sp[0]].next == Some(sp[1]);
    assert l.nodes[sp[1]].next == Some(sp[2]);
    var lc := l.nodes[l.head].next;
    var rc := l.nodes[lc.value].next;
    k := 1;
    while rc != Some(l.tail)
      invariant 1 <= k < |sp| - 1
      invariant lc == Some(sp[k]) && rc == Some(sp[k + 1])
      invariant a !in c[..k - 1]
      decreases |sp| - k
    {
      if l.nodes[lc.value].element == Some(a) {
        assert c[k - 1] == a;
        break;
      }
      assert c[..k] == c[..k - 1] + [c[k - 1]];
      // As in `pop`, the null-cursor restarts cannot fire.
      assert lc.Some?;
      lc := l.nodes[lc.value].next;
      assert rc.Some?;
      rc := l.nodes[rc.value].next;
      k := k + 1;
    }
    TailOnlyAtEnd(l, sp, k + 1);
    left, right := lc.value, rc.value;
  }

  /** The splice of `insertAfter`: `n` first takes `right` as successor,
      then `left` takes `n`. */
  method SpliceAfter<T>(l: LinkedList<T>, left: Ref, right: Ref, n: Ref, ghost k: nat)
    returns (l': LinkedList<T>)
    requires Valid(l) && k < |Spine(l)| - 1
    requires left == Spine(l)[k] && right == Spine(l)[k + 1]
    requires n in l.nodes && n !in Spine(l)
    requires l.nodes[n].element.Some? && l.nodes[n].next == None
    ensures Valid(l') && l'.head == l.head && l'.tail == l.tail
    ensures l'.nodes.Keys == l.nodes.Keys
    ensures l'.nodes[left].next == Some(n) && l'.nodes[n].next == Some(right)
    ensures Spine(l') == Spine(l)[..k + 1] + [n] + Spine(l)[k + 1..]
    ensures Contents(l') == InsertAt(Contents(l), k, l.nodes[n].element.value)
    ensures forall q :: q in l.nodes && q != n && q != left ==> l'.nodes[q] == l.nodes[q]
    ensures l'.nodes[left].element == l.nodes[left].element
    ensures l'.nodes[n].element == l.nodes[n].element
  {
    var fixed, l1 := CasNext(l, n, None, Some(right));
    // `n` is not reachable yet, so its `next` is still null.
    assert fixed;
    var linked;
    linked, l' := CasNext(l1, left, Some(right), Some(n));
    // Nothing changed `left`'s successor since the scan, so no restart.
    assert linked;
    Edits.LinkAfter(l, l', k, n);
  }

  /** The one-element shortcut of `insertAfter`: the tail reference moves
      to the new node first, then the only node is linked to it. */
  method AppendToSingleton<T>(l: LinkedList<T>, n: Ref) returns (l': LinkedList<T>)
    requires Valid(l) && |Contents(l)| == 1
    requires n in l.nodes && n !in Spine(l)
    requires l.nodes[n].element.Some? && l.nodes[n].next == None
    ensures Valid(l') && l'.head == l.head && l'.tail == n
    ensures l'.nodes.Keys == l.nodes.Keys
    ensures Contents(l') == Contents(l) + [l.nodes[n].element.value]
    ensures SameExcept(l, l', l.tail)
  {
    ghost var sp := Spine(l);
    assert l.nodes[sp[0]].next == Some(sp[1]);
    var only := l.nodes[l.head].next.value;
    var oldTail := l.tail;
    var moved, l2 := CasTail(l, oldTail, n);
    assert moved;
    var linked;
    linked, l' := CasNext(l2, only, None, Some(n));
    assert linked;
    Edits.LinkAtTail(l, l', n);
  }

  /** `insertAfter`'s placement of the new node `n` in a list of two or
      more elements holding `a`, as the code is written: `a` in the last node
      means an append; otherwise `n` is spliced in after the first node
      holding `a`. */
  method PlaceInLonger<T(==)>(l: LinkedList<T>, n: Ref, a: T) returns (l': LinkedList<T>)
    requires Valid(l) && |Contents(l)| >= 2 && a in Contents(l)
    requires n in l.nodes && n !in Spine(l)
    requires l.nodes[n].element.Some? && l.nodes[n].next == None
    ensures Valid(l') && l'.head == l.head
    ensures l'.nodes.Keys == l.nodes.Keys && l'.nodes[n].element == l.nodes[n].element
    ensures Contents(l') == InsertAfterAsWritten(Contents(l), l.nodes[n].element.value, a)
    ensures var c := Contents(l);
      && (c[|c| - 1] == a ==> l'.tail == n && SameExcept(l, l', l.tail))
      && (c[|c| - 1] != a ==>
            var p := Spine(l)[FirstIndex(c, a) + 1];
            && l'.tail == l.tail && l'.nodes.Keys == l.nodes.Keys
            && l'.nodes[p].element == l.nodes[p].element
            && forall q :: q in l.nodes && q != n && q != p ==> l'.nodes[q] == l.nodes[q])
  {
    ghost var c := Contents(l);
    var oldTail := l.tail;
    if l.nodes[oldTail].element == Some(a) {
      // `a` in the last node: the same append as `push`.
      l' := AppendNode(l, n);
      return;
    }
    var left, right, k := ScanForAfter(l, a);
    FirstAfterScan(c, a, k - 1);
    l' := SpliceAfter(l, left, right, n, k);
  }

  /** `insertAfter(x, a)` once the guards have passed (the list holds `a`),
      as the code is written: the new node is appended when the list has one
      element, and placed by `PlaceInLonger` otherwise. */
  method InsertPresent<T(==)>(l: LinkedList<T>, x: T, a: T) returns (l': LinkedList<T>, n: Ref)
    requires Valid(l) && a in Contents(l)
    ensures Valid(l') && l'.head == l.head
    ensures n !in l.nodes && l'.nodes.Keys == l.nodes.Keys + {n} && l'.nodes[n].element == Some(x)
    ensures Contents(l') == InsertAfterAsWritten(Contents(l), x, a)
    ensures var c := Contents(l);
      && (c[|c| - 1] == a ==>
            l'.tail !in l.nodes && l'.nodes[l'.tail] == Node(Some(x), None)
            && SameExcept(l, l', l.tail))
      && (c[|c| - 1] != a ==>
            l'.tail == l.tail && SameExcept(l, l', Spine(l)[FirstIndex(c, a) + 1]))
  {
    ghost var c := Contents(l);
    ghost var sp := Spine(l);
    var l1;
    l1, n := Alloc(l, Some(x));
    Edits.OffChainChange(l, l1);
    assert n !in sp;
    assert l.nodes[sp[0]].next == Some(sp[1]);
    if |sp| >= 3 {
      assert l.nodes[sp[1]].next == Some(sp[2]);
    }
    var first := l1.nodes[l1.head].next.value;
    var second := l1.nodes[first].next;
    TailOnlyAtEnd(l, sp, 1);
    if second == None {
      assert c == [c[0]];
      l' := AppendToSingleton(l1, n);
      SameExceptAfterAlloc(l, l1, l', n, l.tail);
    } else {
      l' := PlaceInLonger(l1, n, a);
      if c[|c| - 1] == a {
        SameExceptAfterAlloc(l, l1, l', n, l.tail);
      } else {
        SameExceptAfterAlloc(l, l1, l', n, sp[FirstIndex(c, a) + 1]);
      }
    }
  }

  /** `insertAfter(elem, after)` as the code is written: nulls are refused;
      on an empty list or with no `after` present nothing changes; otherwise
      the new element goes in as `InsertPresent` places it. */
  method InsertAfter<T(==)>(l: LinkedList<T>, elem: Option<T>, after: Option<T>)
    returns (l': LinkedList<T>, res: Outcome<bool>)
    requires Valid(l)
    ensures Valid(l') && l'.head == l.head
    ensures elem.None? || after.None? ==> res == ThrewIllegalArgument && l' == l
    ensures elem.Some? && after.Some? && after.value !in Contents(l) ==>
      res == Returned(false) && l' == l
    ensures elem.Some? && after.Some? && after.value in Contents(l) ==>
      && res == Returned(true)
      && Contents(l') == InsertAfterAsWritten(Contents(l), elem.value, after.value)
  {
    if elem.None? || after.None? {
      return l, ThrewIllegalArgument;
    }
    EmptyIffNoSuccessor(l);
    if l.nodes[l.head].next == None {
      return l, Returned(false);
    }
    var present := Contains(l, after);
    if !present {
      return l, Returned(false);
    }
    var added;
    l', added := InsertPresent(l, elem.value, after.value);
    res := Returned(true);
  }

  /** The documented placement of the new node `n` in a list of two or
      more elements holding `a`: right after the FIRST node holding `a`. The
      tail shortcut is dropped; the scan decides, and only when it reaches
      the tail's predecessor without a match is `n` appended. */
  method PlaceInLongerFirst<T(==)>(l: LinkedList<T>, n: Ref, a: T) returns (l': LinkedList<T>)
    requires Valid(l) && |Contents(l)| >= 2 && a in Contents(l)
    requires n in l.nodes && n !in Spine(l)
    requires l.nodes[n].element.Some? && l.nodes[n].next == None
    ensures Valid(l') && l'.head == l.head
    ensures Contents(l') == InsertAfterFirst(Contents(l), l.nodes[n].element.value, a)
  {
    ghost var c := Contents(l);
    var left, right, k := ScanForAfter(l, a);
    FirstAfterScan(c, a, k - 1);
    if l.nodes[left].element == Some(a) {
      l' := SpliceAfter(l, left, right, n, k);
    } else {
      // The scan passed every node before the tail: the first `a` is the
      // tail's own element.
      l' := AppendNode(l, n);
    }
  }

  /** The documented placement once the guards have passed: the one-element
      shortcut as before, then `PlaceInLongerFirst`. */
  method InsertPresentFirst<T(==)>(l: LinkedList<T>, x: T, a: T) returns (l': LinkedList<T>)
    requires Valid(l) && a in Contents(l)
    ensures Valid(l') && l'.head == l.head
    ensures Contents(l') == InsertAfterFirst(Contents(l), x, a)
  {
    ghost var c := Contents(l);
    ghost var sp := Spine(l);
    var l1, n := Alloc(l, Some(x));
    Edits.OffChainChange(l, l1);
    assert n !in sp;
    assert l.nodes[sp[0]].next == Some(sp[1]);
    if |sp| >= 3 {
      assert l.nodes[sp[1]].next == Some(sp[2]);
    }
    var first := l1.nodes[l1.head].next.value;
    var second := l1.nodes[first].next;
    TailOnlyAtEnd(l, sp, 1);
    if second == None {
      assert c == [c[0]];
      FirstIndexUnique(c, a, 0);
      l' := AppendToSingleton(l1, n);
    } else {
      l' := PlaceInLongerFirst(l1, n, a);
    }
  }

  /** `insertAfter` with the documented first-occurrence placement. */
  method InsertAfterFirstOccurrence<T(==)>(l: LinkedList<T>, elem: Option<T>, after: Option<T>)
    returns (l': LinkedList<T>, res: Outcome<bool>)
    requires Valid(l)
    ensures Valid(l') && l'.head == l.head
    ensures elem.None? || after.None? ==> res == ThrewIllegalArgument && l' == l
    ensures elem.Some? && after.Some? && after.value !in Contents(l) ==>
      res == Returned(false) && l' == l
    ensures elem.Some? && after.Some? && after.value in Contents(l) ==>
      && res == Returned(true)
      && Contents(l') == InsertAfterFirst(Contents(l), elem.value, after.value)
  {
    if elem.None? || after.None? {
      return l, ThrewIllegalArgument;
    }
    EmptyIffNoSuccessor(l);
    if l.nodes[l.head].next == None {
      return l, Returned(false);
    }
    var present := Contains(l, after);
    if !present {
      return l, Returned(false);
    }
    l' := InsertPresentFirst(l, elem.value, after.value);
    res := Returned(true);
  }
}
