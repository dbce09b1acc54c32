/** The node store of the tail list: nodes addressed by reference, the
    permanent sentinel `head`, the `tail` reference, the atomic primitives on
    them (run one at a time, so each compare-and-swap is a compare followed by
    a write), and the abstraction from a store to the sequence of elements it
    holds.

    The store is a value rather than a heap of objects: every operation takes
    a list and returns the list it leaves behind. */
module Heap {

  /** A node reference; `Option<Ref>`'s `None` plays the part of `null`. */
  type Ref = nat

  datatype Option<+T> = None | Some(value: T)

  /** A node: its element (`None` only in the sentinel) and its `next` link. */
  datatype Node<T> = Node(element: Option<T>, next: Option<Ref>)

  /** The list object: every node allocated so far, the sentinel `head`, the
      `tail` reference, and the first reference `new` has not yet handed out. */
  datatype LinkedList<T> = LinkedList(nodes: map<Ref, Node<T>>, head: Ref, tail: Ref, free: Ref)

  /** Every allocated reference lies below `free`, so `free` is a fresh one. */
  predicate Allocated<T>(l: LinkedList<T>) {
    forall r :: r in l.nodes ==> r < l.free
  }

  /** `sp` is the chain of nodes met by following `next` from `head`: it
      ends at `tail`, whose `next` is null. */
  predicate IsSpine<T>(l: LinkedList<T>, sp: seq<Ref>) {
    && |sp| >= 1
    && sp[0] == l.head
    && sp[|sp| - 1] == l.tail
    && (forall i :: 0 <= i < |sp| ==> sp[i] in l.nodes)
    && (forall i :: 0 <= i < |sp| - 1 ==> l.nodes[sp[i]].next == Some(sp[i + 1]))
    && l.nodes[l.tail].next == None
  }

  /** The chain from `head` reaches `tail`, the sentinel holds no element and
      every node after it holds one. */
  predicate WellFormed<T>(l: LinkedList<T>, sp: seq<Ref>) {
    && IsSpine(l, sp)
    && l.nodes[l.head].element == None
    && (forall i :: 1 <= i < |sp| ==> l.nodes[sp[i]].element.Some?)
  }

  /** The representation invariant every operation keeps. */
  ghost predicate Valid<T>(l: LinkedList<T>) {
    Allocated(l) && exists sp :: WellFormed(l, sp)
  }

  /** The nodes of the list in order, sentinel first, `tail` last. */
  ghost function Spine<T>(l: LinkedList<T>): (sp: seq<Ref>)
    requires Valid(l)
    ensures WellFormed(l, sp)
  {
    var sp :| WellFormed(l, sp); sp
  }

  /** The elements held by the nodes of `sp` after the sentinel. */
  function ElementsOf<T>(l: LinkedList<T>, sp: seq<Ref>): (s: seq<T>)
    requires WellFormed(l, sp)
    ensures |s| == |sp| - 1
    ensures forall i :: 0 <= i < |s| ==> l.nodes[sp[i + 1]].element == Some(s[i])
  {
    seq(|sp| - 1, i requires 0 <= i < |sp| - 1 => l.nodes[sp[i + 1]].element.value)
  }

  /** The abstract contents of the list, first node to last. */
  ghost function Contents<T>(l: LinkedList<T>): (s: seq<T>)
    requires Valid(l)
  {
    ElementsOf(l, Spine(l))
  }

  /** Every node of `l` other than `p` is as it was in `l0`, and `p` (if it
      existed) kept its element: only `p`'s `next` may have moved. */
  ghost predicate SameExcept<T>(l0: LinkedList<T>, l: LinkedList<T>, p: Ref) {
    && l0.nodes.Keys <= l.nodes.Keys
    && (forall q :: q in l0.nodes && q != p ==> l.nodes[q] == l0.nodes[q])
    && (p in l0.nodes ==> l.nodes[p].element == l0.nodes[p].element)
  }

  /** Framing across an allocation: if `l1` only adds the node `n` to `l0`,
      and `l2` differs from `l1` at most at `n` and at `p`'s `next`, then
      only `p`'s `next` differs between `l0` and `l2`. */
  lemma SameExceptAfterAlloc<T>(l0: LinkedList<T>, l1: LinkedList<T>, l2: LinkedList<T>, n: Ref, p: Ref)
    requires n !in l0.nodes && l1.nodes.Keys == l0.nodes.Keys + {n}
    requires forall q :: q in l0.nodes ==> l1.nodes[q] == l0.nodes[q]
    requires l1.nodes.Keys <= l2.nodes.Keys
    requires forall q :: q in l1.nodes && q != n && q != p ==> l2.nodes[q] == l1.nodes[q]
    requires p in l1.nodes ==> l2.nodes[p].element == l1.nodes[p].element
    ensures SameExcept(l0, l2, p)
  {
  }

  /** Two chains from `head` agree up to the shorter one's length. */
  lemma {:induction false} SpinePrefix<T>(l: LinkedList<T>, sp1: seq<Ref>, sp2: seq<Ref>, i: nat)
    requires IsSpine(l, sp1) && IsSpine(l, sp2)
    requires i < |sp1| && i < |sp2|
    ensures sp1[i] == sp2[i]
  {
    if i > 0 {
      SpinePrefix(l, sp1, sp2, i - 1);
    }
  }

  /** `tail` can only sit at the end of a chain: every earlier node has a
      successor and `tail` has none. */
  lemma TailOnlyAtEnd<T>(l: LinkedList<T>, sp: seq<Ref>, i: nat)
    requires IsSpine(l, sp) && i < |sp|
    ensures sp[i] == l.tail <==> i == |sp| - 1
  {
    if i < |sp| - 1 {
      assert l.nodes[sp[i]].next == Some(sp[i + 1]);
    }
  }

  /** `next` is a function, so the chain from `head` to `tail` is unique. */
  lemma SpineUnique<T>(l: LinkedList<T>, sp1: seq<Ref>, sp2: seq<Ref>)
    requires IsSpine(l, sp1) && IsSpine(l, sp2)
    ensures sp1 == sp2
  {
    var m := if |sp1| < |sp2| then |sp1| - 1 else |sp2| - 1;
    SpinePrefix(l, sp1, sp2, m);
    TailOnlyAtEnd(l, sp1, m);
    TailOnlyAtEnd(l, sp2, m);
    assert |sp1| == |sp2|;
    forall i | 0 <= i < |sp1|
      ensures sp1[i] == sp2[i]
    {
      SpinePrefix(l, sp1, sp2, i);
    }
  }

  /** A node met twice on the chain would make the chain run round for ever
      instead of stopping at a null `next`. */
  lemma {:induction false} NoRepeat<T>(l: LinkedList<T>, sp: seq<Ref>, i: nat, j: nat)
    requires IsSpine(l, sp)
    requires i < j < |sp|
    ensures sp[i] != sp[j]
    decreases |sp| - j
  {
    assert l.nodes[sp[i]].next == Some(sp[i + 1]);
    if j < |sp| - 1 {
      assert l.nodes[sp[j]].next == Some(sp[j + 1]);
      NoRepeat(l, sp, i + 1, j + 1);
    }
  }

  /** The chain from `head` is acyclic: no node appears on it twice. */
  lemma SpineAcyclic<T>(l: LinkedList<T>, sp: seq<Ref>)
    requires IsSpine(l, sp)
    ensures forall i, j :: 0 <= i < j < |sp| ==> sp[i] != sp[j]
  {
    forall i, j | 0 <= i < j < |sp|
      ensures sp[i] != sp[j]
    {
      NoRepeat(l, sp, i, j);
    }
  }

  /** Exhibiting a well-formed chain establishes the invariant and fixes the
      abstraction. */
  lemma Abstraction<T>(l: LinkedList<T>, sp: seq<Ref>)
    requires Allocated(l) && WellFormed(l, sp)
    ensures Valid(l) && Spine(l) == sp && Contents(l) == ElementsOf(l, sp)
  {
    SpineUnique(l, Spine(l), sp);
  }

  /** The list is empty exactly when the sentinel has no successor. */
  lemma EmptyIffNoSuccessor<T>(l: LinkedList<T>)
    requires Valid(l)
    ensures Contents(l) == [] <==> l.nodes[l.head].next == None
    ensures Contents(l) == [] <==> l.tail == l.head
  {
    var sp := Spine(l);
    TailOnlyAtEnd(l, sp, 0);
    if |sp| >= 2 {
      assert l.nodes[sp[0]].next == Some(sp[1]);
    }
  }

  /** A new list: the sentinel alone, named by both `head` and `tail`. */
  function Empty<T>(): (l: LinkedList<T>)
    ensures Valid(l) && Contents(l) == []
    ensures l.tail == l.head && l.nodes[l.head] == Node(None, None)
  {
    var l := LinkedList(map[0 := Node(None, None)], 0, 0, 1);
    Abstraction(l, [0]);
    l
  }

  /** `new Node<>(e, null)`: a node never seen before, holding `e`. */
  method Alloc<T>(l: LinkedList<T>, e: Option<T>) returns (l': LinkedList<T>, n: Ref)
    requires Allocated(l)
    ensures n !in l.nodes && n in l'.nodes && l'.nodes[n] == Node(e, None)
    ensures l'.nodes.Keys == l.nodes.Keys + {n}
    ensures forall q :: q in l.nodes ==> l'.nodes[q] == l.nodes[q]
    ensures l'.head == l.head && l'.tail == l.tail && Allocated(l')
  {
    n := l.free;
    l' := l.(nodes := l.nodes[n := Node(e, None)], free := l.free + 1);
  }

  /** `Node.casNext(cmp, val)`: writes `val` into `r`'s `next` exactly when
      that field holds `cmp`, and reports whether it did. */
  method CasNext<T>(l: LinkedList<T>, r: Ref, cmp: Option<Ref>, val: Option<Ref>)
    returns (ok: bool, l': LinkedList<T>)
    requires r in l.nodes
    ensures ok <==> l.nodes[r].next == cmp
    ensures l'.nodes.Keys == l.nodes.Keys
    ensures l'.nodes[r].element == l.nodes[r].element
    ensures l'.nodes[r].next == if ok then val else l.nodes[r].next
    ensures forall q :: q in l.nodes && q != r ==> l'.nodes[q] == l.nodes[q]
    ensures l'.head == l.head && l'.tail == l.tail && l'.free == l.free
  {
    ok := l.nodes[r].next == cmp;
    if ok {
      l' := l.(nodes := l.nodes[r := l.nodes[r].(next := val)]);
    } else {
      l' := l;
    }
  }

  /** `casTail(cmp, val)`: moves `tail` to `val` exactly when it names `cmp`,
      and reports whether it did. */
  method CasTail<T>(l: LinkedList<T>, cmp: Ref, val: Ref) returns (ok: bool, l': LinkedList<T>)
    ensures ok <==> l.tail == cmp
    ensures l'.tail == if ok then val else l.tail
    ensures l'.nodes == l.nodes && l'.head == l.head && l'.free == l.free
  {
    ok := l.tail == cmp;
    if ok {
      l' := l.(tail := val);
    } else {
      l' := l;
    }
  }
}
