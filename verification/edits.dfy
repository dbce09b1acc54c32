/** How each pointer edit the operations perform moves the abstraction: a
    node added off the chain, a node linked after the tail, the tail node
    unlinked, a node spliced into the middle. */
module Edits {
  import opened Heap
  import opened Sequences

  /** Nodes off the chain (a freshly allocated one, say) may change freely:
      the chain and the contents stay as they were. */
  lemma OffChainChange<T>(l: LinkedList<T>, l': LinkedList<T>)
    requires Valid(l) && Allocated(l')
    requires l'.head == l.head && l'.tail == l.tail
    requires forall q :: q in l.nodes ==> q in l'.nodes && l'.nodes[q] == l.nodes[q]
    ensures Valid(l') && Spine(l') == Spine(l) && Contents(l') == Contents(l)
  {
    var sp := Spine(l);
    assert WellFormed(l', sp);
    Abstraction(l', sp);
  }

  /** Linking an unreachable node `n` after the tail and moving `tail` to it
      extends the chain by `n` and the contents by `n`'s element. */
  lemma LinkAtTail<T>(l: LinkedList<T>, l': LinkedList<T>, n: Ref)
    requires Valid(l)
    requires n in l.nodes && n !in Spine(l)
    requires l.nodes[n].element.Some? && l.nodes[n].next == None
    requires l'.head == l.head && l'.tail == n && l'.free == l.free
    requires l'.nodes.Keys == l.nodes.Keys
    requires l'.nodes[l.tail] == l.nodes[l.tail].(next := Some(n))
    requires forall q :: q in l.nodes && q != l.tail ==> l'.nodes[q] == l.nodes[q]
    ensures Valid(l') && Spine(l') == Spine(l) + [n]
    ensures Contents(l') == Contents(l) + [l.nodes[n].element.value]
  {
    var sp := Spine(l);
    SpineAcyclic(l, sp);
    var sp' := sp + [n];
    forall i | 0 <= i < |sp'| - 1
      ensures l'.nodes[sp'[i]].next == Some(sp'[i + 1])
    {
      if i < |sp| - 1 {
        assert sp[i] != sp[|sp| - 1];
      }
    }
    assert WellFormed(l', sp');
    Abstraction(l', sp');
    assert ElementsOf(l', sp') == ElementsOf(l, sp) + [l.nodes[n].element.value];
  }

  /** Moving `tail` back to the last node's predecessor and clearing that
      node's `next` drops the last node from the chain and the contents. */
  lemma UnlinkTail<T>(l: LinkedList<T>, l': LinkedList<T>)
    requires Valid(l) && |Spine(l)| >= 2
    requires l'.head == l.head && l'.free == l.free && l'.nodes.Keys == l.nodes.Keys
    requires l'.tail == Spine(l)[|Spine(l)| - 2]
    requires l'.nodes[l'.tail] == l.nodes[l'.tail].(next := None)
    requires forall q :: q in l.nodes && q != l'.tail ==> l'.nodes[q] == l.nodes[q]
    ensures Valid(l') && Spine(l') == Spine(l)[..|Spine(l)| - 1]
    ensures Contents(l') == Contents(l)[..|Contents(l)| - 1]
  {
    var sp := Spine(l);
    SpineAcyclic(l, sp);
    var sp' := sp[..|sp| - 1];
    forall i | 0 <= i < |sp'| - 1
      ensures l'.nodes[sp'[i]].next == Some(sp'[i + 1])
    {
      assert sp[i] != sp[|sp| - 2];
    }
    assert WellFormed(l', sp');
    Abstraction(l', sp');
    assert ElementsOf(l', sp') == ElementsOf(l, sp)[..|sp| - 2];
  }

  /** Pointing an unreachable node `n` at the `k + 1`-th chain node and then
      the `k`-th chain node at `n` puts `n`'s element at position `k` of the
      contents; `tail` does not move. */
  lemma LinkAfter<T>(l: LinkedList<T>, l': LinkedList<T>, k: nat, n: Ref)
    requires Valid(l) && k < |Spine(l)| - 1
    requires n in l.nodes && n !in Spine(l) && l.nodes[n].element.Some?
    requires l'.head == l.head && l'.tail == l.tail && l'.free == l.free
    requires l'.nodes.Keys == l.nodes.Keys
    requires l'.nodes[n] == l.nodes[n].(next := Some(Spine(l)[k + 1]))
    requires l'.nodes[Spine(l)[k]] == l.nodes[Spine(l)[k]].(next := Some(n))
    requires forall q :: q in l.nodes && q != n && q != Spine(l)[k] ==> l'.nodes[q] == l.nodes[q]
    ensures Valid(l') && Spine(l') == Spine(l)[..k + 1] + [n] + Spine(l)[k + 1..]
    ensures Contents(l') == InsertAt(Contents(l), k, l.nodes[n].element.value)
  {
    var sp := Spine(l);
    SpineAcyclic(l, sp);
    var sp' := sp[..k + 1] + [n] + sp[k + 1..];
    assert |sp'| == |sp| + 1;
    forall i | 0 <= i < |sp'|
      ensures sp'[i] == if i <= k then sp[i] else if i == k + 1 then n else sp[i - 1]
    {
    }
    forall i | 0 <= i < |sp'| - 1
      ensures l'.nodes[sp'[i]].next == Some(sp'[i + 1])
    {
      if i < k {
        assert sp[i] != sp[k];
      } else if i > k + 1 {
        assert sp[i - 1] != sp[k];
      }
    }
    forall i | 1 <= i < |sp'|
      ensures l'.nodes[sp'[i]].element.Some?
    {
      if i <= k {
        assert sp[i] != n;
      }
    }
    assert sp[0] != n;
    assert WellFormed(l', sp');
    Abstraction(l', sp');
    var c := ElementsOf(l, sp);
    var c' := ElementsOf(l', sp');
    forall i | 0 <= i < |c'|
      ensures c'[i] == InsertAt(c, k, l.nodes[n].element.value)[i]
    {
      if i < k {
        assert sp'[i + 1] == sp[i + 1];
      } else if i > k {
        assert sp'[i + 1] == sp[i];
      }
    }
  }
}
