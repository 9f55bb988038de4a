/** The elements of a hash table in the order of their addition: a doubly linked list through
    their next and prev fields. */
module OrderList {
  import opened HashChains

  ghost predicate NextInOrder(order: seq<Handle>, i: nat)
    requires i < |order|
    reads {order[i]}`next
  {
    order[i].next == At(order, i + 1)
  }

  ghost predicate PrevInOrder(order: seq<Handle>, i: nat)
    requires i < |order|
    reads {order[i]}`prev
  {
    order[i].prev == At(order, i - 1)
  }

  ghost predicate Ordered(first: Handle?, tail: Handle?, order: seq<Handle>)
    reads order`next, order`prev
  {
    && first == At(order, 0) && tail == At(order, |order| - 1)
    && (forall i {:trigger NextInOrder(order, i)} :: 0 <= i < |order| ==> NextInOrder(order, i))
    && (forall i {:trigger PrevInOrder(order, i)} :: 0 <= i < |order| ==> PrevInOrder(order, i))
    && Distinct(order)
  }

  function Without(s: seq<Handle>, i: nat): seq<Handle>
    requires i < |s|
  {
    s[..i] + s[i + 1..]
  }

  // Puts h behind the last element.
  method Append(h: Handle, first: Handle?, tail: Handle?, ghost order: seq<Handle>) returns (first': Handle?)
    requires Ordered(first, tail, order) && h !in order
    modifies h`next, h`prev, OrNone(tail)`next
    ensures Ordered(first', h, order + [h])
  {
    ghost var longer := order + [h];
    assert forall i :: 0 <= i < |order| ==> NextInOrder(order, i) && PrevInOrder(order, i);
    h.next := null;
    h.prev := tail;
    first' := first;
    if tail != null {
      tail.next := h;
    } else {
      first' := h;
    }
    forall i | 0 <= i < |longer|
      ensures NextInOrder(longer, i) && PrevInOrder(longer, i)
    {
      assert i < |order| ==> longer[i] == order[i] && old(NextInOrder(order, i)) && old(PrevInOrder(order, i));
    }
  }

  // Takes the k-th element h out.
  method Detach(h: Handle, first: Handle?, tail: Handle?, ghost order: seq<Handle>, ghost k: nat)
    returns (first': Handle?, tail': Handle?)
    requires Ordered(first, tail, order) && k < |order| && order[k] == h
    modifies order`next, order`prev
    ensures Ordered(first', tail', Without(order, k))
  {
    ghost var rest := Without(order, k);
    assert NextInOrder(order, k) && PrevInOrder(order, k);
    first', tail' := first, tail;
    if h == tail {
      tail' := h.prev;
    }
    if h.prev != null {
      h.prev.next := h.next;
    } else {
      first' := h.next;
    }
    if h.next != null {
      h.next.prev := h.prev;
    }
    forall i | 0 <= i < |rest|
      ensures NextInOrder(rest, i) && PrevInOrder(rest, i)
    {
      var q := if i < k then i else i + 1;
      assert rest[i] == order[q] && old(NextInOrder(order, q)) && old(PrevInOrder(order, q));
    }
  }

  // An element without neighbours is the only one.
  lemma OnlyOne(first: Handle?, tail: Handle?, order: seq<Handle>, h: Handle)
    requires Ordered(first, tail, order) && h in order
    ensures h.prev == null && h.next == null <==> |order| == 1
  {
    var k :| 0 <= k < |order| && order[k] == h;
    assert NextInOrder(order, k) && PrevInOrder(order, k);
  }
}
