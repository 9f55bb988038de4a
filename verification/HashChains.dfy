/** The doubly linked chains of a hash bucket, relinked in place. */
module HashChains {

  class Handle {
    const key: int
    const hashv: nat
    // The neighbours in the order of addition, and in the bucket.
    var next: Handle?
    var prev: Handle?
    var hhNext: Handle?
    var hhPrev: Handle?

    constructor (key: int, hashv: nat)
      ensures this.key == key && this.hashv == hashv
    {
      this.key := key;
      this.hashv := hashv;
      next, prev, hhNext, hhPrev := null, null, null, null;
    }
  }

  function At(chain: seq<Handle>, i: int): Handle? {
    if 0 <= i < |chain| then chain[i] else null
  }

  ghost function OrNone(h: Handle?): set<Handle> {
    if h == null then {} else {h}
  }

  ghost predicate NextOk(chain: seq<Handle>, i: nat)
    requires i < |chain|
    reads {chain[i]}`hhNext
  {
    chain[i].hhNext == At(chain, i + 1)
  }

  ghost predicate PrevOk(chain: seq<Handle>, i: nat)
    requires i < |chain|
    reads {chain[i]}`hhPrev
  {
    chain[i].hhPrev == At(chain, i - 1)
  }

  ghost predicate Distinct(chain: seq<Handle>) {
    forall i, j :: 0 <= i < j < |chain| ==> chain[i] != chain[j]
  }

  // From its i-th handle on, the chain is linked forwards.
  ghost predicate LinkedFrom(chain: seq<Handle>, from: nat)
    reads chain`hhNext
  {
    forall i {:trigger NextOk(chain, i)} :: from <= i < |chain| ==> NextOk(chain, i)
  }

  // The chain starts at head and is linked both ways.
  ghost predicate Chained(head: Handle?, chain: seq<Handle>)
    reads chain`hhNext, chain`hhPrev
  {
    && head == At(chain, 0)
    && LinkedFrom(chain, 0)
    && (forall i {:trigger PrevOk(chain, i)} :: 0 <= i < |chain| ==> PrevOk(chain, i))
    && Distinct(chain)
  }

  // Puts h in front of the chain of bucket b.
  method LinkFront(heads: array<Handle?>, b: nat, h: Handle, ghost chain: seq<Handle>)
    requires b < heads.Length && Chained(heads[b], chain) && h !in chain
    modifies heads, h`hhNext, h`hhPrev, OrNone(heads[b])`hhPrev
    ensures Chained(heads[b], [h] + chain)
    ensures forall j :: 0 <= j < heads.Length && j != b ==> heads[j] == old(heads[j])
    ensures forall g: Handle :: g in chain ==> g.hhNext == old(g.hhNext)
  {
    ghost var linked := [h] + chain;
    assert forall i :: 0 <= i < |chain| ==> NextOk(chain, i) && PrevOk(chain, i);
    h.hhNext := heads[b];
    h.hhPrev := null;
    if heads[b] != null {
      heads[b].hhPrev := h;
    }
    heads[b] := h;
    forall i | 0 <= i < |linked|
      ensures NextOk(linked, i) && PrevOk(linked, i)
    {
      if i > 0 {
        assert old(NextOk(chain, i - 1)) && old(PrevOk(chain, i - 1));
        assert linked[i] == chain[i - 1];
      }
    }
  }

  // The chain of bucket b is searched from its head.
  method FindInChain(head: Handle?, key: int, hashv: nat, ghost chain: seq<Handle>) returns (e: Handle?)
    requires Chained(head, chain)
    ensures e != null ==> e in chain && e.key == key && e.hashv == hashv
    ensures e == null ==> forall g :: g in chain ==> !(g.key == key && g.hashv == hashv)
  {
    e := head;
    ghost var i := 0;
    while e != null
      invariant 0 <= i <= |chain| && e == At(chain, i)
      invariant forall k :: 0 <= k < i ==> !(chain[k].key == key && chain[k].hashv == hashv)
      decreases |chain| - i
    {
      if e.hashv == hashv {
        if e.key == key {
          return;
        }
      }
      assert NextOk(chain, i);
      e := e.hhNext;
      i := i + 1;
    }
  }

  // Takes the i-th handle out of the chain of bucket b.
  method Unlink(heads: array<Handle?>, b: nat, h: Handle, ghost chain: seq<Handle>, ghost i: nat)
    requires b < heads.Length && Chained(heads[b], chain)
    requires i < |chain| && chain[i] == h
    modifies heads, chain`hhNext, chain`hhPrev
    ensures Chained(heads[b], chain[..i] + chain[i + 1..])
    ensures forall j :: 0 <= j < heads.Length && j != b ==> heads[j] == old(heads[j])
  {
    ghost var rest := chain[..i] + chain[i + 1..];
    assert NextOk(chain, i) && PrevOk(chain, i);
    if heads[b] == h {
      heads[b] := h.hhNext;
    }
    if h.hhPrev != null {
      h.hhPrev.hhNext := h.hhNext;
    }
    if h.hhNext != null {
      h.hhNext.hhPrev := h.hhPrev;
    }
    forall k | 0 <= k < |rest|
      ensures NextOk(rest, k) && PrevOk(rest, k)
    {
      var q := if k < i then k else k + 1;
      assert rest[k] == chain[q] && old(NextOk(chain, q)) && old(PrevOk(chain, q));
    }
  }
}
