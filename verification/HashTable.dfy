/** The intrusive hash table: buckets of linked chains, doubled when a chain gets long. */
module HashTable {
  import opened Arithmetic
  import opened HashChains
  import opened OrderList

  const INITIAL_BUCKETS := 32
  const CHAIN_THRESHOLD := 10

  // The bucket of a hash value.
  function Bucket(hashv: nat, log2: nat): (b: nat)
    ensures b < Pow2(log2)
  {
    hashv % Pow2(log2)
  }

  // It is computed by masking.
  method MaskedBy(hashv: nat, numBuckets: nat, log2: nat) returns (b: nat)
    requires numBuckets == Pow2(log2)
    ensures b == Bucket(hashv, log2) == BucketOf(log2)(hashv) < numBuckets
  {
    MaskIsRemainder(hashv, log2);
    b := BitAnd(hashv, numBuckets - 1);
  }

  // The buckets of all hash values, as one function.
  function BucketOf(log2: nat): nat -> nat {
    hashv => Bucket(hashv, log2)
  }

  // Every handle is in the chain of its own bucket.
  ghost predicate Placed(chains: seq<seq<Handle>>, place: nat -> nat) {
    forall b, h :: 0 <= b < |chains| && h in chains[b] ==> place(h.hashv) == b
  }

  ghost function TotalLen(chains: seq<seq<Handle>>): nat {
    if |chains| == 0 then 0 else TotalLen(chains[..|chains| - 1]) + |chains[|chains| - 1]|
  }

  // Every element stands in the chain that its hash value, masked, leads to, and in no other.
  lemma InMaskedBucket(chains: seq<seq<Handle>>, log2: nat, order: seq<Handle>, hash: int -> nat)
    requires Members(chains, log2, order, hash)
    ensures |chains| == Pow2(log2)
    ensures forall h, b :: h in order && 0 <= b < |chains| ==> (h in chains[b] <==> BitAnd(hash(h.key), |chains| - 1) == b)
  {
    forall h, b | h in order && 0 <= b < |chains|
      ensures h in chains[b] <==> BitAnd(hash(h.key), |chains| - 1) == b
    {
      MaskIsRemainder(hash(h.key), log2);
      assert BucketOf(log2)(h.hashv) == hash(h.key) % Pow2(log2);
    }
  }

  // How far the chains exceed the ideal length, together.
  ghost function Excess(chains: seq<seq<Handle>>, ideal: nat): nat {
    if |chains| == 0 then 0
    else Excess(chains[..|chains| - 1], ideal) + Over(|chains[|chains| - 1]|, ideal)
  }

  function Over(count: nat, ideal: nat): nat {
    if count > ideal then count - ideal else 0
  }

  // The places in the chains at and behind the ideal length.
  ghost function Nonideal(chains: seq<seq<Handle>>, ideal: nat): set<(int, int)> {
    set b, i | 0 <= b < |chains| && ideal <= i < |chains[b]| :: (b, i)
  }

  ghost function InBucket(b: int, lo: nat, hi: nat): (s: set<(int, int)>)
    ensures |s| == if lo < hi then hi - lo else 0
    ensures forall x :: x in s <==> x.0 == b && lo <= x.1 < hi
  {
    if hi <= lo then {} else InBucket(b, lo, hi - 1) + {(b, hi - 1)}
  }

  // Over all buckets together they are what the chains exceed the ideal length by.
  lemma {:induction false} ExcessCounts(chains: seq<seq<Handle>>, ideal: nat)
    ensures Excess(chains, ideal) == |Nonideal(chains, ideal)|
  {
    if |chains| > 0 {
      ExcessCounts(chains[..|chains| - 1], ideal);
      NonidealNext(chains, ideal);
    } else {
      assert Nonideal(chains, ideal) == {};
    }
  }

  lemma NonidealNext(chains: seq<seq<Handle>>, ideal: nat)
    requires 0 < |chains|
    ensures var n := |chains| - 1;
      |Nonideal(chains, ideal)| == |Nonideal(chains[..n], ideal)| + Over(|chains[n]|, ideal)
  {
    var n := |chains| - 1;
    var here, before := InBucket(n, ideal, |chains[n]|), Nonideal(chains[..n], ideal);
    forall x | x in Nonideal(chains, ideal)
      ensures x in before + here
    {
    }
    assert Nonideal(chains, ideal) == before + here;
    assert before !! here;
  }

  // How a doubling sets the allowance of a bucket that has come to hold more than the ideal:
  // by counting how often it has been outgrown, or by dividing.
  datatype Rule = Counting | Dividing

  // The allowance of a bucket into which a doubling has put count handles.
  function Allowance(rule: Rule, count: nat, ideal: nat): nat {
    if count <= ideal || ideal == 0 then 0
    else if rule == Dividing then count / ideal
    else
      var before := Allowance(rule, count - 1, ideal);
      if count > before * ideal then before + 1 else before
  }

  // Either way it is about how many times the ideal length the chain is long.
  lemma {:induction false} AllowanceIsRatio(rule: Rule, count: nat, ideal: nat)
    requires 0 < ideal
    ensures var m := Allowance(rule, count, ideal);
      && (m == 0 <==> count <= ideal)
      && (m - 1) * ideal < count <= (m + 1) * ideal
  {
    if count <= ideal {
      TimesNeighbours(0, ideal);
    } else if rule == Dividing {
      QuotientBounds(count, ideal);
    } else {
      AllowanceIsRatio(rule, count - 1, ideal);
      var before := Allowance(rule, count - 1, ideal);
      TimesNeighbours(before, ideal);
      var m := Allowance(rule, count, ideal);
      if m == before {
        assert (m - 1) * ideal < count <= (m + 1) * ideal;
      } else {
        assert m == before + 1 && (m - 1) * ideal == before * ideal;
        assert (m + 1) * ideal == before * ideal + 2 * ideal;
      }
    }
  }

  lemma QuotientBounds(count: nat, ideal: nat)
    requires 0 < ideal < count
    ensures 0 < count / ideal && (count / ideal - 1) * ideal < count <= (count / ideal + 1) * ideal
  {
    var m := count / ideal;
    TimesNeighbours(m, ideal);
    assert count == ideal * m + count % ideal;
    assert m == 0 ==> ideal * m == 0;
  }

  lemma TimesNeighbours(m: nat, k: nat)
    ensures (m + 1) * k == m * k + k && (m + 2) * k == m * k + 2 * k && (m - 1) * k == m * k - k
  {
  }

  ghost predicate Allowed(rule: Rule, mults: array<nat>, chains: seq<seq<Handle>>, ideal: nat)
    reads mults
  {
    && mults.Length == |chains|
    && forall b :: 0 <= b < |chains| ==> mults[b] == Allowance(rule, |chains[b]|, ideal)
  }

  lemma {:induction false} TotalLenUpdate(chains: seq<seq<Handle>>, b: nat, c: seq<Handle>)
    requires b < |chains|
    ensures TotalLen(chains[b := c]) == TotalLen(chains) - |chains[b]| + |c|
  {
    var n := |chains| - 1;
    if b < n {
      TotalLenUpdate(chains[..n], b, c);
      assert chains[b := c][..n] == chains[..n][b := c];
    } else {
      assert chains[b := c][..n] == chains[..n];
    }
  }

  lemma {:induction false} ExcessUpdate(chains: seq<seq<Handle>>, b: nat, c: seq<Handle>, ideal: nat)
    requires b < |chains|
    ensures Excess(chains[b := c], ideal) == Excess(chains, ideal) - Over(|chains[b]|, ideal) + Over(|c|, ideal)
  {
    var n := |chains| - 1;
    if b < n {
      ExcessUpdate(chains[..n], b, c, ideal);
      assert chains[b := c][..n] == chains[..n][b := c];
    } else {
      assert chains[b := c][..n] == chains[..n];
    }
  }

  lemma {:induction false} AllEmpty(chains: seq<seq<Handle>>, ideal: nat)
    requires forall b :: 0 <= b < |chains| ==> chains[b] == []
    ensures TotalLen(chains) == 0 && Excess(chains, ideal) == 0
  {
    if |chains| > 0 {
      AllEmpty(chains[..|chains| - 1], ideal);
    }
  }

  lemma {:induction false} TotalLenNext(chains: seq<seq<Handle>>, b: nat)
    requires b < |chains|
    ensures TotalLen(chains[..b + 1]) == TotalLen(chains[..b]) + |chains[b]|
  {
    assert chains[..b + 1][..b] == chains[..b];
  }

  // Bucket b holds a well linked chain of handles of the table.
  ghost predicate ChainOk(heads: array<Handle?>, chains: seq<seq<Handle>>, order: seq<Handle>, b: nat)
    requires b < heads.Length && b < |chains|
    reads heads, order`hhNext, order`hhPrev
  {
    && (forall i :: 0 <= i < |chains[b]| ==> chains[b][i] in order)
    && Chained(heads[b], chains[b])
  }

  ghost predicate Buckets(heads: array<Handle?>, counts: array<nat>, chains: seq<seq<Handle>>, order: seq<Handle>)
    reads heads, counts, order`hhNext, order`hhPrev
  {
    && heads.Length == counts.Length == |chains|
    && (forall b :: 0 <= b < |chains| ==> counts[b] == |chains[b]|)
    && forall b {:trigger ChainOk(heads, chains, order, b)} :: 0 <= b < |chains| ==> ChainOk(heads, chains, order, b)
  }

  // While the table doubles: the handles of the first bi buckets, and the first k of the next,
  // have been moved.
  ghost predicate IsMoved(old0: seq<seq<Handle>>, place: nat -> nat, bi: nat, k: nat, h: Handle) {
    place(h.hashv) < bi || (bi < |old0| && k <= |old0[bi]| && h in old0[bi][..k])
  }

  ghost predicate HalfMoved(order: seq<Handle>, old0: seq<seq<Handle>>, new0: seq<seq<Handle>>,
                            place: nat -> nat, place': nat -> nat, bi: nat, k: nat)
  {
    && Placed(new0, place')
    && (forall b, h :: 0 <= b < |new0| && h in new0[b] ==> h in order && IsMoved(old0, place, bi, k, h))
    && (forall h :: h in order && IsMoved(old0, place, bi, k, h) ==> place'(h.hashv) < |new0| && h in new0[place'(h.hashv)])
  }

  // The part still to be moved can be walked.
  ghost predicate Walkable(old0: seq<seq<Handle>>, order: seq<Handle>, bi: nat, k: nat)
    reads order`hhNext, order`hhPrev
  {
    && (forall b, i :: 0 <= b < |old0| && 0 <= i < |old0[b]| ==> old0[b][i] in order)
    && (bi < |old0| ==> LinkedWithin(old0[bi], order, k))
    && forall b {:trigger LinkedWithin(old0[b], order, 0)} :: bi < b < |old0| ==> LinkedWithin(old0[b], order, 0)
  }

  ghost predicate LinkedWithin(chain: seq<Handle>, order: seq<Handle>, from: nat)
    reads order`hhNext, order`hhPrev
  {
    (forall i :: 0 <= i < |chain| ==> chain[i] in order) && LinkedFrom(chain, from)
  }

  // The handle moved next is not among those moved.
  lemma NextNotMoved(old0: seq<seq<Handle>>, place: nat -> nat, bi: nat, k: nat)
    requires Placed(old0, place) && bi < |old0| && k < |old0[bi]| && Distinct(old0[bi])
    ensures !IsMoved(old0, place, bi, k, old0[bi][k])
    ensures forall h :: IsMoved(old0, place, bi, k + 1, h) <==> IsMoved(old0, place, bi, k, h) || h == old0[bi][k]
  {
    var h := old0[bi][k];
    assert place(h.hashv) == bi;
    assert old0[bi][..k + 1] == old0[bi][..k] + [h];
  }

  lemma HalfMovedNext(order: seq<Handle>, old0: seq<seq<Handle>>, new0: seq<seq<Handle>>,
                      place: nat -> nat, place': nat -> nat, bi: nat, k: nat)
    requires Placed(old0, place) && bi < |old0| && k < |old0[bi]| && Distinct(old0[bi])
    requires old0[bi][k] in order && HalfMoved(order, old0, new0, place, place', bi, k)
    requires place'(old0[bi][k].hashv) < |new0|
    ensures var h := old0[bi][k]; var b := place'(h.hashv);
      && h !in new0[b]
      && HalfMoved(order, old0, new0[b := [h] + new0[b]], place, place', bi, k + 1)
  {
    var h := old0[bi][k];
    var b := place'(h.hashv);
    var new1 := new0[b := [h] + new0[b]];
    NextNotMoved(old0, place, bi, k);
    forall c, g: Handle | 0 <= c < |new1| && g in new1[c]
      ensures place'(g.hashv) == c && g in order && IsMoved(old0, place, bi, k + 1, g)
    {
      assert (g == h && c == b) || g in new0[c];
    }
  }

  lemma BucketDone(order: seq<Handle>, old0: seq<seq<Handle>>, new0: seq<seq<Handle>>,
                   place: nat -> nat, place': nat -> nat, bi: nat)
    requires Placed(old0, place) && bi < |old0|
    requires forall h :: h in order ==> place(h.hashv) < |old0| && h in old0[place(h.hashv)]
    requires HalfMoved(order, old0, new0, place, place', bi, |old0[bi]|)
    ensures HalfMoved(order, old0, new0, place, place', bi + 1, 0)
  {
    assert old0[bi][..|old0[bi]|] == old0[bi];
    forall h: Handle | h in order
      ensures IsMoved(old0, place, bi + 1, 0, h) <==> IsMoved(old0, place, bi, |old0[bi]|, h)
    {
      assert bi + 1 < |old0| ==> old0[bi + 1][..0] == [];
      assert h in old0[place(h.hashv)];
      assert h in old0[bi] ==> place(h.hashv) == bi;
    }
    forall b, h: Handle | 0 <= b < |new0| && h in new0[b]
      ensures place'(h.hashv) == b && h in order && IsMoved(old0, place, bi + 1, 0, h)
    {
    }
  }

  // Two chains of different buckets share no handle.
  lemma ChainsApart(chains: seq<seq<Handle>>, place: nat -> nat, b: nat, c: nat)
    requires Placed(chains, place) && b < |chains| && c < |chains| && b != c
    ensures forall g :: g in chains[c] ==> g !in chains[b]
  {
    forall g: Handle | g in chains[c]
      ensures g !in chains[b]
    {
      assert place(g.hashv) == c;
    }
  }

  // One handle is put in front of the chain of its bucket, and counted.
  method PutFront(h: Handle, b: nat, heads: array<Handle?>, counts: array<nat>,
                  ghost place: nat -> nat, ghost chains: seq<seq<Handle>>, ghost order: seq<Handle>)
    requires Buckets(heads, counts, chains, order)
    requires Placed(chains, place) && b == place(h.hashv) < |chains|
    requires h in order && h !in chains[b]
    modifies heads, counts, h`hhNext, h`hhPrev, OrNone(heads[b])`hhPrev
    ensures Buckets(heads, counts, chains[b := [h] + chains[b]], order)
    ensures forall g :: g in order && g != h ==> g.hhNext == old(g.hhNext)
  {
    counts[b] := counts[b] + 1;
    assert ChainOk(heads, chains, order, b);
    ghost var chains' := chains[b := [h] + chains[b]];
    forall c | 0 <= c < |chains| && c != b
      ensures ChainOk(heads, chains, order, c) && h !in chains[c] && heads[b] !in chains[c]
    {
      ChainsApart(chains, place, b, c);
    }
    LinkFront(heads, b, h, chains[b]);
    forall c | 0 <= c < |chains'|
      ensures ChainOk(heads, chains', order, c)
    {
    }
  }

  // The i-th handle of a chain is taken out of it, and uncounted.
  method TakeOut(h: Handle, b: nat, heads: array<Handle?>, counts: array<nat>,
                 ghost place: nat -> nat, ghost chains: seq<seq<Handle>>, ghost order: seq<Handle>, ghost i: nat)
    requires Buckets(heads, counts, chains, order) && Placed(chains, place)
    requires b < |chains| && i < |chains[b]| && chains[b][i] == h
    modifies heads, counts, chains[b]`hhNext, chains[b]`hhPrev
    ensures Buckets(heads, counts, chains[b := Without(chains[b], i)], order)
  {
    assert ChainOk(heads, chains, order, b);
    counts[b] := counts[b] - 1;
    ghost var chains' := chains[b := Without(chains[b], i)];
    forall c | 0 <= c < |chains| && c != b
      ensures Chained(heads[c], chains[c]) && (forall i :: 0 <= i < |chains[c]| ==> chains[c][i] in order && chains[c][i] !in chains[b])
    {
      assert ChainOk(heads, chains, order, c);
      ChainsApart(chains, place, b, c);
    }
    label Before:
    Unlink(heads, b, h, chains[b], i);
    forall c | 0 <= c < |chains'|
      ensures ChainOk(heads, chains', order, c)
    {
      assert c == b ==> Chained(heads[c], chains'[c]);
      assert c != b ==> old@Before(Chained(heads[c], chains[c]));
      assert c != b ==> Chained(heads[c], chains[c]);
    }
  }

  lemma WiderOrder(heads: array<Handle?>, counts: array<nat>, chains: seq<seq<Handle>>, order: seq<Handle>, h: Handle)
    requires Buckets(heads, counts, chains, order)
    ensures Buckets(heads, counts, chains, order + [h])
  {
    forall b | 0 <= b < |chains|
      ensures ChainOk(heads, chains, order + [h], b)
    {
      assert ChainOk(heads, chains, order, b);
    }
  }

  lemma NarrowerOrder(heads: array<Handle?>, counts: array<nat>, chains: seq<seq<Handle>>,
                      order: seq<Handle>, order': seq<Handle>)
    requires Buckets(heads, counts, chains, order)
    requires forall b, h :: 0 <= b < |chains| && h in chains[b] ==> h in order'
    ensures Buckets(heads, counts, chains, order')
  {
    forall b | 0 <= b < |chains|
      ensures ChainOk(heads, chains, order', b)
    {
      assert ChainOk(heads, chains, order, b);
      forall i | 0 <= i < |chains[b]|
        ensures chains[b][i] in order'
      {
      }
    }
  }

  // The same among the new buckets of a doubling, with the statistics kept there.
  method MoveHandle(h: Handle, b: nat, heads: array<Handle?>, counts: array<nat>, mults: array<nat>,
                    ideal: nat, rule: Rule, ghost place: nat -> nat, ghost chains: seq<seq<Handle>>, ghost order: seq<Handle>)
    returns (over: nat)
    requires Buckets(heads, counts, chains, order) && Allowed(rule, mults, chains, ideal) && counts != mults
    requires Placed(chains, place) && b == place(h.hashv) < |chains|
    requires h in order && h !in chains[b]
    requires 0 < ideal
    modifies heads, counts, mults, h`hhNext, h`hhPrev, OrNone(heads[b])`hhPrev
    ensures Buckets(heads, counts, chains[b := [h] + chains[b]], order)
    ensures Allowed(rule, mults, chains[b := [h] + chains[b]], ideal)
    ensures over == Over(|chains[b]| + 1, ideal) - Over(|chains[b]|, ideal)
    ensures forall g :: g in order && g != h ==> g.hhNext == old(g.hhNext)
  {
    over := 0;
    if counts[b] + 1 > ideal {
      over := 1;
      if rule == Dividing {
        mults[b] := (counts[b] + 1) / ideal;
      } else if counts[b] + 1 > mults[b] * ideal {
        mults[b] := mults[b] + 1;
      }
    }
    assert ChainOk(heads, chains, order, b);
    PutFront(h, b, heads, counts, place, chains, order);
  }

  // A later handle of the old chains is not the one just moved.
  lemma LaterIsOther(old0: seq<seq<Handle>>, place: nat -> nat, bi: nat, k: nat, c: nat, i: nat)
    requires Placed(old0, place) && bi < |old0| && k < |old0[bi]| && Distinct(old0[bi])
    requires (c == bi && k < i < |old0[bi]|) || (bi < c < |old0| && i < |old0[c]|)
    ensures old0[c][i] != old0[bi][k]
  {
    assert place(old0[c][i].hashv) == c && place(old0[bi][k].hashv) == bi;
  }

  // The state of the doubling before handle k of bucket bi is moved.
  ghost predicate MidMove(heads: array<Handle?>, counts: array<nat>, new0: seq<seq<Handle>>, log2: nat,
                          order: seq<Handle>, old0: seq<seq<Handle>>, place: nat -> nat, bi: nat, k: nat)
    reads heads, counts, order`hhNext, order`hhPrev
  {
    && |new0| == Pow2(log2) && Buckets(heads, counts, new0, order)
    && HalfMoved(order, old0, new0, place, BucketOf(log2), bi, k)
    && Walkable(old0, order, bi, k)
  }

  // What is counted while handles are moved: over of the total stand beyond the ideal.
  ghost predicate Tally(rule: Rule, mults: array<nat>, chains: seq<seq<Handle>>, ideal: nat, over: nat, total: nat)
    reads mults
  {
    0 < ideal && Allowed(rule, mults, chains, ideal) && over == Excess(chains, ideal) && total == TotalLen(chains)
  }

  // Relinking the k-th handle of an old chain leaves the later ones to be walked.
  method MoveLinked(h: Handle, b: nat, heads: array<Handle?>, counts: array<nat>, mults: array<nat>,
                    ideal: nat, rule: Rule, ghost place': nat -> nat, ghost chains: seq<seq<Handle>>, ghost order: seq<Handle>,
                    ghost old0: seq<seq<Handle>>, ghost place: nat -> nat, ghost bi: nat, ghost k: nat)
    returns (over: nat)
    requires Buckets(heads, counts, chains, order) && Allowed(rule, mults, chains, ideal) && counts != mults
    requires Placed(chains, place') && b == place'(h.hashv) < |chains|
    requires h in order && h !in chains[b] && 0 < ideal
    requires bi < |old0| && Placed(old0, place) && Distinct(old0[bi]) && k < |old0[bi]| && h == old0[bi][k]
    requires Walkable(old0, order, bi, k)
    modifies heads, counts, mults, order`hhNext, order`hhPrev
    ensures Buckets(heads, counts, chains[b := [h] + chains[b]], order)
    ensures Allowed(rule, mults, chains[b := [h] + chains[b]], ideal)
    ensures over == Over(|chains[b]| + 1, ideal) - Over(|chains[b]|, ideal)
    ensures Walkable(old0, order, bi, k + 1)
  {
    assert ChainOk(heads, chains, order, b);
    over := MoveHandle(h, b, heads, counts, mults, ideal, rule, place', chains, order);
    forall c: nat, i: nat | bi <= c < |old0| && (c == bi ==> k < i) && i < |old0[c]|
      ensures NextOk(old0[c], i)
    {
      LaterIsOther(old0, place, bi, k, c, i);
      assert old(LinkedWithin(old0[c], order, if c == bi then k else 0));
      assert old(NextOk(old0[c], i));
    }
  }

  // Moves handle k of bucket bi, and returns the one behind it.
  method MoveOne(thh: Handle, log2: nat, heads: array<Handle?>, counts: array<nat>, mults: array<nat>, ideal: nat, rule: Rule, over0: nat,
                 ghost order: seq<Handle>, ghost old0: seq<seq<Handle>>, ghost place: nat -> nat,
                 ghost new0: seq<seq<Handle>>, ghost total: nat, ghost bi: nat, ghost k: nat)
    returns (nxt: Handle?, over: nat, ghost new1: seq<seq<Handle>>)
    requires bi < |old0| && Placed(old0, place) && Distinct(old0[bi]) && k < |old0[bi]| && thh == old0[bi][k]
    requires MidMove(heads, counts, new0, log2, order, old0, place, bi, k)
    requires Tally(rule, mults, new0, ideal, over0, total) && counts != mults
    modifies heads, counts, mults, order`hhNext, order`hhPrev
    ensures MidMove(heads, counts, new1, log2, order, old0, place, bi, k + 1)
    ensures nxt == At(old0[bi], k + 1)
    ensures Tally(rule, mults, new1, ideal, over, total + 1)
  {
    assert LinkedWithin(old0[bi], order, k) && NextOk(old0[bi], k);
    nxt := thh.hhNext;
    var b := MaskedBy(thh.hashv, mults.Length, log2);
    HalfMovedNext(order, old0, new0, place, BucketOf(log2), bi, k);
    var more := MoveLinked(thh, b, heads, counts, mults, ideal, rule, BucketOf(log2), new0, order, old0, place, bi, k);
    new1 := new0[b := [thh] + new0[b]];
    TotalLenUpdate(new0, b, [thh] + new0[b]);
    ExcessUpdate(new0, b, [thh] + new0[b], ideal);
    over := over0 + more;
  }

  // Walks one old chain and moves its handles.
  method MoveChain(head: Handle?, log2: nat, heads: array<Handle?>, counts: array<nat>, mults: array<nat>, ideal: nat, rule: Rule, over0: nat,
                   ghost order: seq<Handle>, ghost old0: seq<seq<Handle>>, ghost place: nat -> nat,
                   ghost new0: seq<seq<Handle>>, ghost total: nat, ghost bi: nat)
    returns (over: nat, ghost new1: seq<seq<Handle>>)
    requires bi < |old0| && Placed(old0, place) && Distinct(old0[bi]) && head == At(old0[bi], 0)
    requires MidMove(heads, counts, new0, log2, order, old0, place, bi, 0)
    requires Tally(rule, mults, new0, ideal, over0, total) && counts != mults
    modifies heads, counts, mults, order`hhNext, order`hhPrev
    ensures MidMove(heads, counts, new1, log2, order, old0, place, bi, |old0[bi]|)
    ensures Tally(rule, mults, new1, ideal, over, total + |old0[bi]|)
  {
    over := over0;
    new1 := new0;
    var thh := head;
    ghost var k: nat, sum: nat := 0, total;
    ghost var chain := old0[bi];
    while thh != null
      invariant k <= |chain| && thh == At(chain, k) && sum == total + k
      invariant MidMove(heads, counts, new1, log2, order, old0, place, bi, k)
      invariant Tally(rule, mults, new1, ideal, over, sum)
      decreases |chain| - k
    {
      thh, over, new1 := MoveOne(thh, log2, heads, counts, mults, ideal, rule, over, order, old0, place, new1, sum, bi, k);
      k, sum := k + 1, sum + 1;
    }
  }

  // Nothing has been moved yet.
  lemma MoveStarts(buckets: array<Handle?>, heads: array<Handle?>, counts: array<nat>, empty: seq<seq<Handle>>, log2: nat,
                   order: seq<Handle>, old0: seq<seq<Handle>>, place: nat -> nat)
    requires buckets.Length == |old0|
    requires forall b {:trigger ChainOk(buckets, old0, order, b)} :: 0 <= b < |old0| ==> ChainOk(buckets, old0, order, b)
    requires |empty| == Pow2(log2) && Buckets(heads, counts, empty, order)
    requires forall b :: 0 <= b < |empty| ==> empty[b] == []
    ensures MidMove(heads, counts, empty, log2, order, old0, place, 0, 0)
    ensures forall b :: 0 <= b < |old0| ==> buckets[b] == At(old0[b], 0) && Distinct(old0[b])
  {
    forall b | 0 <= b < |old0|
      ensures buckets[b] == At(old0[b], 0) && Distinct(old0[b]) && LinkedWithin(old0[b], order, 0)
    {
      assert ChainOk(buckets, old0, order, b);
    }
    assert |old0| > 0 ==> old0[0][..0] == [];
  }

  // A bucket has been moved completely.
  lemma MoveGoesOn(heads: array<Handle?>, counts: array<nat>, new0: seq<seq<Handle>>, log2: nat,
                   order: seq<Handle>, old0: seq<seq<Handle>>, place: nat -> nat, bi: nat)
    requires Placed(old0, place) && bi < |old0|
    requires forall h :: h in order ==> place(h.hashv) < |old0| && h in old0[place(h.hashv)]
    requires MidMove(heads, counts, new0, log2, order, old0, place, bi, |old0[bi]|)
    ensures MidMove(heads, counts, new0, log2, order, old0, place, bi + 1, 0)
  {
    BucketDone(order, old0, new0, place, BucketOf(log2), bi);
    assert bi + 1 < |old0| ==> LinkedWithin(old0[bi + 1], order, 0);
  }

  // Everything has been moved.
  lemma MoveEnds(new0: seq<seq<Handle>>, log2: nat, order: seq<Handle>, old0: seq<seq<Handle>>, place: nat -> nat)
    requires forall h :: h in order ==> place(h.hashv) < |old0| && h in old0[place(h.hashv)]
    requires |new0| == Pow2(log2) && HalfMoved(order, old0, new0, place, BucketOf(log2), |old0|, 0)
    ensures Placed(new0, BucketOf(log2))
    ensures forall b, h :: 0 <= b < |new0| && h in new0[b] ==> h in order
    ensures forall h :: h in order ==> BucketOf(log2)(h.hashv) < |new0| && h in new0[BucketOf(log2)(h.hashv)]
  {
    forall h: Handle | h in order
      ensures BucketOf(log2)(h.hashv) < |new0| && h in new0[BucketOf(log2)(h.hashv)]
    {
      assert IsMoved(old0, place, |old0|, 0, h);
    }
  }

  // Moves the chains of all old buckets to the new ones.
  method MoveAll(buckets: array<Handle?>, log2: nat, heads: array<Handle?>, counts: array<nat>, mults: array<nat>, ideal: nat, rule: Rule,
                 ghost order: seq<Handle>, ghost old0: seq<seq<Handle>>, ghost place: nat -> nat,
                 ghost empty: seq<seq<Handle>>)
    returns (over: nat, ghost new1: seq<seq<Handle>>)
    requires 0 < ideal && buckets.Length == |old0| && Placed(old0, place) && buckets != heads
    requires forall h :: h in order ==> place(h.hashv) < |old0| && h in old0[place(h.hashv)]
    requires forall b {:trigger ChainOk(buckets, old0, order, b)} :: 0 <= b < |old0| ==> ChainOk(buckets, old0, order, b)
    requires |empty| == Pow2(log2) && Allowed(rule, mults, empty, ideal) && counts != mults && Buckets(heads, counts, empty, order)
    requires forall b :: 0 <= b < |empty| ==> empty[b] == []
    modifies heads, counts, mults, order`hhNext, order`hhPrev
    ensures |new1| == Pow2(log2) && Buckets(heads, counts, new1, order) && Placed(new1, BucketOf(log2))
    ensures forall b, h :: 0 <= b < |new1| && h in new1[b] ==> h in order
    ensures forall h :: h in order ==> BucketOf(log2)(h.hashv) < |new1| && h in new1[BucketOf(log2)(h.hashv)]
    ensures Allowed(rule, mults, new1, ideal)
    ensures over == Excess(new1, ideal) && TotalLen(new1) == TotalLen(old0)
  {
    over := 0;
    new1 := empty;
    AllEmpty(empty, ideal);
    MoveStarts(buckets, heads, counts, empty, log2, order, old0, place);
    var bi := 0;
    while bi < buckets.Length
      invariant 0 <= bi <= buckets.Length
      invariant MidMove(heads, counts, new1, log2, order, old0, place, bi, 0)
      invariant Tally(rule, mults, new1, ideal, over, TotalLen(old0[..bi]))
    {
      over, new1 := MoveChain(buckets[bi], log2, heads, counts, mults, ideal, rule, over, order, old0, place, new1,
                              TotalLen(old0[..bi]), bi);
      MoveGoesOn(heads, counts, new1, log2, order, old0, place, bi);
      TotalLenNext(old0, bi);
      bi := bi + 1;
    }
    assert old0[..bi] == old0;
    MoveEnds(new1, log2, order, old0, place);
  }

  // q is n / m rounded up.
  ghost predicate IsCeiling(n: nat, m: nat, q: nat) {
    q * m - m < n <= q * m
  }

  lemma RoundedUp(n: nat, m: nat)
    requires 0 < m
    ensures IsCeiling(n, m, n / m + (if n % m != 0 then 1 else 0))
  {
    assert n == m * (n / m) + n % m;
    assert (n / m + 1) * m == m * (n / m) + m;
  }

  // The ideal chain length for the doubled table: items per bucket, rounded up.
  method IdealChain(numItems: nat, numBuckets: nat, log2: nat) returns (ideal: nat)
    requires numBuckets == Pow2(log2)
    ensures IsCeiling(numItems, numBuckets * 2, ideal) && (0 < numItems ==> 0 < ideal)
  {
    RoundedUp(numItems, numBuckets * 2);
    var rest := MaskedBy(numItems, numBuckets * 2, log2 + 1);
    ideal := numItems / (numBuckets * 2) + (if rest != 0 then 1 else 0);
  }

  method NewBuckets(n: nat, ghost order: seq<Handle>)
    returns (heads: array<Handle?>, counts: array<nat>, mults: array<nat>, ghost empty: seq<seq<Handle>>)
    ensures fresh(heads) && fresh(counts) && fresh(mults) && counts != mults
    ensures |empty| == n == mults.Length && Buckets(heads, counts, empty, order)
    ensures forall b :: 0 <= b < n ==> empty[b] == []
    ensures forall b :: 0 <= b < n ==> mults[b] == 0
  {
    heads := new Handle?[n](_ => null);
    counts := new nat[n](_ => 0);
    mults := new nat[n](_ => 0);
    empty := seq(n, _ => []);
  }

  // The chains hold the table's handles, each in its own bucket, under different keys.
  ghost predicate Members(chains: seq<seq<Handle>>, log2: nat, order: seq<Handle>, hash: int -> nat) {
    var place := BucketOf(log2);
    && |chains| == Pow2(log2) && Placed(chains, place)
    && (forall b, h :: 0 <= b < |chains| && h in chains[b] ==> h in order)
    && (forall h :: h in order ==> place(h.hashv) < |chains| && h in chains[place(h.hashv)])
    && (forall h :: h in order ==> h.hashv == hash(h.key))
    && (forall i, j :: 0 <= i < j < |order| ==> order[i].key != order[j].key)
  }

  // The buckets in memory hold these chains.
  ghost predicate Layout(heads: array<Handle?>, counts: array<nat>, mults: array<nat>, numBuckets: nat, log2: nat,
                         chains: seq<seq<Handle>>, order: seq<Handle>)
    reads heads, counts, order`hhNext, order`hhPrev
  {
    && numBuckets == Pow2(log2) == mults.Length && counts != mults
    && Buckets(heads, counts, chains, order)
  }

  // A handle with a new key joins the order and its bucket.
  lemma MembersAdded(chains: seq<seq<Handle>>, log2: nat, order: seq<Handle>, hash: int -> nat, h: Handle)
    requires Members(chains, log2, order, hash)
    requires h.hashv == hash(h.key) && forall g :: g in order ==> g.key != h.key
    ensures var b := Bucket(h.hashv, log2);
      && h !in chains[b]
      && Members(chains[b := [h] + chains[b]], log2, order + [h], hash)
  {
    var place := BucketOf(log2);
    var b := Bucket(h.hashv, log2);
    var chains', order' := chains[b := [h] + chains[b]], order + [h];
    assert h !in chains[b];
    forall c, g: Handle | 0 <= c < |chains'| && g in chains'[c]
      ensures place(g.hashv) == c && g in order'
    {
      assert (g == h && c == b) || g in chains[c];
    }
    forall g: Handle | g in order'
      ensures place(g.hashv) < |chains'| && g in chains'[place(g.hashv)]
    {
      assert g == h || g in order;
    }
  }

  // The k-th handle of the order, the i-th of its bucket, leaves both.
  lemma MembersRemoved(chains: seq<seq<Handle>>, log2: nat, order: seq<Handle>, hash: int -> nat, k: nat, b: nat, i: nat)
    requires Members(chains, log2, order, hash)
    requires k < |order| && b < |chains| && i < |chains[b]| && chains[b][i] == order[k] && Distinct(chains[b])
    ensures Members(chains[b := Without(chains[b], i)], log2, Without(order, k), hash)
  {
    var place := BucketOf(log2);
    var chains', order' := chains[b := Without(chains[b], i)], Without(order, k);
    WithoutElements(chains[b], i);
    WithoutElements(order, k);
    forall c, g: Handle | 0 <= c < |chains'| && g in chains'[c]
      ensures place(g.hashv) == c && g in order'
    {
      assert g in chains[c];
      assert place(g.hashv) == c && place(order[k].hashv) == b;
      assert c != b ==> g != order[k];
    }
    forall g: Handle | g in order'
      ensures place(g.hashv) < |chains'| && g in chains'[place(g.hashv)]
    {
      assert g in chains[place(g.hashv)];
    }
  }

  // Where the k-th handle of the order stands in its chain, and what removing it means.
  lemma Located(chains: seq<seq<Handle>>, log2: nat, order: seq<Handle>, hash: int -> nat, h: Handle, k: nat)
    returns (i: nat)
    requires Members(chains, log2, order, hash) && k < |order| && order[k] == h
    requires Distinct(chains[Bucket(h.hashv, log2)])
    ensures var b := Bucket(h.hashv, log2);
      && i < |chains[b]| && chains[b][i] == h
      && Members(chains[b := Without(chains[b], i)], log2, Without(order, k), hash)
      && TotalLen(chains[b := Without(chains[b], i)]) == TotalLen(chains) - 1
    ensures forall g :: g in Without(order, k) <==> g in order && g != h
    ensures KeysOf(Without(order, k)) == KeysOf(order) - {h.key}
  {
    var b := Bucket(h.hashv, log2);
    assert h in chains[BucketOf(log2)(h.hashv)];
    i :| 0 <= i < |chains[b]| && chains[b][i] == h;
    MembersRemoved(chains, log2, order, hash, k, b, i);
    WithoutElements(order, k);
    KeysRemoved(order, Without(order, k), h);
    TotalLenUpdate(chains, b, Without(chains[b], i));
  }

  // Only the removed handle is gone.
  lemma WithoutElements(s: seq<Handle>, i: nat)
    requires i < |s| && Distinct(s)
    ensures forall g :: g in Without(s, i) <==> g in s && g != s[i]
  {
    var t := Without(s, i);
    forall g | g in s && g != s[i]
      ensures g in t
    {
      var j :| 0 <= j < |s| && s[j] == g;
      assert g == t[if j < i then j else j - 1];
    }
  }

  // Nothing the membership of the chains depends on is changed by a doubling but the chains.
  lemma MembersMoved(old0: seq<seq<Handle>>, log2: nat, new0: seq<seq<Handle>>, log2': nat, order: seq<Handle>, hash: int -> nat)
    requires Members(old0, log2, order, hash)
    requires |new0| == Pow2(log2') && Placed(new0, BucketOf(log2'))
    requires forall b, h :: 0 <= b < |new0| && h in new0[b] ==> h in order
    requires forall h :: h in order ==> BucketOf(log2')(h.hashv) < |new0| && h in new0[BucketOf(log2')(h.hashv)]
    ensures Members(new0, log2', order, hash)
  {
  }

  // Twice as many new buckets, with all handles moved to them.
  method Doubled(buckets: array<Handle?>, ghost counts: array<nat>, ghost mults: array<nat>, numBuckets: nat, log2: nat,
                 numItems: nat, rule: Rule, ghost chains: seq<seq<Handle>>, ghost order: seq<Handle>, ghost hash: int -> nat)
    returns (newHeads: array<Handle?>, newCounts: array<nat>, newMults: array<nat>, ideal: nat, over: nat,
             ghost moved: seq<seq<Handle>>)
    requires 0 < numItems
    requires Members(chains, log2, order, hash) && Layout(buckets, counts, mults, numBuckets, log2, chains, order)
    modifies order`hhNext, order`hhPrev
    ensures fresh(newHeads) && fresh(newCounts) && fresh(newMults)
    ensures Members(moved, log2 + 1, order, hash)
    ensures Layout(newHeads, newCounts, newMults, 2 * numBuckets, log2 + 1, moved, order)
    ensures IsCeiling(numItems, numBuckets * 2, ideal) && over == Excess(moved, ideal)
    ensures Allowed(rule, newMults, moved, ideal) && TotalLen(moved) == TotalLen(chains)
  {
    ghost var empty;
    newHeads, newCounts, newMults, empty := NewBuckets(numBuckets * 2, order);
    ideal := IdealChain(numItems, numBuckets, log2);
    over, moved := MoveAll(buckets, log2 + 1, newHeads, newCounts, newMults, ideal, rule,
                           order, chains, BucketOf(log2), empty);
    MembersMoved(chains, log2, moved, log2 + 1, order, hash);
  }

  ghost function KeysOf(order: seq<Handle>): set<int> {
    set h | h in order :: h.key
  }

  lemma KeysAdded(order: seq<Handle>, h: Handle)
    ensures KeysOf(order + [h]) == KeysOf(order) + {h.key}
    ensures h.key !in KeysOf(order) ==> forall g :: g in order ==> g.key != h.key
  {
    forall g | g in order
      ensures g.key in KeysOf(order) && g in order + [h]
    {
    }
    assert h in order + [h];
    assert forall g :: g in order + [h] ==> g == h || g in order;
  }

  lemma KeysRemoved(order: seq<Handle>, order': seq<Handle>, h: Handle)
    requires h in order && forall g :: g in order' <==> g in order && g != h
    requires forall i, j :: 0 <= i < j < |order| ==> order[i].key != order[j].key
    ensures KeysOf(order') == KeysOf(order) - {h.key}
  {
    forall g | g in order'
      ensures g.key in KeysOf(order) && g.key != h.key
    {
      var i :| 0 <= i < |order| && order[i] == g;
      var j :| 0 <= j < |order| && order[j] == h;
      assert i != j;
    }
  }

  // There is one handle per key.
  lemma {:induction false} KeysCounted(order: seq<Handle>)
    requires forall i, j :: 0 <= i < j < |order| ==> order[i].key != order[j].key
    ensures |KeysOf(order)| == |order|
  {
    if |order| > 0 {
      var n := |order| - 1;
      KeysCounted(order[..n]);
      assert order == order[..n] + [order[n]];
      KeysAdded(order[..n], order[n]);
      assert order[n].key !in KeysOf(order[..n]);
    } else {
      assert KeysOf(order) == {};
    }
  }

  class Table {
    const hash: int -> nat
    const rule: Rule
    // The ends of the list of all elements, in the order they were added.
    var first: Handle?
    var tail: Handle?
    var heads: array<Handle?>
    var counts: array<nat>
    var expandMult: array<nat>
    var numBuckets: nat
    var log2NumBuckets: nat
    var numItems: nat
    var idealChainMaxlen: nat
    var nonidealItems: nat
    var ineffExpands: nat
    var noexpand: bool
    ghost var order: seq<Handle>
    ghost var chains: seq<seq<Handle>>

    ghost predicate Valid()
      reads this, heads, counts, expandMult, order
    {
      Ordered(first, tail, order) && Hashed()
    }

    // The buckets hold the elements.
    ghost predicate Hashed()
      reads this`chains, this`order, this`heads, this`counts, this`expandMult, this`numBuckets, this`log2NumBuckets
      reads this`numItems, heads, counts, expandMult, order`hhNext, order`hhPrev
    {
      && Members(chains, log2NumBuckets, order, hash)
      && Layout(heads, counts, expandMult, numBuckets, log2NumBuckets, chains, order)
      && numItems == |order| == TotalLen(chains)
    }

    ghost function Arrays(): set<object>
      reads this
    {
      {heads as object, counts, expandMult}
    }

    ghost function Keys(): set<int>
      reads this
    {
      KeysOf(order)
    }

    constructor (hash: int -> nat, rule: Rule)
      ensures Valid() && Keys() == {} && order == [] && this.hash == hash && this.rule == rule
      ensures fresh(heads) && fresh(counts) && fresh(expandMult)
      ensures numBuckets == 32 && !noexpand
    {
      this.hash, this.rule := hash, rule;
      first, tail := null, null;
      numBuckets, log2NumBuckets, numItems := INITIAL_BUCKETS, 5, 0;
      idealChainMaxlen, nonidealItems, ineffExpands, noexpand := 0, 0, 0, false;
      order := [];
      var hs, cs, ms;
      ghost var empty;
      hs, cs, ms, empty := NewBuckets(INITIAL_BUCKETS, []);
      heads, counts, expandMult, chains := hs, cs, ms, empty;
      new;
      AllEmpty(chains, 0);
      assert Pow2(5) == 32;
    }

    // Replaces the buckets by twice as many. The ideal chain length is the items per bucket,
    // rounded up, and nonidealItems counts the items in excess of it.
    method Rebuild()
      requires Hashed() && 0 < numItems
      modifies `heads, `counts, `expandMult, `numBuckets, `log2NumBuckets, `idealChainMaxlen, `nonidealItems, `chains, order`hhNext, order`hhPrev
      ensures Hashed()
      ensures fresh(heads) && fresh(counts) && fresh(expandMult)
      ensures numBuckets == 2 * old(numBuckets) && log2NumBuckets == old(log2NumBuckets) + 1
      ensures IsCeiling(numItems, numBuckets, idealChainMaxlen)
      ensures nonidealItems == |Nonideal(chains, idealChainMaxlen)|
      ensures nonidealItems == Excess(chains, idealChainMaxlen) && Allowed(rule, expandMult, chains, idealChainMaxlen)
    {
      var newHeads, newCounts, newMults, ideal, over;
      ghost var moved;
      newHeads, newCounts, newMults, ideal, over, moved :=
        Doubled(heads, counts, expandMult, numBuckets, log2NumBuckets, numItems, rule, chains, order, hash);
      idealChainMaxlen, nonidealItems := ideal, over;
      ExcessCounts(moved, ideal);
      Adopt(newHeads, newCounts, newMults, moved);
    }

    // Takes over new buckets of twice the number.
    method Adopt(newHeads: array<Handle?>, newCounts: array<nat>, newMults: array<nat>, ghost moved: seq<seq<Handle>>)
      requires Members(moved, log2NumBuckets + 1, order, hash)
      requires Layout(newHeads, newCounts, newMults, 2 * numBuckets, log2NumBuckets + 1, moved, order)
      requires numItems == |order| == TotalLen(moved)
      modifies `heads, `counts, `expandMult, `numBuckets, `log2NumBuckets, `chains
      ensures Hashed() && heads == newHeads && counts == newCounts && expandMult == newMults && chains == moved
      ensures numBuckets == 2 * old(numBuckets) && log2NumBuckets == old(log2NumBuckets) + 1
    {
      heads, counts, expandMult, chains := newHeads, newCounts, newMults, moved;
      numBuckets, log2NumBuckets := numBuckets * 2, log2NumBuckets + 1;
    }

    // Doubles the buckets, and gives up doubling after two times in a row that helped too little.
    method Expand()
      requires Hashed() && 0 < numItems
      modifies `heads, `counts, `expandMult, `numBuckets, `log2NumBuckets, `idealChainMaxlen, `nonidealItems, `chains
      modifies `ineffExpands, `noexpand, order`hhNext, order`hhPrev
      ensures Hashed()
      ensures fresh(heads) && fresh(counts) && fresh(expandMult)
      ensures numBuckets == 2 * old(numBuckets) && log2NumBuckets == old(log2NumBuckets) + 1
      ensures IsCeiling(numItems, numBuckets, idealChainMaxlen)
      ensures nonidealItems == |Nonideal(chains, idealChainMaxlen)|
      ensures nonidealItems == Excess(chains, idealChainMaxlen) && Allowed(rule, expandMult, chains, idealChainMaxlen)
      ensures ineffExpands == if nonidealItems > numItems / 2 then old(ineffExpands) + 1 else 0
      ensures noexpand == (old(noexpand) || ineffExpands > 1)
    {
      Rebuild();
      if nonidealItems > numItems / 2 {
        ineffExpands := ineffExpands + 1;
      } else {
        ineffExpands := 0;
      }
      if ineffExpands > 1 {
        noexpand := true;
      }
    }

    // Appends an element to the list, puts it in front of its bucket's chain and, when the
    // chain has reached ten times its allowance, doubles the table.
    method Add(h: Handle)
      requires Valid()
      requires h.key !in Keys() && h.hashv == hash(h.key)
      modifies this, heads, counts, order, h
      ensures Valid() && order == old(order) + [h] && Keys() == old(Keys()) + {h.key}
      ensures var b := old(Bucket(h.hashv, log2NumBuckets));
        log2NumBuckets == old(log2NumBuckets) +
          if old(|chains[b]|) + 1 >= (old(expandMult[b]) + 1) * 10 && !old(noexpand) then 1 else 0
      ensures (heads == old(heads) || fresh(heads)) && (counts == old(counts) || fresh(counts))
      ensures expandMult == old(expandMult) || fresh(expandMult)
    {
      var b := Enter(h);
      ExpandIfLong(b);
    }

    method Enter(h: Handle) returns (b: nat)
      requires Valid()
      requires h.key !in Keys() && h.hashv == hash(h.key)
      modifies `first, `tail, `numItems, `order, `chains, heads, counts, order, h
      ensures Valid() && order == old(order) + [h] && Keys() == old(Keys()) + {h.key}
      ensures b == Bucket(h.hashv, log2NumBuckets) < |chains| && |chains[b]| == |old(chains[b])| + 1
    {
      KeysAdded(order, h);
      AppendToOrder(h);
      label Appended:
      b := AddToBucket(h);
      assert old@Appended(Ordered(first, tail, order + [h]));
    }

    method AppendToOrder(h: Handle)
      requires Valid() && h.key !in Keys()
      modifies `first, `tail, h`next, h`prev, OrNone(tail)`next
      ensures Hashed() && Ordered(first, tail, order + [h])
    {
      KeysAdded(order, h);
      var head := Append(h, first, tail, order);
      assert Hashed();
      first, tail := head, h;
    }

    method ExpandIfLong(b: nat)
      requires Valid() && 0 < numItems && b < |chains|
      modifies `heads, `counts, `expandMult, `numBuckets, `log2NumBuckets, `idealChainMaxlen, `nonidealItems, `chains
      modifies `ineffExpands, `noexpand, order`hhNext, order`hhPrev
      ensures Valid()
      ensures (heads == old(heads) || fresh(heads)) && (counts == old(counts) || fresh(counts))
      ensures expandMult == old(expandMult) || fresh(expandMult)
      ensures log2NumBuckets == old(log2NumBuckets) +
          if old(|chains[b]|) >= (old(expandMult[b]) + 1) * CHAIN_THRESHOLD && !old(noexpand) then 1 else 0
    {
      if counts[b] >= (expandMult[b] + 1) * CHAIN_THRESHOLD {
        if !noexpand {
          Expand();
        }
      }
    }

    method AddToBucket(h: Handle) returns (b: nat)
      requires Hashed()
      requires h.key !in Keys() && h.hashv == hash(h.key)
      modifies `numItems, `order, `chains, heads, counts, order`hhNext, order`hhPrev, h`hhNext, h`hhPrev
      ensures Hashed() && order == old(order) + [h]
      ensures b == Bucket(h.hashv, log2NumBuckets) < |chains| && |chains[b]| == |old(chains[b])| + 1
    {
      ghost var order0, chains0 := order, chains;
      order := order + [h];
      numItems := numItems + 1;
      b := MaskedBy(h.hashv, numBuckets, log2NumBuckets);
      KeysAdded(order0, h);
      MembersAdded(chains0, log2NumBuckets, order0, hash, h);
      WiderOrder(heads, counts, chains0, order0, h);
      assert ChainOk(heads, chains0, order0, b);
      PutFront(h, b, heads, counts, BucketOf(log2NumBuckets), chains0, order);
      chains := chains0[b := [h] + chains0[b]];
      TotalLenUpdate(chains0, b, [h] + chains0[b]);
    }

    // Takes an element out of the list and out of its chain.
    method Remove(h: Handle)
      requires Valid() && h in order
      modifies `first, `tail, `numItems, `order, `chains, heads, counts
      modifies order`next, order`prev, order`hhNext, order`hhPrev
      ensures Valid() && Keys() == old(Keys()) - {h.key} && |order| == |old(order)| - 1
      ensures forall g :: g in order <==> g in old(order) && g != h
    {
      ghost var k :| 0 <= k < |order| && order[k] == h;
      RemoveAt(h, k);
      WithoutElements(old(order), k);
      KeysRemoved(old(order), order, h);
    }

    method RemoveAt(h: Handle, ghost k: nat)
      requires Valid() && k < |order| && order[k] == h
      modifies `first, `tail, `numItems, `order, `chains, heads, counts
      modifies order`next, order`prev, order`hhNext, order`hhPrev
      ensures Valid() && order == Without(old(order), k)
    {
      DetachFromOrder(h, k);
      label Detached:
      RemoveFromBucket(h, k);
      assert old@Detached(Ordered(first, tail, Without(order, k)));
    }

    method DetachFromOrder(h: Handle, ghost k: nat)
      requires Valid() && k < |order| && order[k] == h
      modifies `first, `tail, order`next, order`prev
      ensures Hashed() && Ordered(first, tail, Without(order, k))
    {
      var head, end := Detach(h, first, tail, order, k);
      assert Hashed();
      first, tail := head, end;
    }

    method RemoveFromBucket(h: Handle, ghost k: nat)
      requires Hashed() && k < |order| && order[k] == h
      modifies `numItems, `order, `chains, heads, counts, order`hhNext, order`hhPrev
      ensures Hashed() && order == Without(old(order), k)
    {
      ghost var order0, chains0 := order, chains;
      var b := MaskedBy(h.hashv, numBuckets, log2NumBuckets);
      assert ChainOk(heads, chains, order, b);
      ghost var i := Located(chains0, log2NumBuckets, order0, hash, h, k);
      TakeOut(h, b, heads, counts, BucketOf(log2NumBuckets), chains0, order0, i);
      chains, order := chains0[b := Without(chains0[b], i)], Without(order0, k);
      NarrowerOrder(heads, counts, chains, order0, order);
      numItems := numItems - 1;
    }

    // Searches the chain of the key's bucket.
    method Find(key: int) returns (e: Handle?)
      requires Valid()
      ensures e == null <==> key !in Keys()
      ensures e != null ==> e in order && e.key == key
    {
      var b := MaskedBy(hash(key), numBuckets, log2NumBuckets);
      assert ChainOk(heads, chains, order, b);
      e := FindInChain(heads[b], key, hash(key), chains[b]);
      if e == null {
        forall h | h in order
          ensures h.key != key
        {
          assert h in chains[BucketOf(log2NumBuckets)(h.hashv)];
        }
      }
    }
  }
}
