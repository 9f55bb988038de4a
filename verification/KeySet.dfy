/** A set of keys kept in a hash table that exists only while the set has members. */
module KeySet {
  import opened Wrappers
  import opened HashChains
  import opened OrderList
  import opened HashTable

  ghost function Below(n: nat): set<int> {
    if n == 0 then {} else Below(n - 1) + {n - 1}
  }

  lemma {:induction false} BelowElements(n: nat)
    ensures forall k :: k in Below(n) <==> 0 <= k < n
  {
    if n > 0 {
      BelowElements(n - 1);
    }
  }

  // How many of the keys are below n.
  ghost function Present(keys: set<int>, n: nat): nat {
    if n == 0 then 0 else Present(keys, n - 1) + if n - 1 in keys then 1 else 0
  }

  lemma {:induction false} PresentIsSize(keys: set<int>, n: nat)
    ensures Present(keys, n) == |keys * Below(n)|
  {
    if n > 0 {
      PresentIsSize(keys, n - 1);
      BelowElements(n - 1);
      SharedNext(keys, Below(n - 1), n - 1);
    }
  }

  lemma SharedNext(keys: set<int>, s: set<int>, k: int)
    requires k !in s
    ensures |keys * (s + {k})| == |keys * s| + if k in keys then 1 else 0
  {
    if k in keys {
      assert keys * (s + {k}) == keys * s + {k};
    } else {
      assert keys * (s + {k}) == keys * s;
    }
  }

  lemma FillNext(keys: set<int>, i: nat)
    ensures keys + Below(i) + {i} == keys + Below(i + 1)
  {
  }

  lemma OnlyKey(first: Handle?, tail: Handle?, order: seq<Handle>, h: Handle)
    requires Ordered(first, tail, order) && h in order
    ensures h.prev == null && h.next == null <==> |order| == 1
    ensures |order| == 1 ==> KeysOf(order) == {h.key}
  {
    OnlyOne(first, tail, order, h);
    assert |order| == 1 ==> order == [h];
  }

  class KeySet {
    const hash: int -> nat
    const rule: Rule
    var table: Option<Table>

    ghost var keys: set<int>
    ghost var repr: set<object>

    ghost predicate Valid()
      reads this, repr
    {
      match table
      case None => this in repr && keys == {}
      case Some(t) =>
        {this, t} <= repr && t.order != [] && Backed()
    }

    // There is a table, and it holds the keys within the footprint.
    ghost predicate Backed()
      reads this, repr
    {
      match table
      case None => false
      case Some(t) =>
        && t in repr && t.Arrays() <= repr && (forall h :: h in t.order ==> h in repr)
        && t.hash == hash && t.Valid() && keys == t.Keys()
    }

    // The table, made if there is none.
    method TheTable() returns (t: Table)
      requires Valid()
      modifies this
      ensures this in repr && table == Some(t) && Backed()
      ensures keys == old(keys) && fresh(repr - old(repr))
    {
      if table == None {
        t := new Table(hash, rule);
        table := Some(t);
        repr := repr + {t} + t.Arrays();
      } else {
        t := table.value;
      }
    }

    constructor (hash: int -> nat, rule: Rule)
      ensures Valid() && keys == {} && fresh(repr) && this.hash == hash
    {
      this.hash, this.rule := hash, rule;
      table := None;
      keys, repr := {}, {this};
    }

    method Contains(key: int) returns (found: bool)
      requires Valid()
      ensures found == (key in keys)
    {
      if table == None {
        return false;
      }
      var e := table.value.Find(key);
      return e != null;
    }

    // Adds the key unless it is there; the first key makes the table.
    method AddIfAbsent(key: int) returns (added: bool)
      requires Valid()
      modifies repr
      ensures Valid() && fresh(repr - old(repr))
      ensures keys == old(keys) + {key} && added == (key !in old(keys))
    {
      var present := Contains(key);
      if present {
        return false;
      }
      Insert(key);
      return true;
    }

    method Insert(key: int)
      requires Valid() && key !in keys
      modifies repr
      ensures Valid() && fresh(repr - old(repr))
      ensures keys == old(keys) + {key}
    {
      var e := new Handle(key, hash(key));
      var t := TheTable();
      Join(t, e);
    }

    method Join(t: Table, e: Handle)
      requires this in repr && table == Some(t) && Backed()
      requires e.key !in keys && e.hashv == hash(e.key)
      modifies repr, e
      ensures Valid() && keys == old(keys) + {e.key}
      ensures fresh(repr - old(repr) - {e})
    {
      t.Add(e);
      Track(t, e);
      assert repr - old(repr) - {e} <= t.Arrays() - old(t.Arrays());
    }

    // The ghost fields follow the table after e was added to it.
    ghost method Track(t: Table, e: Handle)
      requires table == Some(t) && {this, t} <= repr && t.Valid() && t.hash == hash && t.order != []
      requires forall h :: h in t.order ==> h == e || h in repr
      modifies `keys, `repr
      ensures Valid() && keys == t.Keys() && repr == old(repr) + {e} + t.Arrays()
    {
      keys := t.Keys();
      repr := repr + {e} + t.Arrays();
    }

    // Removes the key if it is there; the last key takes the table with it.
    method Delete(key: int) returns (deleted: bool)
      requires Valid()
      modifies repr
      ensures Valid() && repr <= old(repr)
      ensures keys == old(keys) - {key} && deleted == (key in old(keys))
    {
      if table == None {
        return false;
      }
      var t := table.value;
      var e := t.Find(key);
      if e == null {
        return false;
      }
      OnlyKey(t.first, t.tail, t.order, e);
      if e.prev == null && e.next == null {
        table := None;
        keys := {};
      } else {
        DeleteFrom(t, e);
      }
      return true;
    }

    method DeleteFrom(t: Table, e: Handle)
      requires Valid() && table == Some(t) && e in t.order && 1 < |t.order|
      modifies repr
      ensures Valid() && repr == old(repr) && table == old(table)
      ensures keys == old(keys) - {e.key}
    {
      t.Remove(e);
      keys := keys - {e.key};
    }

    // A writer adds the keys below n that are missing.
    method Fill(n: nat)
      requires Valid()
      modifies repr
      ensures Valid() && fresh(repr - old(repr))
      ensures keys == old(keys) + Below(n)
    {
      var i := 0;
      while i < n
        invariant i <= n
        invariant Valid() && fresh(repr - old(repr))
        invariant keys == old(keys) + Below(i)
      {
        var _ := AddIfAbsent(i);
        FillNext(old(keys), i);
        i := i + 1;
      }
    }

    // A reader counts the keys below n that are there.
    method CountPresent(n: nat) returns (found: nat)
      requires Valid()
      ensures found == Present(keys, n)
    {
      found := 0;
      var i := 0;
      while i < n
        invariant i <= n
        invariant found == Present(keys, i)
      {
        var present := Contains(i);
        if present {
          found := found + 1;
        }
        i := i + 1;
      }
    }

    // The item count is the number of keys.
    method Size() returns (n: nat)
      requires Valid()
      ensures n == |keys|
    {
      if table == None {
        return 0;
      }
      KeysCounted(table.value.order);
      return table.value.numItems;
    }
  }
}
