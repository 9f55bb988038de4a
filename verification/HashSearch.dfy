/** The second literal searcher: two-byte words of the pattern in an open-addressing table. */
module HashSearch {
  import opened Wrappers
  import opened Bytes
  import opened LiteralSpec

  const CELLS := 65536

  // Two bytes read as one little-endian 16-bit word.
  function WordAt(a: byte, b: byte): (h: nat)
    ensures h < CELLS
  {
    (a + 256 * b) % CELLS
  }

  // The d-th cell tried from h.
  function Cell(h: nat, d: nat): (c: nat)
    ensures c < CELLS
  {
    (h + d) % CELLS
  }

  predicate IsTable(t: seq<byte>) {
    |t| == CELLS
  }

  // The cell found d steps from h holds pattern index i, and no cell before it is empty or
  // holds a smaller index.
  ghost predicate Reaches(t: seq<byte>, h: nat, i: nat, d: nat)
    requires IsTable(t)
  {
    && t[Cell(h, d)] == i + 1
    && forall e: nat :: e < d ==> t[Cell(h, e)] >= i + 1
  }

  ghost predicate Listed(t: seq<byte>, h: nat, i: nat)
    requires IsTable(t)
  {
    exists d: nat :: d < CELLS && Reaches(t, h, i, d)
  }

  // Text bytes a and b match the pattern at i and i + 1.
  predicate WordMatches(sensitive: bool, find: seq<byte>, i: nat, a: byte, b: byte)
    requires i + 1 < |find|
  {
    Fold(sensitive, a) == find[i] && Fold(sensitive, b) == find[i + 1]
  }

  // Every matching word leads to index i, for all indices from lo on.
  ghost predicate ListsFrom(sensitive: bool, find: seq<byte>, t: seq<byte>, lo: int)
    requires IsTable(t)
  {
    forall i: nat, a: byte, b: byte :: lo <= i && i + 1 < |find| && WordMatches(sensitive, find, i, a, b)
      ==> Listed(t, WordAt(a, b), i)
  }

  ghost predicate Values(t: seq<byte>, lo: int, hi: int) {
    forall c :: 0 <= c < |t| ==> t[c] == 0 || lo <= t[c] <= hi
  }

  // What the searcher needs of the table.
  ghost predicate HashTable(sensitive: bool, find: seq<byte>, t: seq<byte>) {
    && IsTable(t)
    && ListsFrom(sensitive, find, t, 0)
    && Values(t, 1, |find| - 1)
    && 0 in t
  }

  // ---- cells in use ----

  ghost function Used(t: seq<byte>): set<int> {
    set c | 0 <= c < |t| && t[c] != 0
  }

  ghost function Below(n: nat): (s: set<int>)
    ensures |s| == n && forall x :: x in s <==> 0 <= x < n
  {
    if n == 0 then {} else Below(n - 1) + {n - 1}
  }

  lemma SubsetSize(a: set<int>, b: set<int>)
    requires a <= b
    ensures |a| <= |b| && (|a| == |b| ==> a == b)
  {
    assert b == a + (b - a);
  }

  // Some cell is free exactly when not all are in use.
  lemma SomeCellFree(t: seq<byte>)
    ensures 0 in t <==> |Used(t)| < |t|
    ensures |Used(t)| <= |t|
  {
    assert Used(t) <= Below(|t|);
    SubsetSize(Used(t), Below(|t|));
    if c :| 0 <= c < |t| && t[c] == 0 {
      assert c in Below(|t|) && c !in Used(t);
    } else {
      assert Used(t) == Below(|t|);
    }
  }

  // The offset at which a probe from h meets cell c.
  function OffsetTo(h: nat, c: nat): (d: nat)
    requires h < CELLS && c < CELLS
    ensures d < CELLS && Cell(h, d) == c
  {
    if h <= c then c - h else c + CELLS - h
  }

  // ---- one insertion ----

  // What t lists u lists too.
  ghost predicate KeepsListed(t: seq<byte>, u: seq<byte>)
    requires IsTable(t) && IsTable(u)
  {
    forall g: nat, i: nat {:trigger Listed(u, g, i)} :: Listed(t, g, i) ==> Listed(u, g, i)
  }

  lemma KeptThrough(t: seq<byte>, u: seq<byte>, w: seq<byte>)
    requires IsTable(t) && IsTable(u) && IsTable(w) && KeepsListed(t, u) && KeepsListed(u, w)
    ensures KeepsListed(t, w)
  {
  }

  // The first free cell at or after h is d steps away.
  ghost predicate FirstFree(t: seq<byte>, h: nat, d: nat)
    requires IsTable(t)
  {
    d < CELLS && t[Cell(h, d)] == 0 && forall e: nat :: e < d ==> t[Cell(h, e)] != 0
  }

  lemma {:induction false} FreeFrom(t: seq<byte>, h: nat, from: nat, limit: nat) returns (d: nat)
    requires IsTable(t) && from <= limit < CELLS && t[Cell(h, limit)] == 0
    requires forall e: nat :: e < from ==> t[Cell(h, e)] != 0
    ensures FirstFree(t, h, d)
    decreases limit - from
  {
    if t[Cell(h, from)] == 0 {
      d := from;
    } else {
      d := FreeFrom(t, h, from + 1, limit);
    }
  }

  lemma FreeExists(t: seq<byte>, h: nat)
    requires IsTable(t) && h < CELLS && 0 in t
    ensures exists d: nat :: FirstFree(t, h, d)
  {
    var free :| 0 <= free < CELLS && t[free] == 0;
    var d := FreeFrom(t, h, 0, OffsetTo(h, free));
  }

  // The table after v has been written at the end of a probe from h; None when the probe goes
  // round a full table for ever.
  ghost function Inserted(t: seq<byte>, h: nat, v: byte): Option<seq<byte>>
    requires IsTable(t) && h < CELLS
  {
    if 0 in t then
      FreeExists(t, h);
      var d: nat :| FirstFree(t, h, d);
      Some(t[Cell(h, d) := v])
    else
      None
  }

  // In a full table no number of steps leads a probe to a free cell.
  lemma ProbeNeverEnds(t: seq<byte>, h: nat, v: byte)
    requires IsTable(t) && h < CELLS
    ensures Inserted(t, h, v).None? <==> forall d: nat :: t[Cell(h, d)] != 0
  {
    if 0 in t {
      FreeExists(t, h);
      var d: nat :| FirstFree(t, h, d);
      assert t[Cell(h, d)] == 0;
    }
  }

  lemma InsertedUses(t: seq<byte>, h: nat, v: byte)
    requires IsTable(t) && h < CELLS && 0 in t
    ensures var u := Inserted(t, h, v).value;
      IsTable(u) && (if v == 0 then u == t else |Used(u)| == |Used(t)| + 1)
  {
    FreeExists(t, h);
    var u := Inserted(t, h, v).value;
    var d: nat :| FirstFree(t, h, d) && u == t[Cell(h, d) := v];
    if v != 0 {
      assert Used(u) == Used(t) + {Cell(h, d)};
    }
  }

  // Filling the first free cell with an index no larger than those present lists it, and keeps
  // every earlier entry reachable.
  lemma InsertLists(t: seq<byte>, h: nat, v: byte, u: seq<byte>, hi: byte)
    requires IsTable(t) && h < CELLS && 0 < v <= hi && Values(t, v, hi)
    requires Inserted(t, h, v) == Some(u)
    ensures IsTable(u) && Values(u, v, hi) && Listed(u, h, v - 1) && KeepsListed(t, u)
  {
    FreeExists(t, h);
    var d: nat :| FirstFree(t, h, d) && u == t[Cell(h, d) := v];
    assert Reaches(u, h, v - 1, d);
    forall g: nat, i: nat | Listed(t, g, i)
      ensures Listed(u, g, i)
    {
      InsertKeeps(t, Cell(h, d), v, g, i);
    }
  }

  lemma InsertKeeps(t: seq<byte>, c: nat, v: byte, h: nat, i: nat)
    requires IsTable(t) && c < CELLS && t[c] == 0 && v != 0
    requires Values(t, v, 255) && Listed(t, h, i)
    ensures Listed(t[c := v], h, i)
  {
    var d: nat :| d < CELLS && Reaches(t, h, i, d);
    assert Reaches(t[c := v], h, i, d);
  }

  lemma InsertedAt(t: seq<byte>, h: nat, v: byte) returns (d: nat)
    requires IsTable(t) && h < CELLS && 0 in t
    ensures FirstFree(t, h, d) && Inserted(t, h, v) == Some(t[Cell(h, d) := v])
  {
    FreeExists(t, h);
    d :| FirstFree(t, h, d) && Inserted(t, h, v) == Some(t[Cell(h, d) := v]);
  }

  // Writes v into the first free cell at or after start.
  method InsertWord(table: array<byte>, start: nat, v: byte)
    requires table.Length == CELLS && start < CELLS
    requires 0 in table[..]
    modifies table
    ensures Some(table[..]) == Inserted(old(table[..]), start, v)
  {
    ghost var t := table[..];
    ghost var limit := InsertedAt(t, start, v);
    ghost var d: nat := 0;
    var h := start;
    while table[h] != 0
      invariant h == Cell(start, d) && d <= limit
      decreases limit - d
    {
      h := (h + 1) % CELLS;
      d := d + 1;
    }
    table[h] := v;
    assert table[..] == t[h := v];
  }

  // The bytes of a pattern word with the capitals selected by the two bits of capsSet.
  function Capital(c: byte, raise: bool): byte {
    if raise then (c - 32) % 256 else c
  }

  function CapsWord(find: seq<byte>, i: nat, capsSet: nat): nat
    requires i + 1 < |find|
  {
    WordAt(Capital(find[i], capsSet % 2 == 1), Capital(find[i + 1], capsSet / 2 % 2 == 1))
  }

  // The four capitalisations cover every matching text word; in sensitive mode the first does.
  lemma CapsCover(sensitive: bool, find: seq<byte>, i: nat, a: byte, b: byte) returns (caps: nat)
    requires i + 1 < |find| && WordMatches(sensitive, find, i, a, b)
    ensures caps < 4 && CapsWord(find, i, caps) == WordAt(a, b)
    ensures sensitive ==> caps == 0
  {
    caps := 0;
    if !sensitive {
      FoldPreimage(a, find[i]);
      FoldPreimage(b, find[i + 1]);
      caps := (if a == find[i] then 0 else 1) + (if b == find[i + 1] then 0 else 2);
      assert a == Capital(find[i], caps % 2 == 1);
      assert b == Capital(find[i + 1], caps / 2 % 2 == 1);
    }
  }

  // ---- filling the table ----

  // How often a word of the pattern is entered.
  function Caps(sensitive: bool): nat {
    if sensitive then 1 else 4
  }

  // The pattern index is stored in a byte; where that is 0 the cell stays free.
  function Stored(i: nat): byte {
    (i + 1) % 256
  }

  // How many of the indices below m are stored as something else than 0.
  function Entered(m: nat): nat {
    m - m / 256
  }

  // How many cells a pattern of n bytes needs.
  function CellsNeeded(n: nat, sensitive: bool): nat {
    Caps(sensitive) * (if n == 0 then 0 else Entered(n - 1))
  }

  // The table after the first caps capitalisations of the word at i; None when a probe has not
  // come to an end.
  ghost function FillWord(find: seq<byte>, i: nat, t: seq<byte>, caps: nat): (r: Option<seq<byte>>)
    requires i + 1 < |find| && IsTable(t)
    ensures r.Some? ==> IsTable(r.value)
  {
    if caps == 0 then Some(t)
    else match FillWord(find, i, t, caps - 1)
      case None => None
      case Some(u) => Inserted(u, CapsWord(find, i, caps - 1), Stored(i))
  }

  // The table after the words from the last one down to that at i, from an empty table.
  ghost function FillFrom(find: seq<byte>, sensitive: bool, i: nat): (r: Option<seq<byte>>)
    ensures r.Some? ==> IsTable(r.value)
    decreases |find| - i
  {
    if i + 1 >= |find| then Some(seq(CELLS, _ => 0))
    else match FillFrom(find, sensitive, i + 1)
      case None => None
      case Some(t) => FillWord(find, i, t, Caps(sensitive))
  }

  lemma {:induction false} WordUses(find: seq<byte>, i: nat, t: seq<byte>, caps: nat)
    requires i + 1 < |find| && IsTable(t) && caps > 0
    ensures var r := FillWord(find, i, t, caps);
      if Stored(i) == 0 then
        (r.Some? <==> |Used(t)| < CELLS) && (r.Some? ==> r == Some(t))
      else
        (r.Some? <==> |Used(t)| + caps <= CELLS) && (r.Some? ==> |Used(r.value)| == |Used(t)| + caps)
  {
    if caps > 1 {
      WordUses(find, i, t, caps - 1);
    }
    var before := FillWord(find, i, t, caps - 1);
    if before.Some? {
      SomeCellFree(before.value);
      if 0 in before.value {
        InsertedUses(before.value, CapsWord(find, i, caps - 1), Stored(i));
      }
    }
  }

  lemma EnteredNext(i: nat, sensitive: bool)
    ensures CellsNeeded(i + 2, sensitive) == CellsNeeded(i + 1, sensitive) + (if Stored(i) == 0 then 0 else Caps(sensitive))
    ensures Stored(i) == 0 ==> 0 < CellsNeeded(i + 1, sensitive)
  {
    assert Entered(i + 1) == Entered(i) + (if Stored(i) == 0 then 0 else 1);
  }

  // What has been filled is in use.
  lemma {:induction false} FillUses(find: seq<byte>, sensitive: bool, i: nat)
    requires i < |find| && FillFrom(find, sensitive, i).Some?
    ensures |Used(FillFrom(find, sensitive, i).value)| == CellsNeeded(|find|, sensitive) - CellsNeeded(i + 1, sensitive)
    decreases |find| - i
  {
    if i + 1 >= |find| {
      assert Used(seq(CELLS, _ => 0)) == {};
    } else {
      FillUses(find, sensitive, i + 1);
      WordUses(find, i, FillFrom(find, sensitive, i + 1).value, Caps(sensitive));
      EnteredNext(i, sensitive);
    }
  }

  // Within the bound no probe finds the table full.
  lemma {:induction false} FillGoesOn(find: seq<byte>, sensitive: bool, i: nat)
    requires i < |find| && CellsNeeded(|find|, sensitive) <= CELLS
    ensures FillFrom(find, sensitive, i).Some?
    decreases |find| - i
  {
    if i + 1 < |find| {
      FillGoesOn(find, sensitive, i + 1);
      FillUses(find, sensitive, i + 1);
      WordUses(find, i, FillFrom(find, sensitive, i + 1).value, Caps(sensitive));
      EnteredNext(i, sensitive);
    }
  }

  // The table can be filled exactly when it has the cells needed.
  lemma FillEndsExactly(find: seq<byte>, sensitive: bool)
    ensures FillFrom(find, sensitive, 0).Some? <==> CellsNeeded(|find|, sensitive) <= CELLS
  {
    if |find| > 0 {
      if CellsNeeded(|find|, sensitive) <= CELLS {
        FillGoesOn(find, sensitive, 0);
      } else if FillFrom(find, sensitive, 0).Some? {
        FillUses(find, sensitive, 0);
        SomeCellFree(FillFrom(find, sensitive, 0).value);
      }
    }
  }

  // Where a fill that does not end gets to: a table without a free cell, and a word to enter.
  ghost predicate StuckAt(find: seq<byte>, sensitive: bool, i: nat, caps: nat, t: seq<byte>) {
    && i + 1 < |find| && caps < Caps(sensitive) && IsTable(t) && 0 !in t
    && FillFrom(find, sensitive, i + 1).Some?
    && FillWord(find, i, FillFrom(find, sensitive, i + 1).value, caps) == Some(t)
  }

  lemma {:induction false} WordStops(find: seq<byte>, i: nat, t: seq<byte>, n: nat) returns (caps: nat)
    requires i + 1 < |find| && IsTable(t) && FillWord(find, i, t, n).None?
    ensures caps < n && FillWord(find, i, t, caps).Some? && 0 !in FillWord(find, i, t, caps).value
  {
    if FillWord(find, i, t, n - 1).None? {
      caps := WordStops(find, i, t, n - 1);
    } else {
      caps := n - 1;
    }
  }

  lemma {:induction false} FillStops(find: seq<byte>, sensitive: bool, i: nat)
    returns (at: nat, caps: nat, t: seq<byte>)
    requires FillFrom(find, sensitive, i).None?
    ensures StuckAt(find, sensitive, at, caps, t)
    decreases |find| - i
  {
    match FillFrom(find, sensitive, i + 1)
    case None =>
      at, caps, t := FillStops(find, sensitive, i + 1);
    case Some(u) =>
      at := i;
      caps := WordStops(find, i, u, Caps(sensitive));
      t := FillWord(find, i, u, caps).value;
  }

  // Beyond the bound, whatever the pattern, a probe goes round a full table for ever.
  lemma FillHangs(find: seq<byte>, sensitive: bool) returns (i: nat, caps: nat, t: seq<byte>)
    requires CellsNeeded(|find|, sensitive) > CELLS
    ensures StuckAt(find, sensitive, i, caps, t)
    ensures forall d: nat :: t[Cell(CapsWord(find, i, caps), d)] != 0
  {
    FillEndsExactly(find, sensitive);
    i, caps, t := FillStops(find, sensitive, 0);
    ProbeNeverEnds(t, CapsWord(find, i, caps), Stored(i));
  }

  // The shortest such patterns.
  lemma ShortestHangs(n: nat)
    ensures CellsNeeded(n, false) > CELLS <==> n >= 16450
    ensures CellsNeeded(n, true) > CELLS <==> n >= 65795
  {
  }

  // ---- what the filled table lists ----

  lemma StoredBelow(i: nat)
    requires i < 255
    ensures Stored(i) == i + 1
  {
  }

  lemma FillWordNext(find: seq<byte>, i: nat, t: seq<byte>, caps: nat, v: byte)
    requires i + 1 < |find| && IsTable(t) && 0 < caps && FillWord(find, i, t, caps).Some? && v == Stored(i)
    ensures FillWord(find, i, t, caps - 1).Some?
    ensures Inserted(FillWord(find, i, t, caps - 1).value, CapsWord(find, i, caps - 1), v) == FillWord(find, i, t, caps)
  {
  }

  lemma {:induction false} WordLists(find: seq<byte>, i: nat, t: seq<byte>, caps: nat)
    requires i + 1 < |find| < 255 && IsTable(t) && Values(t, i + 2, |find| - 1)
    requires FillWord(find, i, t, caps).Some?
    ensures var u := FillWord(find, i, t, caps).value;
      && Values(u, i + 1, |find| - 1)
      && KeepsListed(t, u)
      && forall n :: 0 <= n < caps ==> Listed(u, CapsWord(find, i, n), i)
  {
    if caps > 0 {
      WordLists(find, i, t, caps - 1);
      var before, u := FillWord(find, i, t, caps - 1).value, FillWord(find, i, t, caps).value;
      var h, v: byte := CapsWord(find, i, caps - 1), i + 1;
      StoredBelow(i);
      FillWordNext(find, i, t, caps, v);
      InsertLists(before, h, v, u, |find| - 1);
      KeptThrough(t, before, u);
      forall n | 0 <= n < caps
        ensures Listed(u, CapsWord(find, i, n), i)
      {
        assert n < caps - 1 ==> Listed(before, CapsWord(find, i, n), i);
      }
    }
  }

  // Of a pattern below 255 bytes every word leads to its indices.
  lemma {:induction false} FillLists(find: seq<byte>, sensitive: bool, i: nat)
    requires |find| < 255 && FillFrom(find, sensitive, i).Some?
    ensures var t := FillFrom(find, sensitive, i).value;
      Values(t, i + 1, |find| - 1) && ListsFrom(sensitive, find, t, i)
    decreases |find| - i
  {
    if i + 1 < |find| {
      FillLists(find, sensitive, i + 1);
      WordLists(find, i, FillFrom(find, sensitive, i + 1).value, Caps(sensitive));
      forall a: byte, b: byte | WordMatches(sensitive, find, i, a, b)
        ensures Listed(FillFrom(find, sensitive, i).value, WordAt(a, b), i)
      {
        var caps := CapsCover(sensitive, find, i, a, b);
      }
    }
  }

  lemma FilledIsTable(find: seq<byte>, sensitive: bool)
    requires |find| < 255
    ensures FillFrom(find, sensitive, 0).Some? && HashTable(sensitive, find, FillFrom(find, sensitive, 0).value)
  {
    FillEndsExactly(find, sensitive);
    FillLists(find, sensitive, 0);
    var t := FillFrom(find, sensitive, 0).value;
    if |find| > 0 {
      FillUses(find, sensitive, 0);
    }
    SomeCellFree(t);
  }

  // Fills the table; it ends for every pattern that leaves each probe a free cell.
  method GenerateHash(find: seq<byte>, table: array<byte>, sensitive: bool)
    requires CellsNeeded(|find|, sensitive) <= CELLS
    requires table.Length == CELLS && forall c :: 0 <= c < CELLS ==> table[c] == 0
    modifies table
    ensures FillFrom(find, sensitive, 0) == Some(table[..])
    ensures |find| < 255 ==> HashTable(sensitive, find, table[..])
  {
    assert table[..] == seq(CELLS, _ => 0);
    var i := |find| - 2;
    while i >= 0
      invariant -2 <= i <= |find| - 2
      invariant FillFrom(find, sensitive, if i >= -1 then i + 1 else 0) == Some(table[..])
    {
      FillGoesOn(find, sensitive, i);
      EnterWord(find, i, table, sensitive);
      i := i - 1;
    }
    if |find| < 255 {
      FilledIsTable(find, sensitive);
    }
  }

  // Enters the word at i in all capitalisations, in sensitive mode as it stands.
  method EnterWord(find: seq<byte>, i: nat, table: array<byte>, sensitive: bool)
    requires i + 1 < |find| && table.Length == CELLS
    requires FillWord(find, i, table[..], Caps(sensitive)).Some?
    modifies table
    ensures FillWord(find, i, old(table[..]), Caps(sensitive)) == Some(table[..])
  {
    ghost var t := table[..];
    var capsSet := 0;
    while capsSet < 4
      invariant 0 <= capsSet <= Caps(sensitive)
      invariant FillWord(find, i, t, capsSet) == Some(table[..])
      invariant sensitive ==> capsSet == 0
    {
      FillWordPrefix(find, i, t, capsSet + 1, Caps(sensitive));
      InsertWord(table, CapsWord(find, i, capsSet), (i + 1) % 256);
      if sensitive {
        break;
      }
      capsSet := capsSet + 1;
    }
  }

  lemma {:induction false} FillWordPrefix(find: seq<byte>, i: nat, t: seq<byte>, n: nat, caps: nat)
    requires i + 1 < |find| && IsTable(t) && n <= caps && FillWord(find, i, t, caps).Some?
    ensures FillWord(find, i, t, n).Some?
    decreases caps
  {
    if n < caps {
      FillWordPrefix(find, i, t, n, caps - 1);
    }
  }

  // Compares the pattern with the text window at r, as both loops of the searcher do.
  method WindowMatches(s: seq<byte>, find: seq<byte>, r: nat, sensitive: bool) returns (same: bool)
    requires r + |find| <= |s|
    ensures same <==> Occurs(sensitive, s, find, r)
  {
    var i := 0;
    while i < |find|
      invariant 0 <= i <= |find|
      invariant forall x :: 0 <= x < i ==> Fold(sensitive, s[r + x]) == find[x]
    {
      if (if sensitive then s[r + i] else ToLower(s[r + i])) != find[i] {
        return false;
      }
      i := i + 1;
    }
    return true;
  }

  // The windows checked by the first d steps of a probe for the word at at.
  ghost predicate Tried(sensitive: bool, s: seq<byte>, find: seq<byte>, t: seq<byte>, at: nat, h: nat, d: nat)
    requires IsTable(t)
  {
    forall e: nat :: e < d ==> t[Cell(h, e)] != 0 && !Occurs(sensitive, s, find, at - (t[Cell(h, e)] - 1))
  }

  // An occurrence covering the probed word is met before any cell that is empty, or that
  // stands for a later start.
  lemma ProbeOrder(sensitive: bool, s: seq<byte>, find: seq<byte>, t: seq<byte>, at: nat, d: nat, k: nat)
    requires 2 <= |find| && HashTable(sensitive, find, t)
    requires k <= at <= k + |find| - 2 && at + 1 < |s|
    requires Occurs(sensitive, s, find, k)
    requires Tried(sensitive, s, find, t, at, WordAt(s[at], s[at + 1]), d)
    ensures t[Cell(WordAt(s[at], s[at + 1]), d)] >= at - k + 1
  {
    var h, i := WordAt(s[at], s[at + 1]), at - k;
    assert Fold(sensitive, s[k + i]) == find[i] && Fold(sensitive, s[k + (i + 1)]) == find[i + 1];
    assert WordMatches(sensitive, find, i, s[at], s[at + 1]);
    var e: nat :| e < CELLS && Reaches(t, h, i, e);
    assert t[Cell(h, e)] == i + 1;
  }

  // Follows the probe for the word at position at; Some(r) is the leftmost occurrence among
  // the starts whose window covers that word.
  method ProbeWord(s: seq<byte>, find: seq<byte>, table: array<byte>, at: nat, sensitive: bool)
    returns (r: Option<nat>)
    requires 2 <= |find| && table.Length == CELLS && HashTable(sensitive, find, table[..])
    requires |find| - 2 <= at <= |s| - |find|
    ensures match r
      case Some(k) => at - (|find| - 2) <= k <= at && Occurs(sensitive, s, find, k)
        && forall j :: at - (|find| - 2) <= j < k ==> !Occurs(sensitive, s, find, j)
      case None => forall j :: at - (|find| - 2) <= j <= at ==> !Occurs(sensitive, s, find, j)
  {
    ghost var t := table[..];
    ghost var h0 := WordAt(s[at], s[at + 1]);
    ghost var free :| 0 <= free < CELLS && table[free] == 0;
    ghost var limit := OffsetTo(h0, free);
    ghost var d: nat := 0;
    var h := WordAt(s[at], s[at + 1]);
    while table[h] != 0
      invariant h == Cell(h0, d) && d <= limit
      invariant Tried(sensitive, s, find, t, at, h0, d)
      decreases limit - d
    {
      var start := at - (table[h] - 1);
      var same := WindowMatches(s, find, start, sensitive);
      if same {
        forall j | at - (|find| - 2) <= j < start
          ensures !Occurs(sensitive, s, find, j)
        {
          if Occurs(sensitive, s, find, j) {
            ProbeOrder(sensitive, s, find, t, at, d, j);
          }
        }
        return Some(start);
      }
      h := (h + 1) % CELLS;
      d := d + 1;
    }
    forall j | at - (|find| - 2) <= j <= at
      ensures !Occurs(sensitive, s, find, j)
    {
      if Occurs(sensitive, s, find, j) {
        ProbeOrder(sensitive, s, find, t, at, d, j);
      }
    }
    return None;
  }

  method HashStrnstr(s: seq<byte>, find: seq<byte>, table: array<byte>, sensitive: bool)
    returns (r: Option<nat>)
    requires 2 <= |find| && table.Length == CELLS && HashTable(sensitive, find, table[..])
    ensures IsLeftmost(sensitive, s, find, r)
  {
    if |s| < |find| {
      return None;
    }
    var step := |find| - 2 + 1;
    var at := |find| - 2;
    while at <= |s| - |find|
      invariant |find| - 2 <= at
      invariant forall k :: 0 <= k <= at - step ==> !Occurs(sensitive, s, find, k)
    {
      var found := ProbeWord(s, find, table, at, sensitive);
      if found.Some? {
        return found;
      }
      at := at + step;
    }
    at := at - step + 1;
    while at <= |s| - |find|
      invariant 0 <= at
      invariant forall k :: 0 <= k < at ==> !Occurs(sensitive, s, find, k)
    {
      var same := WindowMatches(s, find, at, sensitive);
      if same {
        return Some(at);
      }
      at := at + 1;
    }
    return None;
  }
}
