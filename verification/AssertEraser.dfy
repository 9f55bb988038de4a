/** The script that cuts malformed assertions out of a source file: the map from locations to
    offsets, the scan for the end of an assertion, and the copy that leaves assertions out. */
module AssertEraser {
  import opened Wrappers

  // ---- locations ----

  datatype OffsetResult = Offset(k: nat) | InvalidLine | InvalidColumn

  function Newlines(s: string): nat {
    if |s| == 0 then 0 else Newlines(s[..|s| - 1]) + (if s[|s| - 1] == '\n' then 1 else 0)
  }

  // The column of offset k, counting from 1 after the last newline before it.
  function Column(s: string, k: nat): nat
    requires k <= |s|
  {
    if k == 0 || s[k - 1] == '\n' then 1 else Column(s, k - 1) + 1
  }

  function Line(s: string, k: nat): nat
    requires k <= |s|
  {
    Newlines(s[..k]) + 1
  }

  function Sum(m: seq<nat>): nat {
    if |m| == 0 then 0 else Sum(m[..|m| - 1]) + m[|m| - 1]
  }

  // What one more character does to the list of line lengths.
  function Extend(m: seq<nat>, ch: char): seq<nat> {
    var m1 := if |m| == 0 then [0] else m;
    var m2 := m1[|m1| - 1 := m1[|m1| - 1] + 1];
    if ch == '\n' then m2 + [0] else m2
  }

  function LineLengths(s: string): seq<nat> {
    if |s| == 0 then [] else Extend(LineLengths(s[..|s| - 1]), s[|s| - 1])
  }

  method BuildFileMap(content: string) returns (fileMap: seq<nat>)
    ensures fileMap == LineLengths(content)
  {
    fileMap := [];
    var i := 0;
    while i < |content|
      invariant 0 <= i <= |content| && fileMap == LineLengths(content[..i])
    {
      var ch := content[i];
      assert content[..i + 1][..i] == content[..i];
      if |fileMap| == 0 {
        fileMap := fileMap + [0];
      }
      fileMap := fileMap[|fileMap| - 1 := fileMap[|fileMap| - 1] + 1];
      if ch == '\n' {
        fileMap := fileMap + [0];
      }
      i := i + 1;
    }
    assert content[..i] == content;
  }

  function GetOffsetByLoc(fileMap: seq<nat>, line: int, column: int): OffsetResult {
    if line <= 0 || line - 1 >= |fileMap| then InvalidLine
    else if column <= 0 || column - 1 >= fileMap[line - 1] then InvalidColumn
    else Offset(column - 1 + Sum(fileMap[..line - 1]))
  }

  // A line ends with its newline.
  lemma TwoLines()
    ensures LineLengths("ab\nc") == [3, 1]
  {
    var s := "ab\nc";
    assert s[..3] == "ab\n" && s[..3][..2] == "ab" && s[..3][..2][..1] == "a" && s[..3][..2][..1][..0] == "";
    assert LineLengths(s[..3][..2][..1]) == [1] && LineLengths(s[..3][..2]) == [2];
    assert LineLengths(s[..3]) == [3, 0];
  }

  lemma {:induction false} SumAppend(m: seq<nat>, x: nat)
    ensures Sum(m + [x]) == Sum(m) + x
  {
    assert (m + [x])[..|m|] == m;
  }

  // The map has one more line than there are newlines, and adds up to the length.
  lemma {:induction false} MapShape(s: string)
    ensures Sum(LineLengths(s)) == |s|
    ensures |LineLengths(s)| == if |s| == 0 then 0 else Newlines(s) + 1
    ensures |s| > 0 ==> LineLengths(s)[Newlines(s)] == Column(s, |s|) - 1
  {
    if |s| > 0 {
      var t, m := s[..|s| - 1], LineLengths(s[..|s| - 1]);
      MapShape(t);
      ColumnOfPrefix(s, |s| - 1, |s| - 1);
      assert s[..|s| - 1] == t && t[..|t|] == t;
      var m1 := if |m| == 0 then [0] else m;
      var last := m1[|m1| - 1];
      var m2 := m1[|m1| - 1 := last + 1];
      assert m2[..|m2| - 1] == m1[..|m1| - 1];
      assert Sum(m1) == |t| by {
        if |m| == 0 {
          SumAppend([], 0);
        }
      }
      assert Sum(m2) == |s|;
      SumAppend(m2, 0);
    }
  }

  lemma {:induction false} ColumnOfPrefix(s: string, n: nat, k: nat)
    requires k <= n <= |s|
    ensures Column(s[..n], k) == Column(s, k)
    decreases k
  {
    if k > 0 {
      ColumnOfPrefix(s, n, k - 1);
    }
  }

  // The lines before that of offset k are complete in the map of what precedes k; its own line
  // is longer in the whole map.
  lemma {:induction false} MapGrows(s: string, k: nat)
    requires k < |s|
    ensures var l := Newlines(s[..k]);
      && l < |LineLengths(s)|
      && |LineLengths(s[..k])| == (if k == 0 then 0 else l + 1)
      && LineLengths(s)[..l] == (if k == 0 then [] else LineLengths(s[..k])[..l])
      && LineLengths(s)[l] > (if k == 0 then 0 else LineLengths(s[..k])[l])
    decreases |s|
  {
    MapShape(s[..k]);
    if k + 1 < |s| {
      var t := s[..|s| - 1];
      assert t[..k] == s[..k];
      MapGrows(t, k);
    }
  }

  lemma {:induction false} SumMonotone(m: seq<nat>, a: nat, b: nat)
    requires a <= b <= |m|
    ensures Sum(m[..a]) <= Sum(m[..b])
    decreases b
  {
    if a < b {
      assert m[..b][..b - 1] == m[..b - 1];
      SumMonotone(m, a, b - 1);
    }
  }

  // The line and column of an offset lead back to it.
  lemma OffsetOfLocation(s: string, k: nat)
    requires k < |s|
    ensures GetOffsetByLoc(LineLengths(s), Line(s, k), Column(s, k)) == Offset(k)
  {
    var l, p := Newlines(s[..k]), LineLengths(s[..k]);
    MapGrows(s, k);
    MapShape(s[..k]);
    ColumnOfPrefix(s, k, k);
    if k > 0 {
      assert p == p[..l] + [p[l]];
      SumAppend(p[..l], p[l]);
    }
  }

  // And only a location of the file leads anywhere.
  lemma LocationsInvert(s: string, line: int, column: int, k: nat)
    ensures GetOffsetByLoc(LineLengths(s), line, column) == Offset(k)
      <==> k < |s| && line == Line(s, k) && column == Column(s, k)
  {
    var m := LineLengths(s);
    if k < |s| {
      OffsetOfLocation(s, k);
    }
    if GetOffsetByLoc(m, line, column) == Offset(k) {
      var i := line - 1;
      MapShape(s);
      LineBounds(m, i, k, column - 1);
      OffsetOfLocation(s, k);
      var l := Newlines(s[..k]);
      LineBounds(m, l, k, Column(s, k) - 1);
      if l < i {
        SumMonotone(m, l + 1, i);
      } else if i < l {
        SumMonotone(m, i + 1, l);
      }
    }
  }

  // A line that the file does not have is told from a column that its line does not have.
  lemma ErrorsExactly(s: string, line: int, column: int)
    ensures var r := GetOffsetByLoc(LineLengths(s), line, column);
      && (r == InvalidLine <==> s == "" || line < 1 || Newlines(s) + 1 < line)
      && (r == InvalidColumn <==> r != InvalidLine && forall k :: 0 <= k < |s| ==> !(Line(s, k) == line && Column(s, k) == column))
  {
    MapShape(s);
    var r := GetOffsetByLoc(LineLengths(s), line, column);
    if r.Offset? {
      LocationsInvert(s, line, column, r.k);
    } else {
      forall k | 0 <= k < |s|
        ensures !(Line(s, k) == line && Column(s, k) == column)
      {
        LocationsInvert(s, line, column, k);
      }
    }
  }

  lemma LineBounds(m: seq<nat>, i: nat, k: nat, within: nat)
    requires i < |m| && within < m[i] && k == within + Sum(m[..i])
    ensures Sum(m[..i]) <= k < Sum(m[..i + 1]) <= Sum(m)
  {
    SumNext(m, i);
    SumMonotone(m, i + 1, |m|);
    assert m[..|m|] == m;
  }

  lemma SumNext(m: seq<nat>, i: nat)
    requires i < |m|
    ensures Sum(m[..i + 1]) == Sum(m[..i]) + m[i]
  {
    assert m[..i + 1] == m[..i] + [m[i]];
    SumAppend(m[..i], m[i]);
  }

  // ---- the scanner ----

  // Parentheses open, the quote character that is open, and whether a backslash has just been
  // read inside quotes.
  datatype Scanner = Scanner(depth: int, quote: Option<char>, skip: bool)

  const FRESH := Scanner(0, None, false)

  predicate Outside(st: Scanner) {
    st.quote.None? && !st.skip
  }

  function Step(st: Scanner, ch: char): Scanner {
    if st.skip then st.(skip := false)
    else match st.quote
      case None =>
        if ch == '(' then st.(depth := st.depth + 1)
        else if ch == ')' then st.(depth := st.depth - 1)
        else if ch == '\'' || ch == '"' then st.(quote := Some(ch))
        else st
      case Some(q) =>
        if ch == '\\' then st.(skip := true)
        else if ch == q then st.(quote := None)
        else st
  }

  function Run(st: Scanner, s: string): Scanner {
    if |s| == 0 then st else Step(Run(st, s[..|s| - 1]), s[|s| - 1])
  }

  lemma {:induction false} RunAppend(st: Scanner, a: string, b: string)
    ensures Run(st, a + b) == Run(Run(st, a), b)
    decreases |b|
  {
    if |b| == 0 {
      assert a + b == a;
    } else {
      assert (a + b)[..|a + b| - 1] == a + b[..|b| - 1];
      RunAppend(st, a, b[..|b| - 1]);
    }
  }

  // The scanner only counts parentheses: starting deeper, it ends as much deeper.
  lemma {:induction false} RunShift(st: Scanner, d: int, s: string)
    ensures Run(st.(depth := st.depth + d), s) == Run(st, s).(depth := Run(st, s).depth + d)
  {
    if |s| > 0 {
      RunShift(st, d, s[..|s| - 1]);
    }
  }

  // How the scan from an assertion ends: at its closing parenthesis, at one that was never
  // opened, or with the file.
  datatype Ending = Closed(end: nat) | Rejected | RanOut(end: nat, depth: int)

  predicate Stops(st: Scanner, ch: char) {
    Outside(st) && ch == ')' && st.depth <= 1
  }

  function Scan(c: string, i: nat, st: Scanner): Ending
    requires i <= |c|
    decreases |c| - i
  {
    if i == |c| then RanOut(if st.skip then i + 1 else i, st.depth)
    else if Stops(st, c[i]) then (if st.depth == 1 then Closed(i + 1) else Rejected)
    else Scan(c, i + 1, Step(st, c[i]))
  }

  // The end recorded for an assertion at offset, if any.
  function SegmentEnd(c: string, offset: nat): Option<nat>
    requires offset <= |c|
  {
    match Scan(c, offset, FRESH)
    case Closed(end) => Some(end)
    case Rejected => None
    case RanOut(end, depth) => if depth == 0 then Some(end) else None
  }

  function Max(a: int, b: int): int {
    if a >= b then a else b
  }

  function Slice(c: string, lo: nat, n: nat): string {
    if lo > |c| then "" else if lo + n <= |c| then c[lo..lo + n] else c[lo..]
  }

  // An assertion is recorded where its name stands and an end is found; the larger end is kept.
  function Recorded(c: string, assertFn: string, offset: nat, segments: map<nat, nat>): map<nat, nat>
    requires offset <= |c|
  {
    if Slice(c, offset, |assertFn|) != assertFn || SegmentEnd(c, offset).None? then segments
    else
      var end := SegmentEnd(c, offset).value;
      segments[offset := if offset in segments && segments[offset] > end then segments[offset] else end]
  }

  method RecordSegment(c: string, assertFn: string, offset: nat, segments: map<nat, nat>)
    returns (r: map<nat, nat>)
    requires offset < |c|
    ensures r == Recorded(c, assertFn, offset, segments)
  {
    r := segments;
    if Slice(c, offset, |assertFn|) == assertFn {
      var parenDepth := 0;
      var quote: Option<char> := None;
      var endOffset := offset;
      ghost var ending := Scan(c, offset, FRESH);
      while endOffset < |c|
        invariant offset <= endOffset <= |c| + 1
        invariant parenDepth >= 0
        invariant endOffset <= |c| ==> ending == Scan(c, endOffset, Scanner(parenDepth, quote, false))
        invariant endOffset == |c| + 1 ==> ending == RanOut(endOffset, parenDepth)
      {
        var chr := c[endOffset];
        if quote.None? {
          if chr == '(' {
            parenDepth := parenDepth + 1;
          } else if chr == ')' {
            parenDepth := parenDepth - 1;
            if parenDepth < 0 {
              return;
            } else if parenDepth == 0 {
              endOffset := endOffset + 1;
              assert ending == Closed(endOffset);
              break;
            }
          } else if chr == '\'' || chr == '"' {
            quote := Some(chr);
          }
        } else {
          if chr == '\\' {
            endOffset := endOffset + 1;
          } else if chr == quote.value {
            quote := None;
          }
        }
        endOffset := endOffset + 1;
      }
      if parenDepth == 0 {
        assert SegmentEnd(c, offset) == Some(endOffset);
        var known: int := if offset in r then r[offset] else -1;
        r := r[offset := Max(known, endOffset)];
      }
    }
  }

  // ---- leaving segments out ----

  const NOTE := " 0 /* Skipped malformed assertion */"
  const SKIPPED := "((void)" + NOTE + ")"

  // Every recorded segment ends behind its start; without that the copy would not move on.
  ghost predicate Forward(segments: map<nat, nat>) {
    forall o :: o in segments ==> o < segments[o]
  }

  function Processed(c: string, segments: map<nat, nat>, i: nat): string
    requires forall o :: o in segments ==> o < segments[o]
    decreases |c| - i
  {
    if i >= |c| then ""
    else if i in segments then SKIPPED + Processed(c, segments, segments[i])
    else [c[i]] + Processed(c, segments, i + 1)
  }

  method ProcessFile(c: string, segments: map<nat, nat>) returns (out: string)
    requires Forward(segments)
    ensures out == Processed(c, segments, 0)
  {
    var index := 0;
    out := "";
    while index < |c|
      invariant out + Processed(c, segments, index) == Processed(c, segments, 0)
      decreases |c| - index
    {
      if index in segments {
        Associate(out, SKIPPED, Processed(c, segments, segments[index]));
        index := segments[index];
        out := out + SKIPPED;
        continue;
      }
      Associate(out, [c[index]], Processed(c, segments, index + 1));
      out := out + [c[index]];
      index := index + 1;
    }
  }

  // Segments recorded at places outside quotes. They are closed by their matching parenthesis,
  // or have run out with the file.
  ghost predicate WellRecorded(c: string, segments: map<nat, nat>) {
    forall o :: o in segments ==>
      o < |c| && Outside(Run(FRESH, c[..o])) && SegmentEnd(c, o) == Some(segments[o])
  }

  // Where a segment stops within the file.
  function EndWithin(c: string, segments: map<nat, nat>, o: nat): nat
    requires o in segments
  {
    if segments[o] < |c| then segments[o] else |c|
  }

  ghost predicate Inside(segments: map<nat, nat>, i: nat) {
    exists o :: o in segments && o < i < segments[o]
  }

  // What is to be left of character i: the replacement where an outermost segment starts,
  // nothing inside one, and else the character.
  ghost function Piece(c: string, segments: map<nat, nat>, i: nat): string
    requires i < |c|
  {
    if Inside(segments, i) then "" else if i in segments then SKIPPED else [c[i]]
  }

  // What is to be left of the first i characters.
  ghost function Kept(c: string, segments: map<nat, nat>, i: nat): string
    requires i <= |c|
  {
    if i == 0 then "" else Kept(c, segments, i - 1) + Piece(c, segments, i - 1)
  }

  lemma SplitPrefix(c: string, i: nat, j: nat)
    requires i <= j <= |c|
    ensures c[..j] == c[..i] + c[i..j]
  {
  }

  lemma Associate(a: string, b: string, c: string)
    ensures a + (b + c) == a + b + c
  {
  }

  lemma {:induction false} ScanEndsAhead(c: string, i: nat, st: Scanner)
    requires i <= |c| && Scan(c, i, st).Closed?
    ensures i < Scan(c, i, st).end <= |c|
    decreases |c| - i
  {
    if i < |c| && !Stops(st, c[i]) {
      ScanEndsAhead(c, i + 1, Step(st, c[i]));
    }
  }

  // The scan can be taken up at any place before its end.
  lemma {:induction false} ScanAdvances(c: string, i: nat, st: Scanner, j: nat)
    requires i <= |c| && st.depth >= 0 && Scan(c, i, st).Closed? && i <= j < Scan(c, i, st).end
    ensures j <= |c| && Scan(c, j, Run(st, c[i..j])) == Scan(c, i, st) && Run(st, c[i..j]).depth >= 0
    decreases j - i
  {
    ScanEndsAhead(c, i, st);
    if i < j {
      ScanAdvances(c, i + 1, Step(st, c[i]), j);
      assert c[i..j] == [c[i]] + c[i + 1..j];
      RunAppend(st, [c[i]], c[i + 1..j]);
      assert Run(st, [c[i]]) == Step(st, c[i]) by {
        assert [c[i]][..0] == "";
      }
    }
  }

  // A closed segment leaves the scanner as it found it.
  lemma ClosedIsNeutral(c: string, o: nat, end: nat, st: Scanner)
    requires o <= |c| && Scan(c, o, FRESH) == Closed(end) && Outside(st)
    ensures o < end <= |c| && Run(st, c[o..end]) == st
  {
    ScanEndsAhead(c, o, FRESH);
    ScanAdvances(c, o, FRESH, end - 1);
    LastStepCloses(c, end, Run(FRESH, c[o..end - 1]));
    RunLast(FRESH, c, o, end);
    RunShift(FRESH, st.depth, c[o..end]);
  }

  lemma RunLast(st: Scanner, c: string, o: nat, end: nat)
    requires o < end <= |c|
    ensures Run(st, c[o..end]) == Step(Run(st, c[o..end - 1]), c[end - 1])
  {
    var s := c[o..end];
    assert s[..|s| - 1] == c[o..end - 1];
  }

  lemma LastStepCloses(c: string, end: nat, st: Scanner)
    requires 0 < end <= |c| && Scan(c, end - 1, st) == Closed(end)
    ensures Step(st, c[end - 1]) == FRESH
  {
    if !Stops(st, c[end - 1]) {
      if end < |c| {
        ScanEndsAhead(c, end, Step(st, c[end - 1]));
      }
    }
  }

  // Of two scans that agree on quotes, the one with fewer parentheses open stops first, and
  // does not run out of file.
  lemma {:induction false} ShallowerClosesFirst(c: string, i: nat, outer: Scanner, inner: Scanner)
    requires i <= |c| && outer.quote == inner.quote && outer.skip == inner.skip && inner.depth <= outer.depth
    requires Scan(c, i, outer).Closed?
    ensures !Scan(c, i, inner).RanOut?
    ensures Scan(c, i, inner).Closed? ==> Scan(c, i, inner).end <= Scan(c, i, outer).end
    decreases |c| - i
  {
    ScanEndsAhead(c, i, outer);
    if !Stops(inner, c[i]) && !Stops(outer, c[i]) {
      ShallowerClosesFirst(c, i + 1, Step(outer, c[i]), Step(inner, c[i]));
    }
  }

  // So a segment recorded inside a closed one is closed within it.
  lemma Nested(c: string, segments: map<nat, nat>, o1: nat, o2: nat)
    requires WellRecorded(c, segments) && o1 in segments && o2 in segments && o1 < o2 < segments[o1]
    requires Scan(c, o1, FRESH).Closed?
    ensures Scan(c, o2, FRESH).Closed? && segments[o2] <= segments[o1]
  {
    ScanAdvances(c, o1, FRESH, o2);
    var before := Run(FRESH, c[..o1]);
    SplitPrefix(c, o1, o2);
    RunAppend(FRESH, c[..o1], c[o1..o2]);
    RunShift(FRESH, before.depth, c[o1..o2]);
    ShallowerClosesFirst(c, o2, Run(FRESH, c[o1..o2]), FRESH);
  }

  lemma NotInsideNext(segments: map<nat, nat>, i: nat)
    requires !Inside(segments, i) && i !in segments
    ensures !Inside(segments, i + 1)
  {
  }

  // A segment that stops before the end of the file is closed.
  lemma StopsWhenClosed(c: string, segments: map<nat, nat>, o: nat)
    requires WellRecorded(c, segments) && o in segments
    ensures o < segments[o]
    ensures segments[o] < |c| ==> Scan(c, o, FRESH).Closed?
    ensures Scan(c, o, FRESH).Closed? ==> segments[o] <= |c|
  {
    match Scan(c, o, FRESH)
    case Closed(_) => ScanEndsAhead(c, o, FRESH);
    case RanOut(_, _) => RunsOutBehind(c, o, FRESH);
  }

  lemma NotInsideEnd(c: string, segments: map<nat, nat>, o: nat)
    requires WellRecorded(c, segments) && o in segments && !Inside(segments, o)
    requires Scan(c, o, FRESH).Closed?
    ensures o < segments[o] <= |c| && !Inside(segments, segments[o])
  {
    ScanEndsAhead(c, o, FRESH);
    forall p | p in segments
      ensures !(p < segments[o] < segments[p])
    {
      assert p < o < segments[p] ==> Inside(segments, o);
      if o < p < segments[o] {
        Nested(c, segments, o, p);
      }
    }
  }

  lemma NothingAdded(a: string)
    ensures a + "" == a
  {
  }

  // From the start of an outermost segment to its end only the replacement is kept.
  lemma KeptInside(c: string, segments: map<nat, nat>, o: nat, i: nat)
    requires o in segments && !Inside(segments, o) && o < i <= segments[o] && i <= |c|
    ensures Kept(c, segments, i) == Kept(c, segments, o) + SKIPPED
  {
    KeptStart(c, segments, o);
    NothingKept(c, segments, o, i);
  }

  lemma {:induction false} NothingKept(c: string, segments: map<nat, nat>, o: nat, i: nat)
    requires o in segments && o < i <= segments[o] && i <= |c|
    ensures Kept(c, segments, i) == Kept(c, segments, o + 1)
    decreases i
  {
    if o + 1 < i {
      NothingKept(c, segments, o, i - 1);
      KeptStays(c, segments, o, i - 1);
    }
  }

  lemma KeptStart(c: string, segments: map<nat, nat>, o: nat)
    requires o in segments && !Inside(segments, o) && o < |c|
    ensures Kept(c, segments, o + 1) == Kept(c, segments, o) + SKIPPED
  {
    KeptNext(c, segments, o);
  }

  lemma KeptStays(c: string, segments: map<nat, nat>, o: nat, i: nat)
    requires o in segments && o < i < segments[o] && i < |c|
    ensures Kept(c, segments, i + 1) == Kept(c, segments, i)
  {
    assert Inside(segments, i);
    KeptNext(c, segments, i);
    NothingAdded(Kept(c, segments, i));
  }

  lemma KeptNext(c: string, segments: map<nat, nat>, i: nat)
    requires i < |c|
    ensures Kept(c, segments, i + 1) == Kept(c, segments, i) + Piece(c, segments, i)
  {
  }

  // Before place i the copy is right, and it goes on with the rest.
  ghost predicate CopiedUpTo(c: string, segments: map<nat, nat>, i: nat)
    requires Forward(segments) && i <= |c|
  {
    Kept(c, segments, i) + Processed(c, segments, i) == Kept(c, segments, |c|)
  }

  lemma CopiedSegment(c: string, segments: map<nat, nat>, i: nat)
    requires WellRecorded(c, segments) && Forward(segments) && i < |c| && i in segments && !Inside(segments, i)
    requires CopiedUpTo(c, segments, EndWithin(c, segments, i))
    ensures CopiedUpTo(c, segments, i)
  {
    KeptInside(c, segments, i, EndWithin(c, segments, i));
    Associate(Kept(c, segments, i), SKIPPED, Processed(c, segments, segments[i]));
  }

  lemma CopiedCharacter(c: string, segments: map<nat, nat>, i: nat)
    requires Forward(segments) && i < |c| && i !in segments && !Inside(segments, i)
    requires CopiedUpTo(c, segments, i + 1)
    ensures CopiedUpTo(c, segments, i)
  {
    Associate(Kept(c, segments, i), [c[i]], Processed(c, segments, i + 1));
  }

  // The copy keeps exactly the characters in no segment, and one replacement for every segment
  // that lies inside no other.
  lemma {:induction false} ProcessedIsKept(c: string, segments: map<nat, nat>, i: nat)
    requires WellRecorded(c, segments) && Forward(segments) && i <= |c|
    requires i < |c| ==> !Inside(segments, i)
    ensures CopiedUpTo(c, segments, i)
    decreases |c| - i
  {
    if i < |c| {
      if i in segments {
        StopsWhenClosed(c, segments, i);
        if segments[i] < |c| {
          NotInsideEnd(c, segments, i);
        }
        ProcessedIsKept(c, segments, EndWithin(c, segments, i));
        CopiedSegment(c, segments, i);
      } else {
        NotInsideNext(segments, i);
        ProcessedIsKept(c, segments, i + 1);
        CopiedCharacter(c, segments, i);
      }
    } else {
      NothingAdded(Kept(c, segments, i));
    }
  }

  lemma ForwardWhenWellRecorded(c: string, segments: map<nat, nat>)
    requires WellRecorded(c, segments)
    ensures Forward(segments)
  {
    forall o | o in segments
      ensures o < segments[o]
    {
      StopsWhenClosed(c, segments, o);
    }
  }

  lemma {:induction false} RunsOutBehind(c: string, i: nat, st: Scanner)
    requires i <= |c| && Scan(c, i, st).RanOut?
    ensures |c| <= Scan(c, i, st).end
    decreases |c| - i
  {
    if i < |c| && !Stops(st, c[i]) {
      RunsOutBehind(c, i + 1, Step(st, c[i]));
    }
  }

  // Recording never lets the copy stand still, whatever is recorded.
  lemma RecordedForward(c: string, assertFn: string, offset: nat, segments: map<nat, nat>)
    requires offset < |c| && Forward(segments)
    ensures Forward(Recorded(c, assertFn, offset, segments))
  {
    match Scan(c, offset, FRESH)
    case Closed(_) => ScanEndsAhead(c, offset, FRESH);
    case RanOut(_, _) => RunsOutBehind(c, offset, FRESH);
    case Rejected =>
  }

  // Recording at places outside quotes, closed or not.
  lemma RecordedOutside(c: string, assertFn: string, offset: nat, segments: map<nat, nat>)
    requires offset < |c| && WellRecorded(c, segments) && Outside(Run(FRESH, c[..offset]))
    ensures WellRecorded(c, Recorded(c, assertFn, offset, segments))
  {
  }

  // All that is recorded for a list of places.
  function RecordedAll(c: string, assertFn: string, offsets: seq<nat>): map<nat, nat>
    requires forall k :: 0 <= k < |offsets| ==> offsets[k] < |c|
  {
    if |offsets| == 0 then map[]
    else
      var last := |offsets| - 1;
      Recorded(c, assertFn, offsets[last], RecordedAll(c, assertFn, offsets[..last]))
  }

  lemma {:induction false} AllRecordedOutside(c: string, assertFn: string, offsets: seq<nat>)
    requires forall k :: 0 <= k < |offsets| ==> offsets[k] < |c| && Outside(Run(FRESH, c[..offsets[k]]))
    ensures WellRecorded(c, RecordedAll(c, assertFn, offsets))
  {
    if |offsets| > 0 {
      var last := |offsets| - 1;
      AllRecordedOutside(c, assertFn, offsets[..last]);
      RecordedOutside(c, assertFn, offsets[last], RecordedAll(c, assertFn, offsets[..last]));
    }
  }

  // ---- segments that run out ----

  // A parenthesis outside quotes, as the scan from i sees them.
  ghost predicate ParenthesisAhead(c: string, i: nat, st: Scanner) {
    exists j :: i <= j < |c| && Outside(Run(st, c[i..j])) && (c[j] == '(' || c[j] == ')')
  }

  lemma RunFirst(c: string, i: nat, j: nat, st: Scanner)
    requires i < j <= |c|
    ensures Run(st, c[i..j]) == Run(Step(st, c[i]), c[i + 1..j])
  {
    assert c[i..j] == [c[i]] + c[i + 1..j];
    RunAppend(st, [c[i]], c[i + 1..j]);
    RunOne(st, c[i]);
  }

  lemma AheadNext(c: string, i: nat, st: Scanner)
    requires i < |c| && !(Outside(st) && (c[i] == '(' || c[i] == ')'))
    ensures ParenthesisAhead(c, i, st) <==> ParenthesisAhead(c, i + 1, Step(st, c[i]))
  {
    forall j | i < j < |c|
      ensures Run(st, c[i..j]) == Run(Step(st, c[i]), c[i + 1..j])
    {
      RunFirst(c, i, j, st);
    }
    assert c[i..i] == "";
  }

  lemma {:induction false} DeepRunsOutDeep(c: string, i: nat, st: Scanner)
    requires i <= |c| && st.depth > 0 && Scan(c, i, st).RanOut?
    ensures Scan(c, i, st).depth > 0
    decreases |c| - i
  {
    if i < |c| {
      DeepRunsOutDeep(c, i + 1, Step(st, c[i]));
    }
  }

  lemma {:induction false} RunsOutAtZero(c: string, i: nat, st: Scanner)
    requires i <= |c| && st.depth == 0
    ensures Scan(c, i, st).RanOut? && Scan(c, i, st).depth == 0 <==> !ParenthesisAhead(c, i, st)
    decreases |c| - i
  {
    if i < |c| {
      if Outside(st) && (c[i] == '(' || c[i] == ')') {
        assert c[i..i] == "";
        assert Outside(Run(st, c[i..i]));
        if c[i] == '(' && Scan(c, i, st).RanOut? {
          DeepRunsOutDeep(c, i + 1, Step(st, c[i]));
        }
      } else {
        AheadNext(c, i, st);
        RunsOutAtZero(c, i + 1, Step(st, c[i]));
      }
    }
  }

  // What is recorded is not closed exactly when no parenthesis stands outside quotes between
  // the place and the end of the file, to which the segment then extends.
  lemma RecordedUnclosedExactly(c: string, o: nat)
    requires o < |c|
    ensures SegmentEnd(c, o).Some? && !Scan(c, o, FRESH).Closed? <==> !ParenthesisAhead(c, o, FRESH)
    ensures !ParenthesisAhead(c, o, FRESH) ==> SegmentEnd(c, o).value >= |c|
  {
    RunsOutAtZero(c, o, FRESH);
    if Scan(c, o, FRESH).RanOut? {
      RunsOutBehind(c, o, FRESH);
    }
  }

  // A bare name at the end of the file is recorded.
  lemma BareNameIsRecorded()
    ensures Recorded("f", "f", 0, map[]) == map[0 := 1] && !ParenthesisAhead("f", 0, FRESH)
  {
    assert Scan("f", 0, FRESH) == Scan("f", 1, Step(FRESH, 'f')) == RanOut(1, 0);
    RunsOutAtZero("f", 0, FRESH);
  }

  // ---- the output ----

  lemma OutermostReplaced(c: string, segments: map<nat, nat>)
    requires WellRecorded(c, segments)
    ensures Forward(segments) && Processed(c, segments, 0) == Kept(c, segments, |c|)
  {
    ForwardWhenWellRecorded(c, segments);
    ProcessedIsKept(c, segments, 0);
  }

  // Text without parentheses, quotes and backslashes does not move the scanner.
  predicate Plain(s: string) {
    forall k :: 0 <= k < |s| ==> s[k] != '(' && s[k] != ')' && s[k] != '\'' && s[k] != '"' && s[k] != '\\'
  }

  lemma {:induction false} PlainIsNeutral(st: Scanner, s: string)
    requires Outside(st) && Plain(s)
    ensures Run(st, s) == st
  {
    if |s| > 0 {
      PlainIsNeutral(st, s[..|s| - 1]);
    }
  }

  lemma RunOne(st: Scanner, ch: char)
    ensures Run(st, [ch]) == Step(st, ch)
  {
    assert [ch][..0] == "";
  }

  lemma SkippedIsNeutral(st: Scanner)
    requires Outside(st)
    ensures Run(st, SKIPPED) == st
  {
    var st2, st1 := st.(depth := st.depth + 2), st.(depth := st.depth + 1);
    RunOpens(st);
    RunAppend(st, "((", "void");
    PlainIsNeutral(st2, "void");
    RunAppend(st, "((" + "void", ")");
    RunOne(st2, ')');
    assert "((void)" == "((" + "void" + ")";
    RunAppend(st, "((void)", NOTE);
    PlainIsNeutral(st1, NOTE);
    RunAppend(st, "((void)" + NOTE, ")");
    RunOne(st1, ')');
  }

  lemma RunOpens(st: Scanner)
    requires Outside(st)
    ensures Run(st, "((") == st.(depth := st.depth + 2)
  {
    assert "((" == "(" + "(";
    RunAppend(st, "(", "(");
    RunOne(st, '(');
    RunOne(st.(depth := st.depth + 1), '(');
  }

  // The scanner before place i is the same in the output as in the input.
  ghost predicate SameBefore(c: string, segments: map<nat, nat>, i: nat)
    requires i <= |c|
  {
    Run(FRESH, Kept(c, segments, i)) == Run(FRESH, c[..i])
  }

  lemma SameAfterSegment(c: string, segments: map<nat, nat>, i: nat)
    requires WellRecorded(c, segments) && i in segments && !Inside(segments, i) && SameBefore(c, segments, i)
    requires Scan(c, i, FRESH).Closed?
    ensures i < segments[i] <= |c| && SameBefore(c, segments, segments[i])
  {
    var st, end := Run(FRESH, c[..i]), segments[i];
    NotInsideEnd(c, segments, i);
    KeptInside(c, segments, i, end);
    ClosedIsNeutral(c, i, end, st);
    SplitPrefix(c, i, end);
    BothNeutral(Kept(c, segments, i), c[..i], c[i..end]);
  }

  lemma BothNeutral(kept: string, before: string, segment: string)
    requires Run(FRESH, kept) == Run(FRESH, before) && Outside(Run(FRESH, before))
    requires Run(Run(FRESH, before), segment) == Run(FRESH, before)
    ensures Run(FRESH, kept + SKIPPED) == Run(FRESH, before + segment)
  {
    RunAppend(FRESH, kept, SKIPPED);
    SkippedIsNeutral(Run(FRESH, before));
    RunAppend(FRESH, before, segment);
  }

  lemma SameAfterCharacter(c: string, segments: map<nat, nat>, i: nat)
    requires i < |c| && i !in segments && !Inside(segments, i) && SameBefore(c, segments, i)
    ensures SameBefore(c, segments, i + 1)
  {
    RunAppend(FRESH, Kept(c, segments, i), [c[i]]);
    assert c[..i + 1] == c[..i] + [c[i]];
    RunAppend(FRESH, c[..i], [c[i]]);
  }

  lemma {:induction false} ScannerUnchanged(c: string, segments: map<nat, nat>, i: nat, j: nat)
    requires WellRecorded(c, segments) && i <= j <= |c| && !Inside(segments, i) && !Inside(segments, j)
    requires j < |c| || AllClosed(c, segments)
    requires SameBefore(c, segments, i)
    ensures SameBefore(c, segments, j)
    decreases j - i
  {
    if i < j {
      if i in segments {
        StopsWhenClosed(c, segments, i);
        assert j < segments[i] ==> Inside(segments, j);
        NotInsideEnd(c, segments, i);
        SameAfterSegment(c, segments, i);
        ScannerUnchanged(c, segments, segments[i], j);
      } else {
        NotInsideNext(segments, i);
        SameAfterCharacter(c, segments, i);
        ScannerUnchanged(c, segments, i + 1, j);
      }
    }
  }

  ghost predicate AllClosed(c: string, segments: map<nat, nat>) {
    forall o :: o in segments && o <= |c| ==> Scan(c, o, FRESH).Closed?
  }

  // Before every character that is kept, the scanner is in the same state in the output as in
  // the input; and it is so at the end, when no segment has run out.
  lemma EraserKeepsState(c: string, segments: map<nat, nat>, j: nat)
    requires WellRecorded(c, segments) && j <= |c| && !Inside(segments, j)
    requires j < |c| || AllClosed(c, segments)
    ensures Kept(c, segments, j) <= Kept(c, segments, |c|)
    ensures Run(FRESH, Kept(c, segments, j)) == Run(FRESH, c[..j])
  {
    ScannerUnchanged(c, segments, 0, j);
    KeptGrows(c, segments, j, |c|);
  }

  lemma {:induction false} KeptGrows(c: string, segments: map<nat, nat>, i: nat, j: nat)
    requires i <= j <= |c|
    ensures Kept(c, segments, i) <= Kept(c, segments, j)
    decreases j
  {
    if i < j {
      KeptGrows(c, segments, i, j - 1);
    }
  }

  // All of it together, for what is recorded at any places outside quotes.
  lemma ErasedOutsideQuotes(c: string, assertFn: string, offsets: seq<nat>)
    requires forall k :: 0 <= k < |offsets| ==> offsets[k] < |c| && Outside(Run(FRESH, c[..offsets[k]]))
    ensures var segments := RecordedAll(c, assertFn, offsets);
      && Forward(segments) && Processed(c, segments, 0) == Kept(c, segments, |c|)
      && forall j: nat :: j < |c| && !Inside(segments, j) ==>
           Kept(c, segments, j) <= Kept(c, segments, |c|) && SameBefore(c, segments, j)
  {
    var segments := RecordedAll(c, assertFn, offsets);
    AllRecordedOutside(c, assertFn, offsets);
    OutermostReplaced(c, segments);
    forall j: nat | j < |c| && !Inside(segments, j)
      ensures Kept(c, segments, j) <= Kept(c, segments, |c|) && SameBefore(c, segments, j)
    {
      EraserKeepsState(c, segments, j);
    }
  }

  // ---- places inside quotes ----

  // Replacing the segment recorded at the end of before leaves the scanner behind it as it was.
  ghost predicate Undisturbed(before: string, segment: string) {
    var c := before + segment;
    match Scan(c, |before|, FRESH)
    case Closed(end) => end <= |c| && Run(FRESH, before + SKIPPED) == Run(FRESH, c[..end])
    case _ => true
  }

  predicate NoQuotes(s: string) {
    forall k :: 0 <= k < |s| ==> s[k] != '\'' && s[k] != '"' && s[k] != '\\'
  }

  // Inside quotes, text without quotes and backslashes at most uses up an escape.
  lemma {:induction false} QuotedIsNeutral(st: Scanner, s: string)
    requires NoQuotes(s) && s != "" && (st.quote == Some('\'') || st.quote == Some('"'))
    ensures Run(st, s) == st.(skip := false)
  {
    if |s| > 1 {
      QuotedIsNeutral(st, s[..|s| - 1]);
    } else {
      assert s[..0] == "";
    }
  }

  // Backslashes count inside quotes only, and there are two kinds of quotes.
  lemma {:induction false} QuoteKinds(s: string)
    ensures var st := Run(FRESH, s);
      (st.skip ==> st.quote.Some?) && (st.quote.Some? ==> st.quote.value == '\'' || st.quote.value == '"')
  {
    if |s| > 0 {
      QuoteKinds(s[..|s| - 1]);
    }
  }

  lemma {:induction false} ScanPlain(c: string, i: nat, j: nat)
    requires i <= j <= |c| && Plain(c[i..j])
    ensures Scan(c, i, FRESH) == Scan(c, j, FRESH)
    decreases j - i
  {
    if i < j {
      assert c[i..j][0] == c[i];
      assert c[i + 1..j] == c[i..j][1..];
      ScanPlain(c, i + 1, j);
    }
  }

  // The call that shows it: its argument is quoted for the recorder and not for the file.
  function QuotedCall(q: char): string {
    ['(', q, '(', q, ')']
  }

  lemma QuotedCallCloses(c: string, i: nat, q: char)
    requires q == '\'' || q == '"'
    requires i + 5 <= |c| && c[i..i + 5] == QuotedCall(q)
    ensures Scan(c, i, FRESH) == Closed(i + 5)
  {
    var call := c[i..i + 5];
    assert c[i] == call[0] && c[i + 1] == call[1] && c[i + 2] == call[2] && c[i + 3] == call[3] && c[i + 4] == call[4];
    var open := FRESH.(depth := 1);
    var quoted := open.(quote := Some(q));
    assert Scan(c, i + 4, open) == Closed(i + 5);
    assert Scan(c, i + 3, quoted) == Scan(c, i + 4, open);
    assert Scan(c, i + 2, quoted) == Scan(c, i + 3, quoted);
    assert Scan(c, i + 1, open) == Scan(c, i + 2, quoted);
  }

  lemma RunTwo(st: Scanner, a: char, b: char)
    ensures Run(st, [a, b]) == Step(Step(st, a), b)
  {
    RunOne(st, a);
    assert [a, b][..1] == [a];
  }

  lemma QuotedCallRuns(st: Scanner, q: char)
    requires st.quote == Some(q) && !st.skip && (q == '\'' || q == '"')
    ensures Run(st, QuotedCall(q)) == st.(depth := st.depth + 1)
  {
    RunTwo(st, '(', q);
    RunTwo(st.(quote := None), '(', q);
    RunAppend(st, ['(', q], ['(', q]);
    RunAppend(st, ['(', q] + ['(', q], [')']);
    RunOne(st.(depth := st.depth + 1), ')');
    assert QuotedCall(q) == ['(', q] + ['(', q] + [')'];
  }

  // A name recorded inside quotes may be followed by a call whose removal unbalances the text.
  lemma QuotedDisturbs(before: string, name: string) returns (q: char)
    requires name != "" && Plain(name) && !Outside(Run(FRESH, before))
    ensures Run(FRESH, before).quote == Some(q)
    ensures var c := before + (name + QuotedCall(q));
      Scan(c, |before|, FRESH) == Closed(|c|) && Run(FRESH, before + SKIPPED) != Run(FRESH, c)
  {
    var st := Run(FRESH, before);
    QuoteKinds(before);
    q := st.quote.value;
    CallIsRecorded(before, name, q);
    RunAppend(FRESH, before, SKIPPED);
    RunAppend(FRESH, before, name + QuotedCall(q));
    RunAppend(st, name, QuotedCall(q));
    SkippedHasNoQuotes();
    QuotedIsNeutral(st, SKIPPED);
    QuotedIsNeutral(st, name);
    QuotedCallRuns(st.(skip := false), q);
  }

  lemma CallIsRecorded(before: string, name: string, q: char)
    requires Plain(name) && (q == '\'' || q == '"')
    ensures var c := before + (name + QuotedCall(q)); Scan(c, |before|, FRESH) == Closed(|c|)
  {
    var c, i := before + (name + QuotedCall(q)), |before| + |name|;
    assert c[|before|..i] == name && c[i..i + 5] == QuotedCall(q);
    ScanPlain(c, |before|, i);
    QuotedCallCloses(c, i, q);
  }

  lemma SkippedHasNoQuotes()
    ensures NoQuotes(SKIPPED) && SKIPPED != ""
  {
    assert NoQuotes("((void)") && NoQuotes(NOTE) && NoQuotes(")");
  }

  // A name inside quotes is recorded, and the character behind the segment, which is kept, is
  // read with another parenthesis open than before.
  lemma QuotedNameBreaks()
    ensures var c, segments := "\"f(\"(\")x", map[1 := 7];
      Recorded(c, "f", 1, map[]) == segments && 7 < |c| && !Inside(segments, 7) && !SameBefore(c, segments, 7)
  {
    var c, before := "\"f(\"(\")x", "\"";
    QuotedNameRecorded(c);
    RunOne(FRESH, '"');
    var q := QuotedDisturbs(before, "f");
    assert c[..7] == before + ("f" + QuotedCall(q));
    KeptBehind(c, before, 1, 7);
  }

  lemma QuotedNameRecorded(c: string)
    requires c == "\"f(\"(\")x"
    ensures Recorded(c, "f", 1, map[]) == map[1 := 7]
  {
    assert c[1..2] == "f" && c[2..7] == QuotedCall('"');
    ScanPlain(c, 1, 2);
    QuotedCallCloses(c, 2, '"');
  }

  // With one segment, recorded at the end of before.
  lemma KeptBehind(c: string, before: string, o: nat, end: nat)
    requires o == 1 < end <= |c| && before == c[..1]
    ensures Kept(c, map[o := end], end) == before + SKIPPED
  {
    var segments := map[o := end];
    assert o in segments;
    KeptInside(c, segments, o, end);
    KeptNext(c, segments, 0);
    assert Kept(c, segments, 1) == before;
  }

  // A place is safe to record whatever follows the name exactly when it is outside quotes.
  lemma SafeExactlyOutside(before: string, name: string)
    requires name != "" && Plain(name)
    ensures Outside(Run(FRESH, before)) <==> forall rest :: Undisturbed(before, name + rest)
  {
    if Outside(Run(FRESH, before)) {
      forall rest
        ensures Undisturbed(before, name + rest)
      {
        var c := before + (name + rest);
        if Scan(c, |before|, FRESH).Closed? {
          var end := Scan(c, |before|, FRESH).end;
          ClosedIsNeutral(c, |before|, end, Run(FRESH, before));
          assert c[..end] == before + c[|before|..end];
          BothNeutral(before, before, c[|before|..end]);
        }
      }
    } else {
      var q := QuotedDisturbs(before, name);
      var c := before + (name + QuotedCall(q));
      assert c[..|c|] == c;
      assert !Undisturbed(before, name + QuotedCall(q));
    }
  }

  // ---- calls ----

  // What may be written between the parentheses of a call: text without quotes and parentheses,
  // string and character literals, and parentheses in pairs.
  datatype Arguments =
    | Nothing
    | Text(s: string, rest: Arguments)
    | Literal(quote: char, body: string, rest: Arguments)
    | Group(inner: Arguments, rest: Arguments)

  // A literal's text, with a backslash before each backslash and each quote of its kind.
  function Escaped(body: string, q: char): string {
    if |body| == 0 then ""
    else
      var last := body[|body| - 1];
      Escaped(body[..|body| - 1], q) + (if last == q || last == '\\' then ['\\', last] else [last])
  }

  function Written(a: Arguments): string {
    match a
    case Nothing => ""
    case Text(s, rest) => s + Written(rest)
    case Literal(q, body, rest) => [q] + Escaped(body, q) + [q] + Written(rest)
    case Group(inner, rest) => ['('] + Written(inner) + [')'] + Written(rest)
  }

  predicate Loose(s: string) {
    forall k :: 0 <= k < |s| ==> s[k] != '(' && s[k] != ')' && s[k] != '\'' && s[k] != '"'
  }

  predicate Proper(a: Arguments) {
    match a
    case Nothing => true
    case Text(s, rest) => Loose(s) && Proper(rest)
    case Literal(q, _, rest) => (q == '\'' || q == '"') && Proper(rest)
    case Group(inner, rest) => Proper(inner) && Proper(rest)
  }

  // From inside a literal its text leads to where it began.
  lemma {:induction false} EscapedIsNeutral(st: Scanner, body: string, q: char)
    requires st.quote == Some(q) && !st.skip && (q == '\'' || q == '"')
    ensures Run(st, Escaped(body, q)) == st
  {
    if |body| > 0 {
      var before, last := Escaped(body[..|body| - 1], q), body[|body| - 1];
      EscapedIsNeutral(st, body[..|body| - 1], q);
      if last == q || last == '\\' {
        RunAppend(st, before, ['\\', last]);
        RunTwo(st, '\\', last);
      } else {
        RunAppend(st, before, [last]);
        RunOne(st, last);
      }
    }
  }

  // A literal does not move the scanner, whatever its text.
  lemma LiteralIsNeutral(st: Scanner, body: string, q: char)
    requires Outside(st) && (q == '\'' || q == '"')
    ensures Run(st, [q] + Escaped(body, q) + [q]) == st
  {
    var open := st.(quote := Some(q));
    RunAppend(st, [q] + Escaped(body, q), [q]);
    RunAppend(st, [q], Escaped(body, q));
    RunOne(st, q);
    EscapedIsNeutral(open, body, q);
    RunOne(open, q);
  }

  lemma ScanOne(c: string, i: nat, st: Scanner)
    requires i < |c| && !Stops(st, c[i])
    ensures Scan(c, i, st) == Scan(c, i + 1, Step(st, c[i]))
  {
  }

  lemma {:induction false} ScanLoose(c: string, i: nat, j: nat, st: Scanner)
    requires i <= j <= |c| && Loose(c[i..j]) && Outside(st)
    ensures Scan(c, i, st) == Scan(c, j, st)
    decreases j - i
  {
    if i < j {
      assert c[i..j][0] == c[i];
      assert c[i + 1..j] == c[i..j][1..];
      ScanOne(c, i, st);
      ScanLoose(c, i + 1, j, st);
    }
  }

  lemma {:induction false} ScanEscaped(c: string, i: nat, j: nat, st: Scanner, body: string, q: char)
    requires i <= j <= |c| && c[i..j] == Escaped(body, q)
    requires st.quote == Some(q) && !st.skip && (q == '\'' || q == '"')
    ensures Scan(c, i, st) == Scan(c, j, st)
    decreases |body|
  {
    if |body| > 0 {
      var before, last := Escaped(body[..|body| - 1], q), body[|body| - 1];
      var m := i + |before|;
      assert c[i..m] == c[i..j][..|before|] == before;
      assert c[m..j] == c[i..j][|before|..];
      ScanEscaped(c, i, m, st, body[..|body| - 1], q);
      if last == q || last == '\\' {
        assert c[m..j] == ['\\', last];
        assert c[m] == c[m..j][0] && c[m + 1] == c[m..j][1];
        ScanOne(c, m, st);
        ScanOne(c, m + 1, st.(skip := true));
      } else {
        assert c[m..j] == [last];
        assert c[m] == c[m..j][0];
        ScanOne(c, m, st);
      }
    }
  }

  lemma SliceParts(c: string, i: nat, j: nat, a: string, b: string)
    requires i <= j <= |c| && c[i..j] == a + b
    ensures i + |a| <= j && c[i..i + |a|] == a && c[i + |a|..j] == b
  {
    assert c[i..i + |a|] == c[i..j][..|a|];
    assert c[i + |a|..j] == c[i..j][|a|..];
  }

  // Text between two delimiters.
  lemma Enclosed(c: string, i: nat, j: nat, l: char, text: string, r: char, rest: string)
    requires i <= j <= |c| && c[i..j] == [l] + text + [r] + rest
    ensures var m := i + 1 + |text|;
      && m < j && c[i] == l && c[i + 1..m] == text && c[m] == r && c[m + 1..j] == rest
  {
    var m := i + 1 + |text|;
    SliceParts(c, i, j, [l] + text + [r], rest);
    SliceParts(c, i, m + 1, [l] + text, [r]);
    SliceParts(c, i, m, [l], text);
    assert c[i] == c[i..i + 1][0] && c[m] == c[m..m + 1][0];
  }

  lemma ScanLiteral(c: string, i: nat, m: nat, st: Scanner, body: string, q: char)
    requires i < m < |c| && c[i] == q && c[i + 1..m] == Escaped(body, q) && c[m] == q
    requires Outside(st) && (q == '\'' || q == '"')
    ensures Scan(c, i, st) == Scan(c, m + 1, st)
  {
    var open := st.(quote := Some(q));
    ScanOne(c, i, st);
    ScanEscaped(c, i + 1, m, open, body, q);
    ScanOne(c, m, open);
  }

  // Inside a parenthesis the scan passes over arguments and is as it was.
  lemma {:induction false} ScanArguments(c: string, i: nat, j: nat, st: Scanner, a: Arguments)
    requires i <= j <= |c| && c[i..j] == Written(a) && Proper(a)
    requires Outside(st) && st.depth > 0
    ensures Scan(c, i, st) == Scan(c, j, st)
    decreases a
  {
    match a
    case Nothing =>
    case Text(s, rest) =>
      SliceParts(c, i, j, s, Written(rest));
      ScanLoose(c, i, i + |s|, st);
      ScanArguments(c, i + |s|, j, st, rest);
    case Literal(q, body, rest) =>
      var m := i + 1 + |Escaped(body, q)|;
      Enclosed(c, i, j, q, Escaped(body, q), q, Written(rest));
      ScanLiteral(c, i, m, st, body, q);
      ScanArguments(c, m + 1, j, st, rest);
    case Group(inner, rest) =>
      var m := i + 1 + |Written(inner)|;
      Enclosed(c, i, j, '(', Written(inner), ')', Written(rest));
      ScanArguments(c, i + 1, m, st.(depth := st.depth + 1), inner);
      ScanParentheses(c, i, m, st);
      ScanArguments(c, m + 1, j, st, rest);
  }

  lemma ScanParentheses(c: string, i: nat, m: nat, st: Scanner)
    requires i < m < |c| && c[i] == '(' && c[m] == ')' && Outside(st) && st.depth > 0
    requires var deeper := st.(depth := st.depth + 1); Scan(c, i + 1, deeper) == Scan(c, m, deeper)
    ensures Scan(c, i, st) == Scan(c, m + 1, st)
  {
    ScanOne(c, i, st);
    ScanOne(c, m, st.(depth := st.depth + 1));
  }

  function Call(name: string, a: Arguments): string {
    name + "(" + Written(a) + ")"
  }

  // The scan from a call ends where the call does.
  lemma CallCloses(c: string, o: nat, name: string, a: Arguments)
    requires o + |Call(name, a)| <= |c| && c[o..o + |Call(name, a)|] == Call(name, a)
    requires Loose(name) && Proper(a)
    ensures Scan(c, o, FRESH) == Closed(o + |Call(name, a)|)
  {
    var end, open := o + |Call(name, a)|, FRESH.(depth := 1);
    var i := o + |name|;
    SliceParts(c, o, end, name + "(" + Written(a), ")");
    SliceParts(c, o, end - 1, name + "(", Written(a));
    SliceParts(c, o, i + 1, name, "(");
    assert c[i] == c[i..i + 1][0] && c[end - 1] == c[end - 1..end][0];
    ScanLoose(c, o, i, FRESH);
    ScanOne(c, i, FRESH);
    ScanArguments(c, i + 1, end - 1, open, a);
  }

  // A call is recorded from its name to its closing parenthesis, whatever surrounds it.
  lemma CallRecorded(before: string, name: string, a: Arguments, after: string)
    requires Loose(name) && Proper(a)
    ensures var c := before + Call(name, a) + after;
      Recorded(c, name, |before|, map[]) == map[|before| := |before| + |Call(name, a)|]
  {
    var c := before + Call(name, a) + after;
    assert c[|before|..|before| + |Call(name, a)|] == Call(name, a);
    assert c[|before|..|before| + |name|] == name;
    CallCloses(c, |before|, name, a);
  }

  // Where another text stands nothing is recorded.
  lemma OnlyNamesRecorded(c: string, name: string, o: nat, segments: map<nat, nat>)
    requires o < |c| && forall rest :: c[o..] != name + rest
    ensures Recorded(c, name, o, segments) == segments
  {
    if Slice(c, o, |name|) == name {
      var rest := StandsAt(c, name, o);
      assert false;
    }
  }

  lemma StandsAt(c: string, name: string, o: nat) returns (rest: string)
    requires o < |c| && Slice(c, o, |name|) == name
    ensures c[o..] == name + rest
  {
    rest := c[o + |name|..];
  }

  lemma {:induction false} ProcessedBehind(c: string, o: nat, end: nat, i: nat)
    requires o < end <= i <= |c|
    ensures Processed(c, map[o := end], i) == c[i..]
    decreases |c| - i
  {
    if i < |c| {
      ProcessedBehind(c, o, end, i + 1);
      assert c[i..] == [c[i]] + c[i + 1..];
    }
  }

  lemma {:induction false} ProcessedBefore(c: string, o: nat, end: nat, i: nat)
    requires i <= o < end <= |c|
    ensures Processed(c, map[o := end], i) == c[i..o] + SKIPPED + c[end..]
    decreases o - i
  {
    if i < o {
      ProcessedBefore(c, o, end, i + 1);
      assert c[i..o] == [c[i]] + c[i + 1..o];
      FourParts([c[i]], c[i + 1..o], SKIPPED, c[end..]);
    } else {
      ProcessedBehind(c, o, end, end);
      NothingBefore(SKIPPED, c[end..]);
      assert c[i..o] == "";
    }
  }

  lemma FourParts(a: string, b: string, c: string, d: string)
    ensures a + (b + c + d) == a + b + c + d
  {
  }

  lemma NothingBefore(a: string, b: string)
    ensures "" + a + b == a + b
  {
  }

  // The call alone is replaced: what stands before and after it is kept as it is.
  lemma CallErased(before: string, name: string, a: Arguments, after: string)
    requires Loose(name) && Proper(a)
    ensures var c := before + Call(name, a) + after; var segments := Recorded(c, name, |before|, map[]);
      Forward(segments) && Processed(c, segments, 0) == before + SKIPPED + after
  {
    var c, end := before + Call(name, a) + after, |before| + |Call(name, a)|;
    CallRecorded(before, name, a, after);
    ProcessedBefore(c, |before|, end, 0);
    assert c[0..|before|] == before && c[end..] == after;
  }
}
