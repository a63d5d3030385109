/** `htmlCommentRanges` (from parsed comment offsets on), `hasRenderedTextOutsideComments` and
    `markdownProseLines` of `scripts/markdown.ts`. */
module MarkdownProse {
  import opened Numbers
  import StableSort
  import opened Text

  /** Half-open source offsets, or columns of one line. */
  datatype Span = Span(start: nat, end: nat)

  /** `[from, to]` as pushed for a line; the sweep reads the two ends. */
  type Columns = seq<Span>

  /** Whether a comment leaves a range on the line at `offset`. */
  predicate Touches(c: Span, raw: string, offset: nat) {
    || Max(c.start, offset) < Min(c.end, offset + |raw|)
    || (|raw| == 0 && c.start <= offset < c.end)
  }

  function Clip(c: Span, raw: string, offset: nat): Span
    requires Touches(c, raw, offset)
  {
    Span(Max(c.start, offset) - offset, Min(c.end, offset + |raw|) - offset)
  }

  function LineRanges(comments: seq<Span>, raw: string, offset: nat): Columns {
    if comments == [] then [] else
      var c := comments[|comments| - 1];
      LineRanges(comments[..|comments| - 1], raw, offset) +
        if Touches(c, raw, offset) then [Clip(c, raw, offset)] else []
  }

  /** `raw.slice(from, to)` */
  function Slice(raw: string, from: nat, to: nat): string {
    if from < to && to <= |raw| then raw[from..to] else if from < |raw| && |raw| < to then raw[from..] else ""
  }

  /** The cursor sweep over sorted ranges. */
  function Visible(raw: string, ranges: Columns, cursor: nat): string {
    if ranges == [] then Slice(raw, cursor, |raw|)
    else Slice(raw, cursor, ranges[0].start) + Visible(raw, ranges[1..], Max(cursor, ranges[0].end))
  }

  /** `visible.trim().length > 0` */
  predicate SomeInk(s: string) {
    exists i :: 0 <= i < |s| && !IsSpace(s[i])
  }

  function ByStart(a: Span, b: Span): int {
    a.start - b.start
  }

  predicate Kept(comments: seq<Span>, raw: string, offset: nat) {
    Rendered(raw, LineRanges(comments, raw, offset))
  }

  /** No range at all on the line means the line is kept as it is. */
  predicate Rendered(raw: string, ranges: Columns) {
    ranges == [] || SomeInk(Visible(raw, StableSort.Sort(ranges, (a, b) => ByStart(a, b)), 0))
  }

  // ---------------------------------------------------------------- what the sweep decides

  predicate InComment(comments: seq<Span>, at: nat) {
    exists c :: c in comments && c.start <= at < c.end
  }

  predicate Touched(comments: seq<Span>, raw: string, offset: nat) {
    exists c :: c in comments && Touches(c, raw, offset)
  }

  predicate InkAt(comments: seq<Span>, raw: string, offset: nat, i: nat) {
    i < |raw| && !IsSpace(raw[i]) && !InComment(comments, offset + i)
  }

  /** Some character of the line that is not white space lies outside every comment. */
  predicate InkOutside(comments: seq<Span>, raw: string, offset: nat) {
    exists i: nat :: i < |raw| && InkAt(comments, raw, offset, i)
  }

  predicate Free(ranges: Columns, i: nat) {
    forall r :: r in ranges ==> !(r.start <= i < r.end)
  }

  ghost predicate Rising(ranges: Columns) {
    forall i, j :: 0 <= i < j < |ranges| ==> ranges[i].start <= ranges[j].start
  }

  ghost predicate Fits(raw: string, ranges: Columns) {
    forall r :: r in ranges ==> r.start <= r.end <= |raw|
  }

  ghost predicate FreeInk(raw: string, ranges: Columns, cursor: nat, i: nat) {
    cursor <= i < |raw| && !IsSpace(raw[i]) && Free(ranges, i)
  }

  lemma InkInConcat(a: string, b: string)
    ensures SomeInk(a + b) <==> SomeInk(a) || SomeInk(b)
  {
    if SomeInk(a) {
      var i :| 0 <= i < |a| && !IsSpace(a[i]);
      assert (a + b)[i] == a[i];
    }
    if SomeInk(b) {
      var i :| 0 <= i < |b| && !IsSpace(b[i]);
      assert (a + b)[|a| + i] == b[i];
    }
    if SomeInk(a + b) {
      var i :| 0 <= i < |a + b| && !IsSpace((a + b)[i]);
      assert i < |a| ==> a[i] == (a + b)[i];
      assert i >= |a| ==> b[i - |a|] == (a + b)[i];
    }
  }

  lemma InkInSlice(raw: string, from: nat, to: nat)
    requires to <= |raw|
    ensures SomeInk(Slice(raw, from, to)) <==> exists i :: from <= i < to && !IsSpace(raw[i])
  {
    var s := Slice(raw, from, to);
    if i :| from <= i < to && !IsSpace(raw[i]) {
      assert s[i - from] == raw[i];
    }
    if SomeInk(s) {
      var i :| 0 <= i < |s| && !IsSpace(s[i]);
      assert raw[from + i] == s[i];
    }
  }

  /** The sweep sees ink exactly where no range covers it: overlaps and nesting do not matter. */
  lemma {:induction false} SweepSees(raw: string, ranges: Columns, cursor: nat)
    requires Rising(ranges) && Fits(raw, ranges) && cursor <= |raw|
    ensures SomeInk(Visible(raw, ranges, cursor)) <==> exists i: nat :: FreeInk(raw, ranges, cursor, i)
    decreases |ranges|
  {
    if ranges == [] {
      InkInSlice(raw, cursor, |raw|);
      if i :| cursor <= i < |raw| && !IsSpace(raw[i]) {
        assert FreeInk(raw, ranges, cursor, i);
      }
    } else {
      var r, rest := ranges[0], ranges[1..];
      assert r in ranges && forall q :: q in rest ==> q in ranges;
      var next := Max(cursor, r.end);
      SweepSees(raw, rest, next);
      InkInSlice(raw, cursor, r.start);
      InkInConcat(Slice(raw, cursor, r.start), Visible(raw, rest, next));
      SweepSplit(raw, ranges, cursor);
    }
  }

  lemma BeforeFirst(raw: string, ranges: Columns, i: nat)
    requires Rising(ranges) && ranges != [] && i < ranges[0].start
    ensures Free(ranges, i)
  {
    forall q | q in ranges
      ensures !(q.start <= i < q.end)
    {
      var k :| 0 <= k < |ranges| && ranges[k] == q;
      assert ranges[0].start <= ranges[k].start;
    }
  }

  /** Free ink lies before the first range, or after it and free of the others. */
  lemma SweepSplit(raw: string, ranges: Columns, cursor: nat)
    requires Rising(ranges) && Fits(raw, ranges) && ranges != []
    ensures (exists i: nat :: FreeInk(raw, ranges, cursor, i)) <==>
      || (exists i :: cursor <= i < ranges[0].start && i < |raw| && !IsSpace(raw[i]))
      || (exists i: nat :: FreeInk(raw, ranges[1..], Max(cursor, ranges[0].end), i))
  {
    var r, rest := ranges[0], ranges[1..];
    var next := Max(cursor, r.end);
    assert ranges == [r] + rest && r in ranges;
    if i: nat :| FreeInk(raw, ranges, cursor, i) {
      if i >= r.start {
        assert FreeInk(raw, rest, next, i);
      }
    }
    if i :| cursor <= i < r.start && i < |raw| && !IsSpace(raw[i]) {
      BeforeFirst(raw, ranges, i);
      assert FreeInk(raw, ranges, cursor, i);
    }
    if i: nat :| FreeInk(raw, rest, next, i) {
      assert FreeInk(raw, ranges, cursor, i);
    }
  }

  lemma ClipCovers(c: Span, raw: string, offset: nat, i: nat)
    requires i < |raw|
    ensures c.start <= offset + i < c.end <==>
      Touches(c, raw, offset) && Clip(c, raw, offset).start <= i < Clip(c, raw, offset).end
  {
  }

  lemma FreeSnoc(ranges: Columns, r: Span, i: nat)
    ensures Free(ranges + [r], i) <==> Free(ranges, i) && !(r.start <= i < r.end)
  {
  }

  lemma {:induction false} ClippedRanges(comments: seq<Span>, raw: string, offset: nat)
    ensures Fits(raw, LineRanges(comments, raw, offset))
    ensures LineRanges(comments, raw, offset) != [] <==> Touched(comments, raw, offset)
    ensures forall i: nat :: i < |raw| ==>
      (Free(LineRanges(comments, raw, offset), i) <==> !InComment(comments, offset + i))
  {
    if comments != [] {
      var n := |comments| - 1;
      var c := comments[n];
      ClippedRanges(comments[..n], raw, offset);
      assert comments == comments[..n] + [c];
      var before, all := LineRanges(comments[..n], raw, offset), LineRanges(comments, raw, offset);
      forall i: nat | i < |raw|
        ensures Free(all, i) <==> !InComment(comments, offset + i)
      {
        assert InComment(comments, offset + i) <==>
          InComment(comments[..n], offset + i) || c.start <= offset + i < c.end;
        ClipCovers(c, raw, offset, i);
        if Touches(c, raw, offset) {
          FreeSnoc(before, Clip(c, raw, offset), i);
        }
        assert Free(before, i) <==> !InComment(comments[..n], offset + i);
      }
    }
  }

  lemma SortedRanges(ranges: Columns)
    ensures var s := StableSort.Sort(ranges, (a, b) => ByStart(a, b));
            Rising(s) && forall r :: r in s <==> r in ranges
  {
    var cmp := (a, b) => ByStart(a, b);
    StableSort.SortOrders(ranges, cmp);
    StableSort.SortMembers(ranges, cmp);
    var s := StableSort.Sort(ranges, cmp);
    forall i, j | 0 <= i < j < |s|
      ensures s[i].start <= s[j].start
    {
      assert cmp(s[i], s[j]) <= 0;
    }
  }

  /** Exactly which lines are kept: those no comment touches, and those with ink outside comments. */
  lemma KeptIff(comments: seq<Span>, raw: string, offset: nat)
    ensures Kept(comments, raw, offset) <==> !Touched(comments, raw, offset) || InkOutside(comments, raw, offset)
  {
    var ranges := LineRanges(comments, raw, offset);
    var sorted := StableSort.Sort(ranges, (a, b) => ByStart(a, b));
    ClippedRanges(comments, raw, offset);
    SortedRanges(ranges);
    SweepSees(raw, sorted, 0);
    assert forall i: nat :: Free(sorted, i) <==> Free(ranges, i);
    SameInk(comments, raw, offset, sorted);
  }

  lemma SameInk(comments: seq<Span>, raw: string, offset: nat, sorted: Columns)
    requires forall i: nat :: i < |raw| ==> (Free(sorted, i) <==> !InComment(comments, offset + i))
    ensures (exists i: nat :: FreeInk(raw, sorted, 0, i)) <==> InkOutside(comments, raw, offset)
  {
    if i: nat :| FreeInk(raw, sorted, 0, i) {
      assert InkAt(comments, raw, offset, i);
    }
    if InkOutside(comments, raw, offset) {
      var i: nat :| i < |raw| && InkAt(comments, raw, offset, i);
      assert FreeInk(raw, sorted, 0, i);
    }
  }

  /** "Kept exactly when some non-white character is outside all comments" holds of a line exactly
      when a comment touches it or it has a non-white character at all. */
  lemma InkRuleHoldsIff(comments: seq<Span>, raw: string, offset: nat)
    ensures (Kept(comments, raw, offset) <==> InkOutside(comments, raw, offset)) <==>
      (Touched(comments, raw, offset) || SomeInk(raw))
  {
    KeptIff(comments, raw, offset);
    if !Touched(comments, raw, offset) && SomeInk(raw) {
      var i :| 0 <= i < |raw| && !IsSpace(raw[i]);
      forall c | c in comments
        ensures !(c.start <= offset + i < c.end)
      {
        ClipCovers(c, raw, offset, i);
      }
      assert InkAt(comments, raw, offset, i);
    }
  }

  /** A line of blanks outside all comments is kept although it renders nothing. */
  lemma BlankLineIsKept()
    ensures Kept([], "  ", 0) && !InkOutside([], "  ", 0)
  {
  }

  // ---------------------------------------------------------------- the loops

  method RangesOfLine(comments: seq<Span>, raw: string, lineOffset: nat) returns (ranges: Columns)
    ensures ranges == LineRanges(comments, raw, lineOffset)
  {
    ranges := [];
    var lineEnd := lineOffset + |raw|;
    for i := 0 to |comments|
      invariant ranges == LineRanges(comments[..i], raw, lineOffset)
    {
      var c := comments[i];
      assert comments[..i + 1][..i] == comments[..i];
      var from, to := Max(c.start, lineOffset), Min(c.end, lineEnd);
      var coversEmptyLine := |raw| == 0 && c.start <= lineOffset && c.end > lineOffset;
      if from < to || coversEmptyLine {
        ranges := ranges + [Span(from - lineOffset, to - lineOffset)];
      }
    }
    assert comments[..|comments|] == comments;
  }

  method HasRenderedText(raw: string, ranges: Columns) returns (r: bool)
    ensures r <==> Rendered(raw, ranges)
  {
    if ranges == [] {
      return true;
    }
    var sorted := StableSort.Sort(ranges, (a, b) => ByStart(a, b));
    var cursor, visible := 0, "";
    for i := 0 to |sorted|
      invariant visible + Visible(raw, sorted[i..], cursor) == Visible(raw, sorted, 0)
    {
      visible := visible + Slice(raw, cursor, sorted[i].start);
      cursor := Max(cursor, sorted[i].end);
    }
    visible := visible + Slice(raw, cursor, |raw|);
    r := SomeInk(visible);
  }

  /** One kept line: its 1-based number and its text. */
  datatype ProseLine = ProseLine(index: nat, raw: string)

  function Offset(lines: seq<string>, n: nat): nat
    requires n <= |lines|
  {
    if n == 0 then 0 else Offset(lines, n - 1) + |lines[n - 1]| + 1
  }

  /** The first `n` lines that are neither fenced nor commented away, in order. */
  function Prose(lines: seq<string>, comments: seq<Span>, fenced: set<nat>, n: nat): seq<ProseLine>
    requires n <= |lines|
  {
    if n == 0 then [] else
      Prose(lines, comments, fenced, n - 1) +
        if n !in fenced && Kept(comments, lines[n - 1], Offset(lines, n - 1)) then [ProseLine(n, lines[n - 1])] else []
  }

  method MarkdownProseLines(rawLines: seq<string>, comments: seq<Span>, fenced: set<nat>) returns (kept: seq<ProseLine>)
    ensures kept == Prose(rawLines, comments, fenced, |rawLines|)
    ensures KeptLines(rawLines, comments, fenced, kept)
  {
    hide Rendered, LineRanges, KeptLines;
    ProseIsKept(rawLines, comments, fenced);
    kept := [];
    var lineOffset := 0;
    for i := 0 to |rawLines|
      invariant kept == Prose(rawLines, comments, fenced, i) && lineOffset == Offset(rawLines, i)
    {
      var raw := rawLines[i];
      var ranges := RangesOfLine(comments, raw, lineOffset);
      if i + 1 !in fenced {
        var rendered := HasRenderedText(raw, ranges);
        if rendered {
          kept := kept + [ProseLine(i + 1, raw)];
        }
      }
      lineOffset := lineOffset + |raw| + 1;
    }
  }

  /** Line `n` of the source is among the prose lines exactly when it is unfenced and not
      commented away. */
  lemma {:induction false} ProseLineIff(lines: seq<string>, comments: seq<Span>, fenced: set<nat>, n: nat, k: nat)
    requires k < n <= |lines|
    ensures ProseLine(k + 1, lines[k]) in Prose(lines, comments, fenced, n) <==>
      && k + 1 !in fenced
      && (!Touched(comments, lines[k], Offset(lines, k)) || InkOutside(comments, lines[k], Offset(lines, k)))
  {
    hide Prose, Kept, Touched, InkOutside, Offset;
    ProseGrows(lines, comments, fenced, n, ProseLine(k + 1, lines[k]));
    if k == n - 1 {
      KeptIff(comments, lines[k], Offset(lines, k));
      ProseIndices(lines, comments, fenced, n - 1);
    } else {
      ProseLineIff(lines, comments, fenced, n - 1, k);
    }
  }

  lemma ProseGrows(lines: seq<string>, comments: seq<Span>, fenced: set<nat>, n: nat, p: ProseLine)
    requires 0 < n <= |lines|
    ensures p in Prose(lines, comments, fenced, n) <==>
      || p in Prose(lines, comments, fenced, n - 1)
      || (p == ProseLine(n, lines[n - 1]) && n !in fenced && Kept(comments, lines[n - 1], Offset(lines, n - 1)))
  {
  }

  lemma {:induction false} ProseIndices(lines: seq<string>, comments: seq<Span>, fenced: set<nat>, n: nat)
    requires n <= |lines|
    ensures forall p :: p in Prose(lines, comments, fenced, n) ==> 1 <= p.index <= n
  {
    if n > 0 {
      ProseIndices(lines, comments, fenced, n - 1);
    }
  }

  // ---------------------------------------------------------------- in terms of the source

  /** `k` lines of the source end right before offset `o`, with the line break of the last of them. */
  ghost predicate StartsAt(lines: seq<string>, k: nat, o: nat)
    requires k < |lines|
  {
    var source := Join(lines, "\n");
    && o + |lines[k]| <= |source| && source[o..o + |lines[k]|] == lines[k]
    && (if k == 0 then o == 0 else o > 0 && source[..o - 1] == Join(lines[..k], "\n") && source[o - 1] == '\n')
  }

  lemma {:induction false} JoinSplits(lines: seq<string>, k: nat)
    requires 0 < k < |lines|
    ensures Join(lines, "\n") == Join(lines[..k], "\n") + "\n" + Join(lines[k..], "\n")
  {
    var first, rest := lines[0], lines[1..];
    if k == 1 {
      assert lines[..1] == [first];
    } else {
      JoinSplits(rest, k - 1);
      assert rest[..k - 1] == lines[..k][1..] && rest[k - 1..] == lines[k..];
      var a, b := Join(rest[..k - 1], "\n"), Join(lines[k..], "\n");
      Reassociate(first, a, b);
    }
  }

  lemma Reassociate(first: string, a: string, b: string)
    ensures first + "\n" + (a + "\n" + b) == first + "\n" + a + "\n" + b
  {
  }

  lemma {:induction false} OffsetIsLength(lines: seq<string>, k: nat)
    requires k <= |lines|
    ensures Offset(lines, k) == if k == 0 then 0 else |Join(lines[..k], "\n")| + 1
  {
    if k == 1 {
      assert lines[..1] == [lines[0]];
    } else if k > 1 {
      OffsetIsLength(lines, k - 1);
      JoinSplits(lines[..k], k - 1);
      assert lines[..k][..k - 1] == lines[..k - 1] && lines[..k][k - 1..] == [lines[k - 1]];
    }
  }

  lemma FirstOfJoin(lines: seq<string>)
    requires lines != []
    ensures lines[0] <= Join(lines, "\n")
  {
    if |lines| > 1 {
      var tail := "\n" + Join(lines[1..], "\n");
      assert Join(lines, "\n") == lines[0] + tail;
    }
  }

  /** `Offset` is where a line starts in the source that `split` cut at its line breaks. */
  lemma OffsetStartsLine(lines: seq<string>, k: nat)
    requires k < |lines|
    ensures StartsAt(lines, k, Offset(lines, k))
  {
    OffsetIsLength(lines, k);
    FirstOfJoin(lines[k..]);
    if k > 0 {
      JoinSplits(lines, k);
      SliceBehind(Join(lines[..k], "\n") + "\n", Join(lines[k..], "\n"), lines[k]);
    }
  }

  lemma SliceBehind(a: string, b: string, c: string)
    requires c <= b
    ensures |a| + |c| <= |a + b| && (a + b)[|a|..|a| + |c|] == c
  {
    assert (a + b)[|a|..|a| + |c|] == b[..|c|];
  }

  lemma StartsOnce(lines: seq<string>, k: nat, o: nat, q: nat)
    requires k < |lines| && StartsAt(lines, k, o) && StartsAt(lines, k, q)
    ensures o == q
  {
    var source := Join(lines, "\n");
    if k > 0 {
      assert |source[..o - 1]| == |source[..q - 1]|;
    }
  }

  /** A comment covers some character of the line, or the place of an empty line. */
  ghost predicate Covers(c: Span, raw: string, o: nat) {
    (raw == "" && Holds(c, o)) || exists at :: o <= at < o + |raw| && Holds(c, at)
  }

  predicate Holds(c: Span, at: int) {
    c.start <= at < c.end
  }

  lemma TouchesIff(c: Span, raw: string, o: nat)
    ensures Touches(c, raw, o) <==> Covers(c, raw, o)
  {
    if Max(c.start, o) < Min(c.end, o + |raw|) {
      var at := Max(c.start, o);
      assert o <= at < o + |raw| && Holds(c, at);
    }
    if at :| o <= at < o + |raw| && Holds(c, at) {
      assert Max(c.start, o) <= at < Min(c.end, o + |raw|);
    }
  }

  /** What a reader of the rendered page may still see of line `k`: it is no code, and either no comment
      covers anything of it, or some character that is not white space stands outside all comments. */
  ghost predicate Seen(lines: seq<string>, comments: seq<Span>, fenced: set<nat>, k: nat)
    requires k < |lines|
  {
    && k + 1 !in fenced
    && exists o: nat ::
      && StartsAt(lines, k, o)
      && ((forall c :: c in comments ==> !Covers(c, lines[k], o)) || InkOutside(comments, lines[k], o))
  }

  /** The kept lines are those seen, with their numbers from one on, each once and in order. */
  ghost predicate KeptLines(lines: seq<string>, comments: seq<Span>, fenced: set<nat>, kept: seq<ProseLine>) {
    && (forall i :: 0 <= i < |kept| ==>
        1 <= kept[i].index <= |lines| && kept[i].raw == lines[kept[i].index - 1]
        && Seen(lines, comments, fenced, kept[i].index - 1))
    && (forall i, j :: 0 <= i < j < |kept| ==> kept[i].index < kept[j].index)
    && (forall k :: 0 <= k < |lines| && Seen(lines, comments, fenced, k) ==> ProseLine(k + 1, lines[k]) in kept)
  }

  lemma SeenIff(lines: seq<string>, comments: seq<Span>, fenced: set<nat>, k: nat)
    requires k < |lines|
    ensures Seen(lines, comments, fenced, k) <==> k + 1 !in fenced && Kept(comments, lines[k], Offset(lines, k))
  {
    hide Touches, Covers, StartsAt, Kept, InkOutside, Offset;
    var o := Offset(lines, k);
    OffsetStartsLine(lines, k);
    KeptIff(comments, lines[k], o);
    forall c
      ensures Touches(c, lines[k], o) <==> Covers(c, lines[k], o)
    {
      TouchesIff(c, lines[k], o);
    }
    forall q: nat | StartsAt(lines, k, q)
      ensures q == o
    {
      StartsOnce(lines, k, o, q);
    }
  }

  /** Lines among the first `n`, with their own text, each number larger than the one before. */
  ghost predicate Ascends(lines: seq<string>, kept: seq<ProseLine>, n: nat) {
    && n <= |lines|
    && (forall i :: 0 <= i < |kept| ==> 1 <= kept[i].index <= n && kept[i].raw == lines[kept[i].index - 1])
    && (forall i, j :: 0 <= i < j < |kept| ==> kept[i].index < kept[j].index)
  }

  lemma AscendsOn(lines: seq<string>, kept: seq<ProseLine>, n: nat)
    requires 0 < n <= |lines| && Ascends(lines, kept, n - 1)
    ensures Ascends(lines, kept + [], n) && Ascends(lines, kept + [ProseLine(n, lines[n - 1])], n)
  {
  }

  lemma {:induction false} ProseAscends(lines: seq<string>, comments: seq<Span>, fenced: set<nat>, n: nat)
    requires n <= |lines|
    ensures Ascends(lines, Prose(lines, comments, fenced, n), n)
  {
    if n > 0 {
      ProseAscends(lines, comments, fenced, n - 1);
      AscendsOn(lines, Prose(lines, comments, fenced, n - 1), n);
      hide Kept, Offset, Ascends;
    }
  }

  lemma ProseIsKept(lines: seq<string>, comments: seq<Span>, fenced: set<nat>)
    ensures KeptLines(lines, comments, fenced, Prose(lines, comments, fenced, |lines|))
  {
    hide Prose, Seen, Touched, InkOutside, Offset, Kept;
    var kept := Prose(lines, comments, fenced, |lines|);
    ProseAscends(lines, comments, fenced, |lines|);
    forall k | 0 <= k < |lines|
      ensures Seen(lines, comments, fenced, k) <==> ProseLine(k + 1, lines[k]) in kept
    {
      SeenIff(lines, comments, fenced, k);
      KeptIff(comments, lines[k], Offset(lines, k));
      ProseLineIff(lines, comments, fenced, |lines|, k);
    }
    forall i | 0 <= i < |kept|
      ensures Seen(lines, comments, fenced, kept[i].index - 1)
    {
      assert kept[i] == ProseLine(kept[i].index - 1 + 1, lines[kept[i].index - 1]);
      assert kept[i] in kept;
    }
  }
}
