/** `labelEnd`, `skipWhitespace` and `destinationRange` of `scripts/markdown.ts`: finding a link's
    authored destination inside the node's own source text. */
module MarkdownDestinations {
  import opened Text

  datatype Kind = Inline | Definition

  datatype Result = Range(start: nat, end: nat) | NoLabelEnd | NoSeparator | NoInlineDestination | NoAngleEnd

  // ---------------------------------------------------------------- the scanners as functions

  function SkipSpace(s: string, i: nat): (j: nat)
    ensures i <= j && (i <= |s| ==> j <= |s|)
    ensures j < |s| ==> !IsSpace(s[j])
    ensures forall k :: i <= k < j ==> k < |s| && IsSpace(s[k])
    decreases |s| - i
  {
    if i < |s| && IsSpace(s[i]) then SkipSpace(s, i + 1) else i
  }

  /** The label loop from index `i` at nesting `depth`; `|s|` when it finds no end. */
  function LabelScan(s: string, i: nat, depth: int): (end: nat)
    ensures end <= |s| && (end < |s| ==> s[end] == ']' && i <= end)
    decreases |s| - i
  {
    if i >= |s| then |s|
    else if s[i] == '\\' then LabelScan(s, i + 2, depth)
    else if s[i] == '[' then LabelScan(s, i + 1, depth + 1)
    else if s[i] == ']' then (if depth - 1 == 0 then i else LabelScan(s, i + 1, depth - 1))
    else LabelScan(s, i + 1, depth)
  }

  function LabelEnd(s: string): (end: nat)
    ensures end <= |s| && (end < |s| ==> s[end] == ']')
  {
    LabelScan(s, IndexOf(s, '[', 0), 0)
  }

  /** The loop over an angle-bracket destination; `|s|` when it is not closed. */
  function AngleScan(s: string, i: nat): (end: nat)
    ensures end <= |s| && (end < |s| ==> i <= end)
    decreases |s| - i
  {
    if i >= |s| then |s|
    else if s[i] == '\\' then AngleScan(s, i + 2)
    else if s[i] == '>' then i
    else AngleScan(s, i + 1)
  }

  /** The loop over a bare destination. */
  function BareScan(s: string, i: nat, depth: nat): (end: nat)
    ensures end <= |s| && (i <= |s| ==> i <= end)
    decreases |s| - i
  {
    if i >= |s| then |s|
    else if s[i] == '\\' then BareScan(s, i + 2, depth)
    else if s[i] == '(' then BareScan(s, i + 1, depth + 1)
    else if s[i] == ')' then (if depth == 0 then i else BareScan(s, i + 1, depth - 1))
    else if IsSpace(s[i]) && depth == 0 then i
    else BareScan(s, i + 1, depth)
  }

  function RangeFrom(s: string, start: nat): Result {
    if start < |s| && s[start] == '<' then
      var end := AngleScan(s, start + 1);
      if end < |s| then Range(start + 1, end) else NoAngleEnd
    else Range(start, BareScan(s, start, 0))
  }

  function DestinationRange(s: string, kind: Kind): Result {
    var close := LabelEnd(s);
    if close == |s| then NoLabelEnd
    else if kind.Definition? then
      var colon := IndexOf(s, ':', close + 1);
      if colon >= |s| then NoSeparator else RangeFrom(s, SkipSpace(s, colon + 1))
    else if close + 1 >= |s| || s[close + 1] != '(' then NoInlineDestination
    else RangeFrom(s, SkipSpace(s, close + 2))
  }

  /** Every range found lies inside the node's text. */
  lemma RangeInside(s: string, kind: Kind)
    ensures DestinationRange(s, kind).Range? ==> DestinationRange(s, kind).start <= DestinationRange(s, kind).end <= |s|
  {
  }

  // ---------------------------------------------------------------- well-nested text

  /** Text with balanced unescaped brackets: CommonMark 0.31.2, section 6.3. */
  datatype Piece = Plain(c: char) | Escaped(c: char) | Group(inside: seq<Piece>)

  function Print(ps: seq<Piece>, open: char, close: char): string {
    if ps == [] then "" else PrintOne(ps[0], open, close) + Print(ps[1..], open, close)
  }

  function PrintOne(p: Piece, open: char, close: char): string {
    match p
    case Plain(c) => [c]
    case Escaped(c) => ['\\', c]
    case Group(inside) => [open] + Print(inside, open, close) + [close]
  }

  predicate Brackets(ps: seq<Piece>) {
    forall p :: p in ps ==> match p
      case Plain(c) => c != '\\' && c != '[' && c != ']'
      case Escaped(_) => true
      case Group(inside) => Brackets(inside)
  }

  predicate Angled(ps: seq<Piece>) {
    forall p :: p in ps ==> match p
      case Plain(c) => c != '\\' && c != '>'
      case Escaped(_) => true
      case Group(_) => false
  }

  /** `part` stands in `s` at index `i`. */
  predicate At(s: string, i: nat, part: string) {
    i + |part| <= |s| && s[i..i + |part|] == part
  }

  lemma AtSplit(s: string, i: nat, a: string, b: string)
    requires At(s, i, a + b)
    ensures At(s, i, a) && At(s, i + |a|, b)
  {
    assert s[i..i + |a|] == s[i..i + |a + b|][..|a|] == a;
    assert s[i + |a|..i + |a| + |b|] == s[i..i + |a + b|][|a|..] == b;
  }

  lemma AtGroup(s: string, i: nat, open: char, text: string, close: char)
    requires At(s, i, [open] + text + [close])
    ensures s[i] == open && At(s, i + 1, text) && s[i + 1 + |text|] == close
  {
    AtSplit(s, i, [open] + text, [close]);
    AtSplit(s, i, [open], text);
    assert s[i] == s[i..i + 1][0] && s[i + 1 + |text|] == s[i + 1 + |text|..i + 2 + |text|][0];
  }

  lemma AtFirst(s: string, i: nat, part: string)
    requires At(s, i, part) && part != ""
    ensures i < |s| && s[i] == part[0]
  {
  }

  lemma LabelSkipsOne(s: string, i: nat, p: Piece, depth: int)
    requires Brackets([p]) && depth >= 1 && At(s, i, PrintOne(p, '[', ']'))
    ensures LabelScan(s, i, depth) == LabelScan(s, i + |PrintOne(p, '[', ']')|, depth)
    decreases p
  {
    hide At, IsSpace;
    assert p in [p];
    match p
    case Plain(_) => AtFirst(s, i, PrintOne(p, '[', ']'));
    case Escaped(_) => AtFirst(s, i, PrintOne(p, '[', ']'));
    case Group(inside) =>
      AtGroup(s, i, '[', Print(inside, '[', ']'), ']');
      LabelSkips(s, i + 1, inside, depth + 1);
  }

  lemma {:induction false} LabelSkips(s: string, i: nat, ps: seq<Piece>, depth: int)
    requires Brackets(ps) && depth >= 1 && At(s, i, Print(ps, '[', ']'))
    ensures LabelScan(s, i, depth) == LabelScan(s, i + |Print(ps, '[', ']')|, depth)
    decreases ps
  {
    hide At, IsSpace, LabelScan;
    if ps != [] {
      AtSplit(s, i, PrintOne(ps[0], '[', ']'), Print(ps[1..], '[', ']'));
      assert ps[0] in ps && forall q :: q in ps[1..] ==> q in ps;
      LabelSkipsOne(s, i, ps[0], depth);
      LabelSkips(s, i + |PrintOne(ps[0], '[', ']')|, ps[1..], depth);
    }
  }

  lemma {:induction false} AngleSkips(s: string, i: nat, ps: seq<Piece>)
    requires Angled(ps) && At(s, i, Print(ps, '<', '>'))
    ensures AngleScan(s, i) == AngleScan(s, i + |Print(ps, '<', '>')|)
    decreases ps
  {
    if ps != [] {
      var p, rest := ps[0], ps[1..];
      var one := PrintOne(p, '<', '>');
      AtSplit(s, i, one, Print(rest, '<', '>'));
      assert p in ps && forall q :: q in rest ==> q in ps;
      AngleSkips(s, i + |one|, rest);
      match p
      case Plain(c) => AtFirst(s, i, one);
      case Escaped(c) => AtFirst(s, i, one);
      case Group(_) =>
    }
  }

  // ---------------------------------------------------------------- printed links are read back

  ghost predicate AllSpace(s: string) {
    forall i :: 0 <= i < |s| ==> IsSpace(s[i])
  }

  /** Before the label there is at most an image's `!`: nothing that opens a bracket. */
  predicate NoBracket(pre: string) {
    '[' !in pre
  }

  lemma {:induction false} IndexOfSkips(s: string, c: char, from: nat, to: nat)
    requires from <= to <= |s| && c !in s[from..to] && (to < |s| ==> s[to] == c)
    ensures IndexOf(s, c, from) == to
    decreases |s| - from
  {
    if from < to {
      assert s[from] == s[from..to][0];
      assert s[from + 1..to] == s[from..to][1..];
      IndexOfSkips(s, c, from + 1, to);
    }
  }

  lemma {:induction false} SkipsAllSpace(s: string, i: nat, j: nat)
    requires i <= j <= |s| && AllSpace(s[i..j]) && (j < |s| ==> !IsSpace(s[j]))
    ensures SkipSpace(s, i) == j
    decreases |s| - i
  {
    if i < j {
      assert IsSpace(s[i..j][0]);
      assert s[i + 1..j] == s[i..j][1..];
      SkipsAllSpace(s, i + 1, j);
    }
  }

  /** The label of `pre[label]…` ends where it was printed to end. */
  lemma LabelFound(s: string, pre: string, caption: seq<Piece>, rest: string)
    requires NoBracket(pre) && Brackets(caption)
    requires s == pre + "[" + Print(caption, '[', ']') + "]" + rest
    ensures LabelEnd(s) == |pre| + 1 + |Print(caption, '[', ']')|
  {
    var n, text := |pre|, Print(caption, '[', ']');
    assert s[..n] == pre && s[n] == '[' && s[n + 1..n + 1 + |text|] == text && s[n + 1 + |text|] == ']';
    IndexOfSkips(s, '[', 0, n);
    LabelSkips(s, n + 1, caption, 1);
  }

  lemma SpaceIsPlain(c: char)
    ensures IsSpace(c) ==> c != '\\' && c != '(' && c != ')' && c != '<'
  {
  }

  /** A text starting at `i` with `a` and going on with `b`. */
  lemma Follows(s: string, i: nat, a: string, b: string)
    requires i <= |s| && s[i..] == a + b
    ensures i + |a| <= |s| && s[i..i + |a|] == a && s[i + |a|..] == b && At(s, i, a)
    ensures b != "" ==> i + |a| < |s| && s[i + |a|] == b[0]
  {
  }

  // ---------------------------------------------------------------- bare destinations

  /** What a backslash escapes: ASCII punctuation (CommonMark 0.31.2, section 2.4). */
  predicate IsPunctuation(c: char) {
    '!' <= c <= '/' || ':' <= c <= '@' || '[' <= c <= '`' || '{' <= c <= '~'
  }

  /** Parentheses that are not escaped pair up, `depth` of them being open before. CommonMark's bare
      destinations (section 6.3) are the balanced texts without spaces and control characters. */
  predicate Balanced(dest: string, depth: nat)
    decreases |dest|
  {
    if dest == "" then depth == 0
    else if dest[0] == '\\' && |dest| > 1 && IsPunctuation(dest[1]) then Balanced(dest[2..], depth)
    else if dest[0] == '(' then Balanced(dest[1..], depth + 1)
    else if dest[0] == ')' then depth > 0 && Balanced(dest[1..], depth - 1)
    else Balanced(dest[1..], depth)
  }

  /** Outside all parentheses stands a white space character with no backslash taking it. */
  predicate SpaceAtTop(dest: string, depth: nat)
    decreases |dest|
  {
    if dest == "" then false
    else if dest[0] == '\\' then |dest| > 1 && SpaceAtTop(dest[2..], depth)
    else if dest[0] == '(' then SpaceAtTop(dest[1..], depth + 1)
    else if dest[0] == ')' then SpaceAtTop(dest[1..], if depth > 0 then depth - 1 else 0)
    else (IsSpace(dest[0]) && depth == 0) || SpaceAtTop(dest[1..], depth)
  }

  /** The text ends in an odd run of backslashes, so the last one takes what follows. */
  predicate Dangles(dest: string)
    decreases |dest|
  {
    if dest == "" then false
    else if dest[0] == '\\' then |dest| == 1 || Dangles(dest[2..])
    else Dangles(dest[1..])
  }

  /** What may follow a bare destination: nothing, white space, or a closing parenthesis that is not
      escaped. */
  predicate EndsBare(dest: string, rest: string) {
    rest == "" || IsSpace(rest[0]) || (rest[0] == ')' && !Dangles(dest))
  }

  /** A bare destination does not start with `<`, and an empty one follows all white space. */
  predicate StartsBare(dest: string, rest: string) {
    if dest == "" then rest == "" || rest[0] == ')' else dest[0] != '<'
  }

  /** No white space that the scanner takes for the end, and no backslash that hides the end from it. */
  predicate Locatable(dest: string, rest: string) {
    !SpaceAtTop(dest, 0) && !(Dangles(dest) && rest != "" && IsSpace(rest[0]))
  }

  /** A backslash that escapes nothing may be read together with the character after it. */
  lemma EscapeSkips(dest: string, depth: nat)
    requires |dest| > 1 && dest[0] == '\\' && Balanced(dest, depth)
    ensures Balanced(dest[2..], depth)
  {
    if !IsPunctuation(dest[1]) {
      assert dest[1..][0] == dest[1] && dest[1..][1..] == dest[2..];
      assert Balanced(dest[1..], depth);
    }
  }

  /** The bare scan ends with the destination exactly if the destination is locatable. */
  lemma {:induction false} BareExact(s: string, i: nat, dest: string, rest: string, depth: nat)
    requires i <= |s| && s[i..] == dest + rest && Balanced(dest, depth) && EndsBare(dest, rest)
    ensures BareScan(s, i, depth) == i + |dest| <==> !SpaceAtTop(dest, depth) && !(Dangles(dest) && rest != "")
    decreases |dest|
  {
    hide IsSpace, IsPunctuation;
    if dest == "" {
      EmptyExact(s, i, rest);
    } else {
      assert s[i] == dest[0];
      if dest[0] == '\\' {
        if |dest| > 1 {
          EscapeSkips(dest, depth);
          assert s[i + 2..] == dest[2..] + rest;
          BareExact(s, i + 2, dest[2..], rest, depth);
        }
      } else {
        SpaceIsPlain(dest[0]);
        assert s[i + 1..] == dest[1..] + rest;
        if dest[0] == '(' {
          BareExact(s, i + 1, dest[1..], rest, depth + 1);
        } else if dest[0] == ')' {
          BareExact(s, i + 1, dest[1..], rest, depth - 1);
        } else if !IsSpace(dest[0]) || depth > 0 {
          BareExact(s, i + 1, dest[1..], rest, depth);
        }
      }
    }
  }

  lemma EmptyExact(s: string, i: nat, rest: string)
    requires i <= |s| && s[i..] == rest && EndsBare("", rest)
    ensures BareScan(s, i, 0) == i
  {
    if rest != "" {
      assert s[i] == rest[0];
      SpaceIsPlain(rest[0]);
    }
  }

  /** White space, then a bare destination, then what may follow one. */
  lemma BareFound(s: string, i: nat, space: string, dest: string, rest: string)
    requires i <= |s| && s[i..] == space + dest + rest
    requires AllSpace(space) && Balanced(dest, 0) && StartsBare(dest, rest) && EndsBare(dest, rest)
    ensures var start := i + |space|;
            RangeFrom(s, SkipSpace(s, i)) == Range(start, start + |dest|) <==> Locatable(dest, rest)
  {
    hide *;
    Behind(s[i..], space, dest, rest);
    assert s[i..i + |space|] == s[i..][..|space|] && s[i + |space|..] == s[i..][|space|..];
    BareBehind(s, i, i + |space|, dest, rest);
  }

  lemma Behind(t: string, a: string, b: string, c: string)
    requires t == a + b + c
    ensures |a| <= |t| && t[..|a|] == a && t[|a|..] == b + c
  {
  }

  lemma BareBehind(s: string, i: nat, j: nat, dest: string, rest: string)
    requires i <= j <= |s| && AllSpace(s[i..j]) && s[j..] == dest + rest
    requires Balanced(dest, 0) && StartsBare(dest, rest) && EndsBare(dest, rest)
    ensures RangeFrom(s, SkipSpace(s, i)) == Range(j, j + |dest|) <==> Locatable(dest, rest)
  {
    hide IsSpace, Balanced, EndsBare, StartsBare, RangeFrom, SkipSpace, Locatable, AllSpace;
    if j < |s| {
      assert s[j] == (dest + rest)[0];
    }
    if dest != "" && IsSpace(dest[0]) {
      PastSpace(s, i, j);
      PastStart(s, SkipSpace(s, i), j, dest, rest);
    } else {
      if j < |s| { BareStart(dest, rest); }
      SkipsAllSpace(s, i, j);
      BareRange(s, j, dest, rest);
    }
  }

  lemma PastStart(s: string, start: nat, j: nat, dest: string, rest: string)
    requires start > j && dest != "" && IsSpace(dest[0])
    ensures RangeFrom(s, start) != Range(j, j + |dest|) && !Locatable(dest, rest)
  {
    hide IsSpace;
    SpaceIsPlain(dest[0]);
  }

  lemma BareRange(s: string, start: nat, dest: string, rest: string)
    requires start <= |s| && s[start..] == dest + rest && (dest != "" ==> !IsSpace(dest[0]))
    requires Balanced(dest, 0) && StartsBare(dest, rest) && EndsBare(dest, rest)
    ensures RangeFrom(s, start) == Range(start, start + |dest|) <==> Locatable(dest, rest)
  {
    hide IsSpace, Balanced, BareScan, Dangles, SpaceAtTop;
    if start < |s| {
      BareStart(dest, rest);
      assert s[start] == (dest + rest)[0];
    }
    BareExact(s, start, dest, rest, 0);
    if rest != "" { SpaceIsPlain(rest[0]); }
  }

  lemma BareStart(dest: string, rest: string)
    requires StartsBare(dest, rest) && (dest != "" ==> !IsSpace(dest[0])) && dest + rest != ""
    ensures var c := (dest + rest)[0]; !IsSpace(c) && c != '<'
  {
  }

  /** White space at the start of the destination is skipped with the white space before it. */
  lemma {:induction false} PastSpace(s: string, i: nat, j: nat)
    requires i <= j < |s| && AllSpace(s[i..j]) && IsSpace(s[j])
    ensures SkipSpace(s, i) > j
    decreases |s| - i
  {
    if i < j {
      assert IsSpace(s[i..j][0]);
      assert s[i + 1..j] == s[i..j][1..];
      PastSpace(s, i + 1, j);
    }
  }

  /** White space, then `<dest>`. */
  lemma AngleFound(s: string, i: nat, space: string, dest: seq<Piece>, rest: string)
    requires i <= |s| && s[i..] == space + "<" + Print(dest, '<', '>') + ">" + rest
    requires AllSpace(space) && Angled(dest)
    ensures RangeFrom(s, SkipSpace(s, i)) == Range(i + |space| + 1, i + |space| + 1 + |Print(dest, '<', '>')|)
  {
    hide IsSpace, Angled, Print, At, RangeFrom, SkipSpace;
    var text := Print(dest, '<', '>');
    var j := i + |space|;
    assert space + "<" + text + ">" + rest == space + ("<" + (text + (">" + rest)));
    Follows(s, i, space, "<" + (text + (">" + rest)));
    Follows(s, j, "<", text + (">" + rest));
    Follows(s, j + 1, text, ">" + rest);
    SpaceIsPlain('<');
    SkipsAllSpace(s, i, j);
    AngleRange(s, j, dest);
  }

  lemma AngleRange(s: string, start: nat, dest: seq<Piece>)
    requires start < |s| && s[start] == '<' && Angled(dest) && At(s, start + 1, Print(dest, '<', '>'))
    requires var end := start + 1 + |Print(dest, '<', '>')|; end < |s| && s[end] == '>'
    ensures RangeFrom(s, start) == Range(start + 1, start + 1 + |Print(dest, '<', '>')|)
  {
    hide Angled, Print, At;
    AngleSkips(s, start + 1, dest);
  }

  lemma Regroup(head: string, a: string, b: string, c: string)
    ensures head + a + b + c == head + (a + b + c)
  {
    assert head + a + b == head + (a + b);
  }

  lemma InlineParts(pre: string, text: string, tail: string)
    ensures var s, n := pre + "[" + text + "](" + tail, |pre| + |text| + 3;
            s == pre + "[" + text + "]" + ("(" + tail) && n <= |s| && s[n - 1] == '(' && s[n..] == tail
  {
    Regroup(pre + "[" + text, "]", "(", tail);
    Regroup(pre + "[" + text + "]", "(", tail, "");
    assert pre + "[" + text + "](" == pre + "[" + text + "]" + "(";
  }

  /** Where the destination of `pre[label](…` may start. */
  lemma InlineTail(s: string, pre: string, caption: seq<Piece>, tail: string)
    requires NoBracket(pre) && Brackets(caption) && s == pre + "[" + Print(caption, '[', ']') + "](" + tail
    ensures var n := |pre| + |Print(caption, '[', ']')| + 3;
            n <= |s| && s[n..] == tail && DestinationRange(s, Inline) == RangeFrom(s, SkipSpace(s, n))
  {
    hide LabelEnd, RangeFrom, SkipSpace, Print, Brackets, NoBracket;
    InlineParts(pre, Print(caption, '[', ']'), tail);
    LabelFound(s, pre, caption, "(" + tail);
  }

  lemma InlineBare(s: string, pre: string, caption: seq<Piece>, space: string, dest: string, rest: string)
    requires NoBracket(pre) && Brackets(caption) && AllSpace(space)
    requires Balanced(dest, 0) && StartsBare(dest, rest) && EndsBare(dest, rest)
    requires s == pre + "[" + Print(caption, '[', ']') + "](" + (space + dest + rest)
    ensures var start := |pre| + |Print(caption, '[', ']')| + 3 + |space|;
            DestinationRange(s, Inline) == Range(start, start + |dest|) <==> Locatable(dest, rest)
  {
    hide *;
    InlineTail(s, pre, caption, space + dest + rest);
    BareFound(s, |pre| + |Print(caption, '[', ']')| + 3, space, dest, rest);
  }

  lemma InlineAngle(s: string, pre: string, caption: seq<Piece>, space: string, dest: seq<Piece>, rest: string)
    requires NoBracket(pre) && Brackets(caption) && AllSpace(space) && Angled(dest)
    requires s == pre + "[" + Print(caption, '[', ']') + "](" + (space + "<" + Print(dest, '<', '>') + ">" + rest)
    ensures var start := |pre| + |Print(caption, '[', ']')| + 4 + |space|;
            DestinationRange(s, Inline) == Range(start, start + |Print(dest, '<', '>')|)
  {
    hide *;
    InlineTail(s, pre, caption, space + "<" + Print(dest, '<', '>') + ">" + rest);
    AngleFound(s, |pre| + |Print(caption, '[', ']')| + 3, space, dest, rest);
  }

  /** `[label](dest …)`: the range of `dest`, for every balanced destination, exactly if it is locatable. */
  lemma InlineRange(pre: string, caption: seq<Piece>, space: string, dest: string, rest: string)
    requires NoBracket(pre) && Brackets(caption) && AllSpace(space)
    requires Balanced(dest, 0) && StartsBare(dest, rest) && EndsBare(dest, rest)
    ensures var s := pre + "[" + Print(caption, '[', ']') + "](" + space + dest + rest;
            var start := |pre| + |Print(caption, '[', ']')| + 3 + |space|;
            DestinationRange(s, Inline) == Range(start, start + |dest|) <==> Locatable(dest, rest)
  {
    hide *;
    var head := pre + "[" + Print(caption, '[', ']') + "](";
    var s := head + space + dest + rest;
    Regroup(head, space, dest, rest);
    InlineBare(s, pre, caption, space, dest, rest);
  }

  /** `[label](<dest> …)`: the range between the angle brackets. */
  lemma InlineAngleRange(pre: string, caption: seq<Piece>, space: string, dest: seq<Piece>, rest: string)
    requires NoBracket(pre) && Brackets(caption) && AllSpace(space) && Angled(dest)
    ensures var s := pre + "[" + Print(caption, '[', ']') + "](" + space + "<" + Print(dest, '<', '>') + ">" + rest;
            var start := |pre| + |Print(caption, '[', ']')| + 4 + |space|;
            DestinationRange(s, Inline) == Range(start, start + |Print(dest, '<', '>')|)
  {
    hide *;
    var head := pre + "[" + Print(caption, '[', ']') + "](";
    var text := Print(dest, '<', '>');
    var s := head + space + "<" + text + ">" + rest;
    Regroup(head, space, "<", text);
    Regroup(head, space + "<" + text, ">", rest);
    InlineAngle(s, pre, caption, space, dest, rest);
  }

  /** `[label]: dest`: likewise. */
  lemma DefinitionRange(caption: seq<Piece>, space: string, dest: string, rest: string)
    requires Brackets(caption) && AllSpace(space)
    requires Balanced(dest, 0) && StartsBare(dest, rest) && EndsBare(dest, rest)
    ensures var s := "[" + Print(caption, '[', ']') + "]:" + space + dest + rest;
            var start := |Print(caption, '[', ']')| + 3 + |space|;
            DestinationRange(s, Definition) == Range(start, start + |dest|) <==> Locatable(dest, rest)
  {
    hide LabelEnd, RangeFrom, Print, Brackets, Balanced, StartsBare, EndsBare, NoBracket, AllSpace, Locatable;
    var text := Print(caption, '[', ']');
    var tail := space + dest + rest;
    var s := "[" + text + "]:" + space + dest + rest;
    assert s == "" + "[" + text + "]" + (":" + tail);
    LabelFound(s, "", caption, ":" + tail);
    var i := |text| + 3;
    assert s[i - 1] == ':' && s[i..] == tail;
    IndexOfSkips(s, ':', i - 1, i - 1);
    BareFound(s, i, space, dest, rest);
  }

  /** A destination `a\` loses its end: its backslash takes the blank, and the title joins it. */
  lemma BackslashHidesEnd()
    ensures DestinationRange("[x](a\\ \"t\")", Inline) == Range(4, 10)
  {
    var s := "[x](a\\ \"t\")";
    assert LabelEnd(s) == 2;
    assert BareScan(s, 7, 0) == 10;
  }

  /** A no-break space, part of a destination in CommonMark, ends it. */
  lemma NoBreakSpaceEnds()
    ensures DestinationRange("[x](a\U{00A0}b)", Inline) == Range(4, 5)
  {
    var s := "[x](a\U{00A0}b)";
    assert LabelEnd(s) == 2;
  }

  // ---------------------------------------------------------------- the loops

  method SkipWhitespace(source: string, start: nat) returns (index: nat)
    requires start <= |source|
    ensures index == SkipSpace(source, start)
  {
    index := start;
    while index < |source| && IsSpace(source[index])
      invariant start <= index <= |source| && SkipSpace(source, index) == SkipSpace(source, start)
    {
      index := index + 1;
    }
  }

  method FindLabelEnd(source: string) returns (end: nat)
    ensures end == LabelEnd(source)
  {
    var first := IndexOf(source, '[', 0);
    if first >= |source| {
      return |source|;
    }
    var depth := 0;
    var index := first;
    while index < |source|
      invariant LabelScan(source, index, depth) == LabelEnd(source)
      decreases |source| - index
    {
      var c := source[index];
      if c == '\\' {
        index := index + 1;
      } else if c == '[' {
        depth := depth + 1;
      } else if c == ']' {
        depth := depth - 1;
        if depth == 0 {
          return index;
        }
      }
      index := index + 1;
    }
    return |source|;
  }

  /** The loop after an opening `<`; `|rawNode|` when nothing closes it. */
  method FindAngleEnd(rawNode: string, start: nat) returns (end: nat)
    ensures end == AngleScan(rawNode, start)
  {
    var index := start;
    while index < |rawNode|
      invariant AngleScan(rawNode, index) == AngleScan(rawNode, start)
      decreases |rawNode| - index
    {
      if rawNode[index] == '\\' {
        index := index + 1;
      } else if rawNode[index] == '>' {
        return index;
      }
      index := index + 1;
    }
    return |rawNode|;
  }

  /** The loop over a bare destination. */
  method FindBareEnd(rawNode: string, start: nat) returns (end: nat)
    ensures end == BareScan(rawNode, start, 0)
  {
    hide IsSpace;
    var depth := 0;
    var index := start;
    while index < |rawNode|
      invariant depth >= 0 && BareScan(rawNode, index, depth) == BareScan(rawNode, start, 0)
      decreases |rawNode| - index
    {
      var c := rawNode[index];
      if c == '\\' {
        index := index + 1;
      } else if c == '(' {
        depth := depth + 1;
      } else if c == ')' {
        if depth == 0 {
          return index;
        }
        depth := depth - 1;
      } else if IsSpace(c) && depth == 0 {
        return index;
      }
      index := index + 1;
    }
    return |rawNode|;
  }

  method FindDestination(rawNode: string, kind: Kind) returns (r: Result)
    ensures r == DestinationRange(rawNode, kind)
  {
    hide IsSpace, LabelEnd, SkipSpace, IndexOf, AngleScan, BareScan;
    var endOfLabel := FindLabelEnd(rawNode);
    if endOfLabel == |rawNode| {
      return NoLabelEnd;
    }
    var start: nat;
    if kind.Definition? {
      var colon := IndexOf(rawNode, ':', endOfLabel + 1);
      if colon >= |rawNode| {
        return NoSeparator;
      }
      start := SkipWhitespace(rawNode, colon + 1);
    } else {
      if endOfLabel + 1 >= |rawNode| || rawNode[endOfLabel + 1] != '(' {
        return NoInlineDestination;
      }
      start := SkipWhitespace(rawNode, endOfLabel + 2);
    }
    if start < |rawNode| && rawNode[start] == '<' {
      var end := FindAngleEnd(rawNode, start + 1);
      return if end < |rawNode| then Range(start + 1, end) else NoAngleEnd;
    }
    var end := FindBareEnd(rawNode, start);
    return Range(start, end);
  }
}
