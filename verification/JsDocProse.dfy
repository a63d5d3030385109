/** `parseJsDoc` of `scripts/jsdoc.ts`: the line-by-line state machine that gathers a comment's
    prose into paragraph and list blocks and stops at the first block tag. */
module JsDocProse {
  import opened Options
  import opened Text

  datatype Mode = Emit | Waterfall | Parallel | Serial | Bail

  // ---------------------------------------------------------------- text

  function TrimStart(s: string): string {
    if s != "" && IsSpace(s[0]) then TrimStart(s[1..]) else s
  }

  function TrimEnd(s: string): string {
    if s != "" && IsSpace(s[|s| - 1]) then TrimEnd(s[..|s| - 1]) else s
  }

  function Trim(s: string): string {
    TrimEnd(TrimStart(s))
  }

  /** `replace(/\s+/g, ' ')`. */
  function Collapse(s: string): string
    decreases |s|
  {
    if s == "" then ""
    else if IsSpace(s[0]) then (if |s| > 1 && IsSpace(s[1]) then Collapse(s[1..]) else " " + Collapse(s[1..]))
    else [s[0]] + Collapse(s[1..])
  }

  /** `join`: the parts on one line. */
  function OneLine(parts: seq<string>): string {
    Trim(Collapse(Join(parts, " ")))
  }

  // ---------------------------------------------------------------- words

  /** The words of `s`, the first of them continuing `word`. */
  function Scan(s: string, word: string): seq<string>
    decreases |s|
  {
    if s == "" then (if word == "" then [] else [word])
    else if IsSpace(s[0]) then (if word == "" then [] else [word]) + Scan(s[1..], "")
    else Scan(s[1..], word + [s[0]])
  }

  /** The maximal runs of characters that are not white space, in order. */
  function Words(s: string): seq<string> {
    Scan(s, "")
  }

  function AllWords(lines: seq<string>): seq<string> {
    if lines == [] then [] else Words(lines[0]) + AllWords(lines[1..])
  }

  predicate Spaces(s: string) {
    forall i :: 0 <= i < |s| ==> IsSpace(s[i])
  }

  lemma {:induction false} ScanBreaks(a: string, gap: char, b: string, word: string)
    requires IsSpace(gap)
    ensures Scan(a + [gap] + b, word) == Scan(a, word) + Scan(b, "")
    decreases |a|
  {
    var s := a + [gap] + b;
    if a == "" {
      assert s[1..] == b;
    } else {
      assert s[1..] == a[1..] + [gap] + b;
      ScanBreaks(a[1..], gap, b, if IsSpace(a[0]) then "" else word + [a[0]]);
    }
  }

  lemma {:induction false} CollapseKeepsWords(s: string, word: string)
    ensures Scan(Collapse(s), word) == Scan(s, word)
    decreases |s|
  {
    if s != "" {
      if !IsSpace(s[0]) {
        CollapseKeepsWords(s[1..], word + [s[0]]);
        assert ([s[0]] + Collapse(s[1..]))[1..] == Collapse(s[1..]);
      } else if |s| > 1 && IsSpace(s[1]) {
        CollapseKeepsWords(s[1..], word);
      } else {
        CollapseKeepsWords(s[1..], "");
        assert (" " + Collapse(s[1..]))[1..] == Collapse(s[1..]);
      }
    }
  }

  lemma {:induction false} TrimStartKeepsWords(s: string)
    ensures Words(TrimStart(s)) == Words(s)
  {
    if s != "" && IsSpace(s[0]) {
      TrimStartKeepsWords(s[1..]);
    }
  }

  lemma {:induction false} TrimEndKeepsWords(s: string)
    ensures Words(TrimEnd(s)) == Words(s)
  {
    if s != "" && IsSpace(s[|s| - 1]) {
      var front, gap := s[..|s| - 1], s[|s| - 1];
      TrimEndKeepsWords(front);
      ScanBreaks(front, gap, "", "");
      assert s == front + [gap] + "";
    }
  }

  lemma TrimKeepsWords(s: string)
    ensures Words(Trim(s)) == Words(s)
  {
    TrimStartKeepsWords(s);
    TrimEndKeepsWords(TrimStart(s));
  }

  lemma {:induction false} JoinKeepsWords(parts: seq<string>, separator: string)
    requires separator != "" && Spaces(separator)
    ensures Words(Join(parts, separator)) == AllWords(parts)
  {
    if |parts| == 1 {
      assert parts[1..] == [];
    } else if |parts| > 1 {
      var rest := Join(parts[1..], separator);
      JoinKeepsWords(parts[1..], separator);
      GapKeepsWords(parts[0], separator, rest);
    }
  }

  lemma {:induction false} GapKeepsWords(a: string, gap: string, b: string)
    requires gap != "" && Spaces(gap)
    ensures Words(a + gap + b) == Words(a) + Words(b)
    decreases |gap|
  {
    var rest := gap[1..];
    assert a + gap + b == a + [gap[0]] + (rest + b);
    ScanBreaks(a, gap[0], rest + b, "");
    if rest == "" {
      assert rest + b == b;
    } else {
      GapKeepsWords("", rest, b);
      assert "" + rest + b == rest + b;
    }
  }

  lemma OneLineKeepsWords(parts: seq<string>)
    ensures Words(OneLine(parts)) == AllWords(parts)
  {
    JoinKeepsWords(parts, " ");
    CollapseKeepsWords(Join(parts, " "), "");
    TrimKeepsWords(Collapse(Join(parts, " ")));
  }

  lemma NoWords()
    ensures AllWords([]) == []
  {
  }

  lemma AllWordsCons(line: string, rest: seq<string>)
    ensures AllWords([line] + rest) == Words(line) + AllWords(rest)
  {
    hide Words;
    assert ([line] + rest)[1..] == rest;
  }

  lemma {:induction false} AllWordsAppend(a: seq<string>, b: seq<string>)
    ensures AllWords(a + b) == AllWords(a) + AllWords(b)
  {
    hide Words, AllWords;
    if a == [] {
      NoWords();
      assert a + b == b;
    } else {
      AllWordsAppend(a[1..], b);
      AllWordsCons(a[0], a[1..]);
      AllWordsCons(a[0], a[1..] + b);
      assert a == [a[0]] + a[1..] && a + b == [a[0]] + (a[1..] + b);
    }
  }

  // ---------------------------------------------------------------- lines

  /** `^\s*\*?\s?` and the trailing white space removed. */
  function StripLine(l: string): string {
    var t := TrimStart(l);
    var u := if t != "" && t[0] == '*' then t[1..] else t;
    TrimEnd(if u != "" && IsSpace(u[0]) then u[1..] else u)
  }

  /** `split('\n')` of what is left of `s`, `line` being the line read so far. */
  function SplitLines(s: string, line: string): (lines: seq<string>)
    decreases |s|
  {
    if s == "" then [line]
    else if s[0] == '\n' then [line] + SplitLines(s[1..], "")
    else SplitLines(s[1..], line + [s[0]])
  }

  function Strip(lines: seq<string>): (r: seq<string>)
    ensures |r| == |lines|
  {
    seq(|lines|, i requires 0 <= i < |lines| => StripLine(lines[i]))
  }

  function InnerLines(raw: string): seq<string> {
    var text := if "/**" <= raw then raw[3..] else raw;
    var n := |text|;
    Strip(SplitLines(if n >= 2 && text[n - 2..] == "*/" then text[..n - 2] else text, ""))
  }

  predicate IsTag(line: string) {
    "@" <= TrimStart(line)
  }

  predicate IsBlank(line: string) {
    Trim(line) == ""
  }

  predicate IsItem(line: string) {
    |line| >= 2 && line[0] == '-' && IsSpace(line[1])
  }

  /** `/^@mode\b/`. */
  predicate IsModeTag(tagLine: string) {
    "@mode" <= tagLine && (|tagLine| > 5 ==> !IsWordChar(tagLine[5]))
  }

  /** `/^@mode\s+(emit|waterfall|parallel|serial|bail)\s*$/`. */
  function ModeOf(tagLine: string): Option<Mode> {
    if "@mode" <= tagLine && |tagLine| > 5 && IsSpace(tagLine[5]) then
      var name := Trim(tagLine[5..]);
      if name == "emit" then Some(Emit)
      else if name == "waterfall" then Some(Waterfall)
      else if name == "parallel" then Some(Parallel)
      else if name == "serial" then Some(Serial)
      else if name == "bail" then Some(Bail)
      else None
    else None
  }

  /** The index of the first tag line, `|lines|` when there is none. */
  function FirstTag(lines: seq<string>): (n: nat)
    ensures n <= |lines|
    ensures forall i :: 0 <= i < n ==> !IsTag(lines[i])
    ensures n < |lines| ==> IsTag(lines[n])
  {
    if lines == [] || IsTag(lines[0]) then 0 else 1 + FirstTag(lines[1..])
  }

  function ProseLines(lines: seq<string>): seq<string> {
    lines[..FirstTag(lines)]
  }

  // ---------------------------------------------------------------- how prose is grouped

  /** The list items of a chunk: each bullet line with the lines that follow it. */
  function Items(chunk: seq<string>): seq<seq<string>> {
    if chunk == [] then [] else
      var before, line := Items(chunk[..|chunk| - 1]), chunk[|chunk| - 1];
      if IsItem(line) then before + [[line]]
      else if before == [] then []
      else before[..|before| - 1] + [before[|before| - 1] + [line]]
  }

  /** The chunk's paragraph: its lines before the first bullet. */
  function Head(chunk: seq<string>): seq<string> {
    if chunk == [] then [] else
      var before, line := Head(chunk[..|chunk| - 1]), chunk[|chunk| - 1];
      if Items(chunk) == [] then before + [line] else before
  }

  function Flatten(parts: seq<seq<string>>): seq<string> {
    if parts == [] then [] else Flatten(parts[..|parts| - 1]) + parts[|parts| - 1]
  }

  ghost predicate Bulleted(item: seq<string>) {
    item != [] && IsItem(item[0]) && forall i :: 0 < i < |item| ==> !IsItem(item[i])
  }

  lemma NothingGathered()
    ensures Items([]) == [] && Head([]) == [] && Flatten([]) == []
  {
  }

  /** What one more line does to a chunk. */
  lemma ChunkGrows(chunk: seq<string>, line: string)
    ensures Items(chunk + [line]) ==
              if IsItem(line) then Items(chunk) + [[line]]
              else if Items(chunk) == [] then []
              else Items(chunk)[..|Items(chunk)| - 1] + [Items(chunk)[|Items(chunk)| - 1] + [line]]
    ensures Head(chunk + [line]) == if Items(chunk + [line]) == [] then Head(chunk) + [line] else Head(chunk)
  {
  }

  /** `head` and `items` cut the chunk exactly at its bullet lines. */
  ghost predicate CutAtBullets(chunk: seq<string>, head: seq<string>, items: seq<seq<string>>) {
    && head + Flatten(items) == chunk
    && (forall line :: line in head ==> !IsItem(line))
    && (forall item :: item in items ==> Bulleted(item))
    && (items == [] ==> head == chunk)
  }

  lemma {:induction false} ItemsCutTheChunk(chunk: seq<string>)
    ensures CutAtBullets(chunk, Head(chunk), Items(chunk))
  {
    NothingGathered();
    if chunk != [] {
      hide CutAtBullets, IsItem, Items, Head, Flatten;
      var front, line := chunk[..|chunk| - 1], chunk[|chunk| - 1];
      assert front + [line] == chunk;
      ItemsCutTheChunk(front);
      ChunkGrows(front, line);
      if IsItem(line) {
        CutByBullet(front, Head(front), Items(front), line);
      } else if Items(front) != [] {
        CutByMore(front, Head(front), Items(front), line);
      } else {
        CutByHead(front, Head(front), line);
      }
    }
  }

  lemma CutByBullet(chunk: seq<string>, head: seq<string>, items: seq<seq<string>>, line: string)
    requires CutAtBullets(chunk, head, items) && IsItem(line)
    ensures CutAtBullets(chunk + [line], head, items + [[line]])
  {
    hide Flatten, IsItem, Bulleted;
    BulletAlone(line);
    FlattenGrows(items, [line]);
    Regroup(head, Flatten(items), line);
  }

  lemma CutByMore(chunk: seq<string>, head: seq<string>, items: seq<seq<string>>, line: string)
    requires CutAtBullets(chunk, head, items) && !IsItem(line) && items != []
    ensures CutAtBullets(chunk + [line], head, items[..|items| - 1] + [items[|items| - 1] + [line]])
  {
    hide Flatten, IsItem, Bulleted;
    LastItemGrows(items, line);
    Regroup(head, Flatten(items), line);
  }

  lemma CutByHead(chunk: seq<string>, head: seq<string>, line: string)
    requires CutAtBullets(chunk, head, []) && !IsItem(line)
    ensures CutAtBullets(chunk + [line], head + [line], [])
  {
    hide IsItem;
    NothingGathered();
    assert head + [line] + [] == head + [line];
  }

  lemma Regroup(head: seq<string>, lines: seq<string>, line: string)
    ensures head + (lines + [line]) == head + lines + [line]
  {
  }

  lemma FlattenGrows(items: seq<seq<string>>, item: seq<string>)
    ensures Flatten(items + [item]) == Flatten(items) + item
  {
  }

  lemma BulletAlone(line: string)
    requires IsItem(line)
    ensures Bulleted([line])
  {
  }

  lemma LastItemGrows(items: seq<seq<string>>, line: string)
    requires items != [] && !IsItem(line) && forall item :: item in items ==> Bulleted(item)
    ensures var last := items[|items| - 1] + [line];
            var grown := items[..|items| - 1] + [last];
            && Flatten(grown) == Flatten(items) + [line]
            && forall item :: item in grown ==> Bulleted(item)
  {
    hide IsItem;
    var last := items[|items| - 1] + [line];
    var grown := items[..|items| - 1] + [last];
    assert items[|items| - 1] in items && last[0] == items[|items| - 1][0];
    assert Bulleted(last);
    assert grown[..|grown| - 1] == items[..|items| - 1];
    assert Flatten(items) + [line] == Flatten(items[..|items| - 1]) + last;
  }

  function Lines(items: seq<seq<string>>): (lines: seq<string>)
    ensures |lines| == |items|
  {
    seq(|items|, i requires 0 <= i < |items| => OneLine(items[i]))
  }

  function HeadBlock(chunk: seq<string>): seq<string> {
    if Head(chunk) == [] then [] else [OneLine(Head(chunk))]
  }

  function ListBlock(chunk: seq<string>): seq<string> {
    if Items(chunk) == [] then [] else [Join(Lines(Items(chunk)), "\n")]
  }

  function ChunkBlocks(chunk: seq<string>): seq<string> {
    HeadBlock(chunk) + ListBlock(chunk)
  }

  function FirstBlank(lines: seq<string>): (n: nat)
    ensures n <= |lines|
    ensures forall i :: 0 <= i < n ==> !IsBlank(lines[i])
    ensures n < |lines| ==> IsBlank(lines[n])
  {
    if lines == [] || IsBlank(lines[0]) then 0 else 1 + FirstBlank(lines[1..])
  }

  /** The blocks of prose: chunks are what blank lines separate. */
  function Blocks(lines: seq<string>): seq<string>
    decreases |lines|
  {
    var n := FirstBlank(lines);
    ChunkBlocks(lines[..n]) + if n < |lines| then Blocks(lines[n + 1..]) else []
  }

  predicate NoBlank(lines: seq<string>) {
    forall i :: 0 <= i < |lines| ==> !IsBlank(lines[i])
  }

  lemma {:induction false} FirstBlankIs(lines: seq<string>, n: nat)
    requires n <= |lines| && NoBlank(lines[..n]) && (n < |lines| ==> IsBlank(lines[n]))
    ensures FirstBlank(lines) == n
  {
    if n > 0 {
      assert !IsBlank(lines[..n][0]);
      assert lines[1..][..n - 1] == lines[..n][1..];
      FirstBlankIs(lines[1..], n - 1);
    }
  }

  lemma BlocksAtBlank(chunk: seq<string>, blank: string, rest: seq<string>)
    requires NoBlank(chunk) && IsBlank(blank)
    ensures Blocks(chunk + [blank] + rest) == ChunkBlocks(chunk) + Blocks(rest)
  {
    hide IsBlank, ChunkBlocks;
    var lines := chunk + [blank] + rest;
    assert lines[..|chunk|] == chunk && lines[|chunk| + 1..] == rest;
    FirstBlankIs(lines, |chunk|);
  }

  lemma BlocksOfChunk(chunk: seq<string>)
    requires NoBlank(chunk)
    ensures Blocks(chunk) == ChunkBlocks(chunk)
  {
    hide IsBlank, ChunkBlocks;
    assert chunk[..|chunk|] == chunk;
    FirstBlankIs(chunk, |chunk|);
  }

  // ---------------------------------------------------------------- conservation of words

  lemma {:induction false} FlattenKeepsWords(items: seq<seq<string>>)
    ensures AllWords(Lines(items)) == AllWords(Flatten(items))
  {
    hide OneLine, Words;
    if items != [] {
      var front, last := items[..|items| - 1], items[|items| - 1];
      FlattenKeepsWords(front);
      assert Lines(items) == Lines(front) + [OneLine(last)];
      AllWordsAppend(Lines(front), [OneLine(last)]);
      AllWordsAppend(Flatten(front), last);
      OneLineKeepsWords(last);
      SingleWords(OneLine(last));
    }
  }

  lemma SingleWords(line: string)
    ensures AllWords([line]) == Words(line)
  {
  }

  lemma ChunkKeepsWords(chunk: seq<string>)
    ensures AllWords(ChunkBlocks(chunk)) == AllWords(chunk)
  {
    hide OneLine, Words, Items, Head, Flatten, IsItem, Join, Lines;
    var items := Items(chunk);
    ItemsCutTheChunk(chunk);
    AllWordsAppend(Head(chunk), Flatten(items));
    AllWordsAppend(HeadBlock(chunk), ListBlock(chunk));
    OneLineKeepsWords(Head(chunk));
    SingleWords(OneLine(Head(chunk)));
    FlattenKeepsWords(items);
    JoinKeepsWords(Lines(items), "\n");
    SingleWords(Join(Lines(items), "\n"));
    FlattenNothing();
  }

  lemma FlattenNothing()
    ensures AllWords(Flatten([])) == []
  {
  }

  lemma {:induction false} BlocksKeepWords(lines: seq<string>)
    ensures AllWords(Blocks(lines)) == AllWords(lines)
    decreases |lines|
  {
    hide OneLine, Words, ChunkBlocks, AllWords, IsBlank, FirstBlank;
    var n := FirstBlank(lines);
    ChunkKeepsWords(lines[..n]);
    if n == |lines| {
      assert lines[..n] == lines;
      assert ChunkBlocks(lines) + [] == ChunkBlocks(lines);
    } else {
      BlocksKeepWords(lines[n + 1..]);
      AllWordsAppend(ChunkBlocks(lines[..n]), Blocks(lines[n + 1..]));
      BlankHasNoWords(lines, n);
    }
  }

  lemma BlankHasNoWords(lines: seq<string>, n: nat)
    requires n < |lines| && IsBlank(lines[n])
    ensures AllWords(lines) == AllWords(lines[..n]) + AllWords(lines[n + 1..])
  {
    hide IsBlank, AllWords;
    BlankAlone(lines[n]);
    AllWordsAppend(lines[..n], [lines[n]]);
    AllWordsAppend(lines[..n] + [lines[n]], lines[n + 1..]);
    assert lines == lines[..n] + [lines[n]] + lines[n + 1..];
  }

  lemma BlankAlone(line: string)
    requires IsBlank(line)
    ensures AllWords([line]) == []
  {
    hide Trim;
    TrimKeepsWords(line);
    SingleWords(line);
  }

  /** The rendered prose of a comment, before links are rewritten, has exactly the words of the
      lines before its first block tag, each once and in order. */
  lemma ProseKeepsWords(raw: string)
    ensures Words(Trim(Join(Blocks(ProseLines(InnerLines(raw))), "\n\n"))) == AllWords(ProseLines(InnerLines(raw)))
  {
    hide Words, Trim, Blocks, AllWords;
    var prose := ProseLines(InnerLines(raw));
    TrimKeepsWords(Join(Blocks(prose), "\n\n"));
    JoinKeepsWords(Blocks(prose), "\n\n");
    BlocksKeepWords(prose);
  }

  // ---------------------------------------------------------------- the state machine

  /** The mode set by the last valid `@mode` line. */
  function LastMode(lines: seq<string>): Option<Mode> {
    if lines == [] then None else
      var m := ModeOf(TrimStart(lines[|lines| - 1]));
      if m.Some? then m else LastMode(lines[..|lines| - 1])
  }

  lemma LinesEnd(items: seq<seq<string>>)
    ensures items != [] ==> Lines(items) == Lines(items[..|items| - 1]) + [OneLine(items[|items| - 1])]
    ensures Lines([]) == []
  {
  }

  lemma BlankJoins(chunk: seq<string>, line: string)
    requires NoBlank(chunk) && !IsBlank(line)
    ensures NoBlank(chunk + [line])
  {
  }

  /** Whether any line is an `@mode` line. */
  predicate AnyMode(lines: seq<string>) {
    lines != [] && (IsModeTag(TrimStart(lines[|lines| - 1])) || AnyMode(lines[..|lines| - 1]))
  }

  lemma {:induction false} AnyModeIff(lines: seq<string>)
    ensures AnyMode(lines) <==> exists line :: line in lines && IsModeTag(TrimStart(line))
  {
    if lines != [] {
      var front, last := lines[..|lines| - 1], lines[|lines| - 1];
      hide IsModeTag, TrimStart;
      AnyModeIff(front);
      assert lines == front + [last];
      if line :| line in lines && IsModeTag(TrimStart(line)) {
        assert line in front || line == last;
      }
    }
  }

  /** What the loop keeps between lines. `done` holds the blocks of earlier chunks and `current` the
      lines of the chunk being read. */
  class Gatherer {
    var blocks: seq<string>
    var para: seq<string>
    var list: seq<string>
    var item: seq<string>
    ghost var done: seq<string>
    ghost var current: seq<string>

    ghost predicate Valid()
      reads this
    {
      && NoBlank(current)
      && if Items(current) == [] then blocks == done && para == current && list == [] && item == []
         else
           var items := Items(current);
           && para == [] && blocks == done + HeadBlock(current)
           && item != [] && item == items[|items| - 1] && list == Lines(items[..|items| - 1])
    }

    constructor ()
      ensures Valid() && done == [] && current == []
    {
      blocks, para, list, item := [], [], [], [];
      done, current := [], [];
    }

    method FlushItem()
      modifies this`list, this`item
      ensures item == []
      ensures list == if old(item) == [] then old(list) else old(list) + [OneLine(old(item))]
    {
      if |item| > 0 {
        list := list + [OneLine(item)];
      }
      item := [];
    }

    method FlushList()
      modifies this`blocks, this`list, this`item
      ensures item == [] && list == []
      ensures var all := if old(item) == [] then old(list) else old(list) + [OneLine(old(item))];
              blocks == if all == [] then old(blocks) else old(blocks) + [Join(all, "\n")]
    {
      hide OneLine, Join;
      FlushItem();
      if |list| > 0 {
        blocks := blocks + [Join(list, "\n")];
      }
      list := [];
    }

    /** Ends the chunk. */
    method FlushPara()
      requires Valid()
      modifies this
      ensures Valid() && current == []
      ensures done == blocks == old(done) + ChunkBlocks(old(current))
    {
      hide OneLine, Join, Head, Items, IsItem, IsBlank;
      ItemsCutTheChunk(current);
      LinesEnd(Items(current));
      FlushList();
      if |para| > 0 {
        blocks := blocks + [OneLine(para)];
      }
      para := [];
      assert blocks == done + ChunkBlocks(current);
      done, current := blocks, [];
      NothingGathered();
    }

    /** A bullet line. */
    method StartItem(line: string)
      requires Valid() && IsItem(line) && !IsBlank(line)
      modifies this
      ensures Valid() && current == old(current) + [line] && done == old(done)
    {
      hide OneLine, Join, IsItem, IsBlank, Items, Head, Lines, NoBlank;
      ItemsCutTheChunk(current);
      ChunkGrows(current, line);
      LinesEnd(Items(current));
      BlankJoins(current, line);
      ghost var items := Items(current);
      FlushItem();
      if |para| > 0 {
        blocks := blocks + [OneLine(para)];
        para := [];
      }
      item := item + [line];
      current := current + [line];
      assert Items(current)[..|items|] == items;
    }

    /** A line that is neither a bullet nor blank. */
    method Continue(line: string)
      requires Valid() && !IsItem(line) && !IsBlank(line)
      modifies this
      ensures Valid() && current == old(current) + [line] && done == old(done)
    {
      hide OneLine, Join, IsItem, IsBlank, Items, Head, Lines, NoBlank;
      ChunkGrows(current, line);
      BlankJoins(current, line);
      ItemsCutTheChunk(current);
      ghost var items := Items(current);
      if |item| > 0 {
        item := item + [line];
      } else {
        para := para + [line];
      }
      current := current + [line];
      assert items != [] ==> Items(current)[..|items| - 1] == items[..|items| - 1];
    }

    /** A line of prose, `rest` being the prose after it. */
    method TakeLine(line: string, ghost rest: seq<string>)
      requires Valid()
      modifies this
      ensures Valid() && done + Blocks(current + rest) == old(done) + Blocks(old(current) + [line] + rest)
    {
      hide IsBlank, IsItem, Blocks, ChunkBlocks;
      if IsBlank(line) {
        BlocksAtBlank(current, line, rest);
        FlushPara();
        assert current + rest == rest;
      } else if IsItem(line) {
        StartItem(line);
      } else {
        Continue(line);
      }
    }

    /** A tag line, or the end, after the last line of prose. */
    method EndProse()
      requires Valid()
      modifies this
      ensures Valid() && current == [] && blocks == done == old(done) + Blocks(old(current))
    {
      hide IsBlank, Blocks, ChunkBlocks;
      BlocksOfChunk(current);
      FlushPara();
    }

    /** A pending paragraph and a pending list are never both non-empty. */
    lemma OneIsPending()
      requires Valid()
      ensures para == [] || (list == [] && item == [])
    {
    }
  }

  /** `doc` is the prose before its `{@link}` rewrite. */
  method ParseJsDoc(raw: string) returns (doc: string, mode: Option<Mode>, hasMode: bool)
    ensures doc == Trim(Join(Blocks(ProseLines(InnerLines(raw))), "\n\n"))
    ensures Words(doc) == AllWords(ProseLines(InnerLines(raw)))
    ensures mode == LastMode(InnerLines(raw))
    ensures hasMode <==> exists line :: line in InnerLines(raw) && IsModeTag(TrimStart(line))
  {
    hide *;
    var inner := InnerLines(raw);
    ghost var prose := ProseLines(inner);
    ProseLinesAre(inner);
    var g := new Gatherer();
    mode, hasMode := None, false;
    var inTags := false;
    assert [] + ([] + prose[0..]) == prose;
    NoModeYet(inner);
    NoBlocks();
    for i := 0 to |inner|
      invariant g.Valid()
      invariant mode == LastMode(inner[..i])
      invariant hasMode == AnyMode(inner[..i])
      invariant inTags <==> |prose| < i
      invariant !inTags ==> Blocks(prose) == g.done + Blocks(g.current + prose[i..])
      invariant inTags ==> g.current == [] && Blocks(prose) == g.blocks == g.done
    {
      var line := inner[i];
      var tagLine := TrimStart(line);
      ModeStep(inner, i);
      var m := ModeOf(tagLine);
      if m.Some? || IsModeTag(tagLine) || "@" <= tagLine {
        if m.Some? {
          mode := m;
        }
        if m.Some? || IsModeTag(tagLine) {
          hasMode := true;
        }
        if !inTags {
          ProseEnds(g.current, prose, i);
        }
        g.EndProse();
        inTags := true;
        continue;
      }
      if inTags {
        continue;
      }
      ProseContinues(g.current, prose, i);
      g.TakeLine(line, prose[i + 1..]);
    }
    assert inner[..|inner|] == inner;
    AnyModeIff(inner);
    if !inTags {
      ProseEnds(g.current, prose, |inner|);
    }
    g.EndProse();
    assert g.blocks == Blocks(prose);
    doc := Trim(Join(g.blocks, "\n\n"));
    ProseKeepsWords(raw);
  }

  lemma ProseEnds(current: seq<string>, prose: seq<string>, i: nat)
    requires i == |prose|
    ensures current + prose[i..] == current
  {
  }

  lemma ProseContinues(current: seq<string>, prose: seq<string>, i: nat)
    requires i < |prose|
    ensures current + prose[i..] == current + [prose[i]] + prose[i + 1..]
  {
    assert prose[i..] == [prose[i]] + prose[i + 1..];
  }

  lemma ProseLinesAre(lines: seq<string>)
    ensures var prose := ProseLines(lines);
            && |prose| <= |lines| && prose == lines[..|prose|]
            && (forall i :: 0 <= i < |prose| ==> !("@" <= TrimStart(lines[i])))
            && (|prose| < |lines| ==> "@" <= TrimStart(lines[|prose|]))
  {
  }

  lemma NoModeYet(lines: seq<string>)
    ensures LastMode(lines[..0]) == None && !AnyMode(lines[..0])
  {
  }

  lemma NoBlocks()
    ensures Blocks([]) == []
  {
  }

  /** A valid `@mode` line is an `@mode` line and a tag line. */
  lemma ModeStep(lines: seq<string>, i: nat)
    requires i < |lines|
    ensures var m := ModeOf(TrimStart(lines[i]));
            && LastMode(lines[..i + 1]) == (if m.Some? then m else LastMode(lines[..i]))
            && AnyMode(lines[..i + 1]) == (AnyMode(lines[..i]) || IsModeTag(TrimStart(lines[i])))
            && (m.Some? ==> IsModeTag(TrimStart(lines[i])))
            && (IsModeTag(TrimStart(lines[i])) ==> "@" <= TrimStart(lines[i]))
  {
    hide Trim, TrimStart;
    assert lines[..i + 1][..i] == lines[..i];
    var tagLine := TrimStart(lines[i]);
    assert "@mode" <= tagLine ==> "@" <= tagLine;
  }
}
