/** What `parseJsDoc` of `scripts/jsdoc.ts` reads from a comment as it is written, and how its blocks
    are laid out. */
module JsDocText {
  import opened Options
  import opened Text
  import opened JsDocProse

  // ---------------------------------------------------------------- trimming

  lemma {:induction false} TrimStartIs(s: string) returns (gap: string)
    ensures Spaces(gap) && s == gap + TrimStart(s)
    ensures TrimStart(s) == "" || !IsSpace(TrimStart(s)[0])
    decreases |s|
  {
    gap := "";
    if s != "" && IsSpace(s[0]) {
      var rest := TrimStartIs(s[1..]);
      gap := [s[0]] + rest;
      assert s == [s[0]] + s[1..];
    }
  }

  lemma {:induction false} TrimStartSkips(gap: string, rest: string)
    requires Spaces(gap) && (rest == "" || !IsSpace(rest[0]))
    ensures TrimStart(gap + rest) == rest
    decreases |gap|
  {
    if gap == "" {
      assert gap + rest == rest;
    } else {
      assert (gap + rest)[1..] == gap[1..] + rest;
      TrimStartSkips(gap[1..], rest);
    }
  }

  lemma {:induction false} TrimEndIs(s: string) returns (gap: string)
    ensures Spaces(gap) && s == TrimEnd(s) + gap
    ensures TrimEnd(s) == "" || !IsSpace(TrimEnd(s)[|TrimEnd(s)| - 1])
    decreases |s|
  {
    gap := "";
    if s != "" && IsSpace(s[|s| - 1]) {
      var rest := TrimEndIs(s[..|s| - 1]);
      gap := rest + [s[|s| - 1]];
      assert s == s[..|s| - 1] + [s[|s| - 1]];
    }
  }

  lemma {:induction false} TrimEndSkips(rest: string, gap: string)
    requires Spaces(gap) && (rest == "" || !IsSpace(rest[|rest| - 1]))
    ensures TrimEnd(rest + gap) == rest
    decreases |gap|
  {
    if gap == "" {
      assert rest + gap == rest;
    } else {
      assert (rest + gap)[..|rest + gap| - 1] == rest + gap[..|gap| - 1];
      TrimEndSkips(rest, gap[..|gap| - 1]);
    }
  }

  /** No white space at either end. */
  predicate Tight(s: string) {
    s == "" || (!IsSpace(s[0]) && !IsSpace(s[|s| - 1]))
  }

  ghost predicate Surrounded(s: string, t: string) {
    exists a, b :: Spaces(a) && Spaces(b) && s == a + t + b
  }

  lemma TrimSurrounds(s: string)
    ensures Surrounded(s, Trim(s)) && Tight(Trim(s))
  {
    hide IsSpace, TrimStart, TrimEnd;
    var a := TrimStartIs(s);
    var b := TrimEndIs(TrimStart(s));
    assert s == a + Trim(s) + b;
    assert Trim(s) != "" ==> TrimStart(s)[0] == Trim(s)[0];
  }

  lemma TrimsBack(s: string, t: string)
    requires t != "" && Tight(t) && Surrounded(s, t)
    ensures Trim(s) == t
  {
    hide IsSpace, TrimStart, TrimEnd;
    var a, b :| Spaces(a) && Spaces(b) && s == a + t + b;
    assert a + t + b == a + (t + b);
    TrimStartSkips(a, t + b);
    TrimEndSkips(t, b);
  }

  lemma TrimIff(s: string, t: string)
    requires t != ""
    ensures Trim(s) == t <==> Tight(t) && Surrounded(s, t)
  {
    hide Trim, Tight, Surrounded;
    TrimSurrounds(s);
    if Tight(t) && Surrounded(s, t) {
      TrimsBack(s, t);
    }
  }

  // ---------------------------------------------------------------- a comment as it is written

  lemma StarIsInk()
    ensures IsSpace(' ') && !IsSpace('*')
  {
  }

  lemma StripStar(indent: string, rest: string)
    requires Spaces(indent)
    ensures StripLine(indent + "*" + rest) == TrimEnd(if rest != "" && IsSpace(rest[0]) then rest[1..] else rest)
  {
    hide IsSpace, TrimStart, TrimEnd;
    StarIsInk();
    assert indent + "*" + rest == indent + ("*" + rest);
    TrimStartSkips(indent, "*" + rest);
    assert ("*" + rest)[1..] == rest;
  }

  /** A text line behind its star: whatever stands before the star and one blank behind it are dropped. */
  lemma StarredLine(indent: string, text: string, gap: string)
    requires Spaces(indent) && Spaces(gap) && (text == "" || !IsSpace(text[|text| - 1]))
    ensures StripLine(indent + "*" + " " + text + gap) == text
    ensures StripLine(indent + "*" + gap) == ""
  {
    hide IsSpace, StripLine, TrimEnd;
    StarIsInk();
    StripStar(indent, " " + (text + gap));
    assert indent + "*" + (" " + (text + gap)) == indent + "*" + " " + text + gap;
    assert (" " + (text + gap))[1..] == text + gap;
    TrimEndSkips(text, gap);
    StripStar(indent, gap);
    var rest := if gap != "" && IsSpace(gap[0]) then gap[1..] else gap;
    assert "" + rest == rest;
    TrimEndSkips("", rest);
  }

  /** A line without a star loses its indentation only. */
  lemma PlainLine(indent: string, text: string, gap: string)
    requires Spaces(indent) && Spaces(gap) && Tight(text) && (text != "" ==> text[0] != '*')
    ensures StripLine(indent + text + gap) == text
  {
    if text == "" {
      assert Spaces(indent + gap) && indent + text + gap == indent + gap + "";
      TrimStartSkips(indent + gap, "");
    } else {
      assert indent + text + gap == indent + (text + gap);
      TrimStartSkips(indent, text + gap);
      TrimEndSkips(text, gap);
    }
  }

  lemma {:induction false} SplitOne(s: string, rest: string, line: string)
    requires '\n' !in s
    ensures SplitLines(s, line) == [line + s]
    ensures SplitLines(s + "\n" + rest, line) == [line + s] + SplitLines(rest, "")
    decreases |s|
  {
    if s == "" {
      assert s + "\n" + rest == "\n" + rest;
      assert line + s == line;
    } else {
      SplitOne(s[1..], rest, line + [s[0]]);
      assert (s + "\n" + rest)[1..] == s[1..] + "\n" + rest;
      assert line + [s[0]] + s[1..] == line + s;
    }
  }

  lemma {:induction false} SplitsBack(lines: seq<string>)
    requires lines != [] && forall l :: l in lines ==> '\n' !in l
    ensures SplitLines(Join(lines, "\n"), "") == lines
    decreases |lines|
  {
    assert lines[0] in lines && "" + lines[0] == lines[0];
    if |lines| == 1 {
      SplitOne(lines[0], "", "");
      assert lines == [lines[0]];
    } else {
      var rest := Join(lines[1..], "\n");
      assert forall l :: l in lines[1..] ==> l in lines;
      SplitsBack(lines[1..]);
      SplitOne(lines[0], rest, "");
      assert lines == [lines[0]] + lines[1..];
    }
  }

  lemma Between(text: string)
    ensures "/**" <= "/**" + text + "*/" && ("/**" + text + "*/")[3..] == text + "*/"
    ensures (text + "*/")[|text|..] == "*/" && (text + "*/")[..|text|] == text
  {
    assert "/**" + text + "*/" == "/**" + (text + "*/");
  }

  lemma Undelimited(text: string)
    ensures InnerLines("/**" + text + "*/") == Strip(SplitLines(text, ""))
  {
    hide Strip, SplitLines;
    Between(text);
  }

  /** The lines between the delimiters are read as they are written, each stripped of its margin. */
  lemma CommentReadsBack(lines: seq<string>)
    requires lines != [] && forall l :: l in lines ==> '\n' !in l
    ensures var inner := InnerLines("/**" + Join(lines, "\n") + "*/");
            |inner| == |lines| && forall i :: 0 <= i < |lines| ==> inner[i] == StripLine(lines[i])
  {
    hide InnerLines, StripLine, SplitLines;
    Undelimited(Join(lines, "\n"));
    SplitsBack(lines);
  }

  // ---------------------------------------------------------------- which lines are what

  /** A list item starts with a dash and white space. */
  lemma ItemIff(line: string)
    ensures IsItem(line) <==> exists gap, text :: gap != "" && Spaces(gap) && line == "-" + gap + text
  {
    hide IsSpace;
    if IsItem(line) {
      var gap, text := line[1..2], line[2..];
      assert gap != "" && Spaces(gap) && line == "-" + gap + text;
    }
  }

  predicate EndsName(c: char) {
    !('a' <= c <= 'z' || 'A' <= c <= 'Z' || '0' <= c <= '9' || c == '_')
  }

  /** A mode tag is `@mode` that no letter, digit or underscore continues. */
  lemma ModeTagIff(line: string)
    ensures IsModeTag(line) <==> line == "@mode" || exists c, rest :: EndsName(c) && line == "@mode" + [c] + rest
  {
    if "@mode" <= line && |line| > 5 {
      var c, rest := line[5], line[6..];
      assert line == "@mode" + [c] + rest;
      assert IsModeTag(line) ==> EndsName(c);
    }
  }

  /** A line is blank when it has no word. */
  lemma BlankIff(line: string)
    ensures IsBlank(line) <==> Words(line) == []
  {
    hide Trim, TrimStart, TrimEnd, IsSpace, Scan;
    TrimKeepsWords(line);
    TrimSurrounds(line);
    if Trim(line) == "" {
      NothingToScan();
    } else {
      ScanFirst(Trim(line), "");
    }
  }

  lemma NothingToScan()
    ensures Words("") == []
  {
  }

  // ---------------------------------------------------------------- mode tags

  function NameOf(m: Mode): string {
    match m
    case Emit => "emit"
    case Waterfall => "waterfall"
    case Parallel => "parallel"
    case Serial => "serial"
    case Bail => "bail"
  }

  /** `@mode`, white space, one of the five names, and nothing more than white space. */
  ghost predicate SetsMode(line: string, m: Mode) {
    exists gap, after :: gap != "" && Spaces(gap) && Spaces(after) && line == "@mode" + gap + NameOf(m) + after
  }

  lemma ModeOfName(line: string, m: Mode)
    ensures ModeOf(line) == Some(m) <==>
      "@mode" <= line && |line| > 5 && IsSpace(line[5]) && Trim(line[5..]) == NameOf(m)
  {
    hide Trim, IsSpace;
  }

  lemma FirstOfThree(a: string, b: string, c: string)
    requires b != ""
    ensures a + b + c != "" && (a + b + c)[0] == if a == "" then b[0] else a[0]
  {
  }

  lemma NamesAreTight(m: Mode)
    ensures NameOf(m) != "" && Tight(NameOf(m))
  {
  }

  lemma ModeOfIff(line: string, m: Mode)
    ensures ModeOf(line) == Some(m) <==> SetsMode(line, m)
  {
    hide Trim, IsSpace, ModeOf, NameOf;
    ModeOfName(line, m);
    NamesAreTight(m);
    if ModeOf(line) == Some(m) {
      var rest := line[5..];
      assert line == "@mode" + rest;
      TrimIff(rest, NameOf(m));
      var gap, after :| Spaces(gap) && Spaces(after) && rest == gap + NameOf(m) + after;
      FirstOfThree(gap, NameOf(m), after);
      assert line == "@mode" + gap + NameOf(m) + after;
    }
    if SetsMode(line, m) {
      var gap, after :| gap != "" && Spaces(gap) && Spaces(after) && line == "@mode" + gap + NameOf(m) + after;
      var rest := gap + NameOf(m) + after;
      assert line == "@mode" + rest && line[5..] == rest && rest[0] == gap[0];
      TrimIff(rest, NameOf(m));
    }
  }

  /** The mode is that of the last line that sets one, whatever the others say. */
  lemma {:induction false} LastModeIff(lines: seq<string>, m: Mode)
    ensures LastMode(lines) == Some(m) <==>
      exists i :: 0 <= i < |lines| && LastSets(lines, i, m)
  {
    hide SetsMode, ModeOf, TrimStart;
    if lines != [] {
      var n := |lines| - 1;
      LastModeIff(lines[..n], m);
      forall k: Mode
        ensures ModeOf(TrimStart(lines[n])) == Some(k) <==> SetsMode(TrimStart(lines[n]), k)
      {
        ModeOfIff(TrimStart(lines[n]), k);
      }
      if i :| 0 <= i < n && LastSets(lines[..n], i, m) && ModeOf(TrimStart(lines[n])) == None {
        assert LastSets(lines, i, m);
      }
      if i :| 0 <= i < |lines| && LastSets(lines, i, m) && i < n {
        assert LastSets(lines[..n], i, m);
      }
      if ModeOf(TrimStart(lines[n])) == Some(m) {
        assert LastSets(lines, n, m);
      }
    }
  }

  ghost predicate LastSets(lines: seq<string>, i: nat, m: Mode)
    requires i < |lines|
  {
    SetsMode(TrimStart(lines[i]), m) && forall j, k :: i < j < |lines| ==> !SetsMode(TrimStart(lines[j]), k)
  }

  // ---------------------------------------------------------------- how blocks are laid out

  /** Maximal runs of ink. */
  ghost predicate Inked(words: seq<string>) {
    forall w :: w in words ==> w != "" && forall i :: 0 <= i < |w| ==> !IsSpace(w[i])
  }

  lemma {:induction false} ScanInked(s: string, word: string)
    requires forall i :: 0 <= i < |word| ==> !IsSpace(word[i])
    ensures Inked(Scan(s, word))
    decreases |s|
  {
    hide IsSpace;
    if s != "" {
      ScanInked(s[1..], if IsSpace(s[0]) then "" else word + [s[0]]);
    }
  }

  /** A word in progress becomes the front of the first word. */
  lemma {:induction false} ScanFirst(s: string, word: string)
    requires s != "" && !IsSpace(s[0])
    ensures Words(s) != [] && Scan(s, word) == [word + Words(s)[0]] + Words(s)[1..]
    decreases |s|
  {
    hide IsSpace;
    var c, rest := s[0], s[1..];
    if rest == "" || IsSpace(rest[0]) {
      assert word + [c] == word + ([c] + "");
      ScanWord(rest, word + [c]);
      ScanWord(rest, [c]);
    } else {
      ScanFirst(rest, word + [c]);
      ScanFirst(rest, [c]);
      assert word + [c] + Words(rest)[0] == word + ([c] + Words(rest)[0]);
    }
    assert "" + [c] == [c];
  }

  lemma ScanWord(rest: string, word: string)
    requires word != "" && (rest == "" || IsSpace(rest[0]))
    ensures Scan(rest, word) == [word] + Words(rest)
  {
    hide IsSpace;
  }

  /** Collapsed text: its words one blank apart, and one blank where white space stood at an end. */
  ghost predicate Collapsed(s: string, trail: string) {
    && Collapse(s) == (if s != "" && IsSpace(s[0]) then " " else "") + Join(Words(s), " ") + trail
    && (trail == "" || trail == " ")
    && (Words(s) == [] ==> trail == "")
  }

  lemma {:induction false} CollapseIs(s: string) returns (trail: string)
    ensures Collapsed(s, trail)
    decreases |s|
  {
    hide Collapsed, IsSpace;
    trail := "";
    if s == "" {
      CollapseNothing();
    } else {
      var rest := s[1..];
      trail := CollapseIs(rest);
      if IsSpace(s[0]) {
        CollapseGap(s, trail);
      } else if rest == "" || IsSpace(rest[0]) {
        trail := CollapseWordEnd(s, trail);
      } else {
        CollapseInWord(s, trail);
      }
    }
  }

  lemma CollapseNothing()
    ensures Collapsed("", "")
  {
  }

  lemma CollapseGap(s: string, trail: string)
    requires s != "" && IsSpace(s[0]) && Collapsed(s[1..], trail)
    ensures Collapsed(s, trail)
  {
    hide IsSpace, Join;
    var text := Join(Words(s), " ") + trail;
    assert [] + Words(s[1..]) == Words(s[1..]);
    assert " " + Join(Words(s), " ") + trail == " " + text;
    assert "" + Join(Words(s), " ") + trail == text;
  }

  lemma CollapseWordEnd(s: string, after: string) returns (trail: string)
    requires s != "" && !IsSpace(s[0]) && Collapsed(s[1..], after) && (s[1..] == "" || IsSpace(s[1]))
    ensures Collapsed(s, trail)
  {
    hide IsSpace, Collapsed, Words, Scan;
    var word, rest := [s[0]], s[1..];
    assert "" + word == word;
    LastWord(s);
    if rest == "" {
      trail := "";
      WordAlone(s);
    } else if Words(rest) == [] {
      trail := " ";
      WordBeforeGap(s, after);
    } else {
      trail := after;
      WordBeforeMore(s, after);
    }
  }

  lemma LastWord(s: string)
    requires s != "" && !IsSpace(s[0]) && (s[1..] == "" || IsSpace(s[1]))
    ensures Words(s) == [[s[0]]] + Words(s[1..])
  {
    hide IsSpace;
    ScanWord(s[1..], [s[0]]);
    assert "" + [s[0]] == [s[0]];
  }

  lemma WordAlone(s: string)
    requires |s| == 1 && !IsSpace(s[0]) && Words(s) == [[s[0]]] + Words(s[1..])
    ensures Collapsed(s, "")
  {
    hide IsSpace;
    assert Words(s) == [[s[0]]];
    assert Collapse(s) == [s[0]];
  }

  lemma WordBeforeGap(s: string, after: string)
    requires |s| > 1 && !IsSpace(s[0]) && IsSpace(s[1]) && Collapsed(s[1..], after)
    requires Words(s) == [[s[0]]] + Words(s[1..]) && Words(s[1..]) == []
    ensures Collapsed(s, " ")
  {
    hide IsSpace, Words;
    assert Words(s) == [[s[0]]];
    assert Collapse(s[1..]) == " ";
  }

  lemma WordBeforeMore(s: string, after: string)
    requires |s| > 1 && !IsSpace(s[0]) && IsSpace(s[1]) && Collapsed(s[1..], after)
    requires Words(s) == [[s[0]]] + Words(s[1..]) && Words(s[1..]) != []
    ensures Collapsed(s, after)
  {
    hide IsSpace, Words;
    var word, words := [s[0]], Words(s[1..]);
    assert Words(s)[1..] == words;
    var tail := Join(words, " ");
    assert word + (" " + tail + after) == "" + (word + " " + tail) + after;
  }

  lemma CollapseInWord(s: string, trail: string)
    requires |s| > 1 && !IsSpace(s[0]) && !IsSpace(s[1]) && Collapsed(s[1..], trail)
    ensures Collapsed(s, trail)
  {
    hide IsSpace;
    var c, rest := [s[0]], s[1..];
    assert "" + c == c;
    ScanFirst(rest, c);
    var words := Words(rest);
    JoinFirst(c, words);
    assert Words(s) == [c + words[0]] + words[1..];
    assert c + ("" + Join(words, " ") + trail) == "" + (c + Join(words, " ")) + trail;
  }

  lemma JoinFirst(c: string, words: seq<string>)
    requires words != []
    ensures Join([c + words[0]] + words[1..], " ") == c + Join(words, " ")
  {
    hide Join;
    if |words| == 1 {
      JoinOne(words);
      assert [c + words[0]] + words[1..] == [c + words[0]];
      JoinOne([c + words[0]]);
    } else {
      var more, rest := [c + words[0]] + words[1..], Join(words[1..], " ");
      assert more[1..] == words[1..];
      JoinMore(words);
      JoinMore(more);
      Associate(c, words[0], rest);
    }
  }

  lemma JoinOne(words: seq<string>)
    requires |words| == 1
    ensures Join(words, " ") == words[0]
  {
  }

  lemma JoinMore(words: seq<string>)
    requires |words| > 1
    ensures Join(words, " ") == words[0] + " " + Join(words[1..], " ")
  {
  }

  lemma Associate(a: string, b: string, c: string)
    ensures a + b + " " + c == a + (b + " " + c)
  {
  }

  lemma {:induction false} JoinIsTight(words: seq<string>)
    requires Inked(words)
    ensures Tight(Join(words, " ")) && (words != [] ==> Join(words, " ") != "")
  {
    hide IsSpace;
    if words != [] {
      assert words[0] in words;
      if |words| > 1 {
        assert forall w :: w in words[1..] ==> w in words;
        JoinIsTight(words[1..]);
        var rest := Join(words[1..], " ");
        assert words[0] + " " + rest == words[0] + (" " + rest);
      }
    }
  }

  /** A paragraph or a list item is its words, one blank apart. */
  lemma OneLineIs(parts: seq<string>)
    ensures OneLine(parts) == Join(AllWords(parts), " ")
  {
    hide IsSpace, Collapse, TrimStart, TrimEnd, Scan;
    var s := Join(parts, " ");
    StarIsInk();
    JoinKeepsWords(parts, " ");
    var trail := CollapseIs(s);
    ScanInked(s, "");
    var words := Words(s);
    var text := Join(words, " ");
    JoinIsTight(words);
    var lead := if s != "" && IsSpace(s[0]) then " " else "";
    assert lead + text + trail == lead + (text + trail);
    if text == "" {
      assert lead + text + trail == lead + "";
      TrimStartSkips(lead, "");
      TrimEndSkips("", "");
      assert "" + "" == "";
    } else {
      TrimStartSkips(lead, text + trail);
      TrimEndSkips(text, trail);
    }
  }

  function Rendered(items: seq<seq<string>>): seq<string> {
    seq(|items|, i requires 0 <= i < |items| => Join(AllWords(items[i]), " "))
  }

  /** A paragraph on one line, then a list with each item on its own line. */
  predicate LaidOut(blocks: seq<string>, head: seq<string>, items: seq<seq<string>>) {
    blocks == (if head == [] then [] else [Join(AllWords(head), " ")])
            + (if items == [] then [] else [Join(Rendered(items), "\n")])
  }

  /** The blocks of a chunk are its paragraph and its list. */
  lemma ChunkIsLaidOut(chunk: seq<string>)
    ensures exists head, items :: CutAtBullets(chunk, head, items) && LaidOut(ChunkBlocks(chunk), head, items)
  {
    hide OneLine, AllWords, CutAtBullets, Items, Head;
    var head, items := Head(chunk), Items(chunk);
    ItemsCutTheChunk(chunk);
    OneLineIs(head);
    forall i | 0 <= i < |items|
      ensures OneLine(items[i]) == Join(AllWords(items[i]), " ")
    {
      OneLineIs(items[i]);
    }
    assert Lines(items) == Rendered(items);
    assert LaidOut(ChunkBlocks(chunk), head, items);
  }
}
