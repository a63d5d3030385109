/** `readGitFiles` of `scripts/benchmark-npm-resolution.ts`: the parser of `git cat-file --batch`
    output, length-framed by a header line. */
module GitFrames {
  import opened Numbers
  import opened Options
  import opened Text

  /** Bytes, one character each. */
  type Bytes = string

  datatype Failure =
    | NoHeader(path: string)
    | NoSuchPath(path: string)
    | InvalidSize(path: string)
    | Truncated(path: string)

  datatype Result = Files(contents: map<string, Bytes>) | Err(failure: Failure)

  const NEWLINE := '\n'
  const MISSING := " missing"

  // ---------------------------------------------------------------- numbers

  /** The longest prefix of digits. */
  function DigitPrefix(s: string): (d: string)
    ensures AllDigits(d) && d <= s && (|d| < |s| ==> !IsDigit(s[|d|]))
  {
    if s == "" || !IsDigit(s[0]) then "" else [s[0]] + DigitPrefix(s[1..])
  }

  function SkipBlanks(s: string): string {
    if s != "" && IsSpace(s[0]) then SkipBlanks(s[1..]) else s
  }

  /** `Number.parseInt(s, 10)`; `None` is NaN. */
  function ParseInt(s: string): Option<int> {
    var t := SkipBlanks(s);
    var negative := t != "" && t[0] == '-';
    var d := DigitPrefix(if t != "" && (t[0] == '-' || t[0] == '+') then t[1..] else t);
    var magnitude: int := ValueOf(d);
    if d == "" then None else Some(if negative then -magnitude else magnitude)
  }

  lemma {:induction false} WholePrefix(s: string)
    requires AllDigits(s)
    ensures DigitPrefix(s) == s
  {
    if s != "" {
      WholePrefix(s[1..]);
    }
  }

  lemma ParsesDecimal(n: nat)
    ensures ParseInt(Decimal(n)) == Some(n as int)
  {
    var s := Decimal(n);
    assert IsDigit(s[0]);
    WholePrefix(s);
  }

  // ---------------------------------------------------------------- headers

  lemma {:induction false} IndexOfFirst(s: Bytes, c: char, from: nat, to: nat)
    requires from <= to < |s| && s[to] == c && forall k :: from <= k < to ==> s[k] != c
    ensures IndexOf(s, c, from) == to
    decreases |s| - from
  {
    if from < to {
      IndexOfFirst(s, c, from + 1, to);
    }
  }

  /** `header.split(' ')[n]`, or the empty string when there are fewer fields. */
  function Field(header: string, n: nat): string
    decreases n
  {
    var i := IndexOf(header, ' ', 0);
    if n == 0 then (if i < |header| then header[..i] else header)
    else if i < |header| then Field(header[i + 1..], n - 1) else ""
  }

  lemma FieldSkips(word: string, rest: string, n: nat)
    requires ' ' !in word && n > 0
    ensures Field(word + " " + rest, n) == Field(rest, n - 1)
  {
    var s := word + " " + rest;
    IndexOfFirst(s, ' ', 0, |word|);
    assert s[|word| + 1..] == rest;
  }

  lemma LastField(word: string)
    requires ' ' !in word
    ensures Field(word, 0) == word
  {
  }

  predicate EndsWith(s: string, suffix: string) {
    |suffix| <= |s| && s[|s| - |suffix|..] == suffix
  }

  // ---------------------------------------------------------------- one frame

  datatype Step = Frame(content: Bytes, next: nat) | Failed(error: Failure)

  /** One round of the loop at `offset`. */
  function ReadFrame(output: Bytes, path: string, offset: nat): (r: Step)
    requires offset <= |output|
    ensures r.Frame? ==> offset < r.next <= |output|
  {
    var headerEnd := IndexOf(output, NEWLINE, offset);
    if headerEnd >= |output| then Failed(NoHeader(path))
    else
      var header := output[offset..headerEnd];
      if EndsWith(header, MISSING) then Failed(NoSuchPath(path))
      else
        var size := ParseInt(Field(header, 2));
        if size.None? || size.value < 0 || size.value > MAX_SAFE_INTEGER then Failed(InvalidSize(path))
        else
          var contentStart := headerEnd + 1;
          var contentEnd := contentStart + size.value;
          if contentEnd >= |output| || output[contentEnd] != NEWLINE then Failed(Truncated(path))
          else Frame(output[contentStart..contentEnd], contentEnd + 1)
  }

  /** The first `n` paths read from the start of the output. */
  function ReadFirst(output: Bytes, paths: seq<string>, n: nat): (r: (Result, nat))
    requires n <= |paths|
    ensures r.0.Files? ==> r.1 <= |output|
  {
    if n == 0 then (Files(map[]), 0) else
      var (before, offset) := ReadFirst(output, paths, n - 1);
      if !before.Files? then (before, offset)
      else match ReadFrame(output, paths[n - 1], offset)
        case Failed(e) => (Err(e), offset)
        case Frame(content, next) => (Files(before.contents[paths[n - 1] := content]), next)
  }

  // ---------------------------------------------------------------- what git writes

  /** An object as git reports it: a name and a type without blanks, then its bytes. */
  datatype Blob = Blob(oid: string, kind: string, content: Bytes)

  predicate Plain(s: string) {
    ' ' !in s && NEWLINE !in s
  }

  predicate Reported(b: Blob) {
    Plain(b.oid) && Plain(b.kind) && |b.content| <= MAX_SAFE_INTEGER
  }

  function Header(b: Blob): string {
    b.oid + " " + b.kind + " " + Decimal(|b.content|)
  }

  function Print(b: Blob): Bytes {
    Header(b) + [NEWLINE] + b.content + [NEWLINE]
  }

  function PrintAll(bs: seq<Blob>): Bytes {
    if bs == [] then "" else PrintAll(bs[..|bs| - 1]) + Print(bs[|bs| - 1])
  }

  lemma DigitsArePlain(s: string)
    requires AllDigits(s)
    ensures Plain(s)
  {
  }

  lemma LastOfSuffix(s: string, suffix: string)
    requires s != "" && suffix != "" && s[|s| - 1] != suffix[|suffix| - 1]
    ensures !EndsWith(s, suffix)
  {
  }

  lemma HeaderSizeReads(b: Blob)
    requires Plain(b.oid) && Plain(b.kind)
    ensures ParseInt(Field(Header(b), 2)) == Some(|b.content|)
  {
    hide ParseInt, Decimal, IsDigit, IndexOf, Field;
    var size := Decimal(|b.content|);
    DigitsArePlain(size);
    assert Header(b) == b.oid + " " + (b.kind + " " + size);
    FieldSkips(b.oid, b.kind + " " + size, 2);
    FieldSkips(b.kind, size, 1);
    LastField(size);
    ParsesDecimal(|b.content|);
  }

  lemma HeaderIsOneLine(b: Blob)
    requires Plain(b.oid) && Plain(b.kind)
    ensures NEWLINE !in Header(b) && !EndsWith(Header(b), MISSING)
  {
    hide Decimal, EndsWith, ValueOf;
    var size, h := Decimal(|b.content|), Header(b);
    DigitsArePlain(size);
    assert IsDigit(size[|size| - 1]) && h[|h| - 1] == size[|size| - 1];
    LastOfSuffix(h, MISSING);
  }

  /** Where the parts of a printed frame lie in the output around it. */
  lemma FrameParts(pre: Bytes, b: Blob, post: Bytes)
    ensures var output, end := pre + Print(b) + post, |pre| + |Header(b)|;
            && end + 1 + |b.content| < |output|
            && output[|pre|..end] == Header(b) && output[end] == NEWLINE
            && output[end + 1..end + 1 + |b.content|] == b.content && output[end + 1 + |b.content|] == NEWLINE
  {
  }

  /** A printed frame anywhere in the output is read back, newlines and header-like text included. */
  lemma FrameReads(pre: Bytes, b: Blob, post: Bytes, path: string)
    requires Reported(b)
    ensures ReadFrame(pre + Print(b) + post, path, |pre|) == Frame(b.content, |pre| + |Print(b)|)
  {
    hide Header, Field, ParseInt, EndsWith, IndexOf, IsDigit, AllDigits;
    var output, h := pre + Print(b) + post, Header(b);
    var end := |pre| + |h|;
    HeaderSizeReads(b);
    HeaderIsOneLine(b);
    FrameParts(pre, b, post);
    assert |Print(b)| == |h| + 1 + |b.content| + 1;
    assert forall k :: |pre| <= k < end ==> output[k] == output[|pre|..end][k - |pre|];
    IndexOfFirst(output, NEWLINE, |pre|, end);
    FrameAt(output, path, |pre|, end);
  }

  /** One round, given where the header line ends. */
  lemma FrameAt(output: Bytes, path: string, offset: nat, headerEnd: nat)
    requires offset <= headerEnd < |output| && headerEnd == IndexOf(output, NEWLINE, offset)
    ensures var header := output[offset..headerEnd];
            var size := ParseInt(Field(header, 2));
            !EndsWith(header, MISSING) && size.Some? && 0 <= size.value <= MAX_SAFE_INTEGER
              && headerEnd + 1 + size.value < |output| && output[headerEnd + 1 + size.value] == NEWLINE
            ==> ReadFrame(output, path, offset)
                  == Frame(output[headerEnd + 1..headerEnd + 1 + size.value], headerEnd + 1 + size.value + 1)
  {
    hide Header, Field, ParseInt, EndsWith, IndexOf;
  }

  lemma {:induction false} FirstReads(bs: seq<Blob>, paths: seq<string>, n: nat, post: Bytes)
    requires n <= |bs| == |paths| && forall b :: b in bs ==> Reported(b)
    requires forall i, j :: 0 <= i < j < |paths| ==> paths[i] != paths[j]
    ensures var r := ReadFirst(PrintAll(bs[..n]) + post, paths, n);
            && r.0.Files? && r.1 == |PrintAll(bs[..n])|
            && r.0.contents.Keys == (set i | 0 <= i < n :: paths[i])
            && forall i :: 0 <= i < n ==> r.0.contents[paths[i]] == bs[i].content
  {
    if n > 0 {
      var b := bs[n - 1];
      assert b in bs && bs[..n][..n - 1] == bs[..n - 1];
      var before := PrintAll(bs[..n - 1]);
      var output := PrintAll(bs[..n]) + post;
      assert output == before + (Print(b) + post) == before + Print(b) + post;
      FirstReads(bs, paths, n - 1, Print(b) + post);
      FrameReads(before, b, post, paths[n - 1]);
      hide ReadFrame, Print, Reported, PrintAll;
      FirstGrows(bs, paths, n, ReadFirst(output, paths, n - 1).0.contents);
    }
  }

  /** One more path's content in the map. */
  lemma FirstGrows(bs: seq<Blob>, paths: seq<string>, n: nat, before: map<string, Bytes>)
    requires 0 < n <= |bs| == |paths|
    requires forall i, j :: 0 <= i < j < |paths| ==> paths[i] != paths[j]
    requires before.Keys == (set i | 0 <= i < n - 1 :: paths[i])
    requires forall i :: 0 <= i < n - 1 ==> before[paths[i]] == bs[i].content
    ensures var contents := before[paths[n - 1] := bs[n - 1].content];
            && contents.Keys == (set i | 0 <= i < n :: paths[i])
            && forall i :: 0 <= i < n ==> contents[paths[i]] == bs[i].content
  {
    var contents := before[paths[n - 1] := bs[n - 1].content];
    forall i | 0 <= i < n
      ensures paths[i] in contents && contents[paths[i]] == bs[i].content
    {
      assert i < n - 1 ==> paths[i] != paths[n - 1];
    }
  }

  /** Reading what git wrote for the paths returns each path's exact bytes and consumes it all. */
  lemma ReadsBack(bs: seq<Blob>, paths: seq<string>)
    requires |bs| == |paths| && forall b :: b in bs ==> Reported(b)
    requires forall i, j :: 0 <= i < j < |paths| ==> paths[i] != paths[j]
    ensures var r := ReadFirst(PrintAll(bs), paths, |paths|);
            && r.0.Files? && r.1 == |PrintAll(bs)|
            && r.0.contents.Keys == (set p | p in paths)
            && forall i :: 0 <= i < |paths| ==> r.0.contents[paths[i]] == bs[i].content
  {
    FirstReads(bs, paths, |paths|, "");
    assert bs[..|paths|] == bs && PrintAll(bs) + "" == PrintAll(bs);
    var keys := set i | 0 <= i < |paths| :: paths[i];
    assert forall p :: p in paths <==> p in keys;
  }

  /** `content` stands in the output from `offset` on as one frame: a header line announcing its
      length, its bytes, a newline, and then the next frame at `next`. */
  ghost predicate Framed(output: Bytes, offset: nat, headerEnd: nat, content: Bytes, next: nat) {
    && offset <= headerEnd && headerEnd + 1 + |content| + 1 == next <= |output|
    && NEWLINE !in output[offset..headerEnd] && output[headerEnd] == NEWLINE && output[next - 1] == NEWLINE
    && ParseInt(Field(output[offset..headerEnd], 2)) == Some(|content|)
    && output[headerEnd + 1..next - 1] == content
  }

  /** Whatever it accepts is framed. */
  lemma AcceptedIsFramed(output: Bytes, path: string, offset: nat)
    requires offset <= |output| && ReadFrame(output, path, offset).Frame?
    ensures var r := ReadFrame(output, path, offset);
            exists headerEnd :: Framed(output, offset, headerEnd, r.content, r.next)
  {
    hide Field, ParseInt, EndsWith, IndexOf;
    var r := ReadFrame(output, path, offset);
    NoneBefore(output, NEWLINE, offset);
    assert Framed(output, offset, IndexOf(output, NEWLINE, offset), r.content, r.next);
  }

  lemma FramedHeader(output: Bytes, offset: nat, headerEnd: nat, content: Bytes, next: nat)
    requires Framed(output, offset, headerEnd, content, next)
    ensures IndexOf(output, NEWLINE, offset) == headerEnd
  {
    forall k | offset <= k < headerEnd
      ensures output[k] != NEWLINE
    {
      assert output[offset..headerEnd][k - offset] == output[k];
    }
    IndexOfFirst(output, NEWLINE, offset, headerEnd);
  }

  ghost predicate Acceptable(output: Bytes, offset: nat, headerEnd: nat, content: Bytes, next: nat) {
    && Framed(output, offset, headerEnd, content, next)
    && !EndsWith(output[offset..headerEnd], " missing") && |content| <= 9007199254740991
  }

  /** A frame is accepted exactly when it is framed, its header does not end in ` missing`, and its length
      is a safe integer. */
  lemma AcceptedIff(output: Bytes, path: string, offset: nat, content: Bytes, next: nat)
    requires offset <= |output|
    ensures ReadFrame(output, path, offset) == Frame(content, next) <==>
      exists headerEnd: nat :: Acceptable(output, offset, headerEnd, content, next)
  {
    hide Field, ParseInt, IndexOf, EndsWith;
    if ReadFrame(output, path, offset) == Frame(content, next) {
      NoneBefore(output, NEWLINE, offset);
      assert Acceptable(output, offset, IndexOf(output, NEWLINE, offset), content, next);
    }
    if headerEnd: nat :| Acceptable(output, offset, headerEnd, content, next) {
      FramedHeader(output, offset, headerEnd, content, next);
    }
  }

  /** What git writes for a path the ref does not have is refused as such. */
  lemma MissingReads(pre: Bytes, name: string, post: Bytes, path: string)
    requires NEWLINE !in name
    ensures ReadFrame(pre + (name + " missing" + "\n") + post, path, |pre|) == Failed(NoSuchPath(path))
  {
    hide Field, ParseInt, IndexOf;
    var h := name + MISSING;
    var output, end := pre + (name + " missing" + "\n") + post, |pre| + |h|;
    assert output[|pre|..end] == h && output[end] == NEWLINE;
    assert h[|h| - |MISSING|..] == MISSING;
    assert forall k :: |pre| <= k < end ==> output[k] == h[k - |pre|];
    IndexOfFirst(output, NEWLINE, |pre|, end);
  }

  lemma {:induction false} NoneBefore(s: Bytes, c: char, from: nat)
    requires from <= |s|
    ensures c !in s[from..IndexOf(s, c, from)]
    decreases |s| - from
  {
    var i := IndexOf(s, c, from);
    if from < i {
      NoneBefore(s, c, from + 1);
      assert s[from..i] == [s[from]] + s[from + 1..i];
    }
  }

  // ---------------------------------------------------------------- the loop

  lemma {:induction false} ReadFails(output: Bytes, paths: seq<string>, m: nat, n: nat)
    requires m <= n <= |paths| && !ReadFirst(output, paths, m).0.Files?
    ensures ReadFirst(output, paths, n) == ReadFirst(output, paths, m)
    decreases n
  {
    if m < n {
      ReadFails(output, paths, m, n - 1);
    }
  }

  method ReadOne(output: Bytes, path: string, offset: nat) returns (r: Step)
    requires offset <= |output|
    ensures r == ReadFrame(output, path, offset)
  {
    hide Field, ParseInt, EndsWith;
    var headerEnd := IndexOf(output, NEWLINE, offset);
    if headerEnd >= |output| {
      return Failed(NoHeader(path));
    }
    var header := output[offset..headerEnd];
    if EndsWith(header, MISSING) {
      return Failed(NoSuchPath(path));
    }
    var size := ParseInt(Field(header, 2));
    if size.None? || size.value > MAX_SAFE_INTEGER || size.value < 0 {
      return Failed(InvalidSize(path));
    }
    var contentStart := headerEnd + 1;
    var contentEnd := contentStart + size.value;
    if contentEnd >= |output| || output[contentEnd] != NEWLINE {
      return Failed(Truncated(path));
    }
    r := Frame(output[contentStart..contentEnd], contentEnd + 1);
  }

  method ReadGitFiles(output: Bytes, paths: seq<string>) returns (r: Result)
    ensures r == ReadFirst(output, paths, |paths|).0
  {
    hide ReadFrame;
    var contents: map<string, Bytes> := map[];
    var offset := 0;
    for i := 0 to |paths|
      invariant offset <= |output| && ReadFirst(output, paths, i) == (Files(contents), offset)
    {
      var step := ReadOne(output, paths[i], offset);
      if step.Failed? {
        ReadFails(output, paths, i + 1, |paths|);
        return Err(step.error);
      }
      contents := contents[paths[i] := step.content];
      offset := step.next;
    }
    r := Files(contents);
  }
}
