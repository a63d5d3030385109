/** `quoteShellArgument` and `formatCopyableCommand` of `scripts/publish-npm-baseline.ts`, against
    the way a POSIX shell splits a line into words (Shell Command Language, sections 2.2 to 2.4 and
    rule 7 of section 2.10.2). */
module ShellWords {
  import opened Options
  import opened Text

  // ---------------------------------------------------------------- printing

  predicate IsBareChar(c: char) {
    IsWordChar(c) || c in "./:@=+-"
  }

  /** `/^[\w./:@=+-]+$/`. */
  predicate IsBare(value: string) {
    value != "" && forall i :: 0 <= i < |value| ==> IsBareChar(value[i])
  }

  /** `replaceAll` of the single quote by `'"'"'`. */
  function EscapeQuotes(value: string): string {
    if value == "" then ""
    else (if value[0] == '\'' then "'\"'\"'" else [value[0]]) + EscapeQuotes(value[1..])
  }

  function Quote(value: string): string {
    if IsBare(value) then value else "'" + EscapeQuotes(value) + "'"
  }

  function Quotes(values: seq<string>): (r: seq<string>)
    ensures |r| == |values|
  {
    if values == [] then [] else [Quote(values[0])] + Quotes(values[1..])
  }

  function FormatCopyableCommand(command: string, args: seq<string>): string {
    Join(Quotes([command] + args), " ")
  }

  // ---------------------------------------------------------------- the shell

  /** A word after quote removal, and whether any of it was quoted. */
  datatype Word = Word(text: string, quoted: bool) {
    function Add(c: char): Word {
      Word(text + [c], quoted)
    }
    function Quoted(): Word {
      Word(text, true)
    }
  }

  datatype Mode = Between | Unquoted(word: Word) | Single(word: Word) | Double(word: Word)

  /** What an unquoted character means something else than itself in: operators, expansions,
      patterns, comments and the end of the line. */
  predicate IsSpecial(c: char) {
    c in "|&;<>()$`\\\n*?[]#~%{}!^"
  }

  function Prepend(word: Word, words: Option<seq<Word>>): Option<seq<Word>> {
    if words.None? then None else Some([word] + words.value)
  }

  /** The words of the line `s`, `None` when it is not plain words: a quote is left open, or an
      unquoted or double-quoted character is special. */
  function Lex(s: string, mode: Mode): Option<seq<Word>>
    decreases |s|
  {
    if s == "" then
      match mode
      case Between => Some([])
      case Unquoted(w) => Some([w])
      case _ => None
    else
      var c, rest := s[0], s[1..];
      match mode
      case Single(w) => Lex(rest, if c == '\'' then Unquoted(w) else Single(w.Add(c)))
      case Double(w) =>
        if c in "$`\\" then None else Lex(rest, if c == '"' then Unquoted(w) else Double(w.Add(c)))
      case Between =>
        if c in " \t" then Lex(rest, Between)
        else LexUnquoted(c, rest, Word("", false))
      case Unquoted(w) =>
        if c in " \t" then Prepend(w, Lex(rest, Between))
        else LexUnquoted(c, rest, w)
  }

  function LexUnquoted(c: char, rest: string, w: Word): Option<seq<Word>>
    decreases |rest| + 1, 0
  {
    if c == '\'' then Lex(rest, Single(w.Quoted()))
    else if c == '"' then Lex(rest, Double(w.Quoted()))
    else if IsSpecial(c) then None
    else Lex(rest, Unquoted(w.Add(c)))
  }

  predicate IsName(s: string) {
    s != "" && !('0' <= s[0] <= '9') && forall i :: 0 <= i < |s| ==> IsWordChar(s[i])
  }

  /** `name=value`. */
  ghost predicate IsAssignment(s: string) {
    exists k :: 0 <= k < |s| && s[k] == '=' && IsName(s[..k])
  }

  predicate IsReserved(s: string) {
    s in ["case", "do", "done", "elif", "else", "esac", "fi", "for", "if", "in", "then", "until", "while"]
      || s in ["!", "{", "}"]
  }

  function Texts(words: seq<Word>): (r: seq<string>)
    ensures |r| == |words|
  {
    if words == [] then [] else [words[0].text] + Texts(words[1..])
  }

  /** The argument vector of a line that is one simple command and nothing else: an unquoted first
      word that is an assignment or a reserved word names no command. */
  ghost function Arguments(s: string): Option<seq<string>> {
    var words := Lex(s, Between);
    if words.None? || words.value == [] then None
    else
      var first := words.value[0];
      if !first.quoted && (IsAssignment(first.text) || IsReserved(first.text)) then None
      else Some(Texts(words.value))
  }

  // ---------------------------------------------------------------- the round trip

  function Lexed(values: seq<string>): (r: seq<Word>)
    ensures |r| == |values|
  {
    if values == [] then [] else [Word(values[0], !IsBare(values[0]))] + Lexed(values[1..])
  }

  lemma {:induction false} BareLexes(s: string, rest: string, w: Word)
    requires forall i :: 0 <= i < |s| ==> IsBareChar(s[i])
    ensures Lex(s + rest, Unquoted(w)) == Lex(rest, Unquoted(Word(w.text + s, w.quoted)))
    decreases |s|
  {
    if s == "" {
      assert s + rest == rest && w.text + s == w.text;
    } else {
      assert (s + rest)[1..] == s[1..] + rest;
      assert IsBareChar(s[0]);
      BareIsPlain(s[0]);
      hide IsBareChar, IsSpecial;
      BareLexes(s[1..], rest, w.Add(s[0]));
      assert w.text + [s[0]] + s[1..] == w.text + s;
    }
  }

  /** The four characters that carry a single quote out of and back into single quotes. */
  lemma QuoteEscapes(rest: string, w: Word)
    requires w.quoted
    ensures Lex("'\"'\"'" + rest, Single(w)) == Lex(rest, Single(w.Add('\'')))
  {
    var e := "'\"'\"'" + rest;
    assert e[0] == '\'' && e[1] == '"' && e[2] == '\'' && e[3] == '"' && e[4] == '\'';
    assert e[1..][1..] == e[2..] && e[2..][1..] == e[3..] && e[3..][1..] == e[4..] && e[4..][1..] == rest;
    var a := w.Add('\'');
    assert w.Quoted() == w && a.Quoted() == a;
    assert Lex(e, Single(w)) == Lex(e[1..], Unquoted(w));
    assert Lex(e[1..], Unquoted(w)) == Lex(e[2..], Double(w));
    assert Lex(e[2..], Double(w)) == Lex(e[3..], Double(a));
    assert Lex(e[3..], Double(a)) == Lex(e[4..], Unquoted(a));
    assert Lex(e[4..], Unquoted(a)) == Lex(rest, Single(a));
  }

  lemma {:induction false} SingleLexes(value: string, rest: string, w: Word)
    requires w.quoted
    ensures Lex(EscapeQuotes(value) + "'" + rest, Single(w)) == Lex(rest, Unquoted(Word(w.text + value, true)))
    decreases |value|
  {
    var s := EscapeQuotes(value) + "'" + rest;
    if value == "" {
      assert s[0] == '\'' && s[1..] == rest && w.text + value == w.text;
    } else {
      var more := EscapeQuotes(value[1..]) + "'" + rest;
      SingleLexes(value[1..], rest, w.Add(value[0]));
      assert w.text + [value[0]] + value[1..] == w.text + value;
      if value[0] == '\'' {
        assert s == "'\"'\"'" + more;
        QuoteEscapes(more, w);
      } else {
        assert s == [value[0]] + more && s[1..] == more;
      }
    }
  }

  lemma BareStarts(c: char, rest: string)
    requires IsBareChar(c)
    ensures Lex([c] + rest, Between) == Lex(rest, Unquoted(Word("", false).Add(c)))
  {
    BareIsPlain(c);
    hide IsBareChar, IsSpecial;
    assert ([c] + rest)[1..] == rest;
  }

  lemma BareIsPlain(c: char)
    requires IsBareChar(c)
    ensures !IsSpecial(c) && c !in " \t" && c != '\'' && c != '"'
  {
    hide IsSpecial;
    if IsWordChar(c) {
      WordCharIsPlain(c);
    } else {
      MarkIsPlain(c);
    }
  }

  lemma WordCharIsPlain(c: char)
    requires IsWordChar(c)
    ensures !IsSpecial(c) && c !in " \t" && c != '\'' && c != '"'
  {
  }

  lemma MarkIsPlain(c: char)
    requires c in "./:@=+-"
    ensures !IsSpecial(c) && c !in " \t" && c != '\'' && c != '"'
  {
    assert c == '.' || c == '/' || c == ':' || c == '@' || c == '=' || c == '+' || c == '-';
  }

  lemma BareWordLexes(value: string, rest: string)
    requires IsBare(value)
    ensures Lex(value + rest, Between) == Lex(rest, Unquoted(Word(value, false)))
  {
    var s, first := value + rest, Word("", false).Add(value[0]);
    hide Lex, IsBareChar;
    assert IsBareChar(value[0]) && s == [value[0]] + (value[1..] + rest);
    BareStarts(value[0], value[1..] + rest);
    assert "" + [value[0]] == [value[0]];
    BareLexes(value[1..], rest, first);
    assert first.text + value[1..] == value;
  }

  lemma QuotedWordLexes(value: string, rest: string)
    ensures Lex("'" + EscapeQuotes(value) + "'" + rest, Between) == Lex(rest, Unquoted(Word(value, true)))
  {
    hide EscapeQuotes, IsSpecial;
    var more := EscapeQuotes(value) + "'" + rest;
    var s := "'" + EscapeQuotes(value) + "'" + rest;
    assert s[0] == '\'' && s[1..] == more;
    assert Lex(s, Between) == Lex(more, Single(Word("", true)));
    SingleLexes(value, rest, Word("", true));
    assert "" + value == value;
  }

  lemma QuoteLexes(value: string, rest: string)
    ensures Lex(Quote(value) + rest, Between) == Lex(rest, Unquoted(Word(value, !IsBare(value))))
  {
    hide IsBare, EscapeQuotes, Lex;
    if IsBare(value) {
      BareWordLexes(value, rest);
    } else {
      QuotedWordLexes(value, rest);
    }
  }

  /** A blank ends the word before it. */
  lemma BlankEnds(w: Word, line: string)
    ensures Lex(" " + line, Unquoted(w)) == Prepend(w, Lex(line, Between))
    ensures Lex("", Unquoted(w)) == Some([w])
  {
  }

  lemma {:induction false} LineLexes(values: seq<string>)
    ensures Lex(Join(Quotes(values), " "), Between) == Some(Lexed(values))
  {
    if values == [] {
      NothingLexes();
    } else {
      hide Quote, IsBare, Lex;
      var quotes, rest := Quotes(values), values[1..];
      assert quotes[1..] == Quotes(rest);
      var line := Join(Quotes(rest), " ");
      BlankEnds(Word(values[0], !IsBare(values[0])), line);
      LineLexes(rest);
      if rest == [] {
        QuoteLexes(values[0], "");
        assert Quote(values[0]) + "" == Quote(values[0]);
        assert Lexed(values) == [Word(values[0], !IsBare(values[0]))];
      } else {
        QuoteLexes(values[0], " " + line);
        assert Quote(values[0]) + " " + line == Quote(values[0]) + (" " + line);
      }
    }
  }

  lemma NothingLexes()
    ensures Lex("", Between) == Some([])
  {
  }

  lemma {:induction false} TextsOfLexed(values: seq<string>)
    ensures Texts(Lexed(values)) == values
  {
    if values != [] {
      TextsOfLexed(values[1..]);
    }
  }

  /** The printed line gives the command and its arguments back, whatever characters they hold,
      exactly when the command is not printed bare as an assignment or a reserved word. */
  lemma CommandSplitsBack(command: string, args: seq<string>)
    ensures Arguments(FormatCopyableCommand(command, args)) == Some([command] + args)
       <==> !(IsBare(command) && (IsAssignment(command) || IsReserved(command)))
  {
    LineLexes([command] + args);
    TextsOfLexed([command] + args);
  }

  /** Every argument comes back, even behind a command that does not. */
  lemma ArgumentsSplitBack(command: string, args: seq<string>)
    ensures var words := Lex(FormatCopyableCommand(command, args), Between);
            words.Some? && Texts(words.value) == [command] + args
  {
    LineLexes([command] + args);
    TextsOfLexed([command] + args);
  }

  /** Two commands never print alike. */
  lemma PrintsApart(command: string, args: seq<string>, other: string, others: seq<string>)
    requires FormatCopyableCommand(command, args) == FormatCopyableCommand(other, others)
    ensures command == other && args == others
  {
    ArgumentsSplitBack(command, args);
    ArgumentsSplitBack(other, others);
    assert ([command] + args)[0] == ([other] + others)[0];
    assert ([command] + args)[1..] == args && ([other] + others)[1..] == others;
  }

  /** A bare command holding `=` is an assignment to the shell. */
  lemma AssignmentIsLost()
    ensures Arguments(FormatCopyableCommand("a=b", [])) == None
  {
    assert IsBare("a=b");
    assert "a=b"[1] == '=' && "a=b"[..1] == "a" && IsName("a=b"[..1]);
    LineLexes(["a=b"] + []);
  }

  /** A text is printed as it is exactly when it is not empty and has only characters that no shell reads
      as anything else. */
  lemma PrintsBareIff(value: string)
    ensures Quote(value) == value <==> value != "" && forall i :: 0 <= i < |value| ==>
      var c := value[i];
      || 'a' <= c <= 'z' || 'A' <= c <= 'Z' || '0' <= c <= '9' || c == '_' || c == '.' || c == '/'
      || c == ':' || c == '@' || c == '=' || c == '+' || c == '-'
  {
    if !IsBare(value) {
      EscapesLonger(value);
      assert |Quote(value)| > |value|;
    }
  }

  lemma {:induction false} EscapesLonger(value: string)
    ensures |EscapeQuotes(value)| >= |value|
  {
    if value != "" {
      EscapesLonger(value[1..]);
    }
  }
}
