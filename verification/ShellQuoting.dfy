/**
 * The logged detached command line, and how a shell reads it: token recognition and quote removal after
 * sections 2.2.1, 2.2.2 and 2.3 of the POSIX Shell Command Language.
 */
module ShellQuoting {
  import opened Collections
  import Text

  // ---- Building the command ----------------------------------------------------------------------------------

  /** `value.replace(/'/g, "'\\''")`. */
  function Escape(value: string): string {
    if value == "" then ""
    else (if value[0] == '\'' then ['\'', '\\', '\'', '\''] else [value[0]]) + Escape(value[1..])
  }

  /** `quoteShellArgument`. */
  function Quote(value: string): string { ['\''] + Escape(value) + ['\''] }

  /** `commandArgs.map(quoteShellArgument).join(" ")`. */
  function QuotedArguments(args: seq<string>): string {
    if args == [] then ""
    else if |args| == 1 then Quote(args[0])
    else Quote(args[0]) + " " + QuotedArguments(args[1..])
  }

  /** The command that sends both outputs to the log. */
  function LoggedCommand(args: seq<string>, path: string): string {
    QuotedArguments(args) + " > " + Quote(path) + " 2>&1"
  }

  predicate IsLabelChar(c: char) {
    'a' <= c <= 'z' || 'A' <= c <= 'Z' || '0' <= c <= '9' || c in {'.', '_', '-'}
  }

  function Label(service: string, artifactName: string): string {
    var raw := service + "-" + artifactName;
    seq(|raw|, i requires 0 <= i < |raw| => if IsLabelChar(raw[i]) then raw[i] else '-')
  }

  function LogPath(service: string, artifactName: string): string {
    "/tmp/codemem-e2e-" + Label(service, artifactName) + "-viewer.log"
  }

  // ---- Reading it as a shell does -----------------------------------------------------------------------------

  const NUL: char := 0 as char

  /** A word after quote removal, with whether any of it was quoted; a descriptor number; an operator. */
  datatype Token = Word(text: string, quoted: bool) | IoNumber(digits: string) | Operator(text: string)

  /** Between words, inside a word of which this text has been read, or inside single quotes in it. */
  datatype Mode = Between | InWord(text: string, quoted: bool) | InQuotes(text: string)

  predicate IsBlank(c: char) { c == ' ' || c == '\t' }

  /** The longest operator at the start of the text, or nothing. Here-documents are outside this reader. */
  function OperatorAt(s: string): (op: string)
    ensures |op| <= |s| && op == s[..|op|]
  {
    if |s| >= 2 && s[..2] in [">>", ">&", ">|", "<&", "<>", "&&", "||", ";;"] then s[..2]
    else if |s| >= 1 && s[0] in {'>', '<', '&', '|', ';', '(', ')', '\n'} then s[..1]
    else ""
  }

  /**
   * Characters whose unquoted meaning this reader does not follow: the other quotes, expansions, patterns,
   * comments and braces. It gives up on them, as it does on here-documents, escaped line ends and NUL.
   */
  predicate IsOutside(c: char) { c in {NUL, '"', '$', '`', '*', '?', '[', '~', '#', '{', '}', '!'} }

  /** A word that ends here; unquoted digits right before a redirection are a descriptor number. */
  function Ended(mode: Mode, s: string): seq<Token> {
    match mode
    case InWord(text, quoted) =>
      if !quoted && Text.AllDigits(text) && s != "" && (s[0] == '<' || s[0] == '>') then [IoNumber(text)]
      else [Word(text, quoted)]
    case _ => []
  }

  function SoFar(mode: Mode): string { if mode == Between then "" else mode.text }

  /** One move of the reader: tokens it has completed, with the text and the mode to go on with. */
  datatype Move = GiveUp | Done(tokens: seq<Token>) | On(tokens: seq<Token>, rest: string, mode: Mode)

  function Step(s: string, mode: Mode): (m: Move)
    ensures m.On? ==> |m.rest| < |s|
  {
    if mode.InQuotes? then
      if s == "" || s[0] == NUL then GiveUp
      else if s[0] == '\'' then On([], s[1..], InWord(mode.text, true))
      else On([], s[1..], InQuotes(mode.text + [s[0]]))
    else if s == "" then Done(Ended(mode, s))
    else if IsBlank(s[0]) then On(Ended(mode, s), s[1..], Between)
    else if s[0] == '\'' then On([], s[1..], InQuotes(SoFar(mode)))
    else if s[0] == '\\' then
      if |s| == 1 || s[1] == '\n' || s[1] == NUL then GiveUp else On([], s[2..], InWord(SoFar(mode) + [s[1]], true))
    else if |s| >= 2 && s[..2] == "<<" then GiveUp
    else if OperatorAt(s) != "" then On(Ended(mode, s) + [Operator(OperatorAt(s))], s[|OperatorAt(s)|..], Between)
    else if IsOutside(s[0]) then GiveUp
    else On([], s[1..], InWord(SoFar(mode) + [s[0]], mode.InWord? && mode.quoted))
  }

  function PrependAll(ts: seq<Token>, rest: Option<seq<Token>>): Option<seq<Token>> {
    if rest.Some? then Some(ts + rest.value) else None
  }

  function Lex(s: string, mode: Mode): Option<seq<Token>>
    decreases |s|
  {
    match Step(s, mode)
    case GiveUp => None
    case Done(tokens) => Some(tokens)
    case On(tokens, rest, next) => PrependAll(tokens, Lex(rest, next))
  }

  /** The tokens of a command string, or nothing when it is not within this reader. */
  function Tokenize(command: string): Option<seq<Token>> { Lex(command, Between) }

  // ---- Quoting is undone ----------------------------------------------------------------------------------------

  predicate NulFree(s: string) { '\0' !in s }

  /** A move that completes no token. */
  lemma MovesTo(s: string, mode: Mode, rest: string, next: Mode)
    requires Step(s, mode) == On([], rest, next)
    ensures Lex(s, mode) == Lex(rest, next)
  {
    hide Step;
    if Lex(rest, next).Some? {
      assert [] + Lex(rest, next).value == Lex(rest, next).value;
    }
  }

  /** A move that completes tokens. */
  lemma MovesOn(s: string, mode: Mode, tokens: seq<Token>, rest: string, next: Mode)
    requires Step(s, mode) == On(tokens, rest, next)
    ensures Lex(s, mode) == PrependAll(tokens, Lex(rest, next))
  {
    hide Step;
  }

  lemma EscapedQuote(text: string, rest: string)
    ensures Lex(['\'', '\\', '\'', '\''] + rest, InQuotes(text)) == Lex(rest, InQuotes(text + ['\'']))
  {
    hide Lex;
    var s := ['\'', '\\', '\'', '\''] + rest;
    assert s[1..][2..][1..] == rest;
    MovesTo(s, InQuotes(text), s[1..], InWord(text, true));
    MovesTo(s[1..], InWord(text, true), s[1..][2..], InWord(text + ['\''], true));
    MovesTo(s[1..][2..], InWord(text + ['\''], true), rest, InQuotes(text + ['\'']));
  }

  /** Inside the quotes an escaped value is read back character by character; a NUL ends the reading. */
  lemma {:induction false} EscapedReadsBack(value: string, text: string, rest: string)
    ensures Lex(Escape(value) + ['\''] + rest, InQuotes(text)) ==
            if NulFree(value) then Lex(rest, InWord(text + value, true)) else None
    decreases |value|
  {
    var s := Escape(value) + ['\''] + rest;
    if value == "" {
      assert s[1..] == rest && text + value == text;
      MovesTo(s, InQuotes(text), rest, InWord(text, true));
    } else {
      var c, more := value[0], value[1..];
      var tail := Escape(more) + ['\''] + rest;
      assert value == [c] + more;
      assert NulFree(value) <==> c != NUL && NulFree(more);
      assert text + value == text + [c] + more;
      EscapedReadsBack(more, text + [c], rest);
      if c == '\'' {
        assert s == ['\'', '\\', '\'', '\''] + tail;
        EscapedQuote(text, tail);
      } else {
        assert s == [c] + tail && s[1..] == tail;
        if c != NUL {
          MovesTo(s, InQuotes(text), tail, InQuotes(text + [c]));
        }
      }
    }
  }

  /** A quoted value, whatever it holds, is read as one quoted word. */
  lemma QuotedIsOneWord(value: string, rest: string)
    ensures Lex(Quote(value) + rest, Between) == if NulFree(value) then Lex(rest, InWord(value, true)) else None
  {
    hide Lex;
    var s := Quote(value) + rest;
    var tail := Escape(value) + ['\''] + rest;
    assert s[0] == '\'' && s[1..] == tail;
    MovesTo(s, Between, tail, InQuotes(""));
    EscapedReadsBack(value, "", rest);
    assert "" + value == value;
  }

  /** A bare character goes into the word before it, or begins one. */
  lemma BareStep(s: string, mode: Mode)
    requires s != "" && IsLabelChar(s[0]) && !mode.InQuotes? && (mode.InWord? ==> !mode.quoted)
    ensures Step(s, mode) == On([], s[1..], InWord(SoFar(mode) + [s[0]], false))
  {
    hide IsLabelChar; hide SoFar;
    BareIsPlain(s);
    hide OperatorAt; hide IsOutside;
  }

  lemma BareIsPlain(s: string)
    requires s != "" && IsLabelChar(s[0])
    ensures OperatorAt(s) == "" && !IsOutside(s[0]) && !IsBlank(s[0]) && s[0] != '\'' && s[0] != '\\'
    ensures |s| >= 2 ==> s[..2] != "<<"
  {
    if |s| >= 2 {
      assert s[..2][0] == s[0];
    }
  }

  /** Characters of the label alphabet without a quote are read as one unquoted word. */
  lemma {:induction false} BareWord(text: string, before: string)
    requires forall i :: 0 <= i < |text| ==> IsLabelChar(text[i])
    ensures Lex(text, InWord(before, false)) == Some([Word(before + text, false)])
    decreases |text|
  {
    hide IsLabelChar; hide Lex; hide Step;
    if text == "" {
      assert before + text == before;
      EndOfWord(before);
    } else {
      BareStep(text, InWord(before, false));
      MovesTo(text, InWord(before, false), text[1..], InWord(before + [text[0]], false));
      BareWord(text[1..], before + [text[0]]);
      assert before + [text[0]] + text[1..] == before + text;
    }
  }

  lemma EndOfWord(text: string)
    ensures Lex("", InWord(text, false)) == Some([Word(text, false)])
  {
    assert Step("", InWord(text, false)) == Done([Word(text, false)]);
  }

  /** A blank ends the word before it. */
  lemma BlankEndsWord(text: string, rest: string)
    ensures Lex([' '] + rest, InWord(text, true)) == PrependAll([Word(text, true)], Lex(rest, Between))
    ensures Lex([' '] + rest, Between) == Lex(rest, Between)
  {
    hide Lex;
    assert ([' '] + rest)[1..] == rest;
    MovesOn([' '] + rest, InWord(text, true), [Word(text, true)], rest, Between);
    MovesTo([' '] + rest, Between, rest, Between);
  }

  function Quoted(args: seq<string>): seq<Token> {
    seq(|args|, i requires 0 <= i < |args| => Word(args[i], true))
  }

  predicate AllNulFree(args: seq<string>) { forall i :: 0 <= i < |args| ==> NulFree(args[i]) }

  lemma PrependTwice(ts: seq<Token>, us: seq<Token>, rest: Option<seq<Token>>)
    ensures PrependAll(ts, PrependAll(us, rest)) == PrependAll(ts + us, rest)
    ensures PrependAll([], rest) == rest
  {
    if rest.Some? {
      assert ts + (us + rest.value) == ts + us + rest.value;
      assert [] + rest.value == rest.value;
    }
  }

  /** The argument part of the line, up to the blank behind it, is read as exactly the arguments. */
  lemma {:induction false} ArgumentsReadBack(args: seq<string>, rest: string)
    ensures Lex(QuotedArguments(args) + [' '] + rest, Between) ==
            if AllNulFree(args) then PrependAll(Quoted(args), Lex(rest, Between)) else None
  {
    hide Lex; hide Quote; hide NulFree;
    if args == [] {
      BlankEndsWord("", rest);
      PrependTwice([], [], Lex(rest, Between));
      assert QuotedArguments(args) + [' '] + rest == [' '] + rest;
      assert Quoted(args) == [];
    } else {
      var tail := if |args| == 1 then rest else QuotedArguments(args[1..]) + [' '] + rest;
      assert QuotedArguments(args) + [' '] + rest == Quote(args[0]) + ([' '] + tail);
      QuotedIsOneWord(args[0], [' '] + tail);
      BlankEndsWord(args[0], tail);
      assert Quoted(args) == [Word(args[0], true)] + Quoted(args[1..]);
      AllNulFreeHead(args);
      PrependTwice([Word(args[0], true)], Quoted(args[1..]), Lex(rest, Between));
      hide PrependAll; hide AllNulFree;
      if |args| == 1 {
        assert args == [args[0]];
        assert Quoted(args) == [Word(args[0], true)];
      } else {
        ArgumentsReadBack(args[1..], rest);
        NoneStaysNone([Word(args[0], true)]);
      }
    }
  }

  lemma NoneStaysNone(ts: seq<Token>)
    ensures PrependAll(ts, None) == None
  {
  }

  lemma AllNulFreeHead(args: seq<string>)
    requires args != []
    ensures AllNulFree(args) <==> NulFree(args[0]) && (|args| == 1 || AllNulFree(args[1..]))
  {
    hide NulFree;
    assert args == [args[0]] + args[1..];
  }

  /** What follows the arguments: both outputs go to the file of that name. */
  function Redirection(path: string): seq<Token> {
    [Operator(">"), Word(path, true), IoNumber("2"), Operator(">&"), Word("1", false)]
  }

  /** The text behind the log path, read while its word is still open. */
  lemma ErrorsFollow(text: string, s: string)
    requires s == [' ', '2', '>', '&', '1']
    ensures Lex(s, InWord(text, true)) == Some([Word(text, true)] + [IoNumber("2"), Operator(">&"), Word("1", false)])
  {
    hide Lex;
    MovesOn(s, InWord(text, true), [Word(text, true)], s[1..], Between);
    assert SoFar(Between) + ['2'] == "2";
    MovesTo(s[1..], Between, s[1..][1..], InWord("2", false));
    DuplicateFollows(s[1..][1..]);
  }

  lemma DuplicateFollows(s: string)
    requires s == ['>', '&', '1']
    ensures Lex(s, InWord("2", false)) == Some([IoNumber("2"), Operator(">&"), Word("1", false)])
  {
    hide Lex;
    assert s[..2] == ">&";
    assert Text.AllDigits("2");
    MovesOn(s, InWord("2", false), [IoNumber("2")] + [Operator(">&")], s[2..], Between);
    LastDigit(s[2..]);
    assert [IoNumber("2")] + [Operator(">&")] + [Word("1", false)] == [IoNumber("2"), Operator(">&"), Word("1", false)];
  }

  lemma LastDigit(s: string)
    requires s == ['1']
    ensures Lex(s, Between) == Some([Word("1", false)])
  {
    assert SoFar(Between) + [s[0]] == "1";
    assert OperatorAt(s) == "";
    MovesTo(s, Between, s[1..], InWord("1", false));
    assert s[1..] == "";
    assert Step(s[1..], InWord("1", false)) == Done([Word("1", false)]);
  }

  lemma RedirectionReadsBack(path: string)
    ensures Lex("> " + Quote(path) + " 2>&1", Between) == if NulFree(path) then Some(Redirection(path)) else None
  {
    hide Lex; hide Quote; hide NulFree;
    var tail := Quote(path) + " 2>&1";
    var s := ['>'] + ([' '] + tail);
    assert "> " + Quote(path) + " 2>&1" == s;
    OutputFollows(s, tail);
    QuotedIsOneWord(path, " 2>&1");
    ErrorsFollow(path, " 2>&1");
    var word, errors := [Word(path, true)], [IoNumber("2"), Operator(">&"), Word("1", false)];
    assert [Operator(">")] + (word + errors) == Redirection(path);
  }

  lemma OutputFollows(s: string, tail: string)
    requires s == ['>'] + ([' '] + tail)
    ensures Lex(s, Between) == PrependAll([Operator(">")], Lex(tail, Between))
  {
    hide Lex;
    assert s[1..] == [' '] + tail && s[..2] == "> " && s[..1] == ">";
    MovesOn(s, Between, [] + [Operator(">")], [' '] + tail, Between);
    assert [] + [Operator(">")] == [Operator(">")];
    BlankEndsWord("", tail);
  }

  /**
   * The shell reads the command as exactly the argument list, every argument one fully quoted word (so
   * never a reserved word, an alias, an assignment or a descriptor number), followed by the redirection;
   * this holds if and only if no argument contains a NUL.
   */
  lemma CommandReadsBack(args: seq<string>, path: string)
    requires NulFree(path)
    ensures Tokenize(LoggedCommand(args, path)) == Some(Quoted(args) + Redirection(path)) <==> AllNulFree(args)
    ensures AllNulFree(args) || Tokenize(LoggedCommand(args, path)) == None
  {
    hide Lex; hide Quote;
    var rest := "> " + Quote(path) + " 2>&1";
    assert LoggedCommand(args, path) == QuotedArguments(args) + [' '] + rest;
    ArgumentsReadBack(args, rest);
    RedirectionReadsBack(path);
  }

  /** The log path of a label holds neither NUL nor quote, so the launched command always reads back. */
  lemma LaunchedCommandReadsBack(args: seq<string>, service: string, artifactName: string)
    requires AllNulFree(args)
    ensures var path := LogPath(service, artifactName);
            && '\'' !in path
            && Tokenize(LoggedCommand(args, path)) == Some(Quoted(args) + Redirection(path))
  {
    var path := LogPath(service, artifactName);
    assert forall i :: 0 <= i < |path| ==> path[i] != NUL && path[i] != '\'';
    CommandReadsBack(args, path);
  }

  /** Letters, digits, dot, underscore and hyphen. */
  ghost predicate Safe(c: char) {
    'a' <= Text.LowerChar(c) <= 'z' || Text.IsDigit(c) || c == '.' || c == '_' || c == '-'
  }

  /** The log lies directly in /tmp, under the two names with every other character replaced by a hyphen. */
  lemma LogPathMeans(service: string, artifactName: string)
    ensures var raw := service + ['-'] + artifactName;
            var path := LogPath(service, artifactName);
            && |path| == 17 + |raw| + 11
            && path[..17] == "/tmp/codemem-e2e-" && path[17 + |raw|..] == "-viewer.log"
            && forall i :: 0 <= i < |raw| ==>
                 path[17 + i] == (if Safe(raw[i]) then raw[i] else '-') && path[17 + i] != '/'
  {
    LabelMeans(service, artifactName);
    hide Label; hide Safe;
    PathOfLabel("/tmp/codemem-e2e-", Label(service, artifactName), "-viewer.log");
  }

  lemma PathOfLabel(front: string, name: string, back: string)
    ensures var path := front + name + back;
            && path[..|front|] == front && path[|front| + |name|..] == back
            && forall i :: 0 <= i < |name| ==> path[|front| + i] == name[i]
  {
  }

  lemma LabelMeans(service: string, artifactName: string)
    ensures var raw := service + ['-'] + artifactName;
            && |Label(service, artifactName)| == |raw|
            && forall i :: 0 <= i < |raw| ==>
                 && Label(service, artifactName)[i] == (if Safe(raw[i]) then raw[i] else '-')
                 && Label(service, artifactName)[i] != '/'
  {
    assert service + "-" + artifactName == service + ['-'] + artifactName;
  }

  /** Different argument lists never share a command line. */
  lemma CommandDetermines(args: seq<string>, path: string, args': seq<string>, path': string)
    requires AllNulFree(args) && AllNulFree(args') && NulFree(path) && NulFree(path')
    requires LoggedCommand(args, path) == LoggedCommand(args', path')
    ensures args == args' && path == path'
  {
    CommandReadsBack(args, path);
    CommandReadsBack(args', path');
    hide LoggedCommand; hide Tokenize; hide AllNulFree;
    var ts, ts' := Quoted(args) + Redirection(path), Quoted(args') + Redirection(path');
    assert ts == ts';
    assert |args| == |args'|;
    forall i | 0 <= i < |args| ensures args[i] == args'[i] {
      assert ts[i] == Word(args[i], true) && ts'[i] == Word(args'[i], true);
    }
    assert ts[|args| + 1] == Word(path, true) && ts'[|args| + 1] == Word(path', true);
  }
}
