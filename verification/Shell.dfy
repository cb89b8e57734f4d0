/** The command line the friendly CLI hands to the shell, and what a POSIX shell makes of it. */
module Shell {

  import opened Basics
  import opened Sequences

  const QUOTE: char := '\''

  /** The quoted body: every single quote leaves the quotes, is escaped, and enters them again. */
  function QuoteBody(value: string): string {
    if value == [] then []
    else
      var n := |value| - 1;
      QuoteBody(value[..n]) + if value[n] == QUOTE then "'\\''" else [value[n]]
  }

  function Quote(value: string): string {
    "'" + QuoteBody(value) + "'"
  }

  method ShellQuote(value: string) returns (quoted: string)
    ensures quoted == Quote(value)
  {
    quoted := "'";
    for k := 0 to |value|
      invariant quoted == "'" + QuoteBody(value[..k])
    {
      assert value[..k + 1][..k] == value[..k];
      if value[k] == QUOTE {
        quoted := quoted + "'\\''";
      } else {
        quoted := quoted + [value[k]];
      }
    }
    assert value[..|value|] == value;
    quoted := quoted + "'";
  }

  /** The command line for an argument vector. */
  function CommandLine(argv: seq<string>): string
    requires argv != []
  {
    if |argv| == 1 then Quote(argv[0])
    else CommandLine(argv[..|argv| - 1]) + " " + Quote(argv[|argv| - 1])
  }

  method RunCommand(executable: string, args: seq<string>) returns (command: string)
    ensures command == CommandLine([executable] + args)
  {
    command := ShellQuote(executable);
    for k := 0 to |args|
      invariant command == CommandLine([executable] + args[..k])
    {
      var argv := [executable] + args[..k + 1];
      assert argv[..|argv| - 1] == [executable] + args[..k];
      command := command + " ";
      var quoted := ShellQuote(args[k]);
      command := command + quoted;
    }
    assert args[..|args|] == args;
  }

  // ----- Token recognition and quote removal -----

  /** Characters that would need more of the shell than tokens and quotes: operators, expansions,
      globs, comments, double quotes and line ends. Unquoted, they make the model give up. */
  predicate Special(c: char) {
    c in "|&;<>()$`\"*?[#~=%{}!\n\r\0"
  }

  predicate Blank(c: char) {
    c == ' ' || c == '\t'
  }

  /** Between tokens, inside a token, or inside single quotes; with the finished tokens and the
      token under construction after quote removal. */
  datatype Lexer =
    | Between(done: seq<string>)
    | InToken(done: seq<string>, token: string)
    | InQuotes(done: seq<string>, token: string)
    | AfterBackslash(done: seq<string>, token: string)
    | GaveUp

  /** One character, after sections 2.2.1, 2.2.2 and 2.3 of the POSIX.1-2017 Shell Command Language,
      with the quote removal of section 2.6.7 done on the way. */
  function Step(l: Lexer, c: char): Lexer {
    match l
    case Between(done) => if Blank(c) then l else StepWord(done, [], c)
    case InToken(done, token) => if Blank(c) then Between(done + [token]) else StepWord(done, token, c)
    case InQuotes(done, token) =>
      if c == '\0' then GaveUp
      else if c == QUOTE then InToken(done, token)
      else InQuotes(done, token + [c])
    case AfterBackslash(done, token) =>
      if c == '\0' || c == '\n' then GaveUp else InToken(done, token + [c])
    case GaveUp => GaveUp
  }

  function StepWord(done: seq<string>, token: string, c: char): Lexer {
    if c == QUOTE then InQuotes(done, token)
    else if c == '\\' then AfterBackslash(done, token)
    else if Special(c) then GaveUp
    else InToken(done, token + [c])
  }

  function Lex(l: Lexer, text: string): Lexer {
    if text == [] then l else Step(Lex(l, text[..|text| - 1]), text[|text| - 1])
  }

  /** The argument vector a shell passes on for a simple command; None when a quote or an escape is
      left open at the end (an error in the shell), or for text outside the model. */
  function ShellWords(text: string): Option<seq<string>> {
    match Lex(Between([]), text)
    case Between(done) => Some(done)
    case InToken(done, token) => Some(done + [token])
    case _ => None
  }

  /** What std::system sees of a string: the characters before the first NUL. */
  function CString(s: string): string {
    Before(s, '\0')
  }

  lemma {:induction false} LexAppend(l: Lexer, x: string, y: string)
    ensures Lex(l, x + y) == Lex(Lex(l, x), y)
  {
    if y == [] {
      assert x + y == x;
    } else {
      LexAppend(l, x, y[..|y| - 1]);
      assert (x + y)[..|x + y| - 1] == x + y[..|y| - 1];
    }
  }

  predicate HasNul(s: string) {
    '\0' in s
  }

  lemma {:induction false} LexOne(l: Lexer, c: char)
    ensures Lex(l, [c]) == Step(l, c)
  {
    assert [c][..0] == [];
  }

  /** The four characters that stand for a quote add exactly a quote. */
  lemma {:induction false} LexEscapedQuote(done: seq<string>, token: string)
    ensures Lex(InQuotes(done, token), "'\\''") == InQuotes(done, token + [QUOTE])
  {
    var l := InQuotes(done, token);
    assert "'\\''" == ['\''] + (['\\'] + (['\''] + ['\'']));
    LexAppend(l, ['\''], ['\\'] + (['\''] + ['\'']));
    LexOne(l, '\'');
    LexAppend(InToken(done, token), ['\\'], ['\''] + ['\'']);
    LexOne(InToken(done, token), '\\');
    LexAppend(AfterBackslash(done, token), ['\''], ['\'']);
    LexOne(AfterBackslash(done, token), '\'');
    LexOne(InToken(done, token + [QUOTE]), '\'');
  }

  lemma {:induction false} LexBody(done: seq<string>, token: string, value: string)
    requires !HasNul(value)
    ensures Lex(InQuotes(done, token), QuoteBody(value)) == InQuotes(done, token + value)
  {
    hide Lex;
    if value == [] {
      assert token + value == token;
      LexNothing(InQuotes(done, token));
    } else {
      var front, c := value[..|value| - 1], value[|value| - 1];
      LexBody(done, token, front);
      LexLast(done, token + front, c);
      LexAppend(InQuotes(done, token), QuoteBody(front), QuoteBody([c]));
      assert value == front + [c];
      QuoteLast(front, c);
      assert token + value == token + front + [c];
    }
  }

  lemma {:induction false} LexNothing(l: Lexer)
    ensures Lex(l, []) == l
  {
  }

  lemma {:induction false} QuoteLast(front: string, c: char)
    ensures QuoteBody(front + [c]) == QuoteBody(front) + QuoteBody([c])
    ensures QuoteBody([c]) == if c == QUOTE then "'\\''" else [c]
  {
    assert (front + [c])[..|front|] == front && [c][..0] == [];
  }

  lemma {:induction false} LexLast(done: seq<string>, token: string, c: char)
    requires c != '\0'
    ensures Lex(InQuotes(done, token), QuoteBody([c])) == InQuotes(done, token + [c])
  {
    hide Lex;
    QuoteLast([], c);
    if c == QUOTE {
      LexEscapedQuote(done, token);
    } else {
      LexOne(InQuotes(done, token), c);
    }
  }

  lemma {:induction false} LexQuoted(done: seq<string>, value: string)
    requires !HasNul(value)
    ensures Lex(Between(done), Quote(value)) == InToken(done, value)
  {
    var l := Between(done);
    LexAppend(l, "'" + QuoteBody(value), "'");
    LexAppend(l, "'", QuoteBody(value));
    LexOne(l, '\'');
    LexBody(done, [], value);
    assert [] + value == value;
    LexOne(InQuotes(done, value), '\'');
  }

  /** After a command line and a blank the shell has collected exactly its arguments. */
  lemma {:induction false} LexBlank(argv: seq<string>)
    requires argv != []
    requires Lex(Between([]), CommandLine(argv)) == InToken(argv[..|argv| - 1], argv[|argv| - 1])
    ensures Lex(Between([]), CommandLine(argv) + " ") == Between(argv)
  {
    var front, last := argv[..|argv| - 1], argv[|argv| - 1];
    assert front + [last] == argv;
    hide CommandLine, Lex;
    EndToken(CommandLine(argv), front, last);
  }

  lemma {:induction false} EndToken(text: string, front: seq<string>, last: string)
    requires Lex(Between([]), text) == InToken(front, last)
    ensures Lex(Between([]), text + " ") == Between(front + [last])
  {
    LexOne(InToken(front, last), ' ');
    hide Lex;
    LexAppend(Between([]), text, " ");
  }

  lemma {:induction false} LexCommandLine(argv: seq<string>)
    requires argv != [] && forall a | a in argv :: !HasNul(a)
    ensures Lex(Between([]), CommandLine(argv)) == InToken(argv[..|argv| - 1], argv[|argv| - 1])
  {
    var n := |argv| - 1;
    assert argv[n] in argv;
    hide HasNul, Quote, Lex;
    if n == 0 {
      LexQuoted([], argv[0]);
      assert argv[..0] == [];
    } else {
      var rest := argv[..n];
      assert forall a | a in rest :: a in argv;
      LexCommandLine(rest);
      LexBlank(rest);
      LexAppend(Between([]), CommandLine(rest) + " ", Quote(argv[n]));
      LexQuoted(rest, argv[n]);
    }
  }

  // ----- What std::system cuts off -----

  lemma {:induction false} NulOf(c: char, s: string)
    ensures HasNul([c] + s) == (c == '\0' || HasNul(s))
    ensures HasNul(s + [c]) == (c == '\0' || HasNul(s))
  {
  }

  /** The body of a value is the body of its front and the text for its last character. */
  lemma {:induction false} BodyStep(front: string, c: char) returns (last: string)
    ensures last == if c == QUOTE then "'\\''" else [c]
    ensures QuoteBody(front + [c]) == QuoteBody(front) + last
    ensures HasNul(QuoteBody(front) + last) == (c == '\0' || HasNul(QuoteBody(front)))
    ensures HasNul(last) == (c == '\0') && CString(last) == if c == '\0' then [] else last
    ensures CString([c]) == if c == '\0' then [] else [c]
  {
    last := if c == QUOTE then "'\\''" else [c];
    assert (front + [c])[..|front|] == front;
    assert CString([c][1..]) == [];
    BeforeNone("'\\''", '\0');
    if c == '\0' {
      NulOf(c, QuoteBody(front));
    }
  }

  /** Quoting neither adds nor hides a NUL, and commutes with the cut. */
  lemma {:induction false} CutBody(value: string)
    ensures HasNul(QuoteBody(value)) == HasNul(value)
    ensures CString(QuoteBody(value)) == QuoteBody(CString(value))
  {
    if value != [] {
      var front, c := value[..|value| - 1], value[|value| - 1];
      assert value == front + [c];
      CutBody(front);
      CutBodyStep(front, c);
    }
  }

  lemma {:induction false} CutBodyStep(front: string, c: char)
    requires HasNul(QuoteBody(front)) == HasNul(front)
    requires CString(QuoteBody(front)) == QuoteBody(CString(front))
    ensures HasNul(QuoteBody(front + [c])) == HasNul(front + [c])
    ensures CString(QuoteBody(front + [c])) == QuoteBody(CString(front + [c]))
  {
    var last := BodyStep(front, c);
    BeforeAppend(QuoteBody(front), last, '\0');
    BeforeAppend(front, [c], '\0');
    NulOf(c, front);
    hide QuoteBody, Before;
    if !HasNul(front) {
      BeforeNone(front, '\0');
      BeforeNone(QuoteBody(front), '\0');
      if c == '\0' {
        assert front + [] == front && QuoteBody(front) + [] == QuoteBody(front);
      }
    }
  }

  lemma {:induction false} CommandLineNul(argv: seq<string>)
    requires argv != []
    ensures HasNul(CommandLine(argv)) <==> exists a :: a in argv && HasNul(a)
  {
    var n := |argv| - 1;
    CutBody(argv[n]);
    assert argv == argv[..n] + [argv[n]];
    if n > 0 {
      CommandLineNul(argv[..n]);
    }
  }

  /** A NUL in an argument cuts the command line inside the quotes of the first such argument. */
  lemma {:induction false} CutCommandLine(argv: seq<string>)
    requires argv != [] && exists a :: a in argv && HasNul(a)
    ensures Lex(Between([]), CString(CommandLine(argv))).InQuotes?
  {
    var n := |argv| - 1;
    var rest := argv[..n];
    if n > 0 && exists a :: a in rest && HasNul(a) {
      CutCommandLine(rest);
      CommandLineNul(rest);
      BeforeAppend(CommandLine(rest), " " + Quote(argv[n]), '\0');
      assert CommandLine(argv) == CommandLine(rest) + (" " + Quote(argv[n]));
    } else {
      assert HasNul(argv[n]);
      CutLast(argv);
    }
  }

  lemma {:induction false} CutLast(argv: seq<string>)
    requires argv != [] && HasNul(argv[|argv| - 1]) && forall a | a in argv[..|argv| - 1] :: !HasNul(a)
    ensures Lex(Between([]), CString(CommandLine(argv))).InQuotes?
  {
    var n := |argv| - 1;
    var rest := argv[..n];
    if n == 0 {
      CutQuoted([], argv[0]);
    } else {
      var before := CommandLine(rest) + " ";
      assert CommandLine(argv) == before + Quote(argv[n]);
      hide HasNul, CommandLine, Quote, Before, Lex;
      CommandLineNul(rest);
      NulOf(' ', CommandLine(rest));
      LexCommandLine(rest);
      LexBlank(rest);
      BeforeAppend(before, Quote(argv[n]), '\0');
      LexAppend(Between([]), before, CString(Quote(argv[n])));
      CutQuoted(rest, argv[n]);
    }
  }

  lemma {:induction false} CutQuoted(done: seq<string>, value: string)
    requires HasNul(value)
    ensures Lex(Between(done), CString(Quote(value))).InQuotes?
  {
    CutBody(value);
    BeforeAppend("'", QuoteBody(value) + "'", '\0');
    assert Quote(value) == "'" + (QuoteBody(value) + "'");
    BeforeAppend(QuoteBody(value), "'", '\0');
    BeforeClean(value, '\0');
    LexAppend(Between(done), "'", QuoteBody(CString(value)));
    LexOne(Between(done), '\'');
    LexBody(done, [], CString(value));
  }

  /** What run_command hands to std::system splits back into exactly the argument vector it was
      built from, whatever the arguments contain, if and only if none contains a NUL; with a NUL the
      shell sees an unterminated quote. */
  lemma {:induction false} ShellInverse(argv: seq<string>)
    requires argv != []
    ensures ShellWords(CString(CommandLine(argv))) == Some(argv) <==> forall a | a in argv :: !HasNul(a)
    ensures (exists a :: a in argv && HasNul(a)) ==> ShellWords(CString(CommandLine(argv))) == None
  {
    if exists a :: a in argv && HasNul(a) {
      CutCommandLine(argv);
    } else {
      LexWhole(argv);
    }
  }

  lemma {:induction false} LexWhole(argv: seq<string>)
    requires argv != [] && forall a | a in argv :: !HasNul(a)
    ensures ShellWords(CString(CommandLine(argv))) == Some(argv)
  {
    hide CommandLine, Before, Lex;
    CommandLineNul(argv);
    BeforeNone(CommandLine(argv), '\0');
    LexCommandLine(argv);
    var front, last := argv[..|argv| - 1], argv[|argv| - 1];
    assert front + [last] == argv;
    assert Lex(Between([]), CommandLine(argv)) == InToken(front, last);
  }
}
