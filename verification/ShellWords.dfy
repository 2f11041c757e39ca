/** Command lines shown for copying into a shell, and the two ways of splitting them again. */
module ShellWords {
  import opened Text
  import opened Wrappers

  const QUOTE := '\''
  const BACKSLASH := '\\'
  const ESCAPED_QUOTE := "'\\''"

  predicate PlainChar(c: char) {
    'a' <= c <= 'z' || 'A' <= c <= 'Z' || '0' <= c <= '9' || c in "_@%+=:,./-*"
  }

  /** The inside of a quoted value: every quote is closed, escaped and reopened. */
  function Escaped(value: string): string {
    Replace(value, QUOTE, ESCAPED_QUOTE)
  }

  /** `shell_quote`. */
  function ShellQuote(value: string): string {
    [QUOTE] + Escaped(value) + [QUOTE]
  }

  predicate Plain(value: string) {
    value != [] && forall i :: 0 <= i < |value| ==> PlainChar(value[i])
  }

  function FormatArgument(value: string): string {
    if Plain(value) then value else ShellQuote(value)
  }

  function FormatArguments(args: seq<string>): string {
    if args == [] then [] else [' '] + FormatArgument(args[0]) + FormatArguments(args[1..])
  }

  function FormatCommandLine(program: string, args: seq<string>): string {
    program + FormatArguments(args)
  }

  /** An argument is shown as it is exactly when it is not empty and has only ASCII letters, digits and `_@%+=:,./-*`. */
  lemma PlainStays(value: string)
    ensures FormatArgument(value) == value
       <==> value != [] && forall i :: 0 <= i < |value| ==>
              var x := value[i] as int;
              48 <= x <= 57 || 65 <= x <= 90 || 97 <= x <= 122 || value[i] in "_@%+=:,./-*"
  {
    if !Plain(value) { EscapedIsNoShorter(value); }
  }

  lemma {:induction false} EscapedIsNoShorter(value: string)
    ensures |Escaped(value)| >= |value|
    decreases |value|
  {
    if value != [] { EscapedIsNoShorter(value[1..]); }
  }

  // ----------------------------------------------------------- POSIX quoting

  datatype Mode = Bare | Single | Double

  predicate Blank(c: char) {
    c == ' ' || c == '\t' || c == '\n'
  }

  /** Characters that must be quoted to stand for themselves anywhere in a word. */
  predicate Operator(c: char) {
    c in "|&;<>()$`?[#~"
  }

  /** A character that stands for itself outside quotes. */
  predicate Ordinary(c: char) {
    !Blank(c) && !Operator(c) && c != QUOTE && c != '"' && c != BACKSLASH
  }

  function Grow(word: Option<string>, c: char): Option<string> {
    Some((if word.Some? then word.value else []) + [c])
  }

  function Begin(word: Option<string>): Option<string> {
    if word.Some? then word else Some([])
  }

  function Before(word: string, words: Option<seq<string>>): Option<seq<string>> {
    if words.None? then None else Some([word] + words.value)
  }

  /**
   The words of `s` by section 2.2 (Quoting) of the POSIX.1-2017 Shell Command
   Language, with `word` begun before; None when a quote is not closed or a
   character with another meaning stands unquoted.
   */
  function Words(s: string, word: Option<string>, mode: Mode): Option<seq<string>>
    decreases |s|
  {
    if s == [] then
      if !mode.Bare? then None else Some(if word.Some? then [word.value] else [])
    else
      var c, rest := s[0], s[1..];
      match mode
      case Single =>
        if c == QUOTE then Words(rest, Begin(word), Bare) else Words(rest, Grow(word, c), Single)
      case Double =>
        if c == '"' then Words(rest, Begin(word), Bare)
        else if c == '$' || c == '`' then None
        else if c == BACKSLASH && rest != [] && rest[0] == '\n' then Words(rest[1..], word, Double)
        else if c == BACKSLASH && rest != [] && rest[0] in "$`\"\\" then Words(rest[1..], Grow(word, rest[0]), Double)
        else Words(rest, Grow(word, c), Double)
      case Bare =>
        if Blank(c) then
          if word.Some? then Before(word.value, Words(rest, None, Bare)) else Words(rest, None, Bare)
        else if c == QUOTE then Words(rest, Begin(word), Single)
        else if c == '"' then Words(rest, Begin(word), Double)
        else if c == BACKSLASH then
          if rest == [] then None
          else if rest[0] == '\n' then Words(rest[1..], word, Bare)
          else Words(rest[1..], Grow(word, rest[0]), Bare)
        else if Operator(c) then None
        else Words(rest, Grow(word, c), Bare)
  }

  function PosixSplit(s: string): Option<seq<string>> {
    Words(s, None, Bare)
  }

  lemma PlainIsOrdinary(c: char)
    requires PlainChar(c)
    ensures Ordinary(c) && !IsWhitespace(c)
  {
  }

  /** The first character of a word outside quotes. */
  lemma WordsBegin(s: string)
    requires s != [] && Ordinary(s[0])
    ensures Words(s, None, Bare) == Words(s[1..], Some([s[0]]), Bare)
  {
    assert [] + [s[0]] == [s[0]];
  }

  lemma {:induction false} WordsOrdinary(value: string, rest: string, word: string)
    requires forall i :: 0 <= i < |value| ==> Ordinary(value[i])
    ensures Words(value + rest, Some(word), Bare) == Words(rest, Some(word + value), Bare)
    decreases |value|
  {
    if value == [] {
      assert value + rest == rest && word + value == word;
    } else {
      var s := value + rest;
      assert s[0] == value[0] && s[1..] == value[1..] + rest;
      WordsOrdinary(value[1..], rest, word + [value[0]]);
      assert word + [value[0]] + value[1..] == word + value;
    }
  }

  lemma EscapedStep(value: string, rest: string)
    requires value != []
    ensures Escaped(value) + rest == (if value[0] == QUOTE then ESCAPED_QUOTE else [value[0]]) + (Escaped(value[1..]) + rest)
  {
  }

  lemma {:induction false} WordsEscaped(value: string, rest: string, word: string)
    ensures Words(Escaped(value) + ([QUOTE] + rest), Some(word), Single) == Words(rest, Some(word + value), Bare)
    decreases |value|
  {
    var close := [QUOTE] + rest;
    if value == [] {
      assert Escaped(value) + close == close && close[1..] == rest;
      assert word + value == word;
    } else {
      var tail := Escaped(value[1..]) + close;
      EscapedStep(value, close);
      WordsStepInQuotes(value[0], tail, word);
      hide Words;
      hide Escaped;
      WordsEscaped(value[1..], rest, word + [value[0]]);
      assert word + [value[0]] + value[1..] == word + value;
    }
  }

  lemma WordsStepInQuotes(c: char, tail: string, word: string)
    ensures
      var shown := if c == QUOTE then ESCAPED_QUOTE else [c];
      Words(shown + tail, Some(word), Single) == Words(tail, Some(word + [c]), Single)
  {
    if c == QUOTE {
      var s := ESCAPED_QUOTE + tail;
      var afterClose, escape, reopen := s[1..], s[1..][1..], s[1..][1..][1..];
      assert s[0] == QUOTE && afterClose[0] == BACKSLASH && escape[0] == QUOTE && reopen[0] == QUOTE;
      assert reopen[1..] == tail;
      assert Words(s, Some(word), Single) == Words(afterClose, Some(word), Bare);
      assert Words(afterClose, Some(word), Bare) == Words(reopen, Some(word + [c]), Bare);
    } else {
      assert ([c] + tail)[1..] == tail;
    }
  }

  lemma QuotedThen(value: string, rest: string)
    ensures ShellQuote(value) + rest == [QUOTE] + (Escaped(value) + ([QUOTE] + rest))
  {
  }

  lemma WordsReopen(s: string)
    ensures Words([QUOTE] + s, None, Bare) == Words(s, Some([]), Single)
  {
    assert ([QUOTE] + s)[1..] == s;
  }

  lemma WordsWord(value: string, rest: string)
    requires value != [] && forall i :: 0 <= i < |value| ==> Ordinary(value[i])
    ensures Words(value + rest, None, Bare) == Words(rest, Some(value), Bare)
  {
    var s := value + rest;
    assert s[0] == value[0] && s[1..] == value[1..] + rest;
    WordsBegin(s);
    hide Words;
    WordsOrdinary(value[1..], rest, [value[0]]);
    assert [value[0]] + value[1..] == value;
  }

  lemma WordsBlank(s: string, word: string)
    ensures Words([' '] + s, Some(word), Bare) == Before(word, Words(s, None, Bare))
  {
    assert ([' '] + s)[1..] == s;
  }

  lemma WordsArgument(value: string, rest: string)
    ensures Words(FormatArgument(value) + rest, None, Bare) == Words(rest, Some(value), Bare)
  {
    if Plain(value) {
      forall i | 0 <= i < |value| ensures Ordinary(value[i]) { PlainIsOrdinary(value[i]); }
      WordsWord(value, rest);
    } else {
      QuotedThen(value, rest);
      WordsReopen(Escaped(value) + ([QUOTE] + rest));
      hide Words;
      WordsEscaped(value, rest, []);
      assert [] + value == value;
    }
  }

  lemma {:induction false} WordsArguments(args: seq<string>, word: string)
    ensures Words(FormatArguments(args), Some(word), Bare) == Some([word] + args)
    decreases |args|
  {
    if args != [] {
      var rest := FormatArguments(args[1..]);
      assert FormatArguments(args) == [' '] + (FormatArgument(args[0]) + rest);
      WordsBlank(FormatArgument(args[0]) + rest, word);
      hide Words;
      WordsArgument(args[0], rest);
      WordsArguments(args[1..], args[0]);
      assert [args[0]] + args[1..] == args;
    } else {
      assert [word] + args == [word];
    }
  }

  predicate AllOrdinary(s: string) {
    forall i :: 0 <= i < |s| ==> Ordinary(s[i])
  }

  /** A shell reads back exactly the program and its arguments, whatever the arguments contain. */
  lemma PosixRoundTrip(program: string, args: seq<string>)
    requires program != [] && AllOrdinary(program)
    ensures PosixSplit(FormatCommandLine(program, args)) == Some([program] + args)
  {
    WordsWord(program, FormatArguments(args));
    WordsArguments(args, program);
  }

  function Weight(words: seq<string>): nat {
    if words == [] then 0 else |words[0]| + Weight(words[1..])
  }

  function Begun(word: Option<string>): nat {
    if word.Some? then |word.value| else 0
  }

  /** Reading words adds no characters, and spends at least one on anything that is not ordinary. */
  lemma {:induction false} WordsWeigh(s: string, word: Option<string>, mode: Mode)
    requires Words(s, word, mode).Some?
    ensures Weight(Words(s, word, mode).value) <= Begun(word) + |s|
    ensures !mode.Bare? || !AllOrdinary(s) ==> Weight(Words(s, word, mode).value) < Begun(word) + |s|
    decreases |s|
  {
    if s == [] {
      WeightOne(word);
    } else if mode.Bare? && Ordinary(s[0]) {
      assert Words(s, word, mode) == Words(s[1..], Grow(word, s[0]), Bare);
      assert AllOrdinary(s[1..]) ==> AllOrdinary(s);
      hide Words;
      WordsWeigh(s[1..], Grow(word, s[0]), Bare);
    } else {
      WeighOther(s, word, mode);
    }
  }

  lemma WeightOne(word: Option<string>)
    ensures Weight(if word.Some? then [word.value] else []) == Begun(word)
  {
    if word.Some? { assert [word.value][1..] == []; }
  }

  lemma {:induction false} WeighOther(s: string, word: Option<string>, mode: Mode)
    requires s != [] && Words(s, word, mode).Some? && !(mode.Bare? && Ordinary(s[0]))
    ensures Weight(Words(s, word, mode).value) < Begun(word) + |s|
    decreases |s|, 1
  {
    var c, rest := s[0], s[1..];
    if mode.Single? {
      if c == QUOTE { WordsWeigh(rest, Begin(word), Bare); } else { WordsWeigh(rest, Grow(word, c), Single); }
    } else if mode.Double? {
      WeighDouble(s, word);
    } else if Blank(c) {
      WordsWeigh(rest, None, Bare);
      if word.Some? { WeightBefore(word.value, Words(rest, None, Bare).value); }
    } else if c == QUOTE {
      WordsWeigh(rest, Begin(word), Single);
    } else if c == '"' {
      WordsWeigh(rest, Begin(word), Double);
    } else {
      assert c == BACKSLASH && rest != [];
      WordsWeigh(rest[1..], if rest[0] == '\n' then word else Grow(word, rest[0]), Bare);
    }
  }

  lemma WeightBefore(word: string, words: seq<string>)
    ensures Weight([word] + words) == |word| + Weight(words)
  {
    assert ([word] + words)[1..] == words;
  }

  lemma {:induction false} WeighDouble(s: string, word: Option<string>)
    requires s != [] && Words(s, word, Double).Some?
    ensures Weight(Words(s, word, Double).value) < Begun(word) + |s|
    decreases |s|, 0
  {
    var c, rest := s[0], s[1..];
    if c == '"' {
      WordsWeigh(rest, Begin(word), Bare);
    } else if c == BACKSLASH && rest != [] && rest[0] == '\n' {
      WordsWeigh(rest[1..], word, Double);
    } else if c == BACKSLASH && rest != [] && rest[0] in "$`\"\\" {
      WordsWeigh(rest[1..], Grow(word, rest[0]), Double);
    } else {
      WordsWeigh(rest, Grow(word, c), Double);
    }
  }

  /**
   The program name is shown unquoted. It and every list of arguments survive
   exactly when it is not empty and holds no blank and no character that means
   something to the shell.
   */
  lemma ProgramSurvives(program: string)
    ensures (forall args :: PosixSplit(FormatCommandLine(program, args)) == Some([program] + args))
       <==> program != [] && AllOrdinary(program)
  {
    if program != [] && AllOrdinary(program) {
      forall args ensures PosixSplit(FormatCommandLine(program, args)) == Some([program] + args) {
        PosixRoundTrip(program, args);
      }
    } else {
      assert FormatCommandLine(program, []) == program;
      if PosixSplit(program).Some? {
        WordsWeigh(program, None, Bare);
        WeightOne(Some(program));
      }
      assert PosixSplit(FormatCommandLine(program, [])) != Some([program] + []);
    }
  }

  /** `shell_quote` makes any value, even an empty one, a single word. */
  lemma ShellQuoteIsOneWord(value: string)
    ensures PosixSplit(ShellQuote(value)) == Some([value])
  {
    QuotedThen(value, []);
    assert ShellQuote(value) + [] == ShellQuote(value);
    WordsReopen(Escaped(value) + ([QUOTE] + []));
    WordsEscaped(value, [], []);
    assert [] + value == value;
  }

  // ------------------------------------------------- the repository's tokens

  datatype Reader = Reader(tokens: seq<string>, current: string, quote: Option<char>, escaped: bool)

  function Read(r: Reader, c: char): Reader {
    if r.escaped then r.(current := r.current + [c], escaped := false)
    else if c == BACKSLASH then r.(escaped := true)
    else if r.quote.Some? then
      if c == r.quote.value then r.(quote := None) else r.(current := r.current + [c])
    else if c == QUOTE || c == '"' then r.(quote := Some(c))
    else if IsWhitespace(c) then
      if r.current != [] then r.(tokens := r.tokens + [r.current], current := []) else r
    else r.(current := r.current + [c])
  }

  function ReadAll(r: Reader, s: string): Reader
    decreases |s|
  {
    if s == [] then r else ReadAll(Read(r, s[0]), s[1..])
  }

  function Tokens(r: Reader): seq<string> {
    if r.current != [] then r.tokens + [r.current] else r.tokens
  }

  const START := Reader([], [], None, false)

  method ShellTokens(content: string) returns (tokens: seq<string>)
    ensures tokens == Tokens(ReadAll(START, content))
  {
    tokens := [];
    var current: string := [];
    var quote: Option<char> := None;
    var escaped := false;
    for i := 0 to |content|
      invariant ReadAll(Reader(tokens, current, quote, escaped), content[i..]) == ReadAll(START, content)
    {
      var c := content[i];
      assert content[i..][0] == c && content[i..][1..] == content[i + 1..];
      if escaped {
        current := current + [c];
        escaped := false;
        continue;
      }
      if c == BACKSLASH {
        escaped := true;
        continue;
      }
      if quote.Some? {
        if c == quote.value {
          quote := None;
        } else {
          current := current + [c];
        }
        continue;
      }
      if c == QUOTE || c == '"' {
        quote := Some(c);
        continue;
      }
      if IsWhitespace(c) {
        if current != [] {
          tokens := tokens + [current];
          current := [];
        }
        continue;
      }
      current := current + [c];
    }
    if current != [] {
      tokens := tokens + [current];
    }
  }

  lemma {:induction false} ReadConcat(r: Reader, a: string, b: string)
    ensures ReadAll(r, a + b) == ReadAll(ReadAll(r, a), b)
    decreases |a|
  {
    if a == [] {
      assert a + b == b;
    } else {
      assert (a + b)[0] == a[0] && (a + b)[1..] == a[1..] + b;
      ReadConcat(Read(r, a[0]), a[1..], b);
    }
  }

  /** Text outside quotes that only adds to the current token. */
  lemma {:induction false} ReadBare(r: Reader, s: string)
    requires !r.escaped && r.quote.None?
    requires forall i :: 0 <= i < |s| ==> s[i] != BACKSLASH && s[i] != QUOTE && s[i] != '"' && !IsWhitespace(s[i])
    ensures ReadAll(r, s) == r.(current := r.current + s)
    decreases |s|
  {
    if s == [] {
      assert r.current + s == r.current;
    } else {
      ReadBare(Read(r, s[0]), s[1..]);
      assert r.current + [s[0]] + s[1..] == r.current + s;
    }
  }

  function InQuotes(tokens: seq<string>, current: string): Reader {
    Reader(tokens, current, Some(QUOTE), false)
  }

  lemma ReadEscapedQuote(tokens: seq<string>, current: string)
    ensures ReadAll(InQuotes(tokens, current), ESCAPED_QUOTE) == InQuotes(tokens, current + [QUOTE])
  {
    var s := ESCAPED_QUOTE;
    var a, b, c := [BACKSLASH, QUOTE, QUOTE], [QUOTE, QUOTE], [QUOTE];
    assert s[0] == QUOTE && s[1..] == a && a[1..] == b && b[1..] == c && c[1..] == [];
    var r0 := InQuotes(tokens, current);
    var r1 := Read(r0, s[0]);
    var r2 := Read(r1, a[0]);
    var r3 := Read(r2, b[0]);
    assert ReadAll(r0, s) == ReadAll(r1, a) == ReadAll(r2, b) == ReadAll(r3, c);
    assert ReadAll(r3, c) == ReadAll(Read(r3, c[0]), []);
  }

  /** The inside of a quoted value without backslashes is read back as it is. */
  lemma {:induction false} ReadEscaped(value: string, tokens: seq<string>, current: string)
    requires BACKSLASH !in value
    ensures ReadAll(InQuotes(tokens, current), Escaped(value)) == InQuotes(tokens, current + value)
    decreases |value|
  {
    if value == [] {
      assert current + value == current;
    } else {
      var c, rest := value[0], value[1..];
      var shown := if c == QUOTE then ESCAPED_QUOTE else [c];
      EscapedStep(value, []);
      assert Escaped(value) + [] == Escaped(value) && Escaped(rest) + [] == Escaped(rest);
      ReadConcat(InQuotes(tokens, current), shown, Escaped(rest));
      if c == QUOTE {
        ReadEscapedQuote(tokens, current);
      } else {
        ReadShown(InQuotes(tokens, current), c);
      }
      ReadEscaped(rest, tokens, current + [c]);
      assert current + [c] + rest == current + value;
    }
  }

  lemma ReadShown(r: Reader, c: char)
    ensures ReadAll(r, [c]) == Read(r, c)
  {
    assert [c][1..] == [];
  }

  function Between(tokens: seq<string>, current: string): Reader {
    Reader(tokens, current, None, false)
  }

  lemma ReadArgument(value: string, tokens: seq<string>)
    requires BACKSLASH !in value
    ensures ReadAll(Between(tokens, []), FormatArgument(value)) == Between(tokens, value)
  {
    if Plain(value) {
      forall i | 0 <= i < |value| ensures Ordinary(value[i]) && !IsWhitespace(value[i]) { PlainIsOrdinary(value[i]); }
      ReadBare(Between(tokens, []), value);
      assert [] + value == value;
    } else {
      var inside := Escaped(value);
      assert FormatArgument(value) == [QUOTE] + (inside + [QUOTE]);
      ReadConcat(Between(tokens, []), [QUOTE], inside + [QUOTE]);
      ReadShown(Between(tokens, []), QUOTE);
      ReadConcat(InQuotes(tokens, []), inside, [QUOTE]);
      ReadEscaped(value, tokens, []);
      assert [] + value == value;
      ReadShown(InQuotes(tokens, value), QUOTE);
    }
  }

  /** The tokens once the current one is complete. */
  function Closed(tokens: seq<string>, current: string): seq<string> {
    if current == [] then tokens else tokens + [current]
  }

  lemma ReadBlank(tokens: seq<string>, current: string)
    ensures ReadAll(Between(tokens, current), [' ']) == Between(Closed(tokens, current), [])
  {
    ReadShown(Between(tokens, current), ' ');
  }

  predicate Survives(arg: string) {
    arg != [] && BACKSLASH !in arg
  }

  /** One more argument on the line: the current token is complete and the argument is read. */
  lemma ReadNext(arg: string, rest: string, tokens: seq<string>, current: string)
    requires BACKSLASH !in arg && current != []
    ensures ReadAll(Between(tokens, current), [' '] + (FormatArgument(arg) + rest))
         == ReadAll(Between(tokens + [current], arg), rest)
  {
    ReadConcat(Between(tokens, current), [' '], FormatArgument(arg) + rest);
    ReadBlank(tokens, current);
    ReadConcat(Between(tokens + [current], []), FormatArgument(arg), rest);
    ReadArgument(arg, tokens + [current]);
  }

  lemma FormatFirst(args: seq<string>)
    requires args != []
    ensures FormatArguments(args) == [' '] + (FormatArgument(args[0]) + FormatArguments(args[1..]))
  {
  }

  lemma {:induction false} ReadArguments(args: seq<string>, tokens: seq<string>, current: string)
    requires forall a :: a in args ==> Survives(a)
    requires current != []
    ensures Tokens(ReadAll(Between(tokens, current), FormatArguments(args))) == tokens + [current] + args
    decreases |args|
  {
    if args != [] {
      FormatFirst(args);
      hide ReadAll, FormatArguments, FormatArgument;
      var arg, rest := args[0], FormatArguments(args[1..]);
      assert Survives(arg);
      ReadNext(arg, rest, tokens, current);
      ReadArguments(args[1..], tokens + [current], arg);
      HeadAndTail(tokens + [current], args);
    } else {
      assert tokens + [current] + args == tokens + [current];
    }
  }

  // ------------------------------------------- when the tokens are different

  /** Tokens already read stay, and the current one only grows. */
  lemma {:induction false} TokensGrow(r: Reader, s: string)
    ensures r.tokens <= Tokens(ReadAll(r, s))
    ensures r.current != [] ==>
              |Tokens(ReadAll(r, s))| > |r.tokens| && r.current <= Tokens(ReadAll(r, s))[|r.tokens|]
    decreases |s|
  {
    if s != [] {
      TokensGrow(Read(r, s[0]), s[1..]);
    }
  }

  lemma {:induction false} NoEmptyTokens(r: Reader, s: string)
    requires [] !in r.tokens
    ensures [] !in Tokens(ReadAll(r, s))
    decreases |s|
  {
    if s != [] {
      NoEmptyTokens(Read(r, s[0]), s[1..]);
    }
  }

  /** The token at this position will not be `expected`. */
  ghost predicate Misses(r: Reader, s: string, position: nat, expected: string) {
    var tokens := Tokens(ReadAll(r, s));
    position < |tokens| && tokens[position] != expected
  }

  lemma WrongPrefix(r: Reader, s: string, expected: string)
    requires r.current != [] && !(r.current <= expected)
    ensures Misses(r, s, |r.tokens|, expected)
  {
    TokensGrow(r, s);
  }

  /** The first character that follows a value inside quotes. */
  lemma FollowingChar(value: string, rest: string)
    ensures
      var s := Escaped(value) + ([QUOTE] + rest);
      s != [] && s[0] == if value == [] then QUOTE else value[0]
  {
    if value != [] {
      EscapedStep(value, [QUOTE] + rest);
    }
  }

  lemma EscapedBackslash(value: string, rest: string)
    requires value != [] && value[0] == BACKSLASH
    ensures Escaped(value) + rest == [BACKSLASH] + (Escaped(value[1..]) + rest)
  {
    EscapedStep(value, rest);
  }

  lemma ReadTwo(r: Reader, a: char, b: char, s: string)
    ensures ReadAll(r, [a] + ([b] + s)) == ReadAll(Read(Read(r, a), b), s)
  {
    assert ([a] + ([b] + s))[1..] == [b] + s && ([b] + s)[1..] == s;
  }

  /** Where a run of backslashes in an argument ends. */
  ghost predicate RunEnd(arg: string, from: nat, end: nat) {
    && from <= end <= |arg|
    && (forall i :: from <= i < end ==> arg[i] == BACKSLASH)
    && (end < |arg| ==> arg[end] != BACKSLASH)
  }

  /**
   Inside a run of backslashes every second one is lost, so the token falls behind
   the argument: it still lacks a backslash when the next other character arrives.
   */
  lemma {:induction false} BehindMisses(
    arg: string, at: nat, end: nat, rest: string, tokens: seq<string>, current: string)
    requires |current| <= at <= end && RunEnd(arg, |current|, end) && |current| < end
    requires current <= arg && (at == end ==> current != [])
    requires rest == [] || rest[0] == ' '
    ensures Misses(InQuotes(tokens, current), Escaped(arg[at..]) + ([QUOTE] + rest), |tokens|, arg)
    decreases end - at
  {
    var value, close, r := arg[at..], [QUOTE] + rest, InQuotes(tokens, current);
    if at == end {
      LateMisses(arg, at, rest, tokens, current);
    } else {
      EscapedBackslash(value, close);
      var tail := arg[at + 1..];
      assert value[1..] == tail;
      if at + 1 == end {
        FollowingChar(tail, rest);
        var s := Escaped(tail) + close;
        assert s == [s[0]] + s[1..];
        assert arg[|current|] == BACKSLASH && s[0] != BACKSLASH;
        assert (current + [s[0]])[|current|] == s[0];
        ReadTwo(r, BACKSLASH, s[0], s[1..]);
        WrongPrefix(InQuotes(tokens, current + [s[0]]), s[1..], arg);
      } else {
        EscapedBackslash(tail, close);
        assert tail[1..] == arg[at + 2..];
        ReadTwo(r, BACKSLASH, BACKSLASH, Escaped(arg[at + 2..]) + close);
        BehindMisses(arg, at + 2, end, rest, tokens, current + [BACKSLASH]);
      }
    }
  }

  /** Past the run and still behind: the next character, or the end of the token, is wrong. */
  lemma LateMisses(arg: string, at: nat, rest: string, tokens: seq<string>, current: string)
    requires |current| < at <= |arg| && current <= arg && current != [] && arg[|current|] == BACKSLASH
    requires at < |arg| ==> arg[at] != BACKSLASH
    requires rest == [] || rest[0] == ' '
    ensures Misses(InQuotes(tokens, current), Escaped(arg[at..]) + ([QUOTE] + rest), |tokens|, arg)
  {
    var value, close, r := arg[at..], [QUOTE] + rest, InQuotes(tokens, current);
    if value == [] {
      assert Escaped(value) + close == close && close[1..] == rest;
      if rest != [] {
        assert ReadAll(Between(tokens, current), rest) == ReadAll(Read(Between(tokens, current), ' '), rest[1..]);
        TokensGrow(Between(tokens + [current], []), rest[1..]);
      }
    } else {
      var c, tail := value[0], Escaped(value[1..]) + close;
      EscapedStep(value, close);
      if c == QUOTE {
        ReadConcat(r, ESCAPED_QUOTE, tail);
        ReadEscapedQuote(tokens, current);
      } else {
        ReadConcat(r, [c], tail);
        ReadShown(r, c);
      }
      WrongPrefix(InQuotes(tokens, current + [c]), tail, arg);
    }
  }

  lemma {:induction false} FindRunEnd(arg: string, from: nat) returns (end: nat)
    requires from <= |arg|
    ensures RunEnd(arg, from, end)
    decreases |arg| - from
  {
    if from == |arg| || arg[from] != BACKSLASH {
      end := from;
    } else {
      end := FindRunEnd(arg, from + 1);
    }
  }

  lemma {:induction false} FindBackslash(arg: string) returns (k: nat)
    requires BACKSLASH in arg
    ensures k < |arg| && arg[k] == BACKSLASH && BACKSLASH !in arg[..k]
  {
    if arg[0] == BACKSLASH {
      k := 0;
    } else {
      k := FindBackslash(arg[1..]);
      k := k + 1;
      assert arg[..k] == [arg[0]] + arg[1..][..k - 1];
    }
  }

  /** An argument with a backslash is never read back as it was. */
  lemma BackslashIsLost(arg: string, rest: string, tokens: seq<string>)
    requires BACKSLASH in arg && (rest == [] || rest[0] == ' ')
    ensures Misses(Between(tokens, []), FormatArgument(arg) + rest, |tokens|, arg)
  {
    var k := FindBackslash(arg);
    var end := FindRunEnd(arg, k);
    if Plain(arg) { PlainIsOrdinary(arg[k]); }
    var p, v, close := arg[..k], arg[k..], [QUOTE] + rest;
    assert arg == p + v;
    ReplaceConcat(p, v, QUOTE, ESCAPED_QUOTE);
    var s := Escaped(v) + close;
    assert FormatArgument(arg) + rest == [QUOTE] + (Escaped(p) + s) by {
      QuotedThen(arg, rest);
      assert Escaped(arg) == Escaped(p) + Escaped(v);
      assert Escaped(p) + Escaped(v) + close == Escaped(p) + s;
    }
    ReadConcat(Between(tokens, []), [QUOTE], Escaped(p) + s);
    ReadShown(Between(tokens, []), QUOTE);
    ReadConcat(InQuotes(tokens, []), Escaped(p), s);
    ReadEscaped(p, tokens, []);
    assert [] + p == p;
    BehindMisses(arg, k, end, rest, tokens, p);
  }

  lemma ArgumentsAreSeparated(args: seq<string>)
    ensures FormatArguments(args) == [] || FormatArguments(args)[0] == ' '
  {
  }

  lemma {:induction false} BackslashBreaksLine(args: seq<string>, tokens: seq<string>, current: string)
    requires current != [] && [] !in args && exists a :: a in args && BACKSLASH in a
    ensures Tokens(ReadAll(Between(tokens, current), FormatArguments(args))) != tokens + [current] + args
    decreases |args|
  {
    FormatFirst(args);
    ArgumentsAreSeparated(args[1..]);
    hide ReadAll, FormatArguments, FormatArgument;
    var arg, rest := args[0], FormatArguments(args[1..]);
    if BACKSLASH in arg {
      ReadConcat(Between(tokens, current), [' '], FormatArgument(arg) + rest);
      ReadBlank(tokens, current);
      BackslashIsLost(arg, rest, tokens + [current]);
      assert (tokens + [current] + args)[|tokens| + 1] == arg;
    } else {
      ReadNext(arg, rest, tokens, current);
      assert exists a :: a in args[1..] && BACKSLASH in a by {
        var a :| a in args && BACKSLASH in a;
        assert a in args[1..];
      }
      assert args == [arg] + args[1..] && arg in args;
      BackslashBreaksLine(args[1..], tokens + [current], arg);
      HeadAndTail(tokens + [current], args);
    }
  }

  /** A program name that the tokenizer reads as one token. */
  predicate ReadableProgram(program: string) {
    program != [] && AllReadable(program)
  }

  predicate Special(c: char) {
    c == BACKSLASH || c == QUOTE || c == '"' || IsWhitespace(c)
  }

  predicate AllReadable(s: string) {
    forall i :: 0 <= i < |s| ==> !Special(s[i])
  }

  lemma ReadProgram(program: string, args: seq<string>)
    requires ReadableProgram(program)
    ensures ReadAll(START, FormatCommandLine(program, args)) == ReadAll(Between([], program), FormatArguments(args))
  {
    ReadConcat(START, program, FormatArguments(args));
    ReadBare(START, program);
    assert [] + program == program;
  }

  /**
   The repository's own tokenizer returns a readable program and its arguments
   exactly when no argument is empty or contains a backslash.
   */
  lemma TokensRoundTrip(program: string, args: seq<string>)
    requires ReadableProgram(program)
    ensures Tokens(ReadAll(START, FormatCommandLine(program, args))) == [program] + args
       <==> forall a :: a in args ==> Survives(a)
  {
    ReadProgram(program, args);
    assert [] + [program] + args == [program] + args;
    if forall a :: a in args ==> Survives(a) {
      ReadArguments(args, [], program);
    } else if [] in args {
      NoEmptyTokens(START, FormatCommandLine(program, args));
      assert [] in [program] + args;
    } else {
      BackslashBreaksLine(args, [], program);
    }
  }

  lemma {:induction false} WeightSnoc(words: seq<string>, word: string)
    ensures Weight(words + [word]) == Weight(words) + |word|
    decreases |words|
  {
    if words == [] {
      assert [word][1..] == [] && words + [word] == [word];
    } else {
      assert (words + [word])[1..] == words[1..] + [word];
      WeightSnoc(words[1..], word);
    }
  }

  function Held(r: Reader): nat {
    Weight(r.tokens) + |r.current|
  }

  /** One character adds at most itself, and a special one outside quotes adds nothing. */
  lemma ReadWeighs(r: Reader, c: char)
    ensures Held(Read(r, c)) <= Held(r) + 1
    ensures !r.escaped && r.quote.None? && Special(c) ==> Held(Read(r, c)) == Held(r)
    ensures !r.escaped && r.quote.None? && !Special(c) ==> !Read(r, c).escaped && Read(r, c).quote.None?
  {
    WeightSnoc(r.tokens, r.current);
    assert Weight([]) == 0;
  }

  lemma {:induction false} ReadAllWeighs(r: Reader, s: string)
    ensures Held(ReadAll(r, s)) <= Held(r) + |s|
    ensures !r.escaped && r.quote.None? && !AllReadable(s) ==> Held(ReadAll(r, s)) < Held(r) + |s|
    decreases |s|
  {
    if s != [] {
      ReadWeighs(r, s[0]);
      assert AllReadable(s[1..]) && !Special(s[0]) ==> AllReadable(s);
      hide Read, AllReadable, Special;
      ReadAllWeighs(Read(r, s[0]), s[1..]);
    }
  }

  lemma TokensWeigh(r: Reader)
    ensures Weight(Tokens(r)) == Held(r)
  {
    WeightSnoc(r.tokens, r.current);
  }

  /** Without arguments the tokenizer returns the program only when it is readable. */
  lemma ReadableAlone(program: string)
    ensures Tokens(ReadAll(START, FormatCommandLine(program, []))) == [program] <==> ReadableProgram(program)
  {
    assert FormatCommandLine(program, []) == program;
    if ReadableProgram(program) {
      TokensRoundTrip(program, []);
      assert [program] + [] == [program];
    } else if program == [] {
      assert ReadAll(START, program) == START;
    } else {
      ReadAllWeighs(START, program);
      TokensWeigh(ReadAll(START, program));
      WeightOne(Some(program));
    }
  }

  /**
   The tokenizer returns program and arguments for exactly the lists without empty
   arguments and backslashes if and only if the program is readable.
   */
  lemma ReadablePrograms(program: string)
    ensures
      (forall args :: Tokens(ReadAll(START, FormatCommandLine(program, args))) == [program] + args
                 <==> forall a :: a in args ==> Survives(a))
      <==> ReadableProgram(program)
  {
    if ReadableProgram(program) {
      forall args
        ensures Tokens(ReadAll(START, FormatCommandLine(program, args))) == [program] + args
           <==> forall a :: a in args ==> Survives(a)
      {
        TokensRoundTrip(program, args);
      }
    } else {
      ReadableAlone(program);
      assert [program] + [] == [program];
      assert Tokens(ReadAll(START, FormatCommandLine(program, []))) != [program] + [];
    }
  }
}
