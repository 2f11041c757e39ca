/** Quoting the arguments of a scheduled task for the Windows command line. */
module WindowsArguments {
  import opened Text
  import opened Wrappers
  import opened XmlText

  /** The argument needs no quotes. */
  predicate Plain(value: string) {
    value != [] && forall i :: 0 <= i < |value| ==> !IsWhitespace(value[i]) && value[i] != '"'
  }

  function Slashes(n: nat): (s: string)
    ensures |s| == n && forall i :: 0 <= i < n ==> s[i] == '\\'
  {
    if n == 0 then [] else Slashes(n - 1) + ['\\']
  }

  /** The quoted form of the rest of an argument, with `n` backslashes read and not yet written. */
  function Quoted(value: string, n: nat): string
    decreases |value|
  {
    if value == [] then Slashes(2 * n) + ['"']
    else if value[0] == '\\' then Quoted(value[1..], n + 1)
    else if value[0] == '"' then Slashes(2 * n + 1) + ['"'] + Quoted(value[1..], 0)
    else Slashes(n) + [value[0]] + Quoted(value[1..], 0)
  }

  function Quote(value: string): string {
    if Plain(value) then value else ['"'] + Quoted(value, 0)
  }

  method WindowsQuoteArgument(value: string) returns (quoted: string)
    ensures quoted == Quote(value)
  {
    if Plain(value) {
      return value;
    }
    quoted := "\"";
    var backslashes := 0;
    for i := 0 to |value|
      invariant backslashes >= 0
      invariant quoted + Quoted(value[i..], backslashes) == Quote(value)
    {
      ghost var before := quoted;
      var character := value[i];
      assert value[i..][0] == character && value[i..][1..] == value[i + 1..];
      if character == '\\' {
        backslashes := backslashes + 1;
      } else if character == '"' {
        quoted := quoted + (Slashes(backslashes * 2 + 1) + ['"']);
        backslashes := 0;
      } else {
        quoted := quoted + (Slashes(backslashes) + [character]);
        backslashes := 0;
      }
    }
    quoted := quoted + (Slashes(backslashes * 2) + ['"']);
  }

  /** The arguments as `render_windows_task` joins them. */
  function JoinArguments(arguments: seq<string>): string {
    if arguments == [] then []
    else if |arguments| == 1 then Quote(arguments[0])
    else Quote(arguments[0]) + [' '] + JoinArguments(arguments[1..])
  }

  /** A value stays as it is exactly when it is not empty and has no whitespace and no double quote. */
  lemma PlainStays(value: string)
    ensures Quote(value) == value <==>
              value != [] && '"' !in value && forall i :: 0 <= i < |value| ==> !IsWhitespace(value[i])
  {
    assert '"' in value <==> exists i :: 0 <= i < |value| && value[i] == '"';
    if !Plain(value) { QuotedIsLonger(value, 0); }
  }

  lemma {:induction false} QuotedIsLonger(value: string, n: nat)
    ensures |Quoted(value, n)| > |value| + n
    decreases |value|
  {
    if value != [] { QuotedIsLonger(value[1..], if value[0] == '\\' then n + 1 else 0); }
  }

  /** A value without double quotes and backslashes that needs quoting is only put in quotes. */
  lemma {:induction false} QuotedOnly(value: string)
    requires '"' !in value && '\\' !in value
    ensures Quoted(value, 0) == value + ['"']
    decreases |value|
  {
    if value != [] {
      assert value[0] in value;
      assert '"' !in value[1..] && '\\' !in value[1..];
      QuotedOnly(value[1..]);
      assert value + ['"'] == [value[0]] + (value[1..] + ['"']);
    }
  }

  // ---------------------------------------- the Microsoft C runtime's reading

  predicate Blank(c: char) {
    c == ' ' || c == '\t'
  }

  /** An argument, and what is left of the command line behind it. */
  datatype Scan = Scan(arg: string, rest: string)

  /**
   Reading one argument after the program name: `n` backslashes are pending. An
   even number of backslashes before a quote stands for half as many and the quote
   opens or closes a quoted part, a doubled quote inside one being a literal quote;
   an odd number stands for half as many and a literal quote; backslashes before
   anything else are literal. A blank outside quotes ends the argument.
   */
  function ScanArgument(s: string, arg: string, n: nat, inQuotes: bool): (r: Scan)
    ensures |r.rest| <= |s|
    decreases |s|
  {
    if s == [] then Scan(arg + Slashes(n), [])
    else if s[0] == '\\' then ScanArgument(s[1..], arg, n + 1, inQuotes)
    else if s[0] == '"' then
      var read := arg + Slashes(n / 2);
      if n % 2 == 1 then ScanArgument(s[1..], read + ['"'], 0, inQuotes)
      else if inQuotes && |s| > 1 && s[1] == '"' then ScanArgument(s[2..], read + ['"'], 0, inQuotes)
      else ScanArgument(s[1..], read, 0, !inQuotes)
    else if Blank(s[0]) && !inQuotes then Scan(arg + Slashes(n), s)
    else ScanArgument(s[1..], arg + Slashes(n) + [s[0]], 0, inQuotes)
  }

  function SkipBlanks(s: string): (r: string)
    ensures |r| <= |s| && (r != [] ==> !Blank(r[0]))
  {
    if s != [] && Blank(s[0]) then SkipBlanks(s[1..]) else s
  }

  function ParseArguments(s: string): seq<string>
    decreases |s|
  {
    var t := SkipBlanks(s);
    if t == [] then []
    else
      var scan := ScanArgument(t, [], 0, false);
      ScanConsumes(t);
      [scan.arg] + ParseArguments(scan.rest)
  }

  lemma ScanConsumes(s: string)
    requires s != [] && !Blank(s[0])
    ensures |ScanArgument(s, [], 0, false).rest| < |s|
  {
  }

  // ------------------------------------------------------------- round trip

  /** What may follow an argument on the command line. */
  predicate Separated(rest: string) {
    rest == [] || rest[0] == ' '
  }

  lemma {:induction false} ScanSlashes(k: nat, s: string, arg: string, n: nat, inQuotes: bool)
    ensures ScanArgument(Slashes(k) + s, arg, n, inQuotes) == ScanArgument(s, arg, n + k, inQuotes)
    decreases k
  {
    if k == 0 {
      assert Slashes(k) + s == s;
    } else {
      var t := Slashes(k) + s;
      assert t[0] == '\\' && t[1..] == Slashes(k - 1) + s;
      ScanSlashes(k - 1, s, arg, n + 1, inQuotes);
    }
  }

  lemma {:induction false} ScanPlain(value: string, rest: string, arg: string, n: nat)
    requires forall i :: 0 <= i < |value| ==> !IsWhitespace(value[i]) && value[i] != '"'
    requires Separated(rest)
    ensures ScanArgument(value + rest, arg, n, false) == Scan(arg + Slashes(n) + value, rest)
    decreases |value|
  {
    if value == [] {
      assert value + rest == rest;
      assert arg + Slashes(n) + value == arg + Slashes(n);
    } else {
      var s, tail := value + rest, value[1..];
      assert s[0] == value[0] && s[1..] == tail + rest;
      if value[0] == '\\' {
        ScanPlain(tail, rest, arg, n + 1);
        assert arg + Slashes(n + 1) + tail == arg + Slashes(n) + value;
      } else {
        ScanPlain(tail, rest, arg + Slashes(n) + [value[0]], 0);
        assert arg + Slashes(n) + [value[0]] + Slashes(0) + tail == arg + Slashes(n) + value;
      }
    }
  }

  lemma {:induction false} ScanQuoted(value: string, rest: string, arg: string, n: nat)
    requires Separated(rest)
    ensures ScanArgument(Quoted(value, n) + rest, arg, 0, true) == Scan(arg + Slashes(n) + value, rest)
    decreases |value|
  {
    if value == [] {
      ScanClosing(rest, arg, n);
    } else {
      hide ScanArgument;
      var c, tail := value[0], value[1..];
      if c == '\\' {
        ScanQuoted(tail, rest, arg, n + 1);
        assert arg + Slashes(n + 1) + tail == arg + Slashes(n) + value;
      } else {
        var read := arg + Slashes(n) + [c];
        var k := if c == '"' then 2 * n + 1 else n;
        assert Quoted(value, n) == Slashes(k) + [c] + Quoted(tail, 0);
        assert Quoted(value, n) + rest == Slashes(k) + ([c] + (Quoted(tail, 0) + rest));
        ScanOne(c, Quoted(tail, 0) + rest, arg, n);
        ScanQuoted(tail, rest, read, 0);
        assert read + Slashes(0) + tail == arg + Slashes(n) + value;
      }
    }
  }

  lemma ScanClosing(rest: string, arg: string, n: nat)
    requires Separated(rest)
    ensures ScanArgument(Quoted([], n) + rest, arg, 0, true) == Scan(arg + Slashes(n) + [], rest)
  {
    var t := ['"'] + rest;
    assert Quoted([], n) + rest == Slashes(2 * n) + t;
    ScanSlashes(2 * n, t, arg, 0, true);
    assert t[1..] == rest;
    assert arg + Slashes(n) + Slashes(0) == arg + Slashes(n) + [];
    assert ScanArgument(rest, arg + Slashes(n), 0, false) == Scan(arg + Slashes(n) + Slashes(0), rest);
  }

  /** Inside quotes, one character other than a backslash with the backslashes before it. */
  lemma ScanOne(c: char, s: string, arg: string, n: nat)
    requires c != '\\'
    ensures
      var k := if c == '"' then 2 * n + 1 else n;
      ScanArgument(Slashes(k) + ([c] + s), arg, 0, true) == ScanArgument(s, arg + Slashes(n) + [c], 0, true)
  {
    var k := if c == '"' then 2 * n + 1 else n;
    var t := [c] + s;
    ScanSlashes(k, t, arg, 0, true);
    assert t[0] == c && t[1..] == s;
  }

  lemma ScanOpening(s: string)
    ensures ScanArgument(['"'] + s, [], 0, false) == ScanArgument(s, [], 0, true)
  {
    var t := ['"'] + s;
    assert t[0] == '"' && t[1..] == s;
    assert [] + Slashes(0) == [];
  }

  lemma QuotedThen(value: string, rest: string)
    requires !Plain(value)
    ensures Quote(value) + rest == ['"'] + (Quoted(value, 0) + rest)
  {
  }

  lemma ScanQuote(value: string, rest: string)
    requires Separated(rest)
    ensures ScanArgument(Quote(value) + rest, [], 0, false) == Scan(value, rest)
  {
    hide ScanArgument, Quoted;
    assert [] + Slashes(0) + value == value;
    if Plain(value) {
      ScanPlain(value, rest, [], 0);
    } else {
      QuotedThen(value, rest);
      ScanOpening(Quoted(value, 0) + rest);
      ScanQuoted(value, rest, [], 0);
    }
  }

  lemma QuoteStarts(value: string)
    ensures Quote(value) != [] && !Blank(Quote(value)[0])
  {
  }

  lemma ParseSkipped(s: string)
    ensures ParseArguments(s) == ParseArguments(SkipBlanks(s))
  {
    assert SkipBlanks(SkipBlanks(s)) == SkipBlanks(s);
  }

  lemma ParseStep(t: string)
    requires t != [] && !Blank(t[0])
    ensures
      var scan := ScanArgument(t, [], 0, false);
      ParseArguments(t) == [scan.arg] + ParseArguments(scan.rest)
  {
    assert SkipBlanks(t) == t;
  }

  lemma {:induction false} ParseOne(value: string, rest: string, lead: string)
    requires Separated(rest) && lead in {"", " "}
    ensures ParseArguments(lead + Quote(value) + rest) == [value] + ParseArguments(rest)
  {
    hide ScanArgument, Quote, ParseArguments, SkipBlanks;
    ScanQuote(value, rest);
    QuoteStarts(value);
    SkipLead(lead, Quote(value), rest);
    ParseSkipped(lead + Quote(value) + rest);
    ParseStep(Quote(value) + rest);
  }

  lemma SkipLead(lead: string, quoted: string, rest: string)
    requires lead in {"", " "} && quoted != [] && !Blank(quoted[0])
    ensures SkipBlanks(lead + quoted + rest) == quoted + rest
    ensures quoted + rest != [] && !Blank((quoted + rest)[0])
  {
    var s, t := lead + quoted + rest, quoted + rest;
    assert t[0] == quoted[0];
    assert if lead == "" then s == t else s[0] == ' ' && s[1..] == t;
    assert SkipBlanks(t) == t;
  }

  lemma ParseNothing(lead: string)
    requires lead in {"", " "}
    ensures ParseArguments(lead) == []
  {
    assert lead != "" ==> lead[1..] == "";
    assert SkipBlanks(lead) == [];
  }

  /** Splitting the joined line gives back exactly the arguments, whatever they contain. */
  lemma {:induction false} ParseJoined(arguments: seq<string>, lead: string)
    requires lead in {"", " "}
    ensures ParseArguments(lead + JoinArguments(arguments)) == arguments
    decreases |arguments|
  {
    hide ParseArguments, Quote;
    if arguments == [] {
      ParseNothing(lead);
      assert lead + [] == lead;
    } else {
      var first, others := arguments[0], arguments[1..];
      JoinFirst(arguments, lead);
      hide JoinArguments;
      ParseOne(first, Rest(others), lead);
      if others == [] {
        ParseNothing("");
      } else {
        ParseJoined(others, " ");
      }
    }
  }

  /** What follows the first argument. */
  function Rest(others: seq<string>): string {
    if others == [] then "" else " " + JoinArguments(others)
  }

  lemma JoinFirst(arguments: seq<string>, lead: string)
    requires arguments != []
    ensures lead + JoinArguments(arguments) == lead + Quote(arguments[0]) + Rest(arguments[1..])
  {
    hide Quote;
    var others := arguments[1..];
    assert JoinArguments(arguments) == Quote(arguments[0]) + Rest(others);
    hide JoinArguments, Rest;
    Regroup(lead, Quote(arguments[0]), Rest(others));
  }

  /** The text between the `Arguments` tags of the task. */
  function TaskArguments(arguments: seq<string>): string {
    XmlEscape(JoinArguments(arguments))
  }

  /** Read as XML and split by the C runtime, that text is the list of arguments the task was defined with. */
  lemma TaskArgumentsRoundTrip(arguments: seq<string>)
    ensures XmlDecode(TaskArguments(arguments)).Some?
    ensures ParseArguments(XmlDecode(TaskArguments(arguments)).value) == arguments
  {
    ParseJoined(arguments, "");
    assert "" + JoinArguments(arguments) == JoinArguments(arguments);
    DecodeEscape(JoinArguments(arguments));
  }
}
