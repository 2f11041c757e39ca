/**
 What the repository's tokenizer makes of a command line: a word is written in pieces,
 bare or in either kind of quotes, with a backslash before any character at will.
 */
module ShellTokenLaws {
  import opened ShellWords
  import opened Text
  import opened Wrappers

  /** One character of a word, written with a backslash before it or not. */
  datatype Mark = Mark(c: char, escaped: bool)

  /** A part of a word between two quotes of one kind, or outside quotes. */
  datatype Piece = Piece(quote: Option<char>, marks: seq<Mark>)

  /** Without a backslash a character must not end its piece or begin something else. */
  predicate MarkFits(m: Mark, quote: Option<char>) {
    m.escaped
    || (m.c != '\\'
        && match quote
           case Some(q) => m.c != q
           case None => m.c != '\'' && m.c != '"' && !IsWhitespace(m.c))
  }

  predicate PieceFits(p: Piece) {
    p.quote in {None, Some('\''), Some('"')} && forall i :: 0 <= i < |p.marks| ==> MarkFits(p.marks[i], p.quote)
  }

  function WriteMarks(marks: seq<Mark>): string {
    if marks == [] then "" else (if marks[0].escaped then ['\\', marks[0].c] else [marks[0].c]) + WriteMarks(marks[1..])
  }

  function MarksText(marks: seq<Mark>): string {
    if marks == [] then "" else [marks[0].c] + MarksText(marks[1..])
  }

  function WritePiece(p: Piece): string {
    match p.quote
    case None => WriteMarks(p.marks)
    case Some(q) => [q] + WriteMarks(p.marks) + [q]
  }

  type Word = seq<Piece>

  function WriteWord(w: Word): string {
    if w == [] then "" else WritePiece(w[0]) + WriteWord(w[1..])
  }

  function WordText(w: Word): string {
    if w == [] then "" else MarksText(w[0].marks) + WordText(w[1..])
  }

  predicate WordFits(w: Word) {
    WordText(w) != "" && forall i :: 0 <= i < |w| ==> PieceFits(w[i])
  }

  predicate AllBlank(s: string) {
    forall i :: 0 <= i < |s| ==> IsWhitespace(s[i])
  }

  /** The words, each after its gap. */
  function WriteLine(words: seq<Word>, gaps: seq<string>): string
    requires |gaps| == |words|
  {
    if words == [] then "" else gaps[0] + (WriteWord(words[0]) + WriteLine(words[1..], gaps[1..]))
  }

  function Texts(words: seq<Word>): seq<string> {
    if words == [] then [] else [WordText(words[0])] + Texts(words[1..])
  }

  // -------------------------------------------------------------- the proof

  function Inside(tokens: seq<string>, current: string, quote: Option<char>): Reader {
    Reader(tokens, current, quote, false)
  }

  lemma ReadMark(m: Mark, rest: string, tokens: seq<string>, current: string, quote: Option<char>)
    requires MarkFits(m, quote)
    ensures ReadAll(Inside(tokens, current, quote), (if m.escaped then ['\\', m.c] else [m.c]) + rest)
         == ReadAll(Inside(tokens, current + [m.c], quote), rest)
  {
    var r := Inside(tokens, current, quote);
    if m.escaped {
      var s := ['\\', m.c] + rest;
      assert s[0] == '\\' && s[1..][0] == m.c && s[1..][1..] == rest;
      assert ReadAll(r, s) == ReadAll(Read(r, '\\'), s[1..]) == ReadAll(Read(Read(r, '\\'), m.c), rest);
    } else {
      assert ([m.c] + rest)[1..] == rest;
    }
  }

  lemma {:induction false} ReadMarks(marks: seq<Mark>, tokens: seq<string>, current: string, quote: Option<char>)
    requires forall i :: 0 <= i < |marks| ==> MarkFits(marks[i], quote)
    ensures ReadAll(Inside(tokens, current, quote), WriteMarks(marks))
         == Inside(tokens, current + MarksText(marks), quote)
    decreases |marks|
  {
    if marks == [] {
      assert current + "" == current;
    } else {
      ReadMark(marks[0], WriteMarks(marks[1..]), tokens, current, quote);
      hide ReadAll, MarkFits;
      ReadMarks(marks[1..], tokens, current + [marks[0].c], quote);
      Regroup(current, [marks[0].c], MarksText(marks[1..]));
    }
  }

  lemma ReadOne(r: Reader, c: char)
    ensures ReadAll(r, [c]) == Read(r, c)
  {
    assert [c][1..] == "";
  }

  lemma ReadPiece(p: Piece, tokens: seq<string>, current: string)
    requires PieceFits(p)
    ensures ReadAll(Inside(tokens, current, None), WritePiece(p)) == Inside(tokens, current + MarksText(p.marks), None)
  {
    ReadMarks(p.marks, tokens, current, p.quote);
    if p.quote.Some? {
      var q, text := p.quote.value, WriteMarks(p.marks);
      ReadOne(Inside(tokens, current, None), q);
      ReadOne(Inside(tokens, current + MarksText(p.marks), p.quote), q);
      hide ReadAll, WriteMarks;
      ReadConcat(Inside(tokens, current, None), [q] + text, [q]);
      ReadConcat(Inside(tokens, current, None), [q], text);
    }
  }

  lemma {:induction false} ReadWord(w: Word, tokens: seq<string>, current: string)
    requires forall i :: 0 <= i < |w| ==> PieceFits(w[i])
    ensures ReadAll(Inside(tokens, current, None), WriteWord(w)) == Inside(tokens, current + WordText(w), None)
    decreases |w|
  {
    if w == [] {
      assert current + "" == current;
    } else {
      var text := MarksText(w[0].marks);
      ReadPiece(w[0], tokens, current);
      hide ReadAll, PieceFits, WritePiece, MarksText;
      ReadConcat(Inside(tokens, current, None), WritePiece(w[0]), WriteWord(w[1..]));
      ReadWord(w[1..], tokens, current + text);
      Regroup(current, text, WordText(w[1..]));
    }
  }

  lemma {:induction false} ReadGap(gap: string, tokens: seq<string>, current: string)
    requires AllBlank(gap) && (gap != "" || current == "")
    ensures ReadAll(Inside(tokens, current, None), gap) == Inside(Closed(tokens, current), "", None)
    decreases |gap|
  {
    if gap != "" {
      var r := Inside(tokens, current, None);
      assert IsWhitespace(gap[0]) && Read(r, gap[0]) == Inside(Closed(tokens, current), "", None) by {
        BlankIsPlain(gap[0]);
      }
      assert ReadAll(r, gap) == ReadAll(Read(r, gap[0]), gap[1..]);
      hide ReadAll, Read;
      ReadGap(gap[1..], Closed(tokens, current), "");
    }
  }

  lemma BlankIsPlain(c: char)
    requires IsWhitespace(c)
    ensures c != '\\' && c != '\'' && c != '"'
  {
  }

  lemma LineFirst(words: seq<Word>, gaps: seq<string>, trail: string)
    requires |gaps| == |words| > 0
    ensures WriteLine(words, gaps) + trail == gaps[0] + (WriteWord(words[0]) + (WriteLine(words[1..], gaps[1..]) + trail))
  {
  }

  lemma {:induction false} ReadLine(words: seq<Word>, gaps: seq<string>, trail: string, tokens: seq<string>, current: string)
    requires |gaps| == |words| && AllBlank(trail)
    requires forall i :: 0 <= i < |words| ==> WordFits(words[i]) && AllBlank(gaps[i])
    requires forall i :: 0 <= i < |gaps| ==> gaps[i] != "" || (i == 0 && current == "")
    ensures Tokens(ReadAll(Inside(tokens, current, None), WriteLine(words, gaps) + trail))
         == Closed(tokens, current) + Texts(words)
    decreases |words|
  {
    if words == [] {
      assert "" + trail == trail;
      assert Closed(tokens, current) + [] == Closed(tokens, current);
      ReadTrail(trail, tokens, current);
    } else {
      var closed, text, rest := Closed(tokens, current), WordText(words[0]), WriteLine(words[1..], gaps[1..]) + trail;
      hide ReadAll, WriteWord, WordText, AllBlank;
      ReadFirst(words[0], gaps[0], rest, tokens, current);
      LineFirst(words, gaps, trail);
      hide WriteLine;
      ReadLine(words[1..], gaps[1..], trail, closed, text);
      Regroup(closed, [text], Texts(words[1..]));
    }
  }

  lemma ReadTrail(trail: string, tokens: seq<string>, current: string)
    requires AllBlank(trail)
    ensures Tokens(ReadAll(Inside(tokens, current, None), trail)) == Closed(tokens, current)
  {
    if trail != "" { ReadGap(trail, tokens, current); }
  }

  lemma ReadFirst(w: Word, gap: string, rest: string, tokens: seq<string>, current: string)
    requires WordFits(w) && AllBlank(gap) && (gap != "" || current == "")
    ensures ReadAll(Inside(tokens, current, None), gap + (WriteWord(w) + rest))
         == ReadAll(Inside(Closed(tokens, current), WordText(w), None), rest)
  {
    hide ReadAll, WriteWord, WordText, AllBlank;
    var closed := Closed(tokens, current);
    ReadConcat(Inside(tokens, current, None), gap, WriteWord(w) + rest);
    ReadGap(gap, tokens, current);
    ReadConcat(Inside(closed, "", None), WriteWord(w), rest);
    ReadWord(w, closed, "");
    assert "" + WordText(w) == WordText(w);
  }

  // --------------------------------------------------------------- the laws

  /**
   The tokens of a line are the texts of its words, whichever pieces and backslashes
   they are written with, and whatever whitespace stands between, before and behind.
   */
  lemma LineTokens(words: seq<Word>, gaps: seq<string>, trail: string)
    requires |gaps| == |words| && AllBlank(trail)
    requires forall i :: 0 <= i < |words| ==> WordFits(words[i]) && AllBlank(gaps[i]) && (i > 0 ==> gaps[i] != "")
    ensures Tokens(ReadAll(START, WriteLine(words, gaps) + trail)) == Texts(words)
  {
    ReadLine(words, gaps, trail, [], "");
    assert [] + Texts(words) == Texts(words);
  }

  /** An argument with a backslash before each of these characters. */
  function Backslashed(arg: string, specials: set<char>): string {
    if arg == "" then ""
    else (if arg[0] in specials then ['\\', arg[0]] else [arg[0]]) + Backslashed(arg[1..], specials)
  }

  function Marked(arg: string, specials: set<char>): seq<Mark> {
    seq(|arg|, i requires 0 <= i < |arg| => Mark(arg[i], arg[i] in specials))
  }

  lemma {:induction false} MarkedIsBackslashed(arg: string, specials: set<char>)
    ensures WriteMarks(Marked(arg, specials)) == Backslashed(arg, specials) && MarksText(Marked(arg, specials)) == arg
    decreases |arg|
  {
    if arg != "" {
      assert Marked(arg, specials)[1..] == Marked(arg[1..], specials);
      MarkedIsBackslashed(arg[1..], specials);
    }
  }

  /** Each argument in double quotes, a backslash before every double quote and backslash. */
  function DoubleQuotedLine(args: seq<string>, gaps: seq<string>): string
    requires |gaps| == |args|
  {
    if args == [] then ""
    else gaps[0] + (['"'] + Backslashed(args[0], {'"', '\\'}) + ['"'] + DoubleQuotedLine(args[1..], gaps[1..]))
  }

  function DoubleQuotedWords(args: seq<string>): seq<Word> {
    seq(|args|, i requires 0 <= i < |args| => [Piece(Some('"'), Marked(args[i], {'"', '\\'}))])
  }

  lemma OnePiece(p: Piece)
    ensures WriteWord([p]) == WritePiece(p) && WordText([p]) == MarksText(p.marks)
  {
    assert [p][1..] == [];
  }

  lemma {:induction false} DoubleQuotedIsLine(args: seq<string>, gaps: seq<string>)
    requires |gaps| == |args|
    ensures WriteLine(DoubleQuotedWords(args), gaps) == DoubleQuotedLine(args, gaps)
    ensures Texts(DoubleQuotedWords(args)) == args
    decreases |args|
  {
    if args != [] {
      var words := DoubleQuotedWords(args);
      assert words[1..] == DoubleQuotedWords(args[1..]);
      DoubleQuotedIsLine(args[1..], gaps[1..]);
      OnePiece(words[0][0]);
      MarkedIsBackslashed(args[0], {'"', '\\'});
    }
  }

  /** Arguments in double quotes come back exactly, whatever they contain. */
  lemma DoubleQuotesKeepArguments(args: seq<string>, gaps: seq<string>, trail: string)
    requires |gaps| == |args| && AllBlank(trail)
    requires forall i :: 0 <= i < |args| ==> args[i] != "" && AllBlank(gaps[i]) && (i > 0 ==> gaps[i] != "")
    ensures Tokens(ReadAll(START, DoubleQuotedLine(args, gaps) + trail)) == args
  {
    var words := DoubleQuotedWords(args);
    forall i | 0 <= i < |words| ensures WordFits(words[i]) {
      OnePiece(words[i][0]);
      MarkedIsBackslashed(args[i], {'"', '\\'});
    }
    DoubleQuotedIsLine(args, gaps);
    LineTokens(words, gaps, trail);
  }

  /** Each argument bare, a backslash before every quote, backslash and whitespace character. */
  function BareLine(args: seq<string>, gaps: seq<string>): string
    requires |gaps| == |args|
  {
    if args == [] then "" else gaps[0] + (BareWord(args[0]) + BareLine(args[1..], gaps[1..]))
  }

  function BareWord(arg: string): string {
    if arg == "" then "" else (if Special(arg[0]) then ['\\', arg[0]] else [arg[0]]) + BareWord(arg[1..])
  }

  function BareMarks(arg: string): seq<Mark> {
    seq(|arg|, i requires 0 <= i < |arg| => Mark(arg[i], Special(arg[i])))
  }

  lemma {:induction false} BareMarksWrite(arg: string)
    ensures WriteMarks(BareMarks(arg)) == BareWord(arg) && MarksText(BareMarks(arg)) == arg
    decreases |arg|
  {
    if arg != "" {
      assert BareMarks(arg)[1..] == BareMarks(arg[1..]);
      hide Special;
      BareMarksWrite(arg[1..]);
    }
  }

  function BareWords(args: seq<string>): seq<Word> {
    seq(|args|, i requires 0 <= i < |args| => [Piece(None, BareMarks(args[i]))])
  }

  lemma {:induction false} BareIsLine(args: seq<string>, gaps: seq<string>)
    requires |gaps| == |args|
    ensures WriteLine(BareWords(args), gaps) == BareLine(args, gaps) && Texts(BareWords(args)) == args
    decreases |args|
  {
    if args != [] {
      var words := BareWords(args);
      assert words[1..] == BareWords(args[1..]);
      BareIsLine(args[1..], gaps[1..]);
      OnePiece(words[0][0]);
      BareMarksWrite(args[0]);
    }
  }

  /** Bare arguments with their special characters behind backslashes come back exactly. */
  lemma BackslashesKeepArguments(args: seq<string>, gaps: seq<string>, trail: string)
    requires |gaps| == |args| && AllBlank(trail)
    requires forall i :: 0 <= i < |args| ==> args[i] != "" && AllBlank(gaps[i]) && (i > 0 ==> gaps[i] != "")
    ensures Tokens(ReadAll(START, BareLine(args, gaps) + trail)) == args
  {
    var words := BareWords(args);
    forall i | 0 <= i < |words| ensures WordFits(words[i]) {
      OnePiece(words[i][0]);
      BareMarksWrite(args[i]);
    }
    BareIsLine(args, gaps);
    LineTokens(words, gaps, trail);
  }

  /** A quote left open at the end of the line counts as closed there. */
  lemma OpenQuoteIsClosed(words: seq<Word>, gaps: seq<string>, gap: string, p: Piece)
    requires |gaps| == |words| && AllBlank(gap) && (words != [] ==> gap != "")
    requires forall i :: 0 <= i < |words| ==> WordFits(words[i]) && AllBlank(gaps[i]) && (i > 0 ==> gaps[i] != "")
    requires PieceFits(p) && p.quote.Some? && p.marks != []
    ensures Tokens(ReadAll(START, WriteLine(words, gaps) + gap + ([p.quote.value] + WriteMarks(p.marks))))
         == Texts(words) + [MarksText(p.marks)]
  {
    var before, open := WriteLine(words, gaps) + gap, [p.quote.value] + WriteMarks(p.marks);
    LineEnds(words, gaps, gap, [], "");
    assert [] + Texts(words) == Texts(words);
    ReadConcat(START, before, open);
    ReadOne(Inside(Texts(words), "", None), p.quote.value);
    ReadConcat(Inside(Texts(words), "", None), [p.quote.value], WriteMarks(p.marks));
    ReadMarks(p.marks, Texts(words), "", p.quote);
    assert "" + MarksText(p.marks) == MarksText(p.marks);
  }

  /** Between two words the reader holds exactly the words so far. */
  lemma {:induction false} LineEnds(words: seq<Word>, gaps: seq<string>, gap: string, tokens: seq<string>, current: string)
    requires |gaps| == |words| && AllBlank(gap) && (words != [] || current != "" ==> gap != "")
    requires forall i :: 0 <= i < |words| ==> WordFits(words[i]) && AllBlank(gaps[i])
    requires forall i :: 0 <= i < |gaps| ==> gaps[i] != "" || (i == 0 && current == "")
    ensures ReadAll(Inside(tokens, current, None), WriteLine(words, gaps) + gap)
         == Inside(Closed(tokens, current) + Texts(words), "", None)
    decreases |words|
  {
    if words == [] {
      assert "" + gap == gap;
      assert Closed(tokens, current) + [] == Closed(tokens, current);
      ReadGap(gap, tokens, current);
    } else {
      var closed, text, rest := Closed(tokens, current), WordText(words[0]), WriteLine(words[1..], gaps[1..]) + gap;
      hide ReadAll, WriteWord, WordText, AllBlank;
      ReadFirst(words[0], gaps[0], rest, tokens, current);
      LineFirst(words, gaps, gap);
      hide WriteLine;
      LineEnds(words[1..], gaps[1..], gap, closed, text);
      Regroup(closed, [text], Texts(words[1..]));
    }
  }
}
