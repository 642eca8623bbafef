/**
 Blanking the comments and literal text of a TypeScript source, keeping its code, its
 quotes and its line structure.  The one-pass scanner is a state machine; `Step` is one of
 its moves, `Run` all of them, and `BlankTsNoncode` the loops that make them in place.
 */
module TsLexer {

  /** Python's tables for `\w` and `str.isspace`, left open beyond the two blanks used here. */
  datatype CharTable = CharTable(word: char -> bool, space: char -> bool) {
    predicate Ident(c: char) {
      word(c) || c == '$'
    }

    ghost predicate Sane() {
      !word(' ') && !word('\n') && space(' ') && space('\n')
    }
  }

  datatype Mode = Code | Line | Block | Quoted(quote: char) | Template | Regex(inClass: bool)

  /**
   `braces` holds the brace depth at each open `${`; `last` is the last non-space code
   character (empty at the start), `word` the identifier ending there, and `prevIdent`
   whether the very last code character belongs to it.
   */
  datatype State = State(mode: Mode, braces: seq<int>, depth: int, last: string, word: string, prevIdent: bool)

  const START := State(Code, [], 0, "", "", false)

  /** The characters a step emits, as many as it reads, and the state after it. */
  datatype Move = Move(out: string, next: State)

  function Blank(c: char): char {
    if c == '\n' then c else ' '
  }

  const REGEX_PRECEDERS := "(,=:[!&|?{};+-*%<>~^"
  const REGEX_PRECEDING_WORDS: set<string> := {"return", "typeof", "case", "in", "of", "void", "delete"}

  predicate RegexMayStart(s: State) {
    s.last == "" || (|s.last| == 1 && s.last[0] in REGEX_PRECEDERS) || s.word in REGEX_PRECEDING_WORDS
  }

  /** The state after an ordinary code character is kept. */
  function Kept(tab: CharTable, s: State, c: char): State {
    if tab.Ident(c) then s.(word := if s.prevIdent then s.word + [c] else [c], prevIdent := true, last := [c])
    else if !tab.space(c) then s.(word := "", prevIdent := false, last := [c])
    else s.(prevIdent := false)
  }

  /** The state after a delimiter opens a literal. */
  function Opened(s: State, mode: Mode, delimiter: char): State {
    s.(mode := mode, last := [delimiter], word := "", prevIdent := false)
  }

  predicate Follows(src: string, i: nat, c: char) {
    i + 1 < |src| && src[i + 1] == c
  }

  // ----- one move -----

  function CodeStep(tab: CharTable, src: string, i: nat, s: State): (m: Move)
    requires i < |src|
    ensures 1 <= |m.out| <= 2 && i + |m.out| <= |src|
  {
    var c := src[i];
    if c == '/' && Follows(src, i, '/') then Move(" ", s.(mode := Line))
    else if c == '/' && Follows(src, i, '*') then Move("  ", s.(mode := Block))
    else if c == '\'' || c == '"' then Move([c], Opened(s, Quoted(c), c))
    else if c == '`' then Move([c], Opened(s, Template, c))
    else if c == '{' then Move([c], Kept(tab, s.(depth := s.depth + 1), c))
    else if c == '}' then
      if |s.braces| > 0 && s.braces[|s.braces| - 1] == s.depth
      then Move([c], s.(mode := Template, braces := s.braces[..|s.braces| - 1]))
      else Move([c], Kept(tab, s.(depth := s.depth - 1), c))
    else if c == '/' && RegexMayStart(s) then Move([c], Opened(s, Regex(false), c))
    else Move([c], Kept(tab, s, c))
  }

  function BlockStep(src: string, i: nat, s: State): (m: Move)
    requires i < |src|
    ensures 1 <= |m.out| <= 2 && i + |m.out| <= |src|
  {
    if src[i] == '*' && Follows(src, i, '/') then Move("  ", s.(mode := Code)) else Move([Blank(src[i])], s)
  }

  /** Inside quotes, before the end of the line. */
  function QuotedStep(src: string, i: nat, s: State, quote: char): (m: Move)
    requires i < |src|
    ensures 1 <= |m.out| <= 2 && i + |m.out| <= |src|
  {
    if src[i] == quote then Move([quote], s.(mode := Code))
    else if src[i] == '\\' && i + 1 < |src| then Move([' ', Blank(src[i + 1])], s)
    else Move(" ", s)
  }

  function TemplateStep(src: string, i: nat, s: State): (m: Move)
    requires i < |src|
    ensures 1 <= |m.out| <= 2 && i + |m.out| <= |src|
  {
    var c := src[i];
    if c == '\\' then Move(if i + 1 < |src| then [' ', Blank(src[i + 1])] else " ", s)
    else if c == '`' then Move("`", s.(mode := Code))
    else if c == '$' && Follows(src, i, '{') then Move("${", s.(mode := Code, braces := s.braces + [s.depth]))
    else Move([Blank(c)], s)
  }

  /** Inside a regex literal, before the end of the line. */
  function RegexStep(src: string, i: nat, s: State, inClass: bool): (m: Move)
    requires i < |src|
    ensures 1 <= |m.out| <= 2 && i + |m.out| <= |src|
  {
    var c := src[i];
    if c == '\\' && i + 1 < |src| then Move("  ", s)
    else if c == '[' then Move(" ", s.(mode := Regex(true)))
    else if c == ']' then Move(" ", s.(mode := Regex(false)))
    else if c == '/' && !inClass then Move("/", s.(mode := Code))
    else Move(" ", s)
  }

  /** A line comment, a quoted string and a regex literal all end, at the latest, with their line. */
  function Step(tab: CharTable, src: string, i: nat, s: State): (m: Move)
    requires i < |src|
    ensures 1 <= |m.out| <= 2 && i + |m.out| <= |src|
  {
    match s.mode
    case Code => CodeStep(tab, src, i, s)
    case Block => BlockStep(src, i, s)
    case Template => TemplateStep(src, i, s)
    case Line =>
      if src[i] == '\n' then CodeStep(tab, src, i, s.(mode := Code)) else Move(" ", s)
    case Quoted(quote) =>
      if src[i] == '\n' then CodeStep(tab, src, i, s.(mode := Code)) else QuotedStep(src, i, s, quote)
    case Regex(inClass) =>
      if src[i] == '\n' then CodeStep(tab, src, i, s.(mode := Code)) else RegexStep(src, i, s, inClass)
  }

  /** `out` followed by what the machine emits for the rest of the source. */
  function Run(tab: CharTable, src: string, i: nat, s: State, out: string): string
    decreases |src| - i
  {
    if i >= |src| then out
    else
      var m := Step(tab, src, i, s);
      Run(tab, src, i + |m.out|, m.next, out + m.out)
  }

  function Blanked(tab: CharTable, src: string): string {
    Run(tab, src, 0, START, "")
  }

  // ----- the scanner -----

  /** Blank a line comment, up to the end of its line. */
  method ScanLineComment(tab: CharTable, source: string, start: nat, out0: string, ghost s: State)
    returns (i: nat, out: string)
    requires s.mode == Code
    ensures start <= i
    ensures Run(tab, source, start, s.(mode := Line), out0) == Run(tab, source, i, s, out)
  {
    i, out := start, out0;
    ghost var comment := s.(mode := Line);
    while i < |source| && source[i] != '\n'
      invariant start <= i
      invariant Run(tab, source, start, comment, out0) == Run(tab, source, i, comment, out)
    {
      out, i := out + " ", i + 1;
    }
  }

  /** Blank a block comment whose opener has been read. */
  method ScanBlockComment(tab: CharTable, source: string, start: nat, out0: string, ghost s: State)
    returns (i: nat, out: string)
    requires s.mode == Code
    ensures start <= i
    ensures Run(tab, source, start, s.(mode := Block), out0) == Run(tab, source, i, s, out)
  {
    i, out := start, out0;
    ghost var comment := s.(mode := Block);
    while i < |source| && !(source[i] == '*' && i + 1 < |source| && source[i + 1] == '/')
      invariant start <= i
      invariant Run(tab, source, start, comment, out0) == Run(tab, source, i, comment, out)
    {
      out, i := out + [Blank(source[i])], i + 1;
    }
    if i < |source| {
      out, i := out + "  ", i + 2;
    }
  }

  /** Blank a quoted string whose opening quote has been read. */
  method ScanQuoted(tab: CharTable, source: string, start: nat, out0: string, quote: char, ghost s: State)
    returns (i: nat, out: string)
    requires s.mode == Code && quote != '\n'
    ensures start <= i
    ensures Run(tab, source, start, s.(mode := Quoted(quote)), out0) == Run(tab, source, i, s, out)
  {
    i, out := start, out0;
    ghost var literal := s.(mode := Quoted(quote));
    while i < |source| && source[i] != quote && source[i] != '\n'
      invariant start <= i
      invariant Run(tab, source, start, literal, out0) == Run(tab, source, i, literal, out)
    {
      if source[i] == '\\' && i + 1 < |source| {
        out, i := out + [' ', Blank(source[i + 1])], i + 2;
        continue;
      }
      out, i := out + " ", i + 1;
    }
    if i < |source| && source[i] == quote {
      out, i := out + [quote], i + 1;
    }
  }

  /** Blank a regex literal whose opening slash has been read. */
  method ScanRegex(tab: CharTable, source: string, start: nat, out0: string, ghost s: State)
    returns (i: nat, out: string)
    requires s.mode == Code
    ensures start <= i
    ensures Run(tab, source, start, s.(mode := Regex(false)), out0) == Run(tab, source, i, s, out)
  {
    i, out := start, out0;
    var inClass := false;
    while i < |source| && source[i] != '\n'
      invariant start <= i
      invariant Run(tab, source, start, s.(mode := Regex(false)), out0) ==
        Run(tab, source, i, s.(mode := Regex(inClass)), out)
    {
      var c := source[i];
      if c == '\\' && i + 1 < |source| {
        out, i := out + "  ", i + 2;
        continue;
      }
      if c == '[' {
        inClass := true;
      } else if c == ']' {
        inClass := false;
      } else if c == '/' && !inClass {
        break;
      }
      out, i := out + " ", i + 1;
    }
    if i < |source| && source[i] == '/' {
      out, i := out + "/", i + 1;
    }
  }

  /** Blank template text from `start` to just past the closing backtick or `${`. */
  method ScanTemplateText(tab: CharTable, source: string, start: nat, out0: string, s: State)
    returns (i: nat, out: string, after: State)
    requires s.mode == Code
    ensures start <= i
    ensures after == s || after == s.(braces := s.braces + [s.depth])
    ensures Run(tab, source, start, s.(mode := Template), out0) == Run(tab, source, i, after, out)
  {
    i, out, after := start, out0, s;
    ghost var text := s.(mode := Template);
    while i < |source|
      invariant start <= i
      invariant Run(tab, source, start, text, out0) == Run(tab, source, i, text, out)
    {
      var c := source[i];
      if c == '\\' {
        out := out + if i + 1 < |source| then [' ', Blank(source[i + 1])] else " ";
        i := i + 2;
        continue;
      }
      if c == '`' {
        out, i := out + "`", i + 1;
        return;
      }
      if c == '$' && i + 1 < |source| && source[i + 1] == '{' {
        out, i, after := out + "${", i + 2, s.(braces := s.braces + [s.depth]);
        return;
      }
      out, i := out + [Blank(c)], i + 1;
    }
  }

  /** Read one code character, and the whole literal or comment if it opens one. */
  method ScanCode(tab: CharTable, source: string, start: nat, out0: string, s0: State)
    returns (i: nat, out: string, s: State)
    requires start < |source| && s0.mode == Code
    ensures start < i && s.mode == Code
    ensures Run(tab, source, start, s0, out0) == Run(tab, source, i, s, out)
  {
    var c := source[start];
    i, out, s := start, out0, s0;
    if c == '/' && i + 1 < |source| && source[i + 1] == '/' {
      i, out := ScanLineComment(tab, source, i + 1, out + " ", s);
    } else if c == '/' && i + 1 < |source| && source[i + 1] == '*' {
      i, out := ScanBlockComment(tab, source, i + 2, out + "  ", s);
    } else if c == '\'' || c == '"' {
      s := s.(last := [c], word := "", prevIdent := false);
      i, out := ScanQuoted(tab, source, i + 1, out + [c], c, s);
    } else if c == '`' {
      s := s.(last := [c], word := "", prevIdent := false);
      i, out, s := ScanTemplateText(tab, source, i + 1, out + "`", s);
    } else if c == '}' && |s.braces| > 0 && s.braces[|s.braces| - 1] == s.depth {
      s := s.(braces := s.braces[..|s.braces| - 1]);
      i, out, s := ScanTemplateText(tab, source, i + 1, out + "}", s);
    } else if c == '/' && RegexMayStart(s) {
      s := s.(last := [c], word := "", prevIdent := false);
      i, out := ScanRegex(tab, source, i + 1, out + "/", s);
    } else {
      if c == '{' {
        s := s.(depth := s.depth + 1);
      } else if c == '}' {
        s := s.(depth := s.depth - 1);
      }
      s := Kept(tab, s, c);
      out, i := out + [c], i + 1;
    }
  }

  /** Replace comments and literal text with spaces. */
  method BlankTsNoncode(tab: CharTable, source: string) returns (out: string)
    ensures out == Blanked(tab, source)
  {
    out := "";
    var i := 0;
    var s := START;
    while i < |source|
      invariant s.mode == Code
      invariant Run(tab, source, i, s, out) == Blanked(tab, source)
      decreases |source| - i
    {
      i, out, s := ScanCode(tab, source, i, out, s);
    }
  }
}
