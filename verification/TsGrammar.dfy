/**
 What blanking makes of a well-formed source.  Sources are given by a grammar of their own:
 code, comments, quotations, regular expressions, and template literals with code in their
 holes, nested as deep as one likes.  Each construct says by itself which of its text is kept.
 */
module TsGrammar {
  import opened Sequences
  import opened TsBlanking
  import opened TsLexer

  /** The inside of a quotation or a regular expression. */
  datatype Body = Stop | Letter(c: char, rest: Body) | Escaped(c: char, rest: Body)

  datatype Item =
    | Symbol(c: char)
    | LineNote(text: string)
    | BlockNote(text: string)
    | Quotation(quote: char, body: Body)
    | Pattern(body: Body)
    | Group(inner: Program)
    | Literal(prose: Prose)

  datatype Program = Finish | Then(item: Item, rest: Program)

  /** A piece of the inside of a template literal. */
  datatype Piece = Word(c: char) | EscapedWord(c: char) | Hole(inner: Program)

  datatype Prose = Close | Along(piece: Piece, rest: Prose)

  // ----- the source, and what must be left of it -----

  function BodyText(b: Body): string {
    match b
    case Stop => ""
    case Letter(c, rest) => [c] + BodyText(rest)
    case Escaped(c, rest) => ['\\', c] + BodyText(rest)
  }

  function Text(g: Program): string {
    match g
    case Finish => ""
    case Then(item, rest) => ItemText(item) + Text(rest)
  }

  function ItemText(item: Item): string {
    match item
    case Symbol(c) => [c]
    case LineNote(text) => "//" + text + "\n"
    case BlockNote(text) => "/*" + text + "*/"
    case Quotation(quote, body) => [quote] + BodyText(body) + [quote]
    case Pattern(body) => "/" + BodyText(body) + "/"
    case Group(inner) => "{" + Text(inner) + "}"
    case Literal(prose) => "`" + ProseText(prose) + "`"
  }

  function ProseText(prose: Prose): string {
    match prose
    case Close => ""
    case Along(piece, rest) => PieceText(piece) + ProseText(rest)
  }

  function PieceText(piece: Piece): string {
    match piece
    case Word(c) => [c]
    case EscapedWord(c) => ['\\', c]
    case Hole(inner) => "${" + Text(inner) + "}"
  }

  /** Spaces for everything but newlines. */
  function Blanks(text: string): string {
    if |text| == 0 then "" else [Blank(text[0])] + Blanks(text[1..])
  }

  function Spaces(n: nat): string {
    if n == 0 then "" else " " + Spaces(n - 1)
  }

  /** Code, braces and delimiters stay, in holes too; comments and text become blanks. */
  function Kernel(g: Program): string {
    match g
    case Finish => ""
    case Then(item, rest) => ItemKernel(item) + Kernel(rest)
  }

  function ItemKernel(item: Item): string {
    match item
    case Symbol(c) => [c]
    case LineNote(text) => "  " + Blanks(text) + "\n"
    case BlockNote(text) => "  " + Blanks(text) + "  "
    case Quotation(quote, body) => [quote] + Blanks(BodyText(body)) + [quote]
    case Pattern(body) => "/" + Spaces(|BodyText(body)|) + "/"
    case Group(inner) => "{" + Kernel(inner) + "}"
    case Literal(prose) => "`" + ProseKernel(prose) + "`"
  }

  function ProseKernel(prose: Prose): string {
    match prose
    case Close => ""
    case Along(piece, rest) => PieceKernel(piece) + ProseKernel(rest)
  }

  function PieceKernel(piece: Piece): string {
    match piece
    case Word(c) => [Blank(c)]
    case EscapedWord(c) => [' ', Blank(c)]
    case Hole(inner) => "${" + Kernel(inner) + "}"
  }

  // ----- well-formed sources -----

  predicate SameNesting(s: State, t: State) {
    t.mode == s.mode && t.braces == s.braces && t.depth == s.depth
  }

  /** What a slash is judged by after the text; it leaves the nesting as it was. */
  function After(tab: CharTable, s: State, g: Program): (t: State)
    ensures SameNesting(s, t)
    decreases g
  {
    match g
    case Finish => s
    case Then(item, rest) => After(tab, AfterItem(tab, s, item), rest)
  }

  function AfterItem(tab: CharTable, s: State, item: Item): (t: State)
    ensures SameNesting(s, t)
    decreases item
  {
    match item
    case Symbol(c) => Kept(tab, s, c)
    case LineNote(_) => Kept(tab, s, '\n')
    case BlockNote(_) => s
    case Quotation(quote, _) => Opened(s, s.mode, quote)
    case Pattern(_) => Opened(s, s.mode, '/')
    case Group(inner) => GroupLeft(tab, s, After(tab, GroupEntered(tab, s), inner))
    case Literal(prose) => AfterProse(tab, Opened(s, s.mode, '`'), prose)
  }

  function AfterProse(tab: CharTable, s: State, prose: Prose): (t: State)
    ensures SameNesting(s, t)
    decreases prose
  {
    match prose
    case Close => s
    case Along(piece, rest) => AfterProse(tab, AfterPiece(tab, s, piece), rest)
  }

  /** Text is not judged by; the code in a hole is. */
  function AfterPiece(tab: CharTable, s: State, piece: Piece): (t: State)
    ensures SameNesting(s, t)
    decreases piece
  {
    if piece.Hole? then After(tab, HoleEntered(s), piece.inner).(braces := s.braces) else s
  }

  function GroupEntered(tab: CharTable, s: State): State {
    Kept(tab, s.(depth := s.depth + 1), '{')
  }

  function GroupLeft(tab: CharTable, s: State, within: State): State {
    Kept(tab, within.(depth := s.depth), '}')
  }

  function HoleEntered(s: State): State {
    s.(braces := s.braces + [s.depth])
  }

  /** The text of a quotation stays on its line, but for escaped line ends. */
  predicate Quotable(quote: char, b: Body) {
    match b
    case Stop => true
    case Letter(c, rest) => c != quote && c != '\\' && c != '\n' && Quotable(quote, rest)
    case Escaped(_, rest) => Quotable(quote, rest)
  }

  /** A slash in a regular expression is escaped or in a class, and classes close. */
  predicate Regular(inClass: bool, b: Body)
    decreases b
  {
    match b
    case Stop => !inClass
    case Letter(c, rest) =>
      c != '\\' && c != '\n' && (c == '/' ==> inClass) && Regular(c == '[' || (inClass && c != ']'), rest)
    case Escaped(_, rest) => Regular(inClass, rest)
  }

  predicate IsDelimiter(c: char) {
    c == '\'' || c == '"' || c == '`' || c == '{' || c == '}'
  }

  /** A slash that divides is followed by something that makes no comment of it. */
  predicate Divides(rest: string) {
    |rest| > 0 && rest[0] != '/' && rest[0] != '*'
  }

  ghost predicate NoCloser(text: string) {
    forall i :: 0 <= i < |text| - 1 && text[i] == '*' ==> text[i + 1] != '/'
  }

  /** Every construct is closed; a slash on its own divides, and any other opens a pattern. */
  ghost predicate WellFormed(g: Program)
    decreases g
  {
    match g
    case Finish => true
    case Then(item, rest) => WellFormedItem(item, Text(rest)) && WellFormed(rest)
  }

  /** An item before the text `next`. */
  ghost predicate WellFormedItem(item: Item, next: string)
    decreases item
  {
    match item
    case Symbol(c) => !IsDelimiter(c) && (c == '/' ==> Divides(next))
    case LineNote(text) => '\n' !in text
    case BlockNote(text) => NoCloser(text)
    case Quotation(quote, body) => (quote == '\'' || quote == '"') && Quotable(quote, body)
    case Pattern(body) => Regular(false, body) && |BodyText(body)| > 0 && BodyText(body)[0] != '*'
    case Group(inner) => WellFormed(inner)
    case Literal(prose) => WellFormedProse(prose)
  }

  ghost predicate WellFormedProse(prose: Prose)
    decreases prose
  {
    match prose
    case Close => true
    case Along(piece, rest) => WellFormedPiece(piece, ProseText(rest)) && WellFormedProse(rest)
  }

  ghost predicate WellFormedPiece(piece: Piece, next: string)
    decreases piece
  {
    match piece
    case Word(c) => c != '`' && c != '\\' && (c == '$' && |next| > 0 ==> next[0] != '{')
    case EscapedWord(_) => true
    case Hole(inner) => WellFormed(inner)
  }

  // ----- the slashes -----

  /** The scanner, when it comes to a slash, takes it for what it is: a division or a pattern. */
  predicate Judged(tab: CharTable, s: State, g: Program)
    decreases g
  {
    match g
    case Finish => true
    case Then(item, rest) => JudgedItem(tab, s, item) && Judged(tab, AfterItem(tab, s, item), rest)
  }

  predicate JudgedItem(tab: CharTable, s: State, item: Item)
    decreases item
  {
    match item
    case Symbol(c) => c == '/' ==> !RegexMayStart(s)
    case Pattern(_) => RegexMayStart(s)
    case Group(inner) => Judged(tab, GroupEntered(tab, s), inner)
    case Literal(prose) => JudgedProse(tab, Opened(s, s.mode, '`'), prose)
    case _ => true
  }

  predicate JudgedProse(tab: CharTable, s: State, prose: Prose)
    decreases prose
  {
    match prose
    case Close => true
    case Along(piece, rest) =>
      (piece.Hole? ==> Judged(tab, HoleEntered(s), piece.inner)) && JudgedProse(tab, AfterPiece(tab, s, piece), rest)
  }

  // ----- reading one construct -----

  /** A reading of a source: what the scanner emits from each position and state on. */
  datatype Reading = Reading(tab: CharTable, src: string, emits: (nat, State) -> string)

  ghost predicate StepsAt(x: Reading, p: nat, s: State) {
    p < |x.src| ==>
      var m := Step(x.tab, x.src, p, s);
      x.emits(p, s) == m.out + x.emits(p + |m.out|, m.next)
  }

  ghost predicate IsReading(x: Reading) {
    forall p: nat, s: State {:trigger StepsAt(x, p, s)} :: StepsAt(x, p, s)
  }

  /** Between `p` and `q` the scanner goes from `s` to `t`, emitting `kept`. */
  ghost predicate Scans(x: Reading, p: nat, s: State, q: nat, t: State, kept: string) {
    x.emits(p, s) == kept + x.emits(q, t)
  }

  lemma {:induction false} ScansNothing(x: Reading, p: nat, s: State)
    ensures Scans(x, p, s, p, s, "")
  {
  }

  lemma {:induction false} ScansStep(x: Reading, p: nat, s: State, m: Move)
    requires IsReading(x) && p < |x.src| && m == Step(x.tab, x.src, p, s)
    ensures Scans(x, p, s, p + |m.out|, m.next, m.out)
  {
    assert StepsAt(x, p, s);
  }

  lemma {:induction false} ScansJoin(
    x: Reading, p: nat, s: State, q: nat, t: State, r: nat, u: State, one: string, two: string)
    requires Scans(x, p, s, q, t, one) && Scans(x, q, t, r, u, two)
    ensures Scans(x, p, s, r, u, one + two)
  {
    Reassociate(one, two, x.emits(r, u));
  }

  /** A step, and what follows it. */
  lemma {:induction false} ScansThen(x: Reading, p: nat, s: State, m: Move, q: nat, t: State, kept: string)
    requires IsReading(x) && p < |x.src| && m == Step(x.tab, x.src, p, s)
    requires Scans(x, p + |m.out|, m.next, q, t, kept)
    ensures Scans(x, p, s, q, t, m.out + kept)
  {
    ScansStep(x, p, s, m);
    ScansJoin(x, p, s, p + |m.out|, m.next, q, t, m.out, kept);
  }

  /** A construct between its opening and its closing step. */
  lemma {:induction false} ScansAround(
    x: Reading, p: nat, s: State, first: Move, end: nat, t: State, inner: string, last: Move)
    requires IsReading(x) && p < |x.src| && first == Step(x.tab, x.src, p, s)
    requires Scans(x, p + |first.out|, first.next, end, t, inner)
    requires end < |x.src| && last == Step(x.tab, x.src, end, t)
    ensures Scans(x, p, s, end + |last.out|, last.next, first.out + inner + last.out)
  {
    ScansThen(x, p, s, first, end, t, inner);
    ScansStep(x, end, t, last);
    ScansJoin(x, p, s, end, t, end + |last.out|, last.next, first.out + inner, last.out);
  }

  // ----- comments -----

  lemma {:induction false} LineTextScans(x: Reading, p: nat, s: State, text: string)
    requires IsReading(x) && s.mode.Line? && At(x.src, p, text) && '\n' !in text
    ensures Scans(x, p, s, p + |text|, s, Blanks(text))
    decreases |text|
  {
    if |text| == 0 {
      ScansNothing(x, p, s);
    } else {
      assert text == [text[0]] + text[1..];
      AtChar(x.src, p, text[0], text[1..]);
      LineTextScans(x, p + 1, s, text[1..]);
      ScansThen(x, p, s, Move(" ", s), p + |text|, s, Blanks(text[1..]));
    }
  }

  lemma {:induction false} LineNoteParts(src: string, p: nat, text: string)
    requires At(src, p, "//" + text + "\n")
    ensures p + |text| + 2 < |src| && src[p] == src[p + 1] == '/' && src[p + 2 + |text|] == '\n'
    ensures At(src, p + 1, "/" + text)
  {
    var slashed := "/" + text;
    assert "//" + text + "\n" == "/" + (slashed + "\n");
    AtChar(src, p, '/', slashed + "\n");
    AtParts(src, p + 1, slashed, "\n");
    AtChar(src, p + 1 + |slashed|, '\n', "");
  }

  lemma {:induction false} LineNoteAround(x: Reading, p: nat, s: State, n: nat, kept: string)
    requires IsReading(x) && s.mode.Code? && p + 1 + n < |x.src| && n > 0
    requires x.src[p] == x.src[p + 1] == '/' && x.src[p + 1 + n] == '\n'
    requires Scans(x, p + 1, s.(mode := Line), p + 1 + n, s.(mode := Line), kept)
    ensures Scans(x, p, s, p + n + 2, Kept(x.tab, s, '\n'), " " + kept + "\n")
  {
    var line := s.(mode := Line);
    ScansAround(x, p, s, Move(" ", line), p + 1 + n, line, kept, Move("\n", Kept(x.tab, s, '\n')));
  }

  lemma {:induction false} LineNoteScans(x: Reading, p: nat, s: State, text: string)
    requires IsReading(x) && s.mode.Code? && At(x.src, p, "//" + text + "\n") && '\n' !in text
    ensures Scans(x, p, s, p + |text| + 3, Kept(x.tab, s, '\n'), "  " + Blanks(text) + "\n")
  {
    LineNoteParts(x.src, p, text);
    LineTextScans(x, p + 1, s.(mode := Line), "/" + text);
    LineNoteAround(x, p, s, |text| + 1, Blanks("/" + text));
    BlanksOfLetter('/', text);
    assert " " + (" " + Blanks(text)) + "\n" == "  " + Blanks(text) + "\n";
  }

  lemma {:induction false} BlockTextScans(x: Reading, p: nat, s: State, text: string)
    requires IsReading(x) && s.mode.Block? && At(x.src, p, text + "*/") && NoCloser(text)
    ensures Scans(x, p, s, p + |text|, s, Blanks(text))
    decreases |text|
  {
    if |text| == 0 {
      ScansNothing(x, p, s);
    } else {
      var rest := text[1..] + "*/";
      assert text + "*/" == [text[0]] + rest;
      AtChar(x.src, p, text[0], rest);
      assert rest[0] == if |text| > 1 then text[1] else '*';
      assert NoCloser(text[1..]);
      BlockTextScans(x, p + 1, s, text[1..]);
      ScansThen(x, p, s, Move([Blank(text[0])], s), p + |text|, s, Blanks(text[1..]));
    }
  }

  lemma {:induction false} BlockNoteParts(src: string, p: nat, text: string)
    requires At(src, p, "/*" + text + "*/")
    ensures p + |text| + 3 < |src| && src[p] == '/' && src[p + 1] == '*'
    ensures src[p + 2 + |text|] == '*' && src[p + 3 + |text|] == '/'
    ensures At(src, p + 2, text + "*/")
  {
    assert "/*" + text + "*/" == "/*" + (text + "*/");
    AtPair(src, p, '/', '*', text + "*/");
    AtParts(src, p + 2, text, "*/");
    AtPair(src, p + 2 + |text|, '*', '/', "");
  }

  lemma {:induction false} BlockNoteAround(x: Reading, p: nat, s: State, n: nat, kept: string)
    requires IsReading(x) && s.mode.Code? && p + 3 + n < |x.src| && x.src[p] == '/' && x.src[p + 1] == '*'
    requires x.src[p + 2 + n] == '*' && x.src[p + 3 + n] == '/'
    requires Scans(x, p + 2, s.(mode := Block), p + 2 + n, s.(mode := Block), kept)
    ensures Scans(x, p, s, p + n + 4, s, "  " + kept + "  ")
  {
    var block := s.(mode := Block);
    ScansAround(x, p, s, Move("  ", block), p + 2 + n, block, kept, Move("  ", s));
  }

  lemma {:induction false} BlockNoteScans(x: Reading, p: nat, s: State, text: string)
    requires IsReading(x) && s.mode.Code? && At(x.src, p, "/*" + text + "*/") && NoCloser(text)
    ensures Scans(x, p, s, p + |text| + 4, s, "  " + Blanks(text) + "  ")
  {
    BlockNoteParts(x.src, p, text);
    BlockTextScans(x, p + 2, s.(mode := Block), text);
    BlockNoteAround(x, p, s, |text|, Blanks(text));
  }

  // ----- quotations and regular expressions -----

  lemma {:induction false} QuotedTextScans(x: Reading, p: nat, s: State, quote: char, body: Body)
    requires IsReading(x) && s.mode == Quoted(quote) && At(x.src, p, BodyText(body)) && Quotable(quote, body)
    requires quote == '\'' || quote == '"'
    ensures Scans(x, p, s, p + |BodyText(body)|, s, Blanks(BodyText(body)))
    decreases body
  {
    match body
    case Stop =>
      ScansNothing(x, p, s);
    case Letter(c, rest) =>
      AtChar(x.src, p, c, BodyText(rest));
      QuotedTextScans(x, p + 1, s, quote, rest);
      ScansThen(x, p, s, Move(" ", s), p + 1 + |BodyText(rest)|, s, Blanks(BodyText(rest)));
      BlanksOfLetter(c, BodyText(rest));
    case Escaped(c, rest) =>
      AtPair(x.src, p, '\\', c, BodyText(rest));
      QuotedTextScans(x, p + 2, s, quote, rest);
      ScansThen(x, p, s, Move([' ', Blank(c)], s), p + 2 + |BodyText(rest)|, s, Blanks(BodyText(rest)));
      BlanksOfPair(c, BodyText(rest));
  }

  lemma {:induction false} BlanksOfLetter(c: char, rest: string)
    ensures Blanks([c] + rest) == [Blank(c)] + Blanks(rest)
  {
    assert ([c] + rest)[1..] == rest;
  }

  lemma {:induction false} BlanksOfPair(c: char, rest: string)
    ensures Blanks(['\\', c] + rest) == [' ', Blank(c)] + Blanks(rest)
  {
    assert ['\\', c] + rest == ['\\'] + ([c] + rest);
    BlanksOfLetter('\\', [c] + rest);
    BlanksOfLetter(c, rest);
  }

  lemma {:induction false} QuotationScans(x: Reading, p: nat, s: State, quote: char, body: Body)
    requires IsReading(x) && s.mode.Code? && At(x.src, p, [quote] + BodyText(body) + [quote]) && Quotable(quote, body)
    requires quote == '\'' || quote == '"'
    ensures Scans(x, p, s, p + |BodyText(body)| + 2, Opened(s, Code, quote),
                  [quote] + Blanks(BodyText(body)) + [quote])
  {
    var inside := Opened(s, Quoted(quote), quote);
    var text := BodyText(body);
    var end := p + 1 + |text|;
    AtParts(x.src, p, [quote] + text, [quote]);
    AtChar(x.src, p, quote, text);
    AtChar(x.src, end, quote, "");
    QuotedTextScans(x, p + 1, inside, quote, body);
    ScansAround(x, p, s, Move([quote], inside), end, inside, Blanks(text), Move([quote], Opened(s, Code, quote)));
  }

  lemma {:induction false} RegularTextScans(x: Reading, p: nat, s: State, inClass: bool, body: Body)
    requires IsReading(x) && s.mode == Regex(inClass) && At(x.src, p, BodyText(body)) && Regular(inClass, body)
    ensures Scans(x, p, s, p + |BodyText(body)|, s.(mode := Regex(false)), Spaces(|BodyText(body)|))
    decreases body
  {
    match body
    case Stop =>
      ScansNothing(x, p, s);
    case Letter(c, rest) =>
      var next := s.(mode := Regex(c == '[' || (inClass && c != ']')));
      AtChar(x.src, p, c, BodyText(rest));
      RegularTextScans(x, p + 1, next, next.mode.inClass, rest);
      ScansThen(x, p, s, Move(" ", next), p + 1 + |BodyText(rest)|, s.(mode := Regex(false)), Spaces(|BodyText(rest)|));
    case Escaped(c, rest) =>
      AtPair(x.src, p, '\\', c, BodyText(rest));
      RegularTextScans(x, p + 2, s, inClass, rest);
      ScansThen(x, p, s, Move("  ", s), p + 2 + |BodyText(rest)|, s.(mode := Regex(false)), Spaces(|BodyText(rest)|));
      TwoSpaces(|BodyText(rest)|);
  }

  lemma {:induction false} TwoSpaces(n: nat)
    ensures Spaces(n + 2) == "  " + Spaces(n)
  {
    assert Spaces(n + 2) == " " + Spaces(n + 1) == " " + (" " + Spaces(n));
  }

  lemma {:induction false} PatternScans(x: Reading, p: nat, s: State, body: Body)
    requires IsReading(x) && s.mode.Code? && RegexMayStart(s) && At(x.src, p, "/" + BodyText(body) + "/")
    requires Regular(false, body) && |BodyText(body)| > 0 && BodyText(body)[0] != '*'
    ensures Scans(x, p, s, p + |BodyText(body)| + 2, Opened(s, Code, '/'),
                  "/" + Spaces(|BodyText(body)|) + "/")
  {
    var inside := Opened(s, Regex(false), '/');
    var text := BodyText(body);
    var end := p + 1 + |text|;
    AtParts(x.src, p, "/" + text, "/");
    AtChar(x.src, p, '/', text);
    AtChar(x.src, end, '/', "");
    RegularTextScans(x, p + 1, inside, false, body);
    ScansAround(x, p, s, Move("/", inside), end, inside, Spaces(|text|), Move("/", Opened(s, Code, '/')));
  }

  // ----- whole programs -----

  /** No hole is open above the current depth. */
  predicate Covered(s: State) {
    |s.braces| > 0 ==> s.braces[|s.braces| - 1] <= s.depth
  }

  lemma {:induction false} ProgramScans(x: Reading, p: nat, s: State, g: Program)
    requires IsReading(x) && s.mode.Code? && Covered(s) && At(x.src, p, Text(g))
    requires WellFormed(g) && Judged(x.tab, s, g)
    ensures Scans(x, p, s, p + |Text(g)|, After(x.tab, s, g), Kernel(g))
    decreases g, 0
  {
    match g
    case Finish =>
      ScansNothing(x, p, s);
    case Then(item, rest) =>
      var mid, next := p + |ItemText(item)|, AfterItem(x.tab, s, item);
      AtParts(x.src, p, ItemText(item), Text(rest));
      ItemScans(x, p, s, item, Text(rest));
      ProgramScans(x, mid, next, rest);
      ScansJoin(x, p, s, mid, next, mid + |Text(rest)|, After(x.tab, next, rest), ItemKernel(item), Kernel(rest));
  }

  lemma {:induction false} ItemScans(x: Reading, p: nat, s: State, item: Item, next: string)
    requires IsReading(x) && s.mode.Code? && Covered(s) && WellFormedItem(item, next) && JudgedItem(x.tab, s, item)
    requires At(x.src, p, ItemText(item)) && At(x.src, p + |ItemText(item)|, next)
    ensures Scans(x, p, s, p + |ItemText(item)|, AfterItem(x.tab, s, item), ItemKernel(item))
    decreases item, 0
  {
    match item
    case Symbol(c) => SymbolScans(x, p, s, c, next);
    case LineNote(text) => LineNoteScans(x, p, s, text);
    case BlockNote(text) => BlockNoteScans(x, p, s, text);
    case Quotation(quote, body) => QuotationScans(x, p, s, quote, body);
    case Pattern(body) => PatternScans(x, p, s, body);
    case Group(inner) => GroupScans(x, p, s, inner);
    case Literal(prose) => LiteralScans(x, p, s, prose);
  }

  lemma {:induction false} SymbolScans(x: Reading, p: nat, s: State, c: char, next: string)
    requires IsReading(x) && s.mode.Code? && At(x.src, p, [c]) && At(x.src, p + 1, next)
    requires !IsDelimiter(c) && (c == '/' ==> Divides(next) && !RegexMayStart(s))
    ensures Scans(x, p, s, p + 1, Kept(x.tab, s, c), [c])
  {
    AtChar(x.src, p, c, "");
    if c == '/' {
      AtChar(x.src, p + 1, next[0], next[1..]);
    }
    ScansStep(x, p, s, Move([c], Kept(x.tab, s, c)));
  }

  lemma {:induction false} GroupScans(x: Reading, p: nat, s: State, inner: Program)
    requires IsReading(x) && s.mode.Code? && Covered(s) && At(x.src, p, "{" + Text(inner) + "}")
    requires WellFormed(inner) && Judged(x.tab, GroupEntered(x.tab, s), inner)
    ensures Scans(x, p, s, p + |Text(inner)| + 2, GroupLeft(x.tab, s, After(x.tab, GroupEntered(x.tab, s), inner)),
                  "{" + Kernel(inner) + "}")
    decreases inner, 1
  {
    var text, entered := Text(inner), GroupEntered(x.tab, s);
    AtParts(x.src, p, "{" + text, "}");
    AtChar(x.src, p, '{', text);
    AtChar(x.src, p + 1 + |text|, '}', "");
    ProgramScans(x, p + 1, entered, inner);
    GroupAround(x, p, s, |text|, After(x.tab, entered, inner), Kernel(inner));
  }

  lemma {:induction false} GroupAround(x: Reading, p: nat, s: State, n: nat, within: State, kept: string)
    requires IsReading(x) && s.mode.Code? && Covered(s) && SameNesting(GroupEntered(x.tab, s), within)
    requires p + 1 + n < |x.src| && x.src[p] == '{' && x.src[p + 1 + n] == '}'
    requires Scans(x, p + 1, GroupEntered(x.tab, s), p + 1 + n, within, kept)
    ensures Scans(x, p, s, p + n + 2, GroupLeft(x.tab, s, within), "{" + kept + "}")
  {
    ScansAround(x, p, s, Move("{", GroupEntered(x.tab, s)), p + 1 + n, within, kept,
                Move("}", GroupLeft(x.tab, s, within)));
  }

  lemma {:induction false} LiteralScans(x: Reading, p: nat, s: State, prose: Prose)
    requires IsReading(x) && s.mode.Code? && Covered(s) && At(x.src, p, "`" + ProseText(prose) + "`")
    requires WellFormedProse(prose) && JudgedProse(x.tab, Opened(s, Code, '`'), prose)
    ensures Scans(x, p, s, p + |ProseText(prose)| + 2, AfterProse(x.tab, Opened(s, Code, '`'), prose),
                  "`" + ProseKernel(prose) + "`")
    decreases prose, 1
  {
    var text, entered := ProseText(prose), Opened(s, Code, '`');
    assert "`" + text + "`" == "`" + (text + "`");
    AtChar(x.src, p, '`', text + "`");
    AtParts(x.src, p + 1, text, "`");
    AtChar(x.src, p + 1 + |text|, '`', "");
    ProseScans(x, p + 1, entered, prose);
    LiteralAround(x, p, s, |text|, AfterProse(x.tab, entered, prose), ProseKernel(prose));
  }

  /** The state inside the text of a template literal. */
  function InText(s: State): State {
    s.(mode := Template)
  }

  lemma {:induction false} LiteralAround(x: Reading, p: nat, s: State, n: nat, within: State, kept: string)
    requires IsReading(x) && s.mode.Code? && within.mode.Code?
    requires p + 1 + n < |x.src| && x.src[p] == '`' && x.src[p + 1 + n] == '`'
    requires Scans(x, p + 1, InText(Opened(s, Code, '`')), p + 1 + n, InText(within), kept)
    ensures Scans(x, p, s, p + n + 2, within, "`" + kept + "`")
  {
    ScansAround(x, p, s, Move("`", InText(Opened(s, Code, '`'))), p + 1 + n, InText(within), kept,
                Move("`", within));
  }

  /** The text of a template literal, up to its closing backtick. */
  lemma {:induction false} ProseScans(x: Reading, p: nat, s: State, prose: Prose)
    requires IsReading(x) && s.mode.Code? && Covered(s) && At(x.src, p, ProseText(prose) + "`")
    requires WellFormedProse(prose) && JudgedProse(x.tab, s, prose)
    ensures Scans(x, p, InText(s), p + |ProseText(prose)|, InText(AfterProse(x.tab, s, prose)), ProseKernel(prose))
    decreases prose, 0
  {
    match prose
    case Close =>
      ScansNothing(x, p, InText(s));
    case Along(piece, rest) =>
      var mid, next, later := p + |PieceText(piece)|, AfterPiece(x.tab, s, piece), ProseText(rest) + "`";
      assert ProseText(prose) + "`" == PieceText(piece) + later;
      AtParts(x.src, p, PieceText(piece), later);
      PieceScans(x, p, s, piece, ProseText(rest));
      ProseScans(x, mid, next, rest);
      ScansJoin(x, p, InText(s), mid, InText(next), mid + |ProseText(rest)|, InText(AfterProse(x.tab, next, rest)),
                PieceKernel(piece), ProseKernel(rest));
  }

  lemma {:induction false} PieceScans(x: Reading, p: nat, s: State, piece: Piece, next: string)
    requires IsReading(x) && s.mode.Code? && At(x.src, p, PieceText(piece) + (next + "`"))
    requires WellFormedPiece(piece, next) && (piece.Hole? ==> Judged(x.tab, HoleEntered(s), piece.inner))
    ensures Scans(x, p, InText(s), p + |PieceText(piece)|, InText(AfterPiece(x.tab, s, piece)), PieceKernel(piece))
    decreases piece, 0
  {
    match piece
    case Word(c) =>
      AtChar(x.src, p, c, next + "`");
      ScansStep(x, p, InText(s), Move([Blank(c)], InText(s)));
    case EscapedWord(c) =>
      AtPair(x.src, p, '\\', c, next + "`");
      ScansStep(x, p, InText(s), Move([' ', Blank(c)], InText(s)));
    case Hole(inner) =>
      AtParts(x.src, p, PieceText(piece), next + "`");
      HoleScans(x, p, s, inner);
  }

  lemma {:induction false} HoleScans(x: Reading, p: nat, s: State, inner: Program)
    requires IsReading(x) && s.mode.Code? && At(x.src, p, "${" + Text(inner) + "}")
    requires WellFormed(inner) && Judged(x.tab, HoleEntered(s), inner)
    ensures Scans(x, p, InText(s), p + |Text(inner)| + 3,
                  InText(After(x.tab, HoleEntered(s), inner).(braces := s.braces)), "${" + Kernel(inner) + "}")
    decreases inner, 1
  {
    var text, entered := Text(inner), HoleEntered(s);
    AtParts(x.src, p, "${" + text, "}");
    AtPair(x.src, p, '$', '{', text);
    AtChar(x.src, p + 2 + |text|, '}', "");
    ProgramScans(x, p + 2, entered, inner);
    HoleAround(x, p, s, |text|, After(x.tab, entered, inner), Kernel(inner));
  }

  lemma {:induction false} HoleAround(x: Reading, p: nat, s: State, n: nat, within: State, kept: string)
    requires IsReading(x) && s.mode.Code? && SameNesting(HoleEntered(s), within)
    requires p + 2 + n < |x.src| && x.src[p] == '$' && x.src[p + 1] == '{' && x.src[p + 2 + n] == '}'
    requires Scans(x, p + 2, HoleEntered(s), p + 2 + n, within, kept)
    ensures Scans(x, p, InText(s), p + n + 3, InText(within.(braces := s.braces)), "${" + kept + "}")
  {
    assert within.braces[..|within.braces| - 1] == s.braces;
    ScansAround(x, p, InText(s), Move("${", HoleEntered(s)), p + 2 + n, within, kept,
                Move("}", InText(within.(braces := s.braces))));
  }

  lemma {:induction false} EmitsIsReading(tab: CharTable, src: string) returns (x: Reading)
    ensures x == Reading(tab, src, (p: nat, s: State) => Emits(tab, src, p, s)) && IsReading(x)
  {
    x := Reading(tab, src, (p: nat, s: State) => Emits(tab, src, p, s));
    forall p: nat, s: State ensures StepsAt(x, p, s) {
    }
  }

  lemma {:induction false} ScansToTheEnd(tab: CharTable, src: string, x: Reading, t: State, kept: string)
    requires x == Reading(tab, src, (p: nat, s: State) => Emits(tab, src, p, s))
    requires Scans(x, 0, START, |src|, t, kept)
    ensures Blanked(tab, src) == kept
  {
    RunEmits(tab, src, 0, START, "");
    assert x.emits(|src|, t) == "" && kept + "" == kept;
  }

  lemma {:induction false} ProgramIsRead(tab: CharTable, src: string, g: Program) returns (x: Reading)
    requires WellFormed(g) && Judged(tab, START, g) && At(src, 0, Text(g))
    ensures x == Reading(tab, src, (p: nat, s: State) => Emits(tab, src, p, s)) && IsReading(x)
    ensures Scans(x, 0, START, |Text(g)|, After(tab, START, g), Kernel(g))
  {
    x := EmitsIsReading(tab, src);
    ProgramScans(x, 0, START, g);
  }

  /** Blanking a well-formed source leaves exactly its kernel. */
  lemma {:induction false} BlankingLeavesTheKernel(tab: CharTable, g: Program)
    requires WellFormed(g) && Judged(tab, START, g)
    ensures Blanked(tab, Text(g)) == Kernel(g)
  {
    var x := ProgramIsRead(tab, Text(g), g);
    ScansToTheEnd(tab, Text(g), x, After(tab, START, g), Kernel(g));
  }

  /** The same for a source that ends in a line comment without a line end. */
  lemma {:induction false} BlankingLeavesTheKernelAndALastNote(tab: CharTable, g: Program, text: string)
    requires WellFormed(g) && Judged(tab, START, g) && '\n' !in text
    ensures Blanked(tab, Text(g) + ("//" + text)) == Kernel(g) + ("  " + Blanks(text))
  {
    var src := Text(g) + ("//" + text);
    AtParts(src, 0, Text(g), "//" + text);
    var x := ProgramIsRead(tab, src, g);
    LastNoteIsRead(tab, src, x, |Text(g)|, After(tab, START, g), Kernel(g), text);
  }

  lemma {:induction false} LastNoteIsRead(
    tab: CharTable, src: string, x: Reading, p: nat, s: State, kept: string, text: string)
    requires x == Reading(tab, src, (p: nat, s: State) => Emits(tab, src, p, s)) && IsReading(x)
    requires s.mode.Code? && At(src, p, "//" + text) && |src| == p + |text| + 2 && '\n' !in text
    requires Scans(x, 0, START, p, s, kept)
    ensures Blanked(tab, src) == kept + ("  " + Blanks(text))
  {
    ThenLastNote(x, p, s, kept, text);
    ScansToTheEnd(tab, src, x, s.(mode := Line), kept + ("  " + Blanks(text)));
  }

  lemma {:induction false} ThenLastNote(x: Reading, p: nat, s: State, kept: string, text: string)
    requires IsReading(x) && s.mode.Code? && At(x.src, p, "//" + text) && '\n' !in text
    requires Scans(x, 0, START, p, s, kept)
    ensures Scans(x, 0, START, p + |text| + 2, s.(mode := Line), kept + ("  " + Blanks(text)))
  {
    LastNoteScans(x, p, s, text);
    ScansJoin(x, 0, START, p, s, p + |text| + 2, s.(mode := Line), kept, "  " + Blanks(text));
  }

  lemma {:induction false} LastNoteScans(x: Reading, p: nat, s: State, text: string)
    requires IsReading(x) && s.mode.Code? && At(x.src, p, "//" + text) && '\n' !in text
    ensures Scans(x, p, s, p + |text| + 2, s.(mode := Line), "  " + Blanks(text))
  {
    assert "//" + text == "/" + ("/" + text);
    AtChar(x.src, p, '/', "/" + text);
    LineTextScans(x, p + 1, s.(mode := Line), "/" + text);
    ScansThen(x, p, s, Move(" ", s.(mode := Line)), p + |text| + 2, s.(mode := Line), Blanks("/" + text));
    BlanksOfLetter('/', text);
    assert " " + (" " + Blanks(text)) == "  " + Blanks(text);
  }
}
