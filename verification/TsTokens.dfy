/**
 Which slash is what, told by the tokens before it.  On sources whose slashes stand where the
 tokens say, the scanner's own rule takes each for what it is.
 */
module TsTokens {
  import opened TsBlanking
  import opened TsGrammar
  import opened TsLexer

  // ----- the token before -----

  /**
   What stands before a place, past blanks and comments: nothing, a mark, a word or number, a
   literal; or something that is not told here, because two words run into each other for a
   reader that forgets a comment or a piece of template text between them.
   */
  datatype Before = Nothing | Mark(c: char) | Name(text: string) | Ended | Untold

  /** Whether a word ends right here, or would but for a comment or template text. */
  datatype Edge = Apart | Touching | Joined

  datatype Context = Context(before: Before, edge: Edge)

  const AT_START := Context(Nothing, Apart)

  /** An operand is expected after these, so that a slash opens a pattern. */
  predicate ExpectsOperand(before: Before) {
    match before
    case Nothing => true
    case Mark(c) => c in {'(', ',', '=', ':', '[', '!', '&', '|', '?', '{', '}', ';', '+', '-', '*', '%', '<', '>', '~', '^'}
    case Name(text) => IsOperatorWord(text)
    case Ended => false
    case Untold => false
  }

  predicate IsOperatorWord(text: string) {
    text in {"return", "typeof", "case", "in", "of", "void", "delete"}
  }

  /** After an identifier, a number, a closer or a literal a slash divides. */
  predicate EndsOperand(before: Before) {
    match before
    case Nothing => false
    case Mark(c) => c in {')', ']', '.'}
    case Name(text) => !IsOperatorWord(text)
    case Ended => true
    case Untold => false
  }

  // ----- the context along a source -----

  /** Words and numbers are made of the table's letters and of dollar signs. */
  predicate InWord(tab: CharTable, c: char) {
    tab.word(c) || c == '$'
  }

  function AfterChar(tab: CharTable, ctx: Context, c: char): Context {
    if InWord(tab, c) then
      match ctx.edge
      case Apart => Context(Name([c]), Touching)
      case Touching => Context(if ctx.before.Name? then Name(ctx.before.text + [c]) else Untold, Touching)
      case Joined => Context(Untold, Touching)
    else if tab.space(c) then ctx.(edge := Apart)
    else Context(Mark(c), Apart)
  }

  /** Past a comment or template text a word is no longer touched, but may be run into. */
  function Past(edge: Edge): Edge {
    if edge == Apart then Apart else Joined
  }

  function ContextAfter(tab: CharTable, ctx: Context, g: Program): Context
    decreases g
  {
    match g
    case Finish => ctx
    case Then(item, rest) => ContextAfter(tab, ContextAfterItem(tab, ctx, item), rest)
  }

  function ContextAfterItem(tab: CharTable, ctx: Context, item: Item): Context
    decreases item
  {
    match item
    case Symbol(c) => AfterChar(tab, ctx, c)
    case LineNote(_) => AfterChar(tab, ctx, '\n')
    case BlockNote(_) => ctx.(edge := Past(ctx.edge))
    case Quotation(_, _) => Context(Ended, Apart)
    case Pattern(_) => Context(Ended, Apart)
    case Group(inner) => AfterChar(tab, ContextAfter(tab, AfterChar(tab, ctx, '{'), inner), '}')
    case Literal(prose) => ContextAfterProse(tab, Context(Ended, Apart), prose)
  }

  /** A template literal is a literal, unless the code in its last hole ends in something not told. */
  function ContextAfterProse(tab: CharTable, ctx: Context, prose: Prose): Context
    decreases prose
  {
    match prose
    case Close => ctx
    case Along(piece, rest) => ContextAfterProse(tab, ContextAfterPiece(tab, ctx, piece), rest)
  }

  function ContextAfterPiece(tab: CharTable, ctx: Context, piece: Piece): Context
    decreases piece
  {
    if piece.Hole? then
      var end := ContextAfter(tab, InHole(ctx), piece.inner);
      Context(if EndsOperand(end.before) then Ended else Untold, Past(end.edge))
    else ctx
  }

  /** Where a hole opens, what a slash is is not told. */
  function InHole(ctx: Context): Context {
    Context(Untold, ctx.edge)
  }

  // ----- slashes where the tokens say -----

  /** Every pattern stands where an operand is expected, and every division where one has ended. */
  predicate Placed(tab: CharTable, ctx: Context, g: Program)
    decreases g
  {
    match g
    case Finish => true
    case Then(item, rest) => PlacedItem(tab, ctx, item) && Placed(tab, ContextAfterItem(tab, ctx, item), rest)
  }

  predicate PlacedItem(tab: CharTable, ctx: Context, item: Item)
    decreases item
  {
    match item
    case Symbol(c) => c == '/' ==> EndsOperand(ctx.before)
    case Pattern(_) => ExpectsOperand(ctx.before)
    case Group(inner) => Placed(tab, AfterChar(tab, ctx, '{'), inner)
    case Literal(prose) => PlacedProse(tab, Context(Ended, Apart), prose)
    case _ => true
  }

  predicate PlacedProse(tab: CharTable, ctx: Context, prose: Prose)
    decreases prose
  {
    match prose
    case Close => true
    case Along(piece, rest) =>
      (piece.Hole? ==> Placed(tab, InHole(ctx), piece.inner)) && PlacedProse(tab, ContextAfterPiece(tab, ctx, piece), rest)
  }

  /** No operator mark is a letter of a word. */
  ghost predicate TellsMarks(tab: CharTable) {
    forall c :: ExpectsOperand(Mark(c)) ==> !InWord(tab, c)
  }

  // ----- the scanner's rule -----

  /** The scanner's state tells of a slash what the context tells. */
  ghost predicate Agrees(ctx: Context, s: State) {
    && (ctx.edge == Apart ==> !s.prevIdent)
    && (ctx.before.Name? && ctx.edge == Touching ==> s.prevIdent)
    && match ctx.before
       case Nothing => s.last == "" && s.word == ""
       case Mark(c) => s.last == [c] && s.word == ""
       case Name(text) => s.word == text && |s.last| == 1 && !ExpectsOperand(Mark(s.last[0]))
       case Ended => !RegexMayStart(s)
       case Untold => true
  }

  lemma {:induction false} PrecedersAreMarks(c: char)
    ensures c in REGEX_PRECEDERS <==> ExpectsOperand(Mark(c))
  {
    assert REGEX_PRECEDERS == ['(', ',', '=', ':', '[', '!', '&', '|', '?', '{', '}', ';', '+', '-', '*', '%', '<', '>', '~', '^'];
  }

  lemma {:induction false} AgreesOnSlash(ctx: Context, s: State)
    requires Agrees(ctx, s)
    ensures ExpectsOperand(ctx.before) ==> RegexMayStart(s)
    ensures EndsOperand(ctx.before) ==> !RegexMayStart(s)
  {
    if |s.last| == 1 {
      PrecedersAreMarks(s.last[0]);
    }
  }

  lemma {:induction false} AgreesAfterChar(tab: CharTable, ctx: Context, s: State, c: char)
    requires TellsMarks(tab) && Agrees(ctx, s)
    ensures Agrees(AfterChar(tab, ctx, c), Kept(tab, s, c))
  {
  }

  lemma {:induction false} AgreesAfterDelimiter(s: State, mode: Mode, delimiter: char)
    requires delimiter in {'\'', '"', '`', '/'}
    ensures Agrees(Context(Ended, Apart), Opened(s, mode, delimiter))
  {
    PrecedersAreMarks(delimiter);
  }

  /** Whatever the slashes are, the scanner's state goes on telling what the context tells. */
  lemma {:induction false} AgreesAfter(tab: CharTable, ctx: Context, s: State, g: Program)
    requires TellsMarks(tab) && Agrees(ctx, s) && WellFormed(g)
    ensures Agrees(ContextAfter(tab, ctx, g), After(tab, s, g))
    decreases g, 0
  {
    match g
    case Finish =>
    case Then(item, rest) =>
      AgreesAfterItem(tab, ctx, s, item, Text(rest));
      AgreesAfter(tab, ContextAfterItem(tab, ctx, item), AfterItem(tab, s, item), rest);
  }

  lemma {:induction false} AgreesAfterItem(tab: CharTable, ctx: Context, s: State, item: Item, next: string)
    requires TellsMarks(tab) && Agrees(ctx, s) && WellFormedItem(item, next)
    ensures Agrees(ContextAfterItem(tab, ctx, item), AfterItem(tab, s, item))
    decreases item, 0
  {
    match item
    case Symbol(c) => AgreesAfterChar(tab, ctx, s, c);
    case LineNote(_) => AgreesAfterChar(tab, ctx, s, '\n');
    case BlockNote(_) =>
    case Quotation(quote, _) => AgreesAfterDelimiter(s, s.mode, quote);
    case Pattern(_) => AgreesAfterDelimiter(s, s.mode, '/');
    case Group(inner) =>
      AgreesAfterChar(tab, ctx, s.(depth := s.depth + 1), '{');
      AgreesAfter(tab, AfterChar(tab, ctx, '{'), GroupEntered(tab, s), inner);
      var within := After(tab, GroupEntered(tab, s), inner);
      AgreesAfterChar(tab, ContextAfter(tab, AfterChar(tab, ctx, '{'), inner), within.(depth := s.depth), '}');
    case Literal(prose) =>
      AgreesAfterDelimiter(s, s.mode, '`');
      AgreesAfterProse(tab, Context(Ended, Apart), Opened(s, s.mode, '`'), prose);
  }

  lemma {:induction false} AgreesAfterProse(tab: CharTable, ctx: Context, s: State, prose: Prose)
    requires TellsMarks(tab) && Agrees(ctx, s) && WellFormedProse(prose)
    ensures Agrees(ContextAfterProse(tab, ctx, prose), AfterProse(tab, s, prose))
    decreases prose, 0
  {
    match prose
    case Close =>
    case Along(piece, rest) =>
      if piece.Hole? {
        AgreesAfterHole(tab, ctx, s, piece.inner);
      }
      AgreesAfterProse(tab, ContextAfterPiece(tab, ctx, piece), AfterPiece(tab, s, piece), rest);
  }

  lemma {:induction false} AgreesAfterHole(tab: CharTable, ctx: Context, s: State, inner: Program)
    requires TellsMarks(tab) && Agrees(ctx, s) && WellFormed(inner)
    ensures Agrees(ContextAfterPiece(tab, ctx, Hole(inner)), AfterPiece(tab, s, Hole(inner)))
    decreases inner, 1
  {
    AgreesAfter(tab, InHole(ctx), HoleEntered(s), inner);
    AgreesOnSlash(ContextAfter(tab, InHole(ctx), inner), After(tab, HoleEntered(s), inner));
  }

  lemma {:induction false} PlacedIsJudged(tab: CharTable, ctx: Context, s: State, g: Program)
    requires TellsMarks(tab) && Agrees(ctx, s) && WellFormed(g) && Placed(tab, ctx, g)
    ensures Judged(tab, s, g)
    decreases g, 0
  {
    match g
    case Finish =>
    case Then(item, rest) =>
      PlacedItemIsJudged(tab, ctx, s, item, Text(rest));
      AgreesAfterItem(tab, ctx, s, item, Text(rest));
      PlacedIsJudged(tab, ContextAfterItem(tab, ctx, item), AfterItem(tab, s, item), rest);
  }

  lemma {:induction false} PlacedItemIsJudged(tab: CharTable, ctx: Context, s: State, item: Item, next: string)
    requires TellsMarks(tab) && Agrees(ctx, s) && WellFormedItem(item, next) && PlacedItem(tab, ctx, item)
    ensures JudgedItem(tab, s, item)
    decreases item, 0
  {
    match item
    case Symbol(_) => AgreesOnSlash(ctx, s);
    case Pattern(_) => AgreesOnSlash(ctx, s);
    case Group(inner) =>
      AgreesAfterChar(tab, ctx, s.(depth := s.depth + 1), '{');
      PlacedIsJudged(tab, AfterChar(tab, ctx, '{'), GroupEntered(tab, s), inner);
    case Literal(prose) =>
      AgreesAfterDelimiter(s, s.mode, '`');
      PlacedProseIsJudged(tab, Context(Ended, Apart), Opened(s, s.mode, '`'), prose);
    case _ =>
  }

  lemma {:induction false} PlacedProseIsJudged(tab: CharTable, ctx: Context, s: State, prose: Prose)
    requires TellsMarks(tab) && Agrees(ctx, s) && WellFormedProse(prose) && PlacedProse(tab, ctx, prose)
    ensures JudgedProse(tab, s, prose)
    decreases prose, 0
  {
    match prose
    case Close =>
    case Along(piece, rest) =>
      if piece.Hole? {
        PlacedIsJudged(tab, InHole(ctx), HoleEntered(s), piece.inner);
        AgreesAfterHole(tab, ctx, s, piece.inner);
      }
      PlacedProseIsJudged(tab, ContextAfterPiece(tab, ctx, piece), AfterPiece(tab, s, piece), rest);
  }

  /**
   Blanking leaves exactly the kernel of every well-formed source whose patterns stand where an
   operand is expected and whose divisions stand where one has ended.
   */
  lemma {:induction false} PlacedSlashesLeaveTheKernel(tab: CharTable, g: Program)
    requires TellsMarks(tab) && WellFormed(g) && Placed(tab, AT_START, g)
    ensures Blanked(tab, Text(g)) == Kernel(g)
  {
    PlacedIsJudged(tab, AT_START, START, g);
    BlankingLeavesTheKernel(tab, g);
  }

  /** The same for a source that ends in a line comment without a line end. */
  lemma {:induction false} PlacedSlashesLeaveTheKernelAndALastNote(tab: CharTable, g: Program, text: string)
    requires TellsMarks(tab) && WellFormed(g) && Placed(tab, AT_START, g) && '\n' !in text
    ensures Blanked(tab, Text(g) + ("//" + text)) == Kernel(g) + ("  " + Blanks(text))
  {
    PlacedIsJudged(tab, AT_START, START, g);
    BlankingLeavesTheKernelAndALastNote(tab, g, text);
  }

  lemma {:induction false} ArgumentText(body: Body, rest: Program, argument: Program)
    requires body == Letter('\'', Stop) && rest == Then(Symbol(')'), Then(Symbol(';'), Then(Symbol('a'), Finish)))
    requires argument == Then(Pattern(body), rest)
    ensures WellFormed(argument) && Text(argument) == "/'/);a" && Kernel(argument) == "/ /);a"
  {
    assert Text(rest) == ");a" && Kernel(rest) == ");a" && BodyText(body) == "'" && Spaces(1) == " ";
    assert Text(argument) == "/'/" + Text(rest) && Kernel(argument) == "/ /" + Kernel(rest);
  }

  lemma {:induction false} ArgumentIsPlaced(body: Body, rest: Program, argument: Program, ctx: Context)
    requires rest == Then(Symbol(')'), Then(Symbol(';'), Then(Symbol('a'), Finish)))
    requires argument == Then(Pattern(body), rest) && ctx == Context(Mark('('), Apart)
    ensures Placed(ASCII, ctx, argument)
  {
    var ended := Context(Ended, Apart);
    assert Placed(ASCII, ended, rest);
  }

  /** A pattern that is the argument of a call is read as one, and the code after it stays. */
  lemma {:induction false} ArgumentIsAPattern(body: Body, rest: Program, argument: Program, g: Program)
    requires body == Letter('\'', Stop) && rest == Then(Symbol(')'), Then(Symbol(';'), Then(Symbol('a'), Finish)))
    requires argument == Then(Pattern(body), rest) && g == Then(Symbol('m'), Then(Symbol('('), argument))
    ensures Text(g) == "m(/'/);a" && Blanked(ASCII, Text(g)) == "m(/ /);a"
  {
    ArgumentText(body, rest, argument);
    ArgumentIsPlaced(body, rest, argument, Context(Mark('('), Apart));
    var called := Then(Symbol('('), argument);
    assert Text(called) == "(" + Text(argument) && Kernel(called) == "(" + Kernel(argument);
    assert Text(g) == "m" + Text(called) && Kernel(g) == "m" + Kernel(called);
    PlacedSlashesLeaveTheKernel(ASCII, g);
  }
}
