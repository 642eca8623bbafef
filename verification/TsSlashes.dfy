/**
 What hangs on the scanner's rule for slashes.  A well-formed source is blanked to its kernel
 when the rule takes each slash for what it is, and, but for slashes with nothing to see after
 them, only then.
 */
module TsSlashes {
  import opened Sequences
  import opened TsBlanking
  import opened TsGrammar
  import opened TsLexer

  // ----- slashes whose misreading shows -----

  /** A pattern's text is not all spaces. */
  predicate Visible(b: Body) {
    match b
    case Stop => false
    case Letter(c, rest) => c != ' ' || Visible(rest)
    case Escaped(_, _) => true
  }

  /** After spaces at most, code other than a slash, a literal or a comment follows on the line. */
  predicate Continued(g: Program) {
    match g
    case Finish => false
    case Then(item, rest) =>
      match item
      case Symbol(c) => if c == ' ' then Continued(rest) else c != '\n' && c != '/'
      case Pattern(_) => false
      case _ => true
  }

  /** Each division is continued on its line, and each pattern has something visible in it. */
  predicate Telling(g: Program)
    decreases g
  {
    match g
    case Finish => true
    case Then(item, rest) => TellingItem(item, rest) && Telling(rest)
  }

  predicate TellingItem(item: Item, rest: Program)
    decreases item
  {
    match item
    case Symbol(c) => c == '/' ==> Continued(rest)
    case Pattern(body) => Visible(body)
    case Group(inner) => Telling(inner)
    case Literal(prose) => TellingProse(prose)
    case _ => true
  }

  predicate TellingProse(prose: Prose)
    decreases prose
  {
    match prose
    case Close => true
    case Along(piece, rest) => (piece.Hole? ==> Telling(piece.inner)) && TellingProse(rest)
  }

  // ----- a difference -----

  /** What the scanner emits from `p` on differs from what must be left, at some place they both have. */
  ghost predicate Differs(x: Reading, p: nat, s: State, kernel: string) {
    exists k: nat :: k < |kernel| && k < |x.emits(p, s)| && x.emits(p, s)[k] != kernel[k]
  }

  lemma {:induction false} DiffersHere(x: Reading, p: nat, s: State, kernel: string)
    requires IsReading(x) && p < |x.src| && |kernel| > 0 && Step(x.tab, x.src, p, s).out[0] != kernel[0]
    ensures Differs(x, p, s, kernel)
  {
    assert StepsAt(x, p, s);
    assert x.emits(p, s)[0] != kernel[0];
  }

  lemma {:induction false} DiffersAfter(x: Reading, p: nat, s: State, q: nat, t: State, kept: string, kernel: string)
    requires Scans(x, p, s, q, t, kept) && Differs(x, q, t, kernel)
    ensures Differs(x, p, s, kept + kernel)
  {
    var k: nat :| k < |kernel| && k < |x.emits(q, t)| && x.emits(q, t)[k] != kernel[k];
    assert x.emits(p, s)[|kept| + k] != (kept + kernel)[|kept| + k];
  }

  lemma {:induction false} DiffersBefore(x: Reading, p: nat, s: State, kernel: string, more: string)
    requires Differs(x, p, s, kernel)
    ensures Differs(x, p, s, kernel + more)
  {
    var k: nat :| k < |kernel| && k < |x.emits(p, s)| && x.emits(p, s)[k] != kernel[k];
    assert (kernel + more)[k] == kernel[k];
  }

  lemma {:induction false} DiffersThen(x: Reading, p: nat, s: State, m: Move, kernel: string)
    requires IsReading(x) && p < |x.src| && m == Step(x.tab, x.src, p, s) && Differs(x, p + |m.out|, m.next, kernel)
    ensures Differs(x, p, s, m.out + kernel)
  {
    ScansStep(x, p, s, m);
    DiffersAfter(x, p, s, p + |m.out|, m.next, m.out, kernel);
  }

  // ----- one slash misread -----

  lemma {:induction false} FirstKept(item: Item, next: string)
    requires WellFormedItem(item, next)
    ensures |ItemText(item)| > 0 && |ItemKernel(item)| > 0
    ensures ItemKernel(item)[0] == if item.LineNote? || item.BlockNote? then ' ' else ItemText(item)[0]
    ensures item.LineNote? || item.BlockNote? ==> ItemText(item)[0] == '/'
  {
  }

  /** Inside a pattern everything on the line but a slash becomes a space. */
  lemma {:induction false} PatternBlanks(tab: CharTable, src: string, p: nat, s: State)
    requires s.mode == Regex(false) && p < |src| && src[p] != '\n'
    ensures Step(tab, src, p, s).out[0] == if src[p] == '/' then '/' else ' '
  {
  }

  /** The first character of code, and what must be left of it, differ from what a pattern shows there. */
  lemma {:induction false} FirstToldApart(item: Item, rest: Program)
    requires WellFormedItem(item, Text(rest)) && Continued(Then(item, rest)) && item != Symbol(' ')
    ensures |ItemText(item)| > 0 && |ItemKernel(item)| > 0 && ItemText(item)[0] != '\n'
    ensures ItemKernel(item)[0] != if ItemText(item)[0] == '/' then '/' else ' '
  {
    FirstKept(item, Text(rest));
  }

  lemma {:induction false} FirstIsBlanked(x: Reading, p: nat, s: State, item: Item, rest: Program)
    requires IsReading(x) && s.mode == Regex(false) && At(x.src, p, ItemText(item)) && WellFormedItem(item, Text(rest))
    requires Continued(Then(item, rest)) && item != Symbol(' ')
    ensures Differs(x, p, s, ItemKernel(item))
  {
    FirstToldApart(item, rest);
    assert x.src[p + 0] == ItemText(item)[0];
    PatternBlanks(x.tab, x.src, p, s);
    DiffersHere(x, p, s, ItemKernel(item));
  }

  /** Text after a division that the scanner takes for the inside of a pattern. */
  lemma {:induction false} CodeIsBlanked(x: Reading, p: nat, s: State, g: Program)
    requires IsReading(x) && s.mode == Regex(false) && At(x.src, p, Text(g)) && WellFormed(g) && Continued(g)
    ensures Differs(x, p, s, Kernel(g))
    decreases g
  {
    match g
    case Then(item, rest) =>
      AtParts(x.src, p, ItemText(item), Text(rest));
      if item == Symbol(' ') {
        assert x.src[p + 0] == ItemText(item)[0];
        CodeIsBlanked(x, p + 1, s, rest);
        DiffersThen(x, p, s, Move(" ", s), Kernel(rest));
        assert ItemKernel(item) == " ";
      } else {
        FirstIsBlanked(x, p, s, item, rest);
        DiffersBefore(x, p, s, ItemKernel(item), Kernel(rest));
      }
  }

  /** The inside of a pattern that the scanner takes for code. */
  lemma {:induction false} PatternIsKept(x: Reading, p: nat, s: State, body: Body)
    requires IsReading(x) && s.mode.Code? && At(x.src, p, BodyText(body)) && Regular(false, body) && Visible(body)
    ensures Differs(x, p, s, Spaces(|BodyText(body)|))
    decreases body
  {
    assert x.src[p + 0] == BodyText(body)[0];
    if body.Letter? && body.c == ' ' {
      AtChar(x.src, p, ' ', BodyText(body.rest));
      PatternIsKept(x, p + 1, Kept(x.tab, s, ' '), body.rest);
      DiffersThen(x, p, s, Move(" ", Kept(x.tab, s, ' ')), Spaces(|BodyText(body.rest)|));
    } else {
      DiffersHere(x, p, s, Spaces(|BodyText(body)|));
    }
  }

  lemma {:induction false} SlashOpens(tab: CharTable, src: string, p: nat, s: State)
    requires s.mode.Code? && RegexMayStart(s) && p + 1 < |src| && src[p] == '/' && src[p + 1] != '/' && src[p + 1] != '*'
    ensures Step(tab, src, p, s) == Move("/", Opened(s, Regex(false), '/'))
  {
  }

  lemma {:induction false} DivisionMisread(x: Reading, p: nat, s: State, rest: Program)
    requires IsReading(x) && s.mode.Code? && RegexMayStart(s) && At(x.src, p, "/") && At(x.src, p + 1, Text(rest))
    requires Divides(Text(rest)) && WellFormed(rest) && Continued(rest)
    ensures Differs(x, p, s, "/" + Kernel(rest))
  {
    var inside := Opened(s, Regex(false), '/');
    AtChar(x.src, p, '/', "");
    assert x.src[p + 1 + 0] == Text(rest)[0];
    SlashOpens(x.tab, x.src, p, s);
    CodeIsBlanked(x, p + 1, inside, rest);
    DiffersThen(x, p, s, Move("/", inside), Kernel(rest));
  }

  lemma {:induction false} PatternMisread(x: Reading, p: nat, s: State, body: Body)
    requires IsReading(x) && s.mode.Code? && !RegexMayStart(s) && At(x.src, p, "/" + BodyText(body) + "/")
    requires Regular(false, body) && |BodyText(body)| > 0 && BodyText(body)[0] != '*' && Visible(body)
    ensures Differs(x, p, s, "/" + Spaces(|BodyText(body)|) + "/")
  {
    AtParts(x.src, p, "/" + BodyText(body), "/");
    AtChar(x.src, p, '/', BodyText(body));
    assert BodyText(body)[0] != '/';
    PatternIsKept(x, p + 1, Kept(x.tab, s, '/'), body);
    DiffersThen(x, p, s, Move("/", Kept(x.tab, s, '/')), Spaces(|BodyText(body)|));
    DiffersBefore(x, p, s, "/" + Spaces(|BodyText(body)|), "/");
  }

  // ----- whole programs -----

  lemma {:induction false} ProgramDiffers(x: Reading, p: nat, s: State, g: Program)
    requires IsReading(x) && s.mode.Code? && Covered(s) && At(x.src, p, Text(g))
    requires WellFormed(g) && Telling(g) && !Judged(x.tab, s, g)
    ensures Differs(x, p, s, Kernel(g))
    decreases g, 0
  {
    var item, rest := g.item, g.rest;
    AtParts(x.src, p, ItemText(item), Text(rest));
    if JudgedItem(x.tab, s, item) {
      var mid, next := p + |ItemText(item)|, AfterItem(x.tab, s, item);
      ItemScans(x, p, s, item, Text(rest));
      ProgramDiffers(x, mid, next, rest);
      DiffersAfter(x, p, s, mid, next, ItemKernel(item), Kernel(rest));
    } else {
      ItemDiffers(x, p, s, item, rest);
    }
  }

  lemma {:induction false} ItemDiffers(x: Reading, p: nat, s: State, item: Item, rest: Program)
    requires IsReading(x) && s.mode.Code? && Covered(s)
    requires At(x.src, p, ItemText(item)) && At(x.src, p + |ItemText(item)|, Text(rest))
    requires WellFormedItem(item, Text(rest)) && WellFormed(rest) && TellingItem(item, rest)
    requires !JudgedItem(x.tab, s, item)
    ensures Differs(x, p, s, ItemKernel(item) + Kernel(rest))
    decreases item, 0
  {
    match item
    case Symbol(_) =>
      DivisionMisread(x, p, s, rest);
    case Pattern(body) =>
      PatternMisread(x, p, s, body);
      DiffersBefore(x, p, s, ItemKernel(item), Kernel(rest));
    case Group(inner) =>
      GroupDiffers(x, p, s, inner);
      DiffersBefore(x, p, s, ItemKernel(item), Kernel(rest));
    case Literal(prose) =>
      LiteralDiffers(x, p, s, prose);
      DiffersBefore(x, p, s, ItemKernel(item), Kernel(rest));
  }

  lemma {:induction false} GroupDiffers(x: Reading, p: nat, s: State, inner: Program)
    requires IsReading(x) && s.mode.Code? && Covered(s) && At(x.src, p, "{" + Text(inner) + "}")
    requires WellFormed(inner) && Telling(inner) && !Judged(x.tab, GroupEntered(x.tab, s), inner)
    ensures Differs(x, p, s, "{" + Kernel(inner) + "}")
    decreases inner, 1
  {
    AtParts(x.src, p, "{" + Text(inner), "}");
    AtChar(x.src, p, '{', Text(inner));
    ProgramDiffers(x, p + 1, GroupEntered(x.tab, s), inner);
    DiffersThen(x, p, s, Move("{", GroupEntered(x.tab, s)), Kernel(inner));
    DiffersBefore(x, p, s, "{" + Kernel(inner), "}");
  }

  lemma {:induction false} LiteralDiffers(x: Reading, p: nat, s: State, prose: Prose)
    requires IsReading(x) && s.mode.Code? && Covered(s) && At(x.src, p, "`" + ProseText(prose) + "`")
    requires WellFormedProse(prose) && TellingProse(prose) && !JudgedProse(x.tab, Opened(s, Code, '`'), prose)
    ensures Differs(x, p, s, "`" + ProseKernel(prose) + "`")
    decreases prose, 1
  {
    var entered := Opened(s, Code, '`');
    assert "`" + ProseText(prose) + "`" == "`" + (ProseText(prose) + "`");
    AtChar(x.src, p, '`', ProseText(prose) + "`");
    ProseDiffers(x, p + 1, entered, prose);
    DiffersThen(x, p, s, Move("`", InText(entered)), ProseKernel(prose));
    DiffersBefore(x, p, s, "`" + ProseKernel(prose), "`");
  }

  lemma {:induction false} ProseDiffers(x: Reading, p: nat, s: State, prose: Prose)
    requires IsReading(x) && s.mode.Code? && Covered(s) && At(x.src, p, ProseText(prose) + "`")
    requires WellFormedProse(prose) && TellingProse(prose) && !JudgedProse(x.tab, s, prose)
    ensures Differs(x, p, InText(s), ProseKernel(prose))
    decreases prose, 0
  {
    var piece, rest := prose.piece, prose.rest;
    var later := ProseText(rest) + "`";
    assert ProseText(prose) + "`" == PieceText(piece) + later;
    AtParts(x.src, p, PieceText(piece), later);
    if piece.Hole? && !Judged(x.tab, HoleEntered(s), piece.inner) {
      HoleDiffers(x, p, s, piece.inner);
      DiffersBefore(x, p, InText(s), PieceKernel(piece), ProseKernel(rest));
    } else {
      var mid, next := p + |PieceText(piece)|, AfterPiece(x.tab, s, piece);
      PieceScans(x, p, s, piece, ProseText(rest));
      ProseDiffers(x, mid, next, rest);
      DiffersAfter(x, p, InText(s), mid, InText(next), PieceKernel(piece), ProseKernel(rest));
    }
  }

  lemma {:induction false} HoleDiffers(x: Reading, p: nat, s: State, inner: Program)
    requires IsReading(x) && s.mode.Code? && At(x.src, p, "${" + Text(inner) + "}")
    requires WellFormed(inner) && Telling(inner) && !Judged(x.tab, HoleEntered(s), inner)
    ensures Differs(x, p, InText(s), "${" + Kernel(inner) + "}")
    decreases inner, 1
  {
    AtParts(x.src, p, "${" + Text(inner), "}");
    AtPair(x.src, p, '$', '{', Text(inner));
    ProgramDiffers(x, p + 2, HoleEntered(s), inner);
    DiffersThen(x, p, InText(s), Move("${", HoleEntered(s)), Kernel(inner));
    DiffersBefore(x, p, InText(s), "${" + Kernel(inner), "}");
  }

  /**
   Blanking a well-formed source leaves exactly its kernel when the scanner's rule takes every
   slash for what it is; and where a misread slash would show, only then.
   */
  lemma {:induction false} KernelIsLeftExactly(tab: CharTable, g: Program)
    requires WellFormed(g)
    ensures Judged(tab, START, g) ==> Blanked(tab, Text(g)) == Kernel(g)
    ensures Telling(g) && Blanked(tab, Text(g)) == Kernel(g) ==> Judged(tab, START, g)
  {
    if Judged(tab, START, g) {
      BlankingLeavesTheKernel(tab, g);
    } else if Telling(g) {
      var x := EmitsIsReading(tab, Text(g));
      ProgramDiffers(x, 0, START, g);
      RunEmits(tab, Text(g), 0, START, "");
    }
  }

  /** A quotation that never closes on its line takes the rest of it. */
  lemma {:induction false} QuoteTakesTheRest(src: string, s: State, out: string)
    requires |src| == 6 && src[3..] == "/;a" && s.mode == Quoted('\'')
    ensures Run(ASCII, src, 3, s, out) == out + "   "
  {
    assert src[3] == src[3..][0] && src[4] == src[3..][1] && src[5] == src[3..][2];
    Take(src, 3, s, out, " ", s, out + " ");
    Take(src, 4, s, out + " ", " ", s, out + "  ");
    Take(src, 5, s, out + "  ", " ", s, out + "   ");
  }

  lemma {:induction false} ParenthesisIsNoPreceder(s: State)
    requires s.last == ")" && s.word == ""
    ensures !RegexMayStart(s)
  {
    assert |s.word| == 0;
  }

  /** A slash that the scanner takes for a division. */
  lemma {:induction false} SlashIsKept(src: string, i: nat, s: State)
    requires s.mode.Code? && i < |src| && src[i] == '/' && !Follows(src, i, '/') && !Follows(src, i, '*')
    requires !RegexMayStart(s)
    ensures Step(ASCII, src, i, s) == Move("/", Kept(ASCII, s, '/'))
  {
  }

  lemma {:induction false} SlashAfterParenthesis(src: string, closed: State)
    requires src == ")/'/;a" && closed == START.(last := ")")
    ensures Run(ASCII, src, 1, closed, ")") == Run(ASCII, src, 2, closed.(last := "/"), ")/")
  {
    ParenthesisIsNoPreceder(closed);
    SlashIsKept(src, 1, closed);
    Take(src, 1, closed, ")", "/", closed.(last := "/"), ")/");
  }

  lemma {:induction false} QuoteAfterSlash(src: string, s: State)
    requires src == ")/'/;a" && s.mode == Code
    ensures Run(ASCII, src, 2, s, ")/") == ")/'   "
  {
    var quoted := Opened(s, Quoted('\''), '\'');
    Take(src, 2, s, ")/", "'", quoted, ")/'");
    QuoteTakesTheRest(src, quoted, ")/'");
  }

  /** What the scanner makes of a pattern after a closing parenthesis, with a quote in it. */
  lemma {:induction false} QuoteIsOpened(src: string, closed: State)
    requires src == ")/'/;a" && closed == START.(last := ")")
    ensures Blanked(ASCII, src) == ")/'   "
  {
    Take(src, 0, START, "", ")", closed, ")");
    SlashAfterParenthesis(src, closed);
    QuoteAfterSlash(src, closed.(last := "/"));
  }

  /** A pattern after a closing parenthesis is misread: its quote hides the code after it on the line. */
  lemma {:induction false} MisreadPatternHidesCode(body: Body, rest: Program, g: Program)
    requires body == Letter('\'', Stop) && rest == Then(Symbol(';'), Then(Symbol('a'), Finish))
    requires g == Then(Symbol(')'), Then(Pattern(body), rest))
    ensures WellFormed(g) && Telling(g) && Text(g) == ")/'/;a"
    ensures Kernel(g) == ")/ /;a" && Blanked(ASCII, Text(g)) == ")/'   "
  {
    assert Text(rest) == ";a" && Kernel(rest) == ";a" && BodyText(body) == "'";
    var pattern := Then(Pattern(body), rest);
    assert Spaces(1) == " ";
    assert Text(pattern) == "/'/" + Text(rest) && Kernel(pattern) == "/ /" + Kernel(rest);
    assert Text(g) == ")" + Text(pattern) && Kernel(g) == ")" + Kernel(pattern);
    QuoteIsOpened(Text(g), START.(last := ")"));
  }
}
