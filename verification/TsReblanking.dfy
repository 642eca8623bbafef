/**
 Blanking a source twice.  The second scan reads what the first emitted, and may be in another
 state: exactly when that makes it emit something else is told by one walk over the source.
 */
module TsReblanking {
  import opened Sequences
  import opened TsLexer
  import opened TsBlanking

  // ----- the second scanner, told by what the first emits -----

  /** The state after one character that the scanner copies, with nothing looked at beyond it. */
  function Reread(tab: CharTable, t: State, c: char): State {
    Step(tab, [c], 0, t).next
  }

  /** The state after the characters of one move. */
  function RereadMove(tab: CharTable, t: State, out: string): State
    requires 1 <= |out| <= 2
  {
    if |out| == 1 then Reread(tab, t, out[0])
    else if t.mode == Template && out == "${" then Step(tab, out, 0, t).next
    else Reread(tab, Reread(tab, t, out[0]), out[1])
  }

  predicate IsSlashAlone(src: string, i: nat) {
    i < |src| && src[i] == '/' && !Follows(src, i, '/') && !Follows(src, i, '*')
  }

  /**
   The second scanner, in state `t`, does not copy what the first emits at `i`: it is inside a
   quotation or a regular expression that the first is not in, and meets something visible
   other than its end; or it took a regular expression for a division, and the slash that closes
   it now opens a comment with the character after it.
   */
  predicate Clash(tab: CharTable, src: string, i: nat, s: State, t: State)
    requires i < |src|
  {
    var c := Step(tab, src, i, s).out[0];
    match t.mode
    case Quoted(quote) => !s.mode.Quoted? && c != ' ' && c != '\n' && c != quote
    case Regex(_) => !s.mode.Regex? && c != ' ' && c != '\n' && c != '/'
    case Code => s.mode.Regex? && c == '/' && (Follows(src, i, '*') || IsSlashAlone(src, i + 1))
    case _ => false
  }

  /**
   Somewhere on the walk from `i` on, the two scanners clash.  The walk makes the first scanner's
   moves and, with `RereadMove`, the second's on what the first emits: a caller evaluates it by
   running the two side by side, once over the source.  `Plain` is a condition to be read off
   the text.
   */
  predicate Clashes(tab: CharTable, src: string, i: nat, s: State, t: State)
    decreases |src| - i
  {
    i < |src| &&
    (Clash(tab, src, i, s, t) ||
     (var m := Step(tab, src, i, s);
      Clashes(tab, src, i + |m.out|, m.next, RereadMove(tab, t, m.out))))
  }

  // ----- what the two states can be -----

  predicate IsQuote(c: char) {
    c == '\'' || c == '"'
  }

  /** The modes the two scanners can be in at once. */
  predicate Pair(s: State, t: State) {
    && t.braces == s.braces && t.depth == s.depth
    && match s.mode
       case Quoted(quote) => IsQuote(quote) && (t.mode == s.mode || t.mode == Code)
       case Template => t.mode == Template
       case Regex(_) => t.mode == Regex(false) || t.mode == Code
       case _ => t.mode == Code || t.mode == Regex(false) || (t.mode.Quoted? && IsQuote(t.mode.quote))
  }

  /** The scanner copies the character at `i` in state `t`. */
  predicate Copyable(text: string, i: nat, t: State)
    requires i < |text|
  {
    var c := text[i];
    match t.mode
    case Code => c == '/' ==> !Follows(text, i, '/') && !Follows(text, i, '*')
    case Quoted(quote) => quote != '\\' && (c == ' ' || c == '\n' || c == quote)
    case Regex(inClass) => !inClass && (c == ' ' || c == '\n' || c == '/')
    case Template => c == ' ' || c == '\n' || c == '`'
    case _ => false
  }

  lemma {:induction false} CopyableIsCopied(tab: CharTable, text: string, i: nat, t: State)
    requires i < |text| && Copyable(text, i, t)
    ensures Step(tab, text, i, t) == Move([text[i]], Reread(tab, t, text[i]))
  {
    var one := [text[i]];
    assert one[0] == text[i] && !Follows(one, 0, '/') && !Follows(one, 0, '*') && !Follows(one, 0, '{');
  }

  /** The text at `i` and at the next move, as emitted by the first scan from state `s`. */
  ghost predicate Emitted(tab: CharTable, src: string, text: string, i: nat, s: State)
    requires i < |src|
  {
    var m := Step(tab, src, i, s);
    && |text| == |src|
    && text[i] == m.out[0] && (|m.out| == 2 ==> text[i + 1] == m.out[1])
    && (i + 1 < |src| ==> text[i + 1] == src[i + 1] || text[i + 1] == ' ')
    && (i + |m.out| < |src| ==> text[i + |m.out|] == Step(tab, src, i + |m.out|, m.next).out[0])
  }

  /** The second scan gets past the first one's move, copying. */
  ghost predicate Passes(tab: CharTable, src: string, text: string, i: nat, s: State, t: State)
    requires i < |src|
  {
    var m := Step(tab, src, i, s);
    var next := RereadMove(tab, t, m.out);
    Pair(m.next, next) && Emits(tab, text, i, t) == m.out + Emits(tab, text, i + |m.out|, next)
  }

  lemma {:induction false} CopyOne(tab: CharTable, text: string, i: nat, t: State)
    requires i < |text| && Copyable(text, i, t)
    ensures Emits(tab, text, i, t) == [text[i]] + Emits(tab, text, i + 1, Reread(tab, t, text[i]))
  {
    CopyableIsCopied(tab, text, i, t);
    var m := Step(tab, text, i, t);
    assert Emits(tab, text, i, t) == m.out + Emits(tab, text, i + |m.out|, m.next);
  }

  lemma {:induction false} PassesOne(tab: CharTable, src: string, text: string, i: nat, s: State, t: State)
    requires i < |src| && Emitted(tab, src, text, i, s) && |Step(tab, src, i, s).out| == 1
    requires Copyable(text, i, t) && Pair(Step(tab, src, i, s).next, Reread(tab, t, text[i]))
    ensures Passes(tab, src, text, i, s, t)
  {
    CopyOne(tab, text, i, t);
    assert Step(tab, src, i, s).out == [text[i]];
  }

  lemma {:induction false} CopyTwo(tab: CharTable, text: string, i: nat, t: State, mid: State)
    requires i + 1 < |text| && Copyable(text, i, t) && mid == Reread(tab, t, text[i]) && Copyable(text, i + 1, mid)
    ensures Emits(tab, text, i, t) == [text[i], text[i + 1]] + Emits(tab, text, i + 2, Reread(tab, mid, text[i + 1]))
  {
    CopyOne(tab, text, i, t);
    CopyOne(tab, text, i + 1, mid);
    assert [text[i], text[i + 1]] == [text[i]] + [text[i + 1]];
    Reassociate([text[i]], [text[i + 1]], Emits(tab, text, i + 2, Reread(tab, mid, text[i + 1])));
  }

  lemma {:induction false} PassesTwo(tab: CharTable, src: string, text: string, i: nat, s: State, t: State)
    requires i < |src| && Emitted(tab, src, text, i, s) && |Step(tab, src, i, s).out| == 2
    requires Step(tab, src, i, s).out != "${"
    requires Copyable(text, i, t) && Copyable(text, i + 1, Reread(tab, t, text[i]))
    requires Pair(Step(tab, src, i, s).next, Reread(tab, Reread(tab, t, text[i]), text[i + 1]))
    ensures Passes(tab, src, text, i, s, t)
  {
    CopyTwo(tab, text, i, t, Reread(tab, t, text[i]));
    assert Step(tab, src, i, s).out == [text[i], text[i + 1]];
  }

  /** Where the scanners clash, the second emits another character than it reads. */
  ghost predicate Differs(tab: CharTable, text: string, i: nat, t: State)
    requires i < |text|
  {
    Step(tab, text, i, t).out[0] != text[i]
  }

  // ----- one move, by the first scanner's mode -----

  /** The move, or the clash, at `i`. */
  ghost predicate Told(tab: CharTable, src: string, text: string, i: nat, s: State, t: State)
    requires i < |src| == |text|
  {
    if Clash(tab, src, i, s, t) then Differs(tab, text, i, t) else Passes(tab, src, text, i, s, t)
  }

  lemma {:induction false} ToldInBlock(tab: CharTable, src: string, text: string, i: nat, s: State, t: State)
    requires tab.Sane() && i < |src| && s.mode == Block && Pair(s, t) && Emitted(tab, src, text, i, s)
    ensures Told(tab, src, text, i, s, t)
  {
    var m := Step(tab, src, i, s);
    if |m.out| == 1 {
      PassesOne(tab, src, text, i, s, t);
    } else {
      PassesTwo(tab, src, text, i, s, t);
    }
  }

  lemma {:induction false} ToldInLine(tab: CharTable, src: string, text: string, i: nat, s: State, t: State)
    requires tab.Sane() && i < |src| && s.mode == Line && Pair(s, t) && Emitted(tab, src, text, i, s)
    ensures Told(tab, src, text, i, s, t)
  {
    PassesOne(tab, src, text, i, s, t);
  }

  lemma {:induction false} ToldInQuotation(tab: CharTable, src: string, text: string, i: nat, s: State, t: State)
    requires tab.Sane() && i < |src| && s.mode.Quoted? && Pair(s, t) && Emitted(tab, src, text, i, s)
    ensures Told(tab, src, text, i, s, t)
  {
    var m := Step(tab, src, i, s);
    if |m.out| == 1 {
      PassesOne(tab, src, text, i, s, t);
    } else {
      PassesTwo(tab, src, text, i, s, t);
    }
  }

  lemma {:induction false} ToldInTemplate(tab: CharTable, src: string, text: string, i: nat, s: State, t: State)
    requires tab.Sane() && i < |src| && s.mode == Template && Pair(s, t) && Emitted(tab, src, text, i, s)
    ensures Told(tab, src, text, i, s, t)
  {
    var m := Step(tab, src, i, s);
    if |m.out| == 1 {
      PassesOne(tab, src, text, i, s, t);
    } else if m.out == "${" {
      HolePasses(tab, src, text, i, s, t);
    } else {
      PassesTwo(tab, src, text, i, s, t);
    }
  }

  lemma {:induction false} HolePasses(tab: CharTable, src: string, text: string, i: nat, s: State, t: State)
    requires i < |src| && s.mode == Template && Pair(s, t) && Emitted(tab, src, text, i, s)
    requires Step(tab, src, i, s).out == "${"
    ensures Passes(tab, src, text, i, s, t)
  {
    var m := Step(tab, src, i, s);
    assert text[i] == m.out[0] == '$' && text[i + 1] == m.out[1] == '{';
    assert Follows(text, i, '{') && Follows("${", 0, '{');
    assert Step(tab, text, i, t) == Step(tab, "${", 0, t);
  }

  lemma {:induction false} RegexEscapeTold(tab: CharTable, src: string, text: string, i: nat, s: State, t: State)
    requires i < |src| && s.mode.Regex? && Pair(s, t) && Emitted(tab, src, text, i, s)
    requires Step(tab, src, i, s) == Move("  ", s)
    ensures Told(tab, src, text, i, s, t)
  {
    PassesTwo(tab, src, text, i, s, t);
  }

  lemma {:induction false} ToldInRegex(tab: CharTable, src: string, text: string, i: nat, s: State, t: State)
    requires tab.Sane() && i < |src| && s.mode.Regex? && Pair(s, t) && Emitted(tab, src, text, i, s)
    ensures Told(tab, src, text, i, s, t)
  {
    var m := Step(tab, src, i, s);
    if |m.out| == 2 {
      RegexEscapeTold(tab, src, text, i, s, t);
    } else if m.out == "/" {
      RegexCloseTold(tab, src, text, i, s, t);
    } else {
      PassesOne(tab, src, text, i, s, t);
    }
  }

  /** The slash that closes a regular expression: what follows it decides what a division would see. */
  lemma {:induction false} RegexCloseTold(tab: CharTable, src: string, text: string, i: nat, s: State, t: State)
    requires i < |src| && s.mode.Regex? && Pair(s, t) && Emitted(tab, src, text, i, s)
    requires Step(tab, src, i, s).out == "/"
    ensures Told(tab, src, text, i, s, t)
  {
    var m := Step(tab, src, i, s);
    assert text[i] == '/' && m.next.mode == Code;
    if i + 1 < |src| {
      assert text[i + 1] == CodeStep(tab, src, i + 1, m.next).out[0];
      assert (text[i + 1] == '/' || text[i + 1] == '*') <==> (src[i + 1] == '*' || IsSlashAlone(src, i + 1));
    }
    if !Clash(tab, src, i, s, t) {
      PassesOne(tab, src, text, i, s, t);
    }
  }

  lemma {:induction false} ToldInCode(tab: CharTable, src: string, text: string, i: nat, s: State, t: State)
    requires tab.Sane() && i < |src| && s.mode == Code && Pair(s, t) && Emitted(tab, src, text, i, s)
    ensures Told(tab, src, text, i, s, t)
  {
    var m := Step(tab, src, i, s);
    if m.next.mode == Block {
      PassesTwo(tab, src, text, i, s, t);
    } else if m.next.mode == Line {
      PassesOne(tab, src, text, i, s, t);
    } else {
      assert m.out == [src[i]] && text[i] == src[i];
      VisibleTold(tab, src, text, i, s, t);
    }
  }

  lemma {:induction false} VisibleTold(tab: CharTable, src: string, text: string, i: nat, s: State, t: State)
    requires tab.Sane() && i < |src| && s.mode == Code && Pair(s, t) && Emitted(tab, src, text, i, s)
    requires Step(tab, src, i, s).out == [src[i]] && text[i] == src[i]
    requires src[i] == '/' ==> !Follows(src, i, '/') && !Follows(src, i, '*')
    ensures Told(tab, src, text, i, s, t)
  {
    if !Clash(tab, src, i, s, t) {
      assert Copyable(text, i, t);
      match t.mode {
        case Quoted(_) => PairAfterQuoted(tab, src, i, s, t);
        case Regex(_) => PairAfterRegex(tab, src, i, s, t);
        case _ => PairAfterCode(tab, src, i, s, t);
      }
      PassesOne(tab, src, text, i, s, t);
    }
  }

  lemma {:induction false} PairAfterCode(tab: CharTable, src: string, i: nat, s: State, t: State)
    requires i < |src| && s.mode == Code && t.mode == Code && Pair(s, t)
    requires src[i] == '/' ==> !Follows(src, i, '/') && !Follows(src, i, '*')
    ensures Pair(Step(tab, src, i, s).next, Reread(tab, t, src[i]))
  {
    if src[i] == '{' || src[i] == '}' {
      PairAfterBrace(tab, src, i, s, t);
    } else if src[i] == '/' {
      PairAfterSlash(tab, src, i, s, t);
    } else {
      assert [src[i]][0] == src[i];
    }
  }

  lemma {:induction false} PairAfterBrace(tab: CharTable, src: string, i: nat, s: State, t: State)
    requires i < |src| && s.mode == Code && t.mode == Code && Pair(s, t)
    requires src[i] == '{' || src[i] == '}'
    ensures Pair(Step(tab, src, i, s).next, Reread(tab, t, src[i]))
  {
    assert [src[i]][0] == src[i];
  }

  lemma {:induction false} PairAfterSlash(tab: CharTable, src: string, i: nat, s: State, t: State)
    requires i < |src| && s.mode == Code && t.mode == Code && Pair(s, t)
    requires src[i] == '/' && !Follows(src, i, '/') && !Follows(src, i, '*')
    ensures Pair(Step(tab, src, i, s).next, Reread(tab, t, src[i]))
  {
    var one := [src[i]];
    assert one[0] == src[i] && !Follows(one, 0, '/') && !Follows(one, 0, '*');
  }

  lemma {:induction false} PairAfterQuoted(tab: CharTable, src: string, i: nat, s: State, t: State)
    requires tab.Sane() && i < |src| && s.mode == Code && t.mode.Quoted? && Pair(s, t)
    requires src[i] == ' ' || src[i] == '\n' || src[i] == t.mode.quote
    ensures Pair(Step(tab, src, i, s).next, Reread(tab, t, src[i]))
  {
    assert [src[i]][0] == src[i];
  }

  lemma {:induction false} PairAfterRegex(tab: CharTable, src: string, i: nat, s: State, t: State)
    requires tab.Sane() && i < |src| && s.mode == Code && t.mode == Regex(false) && Pair(s, t)
    requires src[i] == ' ' || src[i] == '\n' || src[i] == '/'
    requires src[i] == '/' ==> !Follows(src, i, '/') && !Follows(src, i, '*')
    ensures Pair(Step(tab, src, i, s).next, Reread(tab, t, src[i]))
  {
    assert [src[i]][0] == src[i];
  }

  lemma {:induction false} MoveTold(tab: CharTable, src: string, text: string, i: nat, s: State, t: State)
    requires tab.Sane() && i < |src| && Pair(s, t) && Emitted(tab, src, text, i, s)
    ensures Told(tab, src, text, i, s, t)
  {
    match s.mode {
      case Code => ToldInCode(tab, src, text, i, s, t);
      case Block => ToldInBlock(tab, src, text, i, s, t);
      case Line => ToldInLine(tab, src, text, i, s, t);
      case Quoted(_) => ToldInQuotation(tab, src, text, i, s, t);
      case Template => ToldInTemplate(tab, src, text, i, s, t);
      case Regex(_) => ToldInRegex(tab, src, text, i, s, t);
    }
  }

  // ----- the whole walk -----

  lemma {:induction false} EmitsOneEach(tab: CharTable, src: string, i: nat, s: State)
    requires i <= |src|
    ensures |Emits(tab, src, i, s)| == |src| - i
    decreases |src| - i
  {
    if i < |src| {
      var m := Step(tab, src, i, s);
      EmitsOneEach(tab, src, i + |m.out|, m.next);
    }
  }

  /** What is read where a move begins, when the text from there on is what the first scan emits. */
  lemma {:induction false} EmittedFrom(tab: CharTable, src: string, text: string, i: nat, s: State)
    requires i < |src| == |text| && text[i..] == Emits(tab, src, i, s)
    ensures Emitted(tab, src, text, i, s)
    ensures
      var m := Step(tab, src, i, s);
      text[i..] == m.out + text[i + |m.out|..] && text[i + |m.out|..] == Emits(tab, src, i + |m.out|, m.next)
  {
    var m := Step(tab, src, i, s);
    var j := i + |m.out|;
    var rest := Emits(tab, src, j, m.next);
    StepIsFaithful(tab, src, i, s);
    SplitAt(text[i..], m.out, rest);
    SliceAfterDrop(text, i, |m.out|);
    assert text[i] == text[i..][0] && (|m.out| == 2 ==> text[i + 1] == text[i..][1]);
    if j < |src| {
      StepIsFaithful(tab, src, j, m.next);
      assert text[j] == text[j..][0] == rest[0];
    }
  }

  lemma {:induction false} DiffersAtOnce(tab: CharTable, text: string, i: nat, t: State)
    requires i < |text| && Differs(tab, text, i, t)
    ensures Emits(tab, text, i, t) != text[i..]
  {
    assert text[i..][0] == text[i];
  }

  lemma {:induction false} SameOnlyIfRestIs(head: string, rest: string, again: string)
    ensures head + rest == head + again <==> rest == again
  {
    assert (head + rest)[|head|..] == rest && (head + again)[|head|..] == again;
  }

  lemma {:induction false} SecondScanTold(tab: CharTable, src: string, text: string, i: nat, s: State, t: State)
    requires tab.Sane() && i <= |src| == |text| && Pair(s, t) && text[i..] == Emits(tab, src, i, s)
    ensures Emits(tab, text, i, t) == text[i..] <==> !Clashes(tab, src, i, s, t)
    decreases |src| - i
  {
    if i < |src| {
      var m := Step(tab, src, i, s);
      EmittedFrom(tab, src, text, i, s);
      MoveTold(tab, src, text, i, s, t);
      if Clash(tab, src, i, s, t) {
        DiffersAtOnce(tab, text, i, t);
      } else {
        var j, next := i + |m.out|, RereadMove(tab, t, m.out);
        SecondScanTold(tab, src, text, j, m.next, next);
        SameOnlyIfRestIs(m.out, Emits(tab, text, j, next), text[j..]);
      }
    }
  }

  /** Blanking a source twice is blanking it once exactly when the two scanners never clash. */
  lemma {:induction false} BlankingIsIdempotentExactly(tab: CharTable, src: string)
    requires tab.Sane()
    ensures Blanked(tab, Blanked(tab, src)) == Blanked(tab, src) <==> !Clashes(tab, src, 0, START, START)
  {
    var text := Blanked(tab, src);
    RunEmits(tab, src, 0, START, "");
    RunEmits(tab, text, 0, START, "");
    EmitsOneEach(tab, src, 0, START);
    assert "" + Emits(tab, src, 0, START) == Emits(tab, src, 0, START) == text[0..];
    assert "" + Emits(tab, text, 0, START) == Emits(tab, text, 0, START);
    SecondScanTold(tab, src, text, 0, START, START);
  }

  // ----- sources on which the scanners cannot clash -----

  /**
   The two moves whose output the scanner reads differently the second time: a block comment
   straight after an identifier, and a newline escaped inside a quoted string.
   */
  predicate Unsteady(src: string, i: nat, s: State)
    requires i < |src|
  {
    || (s.mode == Code && src[i] == '/' && Follows(src, i, '*') && s.prevIdent)
    || (s.mode.Quoted? && src[i] == '\\' && Follows(src, i, '\n'))
  }

  /** The run makes neither of those moves. */
  predicate Steady(tab: CharTable, src: string, i: nat, s: State)
    decreases |src| - i
  {
    i >= |src| ||
    (!Unsteady(src, i, s) &&
     var m := Step(tab, src, i, s);
     Steady(tab, src, i + |m.out|, m.next))
  }

  /** How the state on the blanked text, `t`, follows the state on the source, `s`. */
  ghost predicate Follow(s: State, t: State) {
    match s.mode
    case Code => t == s
    case Line => t == s.(mode := Code, prevIdent := t.prevIdent)
    case Block => t == s.(mode := Code) && !s.prevIdent
    case Quoted(quote) => t == s && (quote == '\'' || quote == '"')
    case Template => t == s
    case Regex(_) => t == s.(mode := Regex(false))
  }

  lemma {:induction false} SteadyMove(tab: CharTable, src: string, i: nat, s: State, t: State)
    requires tab.Sane() && i < |src| && Follow(s, t) && !Unsteady(src, i, s)
    ensures
      var m := Step(tab, src, i, s);
      !Clash(tab, src, i, s, t) && Follow(m.next, RereadMove(tab, t, m.out))
  {
    match s.mode {
      case Code => SteadyCode(tab, src, i, s);
      case Line => SteadyComment(tab, src, i, s, t);
      case Block => SteadyComment(tab, src, i, s, t);
      case Quoted(_) => SteadyQuoted(tab, src, i, s);
      case Template => SteadyTemplate(tab, src, i, s);
      case Regex(_) => SteadyRegex(tab, src, i, s, t);
    }
  }

  lemma {:induction false} SteadyCode(tab: CharTable, src: string, i: nat, s: State)
    requires tab.Sane() && i < |src| && s.mode == Code && !Unsteady(src, i, s)
    ensures
      var m := Step(tab, src, i, s);
      Follow(m.next, RereadMove(tab, s, m.out))
  {
    var m := Step(tab, src, i, s);
    assert [' '][0] == ' ' && [src[i]][0] == src[i] && !Follows([src[i]], 0, '/') && !Follows([src[i]], 0, '*');
    assert m.next.mode.Block? ==> Reread(tab, s, ' ') == s;
    assert m.next.mode.Line? ==> Reread(tab, s, ' ') == s.(prevIdent := false);
  }

  lemma {:induction false} SteadyComment(tab: CharTable, src: string, i: nat, s: State, t: State)
    requires tab.Sane() && i < |src| && (s.mode == Line || s.mode == Block) && Follow(s, t)
    ensures
      var m := Step(tab, src, i, s);
      Follow(m.next, RereadMove(tab, t, m.out))
  {
    assert Reread(tab, t, ' ') == t.(prevIdent := false) && Reread(tab, t, '\n') == t.(prevIdent := false);
  }

  lemma {:induction false} SteadyQuoted(tab: CharTable, src: string, i: nat, s: State)
    requires tab.Sane() && i < |src| && s.mode.Quoted? && Follow(s, s) && !Unsteady(src, i, s)
    ensures
      var m := Step(tab, src, i, s);
      Follow(m.next, RereadMove(tab, s, m.out))
  {
    assert [' '][0] == ' ' && [src[i]][0] == src[i];
    assert Reread(tab, s, ' ') == s;
  }

  lemma {:induction false} SteadyTemplate(tab: CharTable, src: string, i: nat, s: State)
    requires tab.Sane() && i < |src| && s.mode == Template
    ensures
      var m := Step(tab, src, i, s);
      Follow(m.next, RereadMove(tab, s, m.out))
  {
    assert Reread(tab, s, ' ') == s && Reread(tab, s, '\n') == s;
    assert Reread(tab, s, '`') == s.(mode := Code);
    assert Follows("${", 0, '{');
  }

  lemma {:induction false} SteadyRegex(tab: CharTable, src: string, i: nat, s: State, t: State)
    requires tab.Sane() && i < |src| && s.mode.Regex? && Follow(s, t)
    ensures
      var m := Step(tab, src, i, s);
      Follow(m.next, RereadMove(tab, t, m.out))
  {
    assert Reread(tab, t, ' ') == t;
    assert Reread(tab, t, '/') == t.(mode := Code);
  }

  lemma {:induction false} SteadyNeverClashes(tab: CharTable, src: string, i: nat, s: State, t: State)
    requires tab.Sane() && i <= |src| && Follow(s, t) && Steady(tab, src, i, s)
    ensures !Clashes(tab, src, i, s, t)
    decreases |src| - i
  {
    if i < |src| {
      SteadyMove(tab, src, i, s, t);
      var m := Step(tab, src, i, s);
      SteadyNeverClashes(tab, src, i + |m.out|, m.next, RereadMove(tab, t, m.out));
    }
  }

  // ----- a class of sources that a reader can check -----

  /**
   Nothing before position `i` can leave an identifier pending there: it is not an identifier
   character, a backtick, or the brace of a `${`.
   */
  predicate NoIdentBefore(tab: CharTable, src: string, i: nat)
    requires i <= |src|
  {
    i == 0 ||
    (var c := src[i - 1];
     !tab.Ident(c) && c != '`' && !(c == '{' && i >= 2 && src[i - 2] == '$'))
  }

  /** No backslash ends a line, and no block comment opener stands straight after an identifier or a template edge. */
  predicate Plain(tab: CharTable, src: string) {
    && (forall i :: 0 <= i < |src| - 1 && src[i] == '\\' ==> src[i + 1] != '\n')
    && (forall i :: 0 <= i < |src| - 1 && src[i] == '/' && src[i + 1] == '*' ==> NoIdentBefore(tab, src, i))
  }

  /** Where an identifier can be pending, by mode. */
  ghost predicate PendingIsVisible(tab: CharTable, src: string, i: nat, s: State)
    requires i <= |src|
  {
    match s.mode
    case Code => s.prevIdent ==> !NoIdentBefore(tab, src, i)
    case Line => true
    case Template => true
    case Block => !s.prevIdent
    case Quoted(_) => !s.prevIdent
    case Regex(_) => !s.prevIdent
  }

  lemma {:induction false} StepKeepsPendingVisible(tab: CharTable, src: string, i: nat, s: State)
    requires tab.Sane() && i < |src| && PendingIsVisible(tab, src, i, s) && !Unsteady(src, i, s)
    ensures
      var m := Step(tab, src, i, s);
      PendingIsVisible(tab, src, i + |m.out|, m.next)
  {
  }

  lemma {:induction false} PlainIsSteady(tab: CharTable, src: string, i: nat, s: State)
    requires tab.Sane() && Plain(tab, src) && i <= |src| && PendingIsVisible(tab, src, i, s)
    ensures Steady(tab, src, i, s)
    decreases |src| - i
  {
    if i < |src| {
      StepKeepsPendingVisible(tab, src, i, s);
      var m := Step(tab, src, i, s);
      PlainIsSteady(tab, src, i + |m.out|, m.next);
    }
  }

  /** Blanking a plain source twice is blanking it once. */
  lemma {:induction false} PlainSourcesBlankOnce(tab: CharTable, src: string)
    requires tab.Sane() && Plain(tab, src)
    ensures Blanked(tab, Blanked(tab, src)) == Blanked(tab, src)
  {
    PlainIsSteady(tab, src, 0, START);
    SteadyNeverClashes(tab, src, 0, START, START);
    BlankingIsIdempotentExactly(tab, src);
  }

  /** In particular a source with no backslash and no block comment opener. */
  lemma {:induction false} NoBackslashNoBlockComment(tab: CharTable, src: string)
    requires tab.Sane() && '\\' !in src
    requires forall i :: 0 <= i < |src| - 1 && src[i] == '/' ==> src[i + 1] != '*'
    ensures Blanked(tab, Blanked(tab, src)) == Blanked(tab, src)
  {
    PlainSourcesBlankOnce(tab, src);
  }

  // ----- sources on which they do -----

  /** One step towards a clash. */
  lemma {:induction false} ClashAhead(src: string, i: nat, s: State, t: State, out: string, s1: State, t1: State)
    requires i < |src| && Step(ASCII, src, i, s) == Move(out, s1)
    requires t1 == RereadMove(ASCII, t, out)
    requires Clashes(ASCII, src, i + |out|, s1, t1)
    ensures Clashes(ASCII, src, i, s, t)
  {
  }

  const IN_QUOTES := State(Quoted('\''), [], 0, "'", "", false)
  const AFTER_QUOTES := IN_QUOTES.(mode := Code)
  const AFTER_X := State(Code, [], 0, "x", "x", true)

  /** A line-continued string ends with its first line the second time, and what follows it is lost. */
  lemma {:induction false} LineContinuationBreaksIdempotence(src: string)
    requires src == "'\\\n'x"
    ensures ASCII.Sane() && Blanked(ASCII, Blanked(ASCII, src)) != Blanked(ASCII, src)
  {
    assert Clash(ASCII, src, 4, AFTER_QUOTES, IN_QUOTES);
    ClashAhead(src, 3, IN_QUOTES, AFTER_QUOTES, "'", AFTER_QUOTES, IN_QUOTES);
    ClashAhead(src, 1, IN_QUOTES, IN_QUOTES, " \n", IN_QUOTES, AFTER_QUOTES);
    ClashAhead(src, 0, START, START, "'", IN_QUOTES, IN_QUOTES);
    BlankingIsIdempotentExactly(ASCII, src);
  }

  lemma {:induction false} XinIsNoKeyword(s: State)
    requires s.last == "n" && s.word == "xin"
    ensures !RegexMayStart(s)
  {
    assert |s.word| == 3;
  }

  /** From the joined or the spaced identifier on: only the second is a keyword before the slash. */
  lemma {:induction false} JoinedAhead(src: string, spaced: State)
    requires src == "x/**/in/''" && spaced == AFTER_X.(prevIdent := false)
    ensures Clashes(ASCII, src, 5, AFTER_X, spaced)
  {
    var xi, i := AFTER_X.(last := "i", word := "xi"), AFTER_X.(last := "i", word := "i");
    var xin, keyword := AFTER_X.(last := "n", word := "xin"), AFTER_X.(last := "n", word := "in");
    var divided := State(Code, [], 0, "/", "", false);
    XinIsNoKeyword(xin);
    assert Clash(ASCII, src, 8, divided, divided.(mode := Regex(false)));
    ClashAhead(src, 7, xin, keyword, "/", divided, divided.(mode := Regex(false)));
    ClashAhead(src, 6, xi, i, "n", xin, keyword);
    ClashAhead(src, 5, AFTER_X, spaced, "i", xi, i);
  }

  /** A block comment joins the identifiers around it only the first time. */
  lemma {:induction false} JoinedIdentifiersBreakIdempotence(src: string)
    requires src == "x/**/in/''"
    ensures ASCII.Sane() && Blanked(ASCII, Blanked(ASCII, src)) != Blanked(ASCII, src)
  {
    var spaced := AFTER_X.(prevIdent := false);
    JoinedAhead(src, spaced);
    ClashAhead(src, 3, AFTER_X.(mode := Block), spaced, "  ", AFTER_X, spaced);
    ClashAhead(src, 1, AFTER_X, AFTER_X, "  ", AFTER_X.(mode := Block), spaced);
    ClashAhead(src, 0, START, START, "x", AFTER_X, AFTER_X);
    BlankingIsIdempotentExactly(ASCII, src);
  }
}
