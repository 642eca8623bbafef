/** What a scan of a TypeScript source keeps, whatever the source. */
module TsBlanking {
  import opened Outcomes
  import opened TsLexer

  // ----- the shape of a run -----

  /** The run only appends, and emits one character for each it reads. */
  lemma {:induction false} RunAppends(tab: CharTable, src: string, i: nat, s: State, out: string)
    requires i <= |src|
    ensures out <= Run(tab, src, i, s, out)
    ensures |Run(tab, src, i, s, out)| == |out| + |src| - i
    decreases |src| - i
  {
    if i < |src| {
      var m := Step(tab, src, i, s);
      RunAppends(tab, src, i + |m.out|, m.next, out + m.out);
    }
  }

  /** What the scanner emits from `p` on. */
  function Emits(tab: CharTable, src: string, p: nat, s: State): string
    decreases |src| - p
  {
    if p >= |src| then ""
    else
      var m := Step(tab, src, p, s);
      m.out + Emits(tab, src, p + |m.out|, m.next)
  }

  lemma {:induction false} RunEmits(tab: CharTable, src: string, p: nat, s: State, out: string)
    ensures Run(tab, src, p, s, out) == out + Emits(tab, src, p, s)
    decreases |src| - p
  {
    if p < |src| {
      var m := Step(tab, src, p, s);
      RunEmits(tab, src, p + |m.out|, m.next, out + m.out);
    }
  }

  /** What a finished run emitted at position `i` is what the step there emitted. */
  lemma {:induction false} EmittedHere(tab: CharTable, src: string, i: nat, s: State, out: string)
    requires i < |src| && |out| == i
    ensures
      var m := Step(tab, src, i, s);
      var text := Run(tab, src, i, s, out);
      && |text| == |src|
      && text[..i] == out && text[i..i + |m.out|] == m.out
      && text == Run(tab, src, i + |m.out|, m.next, out + m.out)
  {
    var m := Step(tab, src, i, s);
    RunAppends(tab, src, i, s, out);
    RunAppends(tab, src, i + |m.out|, m.next, out + m.out);
  }

  /** The machine's state when a step starts at position `k`; None when `k` falls inside a step. */
  function StateAt(tab: CharTable, src: string, i: nat, s: State, k: nat): Option<State>
    decreases |src| - i
  {
    if i == k then Some(s)
    else if i > k || i >= |src| then None
    else
      var m := Step(tab, src, i, s);
      StateAt(tab, src, i + |m.out|, m.next, k)
  }

  /** A character is the source's own, a space, and a space that replaced a newline only after a regex backslash. */
  ghost predicate Faithful(tab: CharTable, src: string, start: nat, s: State, text: string, k: nat)
    requires |text| == |src| && k < |src|
  {
    && (text[k] == src[k] || text[k] == ' ')
    && (src[k] == '\n' && text[k] == ' ' <==>
        k > start && src[k] == '\n' && src[k - 1] == '\\' &&
        var before := StateAt(tab, src, start, s, k - 1);
        before.Some? && before.value.mode.Regex?)
  }

  lemma {:induction false} StepIsFaithful(tab: CharTable, src: string, i: nat, s: State)
    requires i < |src|
    ensures
      var m := Step(tab, src, i, s);
      && (forall j :: 0 <= j < |m.out| ==> m.out[j] == src[i + j] || m.out[j] == ' ')
      && |m.out| <= 2
      && (src[i] == '\n' ==> m.out[0] == '\n')
      && (|m.out| == 2 && src[i + 1] == '\n' ==>
            (m.out[1] == ' ' <==> s.mode.Regex? && src[i] == '\\'))
      && (|m.out| == 2 && s.mode.Regex? ==> src[i] == '\\')
      && (|m.out| == 1 && s.mode.Regex? && src[i] == '\\' ==> i + 1 == |src|)
  {
  }

  lemma {:induction false} RunIsFaithful(tab: CharTable, src: string, i: nat, s: State, out: string, k: nat)
    requires i <= k < |src| && |out| == i
    ensures |Run(tab, src, i, s, out)| == |src|
    ensures Faithful(tab, src, i, s, Run(tab, src, i, s, out), k)
    decreases |src| - i
  {
    var m := Step(tab, src, i, s);
    var next := i + |m.out|;
    var text := Run(tab, src, i, s, out);
    EmittedHere(tab, src, i, s, out);
    StepIsFaithful(tab, src, i, s);
    if k < next {
      assert text[k] == m.out[k - i];
    } else {
      RunIsFaithful(tab, src, next, m.next, out + m.out, k);
    }
  }

  /**
   Blanking keeps the length; each character is the source's own or a space, so no newline
   appears; and a newline is lost exactly where a backslash inside a regex literal escapes it.
   */
  lemma {:induction false} BlankingIsFaithful(tab: CharTable, src: string, k: nat)
    requires k < |src|
    ensures |Blanked(tab, src)| == |src|
    ensures Blanked(tab, src)[k] == src[k] || Blanked(tab, src)[k] == ' '
    ensures
      src[k] == '\n' && Blanked(tab, src)[k] != '\n' <==>
        k > 0 && src[k] == '\n' && src[k - 1] == '\\' &&
        var before := StateAt(tab, src, 0, START, k - 1);
        before.Some? && before.value.mode.Regex?
  {
    RunIsFaithful(tab, src, 0, START, "", k);
  }

  // ----- nesting of template holes -----

  /** Open holes are recorded outermost first, and none below which the braces have closed. */
  ghost predicate Nested(s: State) {
    && (forall i, j :: 0 <= i < j < |s.braces| ==> s.braces[i] <= s.braces[j])
    && (forall i :: 0 <= i < |s.braces| ==> s.braces[i] <= s.depth)
  }

  lemma {:induction false} StepKeepsNesting(tab: CharTable, src: string, i: nat, s: State)
    requires i < |src| && Nested(s)
    ensures Nested(Step(tab, src, i, s).next)
  {
  }

  /** At every step of every run the brace stack is ordered and at most the current depth. */
  lemma {:induction false} HolesStayNested(tab: CharTable, src: string, i: nat, s: State, k: nat)
    requires Nested(s)
    ensures
      var here := StateAt(tab, src, i, s, k);
      here.Some? ==> Nested(here.value)
    decreases |src| - i
  {
    if i < k && i < |src| {
      var m := Step(tab, src, i, s);
      StepKeepsNesting(tab, src, i, s);
      HolesStayNested(tab, src, i + |m.out|, m.next, k);
    }
  }

  // ----- a newline lost -----

  const ASCII := CharTable(c => 'a' <= c <= 'z' || 'A' <= c <= 'Z' || '0' <= c <= '9' || c == '_', c => c == ' ' || c == '\n')

  /** Follow one move of a run, from `out` emitted to `longer`. */
  lemma {:induction false} Take(src: string, i: nat, s: State, out: string, emitted: string, next: State, longer: string)
    requires i < |src| && Step(ASCII, src, i, s) == Move(emitted, next) && longer == out + emitted
    ensures Run(ASCII, src, i, s, out) == Run(ASCII, src, i + |emitted|, next, longer)
  {
  }

  /** A newline that a backslash consumes inside a regex literal is lost. */
  lemma {:induction false} RegexLosesANewline(src: string)
    requires src == "/\\\n/"
    ensures Blanked(ASCII, src) == "/  /" && src[2] == '\n'
  {
    var regex := START.(mode := Regex(false), last := "/");
    Take(src, 0, START, "", "/", regex, "/");
    Take(src, 1, regex, "/", "  ", regex, "/  ");
    Take(src, 3, regex, "/  ", "/", regex.(mode := Code), "/  /");
  }
}
