/**
 Finding the end of the type arguments after `.each`, as the test counter does: angle
 brackets are matched by depth, and the second half of an arrow closes nothing.
 */
module TsTypeArguments {
  import opened Outcomes
  import opened Sequences

  /** How far past its opening a type-argument list may close. */
  const REACH: nat := 800

  datatype CountError = Unclosed

  /** What the character at `i` does to the depth; an arrow's `>` does nothing. */
  function Turn(code: string, i: nat): int
    requires i < |code|
  {
    if code[i] == '<' then 1
    else if code[i] == '>' && (i == 0 || code[i - 1] != '=') then -1
    else 0
  }

  /** How many brackets opened in `code[start..end]` are open at its end. */
  function Depth(code: string, start: nat, end: nat): int
    requires start <= end <= |code|
    decreases end
  {
    if end == start then 0 else Depth(code, start, end - 1) + Turn(code, end - 1)
  }

  /** `end` is the first place after `start` where everything opened since is closed. */
  ghost predicate ClosesFirstAt(code: string, start: nat, end: nat) {
    && start < end <= |code|
    && Depth(code, start, end) == 0
    && forall i :: start < i < end ==> Depth(code, start, i) != 0
  }

  function Limit(code: string, start: nat): nat {
    if |code| < start + REACH then |code| else start + REACH
  }

  predicate OpensAt(code: string, start: nat) {
    start < |code| && code[start] == '<'
  }

  /**
   The index past the list that opens at `start`, `start` itself when none does, and an
   error exactly when one opens and the bracket never closes within reach.
   */
  method AfterTypeArguments(code: string, start: nat) returns (r: Result<nat, CountError>)
    ensures !OpensAt(code, start) ==> r == Ok(start)
    ensures OpensAt(code, start) && r.Ok? ==> ClosesFirstAt(code, start, r.value) && r.value <= start + 800
    ensures r.Err? <==>
      OpensAt(code, start) && forall end :: start < end <= |code| && end <= start + 800 ==> Depth(code, start, end) != 0
  {
    if start >= |code| || code[start] != '<' {
      return Ok(start);
    }
    var depth := 0;
    var i := start;
    while i < Limit(code, start)
      invariant start <= i <= Limit(code, start)
      invariant depth == Depth(code, start, i)
      invariant i > start ==> depth > 0
      invariant forall end :: start < end <= i ==> Depth(code, start, end) != 0
    {
      if code[i] == '<' {
        depth := depth + 1;
      } else if code[i] == '>' && code[i - 1] != '=' {
        depth := depth - 1;
        if depth == 0 {
          assert Depth(code, start, i + 1) == 0;
          return Ok(i + 1);
        }
      }
      i := i + 1;
    }
    r := Err(Unclosed);
  }

  // ----- every well-bracketed list is read whole -----

  /** The inside of a type-argument list: plain characters, arrows and bracketed lists. */
  datatype Arguments =
    | End
    | Plain(c: char, rest: Arguments)
    | Arrow(rest: Arguments)
    | Bracketed(inner: Arguments, rest: Arguments)

  function Text(a: Arguments): string {
    match a
    case End => ""
    case Plain(c, rest) => [c] + Text(rest)
    case Arrow(rest) => "=>" + Text(rest)
    case Bracketed(inner, rest) => "<" + Text(inner) + ">" + Text(rest)
  }

  /** An equals sign right before a bracket that closes a list would make an arrow of it. */
  predicate Closable(text: string) {
    |text| > 0 ==> text[|text| - 1] != '='
  }

  predicate WellBracketed(a: Arguments) {
    match a
    case End => true
    case Plain(c, rest) => c != '<' && c != '>' && WellBracketed(rest)
    case Arrow(rest) => WellBracketed(rest)
    case Bracketed(inner, rest) => WellBracketed(inner) && Closable(Text(inner)) && WellBracketed(rest)
  }

  /** The depth after the `n` characters at `p` is what it was before them, and never lower in between. */
  ghost predicate Passed(code: string, start: nat, p: nat, n: nat)
    requires start <= p
  {
    && p + n <= |code|
    && Depth(code, start, p + n) == Depth(code, start, p)
    && forall i :: p <= i <= p + n ==> Depth(code, start, i) >= Depth(code, start, p)
  }

  lemma {:induction false} PassedJoins(code: string, start: nat, p: nat, n: nat, more: nat)
    requires start <= p && Passed(code, start, p, n) && Passed(code, start, p + n, more)
    ensures Passed(code, start, p, n + more)
  {
  }

  /** A well-bracketed text is passed. */
  lemma {:induction false} TextIsPassed(code: string, start: nat, p: nat, a: Arguments)
    requires start < p && At(code, p, Text(a)) && WellBracketed(a)
    ensures Passed(code, start, p, |Text(a)|)
    decreases a, 2
  {
    match a
    case End =>
    case Plain(c, rest) =>
      AtParts(code, p, [c], Text(rest));
      TextIsPassed(code, start, p + 1, rest);
      PassedAfterPlain(code, start, p, c, |Text(rest)|);
    case Arrow(rest) =>
      AtParts(code, p, "=>", Text(rest));
      TextIsPassed(code, start, p + 2, rest);
      PassedAfterArrow(code, start, p, |Text(rest)|);
    case Bracketed(inner, rest) =>
      ListThenRest(code, start, p, inner, rest);
  }

  lemma {:induction false} ListThenRest(code: string, start: nat, p: nat, inner: Arguments, rest: Arguments)
    requires start < p && At(code, p, "<" + Text(inner) + ">" + Text(rest))
    requires WellBracketed(inner) && Closable(Text(inner)) && WellBracketed(rest)
    ensures Passed(code, start, p, |Text(inner)| + 2 + |Text(rest)|)
    decreases Bracketed(inner, rest), 1
  {
    var list := "<" + Text(inner) + ">";
    var n := |list|;
    AtParts(code, p, list, Text(rest));
    ListIsPassed(code, start, p, inner);
    TextIsPassed(code, start, p + n, rest);
    PassedJoins(code, start, p, n, |Text(rest)|);
  }

  lemma {:induction false} PassedAfterPlain(code: string, start: nat, p: nat, c: char, more: nat)
    requires start <= p && At(code, p, [c]) && c != '<' && c != '>'
    requires Passed(code, start, p + 1, more)
    ensures Passed(code, start, p, 1 + more)
  {
    AtChar(code, p, c, "");
    assert Passed(code, start, p, 1);
  }

  lemma {:induction false} PassedAfterArrow(code: string, start: nat, p: nat, more: nat)
    requires start <= p && At(code, p, "=>") && Passed(code, start, p + 2, more)
    ensures Passed(code, start, p, 2 + more)
  {
    AtPair(code, p, '=', '>', "");
    assert Turn(code, p) == 0 && Turn(code, p + 1) == 0;
    assert Passed(code, start, p, 2);
  }

  /** A bracketed list is passed, and inside its brackets the depth stays at least one deeper. */
  lemma {:induction false} ListIsPassed(code: string, start: nat, p: nat, inner: Arguments)
    requires start <= p && At(code, p, "<" + Text(inner) + ">")
    requires WellBracketed(inner) && Closable(Text(inner))
    ensures Passed(code, start, p, |Text(inner)| + 2)
    ensures forall i :: p < i < p + |Text(inner)| + 2 ==> Depth(code, start, i) > Depth(code, start, p)
    decreases inner, 3
  {
    var n := |Text(inner)|;
    AtParts(code, p, "<" + Text(inner), ">");
    AtParts(code, p, "<", Text(inner));
    TextIsPassed(code, start, p + 1, inner);
    BracketsTurn(code, p, Text(inner));
    assert Depth(code, start, p + 1) == Depth(code, start, p) + 1;
  }

  lemma {:induction false} BracketsTurn(code: string, p: nat, inner: string)
    requires At(code, p, "<") && At(code, p + 1, inner) && At(code, p + 1 + |inner|, ">") && Closable(inner)
    ensures Turn(code, p) == 1 && Turn(code, p + 1 + |inner|) == -1
  {
    var end := p + 1 + |inner|;
    AtChar(code, p, '<', "");
    AtChar(code, end, '>', "");
    if |inner| > 0 {
      assert code[p + 1 + (|inner| - 1)] == inner[|inner| - 1];
    }
  }

  /**
   A well-bracketed list closes first just past its own closing bracket, whatever precedes
   and follows it, arrows and nested lists inside included.
   */
  lemma {:induction false} WholeListIsRead(before: string, inner: Arguments, after: string)
    requires WellBracketed(inner) && Closable(Text(inner))
    ensures
      var code := before + "<" + Text(inner) + ">" + after;
      && OpensAt(code, |before|)
      && forall end :: ClosesFirstAt(code, |before|, end) <==> end == |before| + |Text(inner)| + 2
  {
    var list := "<" + Text(inner) + ">";
    var code := before + "<" + Text(inner) + ">" + after;
    assert before + "<" + Text(inner) + ">" + after == before + (list + after);
    assert forall i :: 0 <= i < |list| ==> code[|before| + i] == list[i];
    ListIsPassed(code, |before|, |before|, inner);
    var end := |before| + |list|;
    forall i | |before| < i < end ensures Depth(code, |before|, i) != 0 {
      assert Depth(code, |before|, i) >= 1;
    }
  }
}
