/**
 Dropping repeated runs twice: when the second pass finds nothing more, told by one walk over
 the recording itself.
 */
module RepeatedRunsTwice {
  import opened RepeatedRuns

  // ----- where a doubled block can come from -----

  /**
   Keeping `poll` completes a doubled block that a drop fell into: its second half is longer
   than what has been kept since the last drop, with `poll`.
   */
  predicate Straddles(kept: seq<Poll>, since: nat, poll: Poll, length: nat) {
    since + 1 < length <= |kept| + 1 && SquareAt(kept + [poll], |kept| + 1 - length, length)
  }

  ghost predicate Completes(kept: seq<Poll>, since: nat, poll: Poll) {
    exists length: nat :: length <= 8 && Straddles(kept, since, poll, length)
  }

  /**
   One walk over the recording: does dropping a run anywhere bring two equal blocks of up to
   eight together?  `since` polls have been kept since the last drop.  Only the polls kept within
   seven of a drop are looked at, and only for blocks the drop fell into.
   */
  ghost predicate Joins(kept: seq<Poll>, since: nat, ahead: seq<Poll>)
    decreases |ahead|
  {
    |ahead| > 0 &&
    var length := ShortestRepeat(kept, ahead, 1);
    if length > 0 then Joins(kept, 0, ahead[length..])
    else Completes(kept, since, ahead[0]) || Joins(kept + [ahead[0]], since + 1, ahead[1..])
  }

  /** No doubled block has its second half begin at a position from `from` up to (not including) `to`. */
  ghost predicate NoneBegins(polls: seq<Poll>, from: int, to: nat) {
    forall at: nat, length: nat :: from <= at < to && 1 <= length <= 8 ==> !SquareAt(polls, at, length)
  }

  /** No doubled block of up to eight ends past `from`. */
  ghost predicate NoneEndsPast(polls: seq<Poll>, from: nat) {
    forall at: nat, length: nat :: at + length > from && 1 <= length <= 8 ==> !SquareAt(polls, at, length)
  }

  lemma {:induction false} SquareInPrefix(polls: seq<Poll>, longer: seq<Poll>, at: nat, length: nat)
    requires polls <= longer && at + length <= |polls|
    ensures SquareAt(polls, at, length) <==> SquareAt(longer, at, length)
  {
    if length <= at {
      assert polls[at - length..at] == longer[at - length..at] && polls[at..at + length] == longer[at..at + length];
    }
  }

  /** A poll that is kept adds no position where a block could have been dropped. */
  lemma {:induction false} KeptBeginsNone(kept: seq<Poll>, ahead: seq<Poll>, since: nat)
    requires |ahead| > 0 && ShortestRepeat(kept, ahead, 1) == 0
    requires NoneBegins(kept + ahead, |kept| - since, |kept|)
    ensures NoneBegins(kept + [ahead[0]] + ahead[1..], |kept| + 1 - (since + 1), |kept| + 1)
  {
    assert kept + [ahead[0]] + ahead[1..] == kept + ahead;
    ShortestIsShortest(kept, ahead, 1);
    forall length: nat | 1 <= length <= LONGEST_RUN ensures !SquareAt(kept + ahead, |kept|, length) {
      SquareIsRepeat(kept, ahead, length);
    }
  }

  /**
   What a kept poll completes: every block whose second half was kept without a drop inside
   would have been dropped whole where it began, so only straddled ones remain.
   */
  lemma {:induction false} OnlyStraddledComplete(kept: seq<Poll>, ahead: seq<Poll>, since: nat, length: nat)
    requires |ahead| > 0 && NoneBegins(kept + [ahead[0]] + ahead[1..], |kept| + 1 - (since + 1), |kept| + 1)
    requires 1 <= length <= LONGEST_RUN && length <= |kept| + 1
    ensures SquareAt(kept + [ahead[0]], |kept| + 1 - length, length) <==> Straddles(kept, since, ahead[0], length)
  {
    if length <= since + 1 {
      SquareInPrefix(kept + [ahead[0]], kept + [ahead[0]] + ahead[1..], |kept| + 1 - length, length);
    }
  }

  lemma {:induction false} CompletesExactly(kept: seq<Poll>, ahead: seq<Poll>, since: nat, whole: seq<Poll>)
    requires |ahead| > 0 && NoneBegins(kept + [ahead[0]] + ahead[1..], |kept| + 1 - (since + 1), |kept| + 1)
    requires kept + [ahead[0]] <= whole
    ensures NoneEndsPast(whole, |kept|) <==> !Completes(kept, since, ahead[0]) && NoneEndsPast(whole, |kept| + 1)
  {
    forall at: nat, length: nat | at + length == |kept| + 1 && 1 <= length <= LONGEST_RUN
      ensures SquareAt(whole, at, length) <==> Straddles(kept, since, ahead[0], length)
    {
      SquareInPrefix(kept + [ahead[0]], whole, at, length);
      OnlyStraddledComplete(kept, ahead, since, length);
    }
    if Completes(kept, since, ahead[0]) {
      var length: nat :| length <= LONGEST_RUN && Straddles(kept, since, ahead[0], length);
      assert SquareAt(whole, |kept| + 1 - length, length);
    }
  }

  lemma {:induction false} NothingEndsPastTheEnd(polls: seq<Poll>)
    ensures NoneEndsPast(polls, |polls|)
  {
  }

  lemma {:induction false} JoinsExactly(kept: seq<Poll>, since: nat, ahead: seq<Poll>)
    requires NoneBegins(kept + ahead, |kept| - since, |kept|)
    ensures NoneEndsPast(kept + KeptPolls(Scan(kept, ahead)), |kept|) <==> !Joins(kept, since, ahead)
    decreases |ahead|
  {
    if |ahead| == 0 {
      assert kept + KeptPolls(Scan(kept, ahead)) == kept;
      NothingEndsPastTheEnd(kept);
    } else {
      var length := ShortestRepeat(kept, ahead, 1);
      if length > 0 {
        DropHead(kept, ahead, length);
        JoinsExactly(kept, 0, ahead[length..]);
      } else {
        var longer := kept + [ahead[0]];
        KeepHead(kept, ahead);
        KeptBeginsNone(kept, ahead, since);
        var later := KeptPolls(Scan(longer, ahead[1..]));
        assert kept + ([ahead[0]] + later) == longer + later;
        CompletesExactly(kept, ahead, since, longer + later);
        JoinsExactly(longer, since + 1, ahead[1..]);
      }
    }
  }

  /**
   Dropping again changes nothing exactly when, on one walk over the recording, no drop brings
   two equal blocks together; in particular every doubled block of a result has a dropped run
   inside its second half.
   */
  lemma {:induction false} IdempotentExactly(polls: seq<Poll>)
    ensures
      var once := KeptPolls(Scan([], polls));
      KeptPolls(Scan([], once)) == once <==> !Joins([], 0, polls)
  {
    var once := KeptPolls(Scan([], polls));
    LeftAloneExactly(once);
    JoinsExactly([], 0, polls);
    assert [] + once == once;
    assert SquareFree(once, 0) <==> NoneEndsPast(once, 0);
  }

  // ----- recordings that only stutter -----

  /** The polls of `ahead` without those that repeat the poll just before, the last of `before` to begin with. */
  function Collapse(before: seq<Poll>, ahead: seq<Poll>): seq<Poll>
    decreases |ahead|
  {
    if |ahead| == 0 then []
    else if |before| > 0 && before[|before| - 1] == ahead[0] then Collapse(before, ahead[1..])
    else [ahead[0]] + Collapse(before + [ahead[0]], ahead[1..])
  }

  ghost predicate NoStutter(polls: seq<Poll>) {
    forall i :: 0 < i < |polls| ==> polls[i] != polls[i - 1]
  }

  lemma {:induction false} NoStutterLater(polls: seq<Poll>)
    requires |polls| > 0 && NoStutter(polls)
    ensures NoStutter(polls[1..])
  {
    var later := polls[1..];
    forall i | 0 < i < |later| ensures later[i] != later[i - 1] {
      assert later[i] == polls[i + 1] && later[i - 1] == polls[i];
    }
  }

  /** A run without stutters, after a poll it does not repeat, collapses to itself. */
  lemma {:induction false} RunCollapsesToItself(kept: seq<Poll>, ahead: seq<Poll>, length: nat)
    requires length <= |ahead| && NoStutter(ahead[..length])
    requires length > 0 && |kept| > 0 ==> kept[|kept| - 1] != ahead[0]
    ensures ahead[..length] <= Collapse(kept, ahead)
    decreases length
  {
    if length > 0 {
      var longer, later := kept + [ahead[0]], ahead[1..];
      NoStutterLater(ahead[..length]);
      assert ahead[..length][1..] == later[..length - 1];
      if length > 1 {
        assert ahead[..length][1] != ahead[..length][0];
      }
      RunCollapsesToItself(longer, later, length - 1);
      assert ahead[..length] == [ahead[0]] + later[..length - 1];
    }
  }

  /** A run of several polls that repeats would leave a doubled block in the collapsed recording. */
  lemma {:induction false} LongRepeatIsSquare(kept: seq<Poll>, ahead: seq<Poll>, length: nat)
    requires Repeats(kept, ahead, length) && length > 0 && NoStutter(kept)
    requires !Repeats(kept, ahead, 1)
    ensures SquareAt(kept + Collapse(kept, ahead), |kept|, length)
  {
    assert forall i :: 0 <= i < length ==> ahead[..length][i] == kept[|kept| - length + i];
    RunCollapsesToItself(kept, ahead, length);
    var rest := Collapse(kept, ahead);
    assert forall i :: 0 <= i < length ==> rest[i] == ahead[..length][i];
    SquareIsRepeat(kept, rest, length);
  }

  lemma {:induction false} StuttersOnly(kept: seq<Poll>, ahead: seq<Poll>)
    requires NoStutter(kept) && SquareFree(kept + Collapse(kept, ahead), |kept|)
    ensures KeptPolls(Scan(kept, ahead)) == Collapse(kept, ahead)
    decreases |ahead|
  {
    if |ahead| > 0 {
      var length := ShortestRepeat(kept, ahead, 1);
      OnlyStuttersRepeat(kept, ahead, length);
      if length > 0 {
        DropHead(kept, ahead, 1);
        StuttersOnly(kept, ahead[1..]);
      } else {
        KeepHead(kept, ahead);
        var longer := kept + [ahead[0]];
        assert kept + Collapse(kept, ahead) == longer + Collapse(longer, ahead[1..]);
        StuttersOnly(longer, ahead[1..]);
      }
    }
  }

  lemma {:induction false} OnlyStuttersRepeat(kept: seq<Poll>, ahead: seq<Poll>, length: nat)
    requires |ahead| > 0 && length == ShortestRepeat(kept, ahead, 1)
    requires NoStutter(kept) && SquareFree(kept + Collapse(kept, ahead), |kept|)
    ensures length <= 1
    ensures length == 1 <==> |kept| > 0 && kept[|kept| - 1] == ahead[0]
  {
    ShortestIsShortest(kept, ahead, 1);
    if |kept| > 0 {
      OneRepeats(kept, ahead);
    }
    if length > 1 {
      LongRepeatIsSquare(kept, ahead, length);
      assert false;
    }
  }

  /**
   A recording whose only repeats are stutters, that is, one with no doubled block of up to
   eight left when stutters are removed, loses its stutters and nothing else, and the second
   pass finds nothing more.
   */
  lemma {:induction false} StutteringIsDroppedOnce(polls: seq<Poll>)
    requires SquareFree(Collapse([], polls), 0)
    ensures
      var once := KeptPolls(Scan([], polls));
      once == Collapse([], polls) && KeptPolls(Scan([], once)) == once && !Joins([], 0, polls)
  {
    assert [] + Collapse([], polls) == Collapse([], polls);
    StuttersOnly([], polls);
    LeftAloneExactly(Collapse([], polls));
    IdempotentExactly(polls);
  }
}
