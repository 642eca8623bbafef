/**
 Dropping, from a recording of polls, each run of up to eight that repeats the polls kept
 just before it.
 */
module RepeatedRuns {
  import opened Sequences

  /** One poll of the recording, compared as its encoded text. */
  datatype Poll = Poll(text: string)

  const LONGEST_RUN: nat := 8

  /** The run of `length` polls at the front of `ahead` repeats the last `length` kept. */
  predicate Repeats(kept: seq<Poll>, ahead: seq<Poll>, length: nat) {
    length <= |kept| && length <= |ahead| && forall i :: 0 <= i < length ==> ahead[i] == kept[|kept| - length + i]
  }

  /** The shortest run from `from` up to the longest allowed that repeats; 0 when none does. */
  function ShortestRepeat(kept: seq<Poll>, ahead: seq<Poll>, from: nat): (length: nat)
    requires 1 <= from <= LONGEST_RUN + 1
    ensures length == 0 || from <= length <= 8
    ensures length <= |kept| && length <= |ahead|
    decreases |kept| + |ahead| + LONGEST_RUN + 1 - from
  {
    if from > LONGEST_RUN then 0
    else if Repeats(kept, ahead, from) then from
    else ShortestRepeat(kept, ahead, from + 1)
  }

  /** The length found repeats, and no shorter one from `from` on does. */
  lemma {:induction false} ShortestIsShortest(kept: seq<Poll>, ahead: seq<Poll>, from: nat)
    requires 1 <= from <= LONGEST_RUN + 1
    ensures
      var length := ShortestRepeat(kept, ahead, from);
      && (length > 0 ==> Repeats(kept, ahead, length))
      && forall l :: from <= l < (if length == 0 then LONGEST_RUN + 1 else length) ==> !Repeats(kept, ahead, l)
    decreases LONGEST_RUN + 1 - from
  {
    if from <= LONGEST_RUN && !Repeats(kept, ahead, from) {
      ShortestIsShortest(kept, ahead, from + 1);
    }
  }

  /** One thing the scan did: keep a poll, or drop a run of the given length. */
  datatype Step = Keep(poll: Poll) | Drop(length: nat)

  /** What the scan does with `ahead` after keeping `kept`. */
  function Scan(kept: seq<Poll>, ahead: seq<Poll>): seq<Step>
    decreases |ahead|
  {
    if |ahead| == 0 then []
    else
      var length := ShortestRepeat(kept, ahead, 1);
      if length > 0 then [Drop(length)] + Scan(kept, ahead[length..])
      else [Keep(ahead[0])] + Scan(kept + [ahead[0]], ahead[1..])
  }

  /** One flag for each poll: whether it is kept. */
  function Flags(steps: seq<Step>): seq<bool> {
    if |steps| == 0 then []
    else
      match steps[0]
      case Keep(_) => [true] + Flags(steps[1..])
      case Drop(length) => Falses(length) + Flags(steps[1..])
  }

  function Falses(n: nat): (f: seq<bool>)
    ensures |f| == n
  {
    if n == 0 then [] else [false] + Falses(n - 1)
  }

  function KeptPolls(steps: seq<Step>): seq<Poll> {
    if |steps| == 0 then []
    else (if steps[0].Keep? then [steps[0].poll] else []) + KeptPolls(steps[1..])
  }

  /** The polls flagged to keep. */
  function Select(polls: seq<Poll>, flags: seq<bool>): seq<Poll>
    requires |flags| == |polls|
  {
    if |polls| == 0 then []
    else (if flags[0] then [polls[0]] else []) + Select(polls[1..], flags[1..])
  }

  /** The last `length` polls kept. */
  function LastKept(kept: seq<Poll>, length: nat): seq<Poll> {
    if length <= |kept| then kept[|kept| - length..] else []
  }

  /** Rebuild the recording: keeping appends the poll, dropping appends the last ones kept again. */
  function Replay(kept: seq<Poll>, steps: seq<Step>): seq<Poll>
    decreases |steps|
  {
    if |steps| == 0 then []
    else
      match steps[0]
      case Keep(poll) => [poll] + Replay(kept + [poll], steps[1..])
      case Drop(length) => LastKept(kept, length) + Replay(kept, steps[1..])
  }

  lemma {:induction false} FirstStep(first: Step, rest: seq<Step>)
    ensures Flags([first] + rest) == (if first.Keep? then [true] else Falses(first.length)) + Flags(rest)
    ensures KeptPolls([first] + rest) == (if first.Keep? then [first.poll] else []) + KeptPolls(rest)
  {
    assert ([first] + rest)[1..] == rest;
  }

  /** A scan that begins by dropping a run. */
  lemma {:induction false} DropHead(kept: seq<Poll>, ahead: seq<Poll>, length: nat)
    requires |ahead| > 0 && length == ShortestRepeat(kept, ahead, 1) > 0
    ensures Flags(Scan(kept, ahead)) == Falses(length) + Flags(Scan(kept, ahead[length..]))
    ensures KeptPolls(Scan(kept, ahead)) == KeptPolls(Scan(kept, ahead[length..]))
  {
    FirstStep(Drop(length), Scan(kept, ahead[length..]));
  }

  /** A scan that begins by keeping a poll. */
  lemma {:induction false} KeepHead(kept: seq<Poll>, ahead: seq<Poll>)
    requires |ahead| > 0 && ShortestRepeat(kept, ahead, 1) == 0
    ensures
      var rest := Scan(kept + [ahead[0]], ahead[1..]);
      && Flags(Scan(kept, ahead)) == [true] + Flags(rest)
      && KeptPolls(Scan(kept, ahead)) == [ahead[0]] + KeptPolls(rest)
  {
    FirstStep(Keep(ahead[0]), Scan(kept + [ahead[0]], ahead[1..]));
  }

  // ----- the scan, in place -----

  /** Which polls to keep. */
  method WithoutRepeatedRuns(polls: seq<Poll>) returns (keep: seq<bool>)
    ensures keep == Flags(Scan([], polls))
  {
    var flags := new bool[|polls|](_ => true);
    var kept: seq<int> := [];
    var position: nat := 0;
    ghost var keptPolls: seq<Poll> := [];
    ghost var done: seq<bool> := [];
    ghost var goal := Flags(Scan([], polls));
    ScanBegins(polls, flags[..]);
    while position < |polls|
      invariant Scanned(polls, position, kept, keptPolls, done, flags[..], goal)
    {
      kept, position, keptPolls, done := ScanOne(polls, flags, kept, position, keptPolls, done, goal);
    }
    keep := flags[..];
    ScanDone(polls, keptPolls, done, goal);
  }

  /** Drop the run that repeats at `position`, or keep the poll there. */
  method ScanOne(
    polls: seq<Poll>, flags: array<bool>, kept: seq<int>, position: nat,
    ghost keptPolls: seq<Poll>, ghost done: seq<bool>, ghost goal: seq<bool>)
    returns (keptNext: seq<int>, next: nat, ghost keptPollsNext: seq<Poll>, ghost doneNext: seq<bool>)
    requires position < |polls| && Scanned(polls, position, kept, keptPolls, done, flags[..], goal)
    modifies flags
    ensures position < next && Scanned(polls, next, keptNext, keptPollsNext, doneNext, flags[..], goal)
  {
    ghost var flagged := flags[..];
    var length := FindRepeat(polls, kept, position, keptPolls);
    assert flags[..] == flagged;
    if length > 0 {
      doneNext := DropRun(polls, flags, kept, position, length, keptPolls, done, goal);
      keptNext, next, keptPollsNext := kept, position + length, keptPolls;
    } else {
      next := position + 1;
      keptNext, keptPollsNext, doneNext := KeepPoll(polls, kept, position, keptPolls, done, flagged, goal);
      assert flags[..] == flagged;
    }
  }

  method KeepPoll(
    polls: seq<Poll>, kept: seq<int>, position: nat,
    ghost keptPolls: seq<Poll>, ghost done: seq<bool>, ghost flags: seq<bool>, ghost goal: seq<bool>)
    returns (keptNext: seq<int>, ghost keptPollsNext: seq<Poll>, ghost doneNext: seq<bool>)
    requires position < |polls| && Scanned(polls, position, kept, keptPolls, done, flags, goal)
    requires ShortestRepeat(keptPolls, polls[position..], 1) == 0
    ensures keptNext == kept + [position]
    ensures Scanned(polls, position + 1, keptNext, keptPollsNext, doneNext, flags, goal)
  {
    keptNext, keptPollsNext, doneNext := kept + [position], keptPolls + [polls[position]], done + [true];
    ScannedKeep(polls, position, kept, keptPolls, done, flags, goal);
  }

  method DropRun(
    polls: seq<Poll>, flags: array<bool>, kept: seq<int>, position: nat, length: nat,
    ghost keptPolls: seq<Poll>, ghost done: seq<bool>, ghost goal: seq<bool>)
    returns (ghost doneNext: seq<bool>)
    requires position < |polls| && Scanned(polls, position, kept, keptPolls, done, flags[..], goal)
    requires length == ShortestRepeat(keptPolls, polls[position..], 1) > 0 && position + length <= |polls|
    modifies flags
    ensures Scanned(polls, position + length, kept, keptPolls, doneNext, flags[..], goal)
  {
    doneNext := done + Falses(length);
    assert flags.Length == |flags[..]| == |polls|;
    ClearFlags(flags, position, length, done);
    ScannedDrop(polls, position, length, kept, keptPolls, done, flags[..], goal);
  }

  /** Where the scan stands: what it has kept, the flags it has settled, and the flags still to come. */
  ghost predicate Scanned(
    polls: seq<Poll>, position: nat, kept: seq<int>, keptPolls: seq<Poll>, done: seq<bool>, flags: seq<bool>,
    goal: seq<bool>)
  {
    && position <= |polls| && NamesKept(polls, kept, keptPolls)
    && Progress(polls, position, keptPolls, done, goal) && flags == done + Trues(|polls| - position)
  }

  /** The kept positions and the polls there. */
  ghost predicate NamesKept(polls: seq<Poll>, kept: seq<int>, keptPolls: seq<Poll>) {
    |keptPolls| == |kept| && forall i :: 0 <= i < |kept| ==> 0 <= kept[i] < |polls| && polls[kept[i]] == keptPolls[i]
  }

  lemma {:induction false} NameOneMore(polls: seq<Poll>, kept: seq<int>, keptPolls: seq<Poll>, position: nat)
    requires NamesKept(polls, kept, keptPolls) && position < |polls|
    ensures NamesKept(polls, kept + [position], keptPolls + [polls[position]])
  {
  }

  /** The flags settled so far, completed by the rest of the scan, are `goal`, the whole scan's. */
  ghost predicate Progress(polls: seq<Poll>, position: nat, keptPolls: seq<Poll>, done: seq<bool>, goal: seq<bool>)
    requires position <= |polls|
  {
    |done| == position && done + Flags(Scan(keptPolls, polls[position..])) == goal
  }

  function Trues(n: nat): (f: seq<bool>)
    ensures |f| == n
  {
    if n == 0 then [] else [true] + Trues(n - 1)
  }

  lemma {:induction false} TruesAreTrue(n: nat, s: seq<bool>)
    requires |s| == n
    ensures s == Trues(n) <==> forall i :: 0 <= i < n ==> s[i]
  {
    if n > 0 {
      TruesAreTrue(n - 1, s[1..]);
      assert s == [s[0]] + s[1..];
    }
  }

  lemma {:induction false} FalsesAreFalse(n: nat, s: seq<bool>)
    requires |s| == n
    ensures s == Falses(n) <==> forall i :: 0 <= i < n ==> !s[i]
  {
    if n > 0 {
      FalsesAreFalse(n - 1, s[1..]);
      assert s == [s[0]] + s[1..];
    }
  }

  lemma {:induction false} TruesAfter(flags: seq<bool>, done: seq<bool>)
    requires |done| <= |flags| && flags == done + Trues(|flags| - |done|)
    ensures forall i :: 0 <= i < |done| ==> flags[i] == done[i]
    ensures forall i :: |done| <= i < |flags| ==> flags[i]
  {
    TruesAreTrue(|flags| - |done|, Trues(|flags| - |done|));
  }

  lemma {:induction false} ThreeStretches(flags: seq<bool>, done: seq<bool>, end: nat)
    requires |done| <= end <= |flags|
    requires forall i :: 0 <= i < |done| ==> flags[i] == done[i]
    requires forall i :: |done| <= i < end ==> !flags[i]
    requires forall i :: end <= i < |flags| ==> flags[i]
    ensures flags == done + Falses(end - |done|) + Trues(|flags| - end)
  {
    TruesAreTrue(|flags| - end, flags[end..]);
    FalsesAreFalse(end - |done|, flags[|done|..end]);
    assert flags[..|done|] == done;
    assert flags == flags[..|done|] + flags[|done|..end] + flags[end..];
  }

  /** Mark a run as dropped. */
  method ClearFlags(flags: array<bool>, position: nat, length: nat, ghost done: seq<bool>)
    requires |done| == position && position + length <= flags.Length
    requires flags[..] == done + Trues(flags.Length - position)
    modifies flags
    ensures flags[..] == done + Falses(length) + Trues(flags.Length - (position + length))
  {
    var end := position + length;
    TruesAfter(flags[..], done);
    for at := position to end
      invariant forall i :: 0 <= i < position ==> flags[i] == done[i]
      invariant forall i :: position <= i < at ==> !flags[i]
      invariant forall i :: at <= i < flags.Length ==> flags[i]
    {
      flags[at] := false;
    }
    ThreeStretches(flags[..], done, end);
  }

  lemma {:induction false} ScanBegins(polls: seq<Poll>, flags: seq<bool>)
    requires |flags| == |polls| && forall i :: 0 <= i < |polls| ==> flags[i]
    ensures Scanned(polls, 0, [], [], [], flags, Flags(Scan([], polls)))
  {
    assert polls[0..] == polls;
    TruesAreTrue(|polls|, flags);
  }

  lemma {:induction false} ScanDone(polls: seq<Poll>, keptPolls: seq<Poll>, done: seq<bool>, goal: seq<bool>)
    requires Progress(polls, |polls|, keptPolls, done, goal)
    ensures done + Trues(0) == goal
  {
    assert done + [] == done;
  }

  /** The run of `length` polls at `position` repeats the polls at the last `length` kept positions. */
  predicate RepeatsAt(polls: seq<Poll>, kept: seq<int>, position: nat, length: nat)
    requires forall i :: 0 <= i < |kept| ==> 0 <= kept[i] < |polls|
  {
    && length <= |kept| && position + length <= |polls|
    && forall j :: |kept| - length <= j < |kept| ==> polls[kept[j]] == polls[position + (j - (|kept| - length))]
  }

  lemma {:induction false} RepeatsByPosition(polls: seq<Poll>, kept: seq<int>, keptPolls: seq<Poll>, position: nat, length: nat)
    requires position <= |polls| && NamesKept(polls, kept, keptPolls)
    ensures RepeatsAt(polls, kept, position, length) <==> Repeats(keptPolls, polls[position..], length)
  {
    var ahead := polls[position..];
    assert forall i :: 0 <= i < |ahead| ==> ahead[i] == polls[position + i];
    if length <= |kept| && position + length <= |polls| {
      var start := |kept| - length;
      if Repeats(keptPolls, ahead, length) {
        forall j | start <= j < |kept| ensures polls[kept[j]] == polls[position + (j - start)] {
          assert ahead[j - start] == keptPolls[start + (j - start)];
        }
      }
      if RepeatsAt(polls, kept, position, length) {
        forall i | 0 <= i < length ensures ahead[i] == keptPolls[start + i] {
          assert kept[start + i] < |polls|;
        }
      }
    }
  }

  /** The first length, from 1 to the longest, at which the polls ahead repeat the ones kept; 0 for none. */
  method FindRepeat(polls: seq<Poll>, kept: seq<int>, position: nat, ghost keptPolls: seq<Poll>) returns (length: nat)
    requires position <= |polls| && NamesKept(polls, kept, keptPolls)
    ensures length == ShortestRepeat(keptPolls, polls[position..], 1)
    ensures position + length <= |polls|
  {
    ghost var ahead := polls[position..];
    ghost var goal := ShortestRepeat(keptPolls, ahead, 1);
    length := 1;
    while length <= LONGEST_RUN && !RepeatsAt(polls, kept, position, length)
      invariant 1 <= length <= LONGEST_RUN + 1
      invariant ShortestRepeat(keptPolls, ahead, length) == goal
    {
      TryLength(polls, kept, keptPolls, position, ahead, length);
      length := length + 1;
    }
    if length <= LONGEST_RUN {
      TryLength(polls, kept, keptPolls, position, ahead, length);
    } else {
      length := 0;
    }
  }

  lemma {:induction false} TryLength(
    polls: seq<Poll>, kept: seq<int>, keptPolls: seq<Poll>, position: nat, ahead: seq<Poll>, length: nat)
    requires position <= |polls| && NamesKept(polls, kept, keptPolls) && ahead == polls[position..]
    requires 1 <= length <= LONGEST_RUN
    ensures ShortestRepeat(keptPolls, ahead, length) ==
      if RepeatsAt(polls, kept, position, length) then length else ShortestRepeat(keptPolls, ahead, length + 1)
  {
    RepeatsByPosition(polls, kept, keptPolls, position, length);
  }

  lemma {:induction false} DropStep(polls: seq<Poll>, position: nat, length: nat, kept: seq<Poll>, done: seq<bool>, goal: seq<bool>)
    requires position < |polls| && Progress(polls, position, kept, done, goal)
    requires length == ShortestRepeat(kept, polls[position..], 1) > 0 && position + length <= |polls|
    ensures Progress(polls, position + length, kept, done + Falses(length), goal)
  {
    DropHead(kept, polls[position..], length);
    SliceAfterDrop(polls, position, length);
    Reassociate(done, Falses(length), Flags(Scan(kept, polls[position + length..])));
  }

  lemma {:induction false} KeepStep(polls: seq<Poll>, position: nat, kept: seq<Poll>, done: seq<bool>, goal: seq<bool>)
    requires position < |polls| && Progress(polls, position, kept, done, goal)
    requires ShortestRepeat(kept, polls[position..], 1) == 0
    ensures Progress(polls, position + 1, kept + [polls[position]], done + [true], goal)
    ensures done + Trues(|polls| - position) == done + [true] + Trues(|polls| - (position + 1))
  {
    KeepHead(kept, polls[position..]);
    SliceAfterDrop(polls, position, 1);
    Reassociate(done, [true], Flags(Scan(kept + [polls[position]], polls[position + 1..])));
    Reassociate(done, [true], Trues(|polls| - (position + 1)));
  }

  lemma {:induction false} ScannedDrop(
    polls: seq<Poll>, position: nat, length: nat, kept: seq<int>, keptPolls: seq<Poll>, done: seq<bool>, flags: seq<bool>,
    goal: seq<bool>)
    requires position < |polls| && NamesKept(polls, kept, keptPolls) && Progress(polls, position, keptPolls, done, goal)
    requires length == ShortestRepeat(keptPolls, polls[position..], 1) > 0 && position + length <= |polls|
    requires flags == done + Falses(length) + Trues(|polls| - (position + length))
    ensures Scanned(polls, position + length, kept, keptPolls, done + Falses(length), flags, goal)
  {
    DropStep(polls, position, length, keptPolls, done, goal);
  }

  lemma {:induction false} ScannedKeep(
    polls: seq<Poll>, position: nat, kept: seq<int>, keptPolls: seq<Poll>, done: seq<bool>, flags: seq<bool>,
    goal: seq<bool>)
    requires position < |polls| && Scanned(polls, position, kept, keptPolls, done, flags, goal)
    requires ShortestRepeat(keptPolls, polls[position..], 1) == 0
    ensures Scanned(polls, position + 1, kept + [position], keptPolls + [polls[position]], done + [true], flags, goal)
  {
    KeepStep(polls, position, keptPolls, done, goal);
    NameOneMore(polls, kept, keptPolls, position);
  }

  // ----- nothing is lost -----

  lemma {:induction false} ReplayDrop(kept: seq<Poll>, length: nat, rest: seq<Step>)
    ensures Replay(kept, [Drop(length)] + rest) == LastKept(kept, length) + Replay(kept, rest)
  {
    var steps := [Drop(length)] + rest;
    assert steps[0] == Drop(length) && steps[1..] == rest;
  }

  lemma {:induction false} ReplayKeep(kept: seq<Poll>, poll: Poll, rest: seq<Step>)
    ensures Replay(kept, [Keep(poll)] + rest) == [poll] + Replay(kept + [poll], rest)
  {
    var steps := [Keep(poll)] + rest;
    assert steps[0] == Keep(poll) && steps[1..] == rest;
  }

  lemma {:induction false} RepeatIsCopy(kept: seq<Poll>, ahead: seq<Poll>, length: nat)
    requires Repeats(kept, ahead, length)
    ensures LastKept(kept, length) == ahead[..length]
  {
  }

  lemma {:induction false} ReplayDropHead(kept: seq<Poll>, ahead: seq<Poll>, length: nat, rest: seq<Step>)
    requires length <= |ahead| && Repeats(kept, ahead, length) && Replay(kept, rest) == ahead[length..]
    ensures Replay(kept, [Drop(length)] + rest) == ahead
  {
    RepeatIsCopy(kept, ahead, length);
    ReplayDrop(kept, length, rest);
    assert ahead[..length] + ahead[length..] == ahead;
  }

  lemma {:induction false} ReplayKeepHead(kept: seq<Poll>, ahead: seq<Poll>, rest: seq<Step>)
    requires |ahead| > 0 && Replay(kept + [ahead[0]], rest) == ahead[1..]
    ensures Replay(kept, [Keep(ahead[0])] + rest) == ahead
  {
    ReplayKeep(kept, ahead[0], rest);
    assert [ahead[0]] + ahead[1..] == ahead;
  }

  lemma {:induction false} ReplayRebuilds(kept: seq<Poll>, ahead: seq<Poll>)
    ensures Replay(kept, Scan(kept, ahead)) == ahead
    decreases |ahead|
  {
    if |ahead| > 0 {
      var length := ShortestRepeat(kept, ahead, 1);
      if length > 0 {
        ShortestIsShortest(kept, ahead, 1);
        ReplayRebuilds(kept, ahead[length..]);
        ReplayDropHead(kept, ahead, length, Scan(kept, ahead[length..]));
      } else {
        ReplayRebuilds(kept + [ahead[0]], ahead[1..]);
        ReplayKeepHead(kept, ahead, Scan(kept + [ahead[0]], ahead[1..]));
      }
    }
  }

  lemma {:induction false} FlagsSelectKept(kept: seq<Poll>, ahead: seq<Poll>)
    ensures |Flags(Scan(kept, ahead))| == |ahead|
    ensures Select(ahead, Flags(Scan(kept, ahead))) == KeptPolls(Scan(kept, ahead))
    decreases |ahead|
  {
    if |ahead| > 0 {
      var length := ShortestRepeat(kept, ahead, 1);
      if length > 0 {
        DropHead(kept, ahead, length);
        FlagsSelectKept(kept, ahead[length..]);
        SelectDropped(ahead, length, Flags(Scan(kept, ahead[length..])));
      } else {
        KeepHead(kept, ahead);
        FlagsSelectKept(kept + [ahead[0]], ahead[1..]);
        SelectKept(ahead, Flags(Scan(kept + [ahead[0]], ahead[1..])));
      }
    }
  }

  lemma {:induction false} SelectKept(polls: seq<Poll>, flags: seq<bool>)
    requires |polls| == |flags| + 1
    ensures Select(polls, [true] + flags) == [polls[0]] + Select(polls[1..], flags)
  {
    assert ([true] + flags)[1..] == flags;
  }

  lemma {:induction false} SelectDropped(polls: seq<Poll>, n: nat, flags: seq<bool>)
    requires n + |flags| == |polls|
    ensures Select(polls, Falses(n) + flags) == Select(polls[n..], flags)
  {
    if n == 0 {
      assert Falses(n) + flags == flags && polls[n..] == polls;
    } else {
      assert (Falses(n) + flags)[1..] == Falses(n - 1) + flags;
      SelectDropped(polls[1..], n - 1, flags);
      assert polls[1..][n - 1..] == polls[n..];
    }
  }

  /**
   Lossless: the flags select exactly the polls the log keeps, and replaying the log, where a
   drop copies the last polls kept, rebuilds the whole recording.
   */
  lemma {:induction false} DroppingIsLossless(polls: seq<Poll>)
    ensures
      var steps := Scan([], polls);
      && |Flags(steps)| == |polls|
      && Select(polls, Flags(steps)) == KeptPolls(steps)
      && Replay([], steps) == polls
  {
    FlagsSelectKept([], polls);
    ReplayRebuilds([], polls);
  }

  /** A kept poll differs from the source poll just before it, which is always the last one kept. */
  lemma {:induction false} KeptDiffersFromBefore(kept: seq<Poll>, ahead: seq<Poll>, before: Poll, i: nat)
    requires |kept| > 0 && kept[|kept| - 1] == before
    requires |Flags(Scan(kept, ahead))| == |ahead| && i < |ahead| && Flags(Scan(kept, ahead))[i]
    ensures ahead[i] != if i == 0 then before else ahead[i - 1]
    decreases |ahead|
  {
    var length := ShortestRepeat(kept, ahead, 1);
    if length > 0 {
      KeptAfterDrop(kept, ahead, length, i);
      RunEndsLikeKept(kept, ahead, length);
      KeptDiffersFromBefore(kept, ahead[length..], before, i - length);
    } else if i == 0 {
      OneRepeats(kept, ahead);
      ShortestIsShortest(kept, ahead, 1);
    } else {
      KeptAfterKeep(kept, ahead, i);
      KeptDiffersFromBefore(kept + [ahead[0]], ahead[1..], ahead[0], i - 1);
    }
  }

  lemma {:induction false} RunEndsLikeKept(kept: seq<Poll>, ahead: seq<Poll>, length: nat)
    requires |ahead| > 0 && length == ShortestRepeat(kept, ahead, 1) > 0
    ensures ahead[length - 1] == kept[|kept| - 1]
  {
    ShortestIsShortest(kept, ahead, 1);
    assert ahead[length - 1] == kept[|kept| - length + (length - 1)];
  }

  /** A later poll kept after one is kept is kept by the rest of the scan. */
  lemma {:induction false} KeptAfterKeep(kept: seq<Poll>, ahead: seq<Poll>, i: nat)
    requires |ahead| > 0 && ShortestRepeat(kept, ahead, 1) == 0
    requires |Flags(Scan(kept, ahead))| == |ahead| && 0 < i < |ahead| && Flags(Scan(kept, ahead))[i]
    ensures
      var rest := Flags(Scan(kept + [ahead[0]], ahead[1..]));
      |rest| == |ahead| - 1 && rest[i - 1]
  {
    KeepHead(kept, ahead);
    FlagsSelectKept(kept + [ahead[0]], ahead[1..]);
  }

  /** A poll kept after a run is dropped is kept by the rest of the scan. */
  lemma {:induction false} KeptAfterDrop(kept: seq<Poll>, ahead: seq<Poll>, length: nat, i: nat)
    requires |ahead| > 0 && length == ShortestRepeat(kept, ahead, 1) > 0
    requires |Flags(Scan(kept, ahead))| == |ahead| && i < |ahead| && Flags(Scan(kept, ahead))[i]
    ensures
      var rest := Flags(Scan(kept, ahead[length..]));
      length <= i && |rest| == |ahead| - length && rest[i - length]
  {
    DropHead(kept, ahead, length);
    FalsesAreFalse(length, Falses(length));
    FlagsSelectKept(kept, ahead[length..]);
    TrueIsPast(Falses(length), Flags(Scan(kept, ahead[length..])), i);
  }

  lemma {:induction false} TrueIsPast(falses: seq<bool>, rest: seq<bool>, i: nat)
    requires forall k :: 0 <= k < |falses| ==> !falses[k]
    requires i < |falses + rest| && (falses + rest)[i]
    ensures |falses| <= i && rest[i - |falses|]
  {
  }

  lemma {:induction false} OneRepeats(kept: seq<Poll>, ahead: seq<Poll>)
    requires |kept| > 0 && |ahead| > 0
    ensures Repeats(kept, ahead, 1) <==> kept[|kept| - 1] == ahead[0]
  {
    assert Repeats(kept, ahead, 1) ==> ahead[0] == kept[|kept| - 1 + 0];
  }

  /** Every poll kept after the first differs from the poll recorded immediately before it. */
  lemma {:induction false} KeptPollsAreChanges(polls: seq<Poll>, i: nat)
    requires 0 < i < |polls| && |Flags(Scan([], polls))| == |polls| && Flags(Scan([], polls))[i]
    ensures polls[i] != polls[i - 1]
  {
    KeepHead([], polls);
    assert [] + [polls[0]] == [polls[0]];
    FlagsSelectKept([polls[0]], polls[1..]);
    KeptDiffersFromBefore([polls[0]], polls[1..], polls[0], i - 1);
  }

  // ----- dropping twice -----

  /** The same block of `length` polls stands just before `at` and from `at` on. */
  predicate SquareAt(polls: seq<Poll>, at: nat, length: nat) {
    length <= at && at + length <= |polls| && polls[at - length..at] == polls[at..at + length]
  }

  /** No block of up to eight stands twice in a row around a position from `start` on. */
  ghost predicate SquareFree(polls: seq<Poll>, start: nat) {
    forall at: nat, length: nat :: start <= at && 1 <= length <= 8 ==> !SquareAt(polls, at, length)
  }

  lemma {:induction false} SquareIsRepeat(kept: seq<Poll>, ahead: seq<Poll>, length: nat)
    ensures SquareAt(kept + ahead, |kept|, length) <==> Repeats(kept, ahead, length)
  {
    var whole := kept + ahead;
    if length <= |kept| && length <= |ahead| {
      var before, after := whole[|kept| - length..|kept|], whole[|kept|..|kept| + length];
      assert forall i :: 0 <= i < length ==> before[i] == kept[|kept| - length + i] && after[i] == ahead[i];
    }
  }

  lemma {:induction false} KeptNoLonger(kept: seq<Poll>, ahead: seq<Poll>)
    ensures |KeptPolls(Scan(kept, ahead))| <= |ahead|
    decreases |ahead|
  {
    if |ahead| > 0 {
      var length := ShortestRepeat(kept, ahead, 1);
      if length > 0 {
        DropHead(kept, ahead, length);
        KeptNoLonger(kept, ahead[length..]);
      } else {
        KeepHead(kept, ahead);
        KeptNoLonger(kept + [ahead[0]], ahead[1..]);
      }
    }
  }

  lemma {:induction false} DroppingLosesLength(kept: seq<Poll>, ahead: seq<Poll>, length: nat)
    requires |ahead| > 0 && length == ShortestRepeat(kept, ahead, 1) > 0
    ensures |KeptPolls(Scan(kept, ahead))| < |ahead| && SquareAt(kept + ahead, |kept|, length)
  {
    DropHead(kept, ahead, length);
    KeptNoLonger(kept, ahead[length..]);
    ShortestIsShortest(kept, ahead, 1);
    SquareIsRepeat(kept, ahead, length);
  }

  lemma {:induction false} KeepingOneMore(kept: seq<Poll>, ahead: seq<Poll>)
    requires |ahead| > 0 && ShortestRepeat(kept, ahead, 1) == 0
    ensures KeptPolls(Scan(kept, ahead)) == ahead <==> KeptPolls(Scan(kept + [ahead[0]], ahead[1..])) == ahead[1..]
  {
    KeepHead(kept, ahead);
    SameFirst(ahead, KeptPolls(Scan(kept + [ahead[0]], ahead[1..])));
  }

  lemma {:induction false} KeepsAllExactly(whole: seq<Poll>, kept: seq<Poll>, ahead: seq<Poll>)
    requires whole == kept + ahead
    ensures KeptPolls(Scan(kept, ahead)) == ahead <==> SquareFree(whole, |kept|)
    decreases |ahead|
  {
    if |ahead| == 0 {
      NothingAhead(whole);
    } else {
      var length := ShortestRepeat(kept, ahead, 1);
      if length > 0 {
        DroppingLosesLength(kept, ahead, length);
      } else {
        KeepingOneMore(kept, ahead);
        NoRepeatNoSquare(kept, ahead);
        assert whole == kept + [ahead[0]] + ahead[1..];
        KeepsAllExactly(whole, kept + [ahead[0]], ahead[1..]);
      }
    }
  }

  lemma {:induction false} NothingAhead(polls: seq<Poll>)
    ensures SquareFree(polls, |polls|)
  {
  }

  lemma {:induction false} SameFirst(ahead: seq<Poll>, rest: seq<Poll>)
    requires |ahead| > 0
    ensures [ahead[0]] + rest == ahead <==> rest == ahead[1..]
  {
    assert ([ahead[0]] + rest)[1..] == rest;
    assert ahead == [ahead[0]] + ahead[1..];
  }

  lemma {:induction false} NoRepeatNoSquare(kept: seq<Poll>, ahead: seq<Poll>)
    requires |ahead| > 0 && ShortestRepeat(kept, ahead, 1) == 0
    ensures SquareFree(kept + ahead, |kept|) <==> SquareFree(kept + ahead, |kept| + 1)
  {
    ShortestIsShortest(kept, ahead, 1);
    forall length: nat | 1 <= length <= LONGEST_RUN ensures !SquareAt(kept + ahead, |kept|, length) {
      SquareIsRepeat(kept, ahead, length);
    }
  }

  /** A recording is left as it is exactly when no block of up to eight stands twice in a row in it. */
  lemma {:induction false} LeftAloneExactly(polls: seq<Poll>)
    ensures KeptPolls(Scan([], polls)) == polls <==> SquareFree(polls, 0)
  {
    KeepsAllExactly(polls, [], polls);
  }

  /** Keeping the next poll, when every run ahead differs somewhere from the polls just kept. */
  lemma {:induction false} KeepsNext(kept: seq<Poll>, ahead: seq<Poll>, longer: seq<Poll>, later: seq<Poll>)
    requires |ahead| > 0 && longer == kept + [ahead[0]] && later == ahead[1..]
    requires forall l: nat :: 1 <= l <= |kept| && l <= |ahead| ==> Differs(kept, ahead, l)
    ensures KeptPolls(Scan(kept, ahead)) == [ahead[0]] + KeptPolls(Scan(longer, later))
  {
    forall l: nat | 1 <= l ensures !Repeats(kept, ahead, l) {
      if l <= |kept| && l <= |ahead| {
        assert Differs(kept, ahead, l);
      }
    }
    ShortestIsShortest(kept, ahead, 1);
    KeepHead(kept, ahead);
  }

  predicate Differs(kept: seq<Poll>, ahead: seq<Poll>, l: nat) {
    l <= |kept| && l <= |ahead| && exists i :: 0 <= i < l && ahead[i] != kept[|kept| - l + i]
  }

  /** Three polls, no two alike. */
  predicate AllDiffer(a: Poll, b: Poll, c: Poll) {
    a != b && b != c && a != c
  }

  lemma {:induction false} ScanLastTwo(a: Poll, b: Poll, c: Poll)
    requires AllDiffer(a, b, c)
    ensures KeptPolls(Scan([a, b, a], [b, c])) == [b, c]
  {
    var kept, ahead := [a, b, a], [b, c];
    assert ahead[0] != kept[2] && Differs(kept, ahead, 1);
    assert ahead[1] != kept[2] && Differs(kept, ahead, 2);
    KeepsNext(kept, ahead, [a, b, a, b], [c]);
    assert [c][0] != [a, b, a, b][3] && Differs([a, b, a, b], [c], 1);
    KeepsNext([a, b, a, b], [c], [a, b, a, b, c], []);
  }

  lemma {:induction false} ScanFromThird(a: Poll, b: Poll, c: Poll)
    requires AllDiffer(a, b, c)
    ensures KeptPolls(Scan([a, b], [a, a, b, c])) == [a, b, c]
  {
    var kept, ahead := [a, b], [a, a, b, c];
    assert ahead[0] != kept[1] && Differs(kept, ahead, 1);
    assert ahead[1] != kept[1] && Differs(kept, ahead, 2);
    KeepsNext(kept, ahead, [a, b, a], [a, b, c]);
    DropsOne([a, b, a], [a, b, c], [b, c]);
    ScanLastTwo(a, b, c);
  }

  lemma {:induction false} ScanFromFirst(a: Poll, b: Poll, c: Poll)
    requires AllDiffer(a, b, c)
    ensures KeptPolls(Scan([], [a, b, a, a, b, c])) == [a, b, a, b, c]
  {
    KeepsNext([], [a, b, a, a, b, c], [a], [b, a, a, b, c]);
    var ahead := [b, a, a, b, c];
    assert ahead[0] != [a][0] && Differs([a], ahead, 1);
    KeepsNext([a], ahead, [a, b], [a, a, b, c]);
    ScanFromThird(a, b, c);
  }

  /** Neither idempotent nor free of doubled blocks: a, b, a, a, b, c keeps a, b, a, b, c. */
  lemma {:induction false} DroppingMakesASquare(a: Poll, b: Poll, c: Poll)
    requires AllDiffer(a, b, c)
    ensures
      var once := KeptPolls(Scan([], [a, b, a, a, b, c]));
      once == [a, b, a, b, c] && !SquareFree(once, 0) && KeptPolls(Scan([], once)) != once
  {
    ScanFromFirst(a, b, c);
    var once := [a, b, a, b, c];
    assert once[0..2] == once[2..4];
    assert SquareAt(once, 2, 2);
    LeftAloneExactly(once);
  }

  lemma {:induction false} DropsOne(kept: seq<Poll>, ahead: seq<Poll>, later: seq<Poll>)
    requires |kept| > 0 && |ahead| > 0 && ahead[0] == kept[|kept| - 1] && later == ahead[1..]
    ensures KeptPolls(Scan(kept, ahead)) == KeptPolls(Scan(kept, later))
  {
    OneRepeats(kept, ahead);
    ShortestIsShortest(kept, ahead, 1);
    DropHead(kept, ahead, 1);
  }
}
