/** Facts about sequence concatenation and slicing that several components use. */
module Sequences {

  lemma {:induction false} TakeSnoc<T>(s: seq<T>, i: nat)
    requires i < |s|
    ensures s[..i + 1] == s[..i] + [s[i]]
  {
  }

  lemma {:induction false} Reassociate<T>(a: seq<T>, b: seq<T>, c: seq<T>)
    ensures a + b + c == a + (b + c)
  {
  }

  lemma {:induction false} SplitAt<T>(whole: seq<T>, front: seq<T>, back: seq<T>)
    requires whole == front + back
    ensures whole[..|front|] == front && whole[|front|..] == back
  {
  }

  lemma {:induction false} SliceAfterDrop<T>(s: seq<T>, start: nat, n: nat)
    requires start + n <= |s|
    ensures s[start..][..n] == s[start..start + n] && s[start..][n..] == s[start + n..]
  {
  }

  lemma {:induction false} SameSnoc<T>(a: seq<T>, x: T, b: seq<T>, y: T)
    requires a + [x] == b + [y]
    ensures a == b && x == y
  {
    assert a == (a + [x])[..|a|] == (b + [y])[..|b|] == b;
    assert x == (a + [x])[|a|] == (b + [y])[|b|] == y;
  }

  lemma {:induction false} InSnoc<T>(s: seq<T>, last: T, x: T)
    ensures x in s + [last] <==> x in s || x == last
  {
    assert (s + [last])[|s|] == last;
    assert forall i :: 0 <= i < |s| ==> (s + [last])[i] == s[i];
  }

  // ----- parts put together -----

  function Flatten<T>(parts: seq<seq<T>>): seq<T> {
    if |parts| == 0 then [] else Flatten(parts[..|parts| - 1]) + parts[|parts| - 1]
  }

  /** One part more, after what was there before the first. */
  lemma {:induction false} FlattenOneMore<T>(before: seq<T>, parts: seq<seq<T>>, k: nat)
    requires k < |parts|
    ensures before + Flatten(parts[..k + 1]) == before + Flatten(parts[..k]) + parts[k]
  {
    assert parts[..k + 1][..k] == parts[..k];
  }

  lemma {:induction false} FlattenOne<T>(part: seq<T>)
    ensures Flatten([part]) == part
  {
    assert [part][..0] == [];
  }

  lemma {:induction false} FlattenPrefix<T>(before: seq<T>, parts: seq<seq<T>>, k: nat)
    requires k <= |parts|
    ensures before + Flatten(parts[..k]) <= before + Flatten(parts)
    decreases |parts|
  {
    if k < |parts| {
      var front := parts[..|parts| - 1];
      FlattenPrefix(before, front, k);
      assert front[..k] == parts[..k];
      assert before + Flatten(parts) == before + Flatten(front) + parts[|parts| - 1];
    } else {
      assert parts[..k] == parts;
    }
  }

  // ----- a part of a text, where it stands -----

  ghost predicate At(src: string, p: nat, text: string) {
    p + |text| <= |src| && forall i :: 0 <= i < |text| ==> src[p + i] == text[i]
  }

  lemma {:induction false} AtParts(src: string, p: nat, first: string, second: string)
    requires At(src, p, first + second)
    ensures At(src, p, first) && At(src, p + |first|, second)
  {
    var both := first + second;
    assert forall i :: 0 <= i < |first| ==> first[i] == both[i];
    forall i | 0 <= i < |second| ensures src[p + |first| + i] == second[i] {
      assert src[p + (|first| + i)] == both[|first| + i];
    }
  }

  lemma {:induction false} AtChar(src: string, p: nat, c: char, rest: string)
    requires At(src, p, [c] + rest)
    ensures p < |src| && src[p] == c && At(src, p + 1, rest)
    ensures rest != "" ==> p + 1 < |src| && src[p + 1] == rest[0]
  {
    AtParts(src, p, [c], rest);
    assert src[p + 0] == [c][0];
    assert rest != "" ==> src[p + 1 + 0] == rest[0];
  }

  lemma {:induction false} AtPair(src: string, p: nat, a: char, b: char, rest: string)
    requires At(src, p, [a, b] + rest)
    ensures p + 1 < |src| && src[p] == a && src[p + 1] == b && At(src, p + 2, rest)
  {
    assert [a, b] + rest == [a] + ([b] + rest);
    AtChar(src, p, a, [b] + rest);
    AtChar(src, p + 1, b, rest);
  }
}
