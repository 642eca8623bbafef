/**
 Qualifying the signal programs: each one's receipt is dated when its qualified identity was
 first seen, and carries that date and its lineage forward while the identity is unchanged.
 */
module BuildQualification {
  import opened Outcomes

  /** The identity a receipt's timestamp is earned against. */
  datatype Identity = Identity(
    programKey: string, programVersion: string, goldenTraceRoot: string,
    artifactDigest: string, wiringDigest: string, qualificationSuite: string)

  /** The recorded lineage of a program's files. */
  datatype Provenance = Provenance(commitSha: string, dirty: bool)

  /** A receipt as this run writes it; the payload's other fields are a function of the program. */
  datatype Receipt = Receipt(identity: Identity, qualifiedAtMs: int, gitProvenance: Option<Provenance>, body: string)

  /** A receipt as found in a committed manifest, where any field may be missing. */
  datatype StoredReceipt = StoredReceipt(
    programKey: Option<string>, programVersion: Option<string>, goldenTraceRoot: Option<string>,
    artifactDigest: Option<string>, wiringDigest: Option<string>, qualificationSuite: Option<string>,
    qualifiedAtMs: Option<int>, gitProvenance: Option<Provenance>)

  /** What an unchanged identity carries forward. */
  datatype Facts = Facts(qualifiedAtMs: int, gitProvenance: Option<Provenance>)

  type Index = map<Identity, Facts>

  /** The identity and facts of a stored receipt; None when a field of the identity or the date is missing. */
  function IndexEntry(r: StoredReceipt): Option<(Identity, Facts)> {
    if r.programKey.None? || r.programVersion.None? || r.goldenTraceRoot.None? || r.artifactDigest.None?
       || r.wiringDigest.None? || r.qualificationSuite.None? || r.qualifiedAtMs.None? then None
    else
      Some((Identity(r.programKey.value, r.programVersion.value, r.goldenTraceRoot.value, r.artifactDigest.value,
                     r.wiringDigest.value, r.qualificationSuite.value),
            Facts(r.qualifiedAtMs.value, r.gitProvenance)))
  }

  /** The index of a manifest; a later receipt of the same identity replaces an earlier one. */
  function IndexOf(receipts: seq<StoredReceipt>): Index {
    if |receipts| == 0 then map[]
    else
      var n := |receipts| - 1;
      match IndexEntry(receipts[n])
      case None => IndexOf(receipts[..n])
      case Some((identity, facts)) => IndexOf(receipts[..n])[identity := facts]
  }

  method PriorReceiptReuse(receipts: Option<seq<StoredReceipt>>) returns (index: Index)
    ensures index == if receipts.None? then map[] else IndexOf(receipts.value)
  {
    index := map[];
    if receipts.None? {
      return;
    }
    for i := 0 to |receipts.value|
      invariant index == IndexOf(receipts.value[..i])
    {
      assert receipts.value[..i + 1][..i] == receipts.value[..i];
      match IndexEntry(receipts.value[i]) {
        case None =>
        case Some((identity, facts)) => index := index[identity := facts];
      }
    }
    assert receipts.value[..|receipts.value|] == receipts.value;
  }

  // ----- one qualification run -----

  /**
   A listed program as the run finds it: whether it is registered with a contract, whether
   its suite passes, its identity now, and its lineage as git reports it now.
   */
  datatype Program = Program(
    registered: bool, suitePasses: bool, identity: Identity, currentProvenance: Option<Provenance>, body: string)

  datatype QualificationError = NotRegistered(programKey: string) | SuiteFailed(programKey: string)

  function ReceiptFor(p: Program, prior: Index, freshAtMs: int): Receipt {
    var carried := if p.identity in prior then Some(prior[p.identity]) else None;
    Receipt(p.identity,
            if carried.Some? then carried.value.qualifiedAtMs else freshAtMs,
            if carried.Some? && carried.value.gitProvenance.Some? then carried.value.gitProvenance else p.currentProvenance,
            p.body)
  }

  function ReceiptsFor(programs: seq<Program>, prior: Index, freshAtMs: int): (r: seq<Receipt>)
    ensures |r| == |programs| && forall i :: 0 <= i < |programs| ==> r[i] == ReceiptFor(programs[i], prior, freshAtMs)
  {
    if |programs| == 0 then []
    else
      ReceiptsFor(programs[..|programs| - 1], prior, freshAtMs) +
      [ReceiptFor(programs[|programs| - 1], prior, freshAtMs)]
  }

  predicate Qualifies(p: Program) {
    p.registered && p.suitePasses
  }

  /** The first program that does not qualify, and why. */
  ghost predicate FirstFailure(programs: seq<Program>, i: nat, error: QualificationError)
    requires i < |programs|
  {
    && (forall j :: 0 <= j < i ==> Qualifies(programs[j]))
    && !Qualifies(programs[i])
    && error == if programs[i].registered then SuiteFailed(programs[i].identity.programKey)
                else NotRegistered(programs[i].identity.programKey)
  }

  /** Run every suite in key order; the first program that does not qualify yields no manifest at all. */
  method QualifySignalProgramBuilds(programs: seq<Program>, prior: Index, freshAtMs: int)
    returns (r: Result<seq<Receipt>, QualificationError>)
    ensures r.Ok? <==> forall i :: 0 <= i < |programs| ==> Qualifies(programs[i])
    ensures r.Ok? ==> r.value == ReceiptsFor(programs, prior, freshAtMs)
    ensures r.Err? ==> exists i :: 0 <= i < |programs| && FirstFailure(programs, i, r.error)
  {
    var receipts := [];
    for i := 0 to |programs|
      invariant forall j :: 0 <= j < i ==> Qualifies(programs[j])
      invariant receipts == ReceiptsFor(programs[..i], prior, freshAtMs)
    {
      assert programs[..i + 1][..i] == programs[..i];
      if !programs[i].registered {
        r := Err(NotRegistered(programs[i].identity.programKey));
        assert FirstFailure(programs, i, r.error);
        return;
      }
      if !programs[i].suitePasses {
        r := Err(SuiteFailed(programs[i].identity.programKey));
        assert FirstFailure(programs, i, r.error);
        return;
      }
      receipts := receipts + [ReceiptFor(programs[i], prior, freshAtMs)];
    }
    assert programs[..|programs|] == programs;
    return Ok(receipts);
  }

  // ----- running again -----

  /** A written receipt, read back from the committed manifest. */
  function Stored(r: Receipt): StoredReceipt {
    StoredReceipt(Some(r.identity.programKey), Some(r.identity.programVersion), Some(r.identity.goldenTraceRoot),
                  Some(r.identity.artifactDigest), Some(r.identity.wiringDigest), Some(r.identity.qualificationSuite),
                  Some(r.qualifiedAtMs), r.gitProvenance)
  }

  function Commit(receipts: seq<Receipt>): (m: seq<StoredReceipt>)
    ensures |m| == |receipts| && forall i :: 0 <= i < |receipts| ==> m[i] == Stored(receipts[i])
  {
    if |receipts| == 0 then [] else Commit(receipts[..|receipts| - 1]) + [Stored(receipts[|receipts| - 1])]
  }

  /** The programs of one run have distinct keys. */
  ghost predicate DistinctPrograms(programs: seq<Program>) {
    forall i, j :: 0 <= i < j < |programs| ==> programs[i].identity.programKey != programs[j].identity.programKey
  }

  ghost predicate DistinctReceipts(receipts: seq<Receipt>) {
    forall i, j :: 0 <= i < j < |receipts| ==> receipts[i].identity != receipts[j].identity
  }

  lemma {:induction false} StoredEntry(r: Receipt)
    ensures IndexEntry(Stored(r)) == Some((r.identity, Facts(r.qualifiedAtMs, r.gitProvenance)))
  {
  }

  lemma {:induction false} AmongFirst(receipts: seq<Receipt>, n: nat, id: Identity)
    requires n <= |receipts| && exists i :: 0 <= i < n && receipts[..n][i].identity == id
    ensures exists i :: 0 <= i < |receipts| && receipts[i].identity == id
  {
    var i :| 0 <= i < n && receipts[..n][i].identity == id;
    assert receipts[i].identity == id;
  }

  /** The index of a committed manifest finds each receipt again, and finds nothing else. */
  lemma {:induction false} IndexFindsCommitted(receipts: seq<Receipt>)
    requires DistinctReceipts(receipts)
    ensures
      var index := IndexOf(Commit(receipts));
      && (forall i :: 0 <= i < |receipts| ==>
            receipts[i].identity in index &&
            index[receipts[i].identity] == Facts(receipts[i].qualifiedAtMs, receipts[i].gitProvenance))
      && (forall id :: id in index ==> exists i :: 0 <= i < |receipts| && receipts[i].identity == id)
  {
    if |receipts| > 0 {
      var n := |receipts| - 1;
      IndexFindsCommitted(receipts[..n]);
      StoredEntry(receipts[n]);
      assert Commit(receipts)[..n] == Commit(receipts[..n]);
      var before, index := IndexOf(Commit(receipts[..n])), IndexOf(Commit(receipts));
      assert index == before[receipts[n].identity := Facts(receipts[n].qualifiedAtMs, receipts[n].gitProvenance)];
      forall id | id in index ensures exists i :: 0 <= i < |receipts| && receipts[i].identity == id {
        if id in before {
          AmongFirst(receipts, n, id);
        } else {
          assert receipts[n].identity == id;
        }
      }
    }
  }

  /** What the programs look like to a later run: the same identities and payloads, perhaps other lineage. */
  ghost predicate SamePrograms(programs: seq<Program>, later: seq<Program>) {
    && |later| == |programs|
    && forall i :: 0 <= i < |programs| ==>
         later[i].identity == programs[i].identity && later[i].body == programs[i].body
  }

  lemma {:induction false} RerunAt(
    programs: seq<Program>, later: seq<Program>, prior: Index, firstAtMs: int, laterAtMs: int, i: nat)
    requires DistinctPrograms(programs) && SamePrograms(programs, later) && i < |programs|
    ensures
      var first := ReceiptsFor(programs, prior, firstAtMs);
      var again := ReceiptFor(later[i], IndexOf(Commit(first)), laterAtMs);
      && again.qualifiedAtMs == first[i].qualifiedAtMs
      && (again == first[i] <==> (first[i].gitProvenance.None? ==> later[i].currentProvenance.None?))
  {
    var first := ReceiptsFor(programs, prior, firstAtMs);
    IndexFindsCommitted(first);
    ReceiptAgain(first[i], later[i], IndexOf(Commit(first)), laterAtMs);
  }

  /** Every receipt that was missing its lineage still finds none. */
  ghost predicate NothingToBackfill(first: seq<Receipt>, later: seq<Program>)
    requires |first| == |later|
  {
    forall i :: 0 <= i < |first| && first[i].gitProvenance.None? ==> later[i].currentProvenance.None?
  }

  /**
   Re-running with unchanged identities changes no date, whatever the time; and it gives the
   same manifest exactly when every receipt that was missing its lineage still finds none.
   */
  lemma {:induction false} RerunIsFixpointExactly(
    programs: seq<Program>, later: seq<Program>, prior: Index, firstAtMs: int, laterAtMs: int)
    requires DistinctPrograms(programs) && SamePrograms(programs, later)
    ensures
      var first := ReceiptsFor(programs, prior, firstAtMs);
      var again := ReceiptsFor(later, IndexOf(Commit(first)), laterAtMs);
      && (forall i :: 0 <= i < |first| ==> again[i].qualifiedAtMs == first[i].qualifiedAtMs)
      && (again == first <==> NothingToBackfill(first, later))
  {
    var first := ReceiptsFor(programs, prior, firstAtMs);
    var again := ReceiptsFor(later, IndexOf(Commit(first)), laterAtMs);
    forall i | 0 <= i < |first|
      ensures again[i].qualifiedAtMs == first[i].qualifiedAtMs
      ensures again[i] == first[i] <==> (first[i].gitProvenance.None? ==> later[i].currentProvenance.None?)
    {
      RerunAt(programs, later, prior, firstAtMs, laterAtMs, i);
    }
    SameReceipts(first, again);
  }

  lemma {:induction false} SameReceipts(first: seq<Receipt>, again: seq<Receipt>)
    requires |first| == |again|
    ensures again == first <==> forall i :: 0 <= i < |first| ==> again[i] == first[i]
  {
  }

  lemma {:induction false} ReceiptAgain(first: Receipt, p: Program, index: Index, laterAtMs: int)
    requires p.identity == first.identity && p.body == first.body
    requires first.identity in index && index[first.identity] == Facts(first.qualifiedAtMs, first.gitProvenance)
    ensures
      var again := ReceiptFor(p, index, laterAtMs);
      && again.qualifiedAtMs == first.qualifiedAtMs
      && (again == first <==> (first.gitProvenance.None? ==> p.currentProvenance.None?))
  {
  }

  /** In particular, when every receipt carries its lineage the manifest comes back as it was. */
  lemma {:induction false} RerunIsFixpoint(
    programs: seq<Program>, later: seq<Program>, prior: Index, firstAtMs: int, laterAtMs: int)
    requires DistinctPrograms(programs) && SamePrograms(programs, later)
    requires forall i :: 0 <= i < |programs| ==> ReceiptFor(programs[i], prior, firstAtMs).gitProvenance.Some?
    ensures
      var first := ReceiptsFor(programs, prior, firstAtMs);
      ReceiptsFor(later, IndexOf(Commit(first)), laterAtMs) == first
  {
    RerunIsFixpointExactly(programs, later, prior, firstAtMs, laterAtMs);
  }

  /** The stored receipt is dated and has every field of this identity; one that lacks a field is of none. */
  predicate IsOf(r: StoredReceipt, id: Identity) {
    && r.programKey == Some(id.programKey) && r.programVersion == Some(id.programVersion)
    && r.goldenTraceRoot == Some(id.goldenTraceRoot) && r.artifactDigest == Some(id.artifactDigest)
    && r.wiringDigest == Some(id.wiringDigest) && r.qualificationSuite == Some(id.qualificationSuite)
    && r.qualifiedAtMs.Some?
  }

  lemma {:induction false} EntryExactly(r: StoredReceipt, id: Identity)
    ensures IndexEntry(r).Some? && IndexEntry(r).value.0 == id <==> IsOf(r, id)
    ensures IsOf(r, id) ==> IndexEntry(r).value.1 == Facts(r.qualifiedAtMs.value, r.gitProvenance)
  {
  }

  /** No stored receipt is of this identity. */
  ghost predicate Unknown(stored: seq<StoredReceipt>, id: Identity) {
    forall i :: 0 <= i < |stored| ==> !IsOf(stored[i], id)
  }

  /** The last stored receipt of this identity is the one at `i`. */
  ghost predicate LastOf(stored: seq<StoredReceipt>, id: Identity, i: nat) {
    i < |stored| && IsOf(stored[i], id) && forall j :: i < j < |stored| ==> !IsOf(stored[j], id)
  }

  lemma {:induction false} IndexedExactly(stored: seq<StoredReceipt>, id: Identity)
    ensures id !in IndexOf(stored) <==> Unknown(stored, id)
  {
    if |stored| > 0 {
      var n := |stored| - 1;
      IndexedExactly(stored[..n], id);
      EntryExactly(stored[n], id);
      assert Unknown(stored, id) <==> Unknown(stored[..n], id) && !IsOf(stored[n], id);
    }
  }

  /** The stored receipt an indexed identity's facts come from. */
  lemma {:induction false} IndexedFrom(stored: seq<StoredReceipt>, id: Identity) returns (i: nat)
    requires id in IndexOf(stored)
    ensures LastOf(stored, id, i)
    ensures IndexOf(stored)[id] == Facts(stored[i].qualifiedAtMs.value, stored[i].gitProvenance)
  {
    var n := |stored| - 1;
    EntryExactly(stored[n], id);
    if IsOf(stored[n], id) {
      i := n;
    } else {
      i := IndexedFrom(stored[..n], id);
      assert IsOf(stored[i], id) && forall j :: i < j < n ==> stored[j] == stored[..n][j];
    }
  }

  /**
   Whatever a manifest holds, complete receipts or not, a program whose identity is unknown to
   it is dated afresh, with its lineage as it is now; a known one has the date of its last
   receipt there, and that receipt's lineage if it recorded any.
   */
  lemma {:induction false} ChangedIdentityIsDatedAfresh(stored: seq<StoredReceipt>, p: Program, freshAtMs: int)
    ensures
      var receipt := ReceiptFor(p, IndexOf(stored), freshAtMs);
      && receipt.identity == p.identity && receipt.body == p.body
      && if Unknown(stored, p.identity) then
           receipt.qualifiedAtMs == freshAtMs && receipt.gitProvenance == p.currentProvenance
         else
           exists i: nat :: LastOf(stored, p.identity, i) && stored[i].qualifiedAtMs == Some(receipt.qualifiedAtMs) &&
             receipt.gitProvenance == (if stored[i].gitProvenance.Some? then stored[i].gitProvenance else p.currentProvenance)
  {
    IndexedExactly(stored, p.identity);
    if !Unknown(stored, p.identity) {
      var i := IndexedFrom(stored, p.identity);
    }
  }
}
