/** What an operator is shown before accepting a milestone, and the chain its revisions form. */
module Acceptance {
  import opened Values

  // ---- one revision --------------------------------------------------------

  /** A cited piece of evidence: where it lives, and its key there. */
  datatype EvidenceRef = EvidenceRef(container: string, key: string)

  datatype Step = Step(id: string, passed: bool, observation: string, kinds: seq<string>, evidence: seq<EvidenceRef>)

  datatype ExactBinding = ExactBinding(head: string, tree: string, contractDigest: string, policyRevision: nat,
                                       evidenceDigest: string)

  datatype Reason = Reason(code: string, message: string, evidence: seq<EvidenceRef>)

  datatype Bundle = Bundle(milestone: string, revision: nat, supersedesRevision: Option<nat>,
                           supersedesDigest: Option<string>, repairReason: Option<Reason>, binding: ExactBinding,
                           requiredBatches: seq<string>, steps: seq<Step>, sealedAt: int)

  predicate ValidStep(s: Step) {
    && s.kinds != []
    && (forall i, j | 0 <= i < j < |s.kinds| :: s.kinds[i] != s.kinds[j])
    && (s.passed ==> s.evidence != [])
    && (forall i, j | 0 <= i < j < |s.evidence| :: s.evidence[i].key != s.evidence[j].key)
  }

  predicate ValidSteps(steps: seq<Step>) {
    && steps != []
    && (forall i | 0 <= i < |steps| :: ValidStep(steps[i]))
    && (forall i, j | 0 <= i < j < |steps| :: steps[i].id != steps[j].id)
  }

  /** How many of the three predecessor fields are stated. */
  function Named(b: Bundle): nat {
    (if b.supersedesRevision.Some? then 1 else 0) + (if b.supersedesDigest.Some? then 1 else 0)
    + if b.repairReason.Some? then 1 else 0
  }

  /** The bundle validators. */
  predicate ValidBundle(b: Bundle) {
    && b.revision >= 1
    && Named(b) == (if b.revision == 1 then 0 else 3)
    && (b.supersedesRevision.Some? ==> b.supersedesRevision.value == b.revision - 1)
    && ValidSteps(b.steps)
  }

  /** A step that shows what it claims: some kinds, each once, evidence when it passed, no key twice. */
  ghost predicate Shows(s: Step) {
    && s.kinds != [] && (forall i, j | 0 <= i < j < |s.kinds| :: s.kinds[i] != s.kinds[j])
    && (s.evidence == [] ==> !s.passed)
    && (forall i, j | 0 <= i < j < |s.evidence| :: s.evidence[i].key != s.evidence[j].key)
  }

  /** A journey reports some steps, each once, and each shows what it claims. */
  ghost predicate Journey(steps: seq<Step>) {
    && steps != [] && (forall step | step in steps :: Shows(step))
    && (forall i, j | 0 <= i < j < |steps| :: steps[i].id != steps[j].id)
  }

  /** The first revision supersedes nothing; a later one names the one before it, its digest and why. */
  ghost predicate Sealed(b: Bundle) {
    && Journey(b.steps)
    && (if b.revision == 1
        then b.supersedesRevision == None && b.supersedesDigest == None && b.repairReason == None
        else b.revision > 1 && b.supersedesRevision == Some(b.revision - 1)
             && b.supersedesDigest.Some? && b.repairReason.Some?)
  }

  /** The validators, in full. */
  lemma SealedExact(b: Bundle)
    ensures ValidSteps(b.steps) <==> Journey(b.steps)
    ensures ValidBundle(b) <==> Sealed(b)
  {
    forall step ensures ValidStep(step) <==> Shows(step) {
    }
    assert forall i | 0 <= i < |b.steps| :: b.steps[i] in b.steps;
  }

  /** The digest of a bundle's whole content; two bundles never share one. */
  type Digest = Bundle -> string

  ghost predicate Injective(digest: Digest) {
    forall a, b :: digest(a) == digest(b) ==> a == b
  }

  /** `open_successor`: the next revision, or a refusal when it breaks a bundle rule. */
  function OpenSuccessor(digest: Digest, b: Bundle, reason: Reason, steps: seq<Step>, binding: ExactBinding, at: int)
    : Result<Bundle, string>
  {
    var next := b.(revision := b.revision + 1, supersedesRevision := Some(b.revision),
                   supersedesDigest := Some(digest(b)), repairReason := Some(reason), binding := binding,
                   steps := steps, sealedAt := at);
    if ValidBundle(next) then Ok(next) else Err("the successor breaks a bundle rule")
  }

  // ---- the ledger ----------------------------------------------------------

  predicate AllValid(bundles: seq<Bundle>) {
    forall i | 0 <= i < |bundles| :: ValidBundle(bundles[i])
  }

  predicate Follows(digest: Digest, earlier: Bundle, later: Bundle) {
    later.supersedesDigest == Some(digest(earlier)) && later.sealedAt >= earlier.sealedAt
  }

  /** One milestone, ordinals from one, each revision carrying the digest of the one before it. */
  predicate Chained(digest: Digest, milestone: string, bundles: seq<Bundle>) {
    && AllValid(bundles)
    && (forall i | 0 <= i < |bundles| :: bundles[i].milestone == milestone && bundles[i].revision == i + 1)
    && (forall i | 0 < i < |bundles| :: Follows(digest, bundles[i - 1], bundles[i]))
  }

  /** Sealed revisions of one milestone, numbered from one, each carrying the digest of the one before, in time. */
  ghost predicate Unbroken(digest: Digest, milestone: string, bundles: seq<Bundle>) {
    && (forall i | 0 <= i < |bundles| ::
          Sealed(bundles[i]) && bundles[i].milestone == milestone && bundles[i].revision == i + 1)
    && (forall i | 1 <= i < |bundles| ::
          bundles[i].supersedesDigest == Some(digest(bundles[i - 1])) && bundles[i].sealedAt >= bundles[i - 1].sealedAt)
  }

  lemma UnbrokenExact(digest: Digest, milestone: string, bundles: seq<Bundle>)
    ensures Chained(digest, milestone, bundles) <==> Unbroken(digest, milestone, bundles)
  {
    forall i | 0 <= i < |bundles| ensures ValidBundle(bundles[i]) <==> Sealed(bundles[i]) {
      SealedExact(bundles[i]);
    }
    if Unbroken(digest, milestone, bundles) {
      forall i | 0 < i < |bundles| ensures Follows(digest, bundles[i - 1], bundles[i]) {
      }
    }
    if Chained(digest, milestone, bundles) {
      forall i | 1 <= i < |bundles|
        ensures bundles[i].supersedesDigest == Some(digest(bundles[i - 1]))
        ensures bundles[i].sealedAt >= bundles[i - 1].sealedAt {
        assert Follows(digest, bundles[i - 1], bundles[i]);
      }
    }
  }

  /** `_chain_is_unbroken`. */
  method ChainIsUnbroken(digest: Digest, milestone: string, bundles: seq<Bundle>) returns (ok: bool)
    requires forall b | b in bundles :: Sealed(b)
    ensures ok <==> Unbroken(digest, milestone, bundles)
  {
    var previous: Option<Bundle> := None;
    for index := 0 to |bundles|
      invariant previous == if index == 0 then None else Some(bundles[index - 1])
      invariant forall i | 0 <= i < index :: bundles[i].milestone == milestone && bundles[i].revision == i + 1
      invariant forall i | 0 < i < index :: Follows(digest, bundles[i - 1], bundles[i])
    {
      var item := bundles[index];
      if item.milestone != milestone {
        return false;
      }
      if item.revision != 1 + index {
        return false;
      }
      if previous.Some? {
        if item.supersedesDigest != Some(digest(previous.value)) {
          return false;
        }
        if item.sealedAt < previous.value.sealedAt {
          return false;
        }
      }
      previous := Some(item);
    }
    return true;
  }

  /** `at`: the revision filed under an ordinal is the one standing at that place. */
  method At(digest: Digest, milestone: string, bundles: seq<Bundle>, revision: nat) returns (found: Option<Bundle>)
    requires Chained(digest, milestone, bundles)
    ensures found == if 1 <= revision <= |bundles| then Some(bundles[revision - 1]) else None
  {
    for i := 0 to |bundles|
      invariant !(1 <= revision <= i)
    {
      if bundles[i].revision == revision {
        return Some(bundles[i]);
      }
    }
    return None;
  }

  // ---- tamper evidence -----------------------------------------------------

  /** Revisions with one digest have one history: whatever chains reach them agree revision by revision. */
  lemma {:induction false} SharedHistory(digest: Digest, m: string, a: seq<Bundle>, n: string, b: seq<Bundle>,
                                         i: nat, j: nat)
    requires Injective(digest)
    requires Chained(digest, m, a) && Chained(digest, n, b)
    requires i < |a| && j < |b| && digest(a[i]) == digest(b[j])
    ensures m == n && i == j && a[..i + 1] == b[..i + 1]
    decreases i
  {
    assert a[i] == b[j];
    if i > 0 {
      assert Follows(digest, a[i - 1], a[i]) && Follows(digest, b[j - 1], b[j]);
      SharedHistory(digest, m, a, n, b, i - 1, j - 1);
      assert a[..i + 1] == a[..i] + [a[i]];
      assert b[..i + 1] == b[..i] + [b[i]];
    }
  }

  /** Two valid ledgers whose heads digest alike are the same ledger. */
  lemma HeadPinsLedger(digest: Digest, m: string, a: seq<Bundle>, n: string, b: seq<Bundle>)
    requires Injective(digest)
    requires Chained(digest, m, a) && Chained(digest, n, b) && a != [] && b != []
    requires digest(a[|a| - 1]) == digest(b[|b| - 1])
    ensures m == n && a == b
  {
    SharedHistory(digest, m, a, n, b, |a| - 1, |b| - 1);
    assert a[..|a|] == a && b[..|b|] == b;
  }

  /** Rewriting any revision but the newest, in any way at all, leaves a ledger that is refused on read. */
  lemma RewriteRefused(digest: Digest, m: string, bundles: seq<Bundle>, i: nat, n: string, forged: Bundle)
    requires Injective(digest)
    requires Chained(digest, m, bundles) && i < |bundles| - 1 && forged != bundles[i]
    ensures !Chained(digest, n, bundles[i := forged])
  {
    var after := bundles[i := forged];
    assert after[i] != bundles[i];
    if Chained(digest, n, after) {
      HeadPinsLedger(digest, m, bundles, n, after);
      assert false;
    }
  }

  /** Leaving out any revision but the newest ones leaves a ledger that is refused on read. */
  lemma OmissionRefused(digest: Digest, m: string, bundles: seq<Bundle>, i: nat, n: string)
    requires Injective(digest)
    requires Chained(digest, m, bundles) && i < |bundles| - 1
    ensures !Chained(digest, n, bundles[..i] + bundles[i + 1..])
  {
    var after := bundles[..i] + bundles[i + 1..];
    assert |after| == |bundles| - 1 && after[|after| - 1] == bundles[|bundles| - 1];
    if Chained(digest, n, after) {
      HeadPinsLedger(digest, m, bundles, n, after);
      assert false;
    }
  }

  // ---- appending -----------------------------------------------------------

  /** A successor opens exactly for valid steps, and extends the ledger exactly when not sealed too early. */
  lemma SuccessorExtends(digest: Digest, m: string, bundles: seq<Bundle>, reason: Reason, steps: seq<Step>,
                         binding: ExactBinding, at: int)
    requires Chained(digest, m, bundles) && bundles != []
    ensures var head := bundles[|bundles| - 1];
            var next := OpenSuccessor(digest, head, reason, steps, binding, at);
            && (next.Ok? <==> Journey(steps))
            && (next.Ok? ==>
                  && next.value == Bundle(head.milestone, head.revision + 1, Some(head.revision), Some(digest(head)),
                                          Some(reason), binding, head.requiredBatches, steps, at)
                  && (Chained(digest, m, bundles + [next.value]) <==> at >= head.sealedAt))
  {
    SealedExact(bundles[|bundles| - 1].(steps := steps));
    var head := bundles[|bundles| - 1];
    var next := OpenSuccessor(digest, head, reason, steps, binding, at);
    if next.Ok? {
      var longer := bundles + [next.value];
      assert longer[|bundles|] == next.value && longer[|bundles| - 1] == head;
      if at >= head.sealedAt {
        forall i | 0 < i < |longer| ensures Follows(digest, longer[i - 1], longer[i]) {
          assert i < |bundles| ==> longer[i] == bundles[i];
        }
      } else {
        assert !Follows(digest, longer[|bundles| - 1], longer[|bundles|]);
      }
    }
  }

  /**
    What a ledger accepts next, over the same required batches, is exactly what `open_successor` of the
    head builds, not sealed before it.
   */
  lemma OnlySuccessorsExtend(digest: Digest, m: string, bundles: seq<Bundle>, x: Bundle)
    requires Chained(digest, m, bundles) && bundles != []
    ensures var head := bundles[|bundles| - 1];
            Chained(digest, m, bundles + [x]) && x.requiredBatches == head.requiredBatches <==>
            && x.repairReason.Some? && x.sealedAt >= head.sealedAt
            && OpenSuccessor(digest, head, x.repairReason.value, x.steps, x.binding, x.sealedAt) == Ok(x)
  {
    var head := bundles[|bundles| - 1];
    var longer := bundles + [x];
    assert longer[|bundles|] == x && longer[|bundles| - 1] == head;
    assert head.milestone == m && head.revision == |bundles|;
    if Chained(digest, m, longer) && x.requiredBatches == head.requiredBatches {
      assert Follows(digest, longer[|bundles| - 1], longer[|bundles|]);
      assert ValidBundle(longer[|bundles|]) && longer[|bundles|].revision == |bundles| + 1;
    }
    if x.repairReason.Some? {
      SuccessorExtends(digest, m, bundles, x.repairReason.value, x.steps, x.binding, x.sealedAt);
    }
  }

  /** The chain says nothing about required batches: the head's may be rewritten and the ledger still reads. */
  lemma HeadBatchesUnpinned(digest: Digest, m: string, bundles: seq<Bundle>, batches: seq<string>)
    requires Chained(digest, m, bundles) && bundles != []
    ensures var last := |bundles| - 1;
            Chained(digest, m, bundles[last := bundles[last].(requiredBatches := batches)])
  {
    var last := |bundles| - 1;
    var after := bundles[last := bundles[last].(requiredBatches := batches)];
    forall i | 0 < i < |after| ensures Follows(digest, after[i - 1], after[i]) {
      assert Follows(digest, bundles[i - 1], bundles[i]);
    }
  }

  // ---- repairs -------------------------------------------------------------

  datatype Repair = Repair(reason: Reason, steps: seq<Step>, binding: ExactBinding, at: int)

  /** One answered repair request: the longer ledger, or the ledger as it was when it is refused. */
  function RequestRepair(digest: Digest, m: string, bundles: seq<Bundle>, r: Repair): seq<Bundle> {
    if bundles == [] then bundles
    else
      match OpenSuccessor(digest, bundles[|bundles| - 1], r.reason, r.steps, r.binding, r.at)
      case Err(_) => bundles
      case Ok(next) => if Chained(digest, m, bundles + [next]) then bundles + [next] else bundles
  }

  /** A repair appends one revision, exactly when its journey stands and it is not sealed before the head. */
  lemma RepairFiled(digest: Digest, m: string, bundles: seq<Bundle>, r: Repair)
    requires Chained(digest, m, bundles)
    ensures RequestRepair(digest, m, bundles, r) ==
            if bundles == [] || !Journey(r.steps) || r.at < bundles[|bundles| - 1].sealedAt then bundles
            else
              var head := bundles[|bundles| - 1];
              bundles + [Bundle(head.milestone, head.revision + 1, Some(head.revision), Some(digest(head)),
                                Some(r.reason), r.binding, head.requiredBatches, r.steps, r.at)]
  {
    if bundles != [] {
      SuccessorExtends(digest, m, bundles, r.reason, r.steps, r.binding, r.at);
    }
  }

  function Repaired(digest: Digest, m: string, bundles: seq<Bundle>, repairs: seq<Repair>): seq<Bundle>
    decreases |repairs|
  {
    if repairs == [] then bundles
    else Repaired(digest, m, RequestRepair(digest, m, bundles, repairs[0]), repairs[1..])
  }

  /** Over any run of repairs the ledger stays valid and every revision ever filed stays as it was. */
  lemma {:induction false} ApprovedStands(digest: Digest, m: string, bundles: seq<Bundle>, repairs: seq<Repair>)
    requires Chained(digest, m, bundles)
    ensures Chained(digest, m, Repaired(digest, m, bundles, repairs))
    ensures bundles <= Repaired(digest, m, bundles, repairs)
    ensures |Repaired(digest, m, bundles, repairs)| <= |bundles| + |repairs|
    decreases |repairs|
  {
    if repairs != [] {
      ApprovedStands(digest, m, RequestRepair(digest, m, bundles, repairs[0]), repairs[1..]);
    }
  }

  /** The revision an approval's digest names is the same one in every later ledger, and in no other place. */
  lemma ApprovalKeepsItsBundle(digest: Digest, m: string, bundles: seq<Bundle>, repairs: seq<Repair>, i: nat, j: nat)
    requires Injective(digest)
    requires Chained(digest, m, bundles) && i < |bundles| && j < |Repaired(digest, m, bundles, repairs)|
    ensures digest(Repaired(digest, m, bundles, repairs)[j]) == digest(bundles[i]) <==> i == j
  {
    ApprovedStands(digest, m, bundles, repairs);
    var after := Repaired(digest, m, bundles, repairs);
    if digest(after[j]) == digest(bundles[i]) {
      SharedHistory(digest, m, bundles, m, after, i, j);
    }
  }
}
