/** Which recorded receipt may stand in for a required proof, and why another may not. */
module Reuse {
  import opened Values
  import opened Sorting
  import opened Revisions
  import opened Receipts

  datatype GateResult = Pass | Fail | Blocked | Error | Timeout | Cancelled

  datatype Receipt = Receipt(id: string, scope: string, gate: string, criteria: seq<string>, freshness: Key,
                             freshnessKey: string, result: GateResult, startedAt: int, endedAt: int,
                             supersedes: Option<string>, diagnosticDigest: Option<string>,
                             diagnosticRef: Option<string>)

  /** The receipt validators: the stored key is the digest of the recorded inputs, and the record is consistent. */
  predicate ValidReceipt(d: Digests, r: Receipt) {
    && ValidKey(r.freshness) && r.freshnessKey == KeyDigest(d, r.freshness)
    && r.endedAt >= r.startedAt
    && r.criteria != [] && Distinct(r.criteria)
    && r.supersedes != Some(r.id)
    && (r.diagnosticRef.None? <==> r.diagnosticDigest.None?)
  }

  /**
    A receipt under the digest of the inputs it records, that ended after it started, for some criteria, each
    once, that does not replace itself, and whose diagnostic comes with its digest.
   */
  ghost predicate Recorded(d: Digests, r: Receipt) {
    && Declared(r.freshness) && r.freshnessKey == KeyDigest(d, r.freshness) && r.startedAt <= r.endedAt
    && r.criteria != [] && (forall i, j | 0 <= i < j < |r.criteria| :: r.criteria[i] != r.criteria[j])
    && (r.supersedes == None || r.supersedes.value != r.id)
    && (r.diagnosticRef.Some? <==> r.diagnosticDigest.Some?)
  }

  /** The receipt validators, in full. */
  lemma RecordedExact(d: Digests, r: Receipt)
    ensures ValidReceipt(d, r) <==> Recorded(d, r)
  {
    DeclaredExact(r.freshness);
  }

  /** One required proof: what it must be proved for, whether a deterministic gate can, and on which inputs. */
  datatype Leg = Leg(scope: string, gate: string, criteria: seq<string>, deterministic: bool, expected: Key)

  datatype Reason = Fresh | Missing | Stale | NotPassed | Expired | NotDeterministic

  datatype Disposition = Reused | Rerun | Unavailable

  function DispositionOf(r: Reason): Disposition {
    match r
    case Fresh => Reused
    case NotDeterministic => Unavailable
    case _ => Rerun
  }

  datatype Comparison = Comparison(component: Component, expected: string, recorded: string)

  datatype Decision = Decision(scope: string, gate: string, criteria: seq<string>, receipt: Option<string>,
                               expectedKey: string, comparisons: seq<Comparison>, disposition: Disposition,
                               reason: Reason)

  // ---- comparing keys ------------------------------------------------------

  /** `compare_freshness`: one row a component, in component order. */
  function CompareFreshness(d: Digests, recorded: Key, expected: Key): seq<Comparison> {
    seq(|COMPONENTS|, i requires 0 <= i < |COMPONENTS| =>
      Comparison(COMPONENTS[i], ComponentDigest(d, expected, COMPONENTS[i]),
                 ComponentDigest(d, recorded, COMPONENTS[i])))
  }

  function Components(rows: seq<Comparison>): seq<Component> {
    seq(|rows|, i requires 0 <= i < |rows| => rows[i].component)
  }

  /** `changed_components`. */
  function Changed(rows: seq<Comparison>): seq<Component> {
    if rows == [] then []
    else (if rows[0].expected != rows[0].recorded then [rows[0].component] else []) + Changed(rows[1..])
  }

  /** The components, of those given, whose keyed inputs differ. */
  function Moved(recorded: Key, expected: Key, components: seq<Component>): seq<Component> {
    if components == [] then []
    else
      (if Agree(recorded, expected, components[0]) then [] else [components[0]])
      + Moved(recorded, expected, components[1..])
  }

  lemma {:induction false} ChangedMoved(d: Digests, recorded: Key, expected: Key, rows: seq<Comparison>,
                                        components: seq<Component>)
    requires Injective(d) && ValidKey(recorded) && ValidKey(expected)
    requires |rows| == |components|
    requires forall i | 0 <= i < |rows| ::
               rows[i] == Comparison(components[i], ComponentDigest(d, expected, components[i]),
                                     ComponentDigest(d, recorded, components[i]))
    ensures Changed(rows) == Moved(recorded, expected, components)
  {
    if rows != [] {
      ComponentExact(d, recorded, expected, components[0]);
      ChangedMoved(d, recorded, expected, rows[1..], components[1..]);
    }
  }

  lemma {:induction false} MovedExact(recorded: Key, expected: Key, components: seq<Component>, c: Component)
    ensures c in Moved(recorded, expected, components) <==> c in components && !Agree(recorded, expected, c)
  {
    if components != [] {
      MovedExact(recorded, expected, components[1..], c);
    }
  }

  /** A comparison names exactly the components whose inputs differ; it names none only for the same proof. */
  lemma ChangedExactly(d: Digests, recorded: Key, expected: Key)
    requires Injective(d) && ValidKey(recorded) && ValidKey(expected)
    ensures var changed := Changed(CompareFreshness(d, recorded, expected));
            && (forall c :: c in changed <==> !Agree(recorded, expected, c))
            && (changed == [] <==> SameProof(recorded, expected))
            && (changed == [] <==> KeyDigest(d, recorded) == KeyDigest(d, expected))
  {
    var rows := CompareFreshness(d, recorded, expected);
    ChangedMoved(d, recorded, expected, rows, COMPONENTS);
    forall c ensures c in Changed(rows) <==> !Agree(recorded, expected, c) {
      EveryComponent(c);
      MovedExact(recorded, expected, COMPONENTS, c);
    }
    if Changed(rows) != [] {
      assert Changed(rows)[0] in Changed(rows);
    }
    DigestExact(d, recorded, expected);
  }

  /** `require_fresh_receipt`: the receipt, or the components that moved. */
  function RequireFresh(d: Digests, r: Receipt, expected: Key): Result<Receipt, seq<Component>> {
    if r.freshnessKey == KeyDigest(d, expected) then Ok(r)
    else Err(Changed(CompareFreshness(d, r.freshness, expected)))
  }

  /** A receipt is let through exactly for the same proof; a refusal names what moved, and never nothing. */
  lemma FreshExactly(d: Digests, r: Receipt, expected: Key)
    requires Injective(d) && ValidReceipt(d, r) && ValidKey(expected)
    ensures RequireFresh(d, r, expected).Ok? <==> SameProof(r.freshness, expected)
    ensures RequireFresh(d, r, expected).Err? ==>
              && RequireFresh(d, r, expected).error != []
              && forall c :: c in RequireFresh(d, r, expected).error <==> !Agree(r.freshness, expected, c)
  {
    ChangedExactly(d, r.freshness, expected);
  }

  // ---- choosing a receipt --------------------------------------------------

  function Superseded(receipts: seq<Receipt>): set<string> {
    set r | r in receipts && r.supersedes.Some? :: r.supersedes.value
  }

  /** Filed for the leg, and replaced by no other receipt. */
  predicate Live(leg: Leg, receipts: seq<Receipt>, r: Receipt) {
    r.scope == leg.scope && r.gate == leg.gate && r.id !in Superseded(receipts)
  }

  /** Filed for this scope and gate, and no receipt on file says it replaces it. */
  ghost predicate Standing(leg: Leg, receipts: seq<Receipt>, r: Receipt) {
    r.scope == leg.scope && r.gate == leg.gate && forall x | x in receipts :: x.supersedes != Some(r.id)
  }

  lemma LiveExact(leg: Leg, receipts: seq<Receipt>, r: Receipt)
    ensures Live(leg, receipts, r) <==> Standing(leg, receipts, r)
  {
    if r.id in Superseded(receipts) {
      var x :| x in receipts && x.supersedes.Some? && x.supersedes.value == r.id;
    }
  }

  function Filter(keep: Receipt -> bool, receipts: seq<Receipt>): (kept: seq<Receipt>)
    ensures forall r :: r in kept <==> r in receipts && keep(r)
  {
    if receipts == [] then []
    else (if keep(receipts[0]) then [receipts[0]] else []) + Filter(keep, receipts[1..])
  }

  /** `a` ended later than `b`, or as late under a greater id. */
  predicate After(a: Receipt, b: Receipt) {
    a.endedAt > b.endedAt || (a.endedAt == b.endedAt && !TextLe(a.id, b.id))
  }

  /** `a` ended later than `b`, or at the same time under an id that sorts later. */
  ghost predicate Later(a: Receipt, b: Receipt) {
    a.endedAt > b.endedAt || (a.endedAt == b.endedAt && TextBefore(b.id, a.id))
  }

  lemma LaterExact(a: Receipt, b: Receipt)
    ensures After(a, b) <==> Later(a, b)
  {
    TextLeExact(a.id, b.id);
    TextLeExact(b.id, a.id);
    TextLeTotal(a.id, b.id);
  }

  /** `max` over (ended_at, id): the first receipt no other comes after. */
  function Latest(pool: seq<Receipt>): (r: Receipt)
    requires pool != []
    ensures r in pool
  {
    var last := pool[|pool| - 1];
    if |pool| == 1 then last
    else
      var best := Latest(pool[..|pool| - 1]);
      if After(last, best) then last else best
  }

  lemma {:induction false} LatestIsLast(pool: seq<Receipt>, x: Receipt)
    requires pool != [] && x in pool
    ensures !After(x, Latest(pool)) && !Later(x, Latest(pool))
  {
    var last := pool[|pool| - 1];
    LaterExact(x, Latest(pool));
    TextLeTotal(x.id, x.id);
    if |pool| > 1 {
      var rest := pool[..|pool| - 1];
      var best := Latest(rest);
      if x in rest {
        LatestIsLast(rest, x);
        NotAfterChains(x, best, last);
      } else {
        assert x == last;
      }
    }
  }

  lemma NotAfterChains(x: Receipt, best: Receipt, last: Receipt)
    requires !After(x, best)
    ensures After(last, best) ==> !After(x, last)
  {
    TextLeTotal(best.id, last.id);
    if TextLe(x.id, best.id) && TextLe(best.id, last.id) {
      TextLeTransitive(x.id, best.id, last.id);
    }
  }

  function LiveOnes(leg: Leg, receipts: seq<Receipt>): seq<Receipt> {
    Filter((r: Receipt) => Live(leg, receipts, r), receipts)
  }

  function ExactOnes(d: Digests, leg: Leg, receipts: seq<Receipt>): seq<Receipt> {
    Filter((r: Receipt) => r.freshnessKey == KeyDigest(d, leg.expected), LiveOnes(leg, receipts))
  }

  /** The live receipts at the expected key, failing those all the live ones. */
  function Pool(d: Digests, leg: Leg, receipts: seq<Receipt>): seq<Receipt> {
    var exact := ExactOnes(d, leg, receipts);
    if exact != [] then exact else LiveOnes(leg, receipts)
  }

  /** `_pick_candidate`: the latest receipt of the pool. */
  function PickCandidate(d: Digests, leg: Leg, receipts: seq<Receipt>): Option<Receipt> {
    var pool := Pool(d, leg, receipts);
    if pool == [] then None else Some(Latest(pool))
  }

  // ---- deciding ------------------------------------------------------------

  datatype Clock = NoLimit | Limit(now: int, maxAge: int)

  /** Both a decision time and an age limit, or neither. */
  function ClockOf(now: Option<int>, maxAge: Option<int>): Result<Clock, string> {
    match (now, maxAge)
    case (Some(n), Some(m)) => Ok(Limit(n, m))
    case (None, None) => Ok(NoLimit)
    case _ => Err("now and max_age must be given together")
  }

  predicate IsExpired(r: Receipt, clock: Clock) {
    clock.Limit? && clock.now - r.endedAt > clock.maxAge
  }

  function MakeDecision(d: Digests, leg: Leg, reason: Reason, r: Option<Receipt>): Decision {
    Decision(leg.scope, leg.gate, leg.criteria, if r.Some? then Some(r.value.id) else None, KeyDigest(d, leg.expected),
             if r.Some? then CompareFreshness(d, r.value.freshness, leg.expected) else [],
             DispositionOf(reason), reason)
  }

  function ReasonFor(d: Digests, leg: Leg, candidate: Option<Receipt>, clock: Clock): Reason {
    if candidate.None? then Missing
    else if candidate.value.freshnessKey != KeyDigest(d, leg.expected) then Stale
    else if candidate.value.result != Pass then NotPassed
    else if IsExpired(candidate.value, clock) then Expired
    else Fresh
  }

  /** The first reason that applies. */
  function DecidedReason(d: Digests, leg: Leg, receipts: seq<Receipt>, clock: Clock): Reason {
    if leg.deterministic then ReasonFor(d, leg, PickCandidate(d, leg, receipts), clock) else NotDeterministic
  }

  function Decide(d: Digests, leg: Leg, receipts: seq<Receipt>, clock: Clock): (x: Decision)
    ensures x.reason == DecidedReason(d, leg, receipts, clock)
  {
    MakeDecision(d, leg, DecidedReason(d, leg, receipts, clock),
                 if leg.deterministic then PickCandidate(d, leg, receipts) else None)
  }

  /** The decision a candidate makes. */
  function DecidedOn(d: Digests, leg: Leg, r: Receipt, clock: Clock): Decision {
    MakeDecision(d, leg, ReasonFor(d, leg, Some(r), clock), Some(r))
  }

  /** `decide_leg_reuse`. */
  function DecideLegReuse(d: Digests, leg: Leg, receipts: seq<Receipt>, now: Option<int>, maxAge: Option<int>)
    : Result<Decision, string>
  {
    match ClockOf(now, maxAge)
    case Err(why) => Err(why)
    case Ok(clock) => Ok(Decide(d, leg, receipts, clock))
  }

  /** The decision validators. */
  predicate ValidDecision(x: Decision) {
    && x.disposition == DispositionOf(x.reason)
    && (x.receipt.None? ==> x.comparisons == [] && x.reason in {Missing, NotDeterministic})
    && (x.receipt.Some? ==>
          && x.reason != Missing
          && multiset(Components(x.comparisons)) == multiset(COMPONENTS)
          && (Changed(x.comparisons) != [] <==> x.reason == Stale))
  }

  ghost predicate AllValid(d: Digests, receipts: seq<Receipt>) {
    forall r | r in receipts :: ValidReceipt(d, r)
  }

  /** `r` answers the leg: live, and taken on exactly the required inputs. */
  ghost predicate Answers(leg: Leg, receipts: seq<Receipt>, r: Receipt) {
    r in receipts && Standing(leg, receipts, r) && SameProof(r.freshness, leg.expected)
  }

  lemma ExactAnswers(d: Digests, leg: Leg, receipts: seq<Receipt>, r: Receipt)
    requires Injective(d) && AllValid(d, receipts) && ValidKey(leg.expected)
    ensures r in ExactOnes(d, leg, receipts) <==> Answers(leg, receipts, r)
  {
    LiveExact(leg, receipts, r);
    if r in receipts {
      DigestExact(d, r.freshness, leg.expected);
    }
  }

  /** The live receipts are those standing on file. */
  lemma LiveStanding(leg: Leg, receipts: seq<Receipt>)
    ensures forall r :: r in LiveOnes(leg, receipts) <==> r in receipts && Standing(leg, receipts, r)
    ensures LiveOnes(leg, receipts) == [] <==> forall r | r in receipts :: !Standing(leg, receipts, r)
  {
    forall r ensures r in LiveOnes(leg, receipts) <==> r in receipts && Standing(leg, receipts, r) {
      LiveExact(leg, receipts, r);
    }
    assert LiveOnes(leg, receipts) != [] ==> LiveOnes(leg, receipts)[0] in LiveOnes(leg, receipts);
  }

  /** What is picked: the newest answer, and only when there is none another live receipt. */
  lemma PickedExactly(d: Digests, leg: Leg, receipts: seq<Receipt>)
    requires Injective(d) && AllValid(d, receipts) && ValidKey(leg.expected)
    ensures var picked := PickCandidate(d, leg, receipts);
            && (picked.None? <==> forall r | r in receipts :: !Standing(leg, receipts, r))
            && (picked.Some? ==>
                  && picked.value in receipts && Standing(leg, receipts, picked.value)
                  && (Answers(leg, receipts, picked.value) <==> exists r :: Answers(leg, receipts, r))
                  && (forall r | Answers(leg, receipts, r) :: !Later(r, picked.value)))
  {
    var live, exact := LiveOnes(leg, receipts), ExactOnes(d, leg, receipts);
    forall r ensures r in exact <==> Answers(leg, receipts, r) {
      ExactAnswers(d, leg, receipts, r);
    }
    forall r | r in exact ensures !Later(r, Latest(exact)) {
      LatestIsLast(exact, r);
    }
    LiveStanding(leg, receipts);
  }

  /** The receipt a leg is decided on: the newest of its answers. */
  ghost predicate Newest(leg: Leg, receipts: seq<Receipt>, r: Receipt) {
    Answers(leg, receipts, r) && forall x | Answers(leg, receipts, x) :: !Later(x, r)
  }

  lemma PickedKey(d: Digests, leg: Leg, receipts: seq<Receipt>, r: Receipt)
    requires Injective(d) && AllValid(d, receipts) && ValidKey(leg.expected)
    requires r in receipts && Standing(leg, receipts, r)
    ensures r.freshnessKey == KeyDigest(d, leg.expected) <==> Answers(leg, receipts, r)
  {
    DigestExact(d, r.freshness, leg.expected);
  }

  /** The reason a candidate gives: none is missing, none that answers is stale. */
  lemma ReasonOfPicked(d: Digests, leg: Leg, receipts: seq<Receipt>, picked: Option<Receipt>, clock: Clock)
    requires picked.Some? ==>
               && picked.value in receipts && Standing(leg, receipts, picked.value)
               && (picked.value.freshnessKey == KeyDigest(d, leg.expected) <==> exists r :: Answers(leg, receipts, r))
    ensures var reason := ReasonFor(d, leg, picked, clock);
            && reason != NotDeterministic && (reason == Missing <==> picked.None?)
            && (reason == Stale <==> picked.Some? && forall r :: !Answers(leg, receipts, r))
  {
  }

  /** Each reason is given exactly when it holds of the receipts on file. */
  lemma ReasonExactly(d: Digests, leg: Leg, receipts: seq<Receipt>, clock: Clock)
    requires Injective(d) && AllValid(d, receipts) && ValidKey(leg.expected)
    ensures var reason := DecidedReason(d, leg, receipts, clock);
            && (reason == NotDeterministic <==> !leg.deterministic)
            && (reason == Missing <==> leg.deterministic && forall r | r in receipts :: !Standing(leg, receipts, r))
            && (reason == Stale <==>
                  && leg.deterministic && (exists r | r in receipts :: Standing(leg, receipts, r))
                  && forall r :: !Answers(leg, receipts, r))
  {
    PickedExactly(d, leg, receipts);
    var picked := PickCandidate(d, leg, receipts);
    if picked.Some? {
      PickedKey(d, leg, receipts, picked.value);
    }
    ReasonOfPicked(d, leg, receipts, picked, clock);
  }

  lemma DecidedFrom(d: Digests, leg: Leg, receipts: seq<Receipt>, clock: Clock)
    requires leg.deterministic && PickCandidate(d, leg, receipts).Some?
    ensures Decide(d, leg, receipts, clock) == DecidedOn(d, leg, PickCandidate(d, leg, receipts).value, clock)
  {
  }

  /** No age limit is set, or the receipt is no older than the limit at the decision time. */
  ghost predicate InTime(r: Receipt, clock: Clock) {
    clock.Limit? ==> clock.now - r.endedAt <= clock.maxAge
  }

  lemma FreshPicked(d: Digests, leg: Leg, receipts: seq<Receipt>, clock: Clock) returns (r: Receipt)
    requires Injective(d) && AllValid(d, receipts) && ValidKey(leg.expected)
    requires DecidedReason(d, leg, receipts, clock) == Fresh
    ensures leg.deterministic && PickCandidate(d, leg, receipts) == Some(r) && Newest(leg, receipts, r)
    ensures r.result == Pass && InTime(r, clock)
  {
    PickedExactly(d, leg, receipts);
    r := PickCandidate(d, leg, receipts).value;
    PickedKey(d, leg, receipts, r);
  }

  /** A reused leg names a receipt on file that nothing supersedes, that passed in time on the very inputs required. */
  lemma ReuseSound(d: Digests, leg: Leg, receipts: seq<Receipt>, clock: Clock)
    requires Injective(d) && AllValid(d, receipts) && ValidKey(leg.expected)
    requires Decide(d, leg, receipts, clock).disposition == Reused
    ensures exists r :: Newest(leg, receipts, r) && Decide(d, leg, receipts, clock).receipt == Some(r.id)
                        && r.result == Pass && InTime(r, clock)
  {
    var r := FreshPicked(d, leg, receipts, clock);
    DecidedFrom(d, leg, receipts, clock);
  }

  lemma EveryComponentCompared(d: Digests, recorded: Key, expected: Key)
    ensures multiset(Components(CompareFreshness(d, recorded, expected))) == multiset(COMPONENTS)
  {
    assert Components(CompareFreshness(d, recorded, expected)) == COMPONENTS;
  }

  lemma MadeValid(d: Digests, leg: Leg, reason: Reason, r: Receipt)
    requires Injective(d) && ValidReceipt(d, r) && ValidKey(leg.expected)
    requires reason !in {Missing, NotDeterministic}
    requires reason == Stale <==> r.freshnessKey != KeyDigest(d, leg.expected)
    ensures ValidDecision(MakeDecision(d, leg, reason, Some(r)))
  {
    EveryComponentCompared(d, r.freshness, leg.expected);
    ChangedExactly(d, r.freshness, leg.expected);
  }

  /** Whatever is decided passes the decision validators. */
  lemma DecisionValid(d: Digests, leg: Leg, receipts: seq<Receipt>, clock: Clock)
    requires Injective(d) && AllValid(d, receipts) && ValidKey(leg.expected)
    ensures ValidDecision(Decide(d, leg, receipts, clock))
  {
    var picked := PickCandidate(d, leg, receipts);
    if leg.deterministic && picked.Some? {
      MadeValid(d, leg, ReasonFor(d, leg, picked, clock), picked.value);
    }
  }

  /** The decision is on `r`, and names the inputs that moved since: some, exactly those that differ. */
  ghost predicate NamesMoves(x: Decision, leg: Leg, r: Receipt) {
    && x.receipt == Some(r.id) && Changed(x.comparisons) != []
    && forall c :: c in Changed(x.comparisons) <==> !Agree(r.freshness, leg.expected, c)
  }

  lemma StaleOn(d: Digests, leg: Leg, r: Receipt, clock: Clock)
    requires Injective(d) && ValidReceipt(d, r) && ValidKey(leg.expected)
    requires r.freshnessKey != KeyDigest(d, leg.expected)
    ensures NamesMoves(DecidedOn(d, leg, r, clock), leg, r)
  {
    ChangedExactly(d, r.freshness, leg.expected);
  }

  lemma StalePicked(d: Digests, leg: Leg, receipts: seq<Receipt>, clock: Clock) returns (r: Receipt)
    requires DecidedReason(d, leg, receipts, clock) == Stale
    ensures leg.deterministic && PickCandidate(d, leg, receipts) == Some(r) && r in receipts
    ensures r.freshnessKey != KeyDigest(d, leg.expected)
  {
    r := PickCandidate(d, leg, receipts).value;
  }

  /** A stale verdict names exactly the inputs that moved since the receipt it names. */
  lemma StaleNamesMoves(d: Digests, leg: Leg, receipts: seq<Receipt>, clock: Clock)
    requires Injective(d) && AllValid(d, receipts) && ValidKey(leg.expected)
    requires Decide(d, leg, receipts, clock).reason == Stale
    ensures exists r :: r in receipts && NamesMoves(Decide(d, leg, receipts, clock), leg, r)
  {
    var r := StalePicked(d, leg, receipts, clock);
    DecidedFrom(d, leg, receipts, clock);
    StaleOn(d, leg, r, clock);
  }

  // ---- ties, and the order receipts are held in ----------------------------

  /** `r` competes: it answers the leg, or it is live and nothing answers. */
  ghost predicate Contends(leg: Leg, receipts: seq<Receipt>, r: Receipt) {
    && r in receipts && Standing(leg, receipts, r)
    && (SameProof(r.freshness, leg.expected) || forall x :: !Answers(leg, receipts, x))
  }

  /** `r` competes and no other comes after it; several may tie. */
  ghost predicate Top(leg: Leg, receipts: seq<Receipt>, r: Receipt) {
    Contends(leg, receipts, r) && forall x | Contends(leg, receipts, x) :: !Later(x, r)
  }

  lemma PoolContends(d: Digests, leg: Leg, receipts: seq<Receipt>, r: Receipt)
    requires Injective(d) && AllValid(d, receipts) && ValidKey(leg.expected)
    ensures r in Pool(d, leg, receipts) <==> Contends(leg, receipts, r)
  {
    var exact := ExactOnes(d, leg, receipts);
    LiveExact(leg, receipts, r);
    forall x ensures x in exact <==> Answers(leg, receipts, x) {
      ExactAnswers(d, leg, receipts, x);
    }
    assert exact != [] ==> exact[0] in exact;
  }

  /** What is picked is at the top. */
  lemma PickedTop(d: Digests, leg: Leg, receipts: seq<Receipt>)
    requires Injective(d) && AllValid(d, receipts) && ValidKey(leg.expected)
    ensures var picked := PickCandidate(d, leg, receipts);
            if picked.Some? then Top(leg, receipts, picked.value) else forall r :: !Contends(leg, receipts, r)
  {
    var pool := Pool(d, leg, receipts);
    forall r ensures r in pool <==> Contends(leg, receipts, r) {
      PoolContends(d, leg, receipts, r);
    }
    if pool != [] {
      forall r | r in pool ensures !Later(r, Latest(pool)) {
        LatestIsLast(pool, r);
      }
    }
  }

  lemma {:induction false} FilterParts(keep: Receipt -> bool, a: seq<Receipt>, b: seq<Receipt>)
    ensures Filter(keep, a + b) == Filter(keep, a) + Filter(keep, b)
  {
    if a == [] {
      assert a + b == b;
    } else {
      assert (a + b)[1..] == a[1..] + b;
      FilterParts(keep, a[1..], b);
    }
  }

  lemma FilterOne(keep: Receipt -> bool, x: Receipt)
    requires keep(x)
    ensures Filter(keep, [x]) == [x]
  {
    assert [x][1..] == [];
  }

  lemma FilterAround(keep: Receipt -> bool, pre: seq<Receipt>, x: Receipt, post: seq<Receipt>)
    requires keep(x)
    ensures Filter(keep, pre + [x] + post) == Filter(keep, pre) + [x] + Filter(keep, post)
  {
    FilterOne(keep, x);
    FilterParts(keep, pre, [x]);
    FilterParts(keep, pre + [x], post);
  }

  /** A receipt of the pool stands in it between those held before it and those held after. */
  lemma PoolAround(d: Digests, leg: Leg, receipts: seq<Receipt>, pre: seq<Receipt>, x: Receipt, post: seq<Receipt>)
    returns (p: seq<Receipt>, q: seq<Receipt>)
    requires receipts == pre + [x] + post && x in Pool(d, leg, receipts)
    ensures Pool(d, leg, receipts) == p + [x] + q && forall r | r in p :: r in pre
  {
    var live := (r: Receipt) => Live(leg, receipts, r);
    var key := (r: Receipt) => r.freshnessKey == KeyDigest(d, leg.expected);
    FilterAround(live, pre, x, post);
    p, q := Filter(live, pre), Filter(live, post);
    if ExactOnes(d, leg, receipts) != [] {
      FilterAround(key, p, x, q);
      p, q := Filter(key, p), Filter(key, q);
    }
  }

  /** Among those tied for last, the first held is the latest. */
  lemma {:induction false} LatestFirst(p: seq<Receipt>, x: Receipt, q: seq<Receipt>)
    requires (forall r | r in p :: After(x, r)) && forall r | r in q :: !After(r, x)
    ensures Latest(p + [x] + q) == x
    decreases |q|
  {
    var pool := p + [x] + q;
    if q == [] {
      assert pool[..|pool| - 1] == p;
    } else {
      assert pool[..|pool| - 1] == p + [x] + q[..|q| - 1];
      LatestFirst(p, x, q[..|q| - 1]);
    }
  }

  lemma AfterChains(c: Receipt, r: Receipt, x: Receipt)
    requires After(c, r) && !After(c, x)
    ensures After(x, r)
  {
    if c.endedAt == r.endedAt == x.endedAt && TextLe(x.id, r.id) {
      TextLeTransitive(c.id, x.id, r.id);
    }
  }

  /** Of those at the top, the first held is picked. */
  lemma PickedFirst(d: Digests, leg: Leg, receipts: seq<Receipt>, i: nat)
    requires Injective(d) && AllValid(d, receipts) && ValidKey(leg.expected)
    requires i < |receipts| && Top(leg, receipts, receipts[i])
    requires forall j | 0 <= j < i :: !Top(leg, receipts, receipts[j])
    ensures PickCandidate(d, leg, receipts) == Some(receipts[i])
  {
    var pre, x, post := receipts[..i], receipts[i], receipts[i + 1..];
    assert receipts == pre + [x] + post;
    forall r ensures r in Pool(d, leg, receipts) <==> Contends(leg, receipts, r) {
      PoolContends(d, leg, receipts, r);
    }
    var p, q := PoolAround(d, leg, receipts, pre, x, post);
    forall r | r in p ensures After(x, r) {
      assert r in Pool(d, leg, receipts);
      var j :| 0 <= j < |pre| && pre[j] == r;
      assert !Top(leg, receipts, receipts[j]);
      var c :| Contends(leg, receipts, c) && Later(c, r);
      LaterExact(c, r);
      LaterExact(c, x);
      AfterChains(c, r, x);
    }
    forall r | r in q ensures !After(r, x) {
      assert r in Pool(d, leg, receipts);
      LaterExact(r, x);
    }
    LatestFirst(p, x, q);
  }

  /** Two receipts at the top end together under one id, and answer together. */
  lemma TopsTie(leg: Leg, receipts: seq<Receipt>, x: Receipt, y: Receipt)
    requires Top(leg, receipts, x) && Top(leg, receipts, y)
    ensures x.id == y.id && x.endedAt == y.endedAt
    ensures SameProof(x.freshness, leg.expected) <==> SameProof(y.freshness, leg.expected)
  {
    TextLeTotal(x.id, y.id);
    LaterExact(x, y);
    LaterExact(y, x);
    assert !After(x, y) && !After(y, x);
    assert SameProof(x.freshness, leg.expected) ==> Answers(leg, receipts, x);
    assert SameProof(y.freshness, leg.expected) ==> Answers(leg, receipts, y);
  }

  /** Receipts that compare alike with what is expected were taken on the same inputs. */
  lemma ComparedAlike(d: Digests, a: Key, b: Key, expected: Key)
    requires Injective(d) && ValidKey(a) && ValidKey(b)
    ensures CompareFreshness(d, a, expected) == CompareFreshness(d, b, expected) <==> SameProof(a, b)
  {
    var p, q := CompareFreshness(d, a, expected), CompareFreshness(d, b, expected);
    forall i | 0 <= i < |COMPONENTS| ensures p[i] == q[i] <==> Agree(a, b, COMPONENTS[i]) {
      ComponentExact(d, a, b, COMPONENTS[i]);
    }
    if p == q {
      forall c ensures Agree(a, b, c) {
        EveryComponent(c);
        var i :| 0 <= i < |COMPONENTS| && COMPONENTS[i] == c;
        assert p[i] == q[i];
      }
    }
  }

  /** The two were taken on the same inputs, and when those are the required ones both passed or neither did. */
  ghost predicate Alike(leg: Leg, x: Receipt, y: Receipt) {
    && SameProof(x.freshness, y.freshness)
    && (SameProof(x.freshness, leg.expected) ==> (x.result == Pass <==> y.result == Pass))
  }

  lemma ReasonsAlike(d: Digests, leg: Leg, x: Receipt, y: Receipt, clock: Clock)
    requires x.endedAt == y.endedAt
    requires x.freshnessKey == KeyDigest(d, leg.expected) <==> y.freshnessKey == KeyDigest(d, leg.expected)
    ensures ReasonFor(d, leg, Some(x), clock) == ReasonFor(d, leg, Some(y), clock) <==>
            (x.freshnessKey == KeyDigest(d, leg.expected) ==> (x.result == Pass <==> y.result == Pass))
  {
  }

  /** Tied candidates make one decision exactly when they are alike. */
  lemma DecideAlike(d: Digests, leg: Leg, x: Receipt, y: Receipt, clock: Clock)
    requires Injective(d) && ValidReceipt(d, x) && ValidReceipt(d, y) && ValidKey(leg.expected)
    requires x.id == y.id && x.endedAt == y.endedAt
    requires SameProof(x.freshness, leg.expected) <==> SameProof(y.freshness, leg.expected)
    ensures DecidedOn(d, leg, x, clock) == DecidedOn(d, leg, y, clock) <==> Alike(leg, x, y)
  {
    DigestExact(d, x.freshness, leg.expected);
    DigestExact(d, y.freshness, leg.expected);
    ReasonsAlike(d, leg, x, y, clock);
    ComparedAlike(d, x.freshness, y.freshness, leg.expected);
  }

  /** Whatever ties for last is alike. */
  ghost predicate TiesAgree(leg: Leg, receipts: seq<Receipt>) {
    forall x, y | Top(leg, receipts, x) && Top(leg, receipts, y) :: Alike(leg, x, y)
  }

  lemma SameTops(leg: Leg, a: seq<Receipt>, b: seq<Receipt>, r: Receipt)
    requires forall x :: x in a <==> x in b
    ensures Top(leg, a, r) <==> Top(leg, b, r)
  {
    assert Superseded(a) == Superseded(b);
    forall x ensures Answers(leg, a, x) <==> Answers(leg, b, x) {
    }
    forall x ensures Contends(leg, a, x) <==> Contends(leg, b, x) {
    }
  }

  lemma RelistedMembers(a: seq<Receipt>, b: seq<Receipt>, r: Receipt)
    requires multiset(a) == multiset(b)
    ensures r in a <==> r in b
  {
    assert r in a <==> r in multiset(a);
    assert r in b <==> r in multiset(b);
  }

  /** Where ties agree, every order of the receipts makes one decision. */
  lemma AgreedInAnyOrder(d: Digests, leg: Leg, a: seq<Receipt>, b: seq<Receipt>, clock: Clock)
    requires Injective(d) && AllValid(d, a) && ValidKey(leg.expected) && leg.deterministic
    requires multiset(a) == multiset(b) && TiesAgree(leg, a)
    ensures Decide(d, leg, a, clock) == Decide(d, leg, b, clock)
  {
    forall r ensures r in a <==> r in b {
      RelistedMembers(a, b, r);
    }
    forall r ensures Top(leg, a, r) <==> Top(leg, b, r) {
      SameTops(leg, a, b, r);
    }
    PickedTop(d, leg, a);
    PickedTop(d, leg, b);
    var p, q := PickCandidate(d, leg, a), PickCandidate(d, leg, b);
    assert Superseded(a) == Superseded(b);
    assert p.Some? <==> q.Some?;
    if p.Some? {
      TopsTie(leg, a, p.value, q.value);
      DecideAlike(d, leg, p.value, q.value, clock);
    }
  }

  /** Any receipt at the top is picked in some order: held first. */
  lemma HeldFirst(d: Digests, leg: Leg, a: seq<Receipt>, x: Receipt) returns (b: seq<Receipt>)
    requires Injective(d) && AllValid(d, a) && ValidKey(leg.expected) && Top(leg, a, x)
    ensures multiset(b) == multiset(a) && PickCandidate(d, leg, b) == Some(x)
  {
    var i :| 0 <= i < |a| && a[i] == x;
    b := [x] + a[..i] + a[i + 1..];
    assert a == a[..i] + [x] + a[i + 1..];
    forall r ensures r in a <==> r in b {
      RelistedMembers(a, b, r);
    }
    SameTops(leg, a, b, x);
    PickedFirst(d, leg, b, 0);
  }

  /**
    Every order of the receipts makes the same decision, to the last field, exactly when all that ties
    for last is alike.
   */
  lemma OrderIrrelevant(d: Digests, leg: Leg, a: seq<Receipt>, clock: Clock)
    requires Injective(d) && AllValid(d, a) && ValidKey(leg.expected)
    ensures (forall b | multiset(b) == multiset(a) :: Decide(d, leg, b, clock) == Decide(d, leg, a, clock))
            <==> (leg.deterministic ==> TiesAgree(leg, a))
  {
    if leg.deterministic && TiesAgree(leg, a) {
      forall b | multiset(b) == multiset(a) ensures Decide(d, leg, b, clock) == Decide(d, leg, a, clock) {
        AgreedInAnyOrder(d, leg, a, b, clock);
      }
    }
    if leg.deterministic
       && forall b | multiset(b) == multiset(a) :: Decide(d, leg, b, clock) == Decide(d, leg, a, clock) {
      forall x, y | Top(leg, a, x) && Top(leg, a, y) ensures Alike(leg, x, y) {
        var p := HeldFirst(d, leg, a, x);
        var q := HeldFirst(d, leg, a, y);
        assert Decide(d, leg, p, clock) == Decide(d, leg, q, clock);
        TopsTie(leg, a, x, y);
        DecideAlike(d, leg, x, y, clock);
      }
    }
  }

  // ---- when a leg is reused ------------------------------------------------

  /** The first held of the newest answers. */
  ghost predicate FirstNewest(leg: Leg, receipts: seq<Receipt>, i: int) {
    && 0 <= i < |receipts| && Newest(leg, receipts, receipts[i])
    && forall j | 0 <= j < i :: !Newest(leg, receipts, receipts[j])
  }

  lemma NewestIsTop(leg: Leg, receipts: seq<Receipt>, r: Receipt)
    requires exists x :: Answers(leg, receipts, x)
    ensures Newest(leg, receipts, r) <==> Top(leg, receipts, r)
  {
    forall x ensures Contends(leg, receipts, x) <==> Answers(leg, receipts, x) {
    }
  }

  lemma {:induction false} SomeFirst(leg: Leg, receipts: seq<Receipt>, i: nat) returns (k: nat)
    requires i < |receipts| && Newest(leg, receipts, receipts[i])
    ensures FirstNewest(leg, receipts, k)
  {
    if j :| 0 <= j < i && Newest(leg, receipts, receipts[j]) {
      k := SomeFirst(leg, receipts, j);
    } else {
      k := i;
    }
  }

  lemma FirstPicked(d: Digests, leg: Leg, receipts: seq<Receipt>, i: nat)
    requires Injective(d) && AllValid(d, receipts) && ValidKey(leg.expected) && FirstNewest(leg, receipts, i)
    ensures PickCandidate(d, leg, receipts) == Some(receipts[i])
    ensures receipts[i].freshnessKey == KeyDigest(d, leg.expected)
  {
    assert Answers(leg, receipts, receipts[i]);
    forall r ensures Newest(leg, receipts, r) <==> Top(leg, receipts, r) {
      NewestIsTop(leg, receipts, r);
    }
    PickedFirst(d, leg, receipts, i);
    PickedKey(d, leg, receipts, receipts[i]);
  }

  /** The first held of the newest answers passed in time. */
  ghost predicate FirstPasses(leg: Leg, receipts: seq<Receipt>, clock: Clock) {
    exists i :: FirstNewest(leg, receipts, i) && receipts[i].result == Pass && InTime(receipts[i], clock)
  }

  lemma FirstDecides(d: Digests, leg: Leg, receipts: seq<Receipt>, clock: Clock, i: nat)
    requires Injective(d) && AllValid(d, receipts) && ValidKey(leg.expected) && FirstNewest(leg, receipts, i)
    ensures DecidedReason(d, leg, receipts, clock) == Fresh <==>
            leg.deterministic && receipts[i].result == Pass && InTime(receipts[i], clock)
  {
    FirstPicked(d, leg, receipts, i);
  }

  lemma FreshExactlyFirst(d: Digests, leg: Leg, receipts: seq<Receipt>, clock: Clock)
    requires Injective(d) && AllValid(d, receipts) && ValidKey(leg.expected)
    ensures DecidedReason(d, leg, receipts, clock) == Fresh <==>
            leg.deterministic && FirstPasses(leg, receipts, clock)
  {
    if DecidedReason(d, leg, receipts, clock) == Fresh {
      var r := FreshPicked(d, leg, receipts, clock);
      var i :| 0 <= i < |receipts| && receipts[i] == r;
      var k := SomeFirst(leg, receipts, i);
      FirstDecides(d, leg, receipts, clock, k);
    }
    if FirstPasses(leg, receipts, clock) {
      var i :| FirstNewest(leg, receipts, i) && receipts[i].result == Pass && InTime(receipts[i], clock);
      FirstDecides(d, leg, receipts, clock, i);
    }
  }

  /** On any listing a leg is reused exactly when the first held of its newest answers passed in time. */
  lemma ReuseExactly(d: Digests, leg: Leg, receipts: seq<Receipt>, clock: Clock)
    requires Injective(d) && AllValid(d, receipts) && ValidKey(leg.expected)
    ensures Decide(d, leg, receipts, clock).disposition == Reused <==>
            leg.deterministic && FirstPasses(leg, receipts, clock)
  {
    FreshExactlyFirst(d, leg, receipts, clock);
  }

  /** A tie decided by order: of two receipts that end alike under one id, the one held first answers. */
  lemma TieMatters(d: Digests, leg: Leg, passed: Receipt)
    requires Injective(d) && ValidReceipt(d, passed) && ValidKey(leg.expected) && leg.deterministic
    requires passed.scope == leg.scope && passed.gate == leg.gate && passed.supersedes.None?
    requires SameProof(passed.freshness, leg.expected) && passed.result == Pass
    ensures var failed := passed.(result := Fail);
            && !TiesAgree(leg, [passed, failed])
            && DecidedReason(d, leg, [passed, failed], NoLimit) == Fresh
            && DecidedReason(d, leg, [failed, passed], NoLimit) == NotPassed
  {
    var failed := passed.(result := Fail);
    TiedPair(d, leg, passed, failed);
    TiedPair(d, leg, failed, passed);
    assert !Alike(leg, passed, failed);
  }

  lemma TiedPair(d: Digests, leg: Leg, a: Receipt, b: Receipt)
    requires Injective(d) && ValidReceipt(d, a) && ValidReceipt(d, b) && ValidKey(leg.expected)
    requires a.scope == b.scope == leg.scope && a.gate == b.gate == leg.gate
    requires a.supersedes.None? && b.supersedes.None? && a.id == b.id && a.endedAt == b.endedAt
    requires SameProof(a.freshness, leg.expected) && SameProof(b.freshness, leg.expected)
    ensures Top(leg, [a, b], a) && Top(leg, [a, b], b) && PickCandidate(d, leg, [a, b]) == Some(a)
    ensures a.freshnessKey == KeyDigest(d, leg.expected)
  {
    TextLeTotal(a.id, a.id);
    assert Superseded([a, b]) == {};
    assert [a, b][0] == a && [a, b][1] == b;
    assert Top(leg, [a, b], a) && Top(leg, [a, b], b);
    PickedFirst(d, leg, [a, b], 0);
    PickedKey(d, leg, [a, b], a);
  }

  /** The clock of a call: a decision time and an age limit together, or no limit. */
  lemma ClockPaired(now: Option<int>, maxAge: Option<int>)
    ensures ClockOf(now, maxAge).Err? <==> (now.Some? <==> maxAge.None?)
    ensures ClockOf(now, maxAge).Ok? ==>
              ClockOf(now, maxAge).value ==
              if now.Some? && maxAge.Some? then Limit(now.value, maxAge.value) else NoLimit
  {
  }

  /** What the decision says of the receipt it is taken on. */
  lemma FirstReason(d: Digests, leg: Leg, receipts: seq<Receipt>, clock: Clock, i: nat)
    requires Injective(d) && AllValid(d, receipts) && ValidKey(leg.expected)
    requires leg.deterministic && FirstNewest(leg, receipts, i)
    ensures var x := Decide(d, leg, receipts, clock);
            && x.receipt == Some(receipts[i].id)
            && (x.reason == NotPassed <==> receipts[i].result != Pass)
            && (x.reason == Expired <==>
                  receipts[i].result == Pass && clock.Limit? && clock.now - receipts[i].endedAt > clock.maxAge)
            && (x.reason == Fresh <==> receipts[i].result == Pass && InTime(receipts[i], clock))
  {
    FirstPicked(d, leg, receipts, i);
    DecidedFrom(d, leg, receipts, clock);
  }

  /** A decision is about the leg asked for, and only a fresh receipt makes it reused. */
  lemma DecidedFor(d: Digests, leg: Leg, receipts: seq<Receipt>, clock: Clock)
    ensures var x := Decide(d, leg, receipts, clock);
            && x.scope == leg.scope && x.gate == leg.gate && x.criteria == leg.criteria
            && x.expectedKey == KeyDigest(d, leg.expected)
            && (x.disposition == Reused <==> x.reason == Fresh)
            && (x.disposition == Unavailable <==> !leg.deterministic)
  {
  }

  /** No limit unless both are given: the age of the receipt at `now`, against `maxAge`. */
  ghost predicate OverAge(r: Receipt, now: Option<int>, maxAge: Option<int>) {
    now.Some? && maxAge.Some? && now.value - r.endedAt > maxAge.value
  }

  /** The first held of the newest answers passed and is not over age. */
  ghost predicate PassesInTime(leg: Leg, receipts: seq<Receipt>, now: Option<int>, maxAge: Option<int>) {
    exists i :: FirstNewest(leg, receipts, i) && receipts[i].result == Pass && !OverAge(receipts[i], now, maxAge)
  }

  /**
    Deciding a leg is refused exactly when only one of the decision time and the age limit is given.
    Otherwise the decision is valid and about this leg; and when receipts answer the leg, the first held of
    the newest alone decides: not passed, passed but over age, or fresh and so reused.
   */
  lemma LegDecided(d: Digests, leg: Leg, receipts: seq<Receipt>, now: Option<int>, maxAge: Option<int>)
    requires Injective(d) && AllValid(d, receipts) && ValidKey(leg.expected)
    ensures var r := DecideLegReuse(d, leg, receipts, now, maxAge);
            && (r.Err? <==> (now.Some? <==> maxAge.None?))
            && (r.Ok? ==>
                  var x := r.value;
                  && ValidDecision(x) && x.scope == leg.scope && x.gate == leg.gate && x.criteria == leg.criteria
                  && x.expectedKey == KeyDigest(d, leg.expected)
                  && (x.disposition == Unavailable <==> !leg.deterministic)
                  && (x.disposition == Reused <==> leg.deterministic && PassesInTime(leg, receipts, now, maxAge))
                  && forall i | leg.deterministic && FirstNewest(leg, receipts, i) ::
                       && x.receipt == Some(receipts[i].id)
                       && x.reason == if receipts[i].result != Pass then NotPassed
                                      else if OverAge(receipts[i], now, maxAge) then Expired else Fresh)
  {
    ClockPaired(now, maxAge);
    if ClockOf(now, maxAge).Ok? {
      var clock := ClockOf(now, maxAge).value;
      DecisionValid(d, leg, receipts, clock);
      DecidedFor(d, leg, receipts, clock);
      ReuseExactly(d, leg, receipts, clock);
      if FirstPasses(leg, receipts, clock) {
        var i :| FirstNewest(leg, receipts, i) && receipts[i].result == Pass && InTime(receipts[i], clock);
        assert !OverAge(receipts[i], now, maxAge);
      }
      forall i | leg.deterministic && FirstNewest(leg, receipts, i)
        ensures var x := Decide(d, leg, receipts, clock);
                && x.receipt == Some(receipts[i].id)
                && x.reason == if receipts[i].result != Pass then NotPassed
                               else if OverAge(receipts[i], now, maxAge) then Expired else Fresh {
        FirstReason(d, leg, receipts, clock, i);
      }
    }
  }
}
