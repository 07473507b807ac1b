/** A batch verified again and again while generations are selected under it. */
module BatchVerification {
  import opened Values
  import opened Revisions
  import opened BatchProof
  import opened VerificationCycle
  import Integration

  // ---- catching up with the head -------------------------------------------

  /** The digest a generation's affected list is committed under. */
  type ListDigest = seq<string> -> string

  function SetOf(items: seq<string>): set<string> {
    set x | x in items
  }

  /** `affected_criterion_ids`, over every generation moved through; nothing when one list is not its own. */
  function AffectedBy(digest: ListDigest, moved: seq<Generation>): Option<set<string>> {
    if moved == [] then Some({})
    else if digest(moved[0].affectedCriteria) != moved[0].integrated.criteriaDigest then None
    else
      match AffectedBy(digest, moved[1..])
      case None => None
      case Some(rest) => Some(SetOf(moved[0].affectedCriteria) + rest)
  }

  /** The generations past an ordinal. */
  function Past(gens: seq<Generation>, ordinal: nat): (past: seq<Generation>)
    ensures forall g :: g in past <==> g in gens && g.ordinal > ordinal
  {
    if gens == [] then [] else (if gens[0].ordinal > ordinal then [gens[0]] else []) + Past(gens[1..], ordinal)
  }

  function Last(gens: seq<Generation>): Generation
    requires gens != []
  {
    gens[|gens| - 1]
  }

  datatype State = State(gens: seq<Generation>, stored: Option<Cycle>)

  datatype Request = Request(audits: seq<Audit>, judgment: seq<string>, exits: Exits, budget: nat,
                             producers: set<string>)

  /** `_cycle_at_head`. */
  function CycleAtHead(digest: ListDigest, batch: BatchRef, s: State, budget: nat): Result<Cycle, Refusal>
    requires s.gens != []
  {
    var head := Last(s.gens);
    match s.stored
    case None => Ok(Cycle(batch, head.integrated, Checking, [], 0, budget, None))
    case Some(stored) =>
      if stored.head.generation == head.ordinal then Ok(stored)
      else
        match AffectedBy(digest, Past(s.gens, stored.head.generation))
        case None => Err(AffectedSetUnbound)
        case Some(named) =>
          match Rebase(stored, head.integrated, named)
          case Err(_) => Err(CycleRule)
          case Ok(pair) => Ok(pair.0)
  }

  /** No presented row was reached by a run that produced the work. */
  predicate Independent(rows: seq<Audit>, producers: set<string>) {
    forall i | 0 <= i < |rows| :: rows[i].review.run !in producers
  }

  /** `verify_batch`: the cycle answered from, and what is on file after. */
  function VerifyBatch(digest: ListDigest, batch: BatchRef, s: State, r: Request): Result<(State, Cycle), Refusal> {
    if s.gens == [] then Err(GenerationUnselected)
    else
      match CycleAtHead(digest, batch, s, r.budget)
      case Err(why) => Err(why)
      case Ok(cycle) =>
        var holding := cycle.(audits := MergeAudits(cycle.audits, r.audits));
        if cycle.stage != Checking then Ok((s, cycle))
        else if !Independent(r.audits, r.producers) then Err(ReviewerIsProducer)
        else if !ValidCycle(holding) then Err(AuditUnbound)
        else
          match Walk(holding, r.judgment, r.exits)
          case Err(why) => Err(why)
          case Ok(walked) => Ok((s.(stored := Some(walked)), walked))
  }

  // ---- what stays true -----------------------------------------------------

  /** Nothing selected since the row was taken, up to `generation`, affects its criterion. */
  ghost predicate Current(gens: seq<Generation>, a: Audit, generation: nat) {
    forall g | g in gens && GenerationOf(a) < g.ordinal <= generation :: a.criterion !in g.affectedCriteria
  }

  ghost predicate AllCurrent(gens: seq<Generation>, rows: seq<Audit>, generation: nat) {
    forall a | a in rows :: Current(gens, a, generation)
  }

  /** The history is linear, and the cycle on file is valid and bound to one of its generations. */
  ghost predicate Sound(batch: BatchRef, s: State) {
    && Integration.Linear(batch, s.gens)
    && (s.stored.Some? ==>
          var c := s.stored.value;
          && ValidCycle(c) && c.batch == batch
          && exists i | 0 <= i < |s.gens| :: s.gens[i].integrated == c.head)
  }

  ghost predicate Fresh(s: State) {
    s.stored.Some? ==> AllCurrent(s.gens, s.stored.value.audits, s.stored.value.head.generation)
  }

  lemma OrdinalsBelowHead(batch: BatchRef, gens: seq<Generation>, g: Generation)
    requires Integration.Line(batch, gens) && g in gens
    ensures g.ordinal <= Last(gens).ordinal
    ensures g.ordinal == Last(gens).ordinal ==> g == Last(gens)
  {
    var i :| 0 <= i < |gens| && gens[i] == g;
    if i < |gens| - 1 {
      Integration.OrdinalsGrow(batch, gens, i, |gens| - 1);
    }
  }

  /** The affected list of a generation is the one its integrated revision is bound to. */
  ghost predicate ListBound(digest: ListDigest, g: Generation) {
    digest(g.affectedCriteria) == g.integrated.criteriaDigest
  }

  /** The criteria affected are those of every generation moved through, unless a list among them is not its own. */
  lemma {:induction false} AffectedExact(digest: ListDigest, moved: seq<Generation>)
    ensures AffectedBy(digest, moved).Some? <==> forall g | g in moved :: ListBound(digest, g)
    ensures AffectedBy(digest, moved).Some? ==> forall x ::
              x in AffectedBy(digest, moved).value <==> exists g :: g in moved && x in g.affectedCriteria
  {
    if moved != [] {
      AffectedExact(digest, moved[1..]);
      forall g ensures g in moved <==> g == moved[0] || g in moved[1..] {
        assert moved == [moved[0]] + moved[1..];
      }
      assert (forall g | g in moved :: ListBound(digest, g)) <==>
             ListBound(digest, moved[0]) && forall g | g in moved[1..] :: ListBound(digest, g);
    }
  }

  /** Rows kept over a head move are current on the new head. */
  lemma RebaseStaysCurrent(digest: ListDigest, gens: seq<Generation>, c: Cycle, generation: nat, named: set<string>)
    requires AllCurrent(gens, c.audits, c.head.generation)
    requires AffectedBy(digest, Past(gens, c.head.generation)) == Some(named)
    ensures AllCurrent(gens, Picked(c.audits, named, false), generation)
  {
    forall a | a in Picked(c.audits, named, false) ensures Current(gens, a, generation) {
      PickedFrom(c.audits, named, false, a);
      forall g | g in gens && GenerationOf(a) < g.ordinal <= generation ensures a.criterion !in g.affectedCriteria {
        if g.ordinal > c.head.generation && a.criterion in g.affectedCriteria {
          AffectedExact(digest, Past(gens, c.head.generation));
          assert false;
        }
      }
    }
  }

  lemma StoredBelowHead(batch: BatchRef, s: State)
    requires Sound(batch, s) && s.stored.Some?
    ensures s.gens != [] && s.stored.value.head.generation <= Last(s.gens).ordinal
    ensures s.stored.value.head.generation == Last(s.gens).ordinal ==> s.stored.value.head == Last(s.gens).integrated
  {
    var i :| 0 <= i < |s.gens| && s.gens[i].integrated == s.stored.value.head;
    OrdinalsBelowHead(batch, s.gens, s.gens[i]);
  }

  /** Catching up is refused only for an affected list that is not its generation's; otherwise it lands on the head. */
  lemma CaughtUp(digest: ListDigest, batch: BatchRef, s: State, budget: nat)
    requires Sound(batch, s) && s.gens != []
    ensures var r := CycleAtHead(digest, batch, s, budget);
            && (r.Err? ==> r.error == AffectedSetUnbound)
            && (r.Ok? ==>
                  && ValidCycle(r.value) && r.value.batch == batch && r.value.head == Last(s.gens).integrated
                  && (r.value.stage != Checking ==> s.stored == Some(r.value))
                  && (s.stored.Some? ==>
                        r.value.spent == s.stored.value.spent && r.value.budget == s.stored.value.budget)
                  && (s.stored.None? ==> r.value.spent == 0 && r.value.budget == budget))
  {
    if s.stored.Some? {
      StoredBelowHead(batch, s);
      var c := s.stored.value;
      var named := AffectedBy(digest, Past(s.gens, c.head.generation));
      if c.head.generation != Last(s.gens).ordinal && named.Some? {
        RebaseMade(c, Last(s.gens).integrated, named.value);
      }
    }
  }

  /** A generation selected after the head the cycle was on. */
  ghost predicate Selected(gens: seq<Generation>, c: Cycle, g: Generation) {
    g in gens && g.ordinal > c.head.generation
  }

  /** What no generation selected since affects. */
  ghost predicate Spared(gens: seq<Generation>, c: Cycle, x: string) {
    forall g | Selected(gens, c, g) :: x !in g.affectedCriteria
  }

  /**
    The cycle a request meets. None on file: a new one, on the head, empty. One on the head: that one. One
    behind the head: refused exactly when a list moved through is not its generation's, and otherwise
    checked anew on the head with exactly the rows whose criterion no generation since affects.
   */
  lemma CatchesUp(digest: ListDigest, batch: BatchRef, s: State, budget: nat)
    requires Sound(batch, s) && s.gens != []
    ensures var r, head := CycleAtHead(digest, batch, s, budget), Last(s.gens);
            && (r.Ok? ==> ValidCycle(r.value))
            && (s.stored.None? ==> r == Ok(Cycle(batch, head.integrated, Checking, [], 0, budget, None)))
            && (s.stored.Some? && s.stored.value.head == head.integrated ==> r == Ok(s.stored.value))
            && (s.stored.Some? && s.stored.value.head != head.integrated ==>
                  var c := s.stored.value;
                  && (r.Err? <==> exists g :: Selected(s.gens, c, g) && !ListBound(digest, g))
                  && (r.Err? ==> r.error == AffectedSetUnbound)
                  && (r.Ok? ==>
                        && r.value == Cycle(batch, head.integrated, Checking, r.value.audits, c.spent, c.budget, None)
                        && forall a :: a in r.value.audits <==> a in c.audits && Spared(s.gens, c, a.criterion)))
  {
    CaughtUp(digest, batch, s, budget);
    if s.stored.Some? {
      StoredBelowHead(batch, s);
      var c := s.stored.value;
      AffectedExact(digest, Past(s.gens, c.head.generation));
      if c.head.generation != Last(s.gens).ordinal {
        forall x ensures AffectedBy(digest, Past(s.gens, c.head.generation)).Some? ==>
                           (x in AffectedBy(digest, Past(s.gens, c.head.generation)).value <==>
                            !Spared(s.gens, c, x)) {
        }
        if CycleAtHead(digest, batch, s, budget).Ok? {
          RebasesExactly(c, Last(s.gens).integrated, AffectedBy(digest, Past(s.gens, c.head.generation)).value);
        }
      }
    }
  }

  /** What is carried onto the head is current there. */
  lemma CatchesUpCurrent(digest: ListDigest, batch: BatchRef, s: State, budget: nat)
    requires Sound(batch, s) && Fresh(s) && s.gens != [] && CycleAtHead(digest, batch, s, budget).Ok?
    ensures AllCurrent(s.gens, CycleAtHead(digest, batch, s, budget).value.audits, Last(s.gens).ordinal)
  {
    if s.stored.Some? {
      StoredBelowHead(batch, s);
      var c := s.stored.value;
      if c.head.generation != Last(s.gens).ordinal {
        var named := AffectedBy(digest, Past(s.gens, c.head.generation)).value;
        RebaseMade(c, Last(s.gens).integrated, named);
        RebaseStaysCurrent(digest, s.gens, c, Last(s.gens).ordinal, named);
      }
    }
  }

  /** The rows a request presents that a cycle would hold. */
  ghost predicate PresentsCurrent(gens: seq<Generation>, rows: seq<Audit>, generation: nat) {
    forall x | LastFor(rows, x).Some? :: Current(gens, LastFor(rows, x).value, generation)
  }

  /** Merged rows are all current exactly when the presented ones are, the carried ones being so. */
  lemma MergeStaysCurrent(gens: seq<Generation>, carried: seq<Audit>, presented: seq<Audit>, generation: nat)
    requires AllCurrent(gens, carried, generation)
    ensures AllCurrent(gens, MergeAudits(carried, presented), generation) <==>
            PresentsCurrent(gens, presented, generation)
  {
    if PresentsCurrent(gens, presented, generation) {
      forall a | a in MergeAudits(carried, presented) ensures Current(gens, a, generation) {
        MergedFrom(carried, presented, a);
        LastForKnown(carried, a.criterion);
      }
    }
    if AllCurrent(gens, MergeAudits(carried, presented), generation) {
      forall x | LastFor(presented, x).Some? ensures Current(gens, LastFor(presented, x).value, generation) {
        LastForKnown(presented, x);
        MergedFrom(carried, presented, LastFor(presented, x).value);
      }
    }
  }

  /** A verification that walks: what it starts from, once the presented rows are held. */
  ghost predicate Walked(digest: ListDigest, batch: BatchRef, s: State, r: Request, holding: Cycle, walked: Cycle) {
    && s.gens != [] && CycleAtHead(digest, batch, s, r.budget).Ok?
    && var cycle := CycleAtHead(digest, batch, s, r.budget).value;
    && cycle.stage == Checking && Independent(r.audits, r.producers)
    && holding == cycle.(audits := MergeAudits(cycle.audits, r.audits))
    && ValidCycle(holding) && Walk(holding, r.judgment, r.exits) == Ok(walked)
    && VerifyBatch(digest, batch, s, r) == Ok((s.(stored := Some(walked)), walked))
  }

  /** A walk answers from the head, past checking, and files what it walked. */
  lemma WalkedOnHead(digest: ListDigest, batch: BatchRef, s: State, r: Request, holding: Cycle, c: Cycle)
    requires Sound(batch, s) && Walked(digest, batch, s, r, holding, c)
    ensures ValidCycle(c) && c.batch == batch && c.head == Last(s.gens).integrated
    ensures c.audits == holding.audits && c.stage == Landing(holding) && c.budget == holding.budget
    ensures c.spent == holding.spent + if c.stage == Repair then 1 else 0
    ensures s.stored.Some? ==> holding.spent == s.stored.value.spent && holding.budget == s.stored.value.budget
  {
    CaughtUp(digest, batch, s, r.budget);
    WalkKeeps(holding, r.judgment, r.exits);
  }

  /** After a walk the rows on file are all current exactly when the presented ones were. */
  lemma WalkedFresh(digest: ListDigest, batch: BatchRef, s: State, r: Request, holding: Cycle, c: Cycle)
    requires Sound(batch, s) && Fresh(s) && Walked(digest, batch, s, r, holding, c)
    ensures AllCurrent(s.gens, c.audits, Last(s.gens).ordinal) <==>
            PresentsCurrent(s.gens, r.audits, Last(s.gens).ordinal)
  {
    CatchesUpCurrent(digest, batch, s, r.budget);
    WalkedOnHead(digest, batch, s, r, holding, c);
    MergeStaysCurrent(s.gens, CycleAtHead(digest, batch, s, r.budget).value.audits, r.audits, Last(s.gens).ordinal);
  }

  /** A verification either finds the cycle settled on the head and files nothing, or walks. */
  lemma SettledOrWalked(digest: ListDigest, batch: BatchRef, s: State, r: Request) returns (holding: Cycle)
    requires Sound(batch, s) && VerifyBatch(digest, batch, s, r).Ok?
    ensures var (after, c) := VerifyBatch(digest, batch, s, r).value;
            || (after == s && s.stored == Some(c) && c.stage != Checking && c.head == Last(s.gens).integrated)
            || (after == s.(stored := Some(c)) && Walked(digest, batch, s, r, holding, c))
  {
    CaughtUp(digest, batch, s, r.budget);
    var cycle := CycleAtHead(digest, batch, s, r.budget).value;
    holding := cycle.(audits := MergeAudits(cycle.audits, r.audits));
  }

  lemma FiledIsSound(batch: BatchRef, s: State, c: Cycle)
    requires Integration.Linear(batch, s.gens) && s.gens != []
    requires ValidCycle(c) && c.batch == batch && c.head == Last(s.gens).integrated
    ensures Sound(batch, s.(stored := Some(c)))
  {
    assert s.gens[|s.gens| - 1].integrated == c.head;
  }

  /** Every answer is a valid cycle standing on the selected head, past checking, and it is what is on file. */
  lemma AnswersOnHead(digest: ListDigest, batch: BatchRef, s: State, r: Request)
    requires Sound(batch, s) && VerifyBatch(digest, batch, s, r).Ok?
    ensures s.gens != []
    ensures var (after, c) := VerifyBatch(digest, batch, s, r).value;
            && ValidCycle(c) && c.stage != Checking && c.head == Last(s.gens).integrated
            && after == s.(stored := Some(c)) && Sound(batch, after)
  {
    var holding := SettledOrWalked(digest, batch, s, r);
    var c := VerifyBatch(digest, batch, s, r).value.1;
    if Walked(digest, batch, s, r, holding, c) {
      WalkedOnHead(digest, batch, s, r, holding, c);
      FiledIsSound(batch, s, c);
    }
  }

  /** A row held after a merge is current unless this very request presented it. */
  lemma HeldIsCurrent(gens: seq<Generation>, carried: seq<Audit>, presented: seq<Audit>, generation: nat, a: Audit)
    requires AllCurrent(gens, carried, generation) && a in MergeAudits(carried, presented)
    ensures Current(gens, a, generation) || LastFor(presented, a.criterion) == Some(a)
  {
    MergedFrom(carried, presented, a);
    LastForKnown(carried, a.criterion);
  }

  /**
    A walk that ends merge-ready, from a state whose rows are current, was audited: no required row is
    open, and each judgment criterion has a row on file that does not block and that nothing selected
    since it was taken affects, unless this very request presented it.
   */
  lemma MergeReadyIsAudited(digest: ListDigest, batch: BatchRef, s: State, r: Request, holding: Cycle, c: Cycle)
    requires Sound(batch, s) && Fresh(s) && Walked(digest, batch, s, r, holding, c)
    requires c.stage == ReadyToMerge
    ensures c.head == Last(s.gens).integrated && AllProven(c.audits)
    ensures forall i | 0 <= i < |r.judgment| ::
              var row := AuditOf(c.audits, r.judgment[i]);
              row.Some? && (row.value.required ==> row.value.verdict == VerifiedTrue)
              && (Current(s.gens, row.value, Last(s.gens).ordinal) || LastFor(r.audits, r.judgment[i]) == row)
  {
    WalkedOnHead(digest, batch, s, r, holding, c);
    CatchesUpCurrent(digest, batch, s, r.budget);
    var carried := CycleAtHead(digest, batch, s, r.budget).value.audits;
    WalkKeeps(holding, r.judgment, r.exits);
    NoneBlockProven(c.audits);
    forall i | 0 <= i < |r.judgment|
      ensures var row := AuditOf(c.audits, r.judgment[i]);
              row.Some? && (row.value.required ==> row.value.verdict == VerifiedTrue)
              && (Current(s.gens, row.value, Last(s.gens).ordinal) || LastFor(r.audits, r.judgment[i]) == row)
    {
      RowOf(c.audits, r.judgment[i]);
      HeldIsCurrent(s.gens, carried, r.audits, Last(s.gens).ordinal, AuditOf(c.audits, r.judgment[i]).value);
    }
  }

  lemma MergeOne(a: Audit)
    ensures MergeAudits([], [a]) == [a]
  {
    var all := [] + [a];
    assert all == [a] && all[..0] == [];
    assert Criteria(all) == [a.criterion];
    assert Unique(Criteria(all)) == [a.criterion];
    assert Ordered(all) == [a.criterion];
    assert LastFor(all, a.criterion) == Some(a);
  }

  /**
    Currency is not checked: a clear row taken on any generation up to the head carries a first walk to
    merge readiness, whatever has been selected since.
   */
  lemma EarlierRowAccepted(digest: ListDigest, batch: BatchRef, gens: seq<Generation>, a: Audit, budget: nat)
    requires Integration.Linear(batch, gens) && gens != []
    requires ValidAudit(a) && a.batch == batch && a.verdict == VerifiedTrue && GenerationOf(a) <= Last(gens).ordinal
    ensures var r := Request([a], [a.criterion], map[], budget, {});
            var answer := VerifyBatch(digest, batch, State(gens, None), r);
            answer.Ok? && answer.value.1.stage == ReadyToMerge && answer.value.1.audits == [a]
  {
    var s := State(gens, None);
    CaughtUp(digest, batch, s, budget);
    MergeOne(a);
    var holding := CycleAtHead(digest, batch, s, budget).value.(audits := [a]);
    assert ValidCycle(holding);
    WalksExactly(holding, [a.criterion], map[]);
  }

  function BindingOf(batch: BatchRef, generation: nat): Binding {
    Binding(batch.repository, IntegrationRef, "head", "tree", None, batch, generation, "", "", "", None, 0)
  }

  function GenerationAt(batch: BatchRef, ordinal: nat, id: string, parent: Option<string>, affected: seq<string>,
                        selected: bool): Generation
    requires ordinal >= 1
  {
    var b := BindingOf(batch, ordinal - 1);
    Integration.Generation(id, batch, ordinal, parent, b, b, BindingOf(batch, ordinal),
                           Integration.Content("", "", "", "", ""), ["path"], [], affected, selected, 0)
  }

  /** Two generations, the second affecting the criterion `x`. */
  function TwoGenerations(batch: BatchRef, x: string): seq<Generation> {
    [GenerationAt(batch, 2, "ING-000001", None, [], false),
     GenerationAt(batch, 3, "ING-000002", Some("ING-000001"), [x], true)]
  }

  /** A clear verdict on `x`, taken on the first of them. */
  function RowOnFirst(batch: BatchRef, x: string): Audit {
    var b := BindingOf(batch, 2);
    Audit("BAU-000001", batch, x, true, VerifiedTrue, b, Attestation("RUN-1", false, b, "", []), None, 0)
  }

  lemma TwoGenerationsLinear(batch: BatchRef, x: string)
    ensures Integration.Linear(batch, TwoGenerations(batch, x))
  {
    var gens := TwoGenerations(batch, x);
    var ids := Integration.Ids(gens);
    assert ids == ["ING-000001", "ING-000002"] && ids[0][9] != ids[1][9];
    assert Integration.Succeeds(gens[0], gens[1]);
  }

  /** It happens: a verdict the second generation undid still carries the batch to merge readiness. */
  lemma StaleRowAccepted(digest: ListDigest, batch: BatchRef, x: string, budget: nat)
    ensures var gens, a := TwoGenerations(batch, x), RowOnFirst(batch, x);
            var answer := VerifyBatch(digest, batch, State(gens, None), Request([a], [x], map[], budget, {}));
            && answer.Ok? && answer.value.1.stage == ReadyToMerge && answer.value.1.audits == [a]
            && !Current(gens, a, Last(gens).ordinal)
  {
    var gens, a := TwoGenerations(batch, x), RowOnFirst(batch, x);
    TwoGenerationsLinear(batch, x);
    EarlierRowAccepted(digest, batch, gens, a, budget);
    assert gens[1] in gens && x in gens[1].affectedCriteria;
  }

  /** The cycle a request would walk: the rows met, each replaced by what the request presents for its criterion. */
  ghost function Holding(met: Cycle, r: Request): Cycle {
    met.(audits := MergeAudits(met.audits, r.audits))
  }

  /**
    What a request is answered. Refused: without a generation, over an affected list that is not its own,
    when a presented row was judged by a run that produced the work, when the rows do not stand on this
    head, or as the walk refuses. Otherwise the cycle on the head, walked when it was still being checked
    and then filed.
   */
  lemma VerifiesExactly(digest: ListDigest, batch: BatchRef, s: State, r: Request)
    requires Sound(batch, s)
    ensures var answer := VerifyBatch(digest, batch, s, r);
            if s.gens == [] then answer == Err(GenerationUnselected)
            else
              match CycleAtHead(digest, batch, s, r.budget)
              case Err(why) => answer == Err(why)
              case Ok(met) =>
                if met.stage != Checking then answer == Ok((s, met))
                else if exists a :: a in r.audits && a.review.run in r.producers then answer == Err(ReviewerIsProducer)
                else if !Standing(Holding(met, r)) then answer == Err(AuditUnbound)
                else
                  match Walk(Holding(met, r), r.judgment, r.exits)
                  case Err(why) => answer == Err(why)
                  case Ok(walked) => answer == Ok((State(s.gens, Some(walked)), walked))
  {
    IndependentExact(r.audits, r.producers);
    if s.gens != [] && CycleAtHead(digest, batch, s, r.budget).Ok? {
      StandingExact(Holding(CycleAtHead(digest, batch, s, r.budget).value, r));
    }
  }

  lemma IndependentExact(rows: seq<Audit>, producers: set<string>)
    ensures Independent(rows, producers) <==> !exists a :: a in rows && a.review.run in producers
  {
    assert forall i | 0 <= i < |rows| :: rows[i] in rows;
  }

  // ---- runs ----------------------------------------------------------------

  datatype Event = Select(generation: Generation) | Verify(request: Request)

  /** One event; a refused one changes nothing. */
  function Next(digest: ListDigest, batch: BatchRef, s: State, e: Event): State {
    match e
    case Select(g) =>
      (match Integration.SelectGeneration(batch, s.gens, g)
       case Ok(gens) => s.(gens := gens)
       case Err(_) => s)
    case Verify(r) =>
      match VerifyBatch(digest, batch, s, r)
      case Ok(pair) => pair.0
      case Err(_) => s
  }

  function Run(digest: ListDigest, batch: BatchRef, s: State, events: seq<Event>): State
    decreases |events|
  {
    if events == [] then s else Run(digest, batch, Next(digest, batch, s, events[0]), events[1..])
  }

  /** The rows an event presents are current on the head it meets; a row taken on that head always is. */
  ghost predicate Honest(s: State, e: Event) {
    e.Verify? && s.gens != [] ==> PresentsCurrent(s.gens, e.request.audits, Last(s.gens).ordinal)
  }

  ghost predicate HonestRun(digest: ListDigest, batch: BatchRef, s: State, events: seq<Event>)
    decreases |events|
  {
    events == [] || (Honest(s, events[0]) && HonestRun(digest, batch, Next(digest, batch, s, events[0]), events[1..]))
  }

  /** Rows taken on the head are current on it. */
  lemma HeadRowsAreCurrent(gens: seq<Generation>, rows: seq<Audit>)
    requires gens != [] && forall i | 0 <= i < |rows| :: GenerationOf(rows[i]) == Last(gens).ordinal
    ensures PresentsCurrent(gens, rows, Last(gens).ordinal)
  {
    forall x | LastFor(rows, x).Some? ensures Current(gens, LastFor(rows, x).value, Last(gens).ordinal) {
      LastForKnown(rows, x);
    }
  }

  lemma ReleasedMembers(gens: seq<Generation>, g: Generation) returns (was: Generation)
    requires g in Integration.Released(gens)
    ensures was in gens && was.ordinal == g.ordinal && was.affectedCriteria == g.affectedCriteria
    ensures was.integrated == g.integrated
  {
    var released := Integration.Released(gens);
    var i :| 0 <= i < |released| && released[i] == g;
    was := gens[i];
  }

  /** Selecting a new head leaves what is on file current for the head it is bound to. */
  lemma SelectKeepsCurrent(batch: BatchRef, gens: seq<Generation>, g: Generation, rows: seq<Audit>, generation: nat)
    requires Integration.Linear(batch, gens) && Integration.SelectGeneration(batch, gens, g).Ok?
    requires AllCurrent(gens, rows, generation) && (gens != [] ==> generation <= Last(gens).ordinal) && gens != []
    ensures AllCurrent(Integration.SelectGeneration(batch, gens, g).value, rows, generation)
  {
    var grown := Integration.SelectGeneration(batch, gens, g).value;
    Integration.SelectsExactly(batch, gens, g);
    forall a, h | a in rows && h in grown && GenerationOf(a) < h.ordinal <= generation
      ensures a.criterion !in h.affectedCriteria
    {
      assert h != g;
      var was := ReleasedMembers(gens, h);
      assert Current(gens, a, generation);
    }
  }

  lemma SelectSound(batch: BatchRef, s: State, g: Generation)
    requires Sound(batch, s) && Integration.SelectGeneration(batch, s.gens, g).Ok?
    ensures Sound(batch, s.(gens := Integration.SelectGeneration(batch, s.gens, g).value))
  {
    if s.stored.Some? {
      var i :| 0 <= i < |s.gens| && s.gens[i].integrated == s.stored.value.head;
      var grown := Integration.SelectGeneration(batch, s.gens, g).value;
      assert grown[i].integrated == s.stored.value.head;
    }
  }

  lemma EventSound(digest: ListDigest, batch: BatchRef, s: State, e: Event)
    requires Sound(batch, s)
    ensures Sound(batch, Next(digest, batch, s, e))
  {
    match e
    case Select(g) =>
      if Integration.SelectGeneration(batch, s.gens, g).Ok? {
        SelectSound(batch, s, g);
      }
    case Verify(r) =>
      if VerifyBatch(digest, batch, s, r).Ok? {
        AnswersOnHead(digest, batch, s, r);
      }
  }

  lemma EventFresh(digest: ListDigest, batch: BatchRef, s: State, e: Event)
    requires Sound(batch, s) && Fresh(s) && Honest(s, e)
    ensures Fresh(Next(digest, batch, s, e))
  {
    match e
    case Select(g) =>
      if Integration.SelectGeneration(batch, s.gens, g).Ok? && s.stored.Some? {
        StoredBelowHead(batch, s);
        SelectKeepsCurrent(batch, s.gens, g, s.stored.value.audits, s.stored.value.head.generation);
      }
    case Verify(r) =>
      if VerifyBatch(digest, batch, s, r).Ok? {
        AnswersOnHead(digest, batch, s, r);
        var holding := SettledOrWalked(digest, batch, s, r);
        var c := VerifyBatch(digest, batch, s, r).value.1;
        if Walked(digest, batch, s, r, holding, c) {
          WalkedFresh(digest, batch, s, r, holding, c);
        }
      }
  }

  /**
    Over every run of selections and verifications, refused ones included, the history stays linear and
    the cycle on file stays valid and bound to a generation of it.
   */
  lemma {:induction false} RunSound(digest: ListDigest, batch: BatchRef, s: State, events: seq<Event>)
    requires Sound(batch, s)
    ensures Sound(batch, Run(digest, batch, s, events))
    decreases |events|
  {
    if events != [] {
      EventSound(digest, batch, s, events[0]);
      RunSound(digest, batch, Next(digest, batch, s, events[0]), events[1..]);
    }
  }

  /** While the rows presented are current, no row on file is ever about a criterion a later generation affected. */
  lemma {:induction false} RunFresh(digest: ListDigest, batch: BatchRef, s: State, events: seq<Event>)
    requires Sound(batch, s) && Fresh(s) && HonestRun(digest, batch, s, events)
    ensures Fresh(Run(digest, batch, s, events))
    decreases |events|
  {
    if events != [] {
      EventSound(digest, batch, s, events[0]);
      EventFresh(digest, batch, s, events[0]);
      RunFresh(digest, batch, Next(digest, batch, s, events[0]), events[1..]);
    }
  }

  /** Every row an event presents was taken on the head it meets. */
  ghost predicate OnHead(s: State, e: Event) {
    e.Verify? && s.gens != [] ==>
      forall i | 0 <= i < |e.request.audits| :: GenerationOf(e.request.audits[i]) == Last(s.gens).ordinal
  }

  ghost predicate OnHeadRun(digest: ListDigest, batch: BatchRef, s: State, events: seq<Event>)
    decreases |events|
  {
    events == [] || (OnHead(s, events[0]) && OnHeadRun(digest, batch, Next(digest, batch, s, events[0]), events[1..]))
  }

  /** Auditing each batch on the head it delivers is enough for every row on file to stay current. */
  lemma {:induction false} OnHeadRunFresh(digest: ListDigest, batch: BatchRef, s: State, events: seq<Event>)
    requires Sound(batch, s) && Fresh(s) && OnHeadRun(digest, batch, s, events)
    ensures Fresh(Run(digest, batch, s, events))
    decreases |events|
  {
    if events != [] {
      var e := events[0];
      if e.Verify? && s.gens != [] {
        HeadRowsAreCurrent(s.gens, e.request.audits);
      }
      EventSound(digest, batch, s, e);
      EventFresh(digest, batch, s, e);
      OnHeadRunFresh(digest, batch, Next(digest, batch, s, e), events[1..]);
    }
  }

  /** Whether an event walks a cycle into a repair, which spends one. */
  function Repairs(digest: ListDigest, batch: BatchRef, s: State, e: Event): nat {
    if e.Verify? && VerifyBatch(digest, batch, s, e.request).Ok?
       && VerifyBatch(digest, batch, s, e.request).value.0 != s
       && VerifyBatch(digest, batch, s, e.request).value.1.stage == Repair
    then 1 else 0
  }

  function RepairsOpened(digest: ListDigest, batch: BatchRef, s: State, events: seq<Event>): nat
    decreases |events|
  {
    if events == [] then 0
    else
      Repairs(digest, batch, s, events[0])
      + RepairsOpened(digest, batch, Next(digest, batch, s, events[0]), events[1..])
  }

  lemma EventSpends(digest: ListDigest, batch: BatchRef, s: State, e: Event)
    requires Sound(batch, s) && s.stored.Some?
    ensures var after := Next(digest, batch, s, e);
            && after.stored.Some? && after.stored.value.budget == s.stored.value.budget
            && after.stored.value.spent == s.stored.value.spent + Repairs(digest, batch, s, e)
  {
    if e.Verify? && VerifyBatch(digest, batch, s, e.request).Ok? {
      var r := e.request;
      var holding := SettledOrWalked(digest, batch, s, r);
      var c := VerifyBatch(digest, batch, s, r).value.1;
      if Walked(digest, batch, s, r, holding, c) {
        WalkedOnHead(digest, batch, s, r, holding, c);
      }
    }
  }

  /**
    However often the code moves and is verified again, each repair opened is spent from the same budget, and
    they never pass what it has left.
   */
  lemma {:induction false} RepairsBounded(digest: ListDigest, batch: BatchRef, s: State, events: seq<Event>)
    requires Sound(batch, s) && s.stored.Some?
    ensures var after := Run(digest, batch, s, events).stored;
            && after.Some? && after.value.budget == s.stored.value.budget
            && after.value.spent == s.stored.value.spent + RepairsOpened(digest, batch, s, events)
            && after.value.spent <= after.value.budget
    decreases |events|
  {
    if events != [] {
      EventSound(digest, batch, s, events[0]);
      EventSpends(digest, batch, s, events[0]);
      RepairsBounded(digest, batch, Next(digest, batch, s, events[0]), events[1..]);
    }
  }
}
