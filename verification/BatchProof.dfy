/** What a batch must have proved, by whom, and the stage walk its rows drive. */
module BatchProof {
  import opened Values
  import opened Sorting
  import opened Revisions

  // ---- audit rows ----------------------------------------------------------

  datatype Verdict = VerifiedTrue | VerifiedFalse | Unverified

  predicate BlockingVerdict(v: Verdict) {
    v != VerifiedTrue
  }

  datatype Tool = Tool(id: string, mutating: bool)

  /** The run that reached a verdict, under what purpose and with which tools. */
  datatype Attestation = Attestation(run: string, mutatingPurpose: bool, reviewed: Binding, capsule: string,
                                     grants: seq<Tool>)

  datatype Audit = Audit(id: string, batch: BatchRef, criterion: string, required: bool, verdict: Verdict,
                         audited: Binding, review: Attestation, finding: Option<string>, recordedAt: int)

  predicate Blocks(a: Audit) {
    a.required && BlockingVerdict(a.verdict)
  }

  function GenerationOf(a: Audit): nat {
    a.audited.generation
  }

  /** A reviewer cannot change what it judges. */
  predicate ValidAttestation(r: Attestation) {
    && ValidBinding(r.reviewed) && !r.mutatingPurpose
    && (forall i | 0 <= i < |r.grants| :: !r.grants[i].mutating)
    && Distinct(r.grants)
  }

  /** The row validators: auditor and reviewer read one revision, and exactly an open verdict has a finding. */
  predicate ValidAudit(a: Audit) {
    && ValidBinding(a.audited) && ValidAttestation(a.review)
    && a.audited.batch == a.batch
    && a.audited.headSha == a.review.reviewed.headSha && a.audited.treeSha == a.review.reviewed.treeSha
    && a.audited.generation == a.review.reviewed.generation && a.audited.refKind == a.review.reviewed.refKind
    && (BlockingVerdict(a.verdict) <==> a.finding.Some?)
  }

  // ---- the cycle -----------------------------------------------------------

  datatype Stage = Checking | AuditReview | ChangesRequired | Repair | ReadyToMerge | OperatorDecision

  /** `BATCH_VERIFICATION_EDGES`: the moves that keep the cycle on one head. */
  function Edges(s: Stage): set<Stage> {
    match s
    case Checking => {AuditReview, ChangesRequired}
    case AuditReview => {ReadyToMerge, ChangesRequired}
    case ChangesRequired => {Repair, OperatorDecision}
    case _ => {}
  }

  datatype ExitKind = RepairTask | RebaseTask | AskOperator

  datatype EntityKind = TaskEntity | PendingAction | OtherEntity

  datatype EntityRef = EntityRef(kind: EntityKind, key: string)

  datatype Exit = Exit(kind: ExitKind, ref: EntityRef)

  predicate ValidExit(e: Exit) {
    e.ref.kind == if e.kind == AskOperator then PendingAction else TaskEntity
  }

  /** `STAGE_EXIT_KINDS`: the exit a stage is defined by having opened. */
  function StageExit(s: Stage): Option<ExitKind> {
    match s
    case Repair => Some(RepairTask)
    case OperatorDecision => Some(AskOperator)
    case _ => None
  }

  datatype Cycle = Cycle(batch: BatchRef, head: Binding, stage: Stage, audits: seq<Audit>, spent: nat, budget: nat,
                         exit: Option<Exit>)

  predicate RowFits(batch: BatchRef, generation: nat, a: Audit) {
    ValidAudit(a) && a.batch == batch && GenerationOf(a) <= generation
  }

  /** The rows a cycle on ordinal `generation` may hold: its batch's, one a criterion, none from a later head. */
  predicate RowsFit(batch: BatchRef, generation: nat, rows: seq<Audit>) {
    && (forall i | 0 <= i < |rows| :: RowFits(batch, generation, rows[i]))
    && (forall i, j | 0 <= i < j < |rows| :: rows[i].id != rows[j].id && rows[i].criterion != rows[j].criterion)
  }

  predicate HeadFits(batch: BatchRef, head: Binding) {
    ValidBinding(head) && head.batch == batch && head.refKind == IntegrationRef
  }

  predicate ExitFits(stage: Stage, exit: Option<Exit>) {
    && (exit.Some? ==> ValidExit(exit.value))
    && match StageExit(stage)
       case None => exit.None?
       case Some(kind) => exit.Some? && exit.value.kind == kind
  }

  predicate NoneBlock(rows: seq<Audit>) {
    forall i | 0 <= i < |rows| :: !Blocks(rows[i])
  }

  /** The cycle validators. */
  predicate ValidCycle(c: Cycle) {
    && HeadFits(c.batch, c.head)
    && RowsFit(c.batch, c.head.generation, c.audits)
    && ExitFits(c.stage, c.exit)
    && c.spent <= c.budget
    && (c.stage == ReadyToMerge ==> NoneBlock(c.audits))
  }

  /** `audit_of`. */
  function AuditOf(rows: seq<Audit>, criterion: string): Option<Audit> {
    if rows == [] then None
    else if rows[0].criterion == criterion then Some(rows[0])
    else AuditOf(rows[1..], criterion)
  }

  // ---- moving --------------------------------------------------------------

  /** `advance`. */
  function Advance(c: Cycle, to: Stage, audits: Option<seq<Audit>>, exit: Option<Exit>, spend: bool)
    : Result<Cycle, string>
  {
    if to !in Edges(c.stage) then Err("not a same-head move")
    else
      var next := c.(stage := to, exit := exit, spent := c.spent + if spend then 1 else 0,
                     audits := if audits.Some? then audits.value else c.audits);
      if ValidCycle(next) then Ok(next) else Err("the advanced cycle breaks a cycle rule")
  }

  /** Every required row has been verified true. */
  ghost predicate AllProven(rows: seq<Audit>) {
    forall i | 0 <= i < |rows| && rows[i].required :: rows[i].verdict == VerifiedTrue
  }

  lemma NoneBlockProven(rows: seq<Audit>)
    ensures NoneBlock(rows) <==> AllProven(rows)
  {
  }

  /** Judged on the very code that was reviewed, by a run that could change none of it; a finding says what is open. */
  ghost predicate Honest(a: Audit) {
    var seen, judge := a.review.reviewed, a.review;
    && Bound(a.audited) && Bound(seen) && a.audited.batch == a.batch
    && a.audited.headSha == seen.headSha && a.audited.treeSha == seen.treeSha
    && a.audited.generation == seen.generation && a.audited.refKind == seen.refKind
    && !judge.mutatingPurpose && (forall tool | tool in judge.grants :: !tool.mutating)
    && (forall i, j | 0 <= i < j < |judge.grants| :: judge.grants[i] != judge.grants[j])
    && (a.finding == None <==> a.verdict == VerifiedTrue)
  }

  /** Honest rows of this batch, none from past `generation`, with ids and criteria of their own. */
  ghost predicate Filed(batch: BatchRef, generation: nat, rows: seq<Audit>) {
    && (forall a | a in rows :: Honest(a) && a.batch == batch && a.audited.generation <= generation)
    && (forall i, j | 0 <= i < j < |rows| :: rows[i].id != rows[j].id && rows[i].criterion != rows[j].criterion)
  }

  lemma HonestExact(a: Audit)
    ensures ValidAudit(a) <==> Honest(a)
  {
    var grants := a.review.grants;
    assert forall i | 0 <= i < |grants| :: grants[i] in grants;
  }

  lemma FiledExact(batch: BatchRef, generation: nat, rows: seq<Audit>)
    ensures RowsFit(batch, generation, rows) <==> Filed(batch, generation, rows)
  {
    forall a ensures RowFits(batch, generation, a) <==>
                     Honest(a) && a.batch == batch && a.audited.generation <= generation {
      HonestExact(a);
    }
    assert forall i | 0 <= i < |rows| :: rows[i] in rows;
  }

  /** What the validators let a cycle be, in full. */
  ghost predicate Standing(c: Cycle) {
    && Bound(c.head) && c.head.batch == c.batch && c.head.refKind == IntegrationRef
    && Filed(c.batch, c.head.generation, c.audits) && LeadsOut(c.stage, c.exit)
    && c.spent <= c.budget && (c.stage == ReadyToMerge ==> AllProven(c.audits))
  }

  lemma StandingExact(c: Cycle)
    ensures ValidCycle(c) <==> Standing(c)
  {
    HeadExact(c.batch, c.head);
    LeadsExact(c.stage, c.exit);
    FiledExact(c.batch, c.head.generation, c.audits);
    NoneBlockProven(c.audits);
  }

  /** The moves on one head. */
  const MOVES: set<(Stage, Stage)> :=
    {(Checking, AuditReview), (Checking, ChangesRequired), (AuditReview, ReadyToMerge), (AuditReview, ChangesRequired),
     (ChangesRequired, Repair), (ChangesRequired, OperatorDecision)}

  /** A repair has opened a Task, a question an action of the operator, and no other stage leads out. */
  ghost predicate LeadsOut(s: Stage, exit: Option<Exit>) {
    if s == Repair then exit.Some? && exit.value.kind == RepairTask && exit.value.ref.kind == TaskEntity
    else if s == OperatorDecision then exit.Some? && exit.value.kind == AskOperator
                                       && exit.value.ref.kind == PendingAction
    else exit == None
  }

  lemma EdgesExact(s: Stage, to: Stage)
    ensures to in Edges(s) <==> (s, to) in MOVES
  {
  }

  lemma LeadsExact(s: Stage, exit: Option<Exit>)
    ensures ExitFits(s, exit) <==> LeadsOut(s, exit)
  {
  }

  /**
    A move is made exactly along an edge, with rows that fit the head, the exit its stage asks for, a
    repair left to spend, and only proven required rows when it claims merge readiness; the head stays.
   */
  lemma AdvancesExactly(c: Cycle, to: Stage, audits: Option<seq<Audit>>, exit: Option<Exit>, spend: bool)
    requires ValidCycle(c)
    ensures var rows := if audits.Some? then audits.value else c.audits;
            var next := Advance(c, to, audits, exit, spend);
            && (next.Ok? <==>
                  && (c.stage, to) in MOVES && LeadsOut(to, exit)
                  && (audits.Some? ==> Filed(c.batch, c.head.generation, rows))
                  && (spend ==> c.spent < c.budget)
                  && (to == ReadyToMerge ==> AllProven(rows)))
            && (next.Ok? ==>
                  && ValidCycle(next.value)
                  && next.value == Cycle(c.batch, c.head, to, rows, c.spent + if spend then 1 else 0, c.budget, exit))
  {
    var rows := if audits.Some? then audits.value else c.audits;
    EdgesExact(c.stage, to);
    StandingExact(c);
    StandingExact(Cycle(c.batch, c.head, to, rows, c.spent + if spend then 1 else 0, c.budget, exit));
  }

  datatype Invalidation = Invalidation(batch: BatchRef, droppedFrom: Stage, fromGeneration: nat, toGeneration: nat,
                                       invalidated: seq<string>, invalidatedAudits: seq<string>, carried: seq<string>)

  /** The head-move validators: forward, and no criterion both lost and carried. */
  predicate ValidInvalidation(v: Invalidation) {
    && v.toGeneration > v.fromGeneration >= 1
    && forall i, j | 0 <= i < |v.invalidated| && 0 <= j < |v.carried| :: v.invalidated[i] != v.carried[j]
  }

  /** The rows whose criterion is among `named`, or is not, in the order held. */
  function Picked(rows: seq<Audit>, named: set<string>, wanted: bool): seq<Audit> {
    if rows == [] then []
    else
      (if (rows[0].criterion in named) == wanted then [rows[0]] else []) + Picked(rows[1..], named, wanted)
  }

  function Criteria(rows: seq<Audit>): seq<string> {
    seq(|rows|, i requires 0 <= i < |rows| => rows[i].criterion)
  }

  function AuditIds(rows: seq<Audit>): seq<string> {
    seq(|rows|, i requires 0 <= i < |rows| => rows[i].id)
  }

  function Named(c: Cycle, head: Binding, named: set<string>): Invalidation {
    var kept, dropped := Picked(c.audits, named, false), Picked(c.audits, named, true);
    Invalidation(c.batch, c.stage, c.head.generation, head.generation, Sort(Criteria(dropped), TextLe),
                 Sort(AuditIds(dropped), TextLe), Sort(Criteria(kept), TextLe))
  }

  /** The cycle re-opened on a new head, without the named rows. */
  function Reopened(c: Cycle, head: Binding, named: set<string>): Cycle {
    Cycle(c.batch, head, Checking, Picked(c.audits, named, false), c.spent, c.budget, None)
  }

  /** `rebase`. */
  function Rebase(c: Cycle, head: Binding, named: set<string>): Result<(Cycle, Invalidation), string> {
    if !ValidInvalidation(Named(c, head, named)) then Err("a head move goes forward")
    else if !ValidCycle(Reopened(c, head, named)) then Err("the rebased cycle breaks a cycle rule")
    else Ok((Reopened(c, head, named), Named(c, head, named)))
  }

  // ---- what a head move costs ----------------------------------------------

  lemma {:induction false} PickedFrom(rows: seq<Audit>, named: set<string>, wanted: bool, a: Audit)
    ensures a in Picked(rows, named, wanted) <==> a in rows && ((a.criterion in named) == wanted)
  {
    if rows != [] {
      PickedFrom(rows[1..], named, wanted, a);
    }
  }

  /** Nothing is lost, doubled or altered: the rows kept and the rows dropped are the rows held. */
  lemma {:induction false} PickedPartition(rows: seq<Audit>, named: set<string>)
    ensures multiset(Picked(rows, named, false)) + multiset(Picked(rows, named, true)) == multiset(rows)
  {
    if rows != [] {
      PickedPartition(rows[1..], named);
      assert rows == [rows[0]] + rows[1..];
    }
  }

  /** `a` shares neither its id nor its criterion with a row of `rows`. */
  ghost predicate Apart(a: Audit, rows: seq<Audit>) {
    forall i | 0 <= i < |rows| :: a.id != rows[i].id && a.criterion != rows[i].criterion
  }

  /** Rows fit exactly when the first does, is apart from the rest, and the rest fit. */
  lemma RowsFitCons(batch: BatchRef, generation: nat, rows: seq<Audit>)
    requires rows != []
    ensures RowsFit(batch, generation, rows) <==>
            RowFits(batch, generation, rows[0]) && Apart(rows[0], rows[1..]) && RowsFit(batch, generation, rows[1..])
  {
    var rest := rows[1..];
    if RowsFit(batch, generation, rows) {
      assert forall i | 0 <= i < |rest| :: rest[i] == rows[i + 1];
    } else if RowFits(batch, generation, rows[0]) && Apart(rows[0], rest) {
      assert forall i | 0 < i < |rows| :: rows[i] == rest[i - 1];
    }
  }

  lemma ApartPicked(a: Audit, rows: seq<Audit>, named: set<string>, wanted: bool)
    requires Apart(a, rows)
    ensures Apart(a, Picked(rows, named, wanted))
  {
    var kept := Picked(rows, named, wanted);
    forall i | 0 <= i < |kept| ensures a.id != kept[i].id && a.criterion != kept[i].criterion {
      PickedFrom(rows, named, wanted, kept[i]);
    }
  }

  /** Picking keeps the order: pairs that were apart stay apart, so what fitted still fits. */
  lemma {:induction false} PickedFits(batch: BatchRef, generation: nat, later: nat, rows: seq<Audit>,
                                      named: set<string>, wanted: bool)
    requires RowsFit(batch, generation, rows) && generation <= later
    ensures RowsFit(batch, later, Picked(rows, named, wanted))
  {
    if rows != [] {
      RowsFitCons(batch, generation, rows);
      PickedFits(batch, generation, later, rows[1..], named, wanted);
      ApartPicked(rows[0], rows[1..], named, wanted);
      var rest := Picked(rows[1..], named, wanted);
      assert ([rows[0]] + rest)[1..] == rest;
      RowsFitCons(batch, later, [rows[0]] + rest);
      assert [] + rest == rest;
    }
  }

  lemma CriteriaIn(rows: seq<Audit>, c: string)
    ensures c in Sort(Criteria(rows), TextLe) <==> exists a :: a in rows && a.criterion == c
  {
    assert c in Sort(Criteria(rows), TextLe) <==> c in multiset(Criteria(rows));
    if a :| a in rows && a.criterion == c {
      var i :| 0 <= i < |rows| && rows[i] == a;
      assert Criteria(rows)[i] == c;
    }
    if c in Criteria(rows) {
      var i :| 0 <= i < |rows| && Criteria(rows)[i] == c;
      assert rows[i] in rows;
    }
  }

  ghost predicate Holds(c: Cycle, criterion: string) {
    exists a :: a in c.audits && a.criterion == criterion
  }

  /** The two id lists partition the criteria held: named and held is lost, held and not named is carried. */
  lemma CostPartitions(c: Cycle, head: Binding, named: set<string>, criterion: string)
    ensures criterion in Named(c, head, named).invalidated <==> Holds(c, criterion) && criterion in named
    ensures criterion in Named(c, head, named).carried <==> Holds(c, criterion) && criterion !in named
  {
    var kept, dropped := Picked(c.audits, named, false), Picked(c.audits, named, true);
    CriteriaIn(kept, criterion);
    CriteriaIn(dropped, criterion);
    forall a ensures a in kept <==> a in c.audits && a.criterion !in named
             ensures a in dropped <==> a in c.audits && a.criterion in named {
      PickedFrom(c.audits, named, false, a);
      PickedFrom(c.audits, named, true, a);
    }
  }

  lemma CostValid(c: Cycle, head: Binding, named: set<string>)
    ensures ValidInvalidation(Named(c, head, named)) <==> head.generation > c.head.generation >= 1
  {
    var v := Named(c, head, named);
    forall i, j | 0 <= i < |v.invalidated| && 0 <= j < |v.carried| ensures v.invalidated[i] != v.carried[j] {
      CostPartitions(c, head, named, v.invalidated[i]);
      CostPartitions(c, head, named, v.carried[j]);
    }
  }

  lemma ReopenedValid(c: Cycle, head: Binding, named: set<string>)
    requires ValidCycle(c) && head.generation > c.head.generation
    ensures ValidCycle(Reopened(c, head, named)) <==> HeadFits(c.batch, head)
  {
    PickedFits(c.batch, c.head.generation, head.generation, c.audits, named, false);
  }

  lemma HeadExact(batch: BatchRef, head: Binding)
    ensures HeadFits(batch, head) <==> Bound(head) && head.batch == batch && head.refKind == IntegrationRef
  {
  }

  /** How a head move is made. */
  lemma RebaseMade(c: Cycle, head: Binding, named: set<string>)
    requires ValidCycle(c)
    ensures Rebase(c, head, named).Ok? <==> HeadFits(c.batch, head) && head.generation > c.head.generation
    ensures Rebase(c, head, named).Ok? ==>
              Rebase(c, head, named).value == (Reopened(c, head, named), Named(c, head, named))
              && ValidCycle(Reopened(c, head, named))
  {
    CostValid(c, head, named);
    if head.generation > c.head.generation {
      ReopenedValid(c, head, named);
    }
  }

  lemma DroppedIds(c: Cycle, head: Binding, named: set<string>, id: string)
    ensures id in Named(c, head, named).invalidatedAudits <==>
            exists a :: a in c.audits && a.criterion in named && a.id == id
  {
    var dropped := Picked(c.audits, named, true);
    var ids := AuditIds(dropped);
    assert id in Sort(ids, TextLe) <==> id in multiset(ids);
    if id in ids {
      var i :| 0 <= i < |ids| && ids[i] == id;
      PickedFrom(c.audits, named, true, dropped[i]);
    }
    if a :| a in c.audits && a.criterion in named && a.id == id {
      PickedFrom(c.audits, named, true, a);
      var i :| 0 <= i < |dropped| && dropped[i] == a;
      assert ids[i] == id;
    }
  }

  /** Of the rows before, exactly those whose criterion was not named, each as often as it was. */
  ghost predicate KeptOf(before: seq<Audit>, named: set<string>, after: seq<Audit>) {
    && multiset(after) <= multiset(before)
    && forall a :: a in after <==> a in before && a.criterion !in named
  }

  /** The criteria and rows lost are those named, and the criteria carried are the others held. */
  ghost predicate CostOf(c: Cycle, named: set<string>, v: Invalidation) {
    && (forall x :: x in v.invalidated <==> Holds(c, x) && x in named)
    && (forall x :: x in v.carried <==> Holds(c, x) && x !in named)
    && (forall id :: id in v.invalidatedAudits <==> exists a :: a in c.audits && a.criterion in named && a.id == id)
  }

  /**
    A rebase is made exactly onto a forward integration revision of the same batch. The cycle is checked
    anew there, with the repairs spent carried and exactly the rows whose criterion was not named, each as
    it was; the invalidation names the criteria and the rows lost, the criteria kept, and the move.
   */
  lemma RebasesExactly(c: Cycle, head: Binding, named: set<string>)
    requires ValidCycle(c)
    ensures Rebase(c, head, named).Ok? <==>
            Bound(head) && head.batch == c.batch && head.refKind == IntegrationRef
            && head.generation > c.head.generation
    ensures Rebase(c, head, named).Ok? ==>
              var (next, v) := Rebase(c, head, named).value;
              && ValidCycle(next) && KeptOf(c.audits, named, next.audits)
              && next == Cycle(c.batch, head, Checking, next.audits, c.spent, c.budget, None)
              && v.batch == c.batch && v.droppedFrom == c.stage
              && v.fromGeneration == c.head.generation && v.toGeneration == head.generation
              && CostOf(c, named, v)
  {
    HeadExact(c.batch, head);
    RebaseMade(c, head, named);
    if Rebase(c, head, named).Ok? {
      KeptRows(c, named);
      CostNamed(c, head, named);
    }
  }

  /** The rows kept by a head move. */
  lemma KeptRows(c: Cycle, named: set<string>)
    ensures KeptOf(c.audits, named, Picked(c.audits, named, false))
  {
    PickedPartition(c.audits, named);
    forall a ensures a in Picked(c.audits, named, false) <==> a in c.audits && a.criterion !in named {
      PickedFrom(c.audits, named, false, a);
    }
  }

  /** What a head move is said to cost. */
  lemma CostNamed(c: Cycle, head: Binding, named: set<string>)
    ensures CostOf(c, named, Named(c, head, named))
  {
    forall x ensures x in Named(c, head, named).invalidated <==> Holds(c, x) && x in named
             ensures x in Named(c, head, named).carried <==> Holds(c, x) && x !in named {
      CostPartitions(c, head, named, x);
    }
    forall id ensures id in Named(c, head, named).invalidatedAudits <==>
                      exists a :: a in c.audits && a.criterion in named && a.id == id {
      DroppedIds(c, head, named, id);
    }
  }

  // ---- runs ----------------------------------------------------------------

  datatype Step =
    | Moving(to: Stage, audits: Option<seq<Audit>>, exit: Option<Exit>, spend: bool)
    | HeadMove(head: Binding, named: set<string>)

  /** A step of the cycle; a refused step leaves it where it was. */
  function After(c: Cycle, s: Step): Cycle {
    match s
    case Moving(to, audits, exit, spend) =>
      (match Advance(c, to, audits, exit, spend) case Ok(next) => next case Err(_) => c)
    case HeadMove(head, named) =>
      match Rebase(c, head, named) case Ok(pair) => pair.0 case Err(_) => c
  }

  /** How many moves, spending moves and head moves a run has made. */
  datatype Count = Count(moves: nat, repairs: nat, rebases: nat)

  function Counted(c: Cycle, s: Step): Count {
    match s
    case Moving(to, audits, exit, spend) =>
      if Advance(c, to, audits, exit, spend).Ok? then Count(1, if spend then 1 else 0, 0) else Count(0, 0, 0)
    case HeadMove(head, named) => if Rebase(c, head, named).Ok? then Count(0, 0, 1) else Count(0, 0, 0)
  }

  function Run(c: Cycle, steps: seq<Step>): (Cycle, Count)
    decreases |steps|
  {
    if steps == [] then (c, Count(0, 0, 0))
    else
      var (last, rest) := Run(After(c, steps[0]), steps[1..]);
      var first := Counted(c, steps[0]);
      (last, Count(first.moves + rest.moves, first.repairs + rest.repairs, first.rebases + rest.rebases))
  }

  /** The most moves a stage has left on its head. */
  function MovesLeft(s: Stage): nat {
    match s
    case Checking => 3
    case AuditReview => 2
    case ChangesRequired => 1
    case _ => 0
  }

  lemma StepKeeps(c: Cycle, s: Step)
    requires ValidCycle(c)
    ensures var next, n := After(c, s), Counted(c, s);
            && ValidCycle(next) && next.batch == c.batch && next.budget == c.budget
            && next.spent == c.spent + n.repairs
            && next.head.generation >= c.head.generation + n.rebases
            && (n.rebases == 0 ==> next.head == c.head)
            && n.moves + MovesLeft(next.stage) <= MovesLeft(c.stage) + 3 * n.rebases
  {
    match s
    case Moving(to, audits, exit, spend) => AdvancesExactly(c, to, audits, exit, spend);
    case HeadMove(head, named) => RebaseMade(c, head, named);
  }

  /**
    Over every run: the cycle stays valid, and a merge-ready one has every required row proven; the repairs
    spent are the spending moves made and never pass the budget; each head move raises the ordinal; and
    k head moves leave room for at most 3(k + 1) moves.
   */
  lemma {:induction false} RunKeeps(c: Cycle, steps: seq<Step>)
    requires ValidCycle(c)
    ensures var (last, n) := Run(c, steps);
            && ValidCycle(last) && Standing(last) && last.batch == c.batch && last.budget == c.budget
            && last.spent == c.spent + n.repairs <= c.budget
            && last.head.generation >= c.head.generation + n.rebases
            && n.moves <= 3 * (n.rebases + 1)
            && n.moves + MovesLeft(last.stage) <= MovesLeft(c.stage) + 3 * n.rebases
    decreases |steps|
  {
    if steps == [] {
      StandingExact(c);
    } else {
      StepKeeps(c, steps[0]);
      RunKeeps(After(c, steps[0]), steps[1..]);
    }
  }

  /** A step that neither replaces the rows nor names the criterion. */
  predicate Spares(s: Step, criterion: string) {
    match s
    case Moving(_, audits, _, _) => audits.None?
    case HeadMove(_, named) => criterion !in named
  }

  lemma {:induction false} PickedKeepsRow(rows: seq<Audit>, named: set<string>, criterion: string)
    requires criterion !in named
    ensures AuditOf(Picked(rows, named, false), criterion) == AuditOf(rows, criterion)
  {
    if rows != [] {
      PickedKeepsRow(rows[1..], named, criterion);
      if rows[0].criterion !in named {
        assert Picked(rows, named, false) == [rows[0]] + Picked(rows[1..], named, false);
      } else {
        assert Picked(rows, named, false) == Picked(rows[1..], named, false);
      }
    }
  }

  /** A criterion no head move named keeps the very row it had, however often the head moved. */
  lemma {:induction false} UnnamedKeepsVerdict(c: Cycle, steps: seq<Step>, criterion: string)
    requires forall i | 0 <= i < |steps| :: Spares(steps[i], criterion)
    ensures AuditOf(Run(c, steps).0.audits, criterion) == AuditOf(c.audits, criterion)
    decreases |steps|
  {
    if steps != [] {
      assert Spares(steps[0], criterion);
      if steps[0].HeadMove? {
        PickedKeepsRow(c.audits, steps[0].named, criterion);
      }
      UnnamedKeepsVerdict(After(c, steps[0]), steps[1..], criterion);
    }
  }
}
