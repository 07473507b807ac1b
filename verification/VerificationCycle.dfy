/** Verifying a batch on the head it delivers: the walk of one cycle, and its life as the head moves. */
module VerificationCycle {
  import opened Values
  import opened Sorting
  import opened Revisions
  import opened BatchProof
  import Integration

  type Generation = Integration.Generation

  datatype Refusal =
    | AuditUncovered | ReviewerIsProducer | ExitUnnamed | ExitMistyped | CycleRule
    | AffectedSetUnbound | AuditUnbound | GenerationUnselected | NotChecking

  // ---- one walk ------------------------------------------------------------

  /** Every criterion only judgment can settle has been looked at. */
  predicate Covered(rows: seq<Audit>, judgment: seq<string>) {
    forall i | 0 <= i < |judgment| :: AuditOf(rows, judgment[i]).Some?
  }

  /** Every judgment criterion has a row. */
  ghost predicate AllHeld(rows: seq<Audit>, judgment: seq<string>) {
    forall x | x in judgment :: exists a :: a in rows && a.criterion == x
  }

  lemma {:induction false} RowOf(rows: seq<Audit>, x: string)
    ensures AuditOf(rows, x).Some? <==> exists a :: a in rows && a.criterion == x
    ensures AuditOf(rows, x).Some? ==> AuditOf(rows, x).value in rows && AuditOf(rows, x).value.criterion == x
  {
    if rows != [] {
      RowOf(rows[1..], x);
      if rows[0].criterion != x {
        assert forall a :: a in rows <==> a == rows[0] || a in rows[1..];
      }
    }
  }

  lemma CoveredHeld(rows: seq<Audit>, judgment: seq<string>)
    ensures Covered(rows, judgment) <==> AllHeld(rows, judgment)
  {
    if Covered(rows, judgment) {
      forall x | x in judgment ensures exists a :: a in rows && a.criterion == x {
        var i :| 0 <= i < |judgment| && judgment[i] == x;
        RowOf(rows, x);
      }
    }
    if AllHeld(rows, judgment) {
      forall i | 0 <= i < |judgment| ensures AuditOf(rows, judgment[i]).Some? {
        assert judgment[i] in judgment;
        RowOf(rows, judgment[i]);
      }
    }
  }

  function Settling(rows: seq<Audit>, judgment: seq<string>): seq<Audit>
    requires Covered(rows, judgment)
  {
    seq(|judgment|, i requires 0 <= i < |judgment| => AuditOf(rows, judgment[i]).value)
  }

  /** `_require_audit_coverage`. */
  method RequireAuditCoverage(c: Cycle, judgment: seq<string>) returns (r: Result<seq<Audit>, seq<string>>)
    ensures r.Ok? <==> AllHeld(c.audits, judgment)
    ensures r.Ok? ==> |r.value| == |judgment| && forall i | 0 <= i < |judgment| ::
                        r.value[i] in c.audits && r.value[i].criterion == judgment[i]
    ensures r.Err? ==> forall x :: x in r.error <==> x in judgment && forall a | a in c.audits :: a.criterion != x
  {
    var settling: seq<Audit>, missing: seq<string> := [], [];
    for i := 0 to |judgment|
      invariant missing == [] <==> Covered(c.audits, judgment[..i])
      invariant missing == [] ==> settling == Settling(c.audits, judgment[..i])
      invariant forall x :: x in missing <==> x in judgment[..i] && AuditOf(c.audits, x).None?
    {
      assert judgment[..i + 1] == judgment[..i] + [judgment[i]];
      var row := AuditOf(c.audits, judgment[i]);
      if row.None? {
        missing := missing + [judgment[i]];
        assert judgment[..i + 1][i] == judgment[i];
      } else {
        settling := settling + [row.value];
      }
    }
    assert judgment[..|judgment|] == judgment;
    CoveredHeld(c.audits, judgment);
    forall x ensures AuditOf(c.audits, x).None? <==> forall a | a in c.audits :: a.criterion != x
             ensures AuditOf(c.audits, x).Some? ==> AuditOf(c.audits, x).value in c.audits
                                                    && AuditOf(c.audits, x).value.criterion == x {
      RowOf(c.audits, x);
    }
    return if missing != [] then Err(missing) else Ok(settling);
  }

  type Exits = map<ExitKind, EntityRef>

  /** `_exit_of`: the typed way out of a kind, when the caller named one. */
  function ExitOf(kind: ExitKind, exits: Exits): Result<Exit, Refusal> {
    if kind !in exits then Err(ExitUnnamed)
    else if !ValidExit(Exit(kind, exits[kind])) then Err(ExitMistyped)
    else Ok(Exit(kind, exits[kind]))
  }

  function Ruled(r: Result<Cycle, string>): Result<Cycle, Refusal> {
    match r
    case Ok(c) => Ok(c)
    case Err(_) => Err(CycleRule)
  }

  /** `_open_repair_or_ask`. */
  function OpenRepairOrAsk(reviewed: Cycle, exits: Exits): Result<Cycle, Refusal> {
    match Advance(reviewed, ChangesRequired, None, None, false)
    case Err(_) => Err(CycleRule)
    case Ok(changes) =>
      if changes.spent < changes.budget then
        match ExitOf(RepairTask, exits)
        case Err(why) => Err(why)
        case Ok(exit) => Ruled(Advance(changes, Repair, None, Some(exit), true))
      else
        match ExitOf(AskOperator, exits)
        case Err(why) => Err(why)
        case Ok(exit) => Ruled(Advance(changes, OperatorDecision, None, Some(exit), false))
  }

  /** `decide_batch_verification`, as far as the cycle it returns. */
  function Walk(c: Cycle, judgment: seq<string>, exits: Exits): Result<Cycle, Refusal> {
    if c.stage != Checking then Err(NotChecking)
    else if !Covered(c.audits, judgment) then Err(AuditUncovered)
    else
      match Advance(c, AuditReview, None, None, false)
      case Err(_) => Err(CycleRule)
      case Ok(reviewed) =>
        if NoneBlock(reviewed.audits) then Ruled(Advance(reviewed, ReadyToMerge, None, None, false))
        else OpenRepairOrAsk(reviewed, exits)
  }

  /** The stage a covered cycle lands on. */
  ghost function Landing(c: Cycle): Stage {
    if AllProven(c.audits) then ReadyToMerge else if c.spent < c.budget then Repair else OperatorDecision
  }

  /** The cycle with a way out of `kind` opened on an entity of type `entity`, when the caller names one. */
  ghost function Opened(c: Cycle, kind: ExitKind, entity: EntityKind, exits: Exits): Result<Cycle, Refusal> {
    if kind !in exits then Err(ExitUnnamed)
    else if exits[kind].kind != entity then Err(ExitMistyped)
    else Ok(c.(exit := Some(Exit(kind, exits[kind]))))
  }

  /**
    From a valid cycle a walk breaks no rule. It is refused exactly when it starts midway, a judgment
    criterion has no row, or the way out it needs is missing or of the wrong kind. Otherwise it lands on
    merge readiness exactly when every required row is verified true, on one repair while the budget
    lasts, and on the operator after that, on the same head with the same rows.
   */
  lemma WalksExactly(c: Cycle, judgment: seq<string>, exits: Exits)
    requires ValidCycle(c)
    ensures Walk(c, judgment, exits) ==
            if c.stage != Checking then Err(NotChecking)
            else if !AllHeld(c.audits, judgment) then Err(AuditUncovered)
            else
              match Landing(c)
              case ReadyToMerge => Ok(c.(stage := ReadyToMerge))
              case Repair => Opened(c.(stage := Repair, spent := c.spent + 1), RepairTask, TaskEntity, exits)
              case _ => Opened(c.(stage := OperatorDecision), AskOperator, PendingAction, exits)
    ensures Walk(c, judgment, exits).Ok? ==> ValidCycle(Walk(c, judgment, exits).value)
  {
    CoveredHeld(c.audits, judgment);
    NoneBlockProven(c.audits);
    AdvancesExactly(c, AuditReview, None, None, false);
    if c.stage == Checking && Covered(c.audits, judgment) {
      var reviewed := Advance(c, AuditReview, None, None, false).value;
      AdvancesExactly(reviewed, ReadyToMerge, None, None, false);
      if !AllProven(c.audits) {
        RepairOrAsk(reviewed, exits);
      }
    }
  }

  /** What a walk that is not refused leaves of the cycle. */
  lemma WalkKeeps(c: Cycle, judgment: seq<string>, exits: Exits)
    requires ValidCycle(c) && Walk(c, judgment, exits).Ok?
    ensures var walked := Walk(c, judgment, exits).value;
            && ValidCycle(walked) && walked.batch == c.batch && walked.head == c.head && walked.audits == c.audits
            && walked.stage == Landing(c) && walked.budget == c.budget
            && walked.spent == c.spent + (if Landing(c) == Repair then 1 else 0)
            && c.stage == Checking && AllHeld(c.audits, judgment)
  {
    WalksExactly(c, judgment, exits);
  }

  lemma RepairOrAsk(reviewed: Cycle, exits: Exits)
    requires ValidCycle(reviewed) && reviewed.stage == AuditReview
    ensures OpenRepairOrAsk(reviewed, exits) ==
            if reviewed.spent < reviewed.budget
            then Opened(reviewed.(stage := Repair, spent := reviewed.spent + 1), RepairTask, TaskEntity, exits)
            else Opened(reviewed.(stage := OperatorDecision), AskOperator, PendingAction, exits)
    ensures OpenRepairOrAsk(reviewed, exits).Ok? ==> ValidCycle(OpenRepairOrAsk(reviewed, exits).value)
  {
    AdvancesExactly(reviewed, ChangesRequired, None, None, false);
    var changes := Advance(reviewed, ChangesRequired, None, None, false).value;
    var kind := if changes.spent < changes.budget then RepairTask else AskOperator;
    if kind in exits {
      var exit := Some(Exit(kind, exits[kind]));
      AdvancesExactly(changes, if kind == RepairTask then Repair else OperatorDecision, None, exit,
                      kind == RepairTask);
    }
  }

  // ---- rows a cycle holds --------------------------------------------------

  /** The last row of a criterion. */
  function LastFor(rows: seq<Audit>, criterion: string): Option<Audit> {
    if rows == [] then None
    else if rows[|rows| - 1].criterion == criterion then Some(rows[|rows| - 1])
    else LastFor(rows[..|rows| - 1], criterion)
  }

  /** Each item once, where it was first met. */
  function Unique(items: seq<string>): (u: seq<string>)
    ensures forall x :: x in u <==> x in items
  {
    if items == [] then []
    else
      var rest := Unique(items[..|items| - 1]);
      var last := items[|items| - 1];
      assert items == items[..|items| - 1] + [last];
      if last in rest then rest else rest + [last]
  }

  lemma {:induction false} LastForKnown(rows: seq<Audit>, criterion: string)
    ensures LastFor(rows, criterion).Some? <==> criterion in Criteria(rows)
    ensures LastFor(rows, criterion).Some? ==>
              LastFor(rows, criterion).value in rows && LastFor(rows, criterion).value.criterion == criterion
  {
    if rows != [] {
      var front := rows[..|rows| - 1];
      LastForKnown(front, criterion);
      assert Criteria(rows) == Criteria(front) + [rows[|rows| - 1].criterion];
    }
  }

  lemma {:induction false} LastForConcat(a: seq<Audit>, b: seq<Audit>, criterion: string)
    ensures LastFor(a + b, criterion) ==
            if LastFor(b, criterion).Some? then LastFor(b, criterion) else LastFor(a, criterion)
  {
    if b == [] {
      assert a + b == a;
    } else {
      assert (a + b)[..|a + b| - 1] == a + b[..|b| - 1];
      LastForConcat(a, b[..|b| - 1], criterion);
    }
  }

  /** The row of each listed criterion. */
  function RowsFor(rows: seq<Audit>, order: seq<string>): seq<Audit>
    requires forall i | 0 <= i < |order| :: LastFor(rows, order[i]).Some?
  {
    seq(|order|, i requires 0 <= i < |order| => LastFor(rows, order[i]).value)
  }

  /** The criteria held, in order. */
  function Ordered(rows: seq<Audit>): (order: seq<string>)
    ensures forall i | 0 <= i < |order| :: LastFor(rows, order[i]).Some?
    ensures forall x :: x in order <==> x in Criteria(rows)
  {
    var order := Sort(Unique(Criteria(rows)), TextLe);
    OrderedHolds(rows, order);
    order
  }

  lemma OrderedHolds(rows: seq<Audit>, order: seq<string>)
    requires multiset(order) == multiset(Unique(Criteria(rows)))
    ensures forall i | 0 <= i < |order| :: LastFor(rows, order[i]).Some?
    ensures forall x :: x in order <==> x in Criteria(rows)
  {
    forall x ensures x in order <==> x in Criteria(rows) {
      assert x in order <==> x in multiset(order);
      assert x in Unique(Criteria(rows)) <==> x in multiset(Unique(Criteria(rows)));
    }
    forall i | 0 <= i < |order| ensures LastFor(rows, order[i]).Some? {
      LastForKnown(rows, order[i]);
    }
  }

  /** `_merge_audits`: a presented verdict replaces a carried one; one row a criterion, by criterion. */
  function MergeAudits(carried: seq<Audit>, presented: seq<Audit>): seq<Audit> {
    RowsFor(carried + presented, Ordered(carried + presented))
  }

  lemma RowsForIn(rows: seq<Audit>, order: seq<string>, a: Audit)
    requires forall i | 0 <= i < |order| :: LastFor(rows, order[i]).Some?
    ensures a in RowsFor(rows, order) <==> a.criterion in order && LastFor(rows, a.criterion) == Some(a)
  {
    var found := RowsFor(rows, order);
    if a in found {
      var i :| 0 <= i < |found| && found[i] == a;
      LastForKnown(rows, order[i]);
    }
    if a.criterion in order && LastFor(rows, a.criterion) == Some(a) {
      var i :| 0 <= i < |order| && order[i] == a.criterion;
      assert found[i] == a;
    }
  }

  /** A merged row is its criterion's last presented one, or the carried one when none is presented. */
  lemma MergedFrom(carried: seq<Audit>, presented: seq<Audit>, a: Audit)
    ensures a in MergeAudits(carried, presented) <==>
            LastFor(presented, a.criterion) == Some(a)
            || (LastFor(presented, a.criterion).None? && LastFor(carried, a.criterion) == Some(a))
  {
    var all := carried + presented;
    RowsForIn(all, Ordered(all), a);
    LastForConcat(carried, presented, a.criterion);
    LastForKnown(all, a.criterion);
  }

  lemma {:induction false} UniqueDistinct(items: seq<string>)
    ensures Distinct(Unique(items))
  {
    if items != [] {
      UniqueDistinct(items[..|items| - 1]);
    }
  }

  lemma {:induction false} DistinctCount(s: seq<string>, x: string)
    requires Distinct(s)
    ensures multiset(s)[x] <= 1
  {
    if s != [] {
      assert s == [s[0]] + s[1..];
      DistinctCount(s[1..], x);
    }
  }

  lemma CountedTwice(s: seq<string>, i: nat, j: nat)
    requires i < j < |s| && s[i] == s[j]
    ensures multiset(s)[s[i]] >= 2
  {
    assert s == s[..j] + s[j..] && s[..j][i] == s[i] && s[j..][0] == s[i];
    assert s[i] in multiset(s[..j]) && s[i] in multiset(s[j..]);
    assert multiset(s) == multiset(s[..j]) + multiset(s[j..]);
  }

  /** Merged rows come one a criterion, in the order of their criteria. */
  lemma MergedInOrder(carried: seq<Audit>, presented: seq<Audit>, i: nat, j: nat)
    requires i < j < |MergeAudits(carried, presented)|
    ensures TextBefore(MergeAudits(carried, presented)[i].criterion, MergeAudits(carried, presented)[j].criterion)
  {
    var all := carried + presented;
    var held := Unique(Criteria(all));
    var order := Ordered(all);
    TextOrder();
    SortSorted(held, TextLe);
    LastForKnown(all, order[i]);
    LastForKnown(all, order[j]);
    TextLeExact(order[i], order[j]);
    if order[i] == order[j] {
      CountedTwice(order, i, j);
      UniqueDistinct(Criteria(all));
      DistinctCount(held, order[i]);
    }
  }
}
