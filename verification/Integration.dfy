/** Integration attempts, the generations they yield, and the linear history those form. */
module Integration {
  import opened Values
  import opened Sorting
  import opened Revisions

  datatype TaskRef = TaskRef(repository: RepositoryRef, key: string)

  // ---- attempts ------------------------------------------------------------

  datatype Status =
    | Queued | Preparing | Applying | VerifyingTree | Succeeded | Stale | Blocked | Failed | TimedOut | Cancelled

  /** `INTEGRATION_ATTEMPT_EDGES`. */
  function Edges(s: Status): set<Status> {
    match s
    case Queued => {Preparing, TimedOut, Cancelled}
    case Preparing => {Applying, Stale, Failed, TimedOut, Cancelled}
    case Applying => {VerifyingTree, Stale, Blocked, Failed, TimedOut}
    case VerifyingTree => {Succeeded, Stale, Failed}
    case _ => {}
  }

  predicate Terminal(s: Status) {
    Edges(s) == {}
  }

  datatype FailureKind = BaseMoved | PolicyMoved | Conflict | TreeMismatch | ScopeViolation | ApplyError

  function FailureKinds(s: Status): set<FailureKind> {
    match s
    case Stale => {BaseMoved, PolicyMoved}
    case Blocked => {Conflict}
    case Failed => {TreeMismatch, ScopeViolation, ApplyError}
    case _ => {}
  }

  /** What an attempt is about; no move touches it. */
  datatype Subject = Subject(id: string, batch: BatchRef, task: TaskRef, generation: nat, supersedes: Option<string>,
                             sourceBase: Binding, selectedBase: Binding, changedPaths: seq<string>,
                             claims: seq<string>, affectedCriteria: seq<string>)

  datatype Attempt = Attempt(subject: Subject, status: Status, failure: Option<FailureKind>,
                             diagnostic: Option<string>, requestedAt: int, updatedAt: int, terminalAt: Option<int>)

  predicate ValidSubject(s: Subject) {
    && s.task.repository == s.batch.repository
    && ValidBinding(s.sourceBase) && ValidBinding(s.selectedBase)
    && s.sourceBase.batch == s.batch && s.selectedBase.batch == s.batch
    && s.generation > s.selectedBase.generation
    && s.supersedes != Some(s.id)
    && s.changedPaths != [] && Distinct(s.changedPaths) && Distinct(s.claims) && Distinct(s.affectedCriteria)
  }

  predicate ValidOutcome(a: Attempt) {
    && (a.failure.None? ==> FailureKinds(a.status) == {})
    && (a.failure.Some? ==> a.failure.value in FailureKinds(a.status))
    && (a.diagnostic.Some? ==> Terminal(a.status))
    && (a.status == Blocked ==> a.diagnostic.Some?)
    && (Terminal(a.status) <==> a.terminalAt.Some?)
    && a.updatedAt >= a.requestedAt
    && (a.terminalAt.Some? ==> a.requestedAt <= a.terminalAt.value <= a.updatedAt)
  }

  /** The attempt validators. */
  predicate ValidAttempt(a: Attempt) {
    ValidSubject(a.subject) && ValidOutcome(a)
  }

  datatype Move = Move(to: Status, at: int, failure: Option<FailureKind>, diagnostic: Option<string>)

  /** `transition_attempt`. */
  function TransitionAttempt(a: Attempt, m: Move): Result<Attempt, string> {
    if m.to !in Edges(a.status) then Err("illegal transition")
    else if m.at < a.updatedAt then Err("an attempt cannot move back in time")
    else
      var moved := a.(status := m.to, failure := m.failure, diagnostic := m.diagnostic, updatedAt := m.at,
                      terminalAt := if Terminal(m.to) then Some(m.at) else None);
      if ValidAttempt(moved) then Ok(moved) else Err("the moved attempt is not valid")
  }

  // ---- what an attempt can do, move by move ---------------------------------

  /** The moves there are. */
  ghost predicate MayMove(from: Status, to: Status) {
    match from
    case Queued => to.Preparing? || to.TimedOut? || to.Cancelled?
    case Preparing => to.Applying? || to.Stale? || to.Failed? || to.TimedOut? || to.Cancelled?
    case Applying => to.VerifyingTree? || to.Stale? || to.Blocked? || to.Failed? || to.TimedOut?
    case VerifyingTree => to.Succeeded? || to.Stale? || to.Failed?
    case _ => false
  }

  /** The statuses that are ends. */
  ghost predicate Ended(s: Status) {
    s.Succeeded? || s.Stale? || s.Blocked? || s.Failed? || s.TimedOut? || s.Cancelled?
  }

  /** The outcome detail a status admits: a failure kind of its own, and a diagnostic only at the end. */
  ghost predicate Explained(to: Status, failure: Option<FailureKind>, diagnostic: Option<string>) {
    && (failure.Some? <==> to.Stale? || to.Blocked? || to.Failed?)
    && (to.Stale? ==> failure.value.BaseMoved? || failure.value.PolicyMoved?)
    && (to.Blocked? ==> failure.value.Conflict? && diagnostic.Some?)
    && (to.Failed? ==> failure.value.TreeMismatch? || failure.value.ScopeViolation? || failure.value.ApplyError?)
    && (diagnostic.Some? ==> Ended(to))
  }

  ghost predicate NoRepeat(items: seq<string>) {
    forall i, j | 0 <= i < j < |items| :: items[i] != items[j]
  }

  /** An attempt to pass its batch's selected base, on bases of that batch, by a task of its repository. */
  ghost predicate Aimed(s: Subject) {
    && s.task.repository == s.batch.repository
    && Bound(s.sourceBase) && s.sourceBase.batch == s.batch
    && Bound(s.selectedBase) && s.selectedBase.batch == s.batch
    && s.selectedBase.generation < s.generation
    && (s.supersedes.Some? ==> s.supersedes.value != s.id)
    && |s.changedPaths| > 0 && NoRepeat(s.changedPaths) && NoRepeat(s.claims) && NoRepeat(s.affectedCriteria)
  }

  /** An attempt that may be on record: aimed, explained, and ended exactly when its status is an end. */
  ghost predicate OnRecord(a: Attempt) {
    && Aimed(a.subject) && Explained(a.status, a.failure, a.diagnostic) && a.requestedAt <= a.updatedAt
    && (a.terminalAt.Some? <==> Ended(a.status))
    && (Ended(a.status) ==> a.requestedAt <= a.terminalAt.value <= a.updatedAt)
  }

  lemma EdgesExact(s: Status)
    ensures forall to :: to in Edges(s) <==> MayMove(s, to)
    ensures Terminal(s) <==> Ended(s)
  {
    if !Ended(s) {
      assert TimedOut in Edges(s) || Stale in Edges(s);
    }
  }

  lemma FailureKindsExact(s: Status)
    ensures FailureKinds(s) == {} <==> !(s.Stale? || s.Blocked? || s.Failed?)
  {
    assert BaseMoved in FailureKinds(Stale) && Conflict in FailureKinds(Blocked);
    assert TreeMismatch in FailureKinds(Failed);
  }

  lemma AimedExact(s: Subject)
    ensures ValidSubject(s) <==> Aimed(s)
  {
    BoundExact(s.sourceBase);
    BoundExact(s.selectedBase);
  }

  /** The attempt validators accept exactly the attempts that may be on record. */
  lemma AttemptExact(a: Attempt)
    ensures ValidAttempt(a) <==> OnRecord(a)
  {
    AimedExact(a.subject);
    EdgesExact(a.status);
    FailureKindsExact(a.status);
  }

  /**
    A move is made exactly where there is one, forward in time and with the detail its target asks for; it sets
    the status, the detail and the clocks, and nothing else.
   */
  lemma MovesExactly(a: Attempt, m: Move)
    requires ValidAttempt(a)
    ensures var moved := TransitionAttempt(a, m);
            && (moved.Ok? <==>
                  MayMove(a.status, m.to) && a.updatedAt <= m.at && Explained(m.to, m.failure, m.diagnostic))
            && (moved.Ok? ==>
                  && moved.value == Attempt(a.subject, m.to, m.failure, m.diagnostic, a.requestedAt, m.at,
                                            if Ended(m.to) then Some(m.at) else None)
                  && OnRecord(moved.value))
  {
    AttemptExact(a);
    EdgesExact(a.status);
    EdgesExact(m.to);
    AttemptExact(Attempt(a.subject, m.to, m.failure, m.diagnostic, a.requestedAt, m.at,
                         if Ended(m.to) then Some(m.at) else None));
  }

  /** The attempt as it was on record over a run of asked moves, a refused one leaving it where it was. */
  function Driven(a: Attempt, moves: seq<Move>): seq<Attempt>
    decreases |moves|
  {
    if moves == [] then [a]
    else
      match TransitionAttempt(a, moves[0])
      case Err(_) => Driven(a, moves[1..])
      case Ok(moved) => [a] + Driven(moved, moves[1..])
  }

  /** How many moves an attempt can still make. */
  ghost function Rank(s: Status): nat {
    match s
    case Queued => 4
    case Preparing => 3
    case Applying => 2
    case VerifyingTree => 1
    case _ => 0
  }

  /** `later` is the same attempt, moved once. */
  ghost predicate MovedOnce(earlier: Attempt, later: Attempt) {
    && later.subject == earlier.subject && later.requestedAt == earlier.requestedAt
    && MayMove(earlier.status, later.status) && earlier.updatedAt <= later.updatedAt
  }

  /**
    Whatever is asked of an attempt it stays valid and about the same subject, moves where there is a move and
    forward in time, four times at most, and once ended never changes again.
   */
  lemma {:induction false} AttemptSettles(a: Attempt, moves: seq<Move>)
    requires ValidAttempt(a)
    ensures var trail := Driven(a, moves);
            && 1 <= |trail| <= 1 + Rank(a.status) <= 5 && trail[0] == a
            && (forall i | 0 <= i < |trail| :: OnRecord(trail[i]))
            && (forall i | 0 < i < |trail| :: MovedOnce(trail[i - 1], trail[i]))
            && (Ended(a.status) ==> trail == [a])
    decreases |moves|
  {
    AttemptExact(a);
    if moves != [] {
      var next := TransitionAttempt(a, moves[0]);
      if next.Ok? {
        MovesExactly(a, moves[0]);
        AttemptSettles(next.value, moves[1..]);
        var rest := Driven(next.value, moves[1..]);
        var trail := [a] + rest;
        assert forall i | 0 < i < |trail| :: trail[i] == rest[i - 1];
      } else {
        AttemptSettles(a, moves[1..]);
      }
    }
  }

  // ---- generations ---------------------------------------------------------

  /** The candidate that was integrated, by its digests. */
  datatype Content = Content(bundle: string, patch: string, diff: string, tree: string, policy: string)

  datatype Generation = Generation(id: string, batch: BatchRef, ordinal: nat, parent: Option<string>,
                                   sourceBase: Binding, targetBase: Binding, integrated: Binding, content: Content,
                                   changedPaths: seq<string>, affectedTasks: seq<TaskRef>,
                                   affectedCriteria: seq<string>, selected: bool, createdAt: int)

  /** The generation validators: every revision is this batch's, and the bound ordinals fit this one. */
  predicate ValidGeneration(g: Generation) {
    && ValidBinding(g.sourceBase) && ValidBinding(g.targetBase) && ValidBinding(g.integrated)
    && g.ordinal >= 1 && g.changedPaths != []
    && g.sourceBase.batch == g.batch && g.targetBase.batch == g.batch && g.integrated.batch == g.batch
    && g.integrated.generation == g.ordinal && g.integrated.refKind == IntegrationRef
    && g.targetBase.generation < g.ordinal
    && (forall i | 0 <= i < |g.affectedTasks| :: g.affectedTasks[i].repository == g.batch.repository)
    && g.parent != Some(g.id)
    && Distinct(g.changedPaths) && Distinct(g.affectedTasks) && Distinct(g.affectedCriteria)
  }

  /** A generation of its batch, past the base it was applied on and bound on the integration ref. */
  ghost predicate Sealed(g: Generation) {
    && Bound(g.sourceBase) && Bound(g.targetBase) && Bound(g.integrated)
    && g.sourceBase.batch == g.batch && g.targetBase.batch == g.batch && g.integrated.batch == g.batch
    && g.targetBase.generation < g.ordinal == g.integrated.generation && g.integrated.refKind.IntegrationRef?
    && (forall i | 0 <= i < |g.affectedTasks| :: g.affectedTasks[i].repository == g.batch.repository)
    && (g.parent.Some? ==> g.parent.value != g.id)
    && |g.changedPaths| > 0 && NoRepeat(g.changedPaths) && NoRepeat(g.affectedCriteria)
    && (forall i, j | 0 <= i < j < |g.affectedTasks| :: g.affectedTasks[i] != g.affectedTasks[j])
  }

  /** The generation validators accept exactly the sealed generations. */
  lemma GenerationExact(g: Generation)
    ensures ValidGeneration(g) <==> Sealed(g)
  {
    BoundExact(g.sourceBase);
    BoundExact(g.targetBase);
    BoundExact(g.integrated);
  }

  predicate AllValid(gens: seq<Generation>) {
    forall i | 0 <= i < |gens| :: ValidGeneration(gens[i])
  }

  function Ids(gens: seq<Generation>): seq<string> {
    seq(|gens|, i requires 0 <= i < |gens| => gens[i].id)
  }

  /** `later` was parented on, applied over, and follows `earlier`. */
  predicate Succeeds(earlier: Generation, later: Generation) {
    && later.parent == Some(earlier.id)
    && later.ordinal > earlier.ordinal
    && later.targetBase.generation == earlier.ordinal
    && later.createdAt >= earlier.createdAt
  }

  /** A history without its selection: one batch, distinct ids, each generation on the one before it. */
  predicate Line(batch: BatchRef, gens: seq<Generation>) {
    && AllValid(gens)
    && Distinct(Ids(gens))
    && (forall i | 0 <= i < |gens| :: gens[i].batch == batch)
    && (gens != [] ==> gens[0].parent == None)
    && (forall i | 0 < i < |gens| :: Succeeds(gens[i - 1], gens[i]))
  }

  /** The ledger validators: a line whose newest generation, and no other, is selected. */
  predicate Linear(batch: BatchRef, gens: seq<Generation>) {
    Line(batch, gens) && forall i | 0 <= i < |gens| :: gens[i].selected <==> i == |gens| - 1
  }

  function SelectedIds(gens: seq<Generation>): seq<string> {
    if gens == [] then []
    else SelectedIds(gens[..|gens| - 1]) + if gens[|gens| - 1].selected then [gens[|gens| - 1].id] else []
  }

  lemma {:induction false} SelectedFrom(gens: seq<Generation>, id: string)
    requires id in SelectedIds(gens)
    ensures id in Ids(gens)
  {
    var last := |gens| - 1;
    if id in SelectedIds(gens[..last]) {
      SelectedFrom(gens[..last], id);
      assert Ids(gens)[..last] == Ids(gens[..last]);
    } else {
      assert Ids(gens)[last] == id;
    }
  }

  lemma {:induction false} NoneSelected(gens: seq<Generation>, n: nat)
    requires n <= |gens|
    ensures SelectedIds(gens[..n]) == [] <==> forall i | 0 <= i < n :: !gens[i].selected
  {
    if n > 0 {
      assert gens[..n][..n - 1] == gens[..n - 1];
      NoneSelected(gens, n - 1);
    }
  }

  /** The newest id is no older generation's. */
  lemma NewestIdIsNew(gens: seq<Generation>)
    requires gens != [] && Distinct(Ids(gens))
    ensures gens[|gens| - 1].id !in SelectedIds(gens[..|gens| - 1])
  {
    var last := |gens| - 1;
    assert Ids(gens[..last]) == Ids(gens)[..last] && Ids(gens)[last] == gens[last].id;
    if gens[last].id in SelectedIds(gens[..last]) {
      SelectedFrom(gens[..last], gens[last].id);
      assert false;
    }
  }

  lemma NewestSelected(gens: seq<Generation>)
    requires gens != [] && gens[|gens| - 1].selected
    requires forall i | 0 <= i < |gens| - 1 :: !gens[i].selected
    ensures SelectedIds(gens) == [gens[|gens| - 1].id]
  {
    NoneSelected(gens, |gens| - 1);
  }

  lemma SelectedIsNewest(gens: seq<Generation>)
    requires gens != [] && Distinct(Ids(gens)) && SelectedIds(gens) == [gens[|gens| - 1].id]
    ensures gens[|gens| - 1].selected
    ensures forall i | 0 <= i < |gens| - 1 :: !gens[i].selected
  {
    var last := |gens| - 1;
    NewestIdIsNew(gens);
    if gens[last].selected {
      assert |SelectedIds(gens)| == |SelectedIds(gens[..last])| + 1;
    }
    NoneSelected(gens, last);
  }

  /** With distinct ids, the selected ids are the newest's alone exactly when only the newest is selected. */
  lemma SelectedNewest(gens: seq<Generation>)
    requires gens != [] && Distinct(Ids(gens))
    ensures SelectedIds(gens) == [gens[|gens| - 1].id] <==>
            forall i | 0 <= i < |gens| :: gens[i].selected <==> i == |gens| - 1
  {
    if SelectedIds(gens) == [gens[|gens| - 1].id] {
      SelectedIsNewest(gens);
    } else if forall i | 0 <= i < |gens| :: gens[i].selected <==> i == |gens| - 1 {
      NewestSelected(gens);
    }
  }

  /** `_history_is_linear`. */
  method HistoryIsLinear(batch: BatchRef, gens: seq<Generation>) returns (ok: bool)
    requires AllValid(gens)
    ensures ok <==> Linear(batch, gens)
  {
    var distinct := RejectDuplicates(Ids(gens));
    if !distinct {
      return false;
    }
    var previous: Option<Generation> := None;
    for index := 0 to |gens|
      invariant previous == if index == 0 then None else Some(gens[index - 1])
      invariant forall i | 0 <= i < index :: gens[i].batch == batch
      invariant index > 0 ==> gens[0].parent == None
      invariant forall i | 0 < i < index :: Succeeds(gens[i - 1], gens[i])
    {
      var item := gens[index];
      if item.batch != batch {
        return false;
      }
      var expected := if previous.Some? then Some(previous.value.id) else None;
      if item.parent != expected {
        return false;
      }
      if previous.Some? {
        if item.ordinal <= previous.value.ordinal {
          return false;
        }
        if item.targetBase.generation != previous.value.ordinal {
          return false;
        }
        if item.createdAt < previous.value.createdAt {
          return false;
        }
      }
      previous := Some(item);
    }
    if gens != [] {
      SelectedNewest(gens);
    }
    return gens == [] || SelectedIds(gens) == [gens[|gens| - 1].id];
  }

  // ---- what the local checks amount to -------------------------------------

  /** Ordinals strictly grow between any two generations, near or far, and never lag the count. */
  lemma {:induction false} OrdinalsGrow(batch: BatchRef, gens: seq<Generation>, i: nat, j: nat)
    requires Line(batch, gens) && i < j < |gens|
    ensures gens[i].ordinal + (j - i) <= gens[j].ordinal
    ensures gens[i].createdAt <= gens[j].createdAt
    decreases j
  {
    assert Succeeds(gens[j - 1], gens[j]);
    if i < j - 1 {
      OrdinalsGrow(batch, gens, i, j - 1);
    }
  }

  /** The place of an id, found by search. */
  function IndexOfId(gens: seq<Generation>, id: string): Option<nat> {
    if gens == [] then None
    else if gens[0].id == id then Some(0)
    else match IndexOfId(gens[1..], id)
         case None => None
         case Some(i) => Some(i + 1)
  }

  lemma {:induction false} IndexFound(gens: seq<Generation>, i: nat)
    requires i < |gens|
    requires forall j | 0 <= j < |gens| && j != i :: gens[j].id != gens[i].id
    ensures IndexOfId(gens, gens[i].id) == Some(i)
  {
    if i > 0 {
      assert gens[0].id != gens[i].id;
      assert gens[1..][i - 1] == gens[i];
      forall j | 0 <= j < |gens[1..]| && j != i - 1 ensures gens[1..][j].id != gens[i].id {
        assert gens[1..][j] == gens[j + 1];
      }
      IndexFound(gens[1..], i - 1);
    }
  }

  lemma ParentFound(batch: BatchRef, gens: seq<Generation>, i: nat)
    requires Line(batch, gens) && i < |gens|
    ensures gens[i].parent == if i == 0 then None else Some(gens[i - 1].id)
    ensures i > 0 ==> IndexOfId(gens, gens[i].parent.value) == Some(i - 1)
  {
    if i > 0 {
      assert Succeeds(gens[i - 1], gens[i]);
      forall j | 0 <= j < |gens| && j != i - 1 ensures gens[j].id != gens[i - 1].id {
        assert Ids(gens)[j] == gens[j].id && Ids(gens)[i - 1] == gens[i - 1].id;
      }
      IndexFound(gens, i - 1);
    }
  }

  /** The generations met by following parent ids from the one at `i`, itself included. */
  function Ancestry(batch: BatchRef, gens: seq<Generation>, i: nat): seq<Generation>
    requires Line(batch, gens) && i < |gens|
    decreases i
  {
    ParentFound(batch, gens, i);
    match gens[i].parent
    case None => [gens[i]]
    case Some(id) => [gens[i]] + Ancestry(batch, gens, IndexOfId(gens, id).value)
  }

  function Reversed<T>(s: seq<T>): seq<T> {
    if s == [] then [] else [s[|s| - 1]] + Reversed(s[..|s| - 1])
  }

  lemma {:induction false} AncestryPrefix(batch: BatchRef, gens: seq<Generation>, i: nat)
    requires Line(batch, gens) && i < |gens|
    ensures Ancestry(batch, gens, i) == Reversed(gens[..i + 1])
    decreases i
  {
    ParentFound(batch, gens, i);
    assert gens[..i + 1][..i] == gens[..i];
    if i > 0 {
      AncestryPrefix(batch, gens, i - 1);
    } else {
      assert Reversed(gens[..0]) == [];
    }
  }

  /** Following parent ids from the selected head visits every generation exactly once, newest first. */
  lemma HeadReachesAll(batch: BatchRef, gens: seq<Generation>)
    requires Linear(batch, gens) && gens != []
    ensures Ancestry(batch, gens, |gens| - 1) == Reversed(gens)
  {
    AncestryPrefix(batch, gens, |gens| - 1);
    assert gens[..|gens|] == gens;
  }

  /** Every generation but the first was applied on exactly the code its predecessor integrated. */
  lemma AppliedOnPredecessor(batch: BatchRef, gens: seq<Generation>, i: nat)
    requires Line(batch, gens) && 0 < i < |gens|
    ensures gens[i].targetBase.generation == gens[i - 1].integrated.generation
    ensures forall j | 0 <= j < |gens| && j != i - 1 :: gens[j].ordinal != gens[i].targetBase.generation
  {
    assert Succeeds(gens[i - 1], gens[i]);
    forall j | 0 <= j < |gens| && j != i - 1 ensures gens[j].ordinal != gens[i].targetBase.generation {
      if j < i - 1 {
        OrdinalsGrow(batch, gens, j, i - 1);
      } else {
        OrdinalsGrow(batch, gens, i - 1, j);
      }
    }
  }

  // ---- selecting the next generation ---------------------------------------

  /** The history with its head released. */
  function Released(gens: seq<Generation>): seq<Generation> {
    if gens == [] then [] else gens[|gens| - 1 := gens[|gens| - 1].(selected := false)]
  }

  /** `select_generation`. */
  function SelectGeneration(batch: BatchRef, gens: seq<Generation>, g: Generation): Result<seq<Generation>, string> {
    if !g.selected then Err("a generation must be selected to become the head")
    else
      var history := Released(gens) + [g];
      if Linear(batch, history) then Ok(history) else Err("the history is not linear")
  }

  /** `g` continues the history: a new id of this batch, on top of the head if there is one. */
  ghost predicate Continues(batch: BatchRef, gens: seq<Generation>, g: Generation) {
    && Sealed(g) && g.batch == batch
    && (forall i | 0 <= i < |gens| :: gens[i].id != g.id)
    && (if |gens| == 0 then g.parent.None?
        else var head := gens[|gens| - 1];
             && g.parent == Some(head.id) && g.targetBase.generation == head.ordinal
             && head.ordinal < g.ordinal && head.createdAt <= g.createdAt)
  }

  lemma LineReleased(batch: BatchRef, gens: seq<Generation>)
    requires Line(batch, gens)
    ensures Line(batch, Released(gens)) && Ids(Released(gens)) == Ids(gens)
  {
    var released := Released(gens);
    assert Ids(released) == Ids(gens);
    forall i | 0 < i < |released| ensures Succeeds(released[i - 1], released[i]) {
      assert Succeeds(gens[i - 1], gens[i]);
    }
  }

  lemma LineSnoc(batch: BatchRef, gens: seq<Generation>, g: Generation)
    requires Line(batch, gens)
    ensures Line(batch, gens + [g]) <==> Continues(batch, gens, g)
  {
    var longer := gens + [g];
    assert Ids(longer) == Ids(gens) + [g.id];
    DistinctSnoc(Ids(gens), g.id);
    GenerationExact(g);
    assert longer[|gens|] == g;
    if Continues(batch, gens, g) {
      forall i | 0 < i < |longer| ensures Succeeds(longer[i - 1], longer[i]) {
        assert i < |gens| ==> Succeeds(gens[i - 1], gens[i]);
      }
    }
    if Line(batch, longer) {
      forall i | 0 <= i < |gens| ensures gens[i].id != g.id {
        assert Ids(gens)[i] == gens[i].id;
      }
      if gens != [] {
        assert Succeeds(longer[|gens| - 1], longer[|gens|]);
      }
    }
  }

  lemma ContinuesReleased(batch: BatchRef, gens: seq<Generation>, g: Generation)
    ensures Continues(batch, Released(gens), g) <==> Continues(batch, gens, g)
  {
    forall i | 0 <= i < |gens| ensures Released(gens)[i].id == gens[i].id {
    }
  }

  /**
    A generation becomes the head exactly when it is selected and continues the history; the generations before
    it stay as they were, none of them selected any more.
   */
  lemma SelectsExactly(batch: BatchRef, gens: seq<Generation>, g: Generation)
    requires Linear(batch, gens)
    ensures var next := SelectGeneration(batch, gens, g);
            && (next.Ok? <==> g.selected && Continues(batch, gens, g))
            && (next.Ok? ==>
                  && |next.value| == |gens| + 1 && next.value[|gens|] == g
                  && forall i | 0 <= i < |gens| :: next.value[i] == gens[i].(selected := false))
  {
    LineReleased(batch, gens);
    LineSnoc(batch, Released(gens), g);
    ContinuesReleased(batch, gens, g);
    var history := Released(gens) + [g];
    assert forall i | 0 <= i < |gens| :: history[i] == Released(gens)[i];
  }

  /** A generation applied on, or parented on, any generation but the head cannot join. */
  lemma SupersededBaseRefused(batch: BatchRef, gens: seq<Generation>, i: nat, g: Generation)
    requires Linear(batch, gens) && i < |gens| - 1
    requires g.targetBase.generation == gens[i].ordinal || g.parent == Some(gens[i].id)
    ensures SelectGeneration(batch, gens, g).Err?
  {
    SelectsExactly(batch, gens, g);
    OrdinalsGrow(batch, gens, i, |gens| - 1);
    assert Ids(gens)[i] == gens[i].id && Ids(gens)[|gens| - 1] == gens[|gens| - 1].id;
  }

  /** The history after a run of selections, refused ones leaving it as it was. */
  function Grown(batch: BatchRef, gens: seq<Generation>, offered: seq<Generation>): seq<Generation>
    decreases |offered|
  {
    if offered == [] then gens
    else
      match SelectGeneration(batch, gens, offered[0])
      case Err(_) => Grown(batch, gens, offered[1..])
      case Ok(next) => Grown(batch, next, offered[1..])
  }

  /** Every generation of `gens` is in `later` at its place, altered in its selection at most. */
  ghost predicate KeptIn(gens: seq<Generation>, later: seq<Generation>) {
    && |gens| <= |later|
    && forall i | 0 <= i < |gens| :: later[i] == gens[i].(selected := later[i].selected)
  }

  lemma KeptInChains(a: seq<Generation>, b: seq<Generation>, c: seq<Generation>)
    requires KeptIn(a, b) && KeptIn(b, c)
    ensures KeptIn(a, c)
  {
    forall i | 0 <= i < |a| ensures c[i] == a[i].(selected := c[i].selected) {
      assert b[i] == a[i].(selected := b[i].selected) && c[i] == b[i].(selected := c[i].selected);
    }
  }

  lemma SelectionKeeps(batch: BatchRef, gens: seq<Generation>, g: Generation)
    requires SelectGeneration(batch, gens, g).Ok?
    ensures var next := SelectGeneration(batch, gens, g).value;
            Linear(batch, next) && |next| == |gens| + 1 && KeptIn(gens, next)
  {
  }

  /** Over any run of selections the history stays linear, and no generation in it is lost or altered. */
  lemma {:induction false} HistoryOnlyGrows(batch: BatchRef, gens: seq<Generation>, offered: seq<Generation>)
    requires Linear(batch, gens)
    ensures var grown := Grown(batch, gens, offered);
            Linear(batch, grown) && |grown| <= |gens| + |offered| && KeptIn(gens, grown)
    decreases |offered|
  {
    if offered != [] {
      match SelectGeneration(batch, gens, offered[0])
      case Err(_) => HistoryOnlyGrows(batch, gens, offered[1..]);
      case Ok(next) =>
        SelectionKeeps(batch, gens, offered[0]);
        HistoryOnlyGrows(batch, next, offered[1..]);
        KeptInChains(gens, next, Grown(batch, next, offered[1..]));
    }
  }
}
