/** One ceiling over the input window that every prompt consumer shares. */
module PromptBudget {
  import opened Values
  import opened Sorting

  datatype ClassId = SteeringZone1 | SteeringZone2 | MemoryInjection | TaskPacket | AuthorityCapsule | ToolCatalog

  const ALL_CLASSES: set<ClassId> :=
    {SteeringZone1, SteeringZone2, MemoryInjection, TaskPacket, AuthorityCapsule, ToolCatalog}

  const UNDROPPABLE: set<ClassId> := {AuthorityCapsule, TaskPacket}

  datatype Allocation = Allocation(id: ClassId, maxTokens: nat, maxBytes: Option<nat>, priority: nat, measured: bool)

  datatype Policy = Policy(window: nat, reserved: nat, allocations: seq<Allocation>, degrades: bool)

  datatype Size = Size(id: ClassId, tokens: Option<nat>, bytes: Option<nat>)

  datatype Status = Within | Exhausted | Dropped | Unavailable

  datatype Verdict = Verdict(id: ClassId, status: Status, ceilingTokens: nat, ceilingBytes: Option<nat>,
                             tokens: Option<nat>, bytes: Option<nat>)

  datatype Outcome = Outcome(admitted: bool, verdicts: seq<Verdict>, exhausted: seq<ClassId>, dropped: seq<ClassId>)

  // ---- the policy ----------------------------------------------------------

  function SumTokens(allocations: seq<Allocation>): nat {
    if allocations == [] then 0 else allocations[0].maxTokens + SumTokens(allocations[1..])
  }

  predicate Total(allocations: seq<Allocation>) {
    && (forall i, j | 0 <= i < j < |allocations| :: allocations[i].id != allocations[j].id)
    && (forall c | c in ALL_CLASSES :: exists i | 0 <= i < |allocations| :: allocations[i].id == c)
  }

  /** The policy validator: one row a class, fitting the usable window, the capsule on top. */
  predicate ValidPolicy(p: Policy) {
    && p.window >= p.reserved + 1
    && Total(p.allocations)
    && SumTokens(p.allocations) <= p.window - p.reserved
    && (forall i, j | 0 <= i < |p.allocations| && 0 <= j < |p.allocations| && p.allocations[j].id == AuthorityCapsule ::
          p.allocations[i].priority <= p.allocations[j].priority)
  }

  ghost predicate HasRow(rows: seq<Allocation>, c: ClassId) {
    exists a :: a in rows && a.id == c
  }

  /** Each of the six classes has a row, and no class has two. */
  ghost predicate OneRowEach(rows: seq<Allocation>) {
    && HasRow(rows, SteeringZone1) && HasRow(rows, SteeringZone2) && HasRow(rows, MemoryInjection)
    && HasRow(rows, TaskPacket) && HasRow(rows, AuthorityCapsule) && HasRow(rows, ToolCatalog)
    && forall i, j | 0 <= i < j < |rows| :: rows[i].id != rows[j].id
  }

  lemma RowsExact(rows: seq<Allocation>)
    ensures Total(rows) <==> OneRowEach(rows)
  {
    forall c ensures HasRow(rows, c) <==> exists i | 0 <= i < |rows| :: rows[i].id == c {
      if i :| 0 <= i < |rows| && rows[i].id == c {
        assert rows[i] in rows;
      }
    }
  }

  /** No row has a higher priority than the authority capsule's. */
  ghost predicate CapsuleOnTop(rows: seq<Allocation>) {
    forall a, b | a in rows && b in rows && b.id == AuthorityCapsule :: a.priority <= b.priority
  }

  /** One row for each of the six classes, room for all of them beside the reserved output, the capsule on top. */
  lemma PolicyExact(p: Policy)
    ensures ValidPolicy(p) <==>
            && p.reserved < p.window && p.reserved + SumTokens(p.allocations) <= p.window
            && OneRowEach(p.allocations) && CapsuleOnTop(p.allocations)
  {
    RowsExact(p.allocations);
    assert forall i | 0 <= i < |p.allocations| :: p.allocations[i] in p.allocations;
  }

  // ---- judging -------------------------------------------------------------

  type Reported = map<ClassId, Size>

  /** `_status`: one class on its measured size alone. */
  function Judge(a: Allocation, size: Option<Size>): Status {
    if !a.measured || size.None? then Unavailable
    else
      var s := size.value;
      var overTokens := s.tokens.Some? && s.tokens.value > a.maxTokens;
      var overBytes := a.maxBytes.Some? && s.bytes.Some? && s.bytes.value > a.maxBytes.value;
      if overTokens || overBytes then Exhausted
      else if s.tokens.Some? && (a.maxBytes.None? || s.bytes.Some?) then Within
      else Unavailable
  }

  function SizeOf(reported: Reported, c: ClassId): Option<Size> {
    if c in reported then Some(reported[c]) else None
  }

  predicate IsDropped(p: Policy, reported: Reported, a: Allocation) {
    p.degrades && Judge(a, SizeOf(reported, a.id)) == Exhausted && a.id !in UNDROPPABLE
  }

  function ByPriority(a: Allocation, b: Allocation): bool {
    a.priority <= b.priority
  }

  /** The ids of the rows that are dropped, in the order given. */
  function DroppedIds(p: Policy, reported: Reported, rows: seq<Allocation>): seq<ClassId> {
    if rows == [] then []
    else (if IsDropped(p, reported, rows[0]) then [rows[0].id] else []) + DroppedIds(p, reported, rows[1..])
  }

  function VerdictOf(p: Policy, reported: Reported, dropped: seq<ClassId>, a: Allocation): Verdict {
    var size := SizeOf(reported, a.id);
    Verdict(a.id, if a.id in dropped then Dropped else Judge(a, size), a.maxTokens, a.maxBytes,
            if size.Some? then size.value.tokens else None, if size.Some? then size.value.bytes else None)
  }

  function Verdicts(p: Policy, reported: Reported, dropped: seq<ClassId>): seq<Verdict> {
    seq(|p.allocations|, i requires 0 <= i < |p.allocations| => VerdictOf(p, reported, dropped, p.allocations[i]))
  }

  function IdsWith(verdicts: seq<Verdict>, status: Status): seq<ClassId> {
    if verdicts == [] then []
    else (if verdicts[0].status == status then [verdicts[0].id] else []) + IdsWith(verdicts[1..], status)
  }

  function Evaluated(p: Policy, reported: Reported): Outcome {
    var dropped := DroppedIds(p, reported, Sort(p.allocations, ByPriority));
    var verdicts := Verdicts(p, reported, dropped);
    var exhausted := IdsWith(verdicts, Exhausted);
    Outcome(exhausted == [], verdicts, exhausted, dropped)
  }

  /** The measured sizes by class; nothing when two name one class. */
  function Collect(sizes: seq<Size>, reported: Reported): Option<Reported> {
    if sizes == [] then Some(reported)
    else if sizes[0].id in reported then None
    else Collect(sizes[1..], reported[sizes[0].id := sizes[0]])
  }

  /** `evaluate_prompt_budget`. */
  method EvaluatePromptBudget(p: Policy, sizes: seq<Size>) returns (r: Result<Outcome, string>)
    ensures match Collect(sizes, map[])
            case None => r.Err?
            case Some(reported) => r == Ok(Evaluated(p, reported))
  {
    var reported: Reported := map[];
    for i := 0 to |sizes|
      invariant Collect(sizes, map[]) == Collect(sizes[i..], reported)
    {
      assert sizes[i..][1..] == sizes[i + 1..];
      if sizes[i].id in reported {
        return Err("two sizes reported for one class");
      }
      reported := reported[sizes[i].id := sizes[i]];
    }
    return Ok(Evaluated(p, reported));
  }

  /** Sizes are refused exactly when a class is reported twice; otherwise each is found under its class. */
  lemma {:induction false} CollectExact(sizes: seq<Size>, reported: Reported)
    requires forall c | c in reported :: reported[c].id == c
    ensures Collect(sizes, reported).None? <==>
            (exists i, j | 0 <= i < j < |sizes| :: sizes[i].id == sizes[j].id)
            || (exists i | 0 <= i < |sizes| :: sizes[i].id in reported)
    ensures Collect(sizes, reported).Some? ==>
              && (forall i | 0 <= i < |sizes| ::
                    sizes[i].id in Collect(sizes, reported).value
                    && Collect(sizes, reported).value[sizes[i].id] == sizes[i])
              && (forall c | c in reported ::
                    c in Collect(sizes, reported).value && Collect(sizes, reported).value[c] == reported[c])
  {
    if sizes != [] && sizes[0].id !in reported {
      var next := reported[sizes[0].id := sizes[0]];
      CollectExact(sizes[1..], next);
      assert (exists i | 0 <= i < |sizes[1..]| :: sizes[1..][i].id in next) <==>
             (exists i | 1 <= i < |sizes| :: sizes[i].id == sizes[0].id || sizes[i].id in reported) by {
        if i :| 1 <= i < |sizes| && (sizes[i].id == sizes[0].id || sizes[i].id in reported) {
          assert sizes[1..][i - 1].id in next;
        }
      }
      assert (exists i, j | 0 <= i < j < |sizes[1..]| :: sizes[1..][i].id == sizes[1..][j].id) <==>
             (exists i, j | 1 <= i < j < |sizes| :: sizes[i].id == sizes[j].id) by {
        if i, j :| 1 <= i < j < |sizes| && sizes[i].id == sizes[j].id {
          assert sizes[1..][i - 1].id == sizes[1..][j - 1].id;
        }
      }
    }
  }

  // ---- what the outcome says -----------------------------------------------

  lemma PriorityOrder()
    ensures Preorder(ByPriority)
  {
  }

  lemma {:induction false} DroppedIn(p: Policy, reported: Reported, rows: seq<Allocation>, c: ClassId)
    ensures c in DroppedIds(p, reported, rows) <==> exists a | a in rows :: a.id == c && IsDropped(p, reported, a)
  {
    if rows != [] {
      DroppedIn(p, reported, rows[1..], c);
      if a :| a in rows && a.id == c && IsDropped(p, reported, a) {
        assert a == rows[0] || a in rows[1..];
      }
    }
  }

  lemma {:induction false} IdsIn(verdicts: seq<Verdict>, status: Status, c: ClassId)
    ensures c in IdsWith(verdicts, status) <==>
            exists i | 0 <= i < |verdicts| :: verdicts[i].id == c && verdicts[i].status == status
  {
    if verdicts != [] {
      IdsIn(verdicts[1..], status, c);
      if i :| 0 <= i < |verdicts| && verdicts[i].id == c && verdicts[i].status == status {
        if i > 0 {
          assert verdicts[1..][i - 1] == verdicts[i];
        }
      }
    }
  }

  lemma SortedSame(rows: seq<Allocation>, a: Allocation)
    ensures a in Sort(rows, ByPriority) <==> a in rows
  {
    assert a in Sort(rows, ByPriority) <==> a in multiset(Sort(rows, ByPriority));
  }

  /** The class was measured past one of its ceilings, in tokens or in bytes. */
  ghost predicate Over(a: Allocation, reported: Reported) {
    && a.measured && a.id in reported
    && var size := reported[a.id];
       || (size.tokens.Some? && size.tokens.value > a.maxTokens)
       || (a.maxBytes.Some? && size.bytes.Some? && size.bytes.value > a.maxBytes.value)
  }

  /** The class was measured against each ceiling it has. */
  ghost predicate Measured(a: Allocation, reported: Reported) {
    && a.measured && a.id in reported && reported[a.id].tokens.Some?
    && (a.maxBytes.Some? ==> reported[a.id].bytes.Some?)
  }

  /** The mode degrades, and the class is neither the authority capsule nor the Task packet. */
  ghost predicate Droppable(p: Policy, c: ClassId) {
    p.degrades && c != AuthorityCapsule && c != TaskPacket
  }

  /** Where a class stands: over a ceiling it is dropped or exhausted, else within when measured in full. */
  ghost function StandsAt(p: Policy, reported: Reported, a: Allocation): Status {
    if Over(a, reported) then if Droppable(p, a.id) then Dropped else Exhausted
    else if Measured(a, reported) then Within
    else Unavailable
  }

  lemma JudgedExactly(p: Policy, reported: Reported, a: Allocation)
    ensures Judge(a, SizeOf(reported, a.id)) == Exhausted <==> Over(a, reported)
    ensures IsDropped(p, reported, a) <==> Over(a, reported) && Droppable(p, a.id)
    ensures !Over(a, reported) ==> Judge(a, SizeOf(reported, a.id)) == StandsAt(p, reported, a)
  {
  }

  /** A class is dropped exactly when its own row is over a ceiling, droppable, and the mode degrades. */
  lemma DroppedExactly(p: Policy, reported: Reported, i: nat)
    requires Total(p.allocations) && i < |p.allocations|
    ensures p.allocations[i].id in Evaluated(p, reported).dropped <==>
            Over(p.allocations[i], reported) && Droppable(p, p.allocations[i].id)
  {
    var sorted := Sort(p.allocations, ByPriority);
    var c := p.allocations[i].id;
    JudgedExactly(p, reported, p.allocations[i]);
    DroppedIn(p, reported, sorted, c);
    SortedSame(p.allocations, p.allocations[i]);
    if a :| a in sorted && a.id == c && IsDropped(p, reported, a) {
      SortedSame(p.allocations, a);
      var j :| 0 <= j < |p.allocations| && p.allocations[j] == a;
      assert i == j;
    }
  }

  /** The verdict on each class: its ceilings, what was measured, and where that puts it. */
  lemma VerdictsExact(p: Policy, reported: Reported)
    requires Total(p.allocations)
    ensures var verdicts := Evaluated(p, reported).verdicts;
            && |verdicts| == |p.allocations|
            && forall i | 0 <= i < |verdicts| ::
                 var a, v := p.allocations[i], verdicts[i];
                 && v.id == a.id && v.ceilingTokens == a.maxTokens && v.ceilingBytes == a.maxBytes
                 && v.status == StandsAt(p, reported, a)
                 && v.tokens == (if a.id in reported then reported[a.id].tokens else None)
                 && v.bytes == (if a.id in reported then reported[a.id].bytes else None)
  {
    forall i | 0 <= i < |p.allocations|
      ensures Evaluated(p, reported).verdicts[i].status == StandsAt(p, reported, p.allocations[i]) {
      DroppedExactly(p, reported, i);
      JudgedExactly(p, reported, p.allocations[i]);
    }
  }

  ghost predicate Rising(picked: seq<Allocation>) {
    forall i, j | 0 <= i < j < |picked| :: picked[i].priority <= picked[j].priority
  }

  /** Dropped classes come lowest priority first. */
  ghost predicate InPriorityOrder(rows: seq<Allocation>, ids: seq<ClassId>) {
    exists picked: seq<Allocation> ::
      && |picked| == |ids|
      && (forall i | 0 <= i < |picked| :: picked[i] in rows && picked[i].id == ids[i])
      && Rising(picked)
  }

  /** In sorted rows the first comes no later than any other. */
  lemma FirstIsLowest(rows: seq<Allocation>, a: Allocation)
    requires Sorted(rows, ByPriority) && rows != [] && a in rows[1..]
    ensures a in rows && rows[0].priority <= a.priority
  {
    var k :| 0 <= k < |rows[1..]| && rows[1..][k] == a;
    assert ByPriority(rows[0], rows[k + 1]);
  }

  lemma {:induction false} DroppedPicked(p: Policy, reported: Reported, rows: seq<Allocation>)
    returns (picked: seq<Allocation>)
    requires Sorted(rows, ByPriority)
    ensures |picked| == |DroppedIds(p, reported, rows)|
    ensures forall i | 0 <= i < |picked| :: picked[i] in rows && picked[i].id == DroppedIds(p, reported, rows)[i]
    ensures Rising(picked)
  {
    if rows == [] {
      picked := [];
    } else {
      var rest := DroppedPicked(p, reported, rows[1..]);
      forall i | 0 <= i < |rest| ensures rest[i] in rows && rows[0].priority <= rest[i].priority {
        FirstIsLowest(rows, rest[i]);
      }
      if IsDropped(p, reported, rows[0]) {
        picked := [rows[0]] + rest;
        assert DroppedIds(p, reported, rows) == [rows[0].id] + DroppedIds(p, reported, rows[1..]);
      } else {
        picked := rest;
        assert DroppedIds(p, reported, rows) == DroppedIds(p, reported, rows[1..]);
      }
    }
  }

  lemma DroppedOrdered(p: Policy, reported: Reported)
    ensures InPriorityOrder(p.allocations, Evaluated(p, reported).dropped)
  {
    PriorityOrder();
    SortSorted(p.allocations, ByPriority);
    var sorted := Sort(p.allocations, ByPriority);
    var picked := DroppedPicked(p, reported, sorted);
    forall i | 0 <= i < |picked| ensures picked[i] in p.allocations {
      assert picked[i] in multiset(sorted);
      assert picked[i] in multiset(p.allocations);
    }
  }

  /** The outcome validator. */
  predicate ValidOutcome(o: Outcome) {
    && (forall c | c in o.dropped :: c !in UNDROPPABLE)
    && (forall c :: c in o.exhausted <==>
          exists i | 0 <= i < |o.verdicts| :: o.verdicts[i].id == c && o.verdicts[i].status == Exhausted)
    && (forall c :: c in o.dropped <==>
          exists i | 0 <= i < |o.verdicts| :: o.verdicts[i].id == c && o.verdicts[i].status == Dropped)
    && (o.admitted <==> o.exhausted == [])
  }

  /** A class whose row is over a ceiling, and which is not dropped for it. */
  ghost predicate StaysOver(p: Policy, reported: Reported, c: ClassId) {
    exists i | 0 <= i < |p.allocations| ::
      p.allocations[i].id == c && Over(p.allocations[i], reported) && !Droppable(p, c)
  }

  /** A class whose row is over a ceiling, and which is dropped for it. */
  ghost predicate GoesOver(p: Policy, reported: Reported, c: ClassId) {
    exists i | 0 <= i < |p.allocations| ::
      p.allocations[i].id == c && Over(p.allocations[i], reported) && Droppable(p, c)
  }

  lemma RowOf(p: Policy, c: ClassId) returns (i: nat)
    requires Total(p.allocations)
    ensures i < |p.allocations| && p.allocations[i].id == c
  {
    assert c in ALL_CLASSES;
    i :| 0 <= i < |p.allocations| && p.allocations[i].id == c;
  }

  /** A class has one row, so what is said of some row of it is said of that one. */
  lemma OnlyRow(p: Policy, reported: Reported, i: nat)
    requires Total(p.allocations) && i < |p.allocations|
    ensures var a := p.allocations[i];
            && (StaysOver(p, reported, a.id) <==> Over(a, reported) && !Droppable(p, a.id))
            && (GoesOver(p, reported, a.id) <==> Over(a, reported) && Droppable(p, a.id))
  {
  }

  lemma OneVerdict(verdicts: seq<Verdict>, i: nat, status: Status)
    requires i < |verdicts| && forall j, k | 0 <= j < k < |verdicts| :: verdicts[j].id != verdicts[k].id
    ensures verdicts[i].id in IdsWith(verdicts, status) <==> verdicts[i].status == status
  {
    IdsIn(verdicts, status, verdicts[i].id);
  }

  lemma OnlyVerdict(p: Policy, reported: Reported, i: nat, status: Status)
    requires Total(p.allocations) && i < |p.allocations|
    ensures p.allocations[i].id in IdsWith(Evaluated(p, reported).verdicts, status) <==>
            Evaluated(p, reported).verdicts[i].status == status
  {
    var verdicts := Evaluated(p, reported).verdicts;
    assert forall j | 0 <= j < |verdicts| :: verdicts[j].id == p.allocations[j].id;
    OneVerdict(verdicts, i, status);
  }

  /** What is named exhausted, and what is named dropped. */
  lemma NamedExactly(p: Policy, reported: Reported, c: ClassId)
    requires ValidPolicy(p)
    ensures c in Evaluated(p, reported).exhausted <==> StaysOver(p, reported, c)
    ensures c in Evaluated(p, reported).dropped <==> GoesOver(p, reported, c)
  {
    var i := RowOf(p, c);
    OnlyRow(p, reported, i);
    OnlyVerdict(p, reported, i, Exhausted);
    VerdictsExact(p, reported);
    DroppedExactly(p, reported, i);
  }

  /** What is decided is always a valid outcome, and never drops an undroppable class. */
  lemma OutcomeValid(p: Policy, reported: Reported)
    requires ValidPolicy(p)
    ensures ValidOutcome(Evaluated(p, reported))
    ensures AuthorityCapsule !in Evaluated(p, reported).dropped && TaskPacket !in Evaluated(p, reported).dropped
  {
    var o := Evaluated(p, reported);
    forall c ensures c in o.exhausted <==>
                     exists i | 0 <= i < |o.verdicts| :: o.verdicts[i].id == c && o.verdicts[i].status == Exhausted {
      IdsIn(o.verdicts, Exhausted, c);
    }
    forall c ensures c in o.dropped <==>
                     exists i | 0 <= i < |o.verdicts| :: o.verdicts[i].id == c && o.verdicts[i].status == Dropped {
      NamedDropped(p, reported, c);
    }
    NamedExactly(p, reported, AuthorityCapsule);
    NamedExactly(p, reported, TaskPacket);
  }

  /** What is named dropped is what has a dropped verdict. */
  lemma NamedDropped(p: Policy, reported: Reported, c: ClassId)
    requires ValidPolicy(p)
    ensures var verdicts := Evaluated(p, reported).verdicts;
            c in Evaluated(p, reported).dropped <==>
            exists i | 0 <= i < |verdicts| :: verdicts[i].id == c && verdicts[i].status == Dropped
  {
    var i := RowOf(p, c);
    IdsIn(Evaluated(p, reported).verdicts, Dropped, c);
    OnlyVerdict(p, reported, i, Dropped);
    VerdictsExact(p, reported);
    DroppedExactly(p, reported, i);
  }

  /** A dispatch is denied exactly when some class is over a ceiling and may not be dropped for it. */
  lemma DeniedExactly(p: Policy, reported: Reported)
    requires ValidPolicy(p)
    ensures !Evaluated(p, reported).admitted <==> exists c :: StaysOver(p, reported, c)
    ensures Evaluated(p, reported).admitted <==> Evaluated(p, reported).exhausted == []
  {
    var o := Evaluated(p, reported);
    if o.exhausted != [] {
      NamedExactly(p, reported, o.exhausted[0]);
    }
    if c :| StaysOver(p, reported, c) {
      NamedExactly(p, reported, c);
    }
  }

  // ---- the window ----------------------------------------------------------

  /** The tokens of the verdicts with some size that was measured and not found over. */
  function KeptTokens(verdicts: seq<Verdict>): nat {
    if verdicts == [] then 0
    else
      (if verdicts[0].status == Within && verdicts[0].tokens.Some? then verdicts[0].tokens.value else 0)
      + KeptTokens(verdicts[1..])
  }

  lemma {:induction false} KeptFits(p: Policy, reported: Reported, dropped: seq<ClassId>, rows: seq<Allocation>,
                                    verdicts: seq<Verdict>)
    requires |verdicts| == |rows|
    requires forall i | 0 <= i < |rows| :: verdicts[i] == VerdictOf(p, reported, dropped, rows[i])
    ensures KeptTokens(verdicts) <= SumTokens(rows)
  {
    if rows != [] {
      KeptFits(p, reported, dropped, rows[1..], verdicts[1..]);
    }
  }

  /** Everything judged within its ceiling, together with the reserved output, fits the input window. */
  lemma WindowHolds(p: Policy, reported: Reported)
    requires ValidPolicy(p)
    ensures KeptTokens(Evaluated(p, reported).verdicts) + p.reserved <= p.window
  {
    var o := Evaluated(p, reported);
    KeptFits(p, reported, o.dropped, p.allocations, o.verdicts);
  }

  /** When every class is measured in full and the dispatch is admitted, what is kept is what is sent. */
  lemma AdmittedIsKept(p: Policy, reported: Reported, i: nat)
    requires ValidPolicy(p) && Evaluated(p, reported).admitted && i < |p.allocations|
    requires Measured(p.allocations[i], reported)
    ensures var v := Evaluated(p, reported).verdicts[i];
            v.status == Dropped || (v.status == Within && v.tokens == reported[p.allocations[i].id].tokens)
  {
    var o := Evaluated(p, reported);
    OutcomeValid(p, reported);
    var v := o.verdicts[i];
    assert v == VerdictOf(p, reported, o.dropped, p.allocations[i]);
    IdsIn(o.verdicts, Exhausted, v.id);
    assert v.id !in o.exhausted;
  }
}
