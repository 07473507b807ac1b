/** The in-flight governor: admission across Runs, and the fleet ceilings it keeps. */
module Governor {
  import opened Values

  datatype Axis = Concurrency | Tokens | Cost

  datatype AxisStatus = Within | Breached | Unbounded | Unavailable

  datatype Decision = Admitted | Queued | Denied

  /** The ceilings in force; a null ceiling is unavailable, never unlimited. */
  datatype Ceilings = Ceilings(maxRuns: nat, maxTokens: Option<nat>, maxCost: Option<nat>, queues: bool)

  /** A loadable governor admits at least one Run and bounds some spend. */
  predicate ValidCeilings(g: Ceilings) {
    g.maxRuns >= 1 && (g.maxTokens.Some? || g.maxCost.Some?)
  }

  /** What one Run reserves, and what it has accrued so far. */
  datatype Reservation = Reservation(run: string, tokens: Option<nat>, cost: Option<nat>,
                                     accruedTokens: Option<nat>, accruedCost: Option<nat>)

  function Max(a: nat, b: nat): nat {
    if a >= b then a else b
  }

  function Reserved(r: Reservation, axis: Axis): Option<nat> {
    if axis == Tokens then r.tokens else r.cost
  }

  function Accrued(r: Reservation, axis: Axis): nat {
    var accrued := if axis == Tokens then r.accruedTokens else r.accruedCost;
    if accrued.Some? then accrued.value else 0
  }

  /** What a live Run holds on a spend axis: its cap, or its accrual when that is more. */
  function Held(r: Reservation, axis: Axis): Option<nat> {
    match Reserved(r, axis)
    case None => None
    case Some(reserved) => Some(Max(reserved, Accrued(r, axis)))
  }

  // ---- deciding ------------------------------------------------------------

  /** The held total, when every Run is bounded on the axis. */
  function Total(live: seq<Reservation>, axis: Axis): Option<nat> {
    if live == [] then Some(0)
    else
      match (Held(live[0], axis), Total(live[1..], axis))
      case (Some(h), Some(rest)) => Some(h + rest)
      case _ => None
  }

  datatype AxisDecision = AxisDecision(axis: Axis, status: AxisStatus, ceiling: Option<nat>,
                                       inFlight: Option<nat>, requested: Option<nat>)

  function SpendAxis(axis: Axis, ceiling: Option<nat>, request: Reservation, live: seq<Reservation>): AxisDecision {
    var requested := Held(request, axis);
    if ceiling.None? then AxisDecision(axis, Unavailable, None, None, requested)
    else
      var total := Total(live, axis);
      var status := if requested.None? || total.None? then Unbounded
                    else if total.value + requested.value > ceiling.value then Breached
                    else Within;
      AxisDecision(axis, status, ceiling, total, requested)
  }

  predicate Refusing(status: AxisStatus) {
    status.Breached? || status.Unbounded?
  }

  /** The receipt of one decision, as far as its axes and its outcome go. */
  datatype Receipt = Receipt(run: string, decision: Decision, axes: seq<AxisDecision>, promptAdmitted: bool,
                             reservation: Reservation)

  function Axes(g: Ceilings, request: Reservation, live: seq<Reservation>): seq<AxisDecision> {
    [AxisDecision(Concurrency, if |live| + 1 > g.maxRuns then Breached else Within, Some(g.maxRuns), Some(|live|),
                  Some(1)),
     SpendAxis(Tokens, g.maxTokens, request, live),
     SpendAxis(Cost, g.maxCost, request, live)]
  }

  predicate AnyRefusing(axes: seq<AxisDecision>) {
    exists i | 0 <= i < |axes| :: Refusing(axes[i].status)
  }

  /** `decide_admission`. */
  function DecideAdmission(g: Ceilings, request: Reservation, live: seq<Reservation>, promptAdmitted: bool): Receipt {
    var axes := Axes(g, request, live);
    var decision := if !promptAdmitted then Denied
                    else if AnyRefusing(axes) then if g.queues then Queued else Denied
                    else Admitted;
    Receipt(request.run, decision, axes, promptAdmitted, request)
  }

  /** The receipt validator: admitted exactly when nothing refuses, reserving for its own Run. */
  predicate ValidReceipt(r: Receipt) {
    && (r.decision == Admitted <==> !AnyRefusing(r.axes) && r.promptAdmitted)
    && r.reservation.run == r.run
  }

  /** What a Run holds: nothing that can be summed without a cap, else the cap, or what was spent when that is more. */
  ghost predicate Holds(cap: Option<nat>, spent: Option<nat>, held: Option<nat>) {
    if cap == None then held == None
    else
      && held.Some? && held.value >= cap.value && (spent.Some? ==> held.value >= spent.value)
      && (held == cap || held == spent)
  }

  /** A Run holds its tokens on the token axis and its cost on the cost axis. */
  lemma HeldExactly(r: Reservation)
    ensures Holds(r.tokens, r.accruedTokens, Held(r, Tokens))
    ensures Holds(r.cost, r.accruedCost, Held(r, Cost))
  {
  }

  /** One spend ceiling leaves room for the request beside the live Runs. */
  predicate Fits(axis: Axis, ceiling: Option<nat>, request: Reservation, live: seq<Reservation>) {
    ceiling.Some? ==>
      && Held(request, axis).Some? && Total(live, axis).Some?
      && Total(live, axis).value + Held(request, axis).value <= ceiling.value
  }

  /** The total is there exactly when every live Run is capped on the axis. */
  lemma {:induction false} TotalStated(live: seq<Reservation>, axis: Axis)
    ensures Total(live, axis).Some? <==> forall r | r in live :: Held(r, axis).Some?
  {
    if live != [] {
      TotalStated(live[1..], axis);
      assert forall r :: r in live <==> r == live[0] || r in live[1..];
    }
  }

  /** What a receipt says of one spend axis. */
  ghost predicate SpendStated(d: AxisDecision, axis: Axis, ceiling: Option<nat>, request: Reservation,
                              live: seq<Reservation>) {
    && d.axis == axis && d.ceiling == ceiling && d.requested == Held(request, axis)
    && (if ceiling == None then d.inFlight == None && d.status == Unavailable
        else
          && d.inFlight == Total(live, axis)
          && (d.status == Unbounded <==> d.requested == None || exists r :: r in live && Held(r, axis) == None)
          && (d.status == Breached <==>
                d.requested.Some? && d.inFlight.Some? && d.inFlight.value + d.requested.value > ceiling.value)
          && d.status != Unavailable)
  }

  lemma SpendExact(axis: Axis, ceiling: Option<nat>, request: Reservation, live: seq<Reservation>)
    ensures SpendStated(SpendAxis(axis, ceiling, request, live), axis, ceiling, request, live)
  {
    TotalStated(live, axis);
  }

  /** The receipt says where each axis stood: slots, then tokens, then cost, and reserves for the Run that asked. */
  lemma ReceiptStates(g: Ceilings, request: Reservation, live: seq<Reservation>, promptAdmitted: bool)
    ensures var receipt := DecideAdmission(g, request, live, promptAdmitted);
            && receipt.run == request.run && receipt.reservation == request
            && receipt.promptAdmitted == promptAdmitted && |receipt.axes| == 3
            && receipt.axes[0] == AxisDecision(Concurrency, if |live| < g.maxRuns then Within else Breached,
                                               Some(g.maxRuns), Some(|live|), Some(1))
            && SpendStated(receipt.axes[1], Tokens, g.maxTokens, request, live)
            && SpendStated(receipt.axes[2], Cost, g.maxCost, request, live)
  {
    SpendExact(Tokens, g.maxTokens, request, live);
    SpendExact(Cost, g.maxCost, request, live);
  }

  /**
    A Run is admitted exactly when the prompt fits, a slot is free and both spends fit; refused for the
    fleet alone it waits, when the governor queues.
   */
  lemma AdmittedExactly(g: Ceilings, request: Reservation, live: seq<Reservation>, promptAdmitted: bool)
    ensures var receipt := DecideAdmission(g, request, live, promptAdmitted);
            var room := |live| < g.maxRuns && Fits(Tokens, g.maxTokens, request, live)
                        && Fits(Cost, g.maxCost, request, live);
            && ValidReceipt(receipt)
            && (receipt.decision == Admitted <==> promptAdmitted && room)
            && (receipt.decision == Queued <==> promptAdmitted && !room && g.queues)
            && (receipt.decision == Admitted <==>
                  promptAdmitted && forall d | d in receipt.axes :: d.status != Breached && d.status != Unbounded)
  {
    var axes := Axes(g, request, live);
    assert Refusing(axes[0].status) <==> |live| >= g.maxRuns;
    assert Refusing(axes[1].status) <==> !Fits(Tokens, g.maxTokens, request, live);
    assert Refusing(axes[2].status) <==> !Fits(Cost, g.maxCost, request, live);
    assert axes[0] in axes && axes[1] in axes && axes[2] in axes;
  }

  // ---- the order and the number of live Runs -------------------------------

  /** The total taken out one Run at a time, from anywhere. */
  lemma {:induction false} TotalWithout(live: seq<Reservation>, i: nat, axis: Axis)
    requires i < |live|
    ensures Total(live, axis).Some? <==>
            Held(live[i], axis).Some? && Total(live[..i] + live[i + 1..], axis).Some?
    ensures Total(live, axis).Some? ==>
            Total(live, axis).value == Held(live[i], axis).value + Total(live[..i] + live[i + 1..], axis).value
  {
    if i == 0 {
      assert live[..0] + live[1..] == live[1..];
    } else {
      TotalWithout(live[1..], i - 1, axis);
      var rest := live[..i] + live[i + 1..];
      assert rest[0] == live[0] && rest[1..] == live[1..][..i - 1] + live[1..][i..];
    }
  }

  lemma TakenOut<T>(all: seq<T>, i: nat)
    requires i < |all|
    ensures multiset(all[..i] + all[i + 1..]) == multiset(all) - multiset{all[i]}
  {
    assert all == all[..i] + [all[i]] + all[i + 1..];
  }

  /** The head of one listing sits somewhere in any other, and what is left are listings of the same. */
  lemma HeadElsewhere<T>(a: seq<T>, b: seq<T>) returns (i: nat)
    requires a != [] && multiset(a) == multiset(b)
    ensures i < |b| && b[i] == a[0]
    ensures multiset(a[1..]) == multiset(b[..i] + b[i + 1..])
  {
    assert a[0] in multiset(b);
    i :| 0 <= i < |b| && b[i] == a[0];
    TakenOut(b, i);
    assert a == [a[0]] + a[1..];
  }

  lemma {:induction false} TotalPermuted(a: seq<Reservation>, b: seq<Reservation>, axis: Axis)
    requires multiset(a) == multiset(b)
    ensures Total(a, axis) == Total(b, axis)
    decreases |a|
  {
    if a == [] {
      assert |b| == |multiset(b)| == 0;
    } else {
      var i := HeadElsewhere(a, b);
      TotalPermuted(a[1..], b[..i] + b[i + 1..], axis);
      TotalWithout(b, i, axis);
    }
  }

  /** Admission does not depend on the order the live Runs are listed in. */
  lemma OrderIrrelevant(g: Ceilings, request: Reservation, a: seq<Reservation>, b: seq<Reservation>,
                        promptAdmitted: bool)
    requires multiset(a) == multiset(b)
    ensures DecideAdmission(g, request, a, promptAdmitted) == DecideAdmission(g, request, b, promptAdmitted)
  {
    assert |a| == |multiset(a)| == |b|;
    TotalPermuted(a, b, Tokens);
    TotalPermuted(a, b, Cost);
  }

  /** A Run that finishes never makes an admissible request inadmissible. */
  lemma FinishingFrees(g: Ceilings, request: Reservation, live: seq<Reservation>, i: nat, promptAdmitted: bool)
    requires i < |live|
    requires DecideAdmission(g, request, live, promptAdmitted).decision == Admitted
    ensures DecideAdmission(g, request, live[..i] + live[i + 1..], promptAdmitted).decision == Admitted
  {
    AdmittedExactly(g, request, live, promptAdmitted);
    AdmittedExactly(g, request, live[..i] + live[i + 1..], promptAdmitted);
    TotalWithout(live, i, Tokens);
    TotalWithout(live, i, Cost);
  }

  /** What fits beside some fleet fits alone: a request refused by an idle fleet is refused forever. */
  lemma {:induction false} FitsAlone(g: Ceilings, request: Reservation, live: seq<Reservation>, promptAdmitted: bool)
    requires DecideAdmission(g, request, live, promptAdmitted).decision == Admitted
    ensures DecideAdmission(g, request, [], promptAdmitted).decision == Admitted
  {
    if live != [] {
      FinishingFrees(g, request, live, 0, promptAdmitted);
      assert live[..0] + live[1..] == live[1..];
      FitsAlone(g, request, live[1..], promptAdmitted);
    }
  }

  /** An idle, loadable fleet admits exactly what is capped, within its cap, on every bounded axis. */
  lemma IdleAdmits(g: Ceilings, request: Reservation)
    requires ValidCeilings(g)
    ensures DecideAdmission(g, request, [], true).decision == Admitted <==>
            && (g.maxTokens.Some? ==> Held(request, Tokens).Some? && Held(request, Tokens).value <= g.maxTokens.value)
            && (g.maxCost.Some? ==> Held(request, Cost).Some? && Held(request, Cost).value <= g.maxCost.value)
  {
    AdmittedExactly(g, request, [], true);
  }

  // ---- the fleet -----------------------------------------------------------

  /** What can happen to the fleet: a request is decided, a live Run spends, a live Run ends. */
  datatype Event =
    | Request(reservation: Reservation, promptAdmitted: bool)
    | Accrue(index: nat, tokens: nat, cost: nat)
    | Finish(index: nat)

  function Spend(r: Reservation, tokens: nat, cost: nat): Reservation {
    r.(accruedTokens := Some(Accrued(r, Tokens) + tokens), accruedCost := Some(Accrued(r, Cost) + cost))
  }

  function Next(g: Ceilings, live: seq<Reservation>, e: Event): seq<Reservation> {
    match e
    case Request(r, promptAdmitted) =>
      if DecideAdmission(g, r, live, promptAdmitted).decision == Admitted then live + [r] else live
    case Accrue(i, tokens, cost) =>
      if i < |live| then live[i := Spend(live[i], tokens, cost)] else live
    case Finish(i) =>
      if i < |live| then live[..i] + live[i + 1..] else live
  }

  /** What was spent so far and what is spent now. */
  ghost predicate Added(before: Option<nat>, spent: nat, after: Option<nat>) {
    after == Some(spent + if before.Some? then before.value else 0)
  }

  /** An admitted Run joins the fleet, spending is booked on its Run and its axis, and a Run that ends leaves. */
  lemma NextExactly(g: Ceilings, live: seq<Reservation>, e: Event)
    ensures var next := Next(g, live, e);
            match e
            case Request(r, promptAdmitted) =>
              next == live + if DecideAdmission(g, r, live, promptAdmitted).decision == Admitted then [r] else []
            case Accrue(i, tokens, cost) =>
              && |next| == |live| && (forall j | 0 <= j < |live| && j != i :: next[j] == live[j])
              && (i < |live| ==>
                    && Added(live[i].accruedTokens, tokens, next[i].accruedTokens)
                    && Added(live[i].accruedCost, cost, next[i].accruedCost)
                    && next[i].run == live[i].run && next[i].tokens == live[i].tokens && next[i].cost == live[i].cost)
            case Finish(i) =>
              i < |live| ==> |next| == |live| - 1 && next[..i] == live[..i] && next[i..] == live[i + 1..]
  {
  }

  function Fleet(g: Ceilings, live: seq<Reservation>, events: seq<Event>): seq<Reservation>
    decreases |events|
  {
    if events == [] then live else Fleet(g, Next(g, live, events[0]), events[1..])
  }

  /** The caps reserved by the live Runs; an uncapped Run reserves nothing that could be summed. */
  function ReservedTotal(live: seq<Reservation>, axis: Axis): nat {
    if live == [] then 0
    else (if Reserved(live[0], axis).Some? then Reserved(live[0], axis).value else 0) + ReservedTotal(live[1..], axis)
  }

  /** How far the live Runs have spent past their own caps. */
  function Overshoot(live: seq<Reservation>, axis: Axis): nat {
    if live == [] then 0
    else
      var r := live[0];
      (if Reserved(r, axis).Some? && Accrued(r, axis) > Reserved(r, axis).value
       then Accrued(r, axis) - Reserved(r, axis).value else 0) + Overshoot(live[1..], axis)
  }

  predicate AllBounded(live: seq<Reservation>, axis: Axis) {
    forall i | 0 <= i < |live| :: Reserved(live[i], axis).Some?
  }

  /** The reservations sum to at most the ceiling, and what is held exceeds it by the overshoot at most. */
  predicate UnderCeiling(live: seq<Reservation>, axis: Axis, ceiling: Option<nat>) {
    ceiling.Some? ==>
      && AllBounded(live, axis) && ReservedTotal(live, axis) <= ceiling.value
      && Total(live, axis).Some? && Total(live, axis).value <= ceiling.value + Overshoot(live, axis)
  }

  predicate Safe(g: Ceilings, live: seq<Reservation>) {
    && |live| <= g.maxRuns
    && UnderCeiling(live, Tokens, g.maxTokens)
    && UnderCeiling(live, Cost, g.maxCost)
  }

  /** Bounded Runs hold their reservations and their overshoot, no more and no less. */
  lemma {:induction false} HeldSplits(live: seq<Reservation>, axis: Axis)
    requires AllBounded(live, axis)
    ensures Total(live, axis) == Some(ReservedTotal(live, axis) + Overshoot(live, axis))
  {
    if live != [] {
      HeldSplits(live[1..], axis);
    }
  }

  lemma {:induction false} ReservedAppend(a: seq<Reservation>, b: seq<Reservation>, axis: Axis)
    ensures ReservedTotal(a + b, axis) == ReservedTotal(a, axis) + ReservedTotal(b, axis)
  {
    if a == [] {
      assert a + b == b;
    } else {
      assert (a + b)[1..] == a[1..] + b;
      ReservedAppend(a[1..], b, axis);
    }
  }

  lemma AdmitKeeps(live: seq<Reservation>, r: Reservation, axis: Axis, ceiling: Option<nat>)
    requires UnderCeiling(live, axis, ceiling) && Fits(axis, ceiling, r, live)
    ensures UnderCeiling(live + [r], axis, ceiling)
  {
    if ceiling.Some? {
      HeldSplits(live, axis);
      ReservedAppend(live, [r], axis);
      assert ReservedTotal([r], axis) <= Held(r, axis).value;
      HeldSplits(live + [r], axis);
    }
  }

  /** Spending moves only the overshoot. */
  lemma AccrueKeeps(live: seq<Reservation>, i: nat, tokens: nat, cost: nat, axis: Axis, ceiling: Option<nat>)
    requires i < |live| && UnderCeiling(live, axis, ceiling) && axis != Concurrency
    ensures UnderCeiling(live[i := Spend(live[i], tokens, cost)], axis, ceiling)
  {
    if ceiling.Some? {
      var after := live[i := Spend(live[i], tokens, cost)];
      SameReserved(live, after, axis);
      HeldSplits(after, axis);
    }
  }

  lemma {:induction false} SameReserved(a: seq<Reservation>, b: seq<Reservation>, axis: Axis)
    requires |a| == |b| && forall i | 0 <= i < |a| :: Reserved(a[i], axis) == Reserved(b[i], axis)
    ensures ReservedTotal(a, axis) == ReservedTotal(b, axis)
  {
    if a != [] {
      SameReserved(a[1..], b[1..], axis);
    }
  }

  lemma FinishKeeps(live: seq<Reservation>, i: nat, axis: Axis, ceiling: Option<nat>)
    requires i < |live| && UnderCeiling(live, axis, ceiling)
    ensures UnderCeiling(live[..i] + live[i + 1..], axis, ceiling)
  {
    if ceiling.Some? {
      var rest := live[..i] + live[i + 1..];
      assert live == live[..i] + ([live[i]] + live[i + 1..]);
      ReservedAppend(live[..i], [live[i]] + live[i + 1..], axis);
      ReservedAppend([live[i]], live[i + 1..], axis);
      ReservedAppend(live[..i], live[i + 1..], axis);
      HeldSplits(rest, axis);
    }
  }

  lemma StepKeeps(g: Ceilings, live: seq<Reservation>, e: Event)
    requires Safe(g, live)
    ensures Safe(g, Next(g, live, e))
  {
    match e
    case Request(r, promptAdmitted) =>
      AdmittedExactly(g, r, live, promptAdmitted);
      if DecideAdmission(g, r, live, promptAdmitted).decision == Admitted {
        AdmitKeeps(live, r, Tokens, g.maxTokens);
        AdmitKeeps(live, r, Cost, g.maxCost);
      }
    case Accrue(i, tokens, cost) =>
      if i < |live| {
        AccrueKeeps(live, i, tokens, cost, Tokens, g.maxTokens);
        AccrueKeeps(live, i, tokens, cost, Cost, g.maxCost);
      }
    case Finish(i) =>
      if i < |live| {
        FinishKeeps(live, i, Tokens, g.maxTokens);
        FinishKeeps(live, i, Cost, g.maxCost);
      }
  }

  /** Over every interleaving of requests, spending and endings the fleet stays under its ceilings. */
  lemma {:induction false} FleetSafe(g: Ceilings, live: seq<Reservation>, events: seq<Event>)
    requires Safe(g, live)
    ensures Safe(g, Fleet(g, live, events))
    decreases |events|
  {
    if events != [] {
      StepKeeps(g, live, events[0]);
      FleetSafe(g, Next(g, live, events[0]), events[1..]);
    }
  }

  /** Starting idle, no Run is ever live with an axis the governor bounds left unbounded. */
  lemma FleetFromIdle(g: Ceilings, events: seq<Event>)
    ensures Safe(g, Fleet(g, [], events))
    ensures g.maxTokens.Some? ==> AllBounded(Fleet(g, [], events), Tokens)
    ensures g.maxCost.Some? ==> AllBounded(Fleet(g, [], events), Cost)
  {
    FleetSafe(g, [], events);
  }

  /**
    A governor loads exactly when, idle, it admits a Run capped at nothing and refuses one without any cap;
    then every live Run is capped on tokens or on cost.
   */
  lemma LoadableBinds(g: Ceilings, events: seq<Event>)
    ensures ValidCeilings(g) <==>
            && DecideAdmission(g, Reservation("", Some(0), Some(0), None, None), [], true).decision == Admitted
            && DecideAdmission(g, Reservation("", None, None, None, None), [], true).decision != Admitted
    ensures ValidCeilings(g) ==>
              var live := Fleet(g, [], events);
              (forall r | r in live :: r.tokens.Some?) || (forall r | r in live :: r.cost.Some?)
  {
    FleetFromIdle(g, events);
    var live := Fleet(g, [], events);
    assert forall r | r in live :: exists i | 0 <= i < |live| :: live[i] == r;
    AdmittedExactly(g, Reservation("", Some(0), Some(0), None, None), [], true);
    AdmittedExactly(g, Reservation("", None, None, None, None), [], true);
  }
}
