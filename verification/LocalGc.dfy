/** Planning and applying the removal of expired entries from a machine-local store. */
module LocalGc {
  import opened Values

  /** One `.retention` file found under the root: where, whether a real file, the date it states. */
  datatype Marker = Marker(parent: Path, regular: bool, date: Option<int>)

  /** One reclaimable directory and the day it may be removed after, when that is readable. */
  datatype Entry = Entry(at: Path, expiry: Option<int>)

  datatype Plan = Plan(expired: seq<Path>, held: seq<Path>, unreadable: seq<Path>)

  /** The elements of `s` that satisfy `keep`, in order. */
  function Select<T>(s: seq<T>, keep: T -> bool): seq<T> {
    if s == [] then []
    else (if keep(s[0]) then [s[0]] else []) + Select(s[1..], keep)
  }

  function Paths(s: seq<Entry>): seq<Path> {
    seq(|s|, i requires 0 <= i < |s| => s[i].at)
  }

  lemma {:induction false} SelectIn<T>(s: seq<T>, keep: T -> bool, x: T)
    ensures x in Select(s, keep) <==> x in s && keep(x)
  {
    if s != [] {
      SelectIn(s[1..], keep, x);
    }
  }

  lemma {:induction false} SelectSnoc<T>(s: seq<T>, keep: T -> bool, x: T)
    ensures Select(s + [x], keep) == Select(s, keep) + if keep(x) then [x] else []
  {
    if s == [] {
      assert s + [x] == [x];
    } else {
      assert (s + [x])[1..] == s[1..] + [x];
      SelectSnoc(s[1..], keep, x);
    }
  }

  // ---- what each entry is --------------------------------------------------

  /** The entries the walk finds: real marker files, and never the root itself. */
  function Entries(markers: seq<Marker>): seq<Entry> {
    if markers == [] then [] else EntryOf(markers[0]) + Entries(markers[1..])
  }

  function EntryOf(m: Marker): seq<Entry> {
    if m.parent != [] && m.regular then [Entry(m.parent, m.date)] else []
  }

  /** The date has passed; an entry expiring today is kept. */
  predicate Passed(e: Entry, today: int) {
    e.expiry.Some? && e.expiry.value < today
  }

  /** A kept entry lies strictly inside `e`. */
  predicate Blocked(es: seq<Entry>, today: int, e: Entry) {
    exists k | k in es :: !Passed(k, today) && k.at != e.at && e.at <= k.at
  }

  predicate Removable(es: seq<Entry>, today: int, e: Entry) {
    Passed(e, today) && !Blocked(es, today, e)
  }

  /** Removable, and inside no other removable entry. */
  predicate Outermost(es: seq<Entry>, today: int, e: Entry) {
    Removable(es, today, e) &&
    !exists o | o in es :: Removable(es, today, o) && o.at != e.at && o.at <= e.at
  }

  function WhenKept(today: int): Entry -> bool {
    e => !Passed(e, today)
  }

  function WhenRemovable(es: seq<Entry>, today: int): Entry -> bool {
    e => Removable(es, today, e)
  }

  function WhenOutermost(es: seq<Entry>, today: int): Entry -> bool {
    e => Outermost(es, today, e)
  }

  function WhenHeld(es: seq<Entry>, today: int): Entry -> bool {
    e => Passed(e, today) && Blocked(es, today, e)
  }

  function WhenUnreadable(): Entry -> bool {
    (e: Entry) => e.expiry.None?
  }

  /** Inside none of the others. */
  function WhenOuter(others: seq<Entry>): Entry -> bool {
    (e: Entry) => !exists o | o in others :: o.at != e.at && o.at <= e.at
  }

  function PlanOf(es: seq<Entry>, today: int): Plan {
    Plan(Paths(Select(es, WhenOutermost(es, today))),
         Paths(Select(es, WhenHeld(es, today))),
         Paths(Select(es, WhenUnreadable())))
  }

  /** The expiries are a dictionary: one entry a directory. */
  ghost predicate OnePerDirectory(es: seq<Entry>) {
    forall i, j | 0 <= i < j < |es| :: es[i].at != es[j].at
  }

  ghost predicate DistinctMarkers(markers: seq<Marker>) {
    forall i, j | 0 <= i < j < |markers| :: markers[i].parent != markers[j].parent
  }

  // ---- the planning pass ---------------------------------------------------

  lemma {:induction false} EntriesSnoc(markers: seq<Marker>, m: Marker)
    ensures Entries(markers + [m]) == Entries(markers) + EntryOf(m)
  {
    var all := markers + [m];
    if markers == [] {
      assert all[1..] == [];
    } else {
      assert all[0] == markers[0] && all[1..] == markers[1..] + [m];
      EntriesSnoc(markers[1..], m);
    }
  }

  /** The walk yields each marker file once, so the expiries are one entry a directory. */
  lemma {:induction false} EntriesDistinct(markers: seq<Marker>)
    requires DistinctMarkers(markers)
    ensures OnePerDirectory(Entries(markers))
    ensures forall e | e in Entries(markers) :: exists m | m in markers :: m.parent == e.at
  {
    if markers != [] {
      EntriesDistinct(markers[1..]);
      forall e | e in Entries(markers[1..]) ensures e.at != markers[0].parent {
        var m :| m in markers[1..] && m.parent == e.at;
      }
    }
  }

  lemma EntriesNext(markers: seq<Marker>, i: nat)
    requires i < |markers|
    ensures Entries(markers[..i + 1]) == Entries(markers[..i]) + EntryOf(markers[i])
  {
    EntriesSnoc(markers[..i], markers[i]);
    assert markers[..i] + [markers[i]] == markers[..i + 1];
  }

  lemma SelectNext(es: seq<Entry>, i: nat, keep: Entry -> bool)
    requires i < |es|
    ensures Select(es[..i + 1], keep) == Select(es[..i], keep) + if keep(es[i]) then [es[i]] else []
  {
    SelectSnoc(es[..i], keep, es[i]);
    assert es[..i] + [es[i]] == es[..i + 1];
  }

  lemma KeptBlocks(es: seq<Entry>, today: int, kept: seq<Entry>, e: Entry)
    requires kept == Select(es, WhenKept(today))
    ensures Blocked(es, today, e) <==> exists k | k in kept :: k.at != e.at && e.at <= k.at
  {
    forall k ensures k in kept <==> k in es && !Passed(k, today) {
      SelectIn(es, WhenKept(today), k);
    }
  }

  /** Filtering twice, removable then outermost, is filtering once. */
  lemma OutermostOf(es: seq<Entry>, today: int, removable: seq<Entry>)
    requires removable == Select(es, WhenRemovable(es, today))
    ensures Select(removable, WhenOuter(removable)) ==
            Select(es, WhenOutermost(es, today))
  {
    forall o ensures o in removable <==> o in es && Removable(es, today, o) {
      SelectIn(es, WhenRemovable(es, today), o);
    }
    SelectTwice(es, WhenRemovable(es, today), WhenOuter(removable), WhenOutermost(es, today));
  }

  lemma {:induction false} SelectTwice<T(!new)>(s: seq<T>, p: T -> bool, q: T -> bool, both: T -> bool)
    requires forall x :: both(x) <==> p(x) && q(x)
    ensures Select(Select(s, p), q) == Select(s, both)
  {
    if s != [] {
      SelectTwice(s[1..], p, q, both);
      assert both(s[0]) <==> p(s[0]) && q(s[0]);
      if p(s[0]) {
        assert Select(s, p)[1..] == Select(s[1..], p);
      } else {
        assert Select(s, p) == Select(s[1..], p) && Select(s, both) == Select(s[1..], both);
      }
    }
  }

  // ---- the plan is exact ---------------------------------------------------

  /** `p` lies in or under a path the plan removes. */
  predicate Doomed(plan: Plan, p: Path) {
    exists x | x in plan.expired :: x <= p
  }

  lemma PlannedIn(es: seq<Entry>, today: int, p: Path)
    ensures p in PlanOf(es, today).expired <==> exists e | e in es :: Outermost(es, today, e) && e.at == p
    ensures p in PlanOf(es, today).held <==>
              exists e | e in es :: Passed(e, today) && Blocked(es, today, e) && e.at == p
    ensures p in PlanOf(es, today).unreadable <==> exists e | e in es :: e.expiry.None? && e.at == p
  {
    PathIn(es, WhenOutermost(es, today), p);
    PathIn(es, WhenHeld(es, today), p);
    PathIn(es, WhenUnreadable(), p);
  }

  lemma PathIn(es: seq<Entry>, keep: Entry -> bool, p: Path)
    ensures p in Paths(Select(es, keep)) <==> exists e | e in es :: keep(e) && e.at == p
  {
    var chosen := Select(es, keep);
    if p in Paths(chosen) {
      var i :| 0 <= i < |chosen| && Paths(chosen)[i] == p;
      SelectIn(es, keep, chosen[i]);
    }
    if e :| e in es && keep(e) && e.at == p {
      SelectIn(es, keep, e);
      var i :| 0 <= i < |chosen| && chosen[i] == e;
      assert Paths(chosen)[i] == p;
    }
  }

  /** The outermost removable entry around a removable one. */
  lemma {:induction false} OuterOf(es: seq<Entry>, today: int, e: Entry) returns (o: Entry)
    requires e in es && Removable(es, today, e)
    ensures o in es && Outermost(es, today, o) && o.at <= e.at
    decreases |e.at|
  {
    if Outermost(es, today, e) {
      o := e;
    } else {
      var wider :| wider in es && Removable(es, today, wider) && wider.at != e.at && wider.at <= e.at;
      o := OuterOf(es, today, wider);
    }
  }

  /**
    The plan is exact: an entry lies in or under a planned path if and only if its own date
    has passed and it holds no kept entry. So no unexpired or unreadable entry is removed.
   */
  lemma PlanExact(es: seq<Entry>, today: int, e: Entry)
    requires OnePerDirectory(es) && e in es
    ensures Doomed(PlanOf(es, today), e.at) <==> Removable(es, today, e)
  {
    var plan := PlanOf(es, today);
    if Removable(es, today, e) {
      var o := OuterOf(es, today, e);
      PlannedIn(es, today, o.at);
    }
    if x :| x in plan.expired && x <= e.at {
      PlannedIn(es, today, x);
      var o :| o in es && Outermost(es, today, o) && o.at == x;
      SameEntry(es, o, e);
      if k :| k in es && !Passed(k, today) && k.at != e.at && e.at <= k.at {
        SameEntry(es, o, k);
        assert o.at != k.at;
      }
    }
  }

  lemma SameEntry(es: seq<Entry>, a: Entry, b: Entry)
    requires OnePerDirectory(es) && a in es && b in es
    ensures a.at == b.at ==> a == b
  {
  }

  /** No planned path lies inside another, and none is planned twice. */
  ghost predicate Antichain(paths: seq<Path>) {
    forall i, j | 0 <= i < |paths| && 0 <= j < |paths| && i != j :: !(paths[i] <= paths[j])
  }

  lemma {:induction false} SelectDistinct(es: seq<Entry>, keep: Entry -> bool)
    requires OnePerDirectory(es)
    ensures OnePerDirectory(Select(es, keep))
  {
    if es != [] {
      SelectDistinct(es[1..], keep);
      forall e | e in Select(es[1..], keep) ensures e.at != es[0].at {
        SelectIn(es[1..], keep, e);
      }
    }
  }

  lemma ExpiredAntichain(es: seq<Entry>, today: int)
    requires OnePerDirectory(es)
    ensures Antichain(PlanOf(es, today).expired)
  {
    var keep := WhenOutermost(es, today);
    var chosen := Select(es, keep);
    SelectDistinct(es, keep);
    forall i, j | 0 <= i < |chosen| && 0 <= j < |chosen| && i != j ensures !(chosen[i].at <= chosen[j].at) {
      SelectIn(es, keep, chosen[i]);
      SelectIn(es, keep, chosen[j]);
      assert chosen[i].at != chosen[j].at;
    }
  }

  lemma PlannedOnce(es: seq<Entry>, today: int, e: Entry, i: int, j: int)
    requires OnePerDirectory(es) && e in es
    requires var expired := PlanOf(es, today).expired;
             0 <= i < |expired| && 0 <= j < |expired| && expired[i] <= e.at && expired[j] <= e.at
    ensures i == j
  {
    ExpiredAntichain(es, today);
    var x, y := PlanOf(es, today).expired[i], PlanOf(es, today).expired[j];
    assert if |x| <= |y| then x <= y else y <= x;
  }

  /** A removable entry lies under exactly one planned path. */
  lemma OnePlannedPath(es: seq<Entry>, today: int, e: Entry) returns (i: nat)
    requires OnePerDirectory(es) && e in es && Removable(es, today, e)
    ensures var expired := PlanOf(es, today).expired;
            && i < |expired| && expired[i] <= e.at
            && forall j | 0 <= j < |expired| && expired[j] <= e.at :: j == i
  {
    PlanExact(es, today, e);
    var expired := PlanOf(es, today).expired;
    var x :| x in expired && x <= e.at;
    i :| 0 <= i < |expired| && expired[i] == x;
    forall j | 0 <= j < |expired| && expired[j] <= e.at ensures j == i {
      PlannedOnce(es, today, e, i, j);
    }
  }

  /** Every entry past its date is either removed or reported held, never both. */
  lemma RemovedOrHeld(es: seq<Entry>, today: int, e: Entry)
    requires OnePerDirectory(es) && e in es && Passed(e, today)
    ensures Doomed(PlanOf(es, today), e.at) <==> e.at !in PlanOf(es, today).held
  {
    PlanExact(es, today, e);
    PlannedIn(es, today, e.at);
    if e.at in PlanOf(es, today).held {
      var h :| h in es && Passed(h, today) && Blocked(es, today, h) && h.at == e.at;
      SameEntry(es, h, e);
    }
  }

  lemma Member(paths: seq<Path>) returns (p: Path)
    requires paths != []
    ensures p in paths
  {
    p := paths[0];
  }

  /** A real marker file below the root makes its directory reclaimable. */
  predicate Reclaims(m: Marker) {
    m.parent != [] && m.regular
  }

  /** The marker's date has passed and no marker strictly inside keeps its own directory. */
  ghost predicate Expired(markers: seq<Marker>, today: int, m: Marker) {
    && m.date.Some? && m.date.value < today
    && forall k | k in markers && Reclaims(k) && m.parent < k.parent :: k.date.Some? && k.date.value < today
  }

  lemma {:induction false} EntryFrom(markers: seq<Marker>, e: Entry)
    ensures e in Entries(markers) <==> exists m | m in markers :: Reclaims(m) && e == Entry(m.parent, m.date)
  {
    if markers != [] {
      EntryFrom(markers[1..], e);
      if m :| m in markers && Reclaims(m) && e == Entry(m.parent, m.date) {
        assert m == markers[0] || m in markers[1..];
      }
    }
  }

  lemma ExpiredRemovable(markers: seq<Marker>, today: int, m: Marker)
    requires m in markers && Reclaims(m)
    ensures Entry(m.parent, m.date) in Entries(markers)
    ensures Removable(Entries(markers), today, Entry(m.parent, m.date)) <==> Expired(markers, today, m)
  {
    var es, e := Entries(markers), Entry(m.parent, m.date);
    EntryFrom(markers, e);
    if k :| k in es && !Passed(k, today) && k.at != e.at && e.at <= k.at {
      EntryFrom(markers, k);
      var inner :| inner in markers && Reclaims(inner) && k == Entry(inner.parent, inner.date);
      assert m.parent < inner.parent;
    }
    if k :| k in markers && Reclaims(k) && m.parent < k.parent && !(k.date.Some? && k.date.value < today) {
      EntryFrom(markers, Entry(k.parent, k.date));
      assert Blocked(es, today, e);
    }
  }

  /** On what a walk finds, one marker a directory, the plan removes exactly the expired directories. */
  lemma WalkExact(markers: seq<Marker>, today: int)
    requires DistinctMarkers(markers)
    ensures var plan := PlanOf(Entries(markers), today);
            && Antichain(plan.expired)
            && forall m | m in markers && Reclaims(m) :: Doomed(plan, m.parent) <==> Expired(markers, today, m)
  {
    EntriesDistinct(markers);
    ExpiredAntichain(Entries(markers), today);
    forall m | m in markers && Reclaims(m)
      ensures Doomed(PlanOf(Entries(markers), today), m.parent) <==> Expired(markers, today, m)
    {
      ExpiredRemovable(markers, today, m);
      PlanExact(Entries(markers), today, Entry(m.parent, m.date));
    }
  }

  /** `plan_local_gc`. */
  method PlanLocalGc(rootExists: bool, markers: seq<Marker>, today: int) returns (plan: Plan)
    ensures plan == if rootExists then PlanOf(Entries(markers), today) else Plan([], [], [])
    ensures rootExists && DistinctMarkers(markers) ==>
              Antichain(plan.expired) && forall m | m in markers && Reclaims(m) ::
                                           Doomed(plan, m.parent) <==> Expired(markers, today, m)
  {
    if !rootExists {
      return Plan([], [], []);
    }
    var expiries: seq<Entry> := [];
    for i := 0 to |markers|
      invariant expiries == Entries(markers[..i])
    {
      EntriesNext(markers, i);
      if markers[i].parent != [] && markers[i].regular {
        expiries := expiries + [Entry(markers[i].parent, markers[i].date)];
      }
    }
    assert markers[..|markers|] == markers;
    var kept := Select(expiries, WhenKept(today));
    var removable: seq<Entry> := [];
    var held: seq<Entry> := [];
    for i := 0 to |expiries|
      invariant removable == Select(expiries[..i], WhenRemovable(expiries, today))
      invariant held == Select(expiries[..i], WhenHeld(expiries, today))
    {
      var entry := expiries[i];
      SelectNext(expiries, i, WhenRemovable(expiries, today));
      SelectNext(expiries, i, WhenHeld(expiries, today));
      if Passed(entry, today) {
        KeptBlocks(expiries, today, kept, entry);
        if exists inner | inner in kept :: inner.at != entry.at && entry.at <= inner.at {
          held := held + [entry];
        } else {
          removable := removable + [entry];
        }
      }
    }
    assert expiries[..|expiries|] == expiries;
    var outermost := Select(removable, WhenOuter(removable));
    OutermostOf(expiries, today, removable);
    plan := Plan(Paths(outermost), Paths(held), Paths(Select(expiries, WhenUnreadable())));
    if DistinctMarkers(markers) {
      WalkExact(markers, today);
    }
  }

  /** The entries a walk still finds when only the directories of `present` are left. */
  function Found(es: seq<Entry>, present: set<Path>): seq<Entry> {
    Select(es, (e: Entry) => e.at in present)
  }

  /**
    `after` is what applying the plan leaves of the directories `before`: the entries found there are those
    that were not removable, and planning again on the same day removes nothing and reports the same holds.
   */
  lemma SecondPassEmpty(es: seq<Entry>, today: int, before: set<Path>, after: set<Path>)
    requires OnePerDirectory(es) && forall e | e in es :: e.at in before
    requires after == set p | p in before && !Doomed(PlanOf(es, today), p)
    ensures var rest := Found(es, after);
            && (forall e :: e in rest <==> e in es && !Removable(es, today, e))
            && PlanOf(rest, today).expired == []
            && (forall p :: p in PlanOf(rest, today).held <==> p in PlanOf(es, today).held)
            && (forall p :: p in PlanOf(rest, today).unreadable <==> p in PlanOf(es, today).unreadable)
  {
    var plan := PlanOf(es, today);
    var rest := Found(es, after);
    forall e ensures e in rest <==> e in es && !Removable(es, today, e) {
      SelectIn(es, (e: Entry) => e.at in after, e);
      if e in es {
        PlanExact(es, today, e);
      }
    }
    forall e ensures Blocked(rest, today, e) <==> Blocked(es, today, e) {
      if k :| k in es && !Passed(k, today) && k.at != e.at && e.at <= k.at {
        assert k in rest;
      }
    }
    forall p ensures p !in PlanOf(rest, today).expired
             ensures p in PlanOf(rest, today).held <==> p in plan.held
             ensures p in PlanOf(rest, today).unreadable <==> p in plan.unreadable {
      PlannedIn(rest, today, p);
      PlannedIn(es, today, p);
    }
    var again := PlanOf(rest, today).expired;
    if again != [] {
      var p := Member(again);
    }
  }

  // ---- applying the plan ---------------------------------------------------

  /** Where a path resolves to, below the root; nothing when it escapes the root. */
  type Resolver = Path -> Option<Path>

  predicate Inside(resolve: Resolver, p: Path) {
    resolve(p).Some? && resolve(p).value != []
  }

  datatype Failure = Refused | Missing

  /** The directories present under the local root. */
  class LocalStore {
    var present: set<Path>

    constructor (present: set<Path>)
      ensures this.present == present
    {
      this.present := present;
    }

    /** `shutil.rmtree`: the directory with everything below it; an error when it is gone. */
    method RmTree(entry: Path) returns (ok: bool)
      modifies this
      ensures ok <==> entry in old(present)
      ensures present == if ok then set p | p in old(present) && !(entry <= p) else old(present)
    {
      ok := entry in present;
      if ok {
        present := set p | p in present && !(entry <= p);
      }
    }

    /**
      `apply_local_gc`: check every path before removing any, so a refusal removes nothing;
      over an antichain of present paths no removal takes a later one's directory with it.
     */
    method ApplyLocalGc(plan: Plan, resolve: Resolver) returns (failure: Option<Failure>)
      modifies this
      ensures failure == Some(Refused) <==>
                exists x | x in plan.expired :: resolve(x) == None || resolve(x) == Some([])
      ensures failure == Some(Refused) ==> present == old(present)
      ensures failure == None ==> present == set p | p in old(present) && !Doomed(plan, p)
      ensures Antichain(plan.expired) && (forall x | x in plan.expired :: x in old(present)) ==>
                failure != Some(Missing)
    {
      for i := 0 to |plan.expired|
        invariant forall j | 0 <= j < i :: Inside(resolve, plan.expired[j])
        invariant present == old(present)
      {
        if !Inside(resolve, plan.expired[i]) {
          return Some(Refused);
        }
      }
      for i := 0 to |plan.expired|
        invariant present == set p | p in old(present) && !exists j | 0 <= j < i :: plan.expired[j] <= p
      {
        var ok := RmTree(plan.expired[i]);
        if !ok {
          if plan.expired[i] in old(present) {
            var j :| 0 <= j < i && plan.expired[j] <= plan.expired[i];
            assert !Antichain(plan.expired);
          }
          return Some(Missing);
        }
      }
      forall p ensures Doomed(plan, p) <==> exists j | 0 <= j < |plan.expired| :: plan.expired[j] <= p {
        if x :| x in plan.expired && x <= p {
          var j :| 0 <= j < |plan.expired| && plan.expired[j] == x;
        }
        if j :| 0 <= j < |plan.expired| && plan.expired[j] <= p {
          assert plan.expired[j] in plan.expired;
        }
      }
      return None;
    }
  }
}
