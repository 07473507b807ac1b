/** Freshness keys, the receipts bound to them, and when a receipt may stand in for a proof. */
module Receipts {
  import opened Values
  import opened Sorting
  import opened Revisions

  // ---- the key and the tables ----------------------------------------------

  datatype External = External(name: string, digest: string)

  datatype Key = Key(binding: Binding, criterionDigest: string, gateDigest: string, selectorDigest: string,
                     policyDigest: string, runnerDigest: string, environmentDigest: string, inputs: seq<External>)

  /** External inputs are declared once each, and the binding and the runner name one environment. */
  predicate ValidKey(k: Key) {
    && ValidBinding(k.binding)
    && (forall i, j | 0 <= i < j < |k.inputs| :: k.inputs[i].name != k.inputs[j].name)
    && (k.binding.environmentDigest.Some? ==> k.binding.environmentDigest.value == k.environmentDigest)
  }

  /** A key over a bound revision, with inputs declared once each, on the environment the revision names, if any. */
  ghost predicate Declared(k: Key) {
    && Bound(k.binding)
    && (forall i, j | 0 <= i < j < |k.inputs| :: k.inputs[i].name != k.inputs[j].name)
    && (k.binding.environmentDigest == None || k.binding.environmentDigest == Some(k.environmentDigest))
  }

  lemma DeclaredExact(k: Key)
    ensures ValidKey(k) <==> Declared(k)
  {
    BoundExact(k.binding);
  }

  datatype Component = Code | Criterion | Gate | Selector | Policy | Runner | Environment | ExternalInput

  const COMPONENTS: seq<Component> := [Code, Criterion, Gate, Selector, Policy, Runner, Environment, ExternalInput]

  datatype BindingField =
    | Repository | RefClass | HeadSha | TreeSha | ParentSha | Batch | Generation | Manifest
    | BoundCriteria | BoundPolicy | BoundEnvironment | BoundAt

  datatype KeyField =
    | CriterionDigest | GateDigest | SelectorDigest | PolicyDigest | RunnerDigest | EnvironmentDigest | Inputs

  const BINDING_FIELDS: seq<BindingField> :=
    [Repository, RefClass, HeadSha, TreeSha, ParentSha, Batch, Generation, Manifest, BoundCriteria, BoundPolicy,
     BoundEnvironment, BoundAt]

  const KEY_FIELDS: seq<KeyField> :=
    [CriterionDigest, GateDigest, SelectorDigest, PolicyDigest, RunnerDigest, EnvironmentDigest, Inputs]

  /** `REVISION_BINDING_COMPONENTS`: commit identity and the time of binding feed no component. */
  function BindingComponent(f: BindingField): Option<Component> {
    match f
    case Repository | RefClass | TreeSha | Batch | Generation | Manifest => Some(Code)
    case BoundCriteria => Some(Criterion)
    case BoundPolicy => Some(Policy)
    case BoundEnvironment => Some(Environment)
    case HeadSha | ParentSha | BoundAt => None
  }

  /** `FRESHNESS_KEY_COMPONENTS`. */
  function KeyComponent(f: KeyField): Component {
    match f
    case CriterionDigest => Criterion
    case GateDigest => Gate
    case SelectorDigest => Selector
    case PolicyDigest => Policy
    case RunnerDigest => Runner
    case EnvironmentDigest => Environment
    case Inputs => ExternalInput
  }

  /** The values a digested payload holds. */
  datatype Json =
    | Absent
    | Text(text: string)
    | Number(n: int)
    | Class(kind: RefKind)
    | RepositoryUrn(repository: RepositoryRef)
    | BatchUrn(batch: BatchRef)
    | Pairs(pairs: seq<(string, string)>)

  /** Where a value is filed in a payload: the two sources never share a name. */
  datatype Name = InBinding(b: BindingField) | InKey(k: KeyField)

  type Payload = map<Name, Json>

  function TextOrNull(o: Option<string>): Json {
    if o.Some? then Text(o.value) else Absent
  }

  function BindingValue(b: Binding, f: BindingField): Json {
    match f
    case Repository => RepositoryUrn(b.repository)
    case RefClass => Class(b.refKind)
    case HeadSha => Text(b.headSha)
    case TreeSha => Text(b.treeSha)
    case ParentSha => TextOrNull(b.parentSha)
    case Batch => BatchUrn(b.batch)
    case Generation => Number(b.generation)
    case Manifest => Text(b.manifestDigest)
    case BoundCriteria => Text(b.criteriaDigest)
    case BoundPolicy => Text(b.policyDigest)
    case BoundEnvironment => TextOrNull(b.environmentDigest)
    case BoundAt => Number(b.boundAt)
  }

  function AsPairs(inputs: seq<External>): seq<(string, string)> {
    seq(|inputs|, i requires 0 <= i < |inputs| => (inputs[i].name, inputs[i].digest))
  }

  /** Pairs ordered by name, then by digest. */
  predicate PairLe(a: (string, string), b: (string, string)) {
    if a.0 == b.0 then TextLe(a.1, b.1) else TextLe(a.0, b.0)
  }

  /** External inputs are a declared set, so they are digested in sorted order. */
  function SortedInputs(k: Key): seq<(string, string)> {
    Sort(AsPairs(k.inputs), PairLe)
  }

  function KeyValue(k: Key, f: KeyField): Json {
    match f
    case CriterionDigest => Text(k.criterionDigest)
    case GateDigest => Text(k.gateDigest)
    case SelectorDigest => Text(k.selectorDigest)
    case PolicyDigest => Text(k.policyDigest)
    case RunnerDigest => Text(k.runnerDigest)
    case EnvironmentDigest => Text(k.environmentDigest)
    case Inputs => Pairs(SortedInputs(k))
  }

  // ---- component digests ---------------------------------------------------

  predicate Feeds(n: Name, c: Component) {
    match n
    case InBinding(f) => BindingComponent(f) == Some(c)
    case InKey(f) => KeyComponent(f) == c
  }

  function ValueOf(k: Key, n: Name): Json {
    match n
    case InBinding(f) => BindingValue(k.binding, f)
    case InKey(f) => KeyValue(k, f)
  }

  function Names(bindings: seq<BindingField>, keys: seq<KeyField>): set<Name> {
    (set f | f in bindings :: InBinding(f)) + set f | f in keys :: InKey(f)
  }

  /** The named values that feed one component. */
  function Group(k: Key, c: Component, names: set<Name>): Payload {
    map n | n in names && Feeds(n, c) :: ValueOf(k, n)
  }

  /** Canonical JSON under SHA-256, on a component's payload and on the table of component digests. */
  datatype Digests = Digests(payload: Payload -> string, table: map<Component, string> -> string)

  ghost predicate Injective(d: Digests) {
    && (forall a, b :: d.payload(a) == d.payload(b) ==> a == b)
    && (forall a, b :: d.table(a) == d.table(b) ==> a == b)
  }

  function ComponentDigest(d: Digests, k: Key, c: Component): string {
    d.payload(Group(k, c, Names(BINDING_FIELDS, KEY_FIELDS)))
  }

  function Digester(d: Digests, k: Key): Component -> string {
    c => ComponentDigest(d, k, c)
  }

  /** One entry a component. */
  function Tabled(f: Component -> string): map<Component, string> {
    map c | c in COMPONENTS :: f(c)
  }

  function ComponentTable(d: Digests, k: Key): map<Component, string> {
    Tabled(Digester(d, k))
  }

  /** One more named value lands in the component it feeds and leaves the others as they are. */
  lemma GroupStep(k: Key, c: Component, names: set<Name>, n: Name)
    ensures Group(k, c, names + {n}) ==
            if Feeds(n, c) then Group(k, c, names)[n := ValueOf(k, n)] else Group(k, c, names)
  {
  }

  type Groups = map<Component, Payload>

  ghost predicate Filled(k: Key, groups: Groups, names: set<Name>) {
    && (forall c :: c in groups)
    && forall c :: groups[c] == Group(k, c, names)
  }

  /** File one named value under the component it feeds. */
  method File(k: Key, groups: Groups, ghost names: set<Name>, n: Name, c: Component) returns (filed: Groups)
    requires Filled(k, groups, names) && Feeds(n, c)
    ensures Filled(k, filed, names + {n})
  {
    filed := groups[c := groups[c][n := ValueOf(k, n)]];
    forall d ensures filed[d] == Group(k, d, names + {n}) {
      GroupStep(k, d, names, n);
    }
  }

  /** The fields of the revision binding, those that feed a component. */
  method FileBinding(k: Key, fields: seq<BindingField>, empty: Groups) returns (groups: Groups)
    requires Filled(k, empty, {})
    ensures Filled(k, groups, Names(fields, []))
  {
    groups := empty;
    assert Names(fields[..0], []) == {};
    for i := 0 to |fields|
      invariant Filled(k, groups, Names(fields[..i], []))
    {
      assert fields[..i + 1] == fields[..i] + [fields[i]];
      ghost var names := Names(fields[..i], []);
      assert Names(fields[..i + 1], []) == names + {InBinding(fields[i])};
      var component := BindingComponent(fields[i]);
      if component.Some? {
        groups := File(k, groups, names, InBinding(fields[i]), component.value);
      } else {
        forall c ensures groups[c] == Group(k, c, names + {InBinding(fields[i])}) {
          GroupStep(k, c, names, InBinding(fields[i]));
        }
      }
    }
    assert fields[..|fields|] == fields;
  }

  /** The direct fields of the key. */
  method FileKey(k: Key, bindings: seq<BindingField>, fields: seq<KeyField>, bound: Groups) returns (groups: Groups)
    requires Filled(k, bound, Names(bindings, []))
    ensures Filled(k, groups, Names(bindings, fields))
  {
    groups := bound;
    assert fields[..0] == [];
    for i := 0 to |fields|
      invariant Filled(k, groups, Names(bindings, fields[..i]))
    {
      assert fields[..i + 1] == fields[..i] + [fields[i]];
      ghost var names := Names(bindings, fields[..i]);
      assert Names(bindings, fields[..i + 1]) == names + {InKey(fields[i])};
      groups := File(k, groups, names, InKey(fields[i]), KeyComponent(fields[i]));
    }
    assert fields[..|fields|] == fields;
  }

  /** `component_digests`. */
  method ComponentDigests(d: Digests, k: Key) returns (digests: map<Component, string>)
    ensures digests == ComponentTable(d, k)
  {
    var groups: Groups := map c | c in COMPONENTS :: map[];
    forall c ensures c in groups && groups[c] == Group(k, c, {}) {
      EveryComponent(c);
    }
    groups := FileBinding(k, BINDING_FIELDS, groups);
    groups := FileKey(k, BINDING_FIELDS, KEY_FIELDS, groups);
    digests := map c | c in COMPONENTS :: d.payload(groups[c]);
  }

  lemma EveryComponent(c: Component)
    ensures c in COMPONENTS
  {
    match c
    case Code => assert COMPONENTS[0] == c;
    case Criterion => assert COMPONENTS[1] == c;
    case Gate => assert COMPONENTS[2] == c;
    case Selector => assert COMPONENTS[3] == c;
    case Policy => assert COMPONENTS[4] == c;
    case Runner => assert COMPONENTS[5] == c;
    case Environment => assert COMPONENTS[6] == c;
    case ExternalInput => assert COMPONENTS[7] == c;
  }

  // ---- what a digest identifies --------------------------------------------

  /** The declared external inputs, as the set they are. */
  predicate SameInputs(a: Key, b: Key) {
    (set x | x in a.inputs) == (set x | x in b.inputs)
  }

  /** The keyed inputs of one component are the same in both keys. */
  predicate Agree(a: Key, b: Key, c: Component) {
    match c
    case Code =>
      && a.binding.repository == b.binding.repository && a.binding.refKind == b.binding.refKind
      && a.binding.treeSha == b.binding.treeSha && a.binding.batch == b.binding.batch
      && a.binding.generation == b.binding.generation && a.binding.manifestDigest == b.binding.manifestDigest
    case Criterion => a.binding.criteriaDigest == b.binding.criteriaDigest && a.criterionDigest == b.criterionDigest
    case Gate => a.gateDigest == b.gateDigest
    case Selector => a.selectorDigest == b.selectorDigest
    case Policy => a.binding.policyDigest == b.binding.policyDigest && a.policyDigest == b.policyDigest
    case Runner => a.runnerDigest == b.runnerDigest
    case Environment =>
      a.binding.environmentDigest == b.binding.environmentDigest && a.environmentDigest == b.environmentDigest
    case ExternalInput => SameInputs(a, b)
  }

  ghost predicate SameProof(a: Key, b: Key) {
    forall c :: Agree(a, b, c)
  }

  lemma PairOrder()
    ensures TotalOrder(PairLe)
  {
    TextOrder();
  }

  lemma {:induction false} DistinctCounts<T>(s: seq<T>, x: T)
    requires Distinct(s)
    ensures multiset(s)[x] == if x in s then 1 else 0
  {
    if s != [] {
      assert s == [s[0]] + s[1..];
      DistinctCounts(s[1..], x);
    }
  }

  lemma DistinctSets<T>(a: seq<T>, b: seq<T>)
    requires Distinct(a) && Distinct(b)
    ensures multiset(a) == multiset(b) <==> (set x | x in a) == (set x | x in b)
  {
    var p, q := set x | x in a, set x | x in b;
    forall x ensures multiset(a)[x] == (if x in p then 1 else 0) && multiset(b)[x] == if x in q then 1 else 0 {
      DistinctCounts(a, x);
      DistinctCounts(b, x);
    }
    if multiset(a) == multiset(b) {
      forall x ensures x in p <==> x in q {
        assert multiset(a)[x] == multiset(b)[x];
      }
    }
  }

  lemma PairsOfInputs(inputs: seq<External>, p: (string, string))
    ensures p in AsPairs(inputs) <==> External(p.0, p.1) in inputs
  {
    if p in AsPairs(inputs) {
      var i :| 0 <= i < |inputs| && AsPairs(inputs)[i] == p;
      assert inputs[i] == External(p.0, p.1);
    }
    if External(p.0, p.1) in inputs {
      var i :| 0 <= i < |inputs| && inputs[i] == External(p.0, p.1);
      assert AsPairs(inputs)[i] == p;
    }
  }

  function Unpaired(p: (string, string)): External {
    External(p.0, p.1)
  }

  /** The same pairs are listed exactly when the same inputs are. */
  lemma PairSets(a: Key, b: Key)
    ensures (set x | x in AsPairs(a.inputs)) == (set x | x in AsPairs(b.inputs)) <==> SameInputs(a, b)
  {
    var p, q := set x | x in AsPairs(a.inputs), set x | x in AsPairs(b.inputs);
    var s, t := set x | x in a.inputs, set x | x in b.inputs;
    forall x ensures x in p <==> Unpaired(x) in s
             ensures x in q <==> Unpaired(x) in t {
      PairsOfInputs(a.inputs, x);
      PairsOfInputs(b.inputs, x);
    }
    if p == q {
      forall e ensures e in s <==> e in t {
        assert Unpaired((e.name, e.digest)) == e;
      }
    }
  }

  lemma PairsCanonical(p: seq<(string, string)>, q: seq<(string, string)>)
    ensures Sort(p, PairLe) == Sort(q, PairLe) <==> multiset(p) == multiset(q)
  {
    PairOrder();
    SortCanonical(p, q, PairLe);
  }

  lemma PairsDistinct(inputs: seq<External>)
    requires forall i, j | 0 <= i < j < |inputs| :: inputs[i].name != inputs[j].name
    ensures Distinct(AsPairs(inputs))
  {
  }

  lemma PairsCounted(a: Key, b: Key)
    requires ValidKey(a) && ValidKey(b)
    ensures multiset(AsPairs(a.inputs)) == multiset(AsPairs(b.inputs)) <==> SameInputs(a, b)
  {
    PairsDistinct(a.inputs);
    PairsDistinct(b.inputs);
    DistinctSets(AsPairs(a.inputs), AsPairs(b.inputs));
    PairSets(a, b);
  }

  lemma SameInputsSortAlike(a: Key, b: Key)
    requires ValidKey(a) && ValidKey(b) && SameInputs(a, b)
    ensures SortedInputs(a) == SortedInputs(b)
  {
    PairsCounted(a, b);
    PairsCanonical(AsPairs(a.inputs), AsPairs(b.inputs));
  }

  lemma SortAlikeSameInputs(a: Key, b: Key)
    requires ValidKey(a) && ValidKey(b) && SortedInputs(a) == SortedInputs(b)
    ensures SameInputs(a, b)
  {
    PairsCanonical(AsPairs(a.inputs), AsPairs(b.inputs));
    PairsCounted(a, b);
  }

  /** Sorting the declared inputs forgets their order and nothing else. */
  lemma InputsCanonical(a: Key, b: Key)
    requires ValidKey(a) && ValidKey(b)
    ensures KeyValue(a, Inputs) == KeyValue(b, Inputs) <==> SameInputs(a, b)
  {
    if SameInputs(a, b) {
      SameInputsSortAlike(a, b);
    } else if SortedInputs(a) == SortedInputs(b) {
      SortAlikeSameInputs(a, b);
    }
  }

  /** The digested inputs come in the order of their names. */
  lemma InputsInOrder(k: Key, i: nat, j: nat)
    requires ValidKey(k) && i < j < |SortedInputs(k)|
    ensures TextBefore(SortedInputs(k)[i].0, SortedInputs(k)[j].0)
  {
    var sorted := SortedInputs(k);
    PairOrder();
    SortSorted(AsPairs(k.inputs), PairLe);
    assert PairLe(sorted[i], sorted[j]);
    TextLeExact(sorted[i].0, sorted[j].0);
    NamesApart(k, i, j);
  }

  lemma CountedTwice<T>(s: seq<T>, i: nat, j: nat)
    requires i < j < |s| && s[i] == s[j]
    ensures multiset(s)[s[i]] >= 2
  {
    assert s == s[..j] + s[j..] && s[..j][i] == s[i] && s[j..][0] == s[i];
    assert s[i] in multiset(s[..j]) && s[i] in multiset(s[j..]);
    assert multiset(s) == multiset(s[..j]) + multiset(s[j..]);
  }

  lemma SortedPair(k: Key, i: nat) returns (a: nat)
    requires i < |SortedInputs(k)|
    ensures a < |k.inputs| && AsPairs(k.inputs)[a] == SortedInputs(k)[i]
  {
    var pairs, sorted := AsPairs(k.inputs), SortedInputs(k);
    assert sorted[i] in multiset(sorted) && sorted[i] in multiset(pairs);
    a :| 0 <= a < |pairs| && pairs[a] == sorted[i];
  }

  /** No name is digested twice. */
  lemma NamesApart(k: Key, i: nat, j: nat)
    requires ValidKey(k) && i < j < |SortedInputs(k)|
    ensures SortedInputs(k)[i].0 != SortedInputs(k)[j].0
  {
    var a := SortedPair(k, i);
    var b := SortedPair(k, j);
    if SortedInputs(k)[i] == SortedInputs(k)[j] {
      CountedTwice(SortedInputs(k), i, j);
      PairsDistinct(k.inputs);
      DistinctCounts(AsPairs(k.inputs), SortedInputs(k)[i]);
    }
  }

  ghost predicate SameValues(a: Key, b: Key, c: Component) {
    forall n | Feeds(n, c) :: ValueOf(a, n) == ValueOf(b, n)
  }

  lemma EveryName(n: Name)
    ensures n in Names(BINDING_FIELDS, KEY_FIELDS)
  {
    match n {
      case InBinding(f) =>
        assert exists i | 0 <= i < |BINDING_FIELDS| :: BINDING_FIELDS[i] == f by {
          var i := match f
                   case Repository => 0 case RefClass => 1 case HeadSha => 2 case TreeSha => 3 case ParentSha => 4
                   case Batch => 5 case Generation => 6 case Manifest => 7 case BoundCriteria => 8
                   case BoundPolicy => 9 case BoundEnvironment => 10 case BoundAt => 11;
          assert BINDING_FIELDS[i] == f;
        }
      case InKey(f) =>
        assert exists i | 0 <= i < |KEY_FIELDS| :: KEY_FIELDS[i] == f by {
          var i := match f
                   case CriterionDigest => 0 case GateDigest => 1 case SelectorDigest => 2 case PolicyDigest => 3
                   case RunnerDigest => 4 case EnvironmentDigest => 5 case Inputs => 6;
          assert KEY_FIELDS[i] == f;
        }
    }
  }

  lemma GroupsAgree(a: Key, b: Key, c: Component)
    ensures Group(a, c, Names(BINDING_FIELDS, KEY_FIELDS)) == Group(b, c, Names(BINDING_FIELDS, KEY_FIELDS))
            <==> SameValues(a, b, c)
  {
    var all := Names(BINDING_FIELDS, KEY_FIELDS);
    var p, q := Group(a, c, all), Group(b, c, all);
    forall n | Feeds(n, c) ensures n in p && p[n] == ValueOf(a, n) && n in q && q[n] == ValueOf(b, n) {
      EveryName(n);
    }
    if SameValues(a, b, c) {
      assert p.Keys == q.Keys;
    }
  }

  /** The field behind a name is the same in both keys. */
  predicate SameField(a: Key, b: Key, n: Name) {
    match n
    case InBinding(Repository) => a.binding.repository == b.binding.repository
    case InBinding(RefClass) => a.binding.refKind == b.binding.refKind
    case InBinding(HeadSha) => a.binding.headSha == b.binding.headSha
    case InBinding(TreeSha) => a.binding.treeSha == b.binding.treeSha
    case InBinding(ParentSha) => a.binding.parentSha == b.binding.parentSha
    case InBinding(Batch) => a.binding.batch == b.binding.batch
    case InBinding(Generation) => a.binding.generation == b.binding.generation
    case InBinding(Manifest) => a.binding.manifestDigest == b.binding.manifestDigest
    case InBinding(BoundCriteria) => a.binding.criteriaDigest == b.binding.criteriaDigest
    case InBinding(BoundPolicy) => a.binding.policyDigest == b.binding.policyDigest
    case InBinding(BoundEnvironment) => a.binding.environmentDigest == b.binding.environmentDigest
    case InBinding(BoundAt) => a.binding.boundAt == b.binding.boundAt
    case InKey(CriterionDigest) => a.criterionDigest == b.criterionDigest
    case InKey(GateDigest) => a.gateDigest == b.gateDigest
    case InKey(SelectorDigest) => a.selectorDigest == b.selectorDigest
    case InKey(PolicyDigest) => a.policyDigest == b.policyDigest
    case InKey(RunnerDigest) => a.runnerDigest == b.runnerDigest
    case InKey(EnvironmentDigest) => a.environmentDigest == b.environmentDigest
    case InKey(Inputs) => SameInputs(a, b)
  }

  lemma ValueTells(a: Key, b: Key, n: Name)
    requires ValidKey(a) && ValidKey(b)
    ensures ValueOf(a, n) == ValueOf(b, n) <==> SameField(a, b, n)
  {
    match n {
      case InKey(Inputs) => InputsCanonical(a, b);
      case InKey(f) => assert KeyValue(a, f) == KeyValue(b, f) <==> SameField(a, b, n);
      case InBinding(f) => assert BindingValue(a.binding, f) == BindingValue(b.binding, f) <==> SameField(a, b, n);
    }
  }

  /** The fields the tables send to a component are its keyed inputs, none missing and none extra. */
  lemma TablesComplete(a: Key, b: Key, c: Component)
    ensures (forall n | Feeds(n, c) :: SameField(a, b, n)) <==> Agree(a, b, c)
  {
    if forall n | Feeds(n, c) :: SameField(a, b, n) {
      match c {
        case Code =>
          assert Feeds(InBinding(Repository), c) && Feeds(InBinding(RefClass), c) && Feeds(InBinding(TreeSha), c);
          assert Feeds(InBinding(Batch), c) && Feeds(InBinding(Generation), c) && Feeds(InBinding(Manifest), c);
        case Criterion => assert Feeds(InBinding(BoundCriteria), c) && Feeds(InKey(CriterionDigest), c);
        case Gate => assert Feeds(InKey(GateDigest), c);
        case Selector => assert Feeds(InKey(SelectorDigest), c);
        case Policy => assert Feeds(InBinding(BoundPolicy), c) && Feeds(InKey(PolicyDigest), c);
        case Runner => assert Feeds(InKey(RunnerDigest), c);
        case Environment => assert Feeds(InBinding(BoundEnvironment), c) && Feeds(InKey(EnvironmentDigest), c);
        case ExternalInput => assert Feeds(InKey(Inputs), c);
      }
    }
  }

  /** One component's digests agree exactly when its own keyed inputs do. */
  lemma ComponentExact(d: Digests, a: Key, b: Key, c: Component)
    requires Injective(d) && ValidKey(a) && ValidKey(b)
    ensures ComponentDigest(d, a, c) == ComponentDigest(d, b, c) <==> Agree(a, b, c)
  {
    GroupsAgree(a, b, c);
    TablesComplete(a, b, c);
    forall n ensures ValueOf(a, n) == ValueOf(b, n) <==> SameField(a, b, n) {
      ValueTells(a, b, n);
    }
  }

  lemma TabledExact(f: Component -> string, g: Component -> string)
    ensures Tabled(f) == Tabled(g) <==> forall c :: f(c) == g(c)
  {
    forall c ensures c in Tabled(f) && Tabled(f)[c] == f(c) && c in Tabled(g) && Tabled(g)[c] == g(c) {
      EveryComponent(c);
    }
    if forall c :: f(c) == g(c) {
      assert Tabled(f).Keys == Tabled(g).Keys;
    }
  }

  /** `digest`: the key a receipt stores. */
  function KeyDigest(d: Digests, k: Key): string {
    d.table(ComponentTable(d, k))
  }

  /**
    Two keys digest alike exactly when every keyed input agrees and the external inputs are the same set:
    the commit, its parent, the time of binding and the order of inputs never matter, and nothing else is
    left out.
   */
  lemma DigestExact(d: Digests, a: Key, b: Key)
    requires Injective(d) && ValidKey(a) && ValidKey(b)
    ensures KeyDigest(d, a) == KeyDigest(d, b) <==> SameProof(a, b)
  {
    forall c ensures Digester(d, a)(c) == Digester(d, b)(c) <==> Agree(a, b, c) {
      ComponentExact(d, a, b, c);
    }
    TabledExact(Digester(d, a), Digester(d, b));
  }

  function Rebound(k: Key, head: string, parent: Option<string>, at: int, inputs: seq<External>): Key {
    k.(binding := k.binding.(headSha := head, parentSha := parent, boundAt := at), inputs := inputs)
  }

  lemma ReboundSame(k: Key, head: string, parent: Option<string>, at: int, inputs: seq<External>)
    requires ValidKey(k) && parent != Some(head) && multiset(inputs) == multiset(k.inputs)
    ensures ValidKey(Rebound(k, head, parent, at, inputs)) && SameProof(k, Rebound(k, head, parent, at, inputs))
  {
    NamesStayUnique(k.inputs, inputs);
    SameMembers(k.inputs, inputs);
    forall c ensures Agree(k, Rebound(k, head, parent, at, inputs), c) {
    }
  }

  /** Squashing or rebasing onto the same tree, binding again later, and relisting inputs keep the key. */
  lemma ReboundKeepsKey(d: Digests, k: Key, head: string, parent: Option<string>, at: int, inputs: seq<External>)
    requires Injective(d) && ValidKey(k) && parent != Some(head) && multiset(inputs) == multiset(k.inputs)
    ensures KeyDigest(d, Rebound(k, head, parent, at, inputs)) == KeyDigest(d, k)
  {
    ReboundSame(k, head, parent, at, inputs);
    DigestExact(d, k, Rebound(k, head, parent, at, inputs));
  }

  lemma SameMembers<T>(a: seq<T>, b: seq<T>)
    requires multiset(a) == multiset(b)
    ensures (set x | x in a) == (set x | x in b)
  {
    forall x ensures x in a <==> x in b {
      assert x in a <==> x in multiset(a);
      assert x in b <==> x in multiset(b);
    }
  }

  lemma {:induction false} TwiceCounted<T>(s: seq<T>, i: nat, j: nat)
    requires i < j < |s| && s[i] == s[j]
    ensures multiset(s)[s[i]] >= 2
  {
    assert s == s[..i] + [s[i]] + s[i + 1..j] + [s[j]] + s[j + 1..];
  }

  lemma NamesStayUnique(a: seq<External>, b: seq<External>)
    requires multiset(a) == multiset(b)
    requires forall i, j | 0 <= i < j < |a| :: a[i].name != a[j].name
    ensures forall i, j | 0 <= i < j < |b| :: b[i].name != b[j].name
  {
    forall i, j | 0 <= i < j < |b| ensures b[i].name != b[j].name {
      assert b[i] in multiset(a) && b[j] in multiset(a);
      DistinctCounts(a, b[i]);
      if b[i] == b[j] {
        TwiceCounted(b, i, j);
        assert false;
      }
      var k :| 0 <= k < |a| && a[k] == b[i];
      var l :| 0 <= l < |a| && a[l] == b[j];
    }
  }
}
