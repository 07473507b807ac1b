/** The schema migration of one configuration layer: a pipeline of in-place rewrites. */
module Migration {
  import opened Values
  import opened Layered

  const CURRENT_MARKER := "1.0"
  const LEGACY_MARKERS: set<string> := {"1.1", "2"}

  const CADENCE_ALIASES: map<string, string> :=
    map["every-wave" := "every-task", "every-iter" := "every-batch", "every-phase" := "every-milestone"]

  /** The tables the migration reads: retired dotted keys, and how a one-string co-author splits. */
  datatype Tables = Tables(retired: seq<Path>, splitCoauthor: string -> Option<(string, string)>)

  // ---- what each stage computes --------------------------------------------

  /** The mapping held at `k`, when there is one. */
  predicate HasMap(m: Body, k: string) {
    k in m && m[k].Map?
  }

  /** Drop some keys of the section `k`, and the section once nothing is left in it. */
  function DropKeys(m: Body, k: string, keys: set<string>): Body
    requires HasMap(m, k)
  {
    var rest := m[k].entries - keys;
    if rest == map[] then m - {k} else m[k := Map(rest)]
  }

  /** Drop the retired flow switches; a null `auto_accept` goes unreported. */
  function FlowStage(m: Body): (Body, bool) {
    if !HasMap(m, "flow") then (m, false)
    else
      var flow := m["flow"].entries;
      var changed := ("auto_accept" in flow && flow["auto_accept"] != Null) || "ask_on_decisions" in flow;
      (DropKeys(m, "flow", {"auto_accept", "ask_on_decisions"}), changed)
  }

  /** The legacy catalog rows that are switched on, under their selector spelling. */
  function EnabledAdapters(catalog: Value, names: seq<string>): seq<Value> {
    if names == [] || !catalog.Map? then []
    else
      var rest := EnabledAdapters(catalog, names[1..]);
      if HasMap(catalog.entries, names[0]) && "enabled" in catalog.entries[names[0]].entries
         && catalog.entries[names[0]].entries["enabled"] == Bool(true)
      then [CanonicalAdapter(Str(names[0]))] + rest
      else rest
  }

  /** The strings among `items`. */
  function Strings(items: seq<Value>): seq<Value> {
    if items == [] then []
    else if items[0].Str? then [items[0]] + Strings(items[1..])
    else Strings(items[1..])
  }

  /** Append each of `more` that is not there yet. */
  function AppendMissing(items: seq<Value>, more: seq<Value>): seq<Value>
    decreases |more|
  {
    if more == [] then items
    else AppendMissing(if more[0] in items then items else items + [more[0]], more[1..])
  }

  function ListAt(m: Body, k: string): seq<Value> {
    if k in m && m[k].List? then m[k].items else []
  }

  /** Promote the enabled catalog rows into the selector lists and drop the catalog. */
  function CatalogStage(m: Body): (Body, bool) {
    if !HasMap(m, "runtime") || "adapter_catalog" !in m["runtime"].entries then (m, false)
    else
      var runtime := m["runtime"].entries;
      var rest := runtime - {"adapter_catalog"};
      var enabled := EnabledAdapters(runtime["adapter_catalog"], ["claude", "codex", "opencode"]);
      var canonical := AppendMissing(Strings(ListAt(rest, "adapters")), enabled);
      if !runtime["adapter_catalog"].Map? || canonical == [] then (m["runtime" := Map(rest)], true)
      else
        var chosen := rest["adapters" := List(canonical)];
        (m["runtime" := Map(if ListAt(chosen, "preference") == []
                            then chosen["preference" := List(canonical)] else chosen)], true)
  }

  function CanonicalAdapter(v: Value): Value {
    if v == Str("claude") then Str("claude-code") else v
  }

  /** `done` followed by the canonical spelling of each of `items` not seen before. */
  function Normalized(done: seq<Value>, items: seq<Value>): seq<Value>
    decreases |items|
  {
    if items == [] then done
    else
      var c := CanonicalAdapter(items[0]);
      Normalized(if c in done then done else done + [c], items[1..])
  }

  function NormalizeList(m: Body, k: string): Body {
    if k in m && m[k].List? then m[k := List(Normalized([], m[k].items))] else m
  }

  /** Rewrite the legacy selector alias in both selector lists and drop repeats. */
  function NormalizeStage(m: Body): (Body, bool) {
    if !HasMap(m, "runtime") then (m, false)
    else
      var runtime := NormalizeList(NormalizeList(m["runtime"].entries, "adapters"), "preference");
      (m["runtime" := Map(runtime)], runtime != m["runtime"].entries)
  }

  /** The co-author table with its one-string project split, or dropped when it names no email. */
  function SplitProject(t: Tables, coauthor: Body, text: string): Body {
    match t.splitCoauthor(text)
    case None => coauthor - {"project"}
    case Some((name, email)) => coauthor["project" := Map(map["name" := Str(name), "email" := Str(email)])]
  }

  /** Split a one-string project co-author into its record. */
  function CoauthorStage(t: Tables, m: Body): (Body, bool) {
    if !HasMap(m, "vcs") || !HasMap(m["vcs"].entries, "coauthor") then (m, false)
    else
      var coauthor := m["vcs"].entries["coauthor"].entries;
      if "project" !in coauthor || !coauthor["project"].Str? then (m, false)
      else
        (Replace(m, "vcs", "coauthor", SplitProject(t, coauthor, coauthor["project"].text)), true)
  }

  /** Put a new mapping two keys deep. */
  function Replace(m: Body, k: string, j: string, inner: Body): Body
    requires HasMap(m, k)
  {
    m[k := Map(m[k].entries[j := Map(inner)])]
  }

  predicate IsAlias(k: string, v: Value) {
    k == "cadence" && v.Str? && v.text in CADENCE_ALIASES
  }

  /** Every aliased `cadence` value below `v` rewritten. */
  function CadenceValue(v: Value): Value {
    match v
    case Map(entries) =>
      Map(map k | k in entries ::
            if IsAlias(k, entries[k]) then Str(CADENCE_ALIASES[entries[k].text]) else CadenceValue(entries[k]))
    case List(items) => List(seq(|items|, i requires 0 <= i < |items| => CadenceValue(items[i])))
    case _ => v
  }

  /** Some `cadence` value below `v` is aliased. */
  predicate CadenceHit(v: Value) {
    match v
    case Map(entries) => exists k | k in entries :: IsAlias(k, entries[k]) || CadenceHit(entries[k])
    case List(items) => exists i | 0 <= i < |items| :: CadenceHit(items[i])
    case _ => false
  }

  function CadenceStage(m: Body): (Body, bool) {
    (CadenceValue(Map(m)).entries, CadenceHit(Map(m)))
  }

  predicate NonEmptyPaths(keys: seq<Path>) {
    forall i | 0 <= i < |keys| :: keys[i] != []
  }

  /** Unset the retired keys one after the other. */
  function RetiredStage(m: Body, keys: seq<Path>): (Body, bool)
    requires NonEmptyPaths(keys)
    decreases |keys|
  {
    if keys == [] then (m, false)
    else
      var (next, hit) := UnsetAt(m, keys[0]);
      var (rest, more) := RetiredStage(next, keys[1..]);
      (rest, hit || more)
  }

  function DropStage(m: Body, k: string): (Body, bool) {
    (m - {k}, k in m)
  }

  /** Replace the scalar runtime selector by the selector list. */
  function KindStage(m: Body): (Body, bool) {
    if !HasMap(m, "runtime") || "kind" !in m["runtime"].entries then (m, false)
    else
      var rest := m["runtime"].entries - {"kind"};
      var kind := m["runtime"].entries["kind"];
      (m["runtime" := Map(if ListAt(rest, "adapters") == [] then rest["adapters" := List([kind])] else rest)], true)
  }

  /** Copy the selector list as the preference list when there is none. */
  function ShimStage(m: Body): Body {
    if !HasMap(m, "runtime") then m
    else
      var runtime := m["runtime"].entries;
      if ListAt(runtime, "preference") != [] || ListAt(runtime, "adapters") == [] then m
      else m["runtime" := Map(runtime["preference" := runtime["adapters"]])]
  }

  /** `_cleanup_legacy_keys` before its closing preference shim. */
  function Strip(t: Tables, m: Body): (Body, bool)
    requires NonEmptyPaths(t.retired)
  {
    var (m1, c1) := DropStage(m, "lifecycle");
    var (m2, c2) := DropStage(m1, "plugins");
    var (m3, c3) := FlowStage(m2);
    var (m4, c4) := CatalogStage(m3);
    var (m5, c5) := NormalizeStage(m4);
    var (m6, c6) := CoauthorStage(t, m5);
    var (m7, c7) := CadenceStage(m6);
    var (m8, c8) := RetiredStage(m7, t.retired);
    var (m9, c9) := DropStage(m8, "hooks");
    var (m10, c10) := KindStage(m9);
    (m10, c1 || c2 || c3 || c4 || c5 || c6 || c7 || c8 || c9 || c10)
  }

  function Cleanup(t: Tables, m: Body): (Body, bool)
    requires NonEmptyPaths(t.retired)
  {
    var (stripped, changed) := Strip(t, m);
    if changed then (NormalizeStage(ShimStage(stripped)).0, true) else (stripped, false)
  }

  /** `existing` with every absent default filled in, at every depth both sides are mappings. */
  function Fill(existing: Body, default: Body): Body
    decreases Map(default)
  {
    map k | k in existing.Keys + default.Keys ::
      if k !in default then existing[k]
      else if k !in existing then default[k]
      else if default[k].Map? && existing[k].Map? then Map(Fill(existing[k].entries, default[k].entries))
      else existing[k]
  }

  function EnsureSection(m: Body, section: string, default: Body): Body {
    m[section := Map(if HasMap(m, section) then Fill(m[section].entries, default) else default)]
  }

  function EnsureSubkey(m: Body, parent: string, key: string, default: Value): Body {
    var holder: Body := if HasMap(m, parent) then m[parent].entries else map[];
    m[parent := Map(if key in holder then holder else holder[key := default])]
  }

  const TELEMETRY_DEFAULT: Body := map["enabled" := Bool(false), "db_kind" := Str("sqlite")]

  function Upgrade(t: Tables, m: Body): Body
    requires NonEmptyPaths(t.retired)
  {
    var cleaned := Cleanup(t, m["schema_version" := Str(CURRENT_MARKER)]).0;
    EnsureSubkey(EnsureSection(ShimStage(cleaned), "telemetry", TELEMETRY_DEFAULT), "profiles", "trusted", Map(map[]))
  }

  function Decimal(n: nat): string {
    (if n < 10 then "" else Decimal(n / 10)) + ["0123456789"[n % 10]]
  }

  /** `str(raw)` of a parsed scalar; a container never renders as a marker. */
  function Render(v: Value): string {
    match v
    case Null => "None"
    case Bool(b) => if b then "True" else "False"
    case Int(n) => if n < 0 then "-" + Decimal(-n) else Decimal(n)
    case Float(repr) => repr
    case Str(s) => s
    case List(_) => "[...]"
    case Map(_) => "{...}"
  }

  function Marker(m: Body): string {
    if "schema_version" in m then Render(m["schema_version"]) else CURRENT_MARKER
  }

  /** `migrate_config_payload`: the upgraded body and whether the caller is told it changed. */
  function Migrate(t: Tables, m: Body): Result<(Body, bool), string>
    requires NonEmptyPaths(t.retired)
  {
    if Marker(m) == CURRENT_MARKER then
      var (cleaned, changed) := Cleanup(t, m);
      if "schema_version" in m then Ok((cleaned, changed))
      else Ok((cleaned["schema_version" := Str(CURRENT_MARKER)], true))
    else if Marker(m) in LEGACY_MARKERS then Ok((Upgrade(t, m), true))
    else Err("unknown config schema_version")
  }

  // ---- what a settled body looks like --------------------------------------

  ghost predicate FlowSettled(m: Body) {
    HasMap(m, "flow") ==>
      var flow := m["flow"].entries;
      flow != map[] && "auto_accept" !in flow && "ask_on_decisions" !in flow
  }

  ghost predicate ListSettled(runtime: Body, k: string) {
    k in runtime && runtime[k].List? ==> Normalized([], runtime[k].items) == runtime[k].items
  }

  ghost predicate SelectorsSettled(m: Body) {
    HasMap(m, "runtime") ==>
      ListSettled(m["runtime"].entries, "adapters") && ListSettled(m["runtime"].entries, "preference")
  }

  /** No legacy selector key is left under `runtime`. */
  ghost predicate RuntimeSettled(m: Body, k: string) {
    HasMap(m, "runtime") ==> k !in m["runtime"].entries
  }

  ghost predicate CoauthorSettled(m: Body) {
    var project := Lookup(Map(m), PROJECT);
    project.Some? ==> !project.value.Str?
  }

  const PROJECT: Path := ["vcs", "coauthor", "project"]

  /** Following the co-author path one key at a time. */
  lemma ProjectLookup(m: Body)
    ensures Lookup(Map(m), PROJECT) ==
            if HasMap(m, "vcs") && HasMap(m["vcs"].entries, "coauthor")
               && "project" in m["vcs"].entries["coauthor"].entries
            then Some(m["vcs"].entries["coauthor"].entries["project"]) else None
  {
    assert PROJECT[1..] == ["coauthor", "project"] && PROJECT[1..][1..] == ["project"];
    assert PROJECT[1..][1..][1..] == [];
  }

  ghost predicate RetiredSettled(m: Body, keys: seq<Path>) {
    forall p | p in keys :: Lookup(Map(m), p).None?
  }

  /** Everything but the selector lists is canonical. */
  ghost predicate Stripped(t: Tables, m: Body) {
    && "lifecycle" !in m && "plugins" !in m && "hooks" !in m
    && FlowSettled(m)
    && RuntimeSettled(m, "adapter_catalog") && RuntimeSettled(m, "kind")
    && CoauthorSettled(m)
    && !CadenceHit(Map(m))
    && RetiredSettled(m, t.retired)
  }

  /** The keys the migration writes; a retired key must not be one of them or lie above one. */
  const WRITTEN: set<Path> :=
    {["schema_version"], ["runtime", "adapters"], ["runtime", "preference"],
     ["telemetry", "enabled"], ["telemetry", "db_kind"], ["profiles", "trusted"]}

  ghost predicate AvoidsWritten(keys: seq<Path>) {
    NonEmptyPaths(keys) && forall p, w | p in keys && w in WRITTEN :: !(p <= w)
  }

  /** A settled body goes through the cleanup untouched and unreported. */
  lemma SettledIsFixed(t: Tables, m: Body)
    requires NonEmptyPaths(t.retired) && Stripped(t, m) && SelectorsSettled(m)
    ensures Cleanup(t, m) == (m, false)
  {
    assert m - {"lifecycle"} == m && m - {"plugins"} == m && m - {"hooks"} == m;
    assert FlowStage(m) == (m, false) by {
      if HasMap(m, "flow") {
        assert m["flow"].entries - {"auto_accept", "ask_on_decisions"} == m["flow"].entries;
        assert m["flow" := m["flow"]] == m;
      }
    }
    ProjectLookup(m);
    SettledSelectors(m);
    CadenceFixed(Map(m));
    RetiredFixed(m, t.retired);
  }

  lemma SettledSelectors(m: Body)
    requires SelectorsSettled(m)
    ensures NormalizeStage(m) == (m, false)
  {
    if HasMap(m, "runtime") {
      var runtime := m["runtime"].entries;
      assert NormalizeList(runtime, "adapters") == runtime;
      assert NormalizeList(runtime, "preference") == runtime;
      assert m["runtime" := m["runtime"]] == m;
    }
  }

  /** Without an aliased value the cadence rewrite is the identity. */
  lemma {:induction false} CadenceFixed(v: Value)
    requires !CadenceHit(v)
    ensures CadenceValue(v) == v
  {
    match v
    case Map(entries) =>
      forall k | k in entries ensures !IsAlias(k, entries[k]) && CadenceValue(entries[k]) == entries[k] {
        CadenceFixed(entries[k]);
      }
      assert CadenceValue(v).entries == entries;
    case List(items) =>
      forall i | 0 <= i < |items| ensures CadenceValue(items[i]) == items[i] {
        CadenceFixed(items[i]);
      }
      assert CadenceValue(v).items == items;
    case _ =>
  }

  /** The rewrite leaves no aliased value, since no alias target is an alias. */
  lemma {:induction false} CadenceSettles(v: Value)
    ensures !CadenceHit(CadenceValue(v))
    ensures v.Map? ==> CadenceValue(v).Map? && CadenceValue(v).entries.Keys == v.entries.Keys
  {
    match v
    case Map(entries) =>
      var after := CadenceValue(v).entries;
      forall k | k in after ensures !IsAlias(k, after[k]) && !CadenceHit(after[k]) {
        CadenceSettles(entries[k]);
        AliasTargets(entries[k]);
      }
    case List(items) =>
      forall i | 0 <= i < |items| ensures !CadenceHit(CadenceValue(items[i])) {
        CadenceSettles(items[i]);
      }
    case _ =>
  }

  lemma AliasTargets(v: Value)
    ensures v.Str? && v.text in CADENCE_ALIASES ==> CADENCE_ALIASES[v.text] !in CADENCE_ALIASES
  {
    assert "every-task"[6] == 't' && "every-batch"[6] == 'b' && "every-milestone"[6] == 'm';
    assert "every-wave"[6] == 'w' && "every-iter"[6] == 'i' && "every-phase"[6] == 'p';
  }

  // ---- deletion only prunes ------------------------------------------------

  /** `small` is `v` with some paths deleted, leaving no mapping newly empty. */
  ghost predicate Pruned(small: Value, v: Value)
    decreases v
  {
    small == v ||
    (small.Map? && v.Map? && small.entries != map[] &&
     forall k | k in small.entries :: k in v.entries && Pruned(small.entries[k], v.entries[k]))
  }

  ghost predicate PrunedBody(small: Body, m: Body) {
    forall k | k in small :: k in m && Pruned(small[k], m[k])
  }

  lemma {:induction false} UnsetPrunes(m: Body, p: Path)
    requires p != []
    ensures PrunedBody(UnsetAt(m, p).0, m)
    decreases |p|
  {
    if |p| > 1 && HasMap(m, p[0]) {
      UnsetPrunes(m[p[0]].entries, p[1..]);
    }
  }

  /** Nothing appears in a pruned value, and nothing turns from a mapping into a leaf. */
  lemma {:induction false} PrunedLookup(small: Value, v: Value, q: Path)
    requires Pruned(small, v)
    ensures Lookup(small, q).Some? ==> Lookup(v, q).Some? && Pruned(Lookup(small, q).value, Lookup(v, q).value)
    decreases |q|
  {
    if q != [] && small.Map? && q[0] in small.entries {
      PrunedLookup(small.entries[q[0]], v.entries[q[0]], q[1..]);
    }
  }

  lemma {:induction false} PrunedHits(small: Value, v: Value)
    requires Pruned(small, v) && !CadenceHit(v)
    ensures !CadenceHit(small)
    decreases v
  {
    if small != v {
      forall k | k in small.entries ensures !IsAlias(k, small.entries[k]) && !CadenceHit(small.entries[k]) {
        PrunedHits(small.entries[k], v.entries[k]);
      }
    }
  }

  lemma PrunedLookupBody(small: Body, m: Body, q: Path)
    requires PrunedBody(small, m) && q != []
    ensures Lookup(Map(small), q).Some? ==>
              Lookup(Map(m), q).Some? && Pruned(Lookup(Map(small), q).value, Lookup(Map(m), q).value)
  {
    if q[0] in small {
      PrunedLookup(small[q[0]], m[q[0]], q[1..]);
    }
  }

  lemma {:induction false} UnsetGone(m: Body, p: Path)
    requires p != []
    ensures Lookup(Map(UnsetAt(m, p).0), p).None?
    decreases |p|
  {
    if |p| > 1 && HasMap(m, p[0]) {
      UnsetGone(m[p[0]].entries, p[1..]);
    }
  }

  /** Everything about a body that pruning cannot break, apart from the retired keys. */
  ghost predicate Core(m: Body) {
    && "lifecycle" !in m && "plugins" !in m
    && FlowSettled(m) && RuntimeSettled(m, "adapter_catalog")
    && CoauthorSettled(m) && !CadenceHit(Map(m))
  }

  lemma PrunedKeepsCore(small: Body, m: Body)
    requires PrunedBody(small, m) && Core(m)
    ensures Core(small)
  {
    forall k | k in small ensures !IsAlias(k, small[k]) && !CadenceHit(small[k]) {
      PrunedHits(small[k], m[k]);
    }
    PrunedLookupBody(small, m, PROJECT);
  }

  /** The retired keys are gone afterwards, whatever the order, and the rest is only pruned. */
  lemma {:induction false} RetiredSettles(m: Body, keys: seq<Path>, gone: set<Path>)
    requires NonEmptyPaths(keys) && Core(m)
    requires forall p | p in gone :: p != [] && Lookup(Map(m), p).None?
    ensures Core(RetiredStage(m, keys).0)
    ensures forall p | p in keys || p in gone :: Lookup(Map(RetiredStage(m, keys).0), p).None?
    decreases |keys|
  {
    if keys != [] {
      var next := UnsetAt(m, keys[0]).0;
      UnsetPrunes(m, keys[0]);
      PrunedKeepsCore(next, m);
      UnsetGone(m, keys[0]);
      forall p | p in gone ensures Lookup(Map(next), p).None? {
        PrunedLookupBody(next, m, p);
      }
      RetiredSettles(next, keys[1..], gone + {keys[0]});
      assert keys == [keys[0]] + keys[1..];
    }
  }

  lemma {:induction false} RetiredFixed(m: Body, keys: seq<Path>)
    requires NonEmptyPaths(keys) && RetiredSettled(m, keys)
    ensures RetiredStage(m, keys) == (m, false)
    decreases |keys|
  {
    if keys != [] {
      UnsetRefused(m, keys[0]);
      assert keys[0] in keys;
      RetiredFixed(m, keys[1..]);
    }
  }

  lemma {:induction false} RetiredQuiet(m: Body, keys: seq<Path>)
    requires NonEmptyPaths(keys) && !RetiredStage(m, keys).1
    ensures RetiredStage(m, keys).0 == m
    decreases |keys|
  {
    if keys != [] {
      UnsetRefused(m, keys[0]);
      RetiredQuiet(m, keys[1..]);
    }
  }

  // ---- the pipeline settles ------------------------------------------------

  /** The first three stages drop the retired sections and clear the flow switches. */
  lemma FlowStageSettles(m: Body)
    ensures FlowSettled(FlowStage(m).0)
    ensures forall k | k in FlowStage(m).0 :: k in m && (k != "flow" ==> FlowStage(m).0[k] == m[k])
  {
  }

  lemma CatalogStageSettles(m: Body)
    ensures RuntimeSettled(CatalogStage(m).0, "adapter_catalog")
    ensures CatalogStage(m).0.Keys == m.Keys
    ensures forall k | k in m && k != "runtime" :: CatalogStage(m).0[k] == m[k]
  {
  }

  lemma NormalizeStageFrame(m: Body)
    ensures NormalizeStage(m).0.Keys == m.Keys
    ensures forall k | k in m && k != "runtime" :: NormalizeStage(m).0[k] == m[k]
    ensures HasMap(m, "runtime") <==> HasMap(NormalizeStage(m).0, "runtime")
    ensures HasMap(m, "runtime") ==>
              NormalizeStage(m).0["runtime"].entries.Keys == m["runtime"].entries.Keys
  {
  }

  lemma CoauthorStageSettles(t: Tables, m: Body)
    ensures CoauthorSettled(CoauthorStage(t, m).0)
    ensures CoauthorStage(t, m).0.Keys == m.Keys
    ensures forall k | k in m && k != "vcs" :: CoauthorStage(t, m).0[k] == m[k]
  {
    ProjectLookup(m);
    ProjectLookup(CoauthorStage(t, m).0);
  }

  /** Rewriting cadences moves no key and turns no value into a string or a mapping. */
  lemma {:induction false} CadenceLookup(v: Value, p: Path)
    requires p != []
    ensures var was, now := Lookup(v, p), Lookup(CadenceValue(v), p);
            && (was.Some? <==> now.Some?)
            && (was.Some? ==> (was.value.Str? <==> now.value.Str?) && (was.value.Map? <==> now.value.Map?))
    decreases |p|
  {
    if v.Map? && p[0] in v.entries {
      if IsAlias(p[0], v.entries[p[0]]) {
      } else if |p| > 1 {
        CadenceLookup(v.entries[p[0]], p[1..]);
      } else {
        assert p[1..] == [];
      }
    }
  }

  lemma CadenceStageKeeps(m: Body)
    requires "lifecycle" !in m && "plugins" !in m
    requires FlowSettled(m) && RuntimeSettled(m, "adapter_catalog") && CoauthorSettled(m)
    ensures Core(CadenceStage(m).0)
  {
    CadenceSettles(Map(m));
    CadenceLookup(Map(m), PROJECT);
    var after := CadenceStage(m).0;
    forall k | HasMap(after, k) ensures HasMap(m, k) && after[k].entries.Keys == m[k].entries.Keys {
      CadenceSettles(m[k]);
    }
  }

  /** The body after the retired keys are gone satisfies everything but the last two drops. */
  lemma CoreReached(t: Tables, m: Body)
    requires NonEmptyPaths(t.retired)
    ensures var m1 := m - {"lifecycle"} - {"plugins"};
            var m6 := CoauthorStage(t, NormalizeStage(CatalogStage(FlowStage(m1).0).0).0).0;
            Core(RetiredStage(CadenceStage(m6).0, t.retired).0) &&
            RetiredSettled(RetiredStage(CadenceStage(m6).0, t.retired).0, t.retired)
  {
    var m1 := m - {"lifecycle"} - {"plugins"};
    var m3 := FlowStage(m1).0;
    FlowStageSettles(m1);
    var m4 := CatalogStage(m3).0;
    CatalogStageSettles(m3);
    var m5 := NormalizeStage(m4).0;
    NormalizeStageFrame(m4);
    var m6 := CoauthorStage(t, m5).0;
    CoauthorStageSettles(t, m5);
    CadenceStageKeeps(m6);
    RetiredSettles(CadenceStage(m6).0, t.retired, {});
  }

  lemma DropKeeps(m: Body, k: string, keys: seq<Path>)
    requires Core(m) && NonEmptyPaths(keys) && RetiredSettled(m, keys)
    ensures Core(m - {k}) && RetiredSettled(m - {k}, keys)
  {
    PrunedKeepsCore(m - {k}, m);
    forall p | p in keys ensures Lookup(Map(m - {k}), p).None? {
      PrunedLookupBody(m - {k}, m, p);
    }
  }

  // ---- the selector lists --------------------------------------------------

  /** Canonical spellings only, each once. */
  ghost predicate Canon(s: seq<Value>) {
    && (forall i | 0 <= i < |s| :: CanonicalAdapter(s[i]) == s[i])
    && (forall i, j | 0 <= i < j < |s| :: s[i] != s[j])
  }

  lemma {:induction false} NormalizedCanon(done: seq<Value>, items: seq<Value>)
    requires Canon(done)
    ensures Canon(Normalized(done, items))
    ensures forall v | v in Normalized(done, items) :: v in done || v.Str? || v in items
    decreases |items|
  {
    if items != [] {
      var c := CanonicalAdapter(items[0]);
      NormalizedCanon(if c in done then done else done + [c], items[1..]);
    }
  }

  lemma {:induction false} NormalizedFixed(done: seq<Value>, items: seq<Value>)
    requires Canon(done + items)
    ensures Normalized(done, items) == done + items
    decreases |items|
  {
    if items == [] {
      assert done + items == done;
    } else {
      assert (done + items)[|done|] == items[0];
      forall i | 0 <= i < |done| ensures done[i] != items[0] {
        assert (done + items)[i] == done[i];
      }
      assert (done + [items[0]]) + items[1..] == done + items;
      NormalizedFixed(done + [items[0]], items[1..]);
    }
  }

  lemma NormalizeSettles(m: Body)
    ensures SelectorsSettled(NormalizeStage(m).0)
    ensures !NormalizeStage(m).1 ==> NormalizeStage(m).0 == m
  {
    if HasMap(m, "runtime") {
      var runtime := m["runtime"].entries;
      NormalizeListSettles(runtime, "adapters");
      NormalizeListSettles(NormalizeList(runtime, "adapters"), "preference");
      if !NormalizeStage(m).1 {
        assert m["runtime" := m["runtime"]] == m;
      }
    }
  }

  lemma NormalizeListSettles(runtime: Body, k: string)
    ensures ListSettled(NormalizeList(runtime, k), k)
    ensures k in runtime && runtime[k].List? ==>
              forall v | v in NormalizeList(runtime, k)[k].items :: v.Str? || v in runtime[k].items
  {
    if k in runtime && runtime[k].List? {
      var once := Normalized([], runtime[k].items);
      NormalizedCanon([], runtime[k].items);
      assert [] + once == once;
      NormalizedFixed([], once);
    }
  }

  /** Only the selector lists differ, and no cadence hides in the new ones. */
  ghost predicate Reselected(after: Body, before: Body) {
    after.Keys <= before.Keys + {"adapters", "preference"} &&
    forall k | k in after ::
      || (k in before && after[k] == before[k])
      || ((k == "adapters" || k == "preference") && after[k].List? && !CadenceHit(after[k]))
  }

  /** Changing only the selector lists breaks nothing already settled. */
  lemma ReselectedKeeps(m: Body, runtime: Body, keys: seq<Path>)
    requires HasMap(m, "runtime") && Reselected(runtime, m["runtime"].entries)
    requires Core(m) && AvoidsWritten(keys) && RetiredSettled(m, keys)
    ensures Core(m["runtime" := Map(runtime)]) && RetiredSettled(m["runtime" := Map(runtime)], keys)
  {
    var before := m["runtime"].entries;
    var after := m["runtime" := Map(runtime)];
    assert !CadenceHit(Map(before)) by {
      assert "runtime" in m && m["runtime"] == Map(before);
    }
    assert !CadenceHit(Map(runtime));
    ProjectLookup(m);
    ProjectLookup(after);
    forall p | p in keys ensures Lookup(Map(after), p).None? {
      ReselectedPath(m, runtime, p);
    }
  }

  /** Following a path its first two steps at once. */
  lemma TwoSteps(m: Body, p: Path)
    requires |p| >= 2
    ensures Lookup(Map(m), p) ==
            if HasMap(m, p[0]) && p[1] in m[p[0]].entries
            then Lookup(m[p[0]].entries[p[1]], p[2..]) else None
  {
    assert p[1..][0] == p[1] && p[1..][1..] == p[2..];
  }

  lemma ReselectedPath(m: Body, runtime: Body, p: Path)
    requires HasMap(m, "runtime") && Reselected(runtime, m["runtime"].entries)
    requires p != [] && Lookup(Map(m), p).None?
    requires !(p <= ["runtime", "adapters"]) && !(p <= ["runtime", "preference"])
    ensures Lookup(Map(m["runtime" := Map(runtime)]), p).None?
  {
    assert |p| == 1 ==> p == [p[0]];
    assert |p| == 2 ==> p == [p[0], p[1]];
    if |p| >= 2 {
      TwoSteps(m, p);
      TwoSteps(m["runtime" := Map(runtime)], p);
    }
  }

  /** No cadence below `runtime` means none in any of its values. */
  lemma RuntimeQuiet(m: Body, k: string)
    requires !CadenceHit(Map(m)) && HasMap(m, "runtime") && k in m["runtime"].entries
    ensures !CadenceHit(m["runtime"].entries[k])
  {
    assert !CadenceHit(m["runtime"]);
  }

  lemma KindKeeps(m: Body, keys: seq<Path>)
    requires Core(m) && "hooks" !in m && AvoidsWritten(keys) && RetiredSettled(m, keys)
    ensures var after := KindStage(m).0;
            && Core(after) && "hooks" !in after && RetiredSettled(after, keys)
            && RuntimeSettled(after, "kind")
            && (!KindStage(m).1 ==> after == m)
  {
    if KindStage(m).1 {
      RuntimeQuiet(m, "kind");
      ReselectedKeeps(m, KindStage(m).0["runtime"].entries, keys);
    }
  }

  lemma ShimKeeps(m: Body, keys: seq<Path>)
    requires Core(m) && "hooks" !in m && RuntimeSettled(m, "kind")
    requires AvoidsWritten(keys) && RetiredSettled(m, keys)
    ensures var after := ShimStage(m);
            && Core(after) && "hooks" !in after && RuntimeSettled(after, "kind")
            && RetiredSettled(after, keys)
            && (SelectorsSettled(m) ==> SelectorsSettled(after))
  {
    if ShimStage(m) != m {
      RuntimeQuiet(m, "adapters");
      ReselectedKeeps(m, ShimStage(m)["runtime"].entries, keys);
    }
  }

  lemma NormalizeKeeps(m: Body, keys: seq<Path>)
    requires Core(m) && "hooks" !in m && RuntimeSettled(m, "kind")
    requires AvoidsWritten(keys) && RetiredSettled(m, keys)
    ensures var after := NormalizeStage(m).0;
            && Core(after) && "hooks" !in after && RuntimeSettled(after, "kind")
            && RetiredSettled(after, keys)
  {
    if HasMap(m, "runtime") {
      var runtime := m["runtime"].entries;
      if "adapters" in runtime {
        RuntimeQuiet(m, "adapters");
      }
      if "preference" in runtime {
        RuntimeQuiet(m, "preference");
      }
      NormalizeReselects(runtime);
      ReselectedKeeps(m, NormalizeStage(m).0["runtime"].entries, keys);
    }
  }

  lemma NormalizeReselects(runtime: Body)
    requires forall k | k in runtime && (k == "adapters" || k == "preference") :: !CadenceHit(runtime[k])
    ensures Reselected(NormalizeList(NormalizeList(runtime, "adapters"), "preference"), runtime)
  {
    NormalizeListSettles(runtime, "adapters");
    NormalizeListSettles(NormalizeList(runtime, "adapters"), "preference");
  }

  // ---- one pass reaches the fixpoint ---------------------------------------

  lemma StripSettles(t: Tables, m: Body)
    requires AvoidsWritten(t.retired)
    ensures Stripped(t, Strip(t, m).0)
    ensures !Strip(t, m).1 ==> SelectorsSettled(Strip(t, m).0)
  {
    var m1 := m - {"lifecycle"} - {"plugins"};
    var m4 := CatalogStage(FlowStage(m1).0).0;
    var m5 := NormalizeStage(m4).0;
    var m6 := CoauthorStage(t, m5).0;
    var m7 := CadenceStage(m6).0;
    var m8 := RetiredStage(m7, t.retired).0;
    CoreReached(t, m);
    DropKeeps(m8, "hooks", t.retired);
    KindKeeps(m8 - {"hooks"}, t.retired);
    if !Strip(t, m).1 {
      NormalizeSettles(m4);
      CadenceFixed(Map(m6));
      RetiredQuiet(m7, t.retired);
      assert m8 - {"hooks"} == m8;
    }
  }

  lemma CleanupSettles(t: Tables, m: Body)
    requires AvoidsWritten(t.retired)
    ensures Stripped(t, Cleanup(t, m).0) && SelectorsSettled(Cleanup(t, m).0)
  {
    StripSettles(t, m);
    if Strip(t, m).1 {
      var shimmed := ShimStage(Strip(t, m).0);
      ShimKeeps(Strip(t, m).0, t.retired);
      NormalizeKeeps(shimmed, t.retired);
      NormalizeSettles(shimmed);
    }
  }

  /** `after` gives section `k` a new mapping whose new entries are quiet scalars or empty. */
  ghost predicate Filled(m: Body, k: string, after: Body, keys: set<string>) {
    var before: Body := if HasMap(m, k) then m[k].entries else map[];
    forall x | x in after ::
      || (x in before && after[x] == before[x])
      || (x in keys && !CadenceHit(after[x]) && (after[x].Map? ==> after[x].entries == map[]))
  }

  lemma FilledKeeps(t: Tables, m: Body, k: string, after: Body, names: set<string>)
    requires Stripped(t, m) && SelectorsSettled(m) && AvoidsWritten(t.retired)
    requires k !in {"lifecycle", "plugins", "hooks", "flow", "runtime", "vcs", "cadence"}
    requires Filled(m, k, after, names) && "cadence" !in names && names != {}
    requires forall x | x in names :: [k, x] in WRITTEN
    ensures Stripped(t, m[k := Map(after)]) && SelectorsSettled(m[k := Map(after)])
  {
    var filled := m[k := Map(after)];
    var before: Body := if HasMap(m, k) then m[k].entries else map[];
    assert !CadenceHit(Map(before)) by {
      if HasMap(m, k) {
        assert !CadenceHit(m[k]);
      }
    }
    assert !CadenceHit(Map(after));
    ProjectLookup(m);
    ProjectLookup(filled);
    forall p | p in t.retired ensures Lookup(Map(filled), p).None? {
      if p[0] == k {
        FilledPath(m, k, after, names, p);
      }
    }
  }

  lemma FilledPath(m: Body, k: string, after: Body, names: set<string>, p: Path)
    requires Filled(m, k, after, names) && names != {}
    requires p != [] && p[0] == k && Lookup(Map(m), p).None?
    requires forall x | x in names :: !(p <= [k, x])
    ensures Lookup(Map(m[k := Map(after)]), p).None?
  {
    var x :| x in names;
    assert p == [k] + p[1..] && !(p <= [k, x]);
    assert |p| == 2 ==> p == [p[0], p[1]];
    if |p| >= 2 {
      TwoSteps(m, p);
      TwoSteps(m[k := Map(after)], p);
    }
  }

  lemma TelemetryKeeps(t: Tables, m: Body)
    requires Stripped(t, m) && SelectorsSettled(m) && AvoidsWritten(t.retired)
    ensures var after := EnsureSection(m, "telemetry", TELEMETRY_DEFAULT);
            Stripped(t, after) && SelectorsSettled(after)
  {
    var after := EnsureSection(m, "telemetry", TELEMETRY_DEFAULT)["telemetry"].entries;
    assert TELEMETRY_DEFAULT.Keys == {"enabled", "db_kind"};
    FilledKeeps(t, m, "telemetry", after, {"enabled", "db_kind"});
  }

  lemma ProfilesKeeps(t: Tables, m: Body)
    requires Stripped(t, m) && SelectorsSettled(m) && AvoidsWritten(t.retired)
    ensures var after := EnsureSubkey(m, "profiles", "trusted", Map(map[]));
            Stripped(t, after) && SelectorsSettled(after)
  {
    var after := EnsureSubkey(m, "profiles", "trusted", Map(map[]))["profiles"].entries;
    FilledKeeps(t, m, "profiles", after, {"trusted"});
  }

  lemma UpgradeSettles(t: Tables, m: Body)
    requires AvoidsWritten(t.retired)
    ensures Stripped(t, Upgrade(t, m)) && SelectorsSettled(Upgrade(t, m))
  {
    var m0 := m["schema_version" := Str(CURRENT_MARKER)];
    var m1 := Cleanup(t, m0).0;
    CleanupSettles(t, m0);
    ShimKeeps(m1, t.retired);
    var m2 := ShimStage(m1);
    TelemetryKeeps(t, m2);
    ProfilesKeeps(t, EnsureSection(m2, "telemetry", TELEMETRY_DEFAULT));
  }

  /** The stages before the retired keys leave the marker alone. */
  lemma FrontKeepsMarker(t: Tables, m: Body)
    requires "schema_version" in m && (m["schema_version"].Str? || m["schema_version"].Float?)
    ensures var m1 := m - {"lifecycle"} - {"plugins"};
            var m6 := CoauthorStage(t, NormalizeStage(CatalogStage(FlowStage(m1).0).0).0).0;
            "schema_version" in CadenceStage(m6).0 &&
            CadenceStage(m6).0["schema_version"] == m["schema_version"]
  {
    var m3 := FlowStage(m - {"lifecycle"} - {"plugins"}).0;
    assert m3["schema_version"] == m["schema_version"];
    CatalogStageSettles(m3);
    NormalizeStageFrame(CatalogStage(m3).0);
    var m5 := NormalizeStage(CatalogStage(m3).0).0;
    CoauthorStageSettles(t, m5);
    var marker := CoauthorStage(t, m5).0["schema_version"];
    assert !IsAlias("schema_version", marker) && CadenceValue(marker) == marker;
  }

  lemma StripKeepsMarker(t: Tables, m: Body)
    requires AvoidsWritten(t.retired)
    requires "schema_version" in m && (m["schema_version"].Str? || m["schema_version"].Float?)
    ensures "schema_version" in Strip(t, m).0 && Strip(t, m).0["schema_version"] == m["schema_version"]
  {
    var m1 := m - {"lifecycle"} - {"plugins"};
    var m6 := CoauthorStage(t, NormalizeStage(CatalogStage(FlowStage(m1).0).0).0).0;
    var m7 := CadenceStage(m6).0;
    FrontKeepsMarker(t, m);
    forall i | 0 <= i < |t.retired| ensures t.retired[i] != ["schema_version"] {
      assert t.retired[i] in t.retired;
    }
    RetiredKeepsLeaf(m7, t.retired, "schema_version");
    assert Strip(t, m).0 == KindStage(RetiredStage(m7, t.retired).0 - {"hooks"}).0;
  }

  /** The marker is a scalar no stage touches. */
  lemma CleanupKeepsMarker(t: Tables, m: Body)
    requires AvoidsWritten(t.retired)
    requires "schema_version" in m && (m["schema_version"].Str? || m["schema_version"].Float?)
    ensures "schema_version" in Cleanup(t, m).0 && Cleanup(t, m).0["schema_version"] == m["schema_version"]
  {
    StripKeepsMarker(t, m);
    NormalizeStageFrame(ShimStage(Strip(t, m).0));
  }

  lemma {:induction false} RetiredKeepsLeaf(m: Body, keys: seq<Path>, k: string)
    requires NonEmptyPaths(keys) && forall i | 0 <= i < |keys| :: keys[i] != [k]
    requires k in m && !m[k].Map?
    ensures k in RetiredStage(m, keys).0 && RetiredStage(m, keys).0[k] == m[k]
    decreases |keys|
  {
    if keys != [] {
      assert keys[0] == [keys[0][0]] + keys[0][1..];
      RetiredKeepsLeaf(UnsetAt(m, keys[0]).0, keys[1..], k);
    }
  }

  /** Only a string or a float renders as the current marker. */
  lemma RenderedMarker(v: Value)
    requires Render(v) == CURRENT_MARKER
    ensures v.Str? || v.Float?
  {
    assert CURRENT_MARKER[0] == '1' && CURRENT_MARKER[1] == '.';
    if v.Int? && v.n >= 0 {
      DecimalDigits(v.n);
    }
  }

  lemma {:induction false} DecimalDigits(n: nat)
    ensures '.' !in Decimal(n)
  {
    if n >= 10 {
      DecimalDigits(n / 10);
    }
  }

  /** Adding the missing marker keeps a settled body settled. */
  lemma MarkerKeeps(t: Tables, m: Body)
    requires Stripped(t, m) && SelectorsSettled(m) && AvoidsWritten(t.retired)
    ensures Stripped(t, m["schema_version" := Str(CURRENT_MARKER)])
    ensures SelectorsSettled(m["schema_version" := Str(CURRENT_MARKER)])
  {
    var after := m["schema_version" := Str(CURRENT_MARKER)];
    ProjectLookup(m);
    ProjectLookup(after);
    forall p | p in t.retired ensures Lookup(Map(after), p).None? {
      if p[0] == "schema_version" {
        assert p == ["schema_version"] + p[1..];
        assert p != ["schema_version"];
        assert p[1..] != [];
      }
    }
  }

  /** Migrating what a migration returned changes nothing and reports nothing. */
  lemma MigrationFixpoint(t: Tables, m: Body)
    requires AvoidsWritten(t.retired) && Migrate(t, m).Ok?
    ensures var once := Migrate(t, m).value.0;
            Migrate(t, once) == Ok((once, false))
  {
    var once := Migrate(t, m).value.0;
    if Marker(m) == CURRENT_MARKER {
      CleanupSettles(t, m);
      if "schema_version" in m {
        RenderedMarker(m["schema_version"]);
        CleanupKeepsMarker(t, m);
      } else {
        MarkerKeeps(t, Cleanup(t, m).0);
      }
    } else {
      UpgradeSettles(t, m);
      CleanupKeepsMarker(t, m["schema_version" := Str(CURRENT_MARKER)]);
    }
    assert Marker(once) == CURRENT_MARKER;
    SettledIsFixed(t, once);
  }

  /**
    An unreported migration is not always an untouched body: a `flow` section that is empty,
    or that holds a null `auto_accept`, is rewritten silently, and nothing else is.
   */
  lemma UnreportedMeansUntouched(t: Tables, m: Body)
    requires NonEmptyPaths(t.retired) && Migrate(t, m).Ok? && !Migrate(t, m).value.1
    ensures Migrate(t, m).value.0 == m <==>
            !(HasMap(m, "flow") && (m["flow"].entries == map[] || "auto_accept" in m["flow"].entries))
  {
    assert m - {"lifecycle"} == m && m - {"plugins"} == m;
    var m3 := FlowStage(m).0;
    NormalizeSettles(m3);
    CadenceFixed(Map(m3));
    RetiredQuiet(m3, t.retired);
    assert m3 - {"hooks"} == m3;
    assert Migrate(t, m).value.0 == m3;
    if HasMap(m, "flow") {
      var flow := m["flow"].entries;
      var rest := flow - {"auto_accept", "ask_on_decisions"};
      if flow != map[] && "auto_accept" !in flow {
        assert rest == flow;
        assert m["flow" := m["flow"]] == m;
      } else if rest != map[] {
        assert m3["flow"] == Map(rest) && "auto_accept" !in rest;
      }
    }
  }

  /** The silent rewrite happens: beside a settled body an empty `flow` section vanishes unreported. */
  lemma SilentRewrite(t: Tables, m: Body)
    requires NonEmptyPaths(t.retired) && Stripped(t, m) && SelectorsSettled(m)
    requires "flow" !in m && "schema_version" in m && m["schema_version"] == Str(CURRENT_MARKER)
    ensures Migrate(t, m["flow" := Map(map[])]) == Ok((m, false))
  {
    var before := m["flow" := Map(map[])];
    assert before - {"lifecycle"} == before && before - {"plugins"} == before;
    assert m - {"lifecycle"} == m && m - {"plugins"} == m;
    assert FlowStage(before) == (m, false) by {
      assert before["flow"].entries - {"auto_accept", "ask_on_decisions"} == map[];
      assert before - {"flow"} == m;
    }
    SettledIsFixed(t, m);
    assert Strip(t, before) == Strip(t, m);
  }

  // ---- what the operator wrote survives ------------------------------------

  /** The keys the migration may rewrite or remove with everything below them. */
  const LEGACY: set<Path> :=
    {["lifecycle"], ["plugins"], ["hooks"], ["schema_version"],
     ["flow", "auto_accept"], ["flow", "ask_on_decisions"],
     ["runtime", "adapter_catalog"], ["runtime", "kind"],
     ["runtime", "adapters"], ["runtime", "preference"],
     ["vcs", "coauthor", "project"]}

  /** The operator's own leaf: outside the legacy and retired keys, and no aliased cadence. */
  ghost predicate OwnLeaf(t: Tables, m: Body, p: Path, v: Value) {
    && p != [] && Lookup(Map(m), p) == Some(v) && !v.Map?
    && (forall w | w in LEGACY :: !(w <= p))
    && (forall w | w in t.retired :: !(w <= p))
    && !CadenceHit(v) && !IsAlias(p[|p| - 1], v)
  }

  lemma {:induction false} CadenceKeepsLeaf(x: Value, p: Path)
    requires p != [] && Lookup(x, p).Some?
    requires var v := Lookup(x, p).value; !v.Map? && !CadenceHit(v) && !IsAlias(p[|p| - 1], v)
    ensures Lookup(CadenceValue(x), p) == Lookup(x, p)
    decreases |p|
  {
    var inner := x.entries[p[0]];
    if |p| == 1 {
      CadenceFixed(inner);
      assert p[1..] == [];
    } else {
      CadenceKeepsLeaf(inner, p[1..]);
    }
  }

  lemma {:induction false} RetiredKeepsOwn(m: Body, keys: seq<Path>, p: Path, v: Value)
    requires NonEmptyPaths(keys) && forall i | 0 <= i < |keys| :: !(keys[i] <= p)
    requires p != [] && Lookup(Map(m), p) == Some(v) && !v.Map?
    ensures Lookup(Map(RetiredStage(m, keys).0), p) == Some(v)
    decreases |keys|
  {
    if keys != [] {
      UnsetRefused(m, keys[0]);
      if Lookup(Map(m), keys[0]).Some? {
        UnsetLeaves(m, keys[0], p);
        assert LeafAt(m, p);
      }
      RetiredKeepsOwn(UnsetAt(m, keys[0]).0, keys[1..], p, v);
    }
  }

  /** Every legacy key is avoided one segment at a time. */
  lemma OwnSegments(t: Tables, m: Body, p: Path, v: Value)
    requires OwnLeaf(t, m, p, v)
    ensures p[0] !in {"lifecycle", "plugins", "hooks", "schema_version"}
    ensures |p| >= 2 && p[0] == "flow" ==> p[1] !in {"auto_accept", "ask_on_decisions"}
    ensures |p| >= 2 && p[0] == "runtime" ==>
              p[1] !in {"adapter_catalog", "kind", "adapters", "preference"}
    ensures |p| >= 3 && p[0] == "vcs" && p[1] == "coauthor" ==> p[2] != "project"
  {
    assert p == [p[0]] + p[1..];
    assert forall k :: [k] <= p <==> k == p[0];
    assert forall j, k :: [j, k] <= p <==> |p| >= 2 && j == p[0] && k == p[1];
    assert forall i, j, k :: [i, j, k] <= p <==> |p| >= 3 && i == p[0] && j == p[1] && k == p[2];
    assert ["lifecycle"] in LEGACY && ["plugins"] in LEGACY && ["hooks"] in LEGACY && ["schema_version"] in LEGACY;
    assert ["flow", "auto_accept"] in LEGACY && ["flow", "ask_on_decisions"] in LEGACY;
    assert ["runtime", "adapter_catalog"] in LEGACY && ["runtime", "kind"] in LEGACY;
    assert ["runtime", "adapters"] in LEGACY && ["runtime", "preference"] in LEGACY;
    assert ["vcs", "coauthor", "project"] in LEGACY;
  }

  /** Changing other keys of the mapping at `k` keeps everything below the unchanged ones. */
  lemma BesideKeeps(m: Body, k: string, entries: Body, p: Path)
    requires HasMap(m, k) && p != []
    requires Lookup(Map(m), p).Some? && !Lookup(Map(m), p).value.Map?
    requires |p| >= 2 && p[0] == k && p[1] in m[k].entries ==>
               p[1] in entries && entries[p[1]] == m[k].entries[p[1]]
    ensures Lookup(Map(m[k := Map(entries)]), p) == Lookup(Map(m), p)
  {
    if |p| >= 2 {
      TwoSteps(m, p);
      TwoSteps(m[k := Map(entries)], p);
    }
  }

  /** A leaf outside the four selector keys of `runtime`. */
  ghost predicate BesideSelectors(m: Body, p: Path) {
    && p != [] && Lookup(Map(m), p).Some? && !Lookup(Map(m), p).value.Map?
    && (|p| >= 2 && p[0] == "runtime" ==>
          p[1] !in {"adapter_catalog", "kind", "adapters", "preference"})
  }

  lemma CatalogKeeps(m: Body, p: Path)
    requires BesideSelectors(m, p)
    ensures Lookup(Map(CatalogStage(m).0), p) == Lookup(Map(m), p)
  {
    if CatalogStage(m).1 {
      BesideKeeps(m, "runtime", CatalogStage(m).0["runtime"].entries, p);
    }
  }

  lemma NormalizeKeepsLeaf(m: Body, p: Path)
    requires BesideSelectors(m, p)
    ensures Lookup(Map(NormalizeStage(m).0), p) == Lookup(Map(m), p)
  {
    if HasMap(m, "runtime") {
      BesideKeeps(m, "runtime", NormalizeStage(m).0["runtime"].entries, p);
    }
  }

  lemma KindKeepsLeaf(m: Body, p: Path)
    requires BesideSelectors(m, p)
    ensures Lookup(Map(KindStage(m).0), p) == Lookup(Map(m), p)
  {
    if KindStage(m).1 {
      BesideKeeps(m, "runtime", KindStage(m).0["runtime"].entries, p);
    }
  }

  lemma ShimKeepsLeaf(m: Body, p: Path)
    requires BesideSelectors(m, p)
    ensures Lookup(Map(ShimStage(m)), p) == Lookup(Map(m), p)
  {
    if HasMap(m, "runtime") && ShimStage(m) != m {
      BesideKeeps(m, "runtime", ShimStage(m)["runtime"].entries, p);
    }
  }

  lemma DropKeysKeeps(m: Body, k: string, keys: set<string>, p: Path)
    requires HasMap(m, k) && p != []
    requires Lookup(Map(m), p).Some? && !Lookup(Map(m), p).value.Map?
    requires |p| >= 2 && p[0] == k ==> p[1] !in keys
    ensures Lookup(Map(DropKeys(m, k, keys)), p) == Lookup(Map(m), p)
  {
    var rest := m[k].entries - keys;
    LookupStep(m, p);
    if p[0] == k {
      TwoSteps(m, p);
      assert p[1] in rest;
      BesideKeeps(m, k, rest, p);
    }
  }

  lemma FlowKeeps(m: Body, p: Path)
    requires p != [] && Lookup(Map(m), p).Some? && !Lookup(Map(m), p).value.Map?
    requires |p| >= 2 && p[0] == "flow" ==> p[1] !in {"auto_accept", "ask_on_decisions"}
    ensures Lookup(Map(FlowStage(m).0), p) == Lookup(Map(m), p)
  {
    if HasMap(m, "flow") {
      var switches := {"auto_accept", "ask_on_decisions"};
      assert |p| >= 2 && p[0] == "flow" ==> p[1] !in switches;
      DropKeysKeeps(m, "flow", switches, p);
    }
  }

  /** Changing only the key `x` two levels down keeps every other leaf. */
  lemma ReplaceKeeps(m: Body, k: string, j: string, x: string, inner: Body, p: Path)
    requires HasMap(m, k) && HasMap(m[k].entries, j) && p != []
    requires Lookup(Map(m), p).Some? && !Lookup(Map(m), p).value.Map?
    requires |p| >= 3 && p[0] == k && p[1] == j ==> p[2] != x
    requires forall i | i in m[k].entries[j].entries && i != x ::
               i in inner && inner[i] == m[k].entries[j].entries[i]
    ensures Lookup(Map(Replace(m, k, j, inner)), p) == Lookup(Map(m), p)
  {
    LookupStep(m, p);
    if p[0] == k {
      var entries := m[k].entries;
      assert p[1..] != [];
      BesideKeeps(entries, j, inner, p[1..]);
    }
  }

  lemma CoauthorKeeps(t: Tables, m: Body, p: Path)
    requires p != [] && Lookup(Map(m), p).Some? && !Lookup(Map(m), p).value.Map?
    requires |p| >= 3 && p[0] == "vcs" && p[1] == "coauthor" ==> p[2] != "project"
    ensures Lookup(Map(CoauthorStage(t, m).0), p) == Lookup(Map(m), p)
  {
    if CoauthorStage(t, m).1 {
      var coauthor := m["vcs"].entries["coauthor"].entries;
      SplitKeeps(t, coauthor, coauthor["project"].text);
      ReplaceKeeps(m, "vcs", "coauthor", "project", SplitProject(t, coauthor, coauthor["project"].text), p);
    }
  }

  lemma SplitKeeps(t: Tables, coauthor: Body, text: string)
    ensures forall i | i in coauthor && i != "project" ::
              i in SplitProject(t, coauthor, text) && SplitProject(t, coauthor, text)[i] == coauthor[i]
  {
  }

  lemma LookupStep(m: Body, p: Path)
    requires p != [] && Lookup(Map(m), p).Some?
    ensures p[0] in m && Lookup(Map(m), p) == Lookup(m[p[0]], p[1..])
  {
  }

  /** The cleanup keeps every leaf of the operator's own, at its path, with its value. */
  lemma CleanupKeepsOwn(t: Tables, m: Body, p: Path, v: Value)
    requires NonEmptyPaths(t.retired) && OwnLeaf(t, m, p, v)
    ensures Lookup(Map(Cleanup(t, m).0), p) == Some(v)
  {
    OwnSegments(t, m, p, v);
    var m2 := m - {"lifecycle"} - {"plugins"};
    var m3 := FlowStage(m2).0;
    FlowKeeps(m2, p);
    var m4 := CatalogStage(m3).0;
    CatalogKeeps(m3, p);
    var m5 := NormalizeStage(m4).0;
    NormalizeKeepsLeaf(m4, p);
    BackKeepsOwn(t, m5, p, v);
  }

  /** The stages from the co-author split to the closing shim. */
  lemma BackKeepsOwn(t: Tables, m5: Body, p: Path, v: Value)
    requires NonEmptyPaths(t.retired) && OwnLeaf(t, m5, p, v)
    ensures var m6 := CoauthorStage(t, m5).0;
            var m9 := RetiredStage(CadenceStage(m6).0, t.retired).0 - {"hooks"};
            && Lookup(Map(KindStage(m9).0), p) == Some(v)
            && Lookup(Map(NormalizeStage(ShimStage(KindStage(m9).0)).0), p) == Some(v)
  {
    OwnSegments(t, m5, p, v);
    var m6 := CoauthorStage(t, m5).0;
    CoauthorKeeps(t, m5, p);
    var m7 := CadenceStage(m6).0;
    CadenceKeepsLeaf(Map(m6), p);
    forall i | 0 <= i < |t.retired| ensures !(t.retired[i] <= p) {
      assert t.retired[i] in t.retired;
    }
    RetiredKeepsOwn(m7, t.retired, p, v);
    var m9 := RetiredStage(m7, t.retired).0 - {"hooks"};
    KindKeepsLeaf(m9, p);
    ShimKeepsLeaf(KindStage(m9).0, p);
    NormalizeKeepsLeaf(ShimStage(KindStage(m9).0), p);
  }

  /**
    The migration never overwrites a value the operator set: each own leaf is where it was.
    A scalar in the place of the `telemetry` or `profiles` section is no leaf of that section.
   */
  lemma OperatorValuesKept(t: Tables, m: Body, p: Path, v: Value)
    requires NonEmptyPaths(t.retired) && OwnLeaf(t, m, p, v) && Migrate(t, m).Ok?
    requires p != ["telemetry"] && p != ["profiles"]
    ensures Lookup(Map(Migrate(t, m).value.0), p) == Some(v)
  {
    OwnSegments(t, m, p, v);
    if Marker(m) == CURRENT_MARKER {
      CleanupKeepsOwn(t, m, p, v);
    } else {
      CleanupKeepsOwn(t, m["schema_version" := Str(CURRENT_MARKER)], p, v);
      DefaultsKeepOwn(Cleanup(t, m["schema_version" := Str(CURRENT_MARKER)]).0, p);
    }
  }

  lemma DefaultsKeepOwn(m1: Body, p: Path)
    requires BesideSelectors(m1, p) && p != ["telemetry"] && p != ["profiles"]
    ensures Lookup(Map(EnsureSubkey(EnsureSection(ShimStage(m1), "telemetry", TELEMETRY_DEFAULT),
                                    "profiles", "trusted", Map(map[]))), p) == Lookup(Map(m1), p)
  {
    ShimKeepsLeaf(m1, p);
    var m2 := ShimStage(m1);
    var m3 := EnsureSection(m2, "telemetry", TELEMETRY_DEFAULT);
    SectionKeeps(m2, "telemetry", m3["telemetry"].entries, p);
    SectionKeeps(m3, "profiles", EnsureSubkey(m3, "profiles", "trusted", Map(map[]))["profiles"].entries, p);
  }

  lemma SectionKeeps(m: Body, k: string, entries: Body, p: Path)
    requires p != [] && p != [k] && Lookup(Map(m), p).Some? && !Lookup(Map(m), p).value.Map?
    requires HasMap(m, k) ==>
               forall x | x in m[k].entries :: x in entries && entries[x] == m[k].entries[x]
    ensures Lookup(Map(m[k := Map(entries)]), p) == Lookup(Map(m), p)
  {
    assert p == [p[0]] + p[1..];
    if p[0] == k {
      assert p[1..] != [];
      BesideKeeps(m, k, entries, p);
    }
  }

  // ---- every selected runtime stays selected -------------------------------

  /** `v` is in the selector list `k`. */
  ghost predicate Selects(m: Body, k: string, v: Value) {
    HasMap(m, "runtime") && v in ListAt(m["runtime"].entries, k)
  }

  lemma {:induction false} StringsKeep(items: seq<Value>, v: Value)
    ensures v in Strings(items) <==> v in items && v.Str?
  {
    if items != [] {
      StringsKeep(items[1..], v);
    }
  }

  lemma {:induction false} AppendKeeps(items: seq<Value>, more: seq<Value>, v: Value)
    ensures v in AppendMissing(items, more) <==> v in items || v in more
    decreases |more|
  {
    if more != [] {
      AppendKeeps(if more[0] in items then items else items + [more[0]], more[1..], v);
    }
  }

  lemma {:induction false} NormalizedKeeps(done: seq<Value>, items: seq<Value>, v: Value)
    requires v in done || v in items
    ensures (if v in done then v else CanonicalAdapter(v)) in Normalized(done, items)
    decreases |items|
  {
    if items != [] {
      var c := CanonicalAdapter(items[0]);
      var next := if c in done then done else done + [c];
      if v in done {
        NormalizedKeeps(next, items[1..], v);
      } else if v == items[0] {
        NormalizedKeeps(next, items[1..], c);
      } else {
        NormalizedKeeps(next, items[1..], v);
        if v in next {
          assert v == c && CanonicalAdapter(v) == v;
        }
      }
    }
  }

  lemma CatalogSelects(m: Body, k: string, v: Value)
    requires k == "adapters" || k == "preference"
    requires Selects(m, k, v) && v.Str?
    ensures Selects(CatalogStage(m).0, k, v)
  {
    var runtime := m["runtime"].entries;
    if "adapter_catalog" in runtime {
      var rest := runtime - {"adapter_catalog"};
      var enabled := EnabledAdapters(runtime["adapter_catalog"], ["claude", "codex", "opencode"]);
      StringsKeep(ListAt(rest, "adapters"), v);
      AppendKeeps(Strings(ListAt(rest, "adapters")), enabled, v);
    }
  }

  /** An enabled catalog row is promoted into the adapter list. */
  lemma CatalogPromotes(m: Body, name: string)
    requires HasMap(m, "runtime") && HasMap(m["runtime"].entries, "adapter_catalog")
    requires var catalog := m["runtime"].entries["adapter_catalog"];
             && HasMap(catalog.entries, name) && "enabled" in catalog.entries[name].entries
             && catalog.entries[name].entries["enabled"] == Bool(true)
    requires name in ["claude", "codex", "opencode"]
    ensures Selects(CatalogStage(m).0, "adapters", CanonicalAdapter(Str(name)))
  {
    var runtime := m["runtime"].entries;
    var rest := runtime - {"adapter_catalog"};
    var names := ["claude", "codex", "opencode"];
    EnabledHas(runtime["adapter_catalog"], names, name);
    AppendKeeps(Strings(ListAt(rest, "adapters")), EnabledAdapters(runtime["adapter_catalog"], names),
                CanonicalAdapter(Str(name)));
  }

  lemma {:induction false} EnabledHas(catalog: Value, names: seq<string>, name: string)
    requires catalog.Map? && HasMap(catalog.entries, name) && "enabled" in catalog.entries[name].entries
    requires catalog.entries[name].entries["enabled"] == Bool(true) && name in names
    ensures CanonicalAdapter(Str(name)) in EnabledAdapters(catalog, names)
  {
    if name != names[0] {
      EnabledHas(catalog, names[1..], name);
    }
  }

  lemma NormalizeSelects(m: Body, k: string, v: Value)
    requires k == "adapters" || k == "preference"
    requires Selects(m, k, v)
    ensures Selects(NormalizeStage(m).0, k, CanonicalAdapter(v))
  {
    NormalizedKeeps([], ListAt(m["runtime"].entries, k), v);
  }

  /** The selector lists pass the middle stages whole, up to cadences inside their items. */
  lemma MiddleSelects(t: Tables, m: Body, k: string, v: Value)
    requires AvoidsWritten(t.retired) && (k == "adapters" || k == "preference")
    requires Selects(m, k, v) && v.Str?
    ensures Selects(RetiredStage(CadenceStage(CoauthorStage(t, m).0).0, t.retired).0 - {"hooks"}, k, v)
  {
    var m6 := CoauthorStage(t, m).0;
    CoauthorStageSettles(t, m);
    var m7 := CadenceStage(m6).0;
    var items := ListAt(m6["runtime"].entries, k);
    CadenceItem(m6["runtime"].entries, k, v);
    assert m7["runtime"] == CadenceValue(m6["runtime"]);
    var path := ["runtime", k];
    TwoSteps(m7, path);
    forall i | 0 <= i < |t.retired| ensures !(t.retired[i] <= path) {
      assert t.retired[i] in t.retired && path in WRITTEN;
    }
    RetiredKeepsOwn(m7, t.retired, path, m7["runtime"].entries[k]);
    TwoSteps(RetiredStage(m7, t.retired).0, path);
  }

  lemma CadenceItem(runtime: Body, k: string, v: Value)
    requires k != "cadence" && v in ListAt(runtime, k) && v.Str?
    ensures v in ListAt(CadenceValue(Map(runtime)).entries, k)
  {
    var items := runtime[k].items;
    var i :| 0 <= i < |items| && items[i] == v;
    assert CadenceValue(Map(runtime)).entries[k] == CadenceValue(runtime[k]);
    assert CadenceValue(runtime[k]).items[i] == v;
  }

  lemma BackSelects(m: Body, k: string, v: Value)
    requires Selects(m, k, v) && (k == "adapters" || k == "preference")
    ensures Selects(KindStage(m).0, k, v)
    ensures Selects(ShimStage(m), k, v)
  {
  }

  /** From the normalised selectors on, the rest of the cleanup keeps a canonical selection. */
  lemma CleanupTailSelects(t: Tables, m5: Body, k: string, v: Value)
    requires AvoidsWritten(t.retired) && (k == "adapters" || k == "preference")
    requires Selects(m5, k, v) && v.Str? && CanonicalAdapter(v) == v
    ensures var m10 := KindStage(RetiredStage(CadenceStage(CoauthorStage(t, m5).0).0, t.retired).0 - {"hooks"}).0;
            Selects(m10, k, v) && Selects(NormalizeStage(ShimStage(m10)).0, k, v)
  {
    MiddleSelects(t, m5, k, v);
    var m9 := RetiredStage(CadenceStage(CoauthorStage(t, m5).0).0, t.retired).0 - {"hooks"};
    BackSelects(m9, k, v);
    BackSelects(KindStage(m9).0, k, v);
    NormalizeSelects(ShimStage(KindStage(m9).0), k, v);
  }

  /** A string selected after the catalog stage is selected, canonically spelled, at the end. */
  lemma CleanupSelects(t: Tables, m: Body, k: string, v: Value)
    requires AvoidsWritten(t.retired) && (k == "adapters" || k == "preference") && v.Str?
    requires Selects(CatalogStage(FlowStage(m - {"lifecycle"} - {"plugins"}).0).0, k, v)
    ensures Selects(Cleanup(t, m).0, k, CanonicalAdapter(v))
  {
    var m4 := CatalogStage(FlowStage(m - {"lifecycle"} - {"plugins"}).0).0;
    NormalizeSelects(m4, k, v);
    CleanupTailSelects(t, NormalizeStage(m4).0, k, CanonicalAdapter(v));
  }

  /** The body the cleanup of a migration starts from. */
  function Start(m: Body): Body {
    if Marker(m) == CURRENT_MARKER then m else m["schema_version" := Str(CURRENT_MARKER)]
  }

  lemma UpgradeSelects(t: Tables, m: Body, k: string, v: Value)
    requires AvoidsWritten(t.retired) && (k == "adapters" || k == "preference")
    requires Migrate(t, m).Ok? && Selects(Cleanup(t, Start(m)).0, k, v)
    ensures Selects(Migrate(t, m).value.0, k, v)
  {
    if Marker(m) != CURRENT_MARKER {
      BackSelects(Cleanup(t, Start(m)).0, k, v);
    }
  }

  /** The stages before the catalog leave `runtime` alone. */
  lemma FrontRuntime(m: Body)
    requires HasMap(m, "runtime")
    ensures var m3 := FlowStage(Start(m) - {"lifecycle"} - {"plugins"}).0;
            "runtime" in m3 && m3["runtime"] == m["runtime"]
  {
  }

  lemma ListedSurvives(t: Tables, m: Body, k: string, name: string)
    requires AvoidsWritten(t.retired) && HasMap(m, "runtime") && (k == "adapters" || k == "preference")
    requires Str(name) in ListAt(m["runtime"].entries, k)
    ensures Selects(Cleanup(t, Start(m)).0, k, CanonicalAdapter(Str(name)))
  {
    FrontRuntime(m);
    CatalogSelects(FlowStage(Start(m) - {"lifecycle"} - {"plugins"}).0, k, Str(name));
    CleanupSelects(t, Start(m), k, Str(name));
  }

  lemma EnabledSurvives(t: Tables, m: Body, name: string)
    requires AvoidsWritten(t.retired) && HasMap(m, "runtime") && name in ["claude", "codex", "opencode"]
    requires Switched(m["runtime"].entries, name)
    ensures Selects(Cleanup(t, Start(m)).0, "adapters", CanonicalAdapter(Str(name)))
  {
    FrontRuntime(m);
    CatalogPromotes(FlowStage(Start(m) - {"lifecycle"} - {"plugins"}).0, name);
    CanonicalTwice(Str(name));
    CleanupSelects(t, Start(m), "adapters", CanonicalAdapter(Str(name)));
  }

  lemma CanonicalTwice(v: Value)
    ensures CanonicalAdapter(CanonicalAdapter(v)) == CanonicalAdapter(v)
  {
    assert |"claude-code"| != |"claude"|;
  }

  /** Every runtime named in a selector list, or switched on in the old catalog, stays selected. */
  lemma SelectorsSurvive(t: Tables, m: Body, k: string, name: string)
    requires AvoidsWritten(t.retired) && Migrate(t, m).Ok? && HasMap(m, "runtime")
    requires
      || ((k == "adapters" || k == "preference") && Str(name) in ListAt(m["runtime"].entries, k))
      || (k == "adapters" && name in ["claude", "codex", "opencode"]
          && Switched(m["runtime"].entries, name))
    ensures Selects(Migrate(t, m).value.0, k, CanonicalAdapter(Str(name)))
  {
    if Str(name) in ListAt(m["runtime"].entries, k) {
      ListedSurvives(t, m, k, name);
    } else {
      EnabledSurvives(t, m, name);
    }
    UpgradeSelects(t, m, k, CanonicalAdapter(Str(name)));
  }

  /** The old catalog has the row `name` switched on. */
  predicate Switched(runtime: Body, name: string) {
    && HasMap(runtime, "adapter_catalog") && HasMap(runtime["adapter_catalog"].entries, name)
    && "enabled" in runtime["adapter_catalog"].entries[name].entries
    && runtime["adapter_catalog"].entries[name].entries["enabled"] == Bool(true)
  }

  /** No selector list names an adapter. */
  predicate NoAdapters(m: Body) {
    HasMap(m, "runtime") ==> ListAt(m["runtime"].entries, "adapters") == []
  }

  lemma CadenceKeepsNone(m: Body)
    requires NoAdapters(m)
    ensures NoAdapters(CadenceStage(m).0)
  {
    assert "adapters"[0] != "cadence"[0] && "runtime"[0] != "cadence"[0];
    var after := CadenceStage(m).0;
    if HasMap(after, "runtime") {
      assert after["runtime"] == CadenceValue(m["runtime"]);
      var runtime := m["runtime"].entries;
      if "adapters" in runtime {
        assert after["runtime"].entries["adapters"] == CadenceValue(runtime["adapters"]);
      }
    }
  }

  /** Pruning never puts a list where there was none. */
  lemma {:induction false} RetiredKeepsNone(m: Body, keys: seq<Path>)
    requires NonEmptyPaths(keys) && NoAdapters(m)
    ensures NoAdapters(RetiredStage(m, keys).0)
    decreases |keys|
  {
    if keys != [] {
      var small := UnsetAt(m, keys[0]).0;
      UnsetPrunes(m, keys[0]);
      var list := ["runtime", "adapters"];
      PrunedLookupBody(small, m, list);
      TwoSteps(small, list);
      TwoSteps(m, list);
      RetiredKeepsNone(small, keys[1..]);
    }
  }

  /** Deleting one path leaves what lies beside it. */
  lemma {:induction false} UnsetApart(m: Body, p: Path, q: Path)
    requires p != [] && !Comparable(p, q)
    ensures Lookup(Map(UnsetAt(m, p).0), q) == Lookup(Map(m), q)
    decreases |p|
  {
    UnsetRefused(m, p);
    if q[0] == p[0] && UnsetAt(m, p).1 {
      assert p == [p[0]] + p[1..] && q == [q[0]] + q[1..];
      UnsetApart(m[p[0]].entries, p[1..], q[1..]);
    }
  }

  lemma {:induction false} RetiredApart(m: Body, keys: seq<Path>, p: Path)
    requires NonEmptyPaths(keys) && forall i | 0 <= i < |keys| :: !Comparable(keys[i], p)
    ensures Lookup(Map(RetiredStage(m, keys).0), p) == Lookup(Map(m), p)
    decreases |keys|
  {
    if keys != [] {
      UnsetApart(m, keys[0], p);
      RetiredApart(UnsetAt(m, keys[0]).0, keys[1..], p);
    }
  }

  const KIND: Path := ["runtime", "kind"]

  /** No retired key takes the scalar selector away, or reaches into one that is a mapping. */
  ghost predicate SparesKind(keys: seq<Path>, kind: Value) {
    forall i | 0 <= i < |keys| :: !(keys[i] <= KIND) && (kind.Map? ==> !(KIND <= keys[i]))
  }

  lemma RetiredKeepsKind(m: Body, keys: seq<Path>, kind: Value)
    requires NonEmptyPaths(keys) && SparesKind(keys, kind) && Lookup(Map(m), KIND) == Some(kind)
    ensures Lookup(Map(RetiredStage(m, keys).0), KIND) == Some(kind)
  {
    if kind.Map? {
      RetiredApart(m, keys, KIND);
    } else {
      RetiredKeepsOwn(m, keys, KIND, kind);
    }
  }

  /** The cadence rewrite reaches into the scalar selector and does nothing else to it. */
  lemma CadenceKind(m: Body, kind: Value)
    requires Lookup(Map(m), KIND) == Some(kind)
    ensures Lookup(Map(CadenceStage(m).0), KIND) == Some(CadenceValue(kind))
  {
    assert "kind"[0] != "cadence"[0] && "runtime"[0] != "cadence"[0];
    TwoSteps(m, KIND);
    var after := CadenceStage(m).0;
    assert after["runtime"] == CadenceValue(m["runtime"]);
    assert after["runtime"].entries["kind"] == CadenceValue(kind);
    TwoSteps(after, KIND);
  }

  /** The body the scalar selector is promoted in. */
  function BeforeKind(t: Tables, m4: Body): Body
    requires NonEmptyPaths(t.retired)
  {
    RetiredStage(CadenceStage(CoauthorStage(t, NormalizeStage(m4).0).0).0, t.retired).0 - {"hooks"}
  }

  /** After the catalog stage a scalar selector reaches its promotion, its cadences rewritten. */
  lemma KindReached(t: Tables, m4: Body, kind: Value)
    requires NonEmptyPaths(t.retired) && SparesKind(t.retired, CadenceValue(kind))
    requires Lookup(Map(m4), KIND) == Some(kind) && NoAdapters(m4)
    ensures Lookup(Map(BeforeKind(t, m4)), KIND) == Some(CadenceValue(kind)) && NoAdapters(BeforeKind(t, m4))
  {
    TwoSteps(m4, KIND);
    var m5 := NormalizeStage(m4).0;
    TwoSteps(m5, KIND);
    var m6 := CoauthorStage(t, m5).0;
    CoauthorStageSettles(t, m5);
    TwoSteps(m6, KIND);
    var m7 := CadenceStage(m6).0;
    CadenceKind(m6, kind);
    CadenceKeepsNone(m6);
    RetiredKeepsKind(m7, t.retired, CadenceValue(kind));
    RetiredKeepsNone(m7, t.retired);
    TwoSteps(RetiredStage(m7, t.retired).0, KIND);
    TwoSteps(BeforeKind(t, m4), KIND);
  }

  lemma StripFromCatalog(t: Tables, m: Body)
    requires NonEmptyPaths(t.retired)
    ensures var promoted := KindStage(BeforeKind(t, CatalogStage(FlowStage(m - {"lifecycle"} - {"plugins"}).0).0));
            Strip(t, m).0 == promoted.0 && (promoted.1 ==> Strip(t, m).1)
  {
  }

  /** A promoted selector is listed, and passes the closing shim and normalisation. */
  lemma KindListed(m9: Body, kind: Value)
    requires Lookup(Map(m9), KIND) == Some(kind) && NoAdapters(m9)
    ensures KindStage(m9).1
    ensures Selects(NormalizeStage(ShimStage(KindStage(m9).0)).0, "adapters", CanonicalAdapter(kind))
  {
    TwoSteps(m9, KIND);
    var m10 := KindStage(m9).0;
    assert kind in ListAt(m10["runtime"].entries, "adapters");
    BackSelects(m10, "adapters", kind);
    NormalizeSelects(ShimStage(m10), "adapters", kind);
  }

  /**
    A scalar selector, whatever its value, becomes the adapter list when no adapter is listed once the old
    catalog is folded in, whether `adapters` was absent, empty or no list.
   */
  lemma KindPromoted(t: Tables, m: Body, kind: Value)
    requires NonEmptyPaths(t.retired) && SparesKind(t.retired, CadenceValue(kind))
    requires HasMap(m, "runtime") && NoAdapters(CatalogStage(m).0)
    requires "kind" in m["runtime"].entries && m["runtime"].entries["kind"] == kind
    ensures Selects(Cleanup(t, m).0, "adapters", CanonicalAdapter(CadenceValue(kind)))
  {
    var m4 := CatalogStage(FlowStage(m - {"lifecycle"} - {"plugins"}).0).0;
    KindFolded(m, kind);
    KindReached(t, m4, kind);
    KindListed(BeforeKind(t, m4), CadenceValue(kind));
    StripFromCatalog(t, m);
  }

  lemma KindFolded(m: Body, kind: Value)
    requires HasMap(m, "runtime") && NoAdapters(CatalogStage(m).0)
    requires "kind" in m["runtime"].entries && m["runtime"].entries["kind"] == kind
    ensures var m4 := CatalogStage(FlowStage(m - {"lifecycle"} - {"plugins"}).0).0;
            Lookup(Map(m4), KIND) == Some(kind) && NoAdapters(m4)
  {
    var m4 := CatalogStage(FlowStage(m - {"lifecycle"} - {"plugins"}).0).0;
    assert m4["runtime"] == CatalogStage(m).0["runtime"];
    TwoSteps(m4, KIND);
    assert KIND[2..] == [];
  }

  /** Whenever the cleanup reports a change, a selector list comes with a preference list. */
  lemma PreferenceFollows(t: Tables, m: Body)
    requires NonEmptyPaths(t.retired) && Cleanup(t, m).1
    ensures var after := Cleanup(t, m).0;
            HasMap(after, "runtime") && ListAt(after["runtime"].entries, "adapters") != [] ==>
              ListAt(after["runtime"].entries, "preference") != []
  {
    var shimmed := ShimStage(Strip(t, m).0);
    if HasMap(shimmed, "runtime") && ListAt(shimmed["runtime"].entries, "preference") != [] {
      var preference := ListAt(shimmed["runtime"].entries, "preference");
      NormalizeSelects(shimmed, "preference", preference[0]);
    }
  }

  // ---- the stages as the source runs them: in place, on one payload --------

  /** Some entry under one of `keys` is hit. */
  ghost predicate HitIn(entries: Body, keys: set<string>) {
    exists k | k in keys && k in entries :: IsAlias(k, entries[k]) || CadenceHit(entries[k])
  }

  lemma HitStep(entries: Body, keys: set<string>, key: string)
    requires key in entries
    ensures HitIn(entries, keys + {key}) <==>
            HitIn(entries, keys) || IsAlias(key, entries[key]) || CadenceHit(entries[key])
  {
    if IsAlias(key, entries[key]) || CadenceHit(entries[key]) {
      assert key in keys + {key};
    }
    if HitIn(entries, keys) {
      var k :| k in keys && k in entries && (IsAlias(k, entries[k]) || CadenceHit(entries[k]));
      assert k in keys + {key};
    }
  }

  /** `_migrate_cadence_values` on one node: the rewritten node and whether anything was hit. */
  method MigrateCadenceValues(v: Value) returns (after: Value, changed: bool)
    ensures after == CadenceValue(v) && changed == CadenceHit(v)
    decreases v, 1
  {
    match v {
      case Map(entries) =>
        after, changed := MigrateCadenceEntries(entries);
      case List(items) =>
        var rewritten: seq<Value> := [];
        changed := false;
        for i := 0 to |items|
          invariant rewritten == CadenceValue(v).items[..i]
          invariant changed == exists j | 0 <= j < i :: CadenceHit(items[j])
        {
          var inner, hit := MigrateCadenceValues(items[i]);
          rewritten := rewritten + [inner];
          changed := hit || changed;
        }
        assert CadenceValue(v).items[..|items|] == CadenceValue(v).items;
        after := List(rewritten);
      case _ =>
        after, changed := v, false;
    }
  }

  method MigrateCadenceEntries(entries: Body) returns (after: Value, changed: bool)
    ensures after == CadenceValue(Map(entries)) && changed == CadenceHit(Map(entries))
    decreases Map(entries), 0
  {
    changed := false;
    var rewritten: Body := map[];
    var todo := entries.Keys;
    while todo != {}
      invariant todo <= entries.Keys
      invariant rewritten == Restrict(CadenceValue(Map(entries)).entries, entries.Keys - todo)
      invariant changed == HitIn(entries, entries.Keys - todo)
      decreases |todo|
    {
      var key :| key in todo;
      var value, hit := entries[key], true;
      HitStep(entries, entries.Keys - todo, key);
      RestrictStep(CadenceValue(Map(entries)).entries, entries.Keys - todo, key);
      if IsAlias(key, value) {
        value := Str(CADENCE_ALIASES[value.text]);
      } else {
        value, hit := MigrateCadenceValues(value);
      }
      LeftStep(entries.Keys, todo, key);
      rewritten, changed, todo := rewritten[key := value], hit || changed, todo - {key};
    }
    RestrictAll(CadenceValue(Map(entries)).entries, entries.Keys);
    after := Map(rewritten);
  }

  lemma LeftStep(all: set<string>, todo: set<string>, key: string)
    requires key in todo && todo <= all
    ensures all - (todo - {key}) == (all - todo) + {key} && |todo - {key}| < |todo|
  {
  }

  lemma RestrictAll(m: Body, keys: set<string>)
    requires keys == m.Keys
    ensures Restrict(m, keys - {}) == m
  {
  }

  lemma RestrictStep(m: Body, keys: set<string>, key: string)
    requires key in m
    ensures Restrict(m, keys + {key}) == Restrict(m, keys)[key := m[key]]
  {
  }

  /** One layer body under migration; every stage edits `payload` and says whether it did. */
  class Migrator {
    var payload: Body
    const tables: Tables

    constructor (tables: Tables, body: Body)
      ensures payload == body && this.tables == tables
    {
      payload := body;
      this.tables := tables;
    }

    method MigrateFlowTransitions() returns (changed: bool)
      modifies this
      ensures (payload, changed) == FlowStage(old(payload))
    {
      if !HasMap(payload, "flow") {
        return false;
      }
      var flow := payload["flow"].entries;
      changed := "auto_accept" in flow && flow["auto_accept"] != Null;
      flow := flow - {"auto_accept"};
      if "ask_on_decisions" in flow {
        flow := flow - {"ask_on_decisions"};
        changed := true;
      }
      assert flow == payload["flow"].entries - {"auto_accept", "ask_on_decisions"};
      payload := if flow == map[] then payload - {"flow"} else payload["flow" := Map(flow)];
    }

    method MigrateAdapterCatalog() returns (changed: bool)
      modifies this
      ensures (payload, changed) == CatalogStage(old(payload))
    {
      if !HasMap(payload, "runtime") || "adapter_catalog" !in payload["runtime"].entries {
        return false;
      }
      var runtime := payload["runtime"].entries;
      var catalog := runtime["adapter_catalog"];
      runtime := runtime - {"adapter_catalog"};
      if catalog.Map? {
        var enabled := EnabledAdapters(catalog, ["claude", "codex", "opencode"]);
        var canonical := Strings(ListAt(runtime, "adapters"));
        ghost var start := canonical;
        for i := 0 to |enabled|
          invariant AppendMissing(start, enabled) == AppendMissing(canonical, enabled[i..])
        {
          assert enabled[i..][1..] == enabled[i + 1..];
          if enabled[i] !in canonical {
            canonical := canonical + [enabled[i]];
          }
        }
        if canonical != [] {
          runtime := runtime["adapters" := List(canonical)];
          if ListAt(runtime, "preference") == [] {
            runtime := runtime["preference" := List(canonical)];
          }
        }
      }
      payload := payload["runtime" := Map(runtime)];
      return true;
    }

    method NormalizeRuntimeIds() returns (changed: bool)
      modifies this
      ensures (payload, changed) == NormalizeStage(old(payload))
    {
      if !HasMap(payload, "runtime") {
        return false;
      }
      var runtime := payload["runtime"].entries;
      ghost var start := runtime;
      var keys := ["adapters", "preference"];
      changed := false;
      for k := 0 to |keys|
        invariant runtime == (if k == 0 then start else if k == 1 then NormalizeList(start, "adapters")
                              else NormalizeList(NormalizeList(start, "adapters"), "preference"))
        invariant (changed <==> runtime != start) && payload == old(payload)
      {
        if keys[k] in runtime && runtime[keys[k]].List? {
          var values := runtime[keys[k]].items;
          var normalized: seq<Value> := [];
          for i := 0 to |values|
            invariant Normalized([], values) == Normalized(normalized, values[i..])
          {
            var canonical := CanonicalAdapter(values[i]);
            assert values[i..][1..] == values[i + 1..];
            if canonical !in normalized {
              normalized := normalized + [canonical];
            }
          }
          NormalizeListOnce(start, runtime, keys[k]);
          if normalized != values {
            runtime := runtime[keys[k] := List(normalized)];
            changed := true;
          }
        }
      }
      assert runtime == NormalizeList(NormalizeList(start, "adapters"), "preference");
      payload := payload["runtime" := Map(runtime)];
    }

    method SplitCoauthorProject() returns (changed: bool)
      modifies this
      ensures (payload, changed) == CoauthorStage(tables, old(payload))
    {
      if !HasMap(payload, "vcs") || !HasMap(payload["vcs"].entries, "coauthor") {
        return false;
      }
      var coauthor := payload["vcs"].entries["coauthor"].entries;
      if "project" !in coauthor || !coauthor["project"].Str? {
        return false;
      }
      match tables.splitCoauthor(coauthor["project"].text) {
        case None =>
          coauthor := coauthor - {"project"};
        case Some((name, email)) =>
          coauthor := coauthor["project" := Map(map["name" := Str(name), "email" := Str(email)])];
      }
      payload := Replace(payload, "vcs", "coauthor", coauthor);
      return true;
    }

    method UnsetRetired() returns (changed: bool)
      requires NonEmptyPaths(tables.retired)
      modifies this
      ensures (payload, changed) == RetiredStage(old(payload), tables.retired)
    {
      changed := false;
      for i := 0 to |tables.retired|
        invariant var (rest, more) := RetiredStage(payload, tables.retired[i..]);
                  RetiredStage(old(payload), tables.retired) == (rest, changed || more)
      {
        var key := tables.retired[i];
        assert tables.retired[i..][1..] == tables.retired[i + 1..];
        var removed := UnsetDotted(payload, key);
        payload := removed.value.0;
        changed := removed.value.1 || changed;
      }
    }

    method PromoteKind() returns (changed: bool)
      modifies this
      ensures (payload, changed) == KindStage(old(payload))
    {
      if !HasMap(payload, "runtime") || "kind" !in payload["runtime"].entries {
        return false;
      }
      var runtime := payload["runtime"].entries;
      var kind := runtime["kind"];
      runtime := runtime - {"kind"};
      if ListAt(runtime, "adapters") == [] {
        runtime := runtime["adapters" := List([kind])];
      }
      payload := payload["runtime" := Map(runtime)];
      return true;
    }

    method ShimRuntimePreference()
      modifies this
      ensures payload == ShimStage(old(payload))
    {
      if HasMap(payload, "runtime") {
        var runtime := payload["runtime"].entries;
        if ListAt(runtime, "preference") == [] && ListAt(runtime, "adapters") != [] {
          payload := payload["runtime" := Map(runtime["preference" := runtime["adapters"]])];
        }
      }
    }

    /** `_cleanup_legacy_keys`. */
    method CleanupLegacyKeys() returns (changed: bool)
      requires NonEmptyPaths(tables.retired)
      modifies this
      ensures (payload, changed) == Cleanup(tables, old(payload))
    {
      var c1, c2 := "lifecycle" in payload, "plugins" in payload;
      payload := payload - {"lifecycle"};
      payload := payload - {"plugins"};
      assert c2 == ("plugins" in old(payload) - {"lifecycle"});
      var c3 := MigrateFlowTransitions();
      var c4 := MigrateAdapterCatalog();
      var c5 := NormalizeRuntimeIds();
      var c6 := SplitCoauthorProject();
      var rewritten, c7 := MigrateCadenceValues(Map(payload));
      payload := rewritten.entries;
      var c8 := UnsetRetired();
      var c9 := "hooks" in payload;
      payload := payload - {"hooks"};
      var c10 := PromoteKind();
      changed := c1 || c2 || c3 || c4 || c5 || c6 || c7 || c8 || c9 || c10;
      assert (payload, changed) == Strip(tables, old(payload));
      if changed {
        ShimRuntimePreference();
        var _ := NormalizeRuntimeIds();
      }
    }

    method EnsureTelemetry()
      modifies this
      ensures payload == EnsureSection(old(payload), "telemetry", TELEMETRY_DEFAULT)
    {
      if !HasMap(payload, "telemetry") {
        payload := payload["telemetry" := Map(TELEMETRY_DEFAULT)];
        return;
      }
      var existing := FillSection(payload["telemetry"].entries, TELEMETRY_DEFAULT);
      payload := payload["telemetry" := Map(existing)];
    }

    /** `migrate_config_payload`: refuse an unknown marker, else upgrade in place. */
    method MigratePayload() returns (changed: Result<bool, string>)
      requires NonEmptyPaths(tables.retired)
      modifies this
      ensures match Migrate(tables, old(payload))
              case Err(e) => changed == Err(e) && payload == old(payload)
              case Ok((body, flag)) => changed == Ok(flag) && payload == body
    {
      var missing := "schema_version" !in payload;
      var marker := Marker(payload);
      if marker != CURRENT_MARKER && marker !in LEGACY_MARKERS {
        return Err("unknown config schema_version");
      }
      if marker == CURRENT_MARKER {
        var cleaned := CleanupLegacyKeys();
        if missing {
          payload := payload["schema_version" := Str(CURRENT_MARKER)];
        }
        return Ok(cleaned || missing);
      }
      payload := payload["schema_version" := Str(CURRENT_MARKER)];
      var _ := CleanupLegacyKeys();
      ShimRuntimePreference();
      EnsureTelemetry();
      payload := EnsureSubkey(payload, "profiles", "trusted", Map(map[]));
      return Ok(true);
    }
  }

  /** What filling makes of one key of the default. */
  ghost function FilledAt(section: Body, default: Body, key: string): Value
    requires key in default
  {
    if key !in section then default[key]
    else if default[key].Map? && section[key].Map? then Map(Fill(section[key].entries, default[key].entries))
    else section[key]
  }

  /** Filling one more key changes that key alone. */
  lemma FillStep(section: Body, default: Body, done: set<string>, key: string)
    requires key in default && key !in done
    ensures Fill(section, Restrict(default, done + {key})) ==
            Fill(section, Restrict(default, done))[key := FilledAt(section, default, key)]
    ensures var sofar := Fill(section, Restrict(default, done));
            (key in sofar <==> key in section) && (key in section ==> sofar[key] == section[key])
  {
  }

  lemma FillNone(section: Body, default: Body)
    ensures Fill(section, Restrict(default, {})) == section
  {
  }

  lemma FillAll(section: Body, default: Body)
    ensures Restrict(default, default.Keys) == default
  {
  }

  lemma SameKey(m: Body, key: string)
    requires key in m
    ensures m[key := m[key]] == m
  {
  }

  /** The filling of `_ensure_section`: absent defaults are added, and two mappings are filled in turn. */
  method FillSection(section: Body, default: Body) returns (existing: Body)
    ensures existing == Fill(section, default)
    decreases Map(default)
  {
    existing := section;
    var todo := default.Keys;
    ghost var done: set<string> := {};
    FillNone(section, default);
    while todo != {}
      invariant todo + done == default.Keys && todo !! done
      invariant existing == Fill(section, Restrict(default, done))
      decreases |todo|
    {
      var key :| key in todo;
      FillStep(section, default, done, key);
      if default[key].Map? && key in existing && existing[key].Map? {
        var inner := FillSection(existing[key].entries, default[key].entries);
        existing := existing[key := Map(inner)];
      } else if key !in existing {
        existing := existing[key := default[key]];
      } else {
        SameKey(existing, key);
      }
      todo, done := todo - {key}, done + {key};
    }
    FillAll(section, default);
  }

  /** Rewriting one list keeps the other; together they differ from the start iff one did. */
  lemma NormalizeListOnce(start: Body, runtime: Body, k: string)
    requires runtime == start || runtime == NormalizeList(start, "adapters")
    requires k in runtime && runtime[k].List?
    ensures NormalizeList(runtime, k)[k] == List(Normalized([], runtime[k].items))
    ensures Normalized([], runtime[k].items) == runtime[k].items ==> NormalizeList(runtime, k) == runtime
  {
  }
}
