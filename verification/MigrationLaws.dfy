/** What a migration makes of a whole layer, path by path, in the words of the layer alone. */
module MigrationLaws {
  import opened Values
  import opened Layered
  import opened Migration

  /** The migrated body. */
  function Migrated(t: Tables, m: Body): Body
    requires NonEmptyPaths(t.retired) && Migrate(t, m).Ok?
  {
    Migrate(t, m).value.0
  }

  // ---- cadences ------------------------------------------------------------

  /** The native spelling of a text held under `key`. */
  ghost function Native(key: string, text: string): string {
    if key != "cadence" then text
    else if text == "every-wave" then "every-task"
    else if text == "every-iter" then "every-batch"
    else if text == "every-phase" then "every-milestone"
    else text
  }

  /** `after` is `before`, held under `key`, with every cadence in its native spelling and nothing else changed. */
  ghost predicate Recadenced(key: string, before: Value, after: Value)
    decreases before
  {
    match before
    case Str(text) => after == Str(Native(key, text))
    case Map(entries) =>
      && after.Map? && after.entries.Keys == entries.Keys
      && forall k | k in entries :: Recadenced(k, entries[k], after.entries[k])
    case List(items) =>
      && after.List? && |after.items| == |items|
      && forall i | 0 <= i < |items| :: Recadenced("", items[i], after.items[i])
    case _ => after == before
  }

  /** What the rewrite leaves of a value under `key`. */
  function Rewritten(key: string, v: Value): Value {
    if IsAlias(key, v) then Str(CADENCE_ALIASES[v.text]) else CadenceValue(v)
  }

  lemma NativeExact(key: string, v: Value)
    requires v.Str?
    ensures Rewritten(key, v) == Str(Native(key, v.text))
  {
  }

  /** The cadence rewrite, at any depth. */
  lemma {:induction false} CadencesRewritten(key: string, v: Value)
    ensures Recadenced(key, v, Rewritten(key, v))
    decreases v
  {
    match v
    case Str(_) => NativeExact(key, v);
    case Map(entries) =>
      forall k | k in entries ensures Recadenced(k, entries[k], Rewritten(k, entries[k])) {
        CadencesRewritten(k, entries[k]);
      }
    case List(items) =>
      forall i | 0 <= i < |items| ensures Recadenced("", items[i], CadenceValue(items[i])) {
        CadencesRewritten("", items[i]);
      }
    case _ =>
  }

  /** What lies at `p` before and after differs in its cadences alone. */
  ghost predicate RecadencedAt(before: Body, after: Body, p: Path)
    requires p != []
  {
    var was, now := Lookup(Map(before), p), Lookup(Map(after), p);
    (was.None? && now.None?) || (was.Some? && now.Some? && Recadenced(p[|p| - 1], was.value, now.value))
  }

  lemma {:induction false} CadenceAt(v: Value, p: Path)
    requires p != []
    ensures var was, now := Lookup(v, p), Lookup(CadenceValue(v), p);
            now == if was.None? then None else Some(Rewritten(p[|p| - 1], was.value))
    decreases |p|
  {
    if v.Map? && p[0] in v.entries {
      var inner := v.entries[p[0]];
      if |p| == 1 {
        assert p[1..] == [];
      } else if !IsAlias(p[0], inner) {
        CadenceAt(inner, p[1..]);
        assert p[1..][|p| - 2] == p[|p| - 1];
      }
    }
  }

  lemma CadencePath(m: Body, p: Path)
    requires p != []
    ensures RecadencedAt(m, CadenceStage(m).0, p)
  {
    CadenceAt(Map(m), p);
    var was := Lookup(Map(m), p);
    if was.Some? {
      CadencesRewritten(p[|p| - 1], was.value);
    }
  }

  // ---- the stages, section by section --------------------------------------

  /** The stages before the co-author split. */
  function Front(m: Body): Body {
    NormalizeStage(CatalogStage(FlowStage(m - {"lifecycle"} - {"plugins"}).0).0).0
  }

  /** The stages from the co-author split to the retired keys. */
  function Middle(t: Tables, m: Body): Body
    requires NonEmptyPaths(t.retired)
  {
    RetiredStage(CadenceStage(CoauthorStage(t, m).0).0, t.retired).0
  }

  /** Section `k` is the same in both. */
  ghost predicate Alike(a: Body, b: Body, k: string) {
    (k in a <==> k in b) && (k in a ==> a[k] == b[k])
  }

  lemma AlikeLookup(a: Body, b: Body, p: Path)
    requires p != [] && Alike(a, b, p[0])
    ensures Lookup(Map(a), p) == Lookup(Map(b), p)
  {
  }

  lemma FrontAlike(m: Body, k: string)
    requires k !in {"schema_version", "lifecycle", "plugins", "flow", "runtime"}
    ensures Alike(m, Front(Start(m)), k)
  {
    var m2 := Start(m) - {"lifecycle"} - {"plugins"};
    assert Alike(m, m2, k);
    var m3 := FlowStage(m2).0;
    assert Alike(m2, m3, k);
    CatalogStageSettles(m3);
    NormalizeStageFrame(CatalogStage(m3).0);
  }

  lemma CleanupParts(t: Tables, m: Body)
    requires NonEmptyPaths(t.retired)
    ensures var m9 := Middle(t, Front(m)) - {"hooks"};
            Cleanup(t, m).0 == if Strip(t, m).1 then NormalizeStage(ShimStage(KindStage(m9).0)).0 else KindStage(m9).0
  {
  }

  lemma RuntimeAlike(m: Body, k: string)
    requires k != "runtime"
    ensures Alike(m, KindStage(m).0, k) && Alike(m, ShimStage(m), k) && Alike(m, NormalizeStage(m).0, k)
  {
  }

  /** The stages after the retired keys touch few sections. */
  lemma BackAlike(t: Tables, m: Body, k: string)
    requires NonEmptyPaths(t.retired) && Migrate(t, m).Ok?
    requires k !in {"schema_version", "hooks", "runtime"}
    requires k in {"telemetry", "profiles"} ==> Marker(m) == CURRENT_MARKER
    ensures Alike(Middle(t, Front(Start(m))), Migrated(t, m), k)
  {
    CleanupParts(t, Start(m));
    var m9 := Middle(t, Front(Start(m))) - {"hooks"};
    RuntimeAlike(m9, k);
    RuntimeAlike(KindStage(m9).0, k);
    RuntimeAlike(ShimStage(KindStage(m9).0), k);
    RuntimeAlike(Cleanup(t, Start(m)).0, k);
  }

  // ---- the co-author -------------------------------------------------------

  lemma ProjectStage(t: Tables, m: Body)
    ensures var after := Lookup(Map(CoauthorStage(t, m).0), PROJECT);
            match Lookup(Map(m), PROJECT)
            case Some(Str(text)) =>
              (match t.splitCoauthor(text)
               case None => after == None
               case Some((name, email)) => after == Some(Map(map["name" := Str(name), "email" := Str(email)])))
            case other => after == other
  {
    ProjectLookup(m);
    ProjectLookup(CoauthorStage(t, m).0);
  }

  lemma RecordQuiet(name: string, email: string)
    ensures CadenceValue(Map(map["name" := Str(name), "email" := Str(email)])) ==
            Map(map["name" := Str(name), "email" := Str(email)])
  {
    var record := map["name" := Str(name), "email" := Str(email)];
    assert "cadence" !in record;
    assert CadenceValue(Map(record)).entries == record;
  }

  ghost predicate Apart(keys: seq<Path>, p: Path) {
    forall i | 0 <= i < |keys| :: !Comparable(keys[i], p)
  }

  /** Past the split, only the cadence rewrite can touch the project. */
  lemma ProjectAfter(t: Tables, m: Body)
    requires NonEmptyPaths(t.retired) && Migrate(t, m).Ok? && Apart(t.retired, PROJECT)
    ensures var split := Lookup(Map(CoauthorStage(t, Front(Start(m))).0), PROJECT);
            Lookup(Map(Migrated(t, m)), PROJECT) ==
            if split.None? then None else Some(Rewritten("project", split.value))
  {
    var start := Front(Start(m));
    var split := CoauthorStage(t, start).0;
    CadenceAt(Map(split), PROJECT);
    RetiredApart(CadenceStage(split).0, t.retired, PROJECT);
    BackAlike(t, m, "vcs");
    AlikeLookup(Middle(t, start), Migrated(t, m), PROJECT);
  }

  lemma ProjectBefore(m: Body)
    ensures Lookup(Map(Front(Start(m))), PROJECT) == Lookup(Map(m), PROJECT)
  {
    FrontAlike(m, "vcs");
    AlikeLookup(m, Front(Start(m)), PROJECT);
  }

  /** The record holds a name and an email and nothing else. */
  ghost predicate Record(v: Value, name: string, email: string) {
    && v.Map? && v.entries.Keys == {"name", "email"}
    && v.entries["name"] == Str(name) && v.entries["email"] == Str(email)
  }

  lemma RecordMade(name: string, email: string)
    ensures Record(Rewritten("project", Map(map["name" := Str(name), "email" := Str(email)])), name, email)
  {
    RecordQuiet(name, email);
  }

  /**
    A project co-author written as one text comes out as a record of exactly the name and the email it
    splits into, or is gone when it does not split; written any other way it stays as it was.
   */
  lemma CoauthorMigrated(t: Tables, m: Body)
    requires NonEmptyPaths(t.retired) && Migrate(t, m).Ok? && Apart(t.retired, ["vcs", "coauthor", "project"])
    ensures var was, now := Lookup(Map(m), ["vcs", "coauthor", "project"]),
                            Lookup(Map(Migrated(t, m)), ["vcs", "coauthor", "project"]);
            match was
            case None => now == None
            case Some(Str(text)) =>
              (match t.splitCoauthor(text)
               case None => now == None
               case Some((name, email)) => now.Some? && Record(now.value, name, email))
            case Some(other) => now.Some? && Recadenced("project", other, now.value)
  {
    ProjectBefore(m);
    ProjectStage(t, Front(Start(m)));
    ProjectAfter(t, m);
    match Lookup(Map(m), PROJECT) {
      case None =>
      case Some(Str(text)) =>
        match t.splitCoauthor(text) {
          case None =>
          case Some((name, email)) => RecordMade(name, email);
        }
      case Some(other) => CadencesRewritten("project", other);
    }
  }

  /** The two leaves of a split co-author, by their paths. */
  lemma CoauthorLeaves(t: Tables, m: Body, text: string, name: string, email: string)
    requires NonEmptyPaths(t.retired) && Migrate(t, m).Ok? && Apart(t.retired, ["vcs", "coauthor", "project"])
    requires Lookup(Map(m), ["vcs", "coauthor", "project"]) == Some(Str(text))
    requires t.splitCoauthor(text) == Some((name, email))
    ensures Lookup(Map(Migrated(t, m)), ["vcs", "coauthor", "project", "name"]) == Some(Str(name))
    ensures Lookup(Map(Migrated(t, m)), ["vcs", "coauthor", "project", "email"]) == Some(Str(email))
  {
    CoauthorMigrated(t, m);
    RecordLeaf(Migrated(t, m), name, email, "name");
    RecordLeaf(Migrated(t, m), name, email, "email");
  }

  lemma RecordLeaf(m: Body, name: string, email: string, key: string)
    requires Lookup(Map(m), PROJECT).Some? && Record(Lookup(Map(m), PROJECT).value, name, email)
    requires key in {"name", "email"}
    ensures Lookup(Map(m), ["vcs", "coauthor", "project", key]) == Some(Str(if key == "name" then name else email))
  {
    LookupSplit(Map(m), PROJECT, [key]);
    assert PROJECT + [key] == ["vcs", "coauthor", "project", key];
    assert [key][1..] == [];
  }

  // ---- everything the migration does not name ------------------------------

  /** Writing the project leaves every path beside it. */
  lemma ProjectBeside(t: Tables, m: Body, p: Path)
    requires p != [] && !Comparable(p, PROJECT)
    ensures Lookup(Map(CoauthorStage(t, m).0), p) == Lookup(Map(m), p)
  {
    if CoauthorStage(t, m).1 && p[0] == "vcs" {
      var after := CoauthorStage(t, m).0;
      assert p == ["vcs"] + p[1..] && p[1..] != [];
      if p[1] == "coauthor" {
        assert p == ["vcs", "coauthor"] + p[2..] && p[2..] != [];
        TwoSteps(m, p);
        TwoSteps(after, p);
        assert p[2] == "project" ==> PROJECT <= p;
      } else {
        TwoSteps(m, p);
        TwoSteps(after, p);
      }
    }
  }

  /** Past the retired keys, a path beside all of them and the project has only seen the cadence rewrite. */
  lemma MiddleExact(t: Tables, m: Body, p: Path)
    requires NonEmptyPaths(t.retired) && p != [] && !Comparable(p, PROJECT) && Apart(t.retired, p)
    ensures RecadencedAt(m, Middle(t, m), p)
    ensures Lookup(Map(Middle(t, m)), p) ==
            if Lookup(Map(m), p).None? then None else Some(Rewritten(p[|p| - 1], Lookup(Map(m), p).value))
  {
    var split := CoauthorStage(t, m).0;
    ProjectBeside(t, m, p);
    CadenceAt(Map(split), p);
    CadencePath(split, p);
    RetiredApart(CadenceStage(split).0, t.retired, p);
  }

  // ---- the marker ----------------------------------------------------------

  /** A marker that reads as `text`. */
  ghost predicate Reads(v: Value, text: string) {
    v == Str(text) || v == Float(text) || (v == Int(2) && text == "2")
  }

  ghost predicate LegacyMarker(m: Body) {
    "schema_version" in m && (Reads(m["schema_version"], "1.1") || Reads(m["schema_version"], "2"))
  }

  ghost predicate CurrentMarker(m: Body) {
    "schema_version" in m && Reads(m["schema_version"], "1.0")
  }

  lemma {:induction false} DecimalTwo(n: nat)
    ensures Decimal(n) == "2" <==> n == 2
    ensures '.' !in Decimal(n)
  {
    DecimalDigits(n);
    if n >= 10 {
      assert |Decimal(n / 10)| >= 1;
      assert |Decimal(n)| >= 2;
    } else {
      assert Decimal(n) == ["0123456789"[n]];
    }
  }

  lemma RenderReads(v: Value, text: string)
    requires text in {"1.0", "1.1", "2"}
    ensures Render(v) == text <==> Reads(v, text)
  {
    assert "1.0"[1] == '.' && "1.1"[1] == '.';
    match v {
      case Int(n) =>
        if n >= 0 {
          DecimalTwo(n);
        } else {
          assert Render(v)[0] == '-';
        }
      case Null => assert Render(v)[0] == 'N';
      case Bool(b) => assert Render(v)[0] == if b then 'T' else 'F';
      case List(_) => assert Render(v)[0] == '[';
      case Map(_) => assert Render(v)[0] == '{';
      case _ =>
    }
  }

  lemma MarkerReads(m: Body)
    ensures Marker(m) == CURRENT_MARKER <==> "schema_version" !in m || CurrentMarker(m)
    ensures Marker(m) in LEGACY_MARKERS <==> LegacyMarker(m)
  {
    assert "1.0"[2] != "1.1"[2] && |"2"| != |"1.0"|;
    if "schema_version" in m {
      RenderReads(m["schema_version"], "1.0");
      RenderReads(m["schema_version"], "1.1");
      RenderReads(m["schema_version"], "2");
    }
  }

  /**
    A layer is accepted exactly when its marker is missing or one of the three known ones. The migrated
    body states the current marker, in the layer's own words when it did; a marker that had to be written
    is reported.
   */
  lemma MarkerMigrated(t: Tables, m: Body)
    requires AvoidsWritten(t.retired)
    ensures Migrate(t, m).Ok? <==> "schema_version" !in m || CurrentMarker(m) || LegacyMarker(m)
    ensures Migrate(t, m).Ok? ==>
              && "schema_version" in Migrated(t, m)
              && (CurrentMarker(m) ==> Migrated(t, m)["schema_version"] == m["schema_version"])
              && (!CurrentMarker(m) ==> Migrated(t, m)["schema_version"] == Str("1.0") && Migrate(t, m).value.1)
  {
    MarkerReads(m);
    if Migrate(t, m).Ok? {
      if CurrentMarker(m) {
        CleanupKeepsMarker(t, m);
      } else if LegacyMarker(m) {
        CleanupKeepsMarker(t, m["schema_version" := Str(CURRENT_MARKER)]);
        RuntimeAlike(Cleanup(t, Start(m)).0, "schema_version");
      }
    }
  }

  // ---- what has no rule, and what is retired -------------------------------

  /** The keys of `runtime` the migration names. */
  const SELECTORS: set<string> := {"adapter_catalog", "kind", "adapters", "preference"}

  /** Only the selector keys of `runtime` may differ. */
  ghost predicate RuntimeBeside(a: Body, b: Body, p: Path) {
    Lookup(Map(a), p) == Lookup(Map(b), p)
  }

  lemma StagesBeside(m: Body, p: Path)
    requires |p| >= 2 && p[0] == "runtime" && p[1] !in SELECTORS
    ensures RuntimeBeside(m, CatalogStage(m).0, p) && RuntimeBeside(m, NormalizeStage(m).0, p)
    ensures RuntimeBeside(m, KindStage(m).0, p) && RuntimeBeside(m, ShimStage(m), p)
  {
    TwoSteps(m, p);
    TwoSteps(CatalogStage(m).0, p);
    TwoSteps(NormalizeStage(m).0, p);
    TwoSteps(KindStage(m).0, p);
    TwoSteps(ShimStage(m), p);
  }

  lemma FlowBeside(m: Body, p: Path)
    requires |p| >= 2 && p[0] == "flow" && p[1] !in {"auto_accept", "ask_on_decisions"}
    ensures Lookup(Map(FlowStage(m).0), p) == Lookup(Map(m), p)
  {
    TwoSteps(m, p);
    TwoSteps(FlowStage(m).0, p);
    if HasMap(m, "flow") {
      var rest := m["flow"].entries - {"auto_accept", "ask_on_decisions"};
      assert p[1] in m["flow"].entries <==> p[1] in rest;
    }
  }

  /** A path the migration has no rule for. */
  ghost predicate Outside(t: Tables, m: Body, p: Path) {
    && p != [] && Apart(t.retired, p) && !Comparable(p, ["vcs", "coauthor", "project"])
    && p[0] !in {"schema_version", "lifecycle", "plugins", "hooks"}
    && (p[0] == "flow" ==> |p| >= 2 && p[1] !in {"auto_accept", "ask_on_decisions"})
    && (p[0] == "runtime" ==> |p| >= 2 && p[1] !in {"adapter_catalog", "kind", "adapters", "preference"})
    && (LegacyMarker(m) ==> p[0] !in {"telemetry", "profiles"})
  }

  /** Before the co-author split such a path is untouched. */
  lemma FrontOutside(t: Tables, m: Body, p: Path)
    requires Outside(t, m, p)
    ensures Lookup(Map(Front(Start(m))), p) == Lookup(Map(m), p)
  {
    if p[0] == "runtime" || p[0] == "flow" {
      var m2 := Start(m) - {"lifecycle"} - {"plugins"};
      assert Alike(m, m2, p[0]);
      AlikeLookup(m, m2, p);
      var m3 := FlowStage(m2).0;
      if p[0] == "flow" {
        FlowBeside(m2, p);
        CatalogStageSettles(m3);
        NormalizeStageFrame(CatalogStage(m3).0);
        AlikeLookup(m3, Front(Start(m)), p);
      } else {
        AlikeLookup(m2, m3, p);
        StagesBeside(m3, p);
        StagesBeside(CatalogStage(m3).0, p);
      }
    } else {
      FrontAlike(m, p[0]);
      AlikeLookup(m, Front(Start(m)), p);
    }
  }

  /** After the retired keys it is untouched again. */
  lemma BackOutside(t: Tables, m: Body, p: Path)
    requires NonEmptyPaths(t.retired) && Migrate(t, m).Ok? && Outside(t, m, p)
    ensures Lookup(Map(Migrated(t, m)), p) == Lookup(Map(Middle(t, Front(Start(m)))), p)
  {
    MarkerReads(m);
    var m8 := Middle(t, Front(Start(m)));
    if p[0] == "runtime" {
      CleanupParts(t, Start(m));
      var m9 := m8 - {"hooks"};
      assert Alike(m8, m9, "runtime");
      AlikeLookup(m8, m9, p);
      StagesBeside(m9, p);
      StagesBeside(KindStage(m9).0, p);
      StagesBeside(ShimStage(KindStage(m9).0), p);
      UpgradeBeside(t, m, p);
    } else {
      BackAlike(t, m, p[0]);
      AlikeLookup(m8, Migrated(t, m), p);
    }
  }

  lemma UpgradeBeside(t: Tables, m: Body, p: Path)
    requires NonEmptyPaths(t.retired) && Migrate(t, m).Ok?
    requires |p| >= 2 && p[0] == "runtime" && p[1] !in SELECTORS
    ensures Lookup(Map(Migrated(t, m)), p) == Lookup(Map(Cleanup(t, Start(m)).0), p)
  {
    var cleaned := Cleanup(t, Start(m)).0;
    StagesBeside(cleaned, p);
    if Marker(m) == CURRENT_MARKER {
      assert Alike(cleaned, Migrated(t, m), "runtime");
      AlikeLookup(cleaned, Migrated(t, m), p);
    } else {
      assert Alike(ShimStage(cleaned), Migrated(t, m), "runtime");
      AlikeLookup(ShimStage(cleaned), Migrated(t, m), p);
    }
  }

  /**
    Nothing is lost, invented or moved: at a path the migration has no rule for, the migrated body holds
    what the layer held, its cadences in their native spelling.
   */
  lemma OutsideMigrated(t: Tables, m: Body, p: Path)
    requires NonEmptyPaths(t.retired) && Migrate(t, m).Ok? && Outside(t, m, p)
    ensures RecadencedAt(m, Migrated(t, m), p)
  {
    FrontOutside(t, m, p);
    MiddleExact(t, Front(Start(m)), p);
    BackOutside(t, m, p);
  }

  lemma OneStep(m: Body, k: string, x: string)
    ensures Lookup(Map(m), [k, x]) == if HasMap(m, k) && x in m[k].entries then Some(m[k].entries[x]) else None
  {
    TwoSteps(m, [k, x]);
    assert [k, x][2..] == [];
  }

  /** What the migration retires is gone: the sections of old wizards, the flow switches, the old selectors. */
  lemma LegacyGone(t: Tables, m: Body, p: Path)
    requires AvoidsWritten(t.retired) && Migrate(t, m).Ok?
    requires p in {["lifecycle"], ["plugins"], ["hooks"], ["flow", "auto_accept"], ["flow", "ask_on_decisions"],
                   ["runtime", "adapter_catalog"], ["runtime", "kind"]} || p in t.retired
    ensures Lookup(Map(Migrated(t, m)), p) == None
  {
    CleanupSettles(t, Start(m));
    if Marker(m) == CURRENT_MARKER {
      if "schema_version" !in m {
        MarkerKeeps(t, Cleanup(t, m).0);
      }
    } else {
      UpgradeSettles(t, m);
    }
    GoneAt(t, Migrated(t, m), p);
  }

  lemma GoneAt(t: Tables, after: Body, p: Path)
    requires Stripped(t, after)
    requires p in {["lifecycle"], ["plugins"], ["hooks"], ["flow", "auto_accept"], ["flow", "ask_on_decisions"],
                   ["runtime", "adapter_catalog"], ["runtime", "kind"]} || p in t.retired
    ensures Lookup(Map(after), p) == None
  {
    OneStep(after, "flow", "auto_accept");
    OneStep(after, "flow", "ask_on_decisions");
    OneStep(after, "runtime", "adapter_catalog");
    OneStep(after, "runtime", "kind");
  }

  // ---- what an upgrade fills in --------------------------------------------

  /** What the upgrade leaves under a key of a section: what was there, or the default. */
  ghost predicate Defaulted(m: Body, after: Body, section: string, key: string, default: Value) {
    var was, now := Lookup(Map(m), [section, key]), Lookup(Map(after), [section, key]);
    now.Some? && if was.Some? then Recadenced(key, was.value, now.value) else now.value == default
  }

  /** A key of a section the cleanup does not name passes it, its cadences rewritten. */
  lemma SectionCleaned(t: Tables, m: Body, k: string, x: string)
    requires NonEmptyPaths(t.retired) && k in {"telemetry", "profiles"} && Apart(t.retired, [k, x])
    ensures RecadencedAt(m, Cleanup(t, Start(m)).0, [k, x])
  {
    var p, start := [k, x], Front(Start(m));
    FrontAlike(m, k);
    AlikeLookup(m, start, p);
    MiddleExact(t, start, p);
    CleanupParts(t, Start(m));
    var m9 := Middle(t, start) - {"hooks"};
    assert Alike(Middle(t, start), m9, k);
    RuntimeAlike(m9, k);
    RuntimeAlike(KindStage(m9).0, k);
    RuntimeAlike(ShimStage(KindStage(m9).0), k);
    AlikeLookup(Middle(t, start), Cleanup(t, Start(m)).0, p);
  }

  lemma UpgradeFills(m: Body)
    ensures var after := EnsureSubkey(EnsureSection(ShimStage(m), "telemetry", TELEMETRY_DEFAULT),
                                      "profiles", "trusted", Map(map[]));
            && FilledIn(m, after, "telemetry", "enabled", Bool(false))
            && FilledIn(m, after, "telemetry", "db_kind", Str("sqlite"))
            && FilledIn(m, after, "profiles", "trusted", Map(map[]))
  {
    RuntimeAlike(m, "telemetry");
    RuntimeAlike(m, "profiles");
    var m3 := EnsureSection(ShimStage(m), "telemetry", TELEMETRY_DEFAULT);
    var after := EnsureSubkey(m3, "profiles", "trusted", Map(map[]));
    assert Alike(ShimStage(m), m3, "profiles") && Alike(m3, after, "telemetry");
    OneStep(m, "telemetry", "enabled");
    OneStep(m, "telemetry", "db_kind");
    OneStep(m, "profiles", "trusted");
    OneStep(after, "telemetry", "enabled");
    OneStep(after, "telemetry", "db_kind");
    OneStep(after, "profiles", "trusted");
  }

  ghost predicate FilledIn(m: Body, after: Body, section: string, key: string, default: Value) {
    Lookup(Map(after), [section, key]) ==
    if Lookup(Map(m), [section, key]).Some? then Lookup(Map(m), [section, key]) else Some(default)
  }

  /** An upgrade from a legacy marker gives the three settings a value: the layer's own, or the default. */
  lemma DefaultsArrive(t: Tables, m: Body)
    requires NonEmptyPaths(t.retired) && Migrate(t, m).Ok? && LegacyMarker(m)
    requires Apart(t.retired, ["telemetry", "enabled"]) && Apart(t.retired, ["telemetry", "db_kind"])
    requires Apart(t.retired, ["profiles", "trusted"])
    ensures Defaulted(m, Migrated(t, m), "telemetry", "enabled", Bool(false))
    ensures Defaulted(m, Migrated(t, m), "telemetry", "db_kind", Str("sqlite"))
    ensures Defaulted(m, Migrated(t, m), "profiles", "trusted", Map(map[]))
  {
    MarkerReads(m);
    var cleaned := Cleanup(t, Start(m)).0;
    SectionCleaned(t, m, "telemetry", "enabled");
    SectionCleaned(t, m, "telemetry", "db_kind");
    SectionCleaned(t, m, "profiles", "trusted");
    UpgradeFills(cleaned);
  }

  // ---- what is reported ----------------------------------------------------

  /** A reported migration changed something. */
  lemma ReportedMeansChanged(t: Tables, m: Body)
    requires AvoidsWritten(t.retired) && Migrate(t, m).Ok? && Migrate(t, m).value.1
    ensures Migrated(t, m) != m
  {
    MigrationFixpoint(t, m);
  }
}
