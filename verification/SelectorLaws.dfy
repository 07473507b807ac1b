/** The runtime selectors a migration leaves: which adapters, in which order, under which spelling. */
module SelectorLaws {
  import opened Values
  import opened Layered
  import opened Migration
  import opened MigrationLaws

  // ---- the selectors in the layer's own words ------------------------------

  ghost function Canonical(name: string): string {
    if name == "claude" then "claude-code" else name
  }

  /** The canonical names, each where it is first met. */
  ghost function Firsts(names: seq<string>): seq<string> {
    if names == [] then []
    else
      var front, name := Firsts(names[..|names| - 1]), Canonical(names[|names| - 1]);
      if name in front then front else front + [name]
  }

  ghost predicate AllTexts(items: seq<Value>) {
    forall i | 0 <= i < |items| :: items[i].Str?
  }

  ghost function Names(items: seq<Value>): seq<string>
    requires AllTexts(items)
  {
    seq(|items|, i requires 0 <= i < |items| => items[i].text)
  }

  ghost function Texts(names: seq<string>): (items: seq<Value>)
    ensures AllTexts(items) && Names(items) == names
  {
    seq(|names|, i requires 0 <= i < |names| => Str(names[i]))
  }

  /** The selector list under `k`. */
  ghost function ListOf(m: Body, k: string): seq<Value> {
    if HasMap(m, "runtime") && k in m["runtime"].entries && m["runtime"].entries[k].List?
    then m["runtime"].entries[k].items else []
  }

  /** The runtimes switched on in the old catalog, in its fixed order. */
  ghost function SwitchedOn(runtime: Body): seq<string> {
    (if Switched(runtime, "claude") then ["claude"] else [])
    + (if Switched(runtime, "codex") then ["codex"] else [])
    + (if Switched(runtime, "opencode") then ["opencode"] else [])
  }

  // ---- firsts --------------------------------------------------------------

  lemma CanonicalText(name: string)
    ensures CanonicalAdapter(Str(name)) == Str(Canonical(name))
  {
  }

  /** Normalising more names after some done is taking the firsts of all. */
  lemma {:induction false} NormalizedFirsts(done: seq<string>, more: seq<string>)
    ensures Normalized(Texts(Firsts(done)), Texts(more)) == Texts(Firsts(done + more))
    decreases |more|
  {
    if more == [] {
      assert done + more == done;
    } else {
      var longer := done + [more[0]];
      assert longer[..|longer| - 1] == done;
      CanonicalText(more[0]);
      TextsIn(Firsts(done), Canonical(more[0]));
      assert Texts(Firsts(done) + [Canonical(more[0])]) == Texts(Firsts(done)) + [Str(Canonical(more[0]))];
      assert Texts(more)[1..] == Texts(more[1..]);
      NormalizedFirsts(longer, more[1..]);
      assert longer + more[1..] == done + more;
    }
  }

  lemma TextsIn(names: seq<string>, name: string)
    ensures Str(name) in Texts(names) <==> name in names
  {
    if name in names {
      var i :| 0 <= i < |names| && names[i] == name;
      assert Texts(names)[i] == Str(name);
    }
  }

  lemma NormalizedAll(names: seq<string>)
    ensures Normalized([], Texts(names)) == Texts(Firsts(names))
  {
    NormalizedFirsts([], names);
    assert [] + names == names;
  }

  lemma {:induction false} NormalizedConcat(done: seq<Value>, a: seq<Value>, b: seq<Value>)
    ensures Normalized(done, a + b) == Normalized(Normalized(done, a), b)
    decreases |a|
  {
    if a == [] {
      assert a + b == b;
    } else {
      var c := CanonicalAdapter(a[0]);
      assert (a + b)[1..] == a[1..] + b;
      NormalizedConcat(if c in done then done else done + [c], a[1..], b);
    }
  }

  /** A canonical item already listed adds nothing. */
  lemma KnownSkipped(items: seq<Value>, more: seq<Value>)
    requires more != [] && more[0] in items && CanonicalAdapter(more[0]) == more[0]
    ensures Normalized([], items + more) == Normalized([], items + more[1..])
  {
    NormalizedConcat([], items, more);
    NormalizedConcat([], items, more[1..]);
    NormalizedKeeps([], items, more[0]);
  }

  /** Appending only what is missing makes no difference to the firsts. */
  lemma {:induction false} AppendedFirsts(items: seq<Value>, more: seq<Value>)
    requires forall v | v in more :: CanonicalAdapter(v) == v
    ensures Normalized([], AppendMissing(items, more)) == Normalized([], items + more)
    decreases |more|
  {
    if more == [] {
      assert items + more == items;
    } else {
      var next := if more[0] in items then items else items + [more[0]];
      AppendedFirsts(next, more[1..]);
      if more[0] in items {
        KnownSkipped(items, more);
      } else {
        assert next + more[1..] == items + more;
      }
    }
  }

  /** Normalising a normalised list changes nothing. */
  lemma FirstsFixed(names: seq<string>)
    ensures Normalized([], Texts(Firsts(names))) == Texts(Firsts(names))
  {
    NormalizedAll(names);
    NormalizedCanon([], Texts(names));
    assert [] + Texts(Firsts(names)) == Texts(Firsts(names));
    NormalizedFixed([], Texts(Firsts(names)));
  }

  lemma FirstsEmpty(names: seq<string>)
    ensures Firsts(names) == [] <==> names == []
  {
    if names != [] {
      assert Canonical(names[|names| - 1]) in Firsts(names);
    }
  }

  // ---- the catalog ---------------------------------------------------------

  lemma EnabledSwitched(runtime: Body)
    requires HasMap(runtime, "adapter_catalog")
    ensures EnabledAdapters(runtime["adapter_catalog"], ["claude", "codex", "opencode"]) ==
            Texts(CanonicalNames(SwitchedOn(runtime)))
  {
    var catalog := runtime["adapter_catalog"];
    var names := ["claude", "codex", "opencode"];
    assert names[1..] == ["codex", "opencode"] && names[1..][1..] == ["opencode"] && names[1..][1..][1..] == [];
    assert EnabledAdapters(catalog, []) == [];
    EnabledNext(runtime, ["opencode"], []);
    EnabledNext(runtime, ["codex", "opencode"], ["opencode"]);
    EnabledNext(runtime, names, ["codex", "opencode"]);
  }

  lemma EnabledNext(runtime: Body, names: seq<string>, rest: seq<string>)
    requires HasMap(runtime, "adapter_catalog") && names != [] && names == [names[0]] + rest
    ensures EnabledAdapters(runtime["adapter_catalog"], names) ==
            (if Switched(runtime, names[0]) then [Str(Canonical(names[0]))] else [])
            + EnabledAdapters(runtime["adapter_catalog"], rest)
  {
    CanonicalText(names[0]);
    assert names[1..] == rest;
  }

  ghost function CanonicalNames(names: seq<string>): seq<string> {
    seq(|names|, i requires 0 <= i < |names| => Canonical(names[i]))
  }

  /** The texts among listed adapters, all of them when all are. */
  lemma {:induction false} StringsAll(items: seq<Value>)
    requires AllTexts(items)
    ensures Strings(items) == items
  {
    if items != [] {
      StringsAll(items[1..]);
      assert [items[0]] + items[1..] == items;
    }
  }

  /** The adapters a layer asks for: those listed, then those switched on. */
  ghost function Wanted(runtime: Body): seq<string>
    requires AllTexts(Listed(runtime))
  {
    Names(Listed(runtime)) + SwitchedOn(runtime)
  }

  ghost function Listed(runtime: Body): seq<Value> {
    if "adapters" in runtime && runtime["adapters"].List? then runtime["adapters"].items else []
  }

  lemma FirstsNext(names: seq<string>, name: string)
    ensures Firsts(names + [name]) ==
            Firsts(names) + if Canonical(name) in Firsts(names) then [] else [Canonical(name)]
  {
    var longer := names + [name];
    assert longer[..|longer| - 1] == names && longer[|longer| - 1] == name;
  }

  lemma CanonicalOnce(name: string)
    ensures Canonical(Canonical(name)) == Canonical(name)
  {
    assert |"claude-code"| != |"claude"|;
  }

  lemma RespeltNext(a: seq<string>, b: seq<string>)
    requires b != []
    ensures var front, last := b[..|b| - 1], b[|b| - 1];
            && a + CanonicalNames(b) == (a + CanonicalNames(front)) + [Canonical(last)]
            && a + b == (a + front) + [last]
  {
  }

  lemma {:induction false} FirstsRespelt(a: seq<string>, b: seq<string>)
    ensures Firsts(a + CanonicalNames(b)) == Firsts(a + b)
    decreases |b|
  {
    if b == [] {
      assert CanonicalNames(b) == b;
    } else {
      var front, last := b[..|b| - 1], b[|b| - 1];
      FirstsRespelt(a, front);
      RespeltNext(a, b);
      FirstsNext(a + CanonicalNames(front), Canonical(last));
      FirstsNext(a + front, last);
      CanonicalOnce(last);
    }
  }

  lemma TextsConcat(a: seq<string>, b: seq<string>)
    ensures Texts(a) + Texts(b) == Texts(a + b)
  {
  }

  lemma TextsOf(items: seq<Value>)
    requires AllTexts(items)
    ensures Texts(Names(items)) == items
  {
  }

  lemma CanonicalNamesFixed(names: seq<string>)
    ensures forall v | v in Texts(CanonicalNames(names)) :: CanonicalAdapter(v) == v
  {
    assert |"claude-code"| != |"claude"|;
  }

  /** The adapters the catalog stage leaves listed. */
  ghost function Promoted(runtime: Body): seq<Value>
    requires AllTexts(Listed(runtime))
  {
    AppendMissing(Listed(runtime), Texts(CanonicalNames(SwitchedOn(runtime))))
  }

  lemma PromotedNone(runtime: Body)
    requires AllTexts(Listed(runtime)) && Promoted(runtime) == []
    ensures Listed(runtime) == []
  {
    if Listed(runtime) != [] {
      AppendKeeps(Listed(runtime), Texts(CanonicalNames(SwitchedOn(runtime))), Listed(runtime)[0]);
    }
  }

  /** Folding in the catalog lists what is promoted; an empty or unlisted preference takes it over. */
  lemma CatalogLists(m: Body)
    requires HasMap(m, "runtime") && AllTexts(Listed(m["runtime"].entries))
    ensures var after, runtime := CatalogStage(m).0, m["runtime"].entries;
            && HasMap(after, "runtime")
            && ListOf(after, "adapters") == Promoted(runtime)
            && ListOf(after, "preference") ==
               (if ListOf(m, "preference") == [] && HasMap(runtime, "adapter_catalog") then Promoted(runtime)
                else ListOf(m, "preference"))
            && ("kind" in after["runtime"].entries <==> "kind" in runtime)
            && ("kind" in runtime ==> after["runtime"].entries["kind"] == runtime["kind"])
  {
    var runtime := m["runtime"].entries;
    WithoutCatalog(runtime);
    if HasMap(runtime, "adapter_catalog") {
      PromotedRows(runtime);
      if Promoted(runtime) == [] {
        PromotedNone(runtime);
      }
      assert |"adapters"| != |"preference"|;
    } else {
      assert CanonicalNames(SwitchedOn(runtime)) == [] && Texts([]) == [];
      assert Promoted(runtime) == Listed(runtime);
    }
  }

  /** Dropping the catalog leaves the other selectors. */
  lemma WithoutCatalog(runtime: Body)
    ensures var rest := runtime - {"adapter_catalog"};
            && ListAt(rest, "adapters") == ListAt(runtime, "adapters")
            && ListAt(rest, "preference") == ListAt(runtime, "preference")
            && ("kind" in rest <==> "kind" in runtime) && ("kind" in rest ==> rest["kind"] == runtime["kind"])
  {
    assert |"adapters"| != |"adapter_catalog"| && |"preference"| != |"adapter_catalog"|;
    assert |"kind"| != |"adapter_catalog"|;
  }

  /** What the catalog stage lists is what is promoted. */
  lemma PromotedRows(runtime: Body)
    requires AllTexts(Listed(runtime)) && HasMap(runtime, "adapter_catalog")
    ensures AppendMissing(Strings(ListAt(runtime - {"adapter_catalog"}, "adapters")),
                          EnabledAdapters(runtime["adapter_catalog"], ["claude", "codex", "opencode"])) ==
            Promoted(runtime)
  {
    WithoutCatalog(runtime);
    EnabledSwitched(runtime);
    StringsAll(Listed(runtime));
  }

  /** Normalised, what is promoted is the first of each wanted adapter. */
  lemma PromotedFirsts(runtime: Body)
    requires AllTexts(Listed(runtime))
    ensures Normalized([], Promoted(runtime)) == Texts(Firsts(Wanted(runtime)))
    ensures Promoted(runtime) == [] <==> Wanted(runtime) == []
  {
    var listed, on := Names(Listed(runtime)), SwitchedOn(runtime);
    CanonicalNamesFixed(on);
    AppendedFirsts(Listed(runtime), Texts(CanonicalNames(on)));
    TextsOf(Listed(runtime));
    TextsConcat(listed, CanonicalNames(on));
    NormalizedAll(listed + CanonicalNames(on));
    FirstsRespelt(listed, on);
    FirstsEmpty(listed + on);
    if Promoted(runtime) != [] {
      NormalizedKeeps([], Promoted(runtime), Promoted(runtime)[0]);
    }
  }

  // ---- the lists through the other stages ----------------------------------

  /** Normalising rewrites each list on its own. */
  lemma NormalizeLists(m: Body, k: string)
    requires k == "adapters" || k == "preference"
    ensures ListOf(NormalizeStage(m).0, k) == Normalized([], ListOf(m, k))
    ensures HasMap(m, "runtime") ==>
              && HasMap(NormalizeStage(m).0, "runtime")
              && ("kind" in NormalizeStage(m).0["runtime"].entries <==> "kind" in m["runtime"].entries)
              && ("kind" in m["runtime"].entries ==>
                    NormalizeStage(m).0["runtime"].entries["kind"] == m["runtime"].entries["kind"])
  {
  }

  lemma {:induction false} UnlistedStays(m: Body, keys: seq<Path>, k: string)
    requires NonEmptyPaths(keys) && ListOf(m, k) == []
    ensures ListOf(RetiredStage(m, keys).0, k) == []
    decreases |keys|
  {
    if keys != [] {
      var small := UnsetAt(m, keys[0]).0;
      UnsetPrunes(m, keys[0]);
      PrunedLookupBody(small, m, ["runtime", k]);
      OneStep(small, "runtime", k);
      OneStep(m, "runtime", k);
      UnlistedStays(small, keys[1..], k);
    }
  }

  /** A list of texts has no cadence to rewrite. */
  lemma CadenceLists(m: Body, k: string)
    requires k == "adapters" || k == "preference"
    requires AllTexts(ListOf(m, k))
    ensures ListOf(CadenceStage(m).0, k) == ListOf(m, k)
  {
    CadenceAt(Map(m), ["runtime", k]);
    OneStep(m, "runtime", k);
    OneStep(CadenceStage(m).0, "runtime", k);
    if HasMap(m, "runtime") && k in m["runtime"].entries {
      var v := m["runtime"].entries[k];
      assert k[0] != "cadence"[0];
      if v.List? {
        assert CadenceValue(v).items == v.items;
      }
    }
  }

  /** Between the normalising stages a list of texts stays as it is. */
  lemma MiddleLists(t: Tables, m: Body, k: string)
    requires AvoidsWritten(t.retired) && (k == "adapters" || k == "preference") && AllTexts(ListOf(m, k))
    ensures ListOf(Middle(t, m), k) == ListOf(m, k)
  {
    var split := CoauthorStage(t, m).0;
    CoauthorStageSettles(t, m);
    assert ListOf(split, k) == ListOf(m, k);
    CadenceLists(split, k);
    var m7 := CadenceStage(split).0;
    if ListOf(m, k) == [] {
      UnlistedStays(m7, t.retired, k);
    } else {
      var path := ["runtime", k];
      OneStep(m7, "runtime", k);
      forall i | 0 <= i < |t.retired| ensures !(t.retired[i] <= path) {
        assert t.retired[i] in t.retired && path in WRITTEN;
      }
      RetiredKeepsOwn(m7, t.retired, path, List(ListOf(m, k)));
      OneStep(Middle(t, m), "runtime", k);
    }
  }

  /** Deleting puts nothing anywhere. */
  lemma {:induction false} AbsentStays(m: Body, keys: seq<Path>, p: Path)
    requires NonEmptyPaths(keys) && p != [] && Lookup(Map(m), p) == None
    ensures Lookup(Map(RetiredStage(m, keys).0), p) == None
    decreases |keys|
  {
    if keys != [] {
      UnsetPrunes(m, keys[0]);
      PrunedLookupBody(UnsetAt(m, keys[0]).0, m, p);
      AbsentStays(UnsetAt(m, keys[0]).0, keys[1..], p);
    }
  }

  /** The scalar selector under `runtime`. */
  ghost function KindOf(m: Body): Option<Value> {
    if HasMap(m, "runtime") && "kind" in m["runtime"].entries then Some(m["runtime"].entries["kind"]) else None
  }

  lemma KindLookup(m: Body)
    ensures Lookup(Map(m), KIND) == KindOf(m)
  {
    OneStep(m, "runtime", "kind");
  }

  /** A text selector passes the middle stages. */
  lemma MiddleKind(t: Tables, m: Body)
    requires AvoidsWritten(t.retired)
    requires KindOf(m).Some? ==> KindOf(m).value.Str? && SparesKind(t.retired, KindOf(m).value)
    ensures KindOf(Middle(t, m)) == KindOf(m)
  {
    var split := CoauthorStage(t, m).0;
    CoauthorStageSettles(t, m);
    assert KindOf(split) == KindOf(m);
    var m7 := CadenceStage(split).0;
    CadenceAt(Map(split), KIND);
    KindLookup(split);
    KindLookup(m7);
    KindLookup(Middle(t, m));
    if KindOf(m).Some? {
      NativeExact("kind", KindOf(m).value);
      RetiredKeepsKind(m7, t.retired, KindOf(m).value);
    } else {
      AbsentStays(m7, t.retired, KIND);
    }
  }

  /** The promotion of the scalar selector. */
  lemma KindLists(m: Body)
    ensures ListOf(KindStage(m).0, "preference") == ListOf(m, "preference")
    ensures ListOf(KindStage(m).0, "adapters") ==
            if ListOf(m, "adapters") == [] && KindOf(m).Some? then [KindOf(m).value] else ListOf(m, "adapters")
    ensures KindStage(m).1 <==> KindOf(m).Some?
  {
    assert |"adapters"| != |"kind"| && |"preference"| != |"kind"| && |"adapters"| != |"preference"|;
  }

  /** The closing shim. */
  lemma ShimLists(m: Body)
    ensures ListOf(ShimStage(m), "adapters") == ListOf(m, "adapters")
    ensures ListOf(ShimStage(m), "preference") ==
            if ListOf(m, "preference") == [] then ListOf(m, "adapters") else ListOf(m, "preference")
  {
    assert |"adapters"| != |"preference"|;
  }

  /** The lists a layer starts from are all texts, and so is a scalar selector. */
  ghost predicate Textual(t: Tables, m: Body) {
    && AllTexts(ListOf(m, "adapters")) && AllTexts(ListOf(m, "preference"))
    && (KindOf(m).Some? ==> KindOf(m).value.Str? && SparesKind(t.retired, KindOf(m).value))
  }

  /** The adapters wanted, and failing those the scalar selector. */
  ghost function Asked(m: Body): seq<string>
    requires HasMap(m, "runtime") && AllTexts(ListOf(m, "adapters"))
  {
    var wanted := Wanted(m["runtime"].entries);
    if wanted == [] && KindOf(m).Some? && KindOf(m).value.Str? then [KindOf(m).value.text] else wanted
  }

  /** The preference before the closing shim: the layer's own, or that of the old catalog. */
  ghost function Preferred(m: Body): seq<string>
    requires HasMap(m, "runtime") && AllTexts(ListOf(m, "adapters")) && AllTexts(ListOf(m, "preference"))
  {
    if ListOf(m, "preference") == [] && HasMap(m["runtime"].entries, "adapter_catalog")
    then Wanted(m["runtime"].entries) else Names(ListOf(m, "preference"))
  }

  /** Once the catalog is folded in, each list is known up to its spelling. */
  lemma FoldedLists(m: Body)
    requires HasMap(m, "runtime") && AllTexts(ListOf(m, "adapters")) && AllTexts(ListOf(m, "preference"))
    ensures var m4 := CatalogStage(FlowStage(Start(m) - {"lifecycle"} - {"plugins"}).0).0;
            && HasMap(m4, "runtime") && KindOf(m4) == KindOf(m)
            && Normalized([], ListOf(m4, "adapters")) == Texts(Firsts(Wanted(m["runtime"].entries)))
            && Normalized([], ListOf(m4, "preference")) == Texts(Firsts(Preferred(m)))
  {
    FrontRuntime(m);
    CatalogLists(FlowStage(Start(m) - {"lifecycle"} - {"plugins"}).0);
    PromotedFirsts(m["runtime"].entries);
    TextsOf(ListOf(m, "preference"));
    NormalizedAll(Names(ListOf(m, "preference")));
  }

  /** Before the co-author split the lists are canonical. */
  lemma FrontLists(m: Body)
    requires HasMap(m, "runtime") && AllTexts(ListOf(m, "adapters")) && AllTexts(ListOf(m, "preference"))
    ensures ListOf(Front(Start(m)), "adapters") == Texts(Firsts(Wanted(m["runtime"].entries)))
    ensures ListOf(Front(Start(m)), "preference") == Texts(Firsts(Preferred(m)))
    ensures KindOf(Front(Start(m))) == KindOf(m)
  {
    var m4 := CatalogStage(FlowStage(Start(m) - {"lifecycle"} - {"plugins"}).0).0;
    FoldedLists(m);
    NormalizeLists(m4, "adapters");
    NormalizeLists(m4, "preference");
  }

  /** What the stages before the promotion leave of the selectors. */
  lemma BeforePromotion(t: Tables, m: Body)
    requires AvoidsWritten(t.retired) && HasMap(m, "runtime") && Textual(t, m)
    ensures var m9 := Middle(t, Front(Start(m))) - {"hooks"};
            && ListOf(m9, "adapters") == Texts(Firsts(Wanted(m["runtime"].entries)))
            && ListOf(m9, "preference") == Texts(Firsts(Preferred(m)))
            && KindOf(m9) == KindOf(m)
  {
    var m5 := Front(Start(m));
    FrontLists(m);
    MiddleLists(t, m5, "adapters");
    MiddleLists(t, m5, "preference");
    MiddleKind(t, m5);
    assert Alike(Middle(t, m5), Middle(t, m5) - {"hooks"}, "runtime");
  }

  /** The promotion, the shim and the closing normalisation, on canonical lists. */
  lemma ClosingLists(m9: Body, wanted: seq<string>, preferred: seq<string>)
    requires ListOf(m9, "adapters") == Texts(Firsts(wanted)) && ListOf(m9, "preference") == Texts(Firsts(preferred))
    requires KindOf(m9).Some? ==> KindOf(m9).value.Str?
    ensures var m10, asked := KindStage(m9).0,
                              if wanted == [] && KindOf(m9).Some? then [KindOf(m9).value.text] else wanted;
            var after := NormalizeStage(ShimStage(m10)).0;
            && ListOf(after, "adapters") == Texts(Firsts(asked))
            && ListOf(after, "preference") == Texts(Firsts(if preferred == [] then asked else preferred))
            && (KindOf(m9) == None ==>
                  && ListOf(m10, "adapters") == Texts(Firsts(wanted))
                  && ListOf(m10, "preference") == Texts(Firsts(preferred)))
  {
    KindLists(m9);
    var m10 := KindStage(m9).0;
    ShimLists(m10);
    NormalizeLists(ShimStage(m10), "adapters");
    NormalizeLists(ShimStage(m10), "preference");
    FirstsEmpty(wanted);
    FirstsEmpty(preferred);
    FirstsFixed(wanted);
    FirstsFixed(preferred);
    if wanted == [] && KindOf(m9).Some? {
      var name := KindOf(m9).value.text;
      NormalizedAll([name]);
      assert Texts([name]) == [KindOf(m9).value];
    }
  }

  /** The cleanup's lists: closed when it reports a change, and otherwise as they were. */
  lemma CleanedLists(t: Tables, m: Body)
    requires AvoidsWritten(t.retired) && HasMap(m, "runtime") && Textual(t, m)
    ensures var after, reported := Cleanup(t, Start(m)).0, Cleanup(t, Start(m)).1;
            && ListOf(after, "adapters") == Texts(Firsts(Asked(m)))
            && ListOf(after, "preference") ==
               Texts(Firsts(if Preferred(m) == [] && reported then Asked(m) else Preferred(m)))
  {
    BeforePromotion(t, m);
    var m9 := Middle(t, Front(Start(m))) - {"hooks"};
    ClosingLists(m9, Wanted(m["runtime"].entries), Preferred(m));
    CleanupParts(t, Start(m));
    KindLists(m9);
    KindReported(t, Start(m));
  }

  lemma KindReported(t: Tables, m: Body)
    requires NonEmptyPaths(t.retired)
    ensures KindStage(Middle(t, Front(m)) - {"hooks"}).1 ==> Strip(t, m).1
    ensures Cleanup(t, m).1 == Strip(t, m).1
  {
  }

  /** After the cleanup an upgrade only shims the preference once more. */
  lemma UpgradedLists(t: Tables, m: Body)
    requires NonEmptyPaths(t.retired) && Migrate(t, m).Ok?
    ensures var cleaned := Cleanup(t, Start(m)).0;
            && ListOf(Migrated(t, m), "adapters") == ListOf(cleaned, "adapters")
            && ListOf(Migrated(t, m), "preference") ==
               (if LegacyMarker(m) && ListOf(cleaned, "preference") == [] then ListOf(cleaned, "adapters")
                else ListOf(cleaned, "preference"))
  {
    var cleaned := Cleanup(t, Start(m)).0;
    MarkerReads(m);
    ShimLists(cleaned);
    assert Alike(if Marker(m) == CURRENT_MARKER then cleaned else ShimStage(cleaned), Migrated(t, m), "runtime");
  }

  lemma TextsEmpty(names: seq<string>)
    ensures Texts(Firsts(names)) == [] <==> names == []
  {
    FirstsEmpty(names);
  }

  /**
    The selectors a migration leaves, when those of the layer are texts. The adapters are the ones listed,
    then the ones switched on in the old catalog in its order, and failing both the scalar selector: each
    under its canonical name, once, where it is first met. The preference is the layer's own, canonical
    too; where there is none it is the adapters, unless nothing at all was there to migrate.
   */
  lemma SelectorsMigrated(t: Tables, m: Body)
    requires AvoidsWritten(t.retired) && Migrate(t, m).Ok? && HasMap(m, "runtime") && Textual(t, m)
    ensures ListOf(Migrated(t, m), "adapters") == Texts(Firsts(Asked(m)))
    ensures ListOf(Migrated(t, m), "preference") ==
            Texts(Firsts(if Preferred(m) == [] && (Cleanup(t, Start(m)).1 || LegacyMarker(m)) then Asked(m)
                         else Preferred(m)))
  {
    CleanedLists(t, m);
    UpgradedLists(t, m);
    TextsEmpty(Preferred(m));
    TextsEmpty(Asked(m));
  }
}
