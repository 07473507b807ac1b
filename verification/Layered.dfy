/** The layered configuration merge: flattening, dotted writes and deletes, provenance. */
module Layered {
  import opened Text
  import opened Values

  const DOT := '.'

  /** The key flattening gives `key` of a mapping it reached by `prefix`. */
  function Full(prefix: string, key: string): string {
    if prefix == "" then key else prefix + [DOT] + key
  }

  /** The dotted key flattening gives what lies at `p` below `prefix`. */
  function Spelt(prefix: string, p: Path): string
    decreases |p|
  {
    if p == [] then prefix else Spelt(Full(prefix, p[0]), p[1..])
  }

  function Spell(p: Path): string {
    Spelt("", p)
  }

  /** Where a leaf found at `p` is written: its dotted key, split again. */
  function Placed(p: Path): Path {
    Split(Spell(p), DOT)
  }

  /** No segment holds a dot, and no empty segment opens the path. */
  predicate Plain(p: Path) {
    p != [] && (forall k | k in p :: DOT !in k) && (|p| > 1 ==> p[0] != "")
  }

  /** The path without the empty segments that open it: flattening starts spelling at the first other one. */
  function Headed(p: Path): Path {
    if |p| > 1 && p[0] == "" then Headed(p[1..]) else p
  }

  lemma {:induction false} SpeltBelow(prefix: string, p: Path)
    requires prefix != ""
    ensures Spelt(prefix, p) == Join([prefix] + p, DOT)
    decreases |p|
  {
    if p != [] {
      SpeltBelow(Full(prefix, p[0]), p[1..]);
      assert ([prefix] + p)[1..] == p && p == [p[0]] + p[1..];
      assert ([Full(prefix, p[0])] + p[1..])[1..] == p[1..];
    }
  }

  lemma {:induction false} SpellHeaded(p: Path)
    requires p != []
    ensures Spell(p) == Join(Headed(p), DOT) && Headed(p) != []
    ensures |Headed(p)| <= |p| && (Headed(p) == p <==> |p| > 1 ==> p[0] != "")
    ensures |Headed(p)| > 1 ==> Headed(p)[0] != ""
    ensures forall k | k in Headed(p) :: k in p
  {
    if p[0] == "" && |p| > 1 {
      SpellHeaded(p[1..]);
    } else if p[0] != "" {
      SpeltBelow(p[0], p[1..]);
      assert [p[0]] + p[1..] == p;
    } else {
      assert Spelt("", p) == Spelt("", p[1..]) == "";
    }
  }

  /** A dot-free path is written where its segments say, but for the empty ones that open it. */
  lemma PlacedHeaded(p: Path)
    requires p != [] && forall k | k in p :: DOT !in k
    ensures Placed(p) == Headed(p)
  {
    SpellHeaded(p);
    SplitJoin(Headed(p), DOT);
  }

  /** A leaf is written where it was found exactly when its path is plain. */
  lemma PlacedAtHome(p: Path)
    requires p != []
    ensures Placed(p) == p <==> Plain(p)
  {
    if forall k | k in p :: DOT !in k {
      PlacedHeaded(p);
      SpellHeaded(p);
    }
  }

  // ---- dotted reads and writes ---------------------------------------------

  /** `get_dotted`: the value at a dotted key, or nothing where the source raises `KeyError`. */
  method GetDotted(merged: Body, dotted: string) returns (r: Option<Value>)
    ensures r == Lookup(Map(merged), Split(dotted, DOT))
  {
    var parts := Split(dotted, DOT);
    var cur := Map(merged);
    for i := 0 to |parts|
      invariant Lookup(Map(merged), parts) == Lookup(cur, parts[i..])
    {
      if !cur.Map? || parts[i] !in cur.entries {
        return None;
      }
      cur := cur.entries[parts[i]];
      assert parts[i..][1..] == parts[i + 1..];
    }
    return Some(cur);
  }

  /** The mapping a write through key `k` descends into: fresh where `m` holds none. */
  function Child(m: Body, k: string): Body {
    if k in m && m[k].Map? then m[k].entries else map[]
  }

  /** The body after writing `value` at path `p`, creating mappings on the way. */
  function SetAt(m: Body, p: Path, value: Value): Body
    requires p != []
    decreases |p|
  {
    if |p| == 1 then m[p[0] := value]
    else m[p[0] := Map(SetAt(Child(m, p[0]), p[1..], value))]
  }

  /** What a dotted write does to every path: at, below, above and beside the written one. */
  lemma {:induction false} SetAtLookup(m: Body, p: Path, value: Value, q: Path)
    requires p != []
    ensures p <= q ==> Lookup(Map(SetAt(m, p, value)), q) == Lookup(value, q[|p|..])
    ensures q < p ==> Lookup(Map(SetAt(m, p, value)), q).Some?
                      && !IsLeaf(Lookup(Map(SetAt(m, p, value)), q).value)
    ensures !Comparable(p, q) ==> Lookup(Map(SetAt(m, p, value)), q) == Lookup(Map(m), q)
    decreases |p|
  {
    if q != [] && q[0] == p[0] && |p| > 1 {
      SetAtLookup(Child(m, p[0]), p[1..], value, q[1..]);
      assert p <= q ==> p[1..] <= q[1..] && q[|p|..] == q[1..][|p[1..]|..];
      assert q < p ==> q[1..] < p[1..];
      assert p == [p[0]] + p[1..] && q == [q[0]] + q[1..];
      assert Comparable(p[1..], q[1..]) ==> Comparable(p, q);
    } else if q != [] && q[0] == p[0] {
      assert q[|p|..] == q[1..];
      assert p <= q;
    } else if q == [] {
      assert p[0] in SetAt(m, p, value);
    } else {
      assert !(p <= q) && !(q <= p);
    }
  }

  /**
    A leaf under a key that holds a dot does not come out where it went in: writing it under its own
    spelling gives the one-key mapping back exactly when the key is dot-free.
   */
  lemma KeyWrittenAsItself(k: string, value: Value)
    ensures SetAt(map[], Split(k, DOT), value) == map[k := value] <==> DOT !in k
  {
    var parts := Split(k, DOT);
    if DOT !in k {
      SplitHead(k, "", DOT);
    } else {
      JoinSplit(k, DOT);
      assert parts[0] in parts;
      assert parts[0] in SetAt(map[], parts, value);
      assert parts[0] !in map[k := value];
    }
  }

  /** The dictionaries a dotted write walked through, innermost last, beside the key taken. */
  type Trail = seq<(Body, string)>

  /** Put `inner` back below the trail: what the in-place edit of the innermost mapping shows. */
  function Plug(trail: Trail, inner: Body): Body
    decreases |trail|
  {
    if trail == [] then inner
    else
      var (parent, k) := trail[|trail| - 1];
      Plug(trail[..|trail| - 1], parent[k := Map(inner)])
  }

  /** `_set_dotted`: walk down creating mappings, then write the last segment. */
  method SetDotted(mapping: Body, dotted: string, value: Value) returns (written: Body)
    ensures written == SetAt(mapping, Split(dotted, DOT), value)
  {
    var parts := Split(dotted, DOT);
    var cur := mapping;
    var trail: Trail := [];
    for i := 0 to |parts| - 1
      invariant Plug(trail, SetAt(cur, parts[i..], value)) == SetAt(mapping, parts, value)
    {
      var next := Child(cur, parts[i]);
      ghost var longer := trail + [(cur, parts[i])];
      assert longer[..|longer| - 1] == trail;
      assert parts[i..][1..] == parts[i + 1..];
      trail := trail + [(cur, parts[i])];
      cur := next;
    }
    cur := cur[parts[|parts| - 1] := value];
    while trail != []
      invariant Plug(trail, cur) == SetAt(mapping, parts, value)
    {
      var (parent, k) := trail[|trail| - 1];
      cur, trail := parent[k := Map(cur)], trail[..|trail| - 1];
    }
    written := cur;
  }

  // ---- unsetting -----------------------------------------------------------

  /** The body after deleting the value at `p` and every ancestor the deletion emptied. */
  function UnsetAt(m: Body, p: Path): (Body, bool)
    requires p != []
    decreases |p|
  {
    if p[0] !in m then (m, false)
    else if |p| == 1 then (m - {p[0]}, true)
    else if !m[p[0]].Map? then (m, false)
    else
      var (child, removed) := UnsetAt(m[p[0]].entries, p[1..]);
      if !removed then (m, false)
      else if child == map[] then (m - {p[0]}, true)
      else (m[p[0] := Map(child)], true)
  }

  /** Leaves below key `k` are the leaves of the mapping held there. */
  lemma LeafUnder(m: Body, k: string, q: Path)
    ensures LeafAt(m, [k] + q) <==>
              k in m && if q == [] then IsLeaf(m[k]) else m[k].Map? && LeafAt(m[k].entries, q)
    ensures q != [] && LeafAt(m, [k] + q) ==> Lookup(Map(m), [k] + q) == Lookup(m[k], q)
  {
    LeafBelow(m, k, q);
  }

  /** Put an edited inner mapping back, dropping it and each ancestor it leaves empty. */
  function Prune(trail: Trail, inner: Body): Body
    decreases |trail|
  {
    if trail == [] then inner
    else
      var (parent, k) := trail[|trail| - 1];
      Prune(trail[..|trail| - 1], if inner == map[] then parent - {k} else parent[k := Map(inner)])
  }

  /**
    `unset_dotted`: descend remembering the ancestors, delete the leaf, then walk the
    ancestors back up deleting each mapping the deletion left empty. An empty path is
    the source's `ValueError`.
   */
  method UnsetDotted(payload: Body, path: Path) returns (r: Result<(Body, bool), string>)
    ensures r.Err? <==> path == []
    ensures path != [] ==> r == Ok(UnsetAt(payload, path))
  {
    if path == [] {
      return Err("key_path must contain at least one segment");
    }
    var current := payload;
    var ancestors: Trail := [];
    for i := 0 to |path| - 1
      invariant UnsetAt(current, path[i..]).1 == UnsetAt(payload, path).1
      invariant UnsetAt(payload, path).1 ==>
                  Prune(ancestors, UnsetAt(current, path[i..]).0) == UnsetAt(payload, path).0
      invariant !UnsetAt(payload, path).1 ==> UnsetAt(payload, path).0 == payload
    {
      UnsetRefused(payload, path);
      if path[i] !in current || !current[path[i]].Map? {
        return Ok((payload, false));
      }
      ghost var longer := ancestors + [(current, path[i])];
      assert longer[..|longer| - 1] == ancestors;
      assert path[i..][1..] == path[i + 1..];
      ancestors := ancestors + [(current, path[i])];
      current := current[path[i]].entries;
    }
    var leaf := path[|path| - 1];
    UnsetRefused(payload, path);
    if leaf !in current {
      return Ok((payload, false));
    }
    current := current - {leaf};
    while ancestors != []
      invariant Prune(ancestors, current) == UnsetAt(payload, path).0
    {
      var (parent, segment) := ancestors[|ancestors| - 1];
      current := if current == map[] then parent - {segment} else parent[segment := Map(current)];
      ancestors := ancestors[..|ancestors| - 1];
    }
    return Ok((current, true));
  }

  /** A deletion happens exactly when the path leads somewhere; otherwise nothing changes. */
  lemma {:induction false} UnsetRefused(m: Body, p: Path)
    requires p != []
    ensures UnsetAt(m, p).1 <==> Lookup(Map(m), p).Some?
    ensures !UnsetAt(m, p).1 ==> UnsetAt(m, p).0 == m
    decreases |p|
  {
    if |p| > 1 && p[0] in m && m[p[0]].Map? {
      UnsetRefused(m[p[0]].entries, p[1..]);
    }
  }

  /**
    Deleting removes exactly the leaves at or below the path and keeps every other leaf
    with its value. Since an empty mapping is a leaf, no ancestor is left newly empty.
   */
  lemma {:induction false} UnsetLeaves(m: Body, p: Path, q: Path)
    requires p != [] && Lookup(Map(m), p).Some?
    ensures LeafAt(UnsetAt(m, p).0, q) <==> LeafAt(m, q) && !(p <= q)
    ensures LeafAt(UnsetAt(m, p).0, q) ==>
              Lookup(Map(UnsetAt(m, p).0), q) == Lookup(Map(m), q)
    decreases |p|
  {
    if q != [] && q[0] == p[0] && |p| > 1 {
      var child := m[p[0]].entries;
      UnsetLeaves(child, p[1..], q[1..]);
      UnsetBelow(m, p, q);
    } else {
      UnsetBeside(m, p, q);
    }
  }

  lemma UnsetBeside(m: Body, p: Path, q: Path)
    requires p != [] && Lookup(Map(m), p).Some?
    requires q == [] || q[0] != p[0] || |p| == 1
    ensures LeafAt(UnsetAt(m, p).0, q) <==> LeafAt(m, q) && !(p <= q)
    ensures LeafAt(UnsetAt(m, p).0, q) ==>
              Lookup(Map(UnsetAt(m, p).0), q) == Lookup(Map(m), q)
  {
    var after := UnsetAt(m, p).0;
    if q != [] && q[0] != p[0] {
      assert !(p <= q);
      assert q[0] in after <==> q[0] in m;
    } else if q != [] {
      assert p <= q && q[0] !in after;
    }
  }

  lemma UnsetBelow(m: Body, p: Path, q: Path)
    requires |p| > 1 && q != [] && q[0] == p[0]
    requires p[0] in m && m[p[0]].Map? && Lookup(m[p[0]], p[1..]).Some?
    requires LeafAt(UnsetAt(m[p[0]].entries, p[1..]).0, q[1..]) <==>
             LeafAt(m[p[0]].entries, q[1..]) && !(p[1..] <= q[1..])
    requires LeafAt(UnsetAt(m[p[0]].entries, p[1..]).0, q[1..]) ==>
             Lookup(Map(UnsetAt(m[p[0]].entries, p[1..]).0), q[1..]) == Lookup(m[p[0]], q[1..])
    ensures LeafAt(UnsetAt(m, p).0, q) <==> LeafAt(m, q) && !(p <= q)
    ensures LeafAt(UnsetAt(m, p).0, q) ==>
              Lookup(Map(UnsetAt(m, p).0), q) == Lookup(Map(m), q)
  {
    var k, child, after := p[0], m[p[0]].entries, UnsetAt(m, p).0;
    var inner := UnsetAt(child, p[1..]).0;
    UnsetRefused(child, p[1..]);
    assert p == [k] + p[1..] && q == [k] + q[1..];
    LeafUnder(m, k, q[1..]);
    LeafUnder(after, k, q[1..]);
    assert p <= q <==> p[1..] <= q[1..];
    assert p[1..][0] in child;
    if inner == map[] {
      assert k !in after;
      assert !LeafAt(inner, q[1..]);
    } else {
      assert after[k] == Map(inner);
    }
  }

  /** The write creates `p` afresh: it crosses no scalar, no empty mapping, and replaces nothing. */
  predicate FreshPath(m: Body, p: Path)
    requires p != []
    decreases |p|
  {
    p[0] in m ==>
      |p| > 1 && m[p[0]].Map? && m[p[0]].entries != map[] && FreshPath(m[p[0]].entries, p[1..])
  }

  /** Unsetting undoes setting exactly on the fresh paths. */
  lemma {:induction false} UnsetUndoesSet(m: Body, p: Path, value: Value)
    requires p != []
    ensures UnsetAt(SetAt(m, p, value), p).1
    ensures UnsetAt(SetAt(m, p, value), p).0 == m <==> FreshPath(m, p)
    decreases |p|
  {
    var set_ := SetAt(m, p, value);
    var after := UnsetAt(set_, p).0;
    if |p| == 1 {
      assert p[0] !in after;
      if p[0] !in m {
        assert after == m;
      }
    } else {
      var child := Child(m, p[0]);
      UnsetUndoesSet(child, p[1..], value);
      var inner := UnsetAt(SetAt(child, p[1..], value), p[1..]).0;
      if p[0] !in m {
        assert FreshPath(child, p[1..]);
        assert after == m;
      } else if inner == map[] {
        assert p[0] !in after;
      } else {
        assert after[p[0]] == Map(inner);
        if inner == child && m[p[0]].Map? {
          assert after == m;
        }
      }
    }
  }

  // ---- flattening ----------------------------------------------------------

  /** `d` is the dotted key of a leaf of `m`, where `m` was reached by `prefix`. */
  ghost predicate SpellsFrom(prefix: string, m: Body, d: string) {
    exists p :: LeafAt(m, p) && Spelt(prefix, p) == d
  }

  /** `d` is the dotted key of a leaf of the whole body `m`. */
  ghost predicate Spells(m: Body, d: string) {
    SpellsFrom("", m, d)
  }

  /** Some leaf of `m` that is spelt `d` has the value `v`. */
  ghost predicate Gives(prefix: string, m: Body, d: string, v: Value) {
    exists p :: LeafAt(m, p) && Spelt(prefix, p) == d && Lookup(Map(m), p) == Some(v)
  }

  /** `flat` has the dotted keys of the leaves of `m`, each with the value of a leaf so spelt. */
  ghost predicate Flat(prefix: string, m: Body, flat: Body) {
    forall d ::
      && (d in flat <==> SpellsFrom(prefix, m, d))
      && (d in flat ==> Gives(prefix, m, d, flat[d]))
  }

  /** The entries of `m` visited so far. */
  ghost function Restrict(m: Body, keys: set<string>): Body {
    map k | k in m && k in keys :: m[k]
  }

  lemma RestrictLeaf(m: Body, keys: set<string>, p: Path)
    ensures LeafAt(Restrict(m, keys), p) <==> LeafAt(m, p) && p[0] in keys
    ensures LeafAt(Restrict(m, keys), p) ==> Lookup(Map(Restrict(m, keys)), p) == Lookup(Map(m), p)
  {
  }

  lemma RestrictAll(m: Body)
    ensures Restrict(m, m.Keys) == m && Restrict(m, {}) == map[]
  {
  }

  lemma NoLeaves(prefix: string)
    ensures Flat(prefix, map[], map[])
  {
  }

  /** What the entry at `key` gives. */
  ghost predicate EntryGives(prefix: string, m: Body, key: string, d: string, v: Value)
    requires key in m
  {
    if IsLeaf(m[key]) then d == Full(prefix, key) && v == m[key]
    else Gives(Full(prefix, key), m[key].entries, d, v)
  }

  lemma EntryLeaf(prefix: string, m: Body, key: string, q: Path, v: Value)
    requires key in m && Lookup(Map(m), [key] + q) == Some(v) && IsLeaf(v)
    ensures EntryGives(prefix, m, key, Spelt(prefix, [key] + q), v)
  {
    LeafUnder(m, key, q);
    LeafBelow(m, key, q);
    assert ([key] + q)[1..] == q;
    if q == [] {
      assert Spelt(prefix, [key] + q) == Full(prefix, key);
    }
  }

  lemma LeafOfEntry(prefix: string, m: Body, key: string, d: string, v: Value) returns (q: Path)
    requires key in m && EntryGives(prefix, m, key, d, v)
    ensures LeafAt(m, [key] + q) && Spelt(prefix, [key] + q) == d && Lookup(Map(m), [key] + q) == Some(v)
  {
    if IsLeaf(m[key]) {
      q := [];
    } else {
      q :| LeafAt(m[key].entries, q) && Spelt(Full(prefix, key), q) == d && Lookup(Map(m[key].entries), q) == Some(v);
    }
    LeafUnder(m, key, q);
    LeafBelow(m, key, q);
    assert ([key] + q)[1..] == q;
  }

  /** The leaves among the entries of `was` and `key` are those of `was` and those under `key`. */
  lemma GivesNext(prefix: string, m: Body, was: set<string>, key: string, d: string, v: Value)
    requires key in m && key !in was
    ensures Gives(prefix, Restrict(m, was + {key}), d, v) <==>
            Gives(prefix, Restrict(m, was), d, v) || EntryGives(prefix, m, key, d, v)
  {
    var now := Restrict(m, was + {key});
    if p :| LeafAt(now, p) && Spelt(prefix, p) == d && Lookup(Map(now), p) == Some(v) {
      RestrictLeaf(m, was + {key}, p);
      RestrictLeaf(m, was, p);
      if p[0] == key {
        assert p == [key] + p[1..];
        EntryLeaf(prefix, m, key, p[1..], v);
      }
    }
    if p :| LeafAt(Restrict(m, was), p) && Spelt(prefix, p) == d && Lookup(Map(Restrict(m, was)), p) == Some(v) {
      RestrictLeaf(m, was + {key}, p);
      RestrictLeaf(m, was, p);
    }
    if EntryGives(prefix, m, key, d, v) {
      var q := LeafOfEntry(prefix, m, key, d, v);
      RestrictLeaf(m, was + {key}, [key] + q);
    }
  }

  lemma SpellsGives(prefix: string, m: Body, d: string)
    ensures SpellsFrom(prefix, m, d) <==> exists v :: Gives(prefix, m, d, v)
  {
    if p :| LeafAt(m, p) && Spelt(prefix, p) == d {
      assert Gives(prefix, m, d, Lookup(Map(m), p).value);
    }
  }

  lemma FlatNext(prefix: string, m: Body, was: set<string>, key: string, before: Body, inner: Body)
    requires key in m && key !in was && Flat(prefix, Restrict(m, was), before)
    requires if IsLeaf(m[key]) then inner == map[Full(prefix, key) := m[key]]
             else Flat(Full(prefix, key), m[key].entries, inner)
    ensures Flat(prefix, Restrict(m, was + {key}), before + inner)
  {
    var now, out := Restrict(m, was + {key}), before + inner;
    forall d ensures d in out <==> SpellsFrom(prefix, now, d)
             ensures d in out ==> Gives(prefix, now, d, out[d]) {
      SpellsGives(prefix, now, d);
      SpellsGives(prefix, Restrict(m, was), d);
      if !IsLeaf(m[key]) {
        SpellsGives(Full(prefix, key), m[key].entries, d);
      }
      if d in out {
        GivesNext(prefix, m, was, key, d, out[d]);
      }
      if v :| Gives(prefix, now, d, v) {
        GivesNext(prefix, m, was, key, d, v);
      }
    }
  }

  lemma FlatPut(prefix: string, m: Body, was: set<string>, key: string, before: Body)
    requires key in m && key !in was && IsLeaf(m[key]) && Flat(prefix, Restrict(m, was), before)
    ensures Flat(prefix, Restrict(m, was + {key}), before[Full(prefix, key) := m[key]])
  {
    var inner := map[Full(prefix, key) := m[key]];
    assert before + inner == before[Full(prefix, key) := m[key]];
    FlatNext(prefix, m, was, key, before, inner);
  }

  /** `_flatten`: one dotted key for every leaf; of two leaves with one spelling the one visited last is kept. */
  method Flatten(mapping: Body, prefix: string) returns (out: Body)
    ensures Flat(prefix, mapping, out)
    decreases Map(mapping)
  {
    out := map[];
    var todo := mapping.Keys;
    ghost var done: set<string> := {};
    RestrictAll(mapping);
    NoLeaves(prefix);
    while todo != {}
      invariant todo <= mapping.Keys && done == mapping.Keys - todo
      invariant Flat(prefix, Restrict(mapping, done), out)
      decreases |todo|
    {
      var key :| key in todo;
      var value := mapping[key];
      var full := if prefix == "" then key else prefix + [DOT] + key;
      ghost var before, was := out, done;
      if value.Map? && value.entries != map[] {
        var inner := Flatten(value.entries, full);
        out := out + inner;
        FlatNext(prefix, mapping, was, key, before, inner);
      } else {
        out := out[full := value];
        FlatPut(prefix, mapping, was, key, before);
      }
      todo, done := todo - {key}, done + {key};
    }
    assert done == mapping.Keys;
  }

  // ---- merging one overlay -------------------------------------------------

  /** One dotted write: the value put at a path. */
  datatype Write = Write(at: Path, value: Value)

  /** A write lands at, above or below `p`. */
  predicate Hit(ws: seq<Write>, p: Path) {
    exists i | 0 <= i < |ws| :: Comparable(p, ws[i].at)
  }

  /** Write `i` puts its value at `p`, and no later write disturbs it. */
  predicate Stands(ws: seq<Write>, i: int, p: Path) {
    && 0 <= i < |ws| && ws[i].at == p
    && forall j | i < j < |ws| :: !Comparable(p, ws[j].at)
  }

  /** `out` is `base` after `ws`: each undisturbed write, and each base leaf that no write hits, is a leaf. */
  ghost predicate InOrder(base: Body, ws: seq<Write>, out: Body) {
    && (forall p :: LeafAt(out, p) <==> (exists i :: Stands(ws, i, p)) || (LeafAt(base, p) && !Hit(ws, p)))
    && (forall i, p :: Stands(ws, i, p) ==> Lookup(Map(out), p) == Some(ws[i].value))
    && (forall p :: LeafAt(base, p) && !Hit(ws, p) ==> Lookup(Map(out), p) == Lookup(Map(base), p))
  }

  lemma StandsNext(ws: seq<Write>, w: Write, i: int, p: Path)
    ensures Stands(ws + [w], i, p) <==>
            if i == |ws| then w.at == p else Stands(ws, i, p) && !Comparable(p, w.at)
    ensures Hit(ws + [w], p) <==> Hit(ws, p) || Comparable(p, w.at)
  {
    var all := ws + [w];
    assert forall j | 0 <= j < |ws| :: all[j] == ws[j];
    assert all[|ws|] == w;
  }

  /** What one more write does to the leaf at `p`. */
  lemma WriteLeaf(out: Body, w: Write, p: Path)
    requires w.at != [] && IsLeaf(w.value)
    ensures LeafAt(SetAt(out, w.at, w.value), p) <==> p == w.at || (LeafAt(out, p) && !Comparable(p, w.at))
    ensures p == w.at ==> Lookup(Map(SetAt(out, w.at, w.value)), p) == Some(w.value)
    ensures !Comparable(p, w.at) ==> Lookup(Map(SetAt(out, w.at, w.value)), p) == Lookup(Map(out), p)
  {
    SetAtLookup(out, w.at, w.value, p);
    if p == w.at {
      assert p[|w.at|..] == [];
    } else if w.at <= p {
      assert p[|w.at|..] != [];
    }
  }

  /** One more write keeps the rule. */
  lemma InOrderNext(base: Body, ws: seq<Write>, out: Body, w: Write)
    requires InOrder(base, ws, out) && w.at != [] && IsLeaf(w.value)
    ensures InOrder(base, ws + [w], SetAt(out, w.at, w.value))
  {
    var all, after := ws + [w], SetAt(out, w.at, w.value);
    forall p ensures LeafAt(after, p) <==> (exists i :: Stands(all, i, p)) || (LeafAt(base, p) && !Hit(all, p))
             ensures LeafAt(base, p) && !Hit(all, p) ==> Lookup(Map(after), p) == Lookup(Map(base), p) {
      WriteLeaf(out, w, p);
      StandsNext(ws, w, |ws|, p);
      if i :| Stands(ws, i, p) {
        StandsNext(ws, w, i, p);
      }
      if i :| Stands(all, i, p) {
        StandsNext(ws, w, i, p);
      }
    }
    forall i, p | Stands(all, i, p) ensures Lookup(Map(after), p) == Some(all[i].value) {
      WriteLeaf(out, w, p);
      StandsNext(ws, w, i, p);
    }
  }

  /** Some leaf of the overlay that is written at `w.at` has the value written. */
  ghost predicate Carries(overlay: Body, w: Write) {
    exists q :: LeafAt(overlay, q) && Placed(q) == w.at && Lookup(Map(overlay), q) == Some(w.value)
  }

  ghost predicate WritesAt(ws: seq<Write>, p: Path) {
    exists i | 0 <= i < |ws| :: ws[i].at == p
  }

  /** The writes of an overlay: one for each place where a leaf of it is written, in some order. */
  ghost predicate Lists(overlay: Body, ws: seq<Write>) {
    && (forall i | 0 <= i < |ws| :: Carries(overlay, ws[i]))
    && (forall q | LeafAt(overlay, q) :: WritesAt(ws, Placed(q)))
    && (forall i, j | 0 <= i < j < |ws| :: ws[i].at != ws[j].at)
  }

  /** `merged` is `base` with the leaves of the overlay written into it, in some order. */
  ghost predicate WrittenOver(base: Body, overlay: Body, merged: Body) {
    exists ws :: Lists(overlay, ws) && InOrder(base, ws, merged)
  }

  /** The write of one of the dotted keys `keys`. */
  ghost predicate WriteOf(flat: Body, keys: set<string>, w: Write) {
    exists d :: d in keys && d in flat && w == Write(Split(d, DOT), flat[d])
  }

  /** `ws` writes each of the dotted keys `keys` once. */
  ghost predicate Visits(flat: Body, keys: set<string>, ws: seq<Write>) {
    && (forall i | 0 <= i < |ws| :: WriteOf(flat, keys, ws[i]))
    && (forall d | d in keys :: WritesAt(ws, Split(d, DOT)))
    && (forall i, j | 0 <= i < j < |ws| :: ws[i].at != ws[j].at)
  }

  lemma VisitsNext(flat: Body, keys: set<string>, ws: seq<Write>, d: string)
    requires Visits(flat, keys, ws) && d in flat && d !in keys
    ensures Visits(flat, keys + {d}, ws + [Write(Split(d, DOT), flat[d])])
  {
    var all := ws + [Write(Split(d, DOT), flat[d])];
    JoinSplit(d, DOT);
    forall i | 0 <= i < |ws| ensures WriteOf(flat, keys + {d}, all[i]) && all[i].at != all[|ws|].at {
      assert WriteOf(flat, keys, ws[i]);
      var e :| e in keys && e in flat && ws[i] == Write(Split(e, DOT), flat[e]);
      JoinSplit(e, DOT);
    }
    forall e | e in keys + {d} ensures WritesAt(all, Split(e, DOT)) {
      if e in keys {
        assert WritesAt(ws, Split(e, DOT));
        var i :| 0 <= i < |ws| && ws[i].at == Split(e, DOT);
        assert all[i] == ws[i];
      } else {
        assert all[|ws|].at == Split(e, DOT);
      }
    }
  }

  /** Every dotted key visited once: those are the writes of the overlay. */
  lemma VisitsAll(overlay: Body, flat: Body, ws: seq<Write>)
    requires Flat("", overlay, flat) && Visits(flat, flat.Keys, ws)
    ensures Lists(overlay, ws)
  {
    forall i | 0 <= i < |ws| ensures Carries(overlay, ws[i]) {
      assert WriteOf(flat, flat.Keys, ws[i]);
      var d :| d in flat && ws[i] == Write(Split(d, DOT), flat[d]);
      assert Gives("", overlay, d, flat[d]);
      var q :| LeafAt(overlay, q) && Spelt("", q) == d && Lookup(Map(overlay), q) == Some(flat[d]);
      assert Placed(q) == ws[i].at;
    }
    forall q | LeafAt(overlay, q) ensures WritesAt(ws, Placed(q)) {
      assert SpellsFrom("", overlay, Spell(q)) && Spell(q) in flat.Keys;
    }
  }

  /** Which dotted keys a source map gives to a layer after the layer is merged. */
  ghost predicate Claims(before: map<string, string>, overlay: Body, layer: string, after: map<string, string>) {
    forall d ::
      if Spells(overlay, d)
      then d in after && after[d] == layer
      else (d in after <==> d in before) && (d in before ==> after[d] == before[d])
  }

  /** The source map after the dotted keys `keys` were attributed to `layer`. */
  ghost predicate Stamped(before: map<string, string>, keys: set<string>, layer: string, after: map<string, string>) {
    forall d ::
      if d in keys
      then d in after && after[d] == layer
      else (d in after <==> d in before) && (d in before ==> after[d] == before[d])
  }

  /** The merge once the dotted keys `done` are visited, by the writes `ws`. */
  ghost predicate Underway(base: Body, before: map<string, string>, flat: Body, layer: string, done: set<string>,
                           ws: seq<Write>, merged: Body, sources: map<string, string>) {
    Visits(flat, done, ws) && InOrder(base, ws, merged) && Stamped(before, done, layer, sources)
  }

  lemma NothingVisited(base: Body, before: map<string, string>, flat: Body, layer: string, todo: set<string>)
    requires todo == flat.Keys
    ensures Underway(base, before, flat, layer, flat.Keys - todo, [], base, before)
  {
  }

  lemma WriteNext(base: Body, overlay: Body, flat: Body, ws: seq<Write>, merged: Body, d: string)
    requires Flat("", overlay, flat) && d in flat && InOrder(base, ws, merged)
    ensures InOrder(base, ws + [Write(Split(d, DOT), flat[d])], SetAt(merged, Split(d, DOT), flat[d]))
  {
    var w := Write(Split(d, DOT), flat[d]);
    assert IsLeaf(w.value) by {
      assert Gives("", overlay, d, flat[d]);
    }
    InOrderNext(base, ws, merged, w);
  }

  lemma StampNext(before: map<string, string>, done: set<string>, layer: string, sources: map<string, string>,
                  d: string)
    requires Stamped(before, done, layer, sources)
    ensures Stamped(before, done + {d}, layer, sources[d := layer])
  {
  }

  lemma VisitNext(base: Body, before: map<string, string>, overlay: Body, flat: Body, layer: string, done: set<string>,
                  ws: seq<Write>, merged: Body, sources: map<string, string>, d: string)
    requires Flat("", overlay, flat) && d in flat && d !in done
    requires Underway(base, before, flat, layer, done, ws, merged, sources)
    ensures Underway(base, before, flat, layer, done + {d}, ws + [Write(Split(d, DOT), flat[d])],
                     SetAt(merged, Split(d, DOT), flat[d]), sources[d := layer])
  {
    VisitsNext(flat, done, ws, d);
    WriteNext(base, overlay, flat, ws, merged, d);
    StampNext(before, done, layer, sources, d);
  }

  lemma OneLess(all: set<string>, todo: set<string>, d: string)
    requires d in todo && todo <= all
    ensures all - (todo - {d}) == (all - todo) + {d} && |todo - {d}| < |todo|
  {
  }

  lemma AllVisited(base: Body, before: map<string, string>, overlay: Body, flat: Body, layer: string,
                   ws: seq<Write>, merged: Body, sources: map<string, string>)
    requires Flat("", overlay, flat) && Underway(base, before, flat, layer, flat.Keys - {}, ws, merged, sources)
    ensures WrittenOver(base, overlay, merged) && Claims(before, overlay, layer, sources)
  {
    assert flat.Keys - {} == flat.Keys;
    VisitsAll(overlay, flat, ws);
  }

  /** `_deep_merge_with_sources`: flatten the overlay and write its dotted keys one by one. */
  method DeepMergeWithSources(base: Body, baseSources: map<string, string>, overlay: Body, overlayLayer: string)
    returns (merged: Body, sources: map<string, string>)
    ensures WrittenOver(base, overlay, merged)
    ensures Claims(baseSources, overlay, overlayLayer, sources)
  {
    merged, sources := base, baseSources;
    var flat := Flatten(overlay, "");
    var todo := flat.Keys;
    ghost var ws: seq<Write> := [];
    NothingVisited(base, baseSources, flat, overlayLayer, todo);
    while todo != {}
      invariant todo <= flat.Keys
      invariant Underway(base, baseSources, flat, overlayLayer, flat.Keys - todo, ws, merged, sources)
      decreases |todo|
    {
      var dotted :| dotted in todo;
      OneLess(flat.Keys, todo, dotted);
      VisitNext(base, baseSources, overlay, flat, overlayLayer, flat.Keys - todo, ws, merged, sources, dotted);
      merged := SetDotted(merged, dotted, flat[dotted]);
      sources := sources[dotted := overlayLayer];
      todo, ws := todo - {dotted}, ws + [Write(Split(dotted, DOT), flat[dotted])];
    }
    AllVisited(base, baseSources, overlay, flat, overlayLayer, ws, merged, sources);
  }

  // ---- the leaf rule of a merge --------------------------------------------

  /** Some leaf of the overlay lies at, above or below `p`. */
  ghost predicate Shadowed(overlay: Body, p: Path) {
    exists q :: LeafAt(overlay, q) && Comparable(p, q)
  }

  /**
    `merged` has the overlay's leaves and exactly those base leaves no overlay leaf is
    comparable with, each with its own value.
   */
  ghost predicate Merges(base: Body, overlay: Body, merged: Body) {
    forall p {:trigger LeafAt(merged, p)} ::
      && (LeafAt(merged, p) <==> LeafAt(overlay, p) || (LeafAt(base, p) && !Shadowed(overlay, p)))
      && (LeafAt(merged, p) ==>
            Lookup(Map(merged), p) == Lookup(Map(if LeafAt(overlay, p) then overlay else base), p))
  }

  /** The leaf rule determines the merged body. */
  lemma MergeUnique(base: Body, overlay: Body, a: Body, b: Body)
    requires Merges(base, overlay, a) && Merges(base, overlay, b)
    ensures a == b
  {
    forall p ensures (LeafAt(a, p) <==> LeafAt(b, p))
             ensures LeafAt(a, p) ==> Lookup(Map(a), p) == Lookup(Map(b), p) {
      assert LeafAt(a, p) <==> LeafAt(overlay, p) || (LeafAt(base, p) && !Shadowed(overlay, p));
    }
    LeavesDetermineBody(a, b);
  }

  /** Every leaf lies at a plain path, so each is written where it was found. */
  ghost predicate AtHome(m: Body) {
    forall q | LeafAt(m, q) :: Plain(q)
  }

  lemma HomeLeaf(m: Body, q: Path)
    requires AtHome(m) && LeafAt(m, q)
    ensures Placed(q) == q
  {
    PlacedAtHome(q);
  }

  /** At home the writes of an overlay are its leaves. */
  lemma HomeWrites(overlay: Body, ws: seq<Write>, i: int)
    requires AtHome(overlay) && Lists(overlay, ws) && 0 <= i < |ws|
    ensures LeafAt(overlay, ws[i].at) && Lookup(Map(overlay), ws[i].at) == Some(ws[i].value)
    ensures Stands(ws, i, ws[i].at)
  {
    assert Carries(overlay, ws[i]);
    var q :| LeafAt(overlay, q) && Placed(q) == ws[i].at && Lookup(Map(overlay), q) == Some(ws[i].value);
    HomeLeaf(overlay, q);
    forall j | i < j < |ws| ensures !Comparable(ws[i].at, ws[j].at) {
      assert Carries(overlay, ws[j]);
      var r :| LeafAt(overlay, r) && Placed(r) == ws[j].at && Lookup(Map(overlay), r) == Some(ws[j].value);
      HomeLeaf(overlay, r);
      if Comparable(q, r) {
        LeavesIncomparable(overlay, q, r);
      }
    }
  }

  /** At home, an overlay leaf is one of the writes, and a path is shadowed exactly when a write hits it. */
  lemma HomeHits(overlay: Body, ws: seq<Write>, p: Path)
    requires AtHome(overlay) && Lists(overlay, ws)
    ensures LeafAt(overlay, p) <==> exists i :: Stands(ws, i, p)
    ensures Shadowed(overlay, p) <==> Hit(ws, p)
  {
    if LeafAt(overlay, p) {
      HomeLeaf(overlay, p);
      assert WritesAt(ws, Placed(p));
      var i :| 0 <= i < |ws| && ws[i].at == p;
      HomeWrites(overlay, ws, i);
    }
    if i :| Stands(ws, i, p) {
      HomeWrites(overlay, ws, i);
    }
    if i :| 0 <= i < |ws| && Comparable(p, ws[i].at) {
      HomeWrites(overlay, ws, i);
    }
    if q :| LeafAt(overlay, q) && Comparable(p, q) {
      HomeLeaf(overlay, q);
      assert WritesAt(ws, Placed(q));
    }
  }

  /** An overlay whose leaves are at home is merged by the leaf rule, whatever the order and the base. */
  lemma HomeMerges(base: Body, overlay: Body, merged: Body)
    requires AtHome(overlay) && WrittenOver(base, overlay, merged)
    ensures Merges(base, overlay, merged)
  {
    var ws: seq<Write> :| Lists(overlay, ws) && InOrder(base, ws, merged);
    forall p ensures LeafAt(merged, p) <==> LeafAt(overlay, p) || (LeafAt(base, p) && !Shadowed(overlay, p))
             ensures LeafAt(merged, p) ==>
                       Lookup(Map(merged), p) == Lookup(Map(if LeafAt(overlay, p) then overlay else base), p) {
      HomeHits(overlay, ws, p);
      if i :| Stands(ws, i, p) {
        HomeWrites(overlay, ws, i);
      }
    }
  }

  /** The leaf rule holds, over an empty base already, exactly when the overlay's leaves are at home. */
  lemma MergesExactly(overlay: Body, merged: Body)
    requires WrittenOver(map[], overlay, merged)
    ensures Merges(map[], overlay, merged) <==> AtHome(overlay)
  {
    if AtHome(overlay) {
      HomeMerges(map[], overlay, merged);
    }
    if Merges(map[], overlay, merged) {
      var ws: seq<Write> :| Lists(overlay, ws) && InOrder(map[], ws, merged);
      forall q | LeafAt(overlay, q) ensures Plain(q) {
        var r := WrittenFrom(overlay, ws, merged, q);
        var _ := WrittenFrom(overlay, ws, merged, r);
        PlacedHeaded(r);
        SpellHeaded(r);
      }
    }
  }

  /** A leaf that is still a leaf after the merge was put there by some leaf. */
  lemma WrittenFrom(overlay: Body, ws: seq<Write>, merged: Body, q: Path) returns (r: Path)
    requires Lists(overlay, ws) && InOrder(map[], ws, merged) && Merges(map[], overlay, merged)
    requires LeafAt(overlay, q)
    ensures LeafAt(overlay, r) && Placed(r) == q && forall k | k in q :: DOT !in k
  {
    assert LeafAt(merged, q);
    var i :| Stands(ws, i, q);
    assert Carries(overlay, ws[i]);
    r :| LeafAt(overlay, r) && Placed(r) == ws[i].at && Lookup(Map(overlay), r) == Some(ws[i].value);
  }

  // ---- folding the layers --------------------------------------------------

  /** One loaded layer: its label and its parsed body. */
  datatype Layer = Layer(name: string, body: Body)

  /** A leaf of the overlay is written at, above or below `p`. */
  ghost predicate Overwrites(overlay: Body, p: Path) {
    exists q :: LeafAt(overlay, q) && Comparable(p, Placed(q))
  }

  /** No other leaf of the overlay is written at, above or below where `q` is. */
  ghost predicate Alone(overlay: Body, q: Path) {
    forall r | LeafAt(overlay, r) && Comparable(Placed(q), Placed(r)) :: r == q
  }

  /** Where the leaf `q` of layer `i` ends up: the first layer is taken as it is, the others are written. */
  function Landed(i: int, q: Path): Path {
    if i == 0 then q else Placed(q)
  }

  /** Layer `i` puts its leaf `q` at `p`, and no later layer writes over it. */
  ghost predicate Lays(layers: seq<Layer>, i: int, q: Path, p: Path) {
    && 0 <= i < |layers|
    && LeafAt(layers[i].body, q) && Landed(i, q) == p
    && forall j | i < j < |layers| :: !Overwrites(layers[j].body, p)
  }

  /** Some layer last laid the value found at `p`. */
  ghost predicate LaidBy(layers: seq<Layer>, p: Path, found: Option<Value>) {
    exists i, q :: Lays(layers, i, q, p) && Lookup(Map(layers[i].body), q) == found
  }

  /**
    Every final leaf is where a layer laid it, last, with that layer's value; and whatever a layer laid
    last is a final leaf, unless another leaf of the same layer was written at, above or below it.
   */
  ghost predicate Laid(layers: seq<Layer>, merged: Body) {
    && (forall p | LeafAt(merged, p) :: LaidBy(layers, p, Lookup(Map(merged), p)))
    && (forall i, q, p | Lays(layers, i, q, p) && (i > 0 ==> Alone(layers[i].body, q)) ::
          LeafAt(merged, p) && Lookup(Map(merged), p) == Lookup(Map(layers[i].body), q))
  }

  /** Layer `i` is the last that spells `d`. */
  ghost predicate SpellsLast(layers: seq<Layer>, i: int, d: string) {
    && 0 <= i < |layers| && Spells(layers[i].body, d)
    && forall j | i < j < |layers| :: !Spells(layers[j].body, d)
  }

  /** The source map has the dotted keys of all layers, each under the last layer that spells it. */
  ghost predicate Named(layers: seq<Layer>, sources: map<string, string>) {
    && (forall d :: d in sources <==> exists i :: SpellsLast(layers, i, d))
    && (forall i, d :: SpellsLast(layers, i, d) ==> sources[d] == layers[i].name)
  }

  /** What one overlay does to a leaf of the base. */
  lemma BaseLeaf(base: Body, overlay: Body, merged: Body, p: Path)
    requires WrittenOver(base, overlay, merged) && LeafAt(base, p) && !Overwrites(overlay, p)
    ensures LeafAt(merged, p) && Lookup(Map(merged), p) == Lookup(Map(base), p)
  {
    var ws: seq<Write> :| Lists(overlay, ws) && InOrder(base, ws, merged);
    forall i | 0 <= i < |ws| ensures !Comparable(p, ws[i].at) {
      assert Carries(overlay, ws[i]);
    }
  }

  /** A leaf that is alone in its overlay is written and stays. */
  lemma AloneLeaf(base: Body, overlay: Body, merged: Body, q: Path)
    requires WrittenOver(base, overlay, merged) && LeafAt(overlay, q) && Alone(overlay, q)
    ensures LeafAt(merged, Placed(q)) && Lookup(Map(merged), Placed(q)) == Lookup(Map(overlay), q)
  {
    var ws: seq<Write> :| Lists(overlay, ws) && InOrder(base, ws, merged);
    assert WritesAt(ws, Placed(q));
    var i :| 0 <= i < |ws| && ws[i].at == Placed(q);
    assert Carries(overlay, ws[i]);
    forall j | i < j < |ws| ensures !Comparable(Placed(q), ws[j].at) {
      assert Carries(overlay, ws[j]);
    }
    assert Stands(ws, i, Placed(q));
  }

  /** Where a leaf of the merged body comes from. */
  lemma LeafFrom(base: Body, overlay: Body, merged: Body, p: Path)
    requires WrittenOver(base, overlay, merged) && LeafAt(merged, p)
    ensures || (LeafAt(base, p) && !Overwrites(overlay, p) && Lookup(Map(merged), p) == Lookup(Map(base), p))
            || Carries(overlay, Write(p, Lookup(Map(merged), p).value))
  {
    var ws: seq<Write> :| Lists(overlay, ws) && InOrder(base, ws, merged);
    if i :| Stands(ws, i, p) {
      assert Carries(overlay, ws[i]) && ws[i] == Write(p, Lookup(Map(merged), p).value);
    } else {
      if q :| LeafAt(overlay, q) && Comparable(p, Placed(q)) {
        assert WritesAt(ws, Placed(q));
      }
    }
  }

  lemma LaysNext(layers: seq<Layer>, next: Layer, i: int, q: Path, p: Path)
    requires i < |layers|
    ensures Lays(layers + [next], i, q, p) <==> Lays(layers, i, q, p) && !Overwrites(next.body, p)
  {
    var all := layers + [next];
    assert forall j | 0 <= j < |layers| :: all[j] == layers[j];
    assert all[|layers|] == next;
  }

  /** Merging one more layer lays its leaves over those laid before. */
  lemma LaidNext(layers: seq<Layer>, next: Layer, before: Body, merged: Body)
    requires layers != [] && Laid(layers, before) && WrittenOver(before, next.body, merged)
    ensures Laid(layers + [next], merged)
  {
    var all, n := layers + [next], |layers|;
    assert all[n] == next;
    forall p | LeafAt(merged, p) ensures LaidBy(all, p, Lookup(Map(merged), p)) {
      LeafFrom(before, next.body, merged, p);
      if Carries(next.body, Write(p, Lookup(Map(merged), p).value)) {
        var q :| LeafAt(next.body, q) && Placed(q) == p && Lookup(Map(next.body), q) == Lookup(Map(merged), p);
        assert Lays(all, n, q, p);
      } else {
        assert LaidBy(layers, p, Lookup(Map(before), p));
        var i, q :| Lays(layers, i, q, p) && Lookup(Map(layers[i].body), q) == Lookup(Map(before), p);
        LaysNext(layers, next, i, q, p);
        assert all[i] == layers[i];
      }
    }
    forall i, q, p | Lays(all, i, q, p) && (i > 0 ==> Alone(all[i].body, q))
      ensures LeafAt(merged, p) && Lookup(Map(merged), p) == Lookup(Map(all[i].body), q) {
      if i < n {
        LaysNext(layers, next, i, q, p);
        assert all[i] == layers[i];
        BaseLeaf(before, next.body, merged, p);
      } else {
        AloneLeaf(before, next.body, merged, q);
      }
    }
  }

  lemma NamedNext(layers: seq<Layer>, next: Layer, was: map<string, string>, sources: map<string, string>)
    requires Named(layers, was) && Claims(was, next.body, next.name, sources)
    ensures Named(layers + [next], sources)
  {
    var all, n := layers + [next], |layers|;
    forall i, d ensures SpellsLast(all, i, d) <==>
                        if i == n then Spells(next.body, d) else SpellsLast(layers, i, d) && !Spells(next.body, d) {
      if 0 <= i < n {
        assert all[i] == layers[i];
        assert forall j | i < j < n :: all[j] == layers[j];
        assert all[n] == next;
      }
    }
    forall d ensures d in sources <==> exists i :: SpellsLast(all, i, d) {
      if Spells(next.body, d) {
        assert SpellsLast(all, n, d);
      } else if d in was {
        var i :| SpellsLast(layers, i, d);
        assert SpellsLast(all, i, d);
      }
    }
  }

  /** Merging layer `i` extends what the layers before it made. */
  lemma LayerNext(layers: seq<Layer>, i: int, before: Body, was: map<string, string>,
                  merged: Body, sources: map<string, string>)
    requires 0 < i < |layers| && Laid(layers[..i], before) && Named(layers[..i], was)
    requires WrittenOver(before, layers[i].body, merged) && Claims(was, layers[i].body, layers[i].name, sources)
    ensures Laid(layers[..i + 1], merged) && Named(layers[..i + 1], sources)
  {
    LaidNext(layers[..i], layers[i], before, merged);
    NamedNext(layers[..i], layers[i], was, sources);
    assert layers[..i + 1] == layers[..i] + [layers[i]];
  }

  /**
    `merge_config` over already loaded layers, lowest precedence first: the first layer
    seeds the body and its sources, every later one is merged over it.
   */
  method MergeConfig(layers: seq<Layer>) returns (merged: Body, sources: map<string, string>)
    requires layers != []
    ensures Laid(layers, merged) && Named(layers, sources)
  {
    merged := layers[0].body;
    var flat := Flatten(merged, "");
    sources := map d | d in flat :: layers[0].name;
    LaidFirst(layers[0], flat);
    assert layers[..1] == [layers[0]];
    for i := 1 to |layers|
      invariant Laid(layers[..i], merged) && Named(layers[..i], sources)
    {
      ghost var before, was := merged, sources;
      merged, sources := DeepMergeWithSources(merged, sources, layers[i].body, layers[i].name);
      LayerNext(layers, i, before, was, merged, sources);
    }
    assert layers[..|layers|] == layers;
  }

  lemma LaidFirst(first: Layer, flat: Body)
    requires Flat("", first.body, flat)
    ensures Laid([first], first.body) && Named([first], map d | d in flat :: first.name)
  {
    var layers := [first];
    forall p | LeafAt(first.body, p) ensures Lays(layers, 0, p, p) {}
    forall d ensures SpellsLast(layers, 0, d) <==> d in flat {}
  }

  // ---- layers at home ------------------------------------------------------

  ghost predicate AllAtHome(layers: seq<Layer>) {
    forall i | 0 <= i < |layers| :: AtHome(layers[i].body)
  }

  /** `i` is the last layer that states leaf `p`, and nothing later overwrites part of it. */
  ghost predicate Owns(layers: seq<Layer>, i: int, p: Path) {
    && 0 <= i < |layers|
    && LeafAt(layers[i].body, p)
    && forall j | i < j < |layers| :: !Shadowed(layers[j].body, p)
  }

  /** Every final leaf is owned by one layer, with that layer's value and label. */
  ghost predicate Folded(layers: seq<Layer>, merged: Body, sources: map<string, string>) {
    && (forall p :: LeafAt(merged, p) <==> exists i :: Owns(layers, i, p))
    && (forall i, p :: Owns(layers, i, p) ==>
          && Lookup(Map(merged), p) == Lookup(Map(layers[i].body), p)
          && Spell(p) in sources && sources[Spell(p)] == layers[i].name)
    && (forall d :: d in sources <==>
          exists i :: 0 <= i < |layers| && Spells(layers[i].body, d))
  }

  lemma HomeShadows(m: Body, p: Path)
    requires AtHome(m)
    ensures Shadowed(m, p) <==> Overwrites(m, p)
  {
    forall q | LeafAt(m, q) ensures Placed(q) == q {
      HomeLeaf(m, q);
    }
  }

  lemma HomeLays(layers: seq<Layer>, i: int, p: Path)
    requires AllAtHome(layers)
    ensures Owns(layers, i, p) <==> Lays(layers, i, p, p)
    ensures Owns(layers, i, p) ==> Alone(layers[i].body, p)
  {
    forall j | i < j < |layers| && 0 <= j ensures Shadowed(layers[j].body, p) <==> Overwrites(layers[j].body, p) {
      HomeShadows(layers[j].body, p);
    }
    if 0 <= i < |layers| && LeafAt(layers[i].body, p) {
      HomeLeaf(layers[i].body, p);
      forall r | LeafAt(layers[i].body, r) && Comparable(Placed(p), Placed(r)) ensures r == p {
        HomeLeaf(layers[i].body, r);
        LeavesIncomparable(layers[i].body, p, r);
      }
    }
  }

  /** The last layer that spells `d`, from any layer that does. */
  lemma {:induction false} LastSpelling(layers: seq<Layer>, i: int, d: string) returns (last: int)
    requires 0 <= i < |layers| && Spells(layers[i].body, d)
    ensures SpellsLast(layers, last, d)
    decreases |layers| - i
  {
    last := i;
    if j :| i < j < |layers| && Spells(layers[j].body, d) {
      last := LastSpelling(layers, j, d);
    }
  }

  /** At home a spelling belongs to one path. */
  lemma SpelledHere(m: Body, p: Path)
    requires AtHome(m) && Plain(p)
    ensures Spells(m, Spell(p)) <==> LeafAt(m, p)
  {
    PlacedAtHome(p);
    if q :| LeafAt(m, q) && Spelt("", q) == Spell(p) {
      HomeLeaf(m, q);
    }
  }

  /** At home, the owner of a leaf is the last layer that spells it. */
  lemma OwnerSpells(layers: seq<Layer>, i: int, p: Path)
    requires AllAtHome(layers) && Owns(layers, i, p)
    ensures SpellsLast(layers, i, Spell(p))
  {
    forall j | i <= j < |layers| ensures Spells(layers[j].body, Spell(p)) <==> LeafAt(layers[j].body, p) {
      SpelledHere(layers[j].body, p);
    }
    forall j | i < j < |layers| ensures !LeafAt(layers[j].body, p) {
      assert !Shadowed(layers[j].body, p) && Comparable(p, p);
    }
  }

  /** Layers whose leaves are at home: each final leaf has one owner, with its value and its label. */
  lemma OwnersExact(layers: seq<Layer>, merged: Body, sources: map<string, string>)
    requires AllAtHome(layers) && Laid(layers, merged) && Named(layers, sources)
    ensures Folded(layers, merged, sources)
  {
    forall p ensures LeafAt(merged, p) <==> exists i :: Owns(layers, i, p) {
      if LeafAt(merged, p) {
        assert LaidBy(layers, p, Lookup(Map(merged), p));
        var i, q :| Lays(layers, i, q, p) && Lookup(Map(layers[i].body), q) == Lookup(Map(merged), p);
        HomeLeaf(layers[i].body, q);
        HomeLays(layers, i, p);
      }
      if i :| Owns(layers, i, p) {
        HomeLays(layers, i, p);
      }
    }
    forall i, p | Owns(layers, i, p)
      ensures Lookup(Map(merged), p) == Lookup(Map(layers[i].body), p)
      ensures Spell(p) in sources && sources[Spell(p)] == layers[i].name {
      HomeLays(layers, i, p);
      OwnerSpells(layers, i, p);
    }
    forall d ensures d in sources <==> exists i :: 0 <= i < |layers| && Spells(layers[i].body, d) {
      if i :| 0 <= i < |layers| && Spells(layers[i].body, d) {
        var last := LastSpelling(layers, i, d);
      }
      if d in sources {
        var i :| SpellsLast(layers, i, d);
      }
    }
  }

  /** Two layers put a scalar and a mapping, or mappings of different depth, at one place. */
  ghost predicate ShapeClash(a: Body, b: Body) {
    exists p, q :: LeafAt(a, p) && LeafAt(b, q) && p != q && Comparable(p, q)
  }

  ghost predicate NoClash(layers: seq<Layer>) {
    forall i, j | 0 <= i < j < |layers| :: !ShapeClash(layers[i].body, layers[j].body)
  }

  /** Every leaf that any layer states survives the fold if and only if no two layers disagree on shape. */
  lemma LeavesSurvive(layers: seq<Layer>, merged: Body, sources: map<string, string>)
    requires AllAtHome(layers) && Folded(layers, merged, sources)
    ensures (forall i, p | 0 <= i < |layers| && LeafAt(layers[i].body, p) :: LeafAt(merged, p)) <==> NoClash(layers)
  {
    if forall i, p | 0 <= i < |layers| && LeafAt(layers[i].body, p) :: LeafAt(merged, p) {
      forall i, j | 0 <= i < j < |layers| ensures !ShapeClash(layers[i].body, layers[j].body) {
        if p, q :| LeafAt(layers[i].body, p) && LeafAt(layers[j].body, q) && p != q && Comparable(p, q) {
          LeavesIncomparable(merged, p, q);
        }
      }
    }
    if NoClash(layers) {
      forall i, p | 0 <= i < |layers| && LeafAt(layers[i].body, p) ensures LeafAt(merged, p) {
        var last := LastStating(layers, i, p);
        assert Owns(layers, last, p);
      }
    }
  }

  /** A leaf some layer states survives exactly when its spelling is a final leaf's. */
  lemma SpelledSurvives(layers: seq<Layer>, merged: Body, sources: map<string, string>, i: int, p: Path)
    requires AllAtHome(layers) && Folded(layers, merged, sources)
    requires 0 <= i < |layers| && LeafAt(layers[i].body, p)
    ensures Spells(merged, Spell(p)) <==> LeafAt(merged, p)
  {
    if q :| LeafAt(merged, q) && Spell(q) == Spell(p) {
      var j :| Owns(layers, j, q);
      HomeLeaf(layers[i].body, p);
      HomeLeaf(layers[j].body, q);
    }
  }

  /**
    The source map names exactly the final leaves if and only if no two layers disagree on
    shape; otherwise it keeps a stale key for a shadowed leaf.
   */
  lemma SourcesExact(layers: seq<Layer>, merged: Body, sources: map<string, string>)
    requires AllAtHome(layers) && Folded(layers, merged, sources)
    ensures (forall d :: d in sources <==> Spells(merged, d)) <==> NoClash(layers)
    ensures forall d | Spells(merged, d) :: d in sources
  {
    LeavesSurvive(layers, merged, sources);
    forall d | Spells(merged, d) ensures d in sources {
      var p :| LeafAt(merged, p) && Spell(p) == d;
      var i :| Owns(layers, i, p);
    }
    if NoClash(layers) {
      forall d | d in sources ensures Spells(merged, d) {
        var i :| 0 <= i < |layers| && Spells(layers[i].body, d);
        var p :| LeafAt(layers[i].body, p) && Spell(p) == d;
        assert LeafAt(merged, p);
      }
    }
    if forall d :: d in sources <==> Spells(merged, d) {
      forall i, p | 0 <= i < |layers| && LeafAt(layers[i].body, p) ensures LeafAt(merged, p) {
        assert Spells(layers[i].body, Spell(p));
        assert Spell(p) in sources;
        SpelledSurvives(layers, merged, sources, i, p);
      }
    }
  }

  /** Without a shape clash the last layer stating a leaf owns it. */
  lemma {:induction false} LastStating(layers: seq<Layer>, i: int, p: Path) returns (last: int)
    requires 0 <= i < |layers| && LeafAt(layers[i].body, p)
    requires NoClash(layers)
    ensures Owns(layers, last, p)
    decreases |layers| - i
  {
    last := i;
    if j :| i < j < |layers| && Shadowed(layers[j].body, p) {
      var q :| LeafAt(layers[j].body, q) && Comparable(p, q);
      if p != q {
        assert ShapeClash(layers[i].body, layers[j].body);
        assert false;
      }
      last := LastStating(layers, j, p);
    }
  }
}
