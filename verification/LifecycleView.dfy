/** The stand-alone reader of a generation, restated for a hook that cannot import the package. */
module LifecycleView {
  import opened Values
  import opened Sorting
  import opened Compaction

  // ---- the restated merge --------------------------------------------------

  /** The projection file as the package renders it. */
  function Encode(p: Option<Projection>): Value
    decreases p
  {
    match p
    case None => Null
    case Some(Early(raw)) => Map(raw)
    case Some(Bound(base, status, previous)) =>
      Map(map["base" := Str(base), "status" := Map(status), "previous" := EncodePrevious(previous)])
  }

  function EncodePrevious(previous: Option<Previous>): Value
    decreases previous
  {
    match previous
    case None => Null
    case Some(Previous(base, projection)) =>
      Map(map["base" := Str(base), "projection" := Encode(projection)])
  }

  /** A projection without a base is what the package reads as an early one. */
  predicate WellRead(p: Option<Projection>)
    decreases p
  {
    match p
    case None => true
    case Some(Early(raw)) => "base" !in raw
    case Some(Bound(_, _, previous)) => previous.Some? ==> WellRead(previous.value.projection)
  }

  function Get(m: Body, k: string): Value {
    if k in m then m[k] else Null
  }

  /** The previous projection belongs to these bytes and the current one does not. */
  predicate FallsBack(projection: Body, digest: string) {
    && Get(projection, "base") != Str(digest)
    && Get(projection, "previous").Map?
    && Get(Get(projection, "previous").entries, "base") == Str(digest)
  }

  /** `_merged`: the same merge over undecoded JSON; it recurses into the projection it embeds. */
  function ViewMerged(committed: Body, projection: Value, digest: string): Result<Body, string>
    decreases projection
  {
    if projection == Null then Ok(committed)
    else if !projection.Map? then Err("must be an object")
    else if "base" !in projection.entries then Ok((committed - PRE_DEFINITION_KEYS) + projection.entries)
    else if FallsBack(projection.entries, digest) then
      if "projection" in projection.entries["previous"].entries
      then ViewMerged(committed, projection.entries["previous"].entries["projection"], digest)
      else Ok(committed)
    else if !Get(projection.entries, "status").Map? then Err("status must be an object")
    else Overlay(committed, projection.entries["status"].entries)
  }

  /** The restated reader returns what the package's reader returns, projection by projection. */
  lemma {:induction false} ReadersAgree(committed: Body, p: Option<Projection>, digest: string)
    requires WellRead(p)
    ensures ViewMerged(committed, Encode(p), digest) == Merged(committed, p, digest)
    decreases p
  {
    if p.Some? && p.value.Bound? {
      EncodedKeys(p.value.base, p.value.status, p.value.previous);
      if Superseded(p.value, digest) {
        ReadersAgree(committed, p.value.previous.value.projection, digest);
      }
    }
  }

  lemma EncodedKeys(base: string, status: Body, previous: Option<Previous>)
    ensures var m := Encode(Some(Bound(base, status, previous))).entries;
            && "base" in m && m["base"] == Str(base)
            && "status" in m && m["status"] == Map(status)
            && "previous" in m && m["previous"] == EncodePrevious(previous)
            && (previous.Some? ==>
                  && Get(m["previous"].entries, "base") == Str(previous.value.base)
                  && "projection" in m["previous"].entries
                  && m["previous"].entries["projection"] == Encode(previous.value.projection))
  {
    assert "base"[0] == 'b' && "status"[0] == 's' && "previous"[0] == 'p' && "projection"[0] == 'p';
  }

  /** Every projection a run of writes leaves behind reads back as the package wrote it. */
  lemma {:induction false} RunWellRead(codec: Codec, s: Store, writes: seq<Write>)
    requires WellRead(s.projection) && s.committed.Some?
    ensures WellRead(Run(codec, s, writes).projection) && Run(codec, s, writes).committed.Some?
    decreases |writes|
  {
    if writes != [] {
      StepWellRead(codec, s, writes[0]);
      RunWellRead(codec, After(codec, s, writes[0]), writes[1..]);
    }
  }

  lemma StepWellRead(codec: Codec, s: Store, w: Write)
    requires WellRead(s.projection) && s.committed.Some?
    ensures WellRead(After(codec, s, w).projection) && After(codec, s, w).committed.Some?
  {
    var effects := Effects(codec, s, w.document, w.append);
    if effects.Ok? {
      SettledWellRead(s.projection, codec.digest(s.committed.value));
      LandedStores(s, effects.value, if w.landed < |effects.value| then w.landed else |effects.value|);
    }
  }

  lemma SettledWellRead(p: Option<Projection>, digest: string)
    requires WellRead(p)
    ensures WellRead(Settled(p, digest))
  {
  }

  /** The hook reads what the last landed write shows, whatever refusals and crashes the run went through. */
  lemma HookReadsLastLanded(codec: Codec, s: Store, writes: seq<Write>)
    requires Lawful(codec) && AllTyped(writes)
    requires WellRead(s.projection) && s.committed.Some?
    ensures var done := Run(codec, s, writes);
            && done.committed.Some?
            && Some(ViewMerged(codec.decode(done.committed.value), Encode(done.projection),
                               codec.digest(done.committed.value))) ==
               LastLanded(codec, s, writes, Read(codec, s))
  {
    var done := Run(codec, s, writes);
    RunWellRead(codec, s, writes);
    ReadersAgree(codec.decode(done.committed.value), done.projection, codec.digest(done.committed.value));
    CrashHistory(codec, s, writes);
  }

  /** Along the lifecycle the hook reads the very last document that landed. */
  lemma HookReadsLastWritten(codec: Codec, s: Store, writes: seq<Write>)
    requires Lawful(codec) && Grounded(codec, s) && LivingRun(codec, s, writes)
    requires WellRead(s.projection) && s.committed.Some?
    ensures var done := Run(codec, s, writes);
            && done.committed.Some?
            && Some(ViewMerged(codec.decode(done.committed.value), Encode(done.projection),
                               codec.digest(done.committed.value))) ==
               LastWritten(codec, s, writes, Read(codec, s))
  {
    var done := Run(codec, s, writes);
    RunWellRead(codec, s, writes);
    ReadersAgree(codec.decode(done.committed.value), done.projection, codec.digest(done.committed.value));
    LifecycleHistory(codec, s, writes);
  }

  /** `_overlay` as the reader runs it: the rows are laid over one entry at a time. */
  method OverlayEntries(committed: Body, status: Body) returns (r: Result<Body, string>)
    ensures r == Overlay(committed, status)
  {
    var document := committed - LOCAL_COLLECTIONS;
    document := document + LocalPart(status);
    var sequence := LargerSequence(committed, status);
    if sequence.Err? {
      return Err(sequence.error);
    }
    if sequence.value.Some? {
      document := document[SEQUENCE := sequence.value.value];
    }
    if TASK !in committed || !committed[TASK].Map? || TASK !in status || !status[TASK].Map? {
      return Ok(document);
    }
    var merged := OverlayRowsInPlace(committed[TASK].entries, status[TASK].entries);
    if merged.Err? {
      return Err(merged.error);
    }
    return Ok(document[TASK := Map(merged.value)]);
  }

  method OverlayRowsInPlace(rows: Body, entries: Body) returns (r: Result<Body, string>)
    ensures r == if BadEntry(rows, entries) then Err("task entry must be an object")
                 else Ok(OverlaidRows(rows, entries))
  {
    var merged := rows;
    var todo := entries.Keys;
    while todo != {}
      invariant todo <= entries.Keys && merged.Keys == rows.Keys
      invariant forall k | k in rows ::
                  merged[k] == if k in entries && k !in todo then OverlaidRow(rows[k], entries[k]) else rows[k]
      invariant forall k | k in entries && k !in todo && k in rows && rows[k].Map? && !Terminal(rows[k]) ::
                  entries[k].Map?
      decreases |todo|
    {
      var key :| key in todo;
      if key in rows && rows[key].Map? && !Terminal(rows[key]) {
        if !entries[key].Map? {
          return Err("task entry must be an object");
        }
        merged := merged[key := Map(Definition(rows[key].entries) + entries[key].entries)];
      }
      todo := todo - {key};
    }
    assert merged == OverlaidRows(rows, entries);
    return Ok(merged);
  }

  // ---- completing the downward edges ---------------------------------------

  /** Each parent's recorded child list. */
  type Children = map<string, seq<string>>

  /** A child beside the parent its own row names. */
  datatype Child = Child(key: string, parent: string)

  function Adopt(lists: Children, c: Child): Children {
    if c.parent in lists && c.key !in lists[c.parent]
    then lists[c.parent := lists[c.parent] + [c.key]] else lists
  }

  function AdoptAll(lists: Children, children: seq<Child>): Children
    decreases |children|
  {
    if children == [] then lists else AdoptAll(Adopt(lists, children[0]), children[1..])
  }

  /** The completion loop of `generation_lifecycle_view`, over the children in key order. */
  method CompleteDownward(recorded: Children, children: seq<Child>) returns (lists: Children)
    ensures lists == AdoptAll(recorded, children)
  {
    lists := recorded;
    for i := 0 to |children|
      invariant AdoptAll(recorded, children) == AdoptAll(lists, children[i..])
    {
      var child := children[i];
      assert children[i..][1..] == children[i + 1..];
      if child.parent in lists && child.key !in lists[child.parent] {
        lists := lists[child.parent := lists[child.parent] + [child.key]];
      }
    }
  }

  /** Some child with this key names the parent. */
  ghost predicate Names(children: seq<Child>, key: string, parent: string) {
    exists c | c in children :: c.key == key && c.parent == parent
  }

  /**
    The completed list of a parent is its recorded list, order and all, followed by children that
    name it; every child that names it is there, and nothing else was added.
   */
  lemma {:induction false} DownwardComplete(lists: Children, children: seq<Child>, parent: string)
    requires parent in lists
    ensures var after := AdoptAll(lists, children);
            && parent in after && lists[parent] <= after[parent]
            && (forall k :: k in after[parent] <==> k in lists[parent] || Names(children, k, parent))
    decreases |children|
  {
    if children != [] {
      var next := Adopt(lists, children[0]);
      DownwardComplete(next, children[1..], parent);
      assert lists[parent] <= next[parent];
      forall k ensures Names(children, k, parent) <==>
                       (children[0].key == k && children[0].parent == parent) || Names(children[1..], k, parent) {
        assert children == [children[0]] + children[1..];
      }
    }
  }

  /** A parent's list that repeats nothing still repeats nothing. */
  lemma {:induction false} DownwardDistinct(lists: Children, children: seq<Child>, parent: string)
    requires parent in lists && Distinct(lists[parent])
    ensures parent in AdoptAll(lists, children) && Distinct(AdoptAll(lists, children)[parent])
    decreases |children|
  {
    if children != [] {
      DownwardDistinct(Adopt(lists, children[0]), children[1..], parent);
    }
  }

  /** A view that already lists every child is left as it is. */
  lemma {:induction false} DownwardSettled(lists: Children, children: seq<Child>)
    requires forall c | c in children && c.parent in lists :: c.key in lists[c.parent]
    ensures AdoptAll(lists, children) == lists
    decreases |children|
  {
    if children != [] {
      assert children[0] in children;
      DownwardSettled(lists, children[1..]);
    }
  }

  lemma {:induction false} SameParents(lists: Children, children: seq<Child>)
    ensures AdoptAll(lists, children).Keys == lists.Keys
    decreases |children|
  {
    if children != [] {
      SameParents(Adopt(lists, children[0]), children[1..]);
    }
  }

  /** Completing a view twice is completing it once. */
  lemma DownwardIdempotent(lists: Children, children: seq<Child>)
    ensures AdoptAll(AdoptAll(lists, children), children) == AdoptAll(lists, children)
  {
    var once := AdoptAll(lists, children);
    SameParents(lists, children);
    forall c | c in children && c.parent in once ensures c.key in once[c.parent] {
      DownwardComplete(lists, children, c.parent);
      assert Names(children, c.key, c.parent);
    }
    DownwardSettled(once, children);
  }
}
