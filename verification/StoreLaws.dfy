/** What each of the two files of a store holds of a document, row by row and field by field. */
module StoreLaws {
  import opened Values
  import opened Sorting
  import opened Compaction

  // ---- the terms of the law ------------------------------------------------

  /** The fields of a Task that move while it is worked on. */
  ghost predicate Moving(field: string) {
    field in {"status", "active_run_ref", "claimed_by", "first_claimed_at", "integrated_binding", "revision",
              "updated_at"}
  }

  /** A Task somebody works on. */
  ghost predicate Flying(row: Value) {
    row.Map? && "status" in row.entries
    && row.entries["status"] in {Str("CLAIMED"), Str("RUNNING"), Str("READY_TO_INTEGRATE")}
  }

  /** A Task that has ended. */
  ghost predicate Ended(row: Value) {
    row.Map? && "status" in row.entries
    && row.entries["status"] in {Str("COMPLETED"), Str("CANCELLED"), Str("FAILED")}
  }

  /** The two rows agree on this field, its absence included. */
  ghost predicate SameField(a: Body, b: Body, field: string) {
    (field in a <==> field in b) && (field in a ==> a[field] == b[field])
  }

  lemma FlyingExact(row: Value)
    ensures InFlight(row) <==> Flying(row)
    ensures Terminal(row) <==> Ended(row)
  {
  }

  lemma MovingExact(field: string)
    ensures field in IN_FLIGHT_FIELDS <==> Moving(field)
  {
  }

  ghost predicate HasTasks(m: Body) {
    "task" in m && m["task"].Map?
  }

  ghost function Tasks(m: Body): Body {
    if HasTasks(m) then m["task"].entries else map[]
  }

  /** The two sequences can be ranked: integers, texts, or equal ones that are no mapping. */
  ghost predicate Ranked(a: Value, b: Value) {
    (a.Int? && b.Int?) || (a.Str? && b.Str?) || (a == b && !a.Map? && !a.Null?)
  }

  /** `a` is the larger sequence. */
  ghost predicate Ahead(a: Value, b: Value) {
    (a.Int? && b.Int? && a.n > b.n) || (a.Str? && b.Str? && TextBefore(b.text, a.text))
  }

  lemma GreaterExact(a: Value, b: Value)
    ensures Greater(a, b) == if Ranked(a, b) then Some(Ahead(a, b)) else None
  {
    if a.Str? && b.Str? {
      TextLeExact(a.text, b.text);
      TextLeExact(b.text, a.text);
      TextLeTotal(a.text, b.text);
    }
  }

  // ---- the committed half --------------------------------------------------

  /**
    The committed row of a Task in flight. Over a row that was planned, or has ended, it keeps that row's
    moving fields; otherwise it is a planned row that nobody has claimed and no run works on. Its other
    fields are the document's.
   */
  ghost predicate CommittedAs(row: Body, base: Option<Value>, committed: Body) {
    if base.Some? && base.value.Map? && !Flying(base.value)
    then forall f :: SameField(committed, if Moving(f) then base.value.entries else row, f)
    else
      && "status" in committed && committed["status"] == Str("PLANNED")
      && "claimed_by" !in committed
      && ("active_run_ref" in committed <==> "active_run_ref" in row)
      && ("active_run_ref" in committed ==> committed["active_run_ref"] == Null)
      && forall f | f !in {"status", "claimed_by", "active_run_ref"} :: SameField(committed, row, f)
  }

  lemma TaskCommitted(row: Body, base: Option<Value>)
    ensures CommittedAs(row, base, CommittedTask(row, base))
  {
    var committed := CommittedTask(row, base);
    forall f ensures f in IN_FLIGHT_FIELDS <==> Moving(f) {
      MovingExact(f);
    }
    if base.Some? {
      FlyingExact(base.value);
    }
    assert Moving("status") && Moving("claimed_by") && Moving("active_run_ref");
  }

  /** Every Task of the document has one committed row: its own, or the one an in-flight Task is committed as. */
  ghost predicate TasksCommitted(tasks: Body, bases: Body, committed: Body) {
    && committed.Keys == tasks.Keys
    && forall k | k in tasks ::
         if Flying(tasks[k])
         then committed[k].Map? && CommittedAs(tasks[k].entries, At(bases, k), committed[k].entries)
         else committed[k] == tasks[k]
  }

  lemma RowsCommitted(tasks: Body, bases: Body)
    ensures TasksCommitted(tasks, bases, CommittedTasks(tasks, bases))
  {
    forall k | k in tasks && Flying(tasks[k])
      ensures CommittedAs(tasks[k].entries, At(bases, k), CommittedTask(tasks[k].entries, At(bases, k))) {
      TaskCommitted(tasks[k].entries, At(bases, k));
    }
    forall k | k in tasks ensures InFlight(tasks[k]) <==> Flying(tasks[k]) {
      FlyingExact(tasks[k]);
    }
  }

  // ---- the projection ------------------------------------------------------

  /** The projection holds, for the Tasks in flight and no others, exactly their moving fields. */
  ghost predicate TasksProjected(tasks: Body, entries: Body) {
    && (forall k :: k in entries <==> k in tasks && Flying(tasks[k]))
    && forall k | k in entries ::
         entries[k].Map? && forall f :: if Moving(f) then SameField(entries[k].entries, tasks[k].entries, f)
                                        else f !in entries[k].entries
  }

  lemma EntriesProjected(tasks: Body)
    ensures TasksProjected(tasks, InFlightEntries(tasks))
  {
    forall k | k in tasks ensures InFlight(tasks[k]) <==> Flying(tasks[k]) {
      FlyingExact(tasks[k]);
    }
    forall f ensures f in IN_FLIGHT_FIELDS <==> Moving(f) {
      MovingExact(f);
    }
  }

  // ---- the split -----------------------------------------------------------

  /** The committed half but for its sequence. */
  ghost predicate CommittedHalf(document: Body, prior: Body, committed: Body) {
    && "run" !in committed
    && (forall k | k !in {"run", "task", "canonical_sequence"} :: SameField(committed, document, k))
    && (if HasTasks(document)
        then HasTasks(committed) && TasksCommitted(Tasks(document), Tasks(prior), Tasks(committed))
        else SameField(committed, document, "task"))
  }

  /** The local half: the runs, the live sequence, and the Tasks in flight, when there are any. */
  ghost predicate LocalHalf(document: Body, local: Body) {
    && SameField(local, document, "run") && SameField(local, document, "canonical_sequence")
    && (forall k | k in local :: k in {"run", "task", "canonical_sequence"})
    && ("task" in local <==> exists k :: k in Tasks(document) && Flying(Tasks(document)[k]))
    && ("task" in local ==> HasTasks(local) && TasksProjected(Tasks(document), Tasks(local)))
  }

  /** Everything but the sequence is as it was in the committed file. */
  ghost predicate Unchanged(prior: Body, committed: Body) {
    forall k | k != "canonical_sequence" :: SameField(committed, prior, k)
  }

  /**
    The committed sequence: the document's when anything else committed changes, when a ledger line is
    written, when none was committed, or when the committed one is ahead; otherwise the committed one.
   */
  ghost predicate SequenceSettled(document: Body, prior: Body, append: bool, committed: Body) {
    if "canonical_sequence" !in document then "canonical_sequence" !in committed
    else
      var live := document["canonical_sequence"];
      var kept := if "canonical_sequence" in prior then prior["canonical_sequence"] else Null;
      if append || !Unchanged(prior, committed) then committed.Keys >= {"canonical_sequence"}
                                                     && committed["canonical_sequence"] == live
      else if kept == Null then "canonical_sequence" !in committed
      else
        && "canonical_sequence" in committed && Ranked(kept, live)
        && committed["canonical_sequence"] == if Ahead(kept, live) then live else kept
  }

  lemma UnchangedExact(document: Body, prior: Body, committed: Body)
    requires "canonical_sequence" !in committed
    ensures committed == prior - {"canonical_sequence"} <==> Unchanged(prior, committed)
  {
    var rest := prior - {"canonical_sequence"};
    if Unchanged(prior, committed) {
      forall k ensures k in committed <==> k in rest {
        assert k != "canonical_sequence" ==> SameField(committed, prior, k);
      }
      forall k | k in committed ensures committed[k] == rest[k] {
        assert SameField(committed, prior, k);
      }
    }
  }

  lemma RowsHalved(document: Body, prior: Body)
    ensures CommittedHalf(document, prior, CommittedRows(document, prior))
    ensures "canonical_sequence" !in CommittedRows(document, prior)
  {
    KeysApart();
    if HasTasks(document) {
      RowsCommitted(Tasks(document), Tasks(prior));
      assert MapAt(prior, TASK) == Tasks(prior);
    }
  }

  lemma StatusHalved(document: Body)
    ensures var local := StatusRows(document);
            && SameField(local, document, "run") && "canonical_sequence" !in local
            && (forall k | k in local :: k in {"run", "task"})
            && ("task" in local <==> exists k :: k in Tasks(document) && Flying(Tasks(document)[k]))
            && ("task" in local ==> HasTasks(local) && TasksProjected(Tasks(document), Tasks(local)))
  {
    KeysApart();
    var entries := InFlightEntries(MapAt(document, TASK));
    assert MapAt(document, TASK) == Tasks(document);
    EntriesProjected(Tasks(document));
    if entries != map[] {
      var k :| k in entries;
    }
  }

  lemma HalfKept(document: Body, prior: Body, rows: Body, v: Value)
    requires CommittedHalf(document, prior, rows)
    ensures CommittedHalf(document, prior, rows["canonical_sequence" := v])
  {
    KeysApart();
    var committed := rows["canonical_sequence" := v];
    assert Tasks(committed) == Tasks(rows);
    forall k | k !in {"run", "task", "canonical_sequence"} ensures SameField(committed, document, k) {
      assert SameField(rows, document, k);
    }
    assert SameField(committed, rows, "task");
  }

  /** The sequence does not count: what else is committed is unchanged or not. */
  lemma UnchangedKept(prior: Body, rows: Body, v: Value)
    ensures Unchanged(prior, rows["canonical_sequence" := v]) <==> Unchanged(prior, rows)
  {
    var committed := rows["canonical_sequence" := v];
    forall k | k != "canonical_sequence" ensures SameField(committed, prior, k) <==> SameField(rows, prior, k) {
    }
  }

  lemma SequenceExact(document: Body, prior: Body, append: bool)
    ensures match Split(document, prior, append)
            case Ok((committed, _)) => SequenceSettled(document, prior, append, committed)
            case Err(_) =>
              && "canonical_sequence" in document && "canonical_sequence" in prior && !append
              && !Ranked(prior["canonical_sequence"], document["canonical_sequence"])
  {
    var rows := CommittedRows(document, prior);
    RowsHalved(document, prior);
    UnchangedExact(document, prior, rows);
    if "canonical_sequence" in document {
      if "canonical_sequence" in prior {
        GreaterExact(prior["canonical_sequence"], document["canonical_sequence"]);
      }
      UnchangedKept(prior, rows, document["canonical_sequence"]);
      if "canonical_sequence" in prior {
        UnchangedKept(prior, rows, prior["canonical_sequence"]);
      }
    }
  }

  /**
    The split of a document. The shared file gets every Task, those in flight as planned or under the
    status it already had for them, and every other collection but the runs; the local file gets the runs,
    the live sequence and the moving fields of the Tasks in flight. No lease is ever shared.
   */
  lemma SplitExact(document: Body, prior: Body, append: bool)
    ensures match Split(document, prior, append)
            case Ok((committed, local)) =>
              && CommittedHalf(document, prior, committed) && LocalHalf(document, local)
              && SequenceSettled(document, prior, append, committed)
            case Err(_) => "canonical_sequence" in document && "canonical_sequence" in prior && !append
  {
    RowsHalved(document, prior);
    StatusHalved(document);
    SequenceExact(document, prior, append);
    var rows := CommittedRows(document, prior);
    if "canonical_sequence" in document {
      HalfKept(document, prior, rows, document["canonical_sequence"]);
      if "canonical_sequence" in prior {
        HalfKept(document, prior, rows, prior["canonical_sequence"]);
      }
      LocalKept(document, StatusRows(document));
    }
  }

  lemma LocalKept(document: Body, status: Body)
    requires "canonical_sequence" in document && "canonical_sequence" !in status
    ensures var local := status["canonical_sequence" := document["canonical_sequence"]];
            && SameField(local, status, "run") && SameField(local, status, "task") && Tasks(local) == Tasks(status)
            && SameField(local, document, "canonical_sequence")
  {
    KeysApart();
  }

  // ---- reading the two files together --------------------------------------

  /** A committed row under its entry: every field of the entry, and of the row those that do not move. */
  ghost predicate RowOverlaid(row: Value, entry: Option<Value>, shown: Value) {
    if entry == None || !row.Map? || Ended(row) then shown == row
    else
      && shown.Map? && entry.value.Map?
      && forall f :: if f in entry.value.entries then SameField(shown.entries, entry.value.entries, f)
                     else if Moving(f) then f !in shown.entries
                     else SameField(shown.entries, row.entries, f)
  }

  lemma RowShown(row: Value, entry: Value)
    requires row.Map? && !Terminal(row) ==> entry.Map?
    ensures RowOverlaid(row, Some(entry), OverlaidRow(row, entry))
  {
    FlyingExact(row);
    forall f ensures f in IN_FLIGHT_FIELDS <==> Moving(f) {
      MovingExact(f);
    }
  }

  /** The Tasks shown: those committed and no others, each under its entry. */
  ghost predicate TasksShown(committed: Body, entries: Body, shown: Body) {
    shown.Keys == committed.Keys && forall k | k in committed :: RowOverlaid(committed[k], At(entries, k), shown[k])
  }

  lemma RowsShown(committed: Body, entries: Body)
    requires !BadEntry(committed, entries)
    ensures TasksShown(committed, entries, OverlaidRows(committed, entries))
  {
    forall k | k in committed && k in entries
      ensures RowOverlaid(committed[k], Some(entries[k]), OverlaidRow(committed[k], entries[k])) {
      RowShown(committed[k], entries[k]);
    }
  }

  ghost predicate Stated(m: Body) {
    "canonical_sequence" in m && m["canonical_sequence"] != Null
  }

  /** The larger of the two sequences stated; the committed field as it is when neither is. */
  ghost predicate SequenceShown(committed: Body, status: Body, shown: Body) {
    if !Stated(committed) && !Stated(status) then SameField(shown, committed, "canonical_sequence")
    else if !Stated(committed) then SameField(shown, status, "canonical_sequence")
    else if !Stated(status) then SameField(shown, committed, "canonical_sequence")
    else
      && Ranked(status["canonical_sequence"], committed["canonical_sequence"])
      && SameField(shown, if Ahead(status["canonical_sequence"], committed["canonical_sequence"]) then status
                          else committed, "canonical_sequence")
  }

  lemma SequenceLaid(committed: Body, status: Body, document: Body)
    requires SameField(document, committed, "canonical_sequence")
    requires LargerSequence(committed, status).Ok?
    ensures var larger := LargerSequence(committed, status).value;
            SequenceShown(committed, status,
                          if larger.Some? then document["canonical_sequence" := larger.value] else document)
  {
    if Stated(committed) && Stated(status) {
      GreaterExact(status["canonical_sequence"], committed["canonical_sequence"]);
    }
  }

  /**
    What a store shows: the committed collections, the local runs, the larger sequence, and every
    committed Task under its local entry unless it has ended.
   */
  lemma OverlayExact(committed: Body, status: Body)
    requires Overlay(committed, status).Ok?
    ensures var shown := Overlay(committed, status).value;
            && (forall k | k !in {"run", "task", "canonical_sequence"} :: SameField(shown, committed, k))
            && SameField(shown, status, "run") && SequenceShown(committed, status, shown)
            && (if HasTasks(committed) && HasTasks(status)
                then HasTasks(shown) && TasksShown(Tasks(committed), Tasks(status), Tasks(shown))
                else SameField(shown, committed, "task"))
  {
    KeysApart();
    var joined := Joined(committed, status);
    SequenceLaid(committed, status, joined);
    if HasTasks(committed) && HasTasks(status) {
      RowsShown(Tasks(committed), Tasks(status));
    }
  }

  /** Some Task that is shown live has an entry that is no row. */
  ghost predicate Misfiled(committed: Body, entries: Body) {
    exists k :: k in entries && k in committed && committed[k].Map? && !Ended(committed[k]) && !entries[k].Map?
  }

  lemma MisfiledExact(committed: Body, entries: Body)
    ensures BadEntry(committed, entries) <==> Misfiled(committed, entries)
  {
    forall k | k in committed ensures Terminal(committed[k]) <==> Ended(committed[k]) {
      FlyingExact(committed[k]);
    }
    if k :| k in entries && k in committed && committed[k].Map? && !Terminal(committed[k]) && !entries[k].Map? {
      assert Misfiled(committed, entries);
    }
  }

  lemma UnrankedRefused(committed: Body, status: Body)
    ensures LargerSequence(committed, status).Err? <==>
            Stated(committed) && Stated(status)
            && !Ranked(status["canonical_sequence"], committed["canonical_sequence"])
  {
    if Stated(committed) && Stated(status) {
      GreaterExact(status["canonical_sequence"], committed["canonical_sequence"]);
    }
  }

  /** Reading is refused exactly when the sequences cannot be ranked or a Task that is shown live is misfiled. */
  lemma OverlayRefused(committed: Body, status: Body)
    ensures Overlay(committed, status).Err? <==>
            || (Stated(committed) && Stated(status)
                && !Ranked(status["canonical_sequence"], committed["canonical_sequence"]))
            || (HasTasks(committed) && HasTasks(status) && Misfiled(Tasks(committed), Tasks(status)))
  {
    UnrankedRefused(committed, status);
    MisfiledExact(Tasks(committed), Tasks(status));
  }

  /** A projection from before definitions were committed replaces the Tasks, the runs and the sequence whole. */
  lemma EarlyShown(committed: Body, raw: Body, digest: string)
    ensures var shown := Merged(committed, Some(Early(raw)), digest);
            && shown.Ok?
            && forall k :: if k in raw then SameField(shown.value, raw, k)
                           else if k in {"task", "run", "canonical_sequence"} then k !in shown.value
                           else SameField(shown.value, committed, k)
  {
  }
}
