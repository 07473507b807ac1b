/** The generation document kept as two files: the committed half and the status projection. */
module Compaction {
  import opened Values
  import opened Sorting

  const LOCAL_COLLECTIONS: set<string> := {"run"}
  const TASK := "task"
  const SEQUENCE := "canonical_sequence"

  const IN_FLIGHT_FIELDS: set<string> :=
    {"status", "active_run_ref", "claimed_by", "first_claimed_at", "integrated_binding", "revision", "updated_at"}
  const IN_FLIGHT_STATUSES: set<string> := {"CLAIMED", "RUNNING", "READY_TO_INTEGRATE"}
  const TERMINAL_STATUSES: set<string> := {"COMPLETED", "CANCELLED", "FAILED"}
  const PRE_DEFINITION_KEYS: set<string> := {"task", "run", "canonical_sequence"}

  // ---- rows ----------------------------------------------------------------

  predicate StatusIn(v: Value, statuses: set<string>) {
    v.Map? && "status" in v.entries && v.entries["status"].Str? && v.entries["status"].text in statuses
  }

  predicate InFlight(v: Value) {
    StatusIn(v, IN_FLIGHT_STATUSES)
  }

  predicate Terminal(v: Value) {
    StatusIn(v, TERMINAL_STATUSES)
  }

  /** A row without its status fields. */
  function Definition(row: Body): Body {
    row - IN_FLIGHT_FIELDS
  }

  /** A row's status fields. */
  function Held(row: Body): Body {
    map k | k in row && k in IN_FLIGHT_FIELDS :: row[k]
  }

  function MapAt(m: Body, k: string): Body {
    if k in m && m[k].Map? then m[k].entries else map[]
  }

  function At(m: Body, k: string): Option<Value> {
    if k in m then Some(m[k]) else None
  }

  // ---- splitting -----------------------------------------------------------

  /** `_committed_task`: the definition, and the status the committed row already held. */
  function CommittedTask(row: Body, base: Option<Value>): Body {
    if base.Some? && base.value.Map? && !InFlight(base.value) then Definition(row) + Held(base.value.entries)
    else
      var held := (Held(row) - {"claimed_by"})["status" := Str("PLANNED")];
      Definition(row) + if "active_run_ref" in held then held["active_run_ref" := Null] else held
  }

  function CommittedTasks(tasks: Body, bases: Body): Body {
    map k | k in tasks ::
      if InFlight(tasks[k]) then Map(CommittedTask(tasks[k].entries, At(bases, k))) else tasks[k]
  }

  function InFlightEntries(tasks: Body): Body {
    map k | k in tasks && InFlight(tasks[k]) :: Map(Held(tasks[k].entries))
  }

  /** The committed half before the sequence is settled. */
  function CommittedRows(document: Body, prior: Body): Body {
    var rows := document - LOCAL_COLLECTIONS - {SEQUENCE};
    if TASK in document && document[TASK].Map?
    then rows[TASK := Map(CommittedTasks(document[TASK].entries, MapAt(prior, TASK)))]
    else rows
  }

  function LocalPart(m: Body): Body {
    map k | k in m && k in LOCAL_COLLECTIONS :: m[k]
  }

  /** The local half before the sequence is settled. */
  function StatusRows(document: Body): Body {
    var entries := InFlightEntries(MapAt(document, TASK));
    if entries == map[] then LocalPart(document) else LocalPart(document)[TASK := Map(entries)]
  }

  /** A stated, non-null sequence. */
  function SequenceOf(m: Body): Option<Value> {
    if SEQUENCE in m && m[SEQUENCE] != Null then Some(m[SEQUENCE]) else None
  }

  /**
    `a > b`; nothing where the source raises. A value compares with an equal one unless it is a mapping;
    an integer compares with an integer and a text with a text.
   */
  function Greater(a: Value, b: Value): Option<bool> {
    if a == b then if a.Map? || a.Null? then None else Some(false)
    else
      match (a, b)
      case (Int(x), Int(y)) => Some(x > y)
      case (Str(x), Str(y)) => Some(!TextLe(x, y))
      case _ => None
  }

  /**
    `_split`: the committed half and the local half of a document. The committed sequence moves
    only with a committed change; sequences that do not compare are the source's `TypeError`.
   */
  function Split(document: Body, prior: Body, append: bool): Result<(Body, Body), string> {
    var committed, status := CommittedRows(document, prior), StatusRows(document);
    if SEQUENCE !in document then Ok((committed, status))
    else
      var sequence := document[SEQUENCE];
      var local := status[SEQUENCE := sequence];
      if committed != prior - {SEQUENCE} || append then Ok((committed[SEQUENCE := sequence], local))
      else
        match SequenceOf(prior)
        case None => Ok((committed, local))
        case Some(kept) =>
          match Greater(kept, sequence)
          case None => Err("sequences do not compare")
          case Some(ahead) => Ok((committed[SEQUENCE := if ahead then sequence else kept], local))
  }

  // ---- laying over ---------------------------------------------------------

  /** The larger of the stated sequences; nothing when none is stated. */
  function LargerSequence(committed: Body, status: Body): Result<Option<Value>, string> {
    match (SequenceOf(committed), SequenceOf(status))
    case (None, b) => Ok(b)
    case (a, None) => Ok(a)
    case (Some(a), Some(b)) =>
      match Greater(b, a)
      case None => Err("sequences do not compare")
      case Some(ahead) => Ok(Some(if ahead then b else a))
  }

  /** A committed row takes its local entry, unless it is gone or already terminal. */
  function OverlaidRow(row: Value, entry: Value): Value {
    if !row.Map? || Terminal(row) || !entry.Map? then row else Map(Definition(row.entries) + entry.entries)
  }

  /** Some live row has an entry that is no mapping. */
  predicate BadEntry(rows: Body, entries: Body) {
    exists k | k in entries :: k in rows && rows[k].Map? && !Terminal(rows[k]) && !entries[k].Map?
  }

  function OverlaidRows(rows: Body, entries: Body): Body {
    map k | k in rows :: if k in entries then OverlaidRow(rows[k], entries[k]) else rows[k]
  }

  /** `_overlay`: one projection's local half laid over the committed file. */
  function Overlay(committed: Body, status: Body): Result<Body, string> {
    match LargerSequence(committed, status)
    case Err(e) => Err(e)
    case Ok(sequence) =>
      var local := Joined(committed, status);
      var document := if sequence.Some? then local[SEQUENCE := sequence.value] else local;
      if TASK !in committed || !committed[TASK].Map? || TASK !in status || !status[TASK].Map? then Ok(document)
      else if BadEntry(committed[TASK].entries, status[TASK].entries) then Err("task entry must be an object")
      else Ok(document[TASK := Map(OverlaidRows(committed[TASK].entries, status[TASK].entries))])
  }

  /** The status projection file: bound to committed bytes, or written before that was done. */
  datatype Projection =
    | Early(raw: Body)
    | Bound(base: string, status: Body, previous: Option<Previous>)

  /** The projection a two-file write replaced, under the digest it belonged to. */
  datatype Previous = Previous(base: string, projection: Option<Projection>)

  /** The projection names other bytes, and the one it replaced names these. */
  predicate Superseded(p: Projection, digest: string) {
    p.Bound? && p.base != digest && p.previous.Some? && p.previous.value.base == digest
  }

  /** `_merged`: the committed file with the projection that belongs to it laid over. */
  function Merged(committed: Body, projection: Option<Projection>, digest: string): Result<Body, string>
    decreases projection
  {
    match projection
    case None => Ok(committed)
    case Some(Early(raw)) => Ok((committed - PRE_DEFINITION_KEYS) + raw)
    case Some(Bound(base, status, previous)) =>
      if Superseded(projection.value, digest) then Merged(committed, previous.value.projection, digest)
      else Overlay(committed, status)
  }

  /** `_settled`: the projection as it reads against the bytes `digest` names, one level deep. */
  function Settled(projection: Option<Projection>, digest: string): Option<Projection> {
    match projection
    case None => None
    case Some(Early(raw)) => projection
    case Some(Bound(base, status, previous)) =>
      if Superseded(projection.value, digest) then previous.value.projection
      else Some(Bound(base, status, None))
  }

  // ---- the round trip ------------------------------------------------------

  /** The live sequence compares with itself, when the document states one. */
  predicate TypedSequence(document: Body) {
    SEQUENCE in document ==> Greater(document[SEQUENCE], document[SEQUENCE]).Some?
  }

  /** No Task in flight in the document has a terminal row in the committed file. */
  predicate NoneRevived(document: Body, prior: Body) {
    forall k | k in MapAt(document, TASK) ::
      InFlight(MapAt(document, TASK)[k]) && k in MapAt(prior, TASK) ==> !Terminal(MapAt(prior, TASK)[k])
  }

  /** A row as it reads back: its own, unless it is in flight over a terminal row, whose status it then keeps. */
  function ShownRow(row: Value, base: Option<Value>): Value {
    if InFlight(row) && base.Some? && Terminal(base.value) then Map(CommittedTask(row.entries, base)) else row
  }

  function ShownRows(tasks: Body, bases: Body): Body {
    map k | k in tasks :: ShownRow(tasks[k], At(bases, k))
  }

  /** A document as it reads back once written over `prior`. */
  function Shown(document: Body, prior: Body): Body {
    if TASK in document && document[TASK].Map?
    then document[TASK := Map(ShownRows(document[TASK].entries, MapAt(prior, TASK)))]
    else document
  }

  /** A row splits into its definition and its status fields. */
  lemma RowHalves(row: Body)
    ensures Definition(row) + Held(row) == row
  {
  }

  lemma CommittedTaskFacts(row: Body, base: Option<Value>)
    ensures Definition(CommittedTask(row, base)) == Definition(row)
    ensures !InFlight(Map(CommittedTask(row, base)))
    ensures Terminal(Map(CommittedTask(row, base))) <==> base.Some? && Terminal(base.value)
  {
    assert "status" in IN_FLIGHT_FIELDS && "claimed_by" in IN_FLIGHT_FIELDS && "active_run_ref" in IN_FLIGHT_FIELDS;
    assert Definition(CommittedTask(row, base)) == Definition(row);
    StatusesApart();
  }

  lemma StatusesApart()
    ensures "PLANNED" !in IN_FLIGHT_STATUSES && "PLANNED" !in TERMINAL_STATUSES
    ensures IN_FLIGHT_STATUSES !! TERMINAL_STATUSES
  {
    assert "PLANNED"[0] == 'P' && "CLAIMED"[1] == 'L' && "COMPLETED"[1] == 'O' && "CANCELLED"[1] == 'A';
    assert "CLAIMED"[0] == 'C' && "RUNNING"[0] == 'R' && "READY_TO_INTEGRATE"[0] == 'R' && "FAILED"[0] == 'F';
    assert "COMPLETED"[0] == 'C' && "CANCELLED"[0] == 'C';
  }

  /** One in-flight row comes back as it is shown, which is itself exactly when its base is not terminal. */
  lemma RowRoundTrip(row: Value, base: Option<Value>)
    requires InFlight(row)
    ensures OverlaidRow(Map(CommittedTask(row.entries, base)), Map(Held(row.entries))) == ShownRow(row, base)
    ensures ShownRow(row, base) == row <==> !(base.Some? && Terminal(base.value))
  {
    CommittedTaskFacts(row.entries, base);
    RowHalves(row.entries);
    StatusesApart();
    if base.Some? && Terminal(base.value) {
      assert Terminal(Map(CommittedTask(row.entries, base)));
      assert !Terminal(row);
    }
  }

  lemma TasksRoundTrip(tasks: Body, bases: Body)
    ensures OverlaidRows(CommittedTasks(tasks, bases), InFlightEntries(tasks)) == ShownRows(tasks, bases)
    ensures ShownRows(tasks, bases) == tasks <==>
            forall k | k in tasks :: InFlight(tasks[k]) && k in bases ==> !Terminal(bases[k])
  {
    var back, shown := OverlaidRows(CommittedTasks(tasks, bases), InFlightEntries(tasks)), ShownRows(tasks, bases);
    assert back.Keys == tasks.Keys && shown.Keys == tasks.Keys;
    forall k | k in tasks
      ensures back[k] == shown[k]
      ensures shown[k] == tasks[k] <==> (InFlight(tasks[k]) && k in bases ==> !Terminal(bases[k]))
    {
      if InFlight(tasks[k]) {
        RowRoundTrip(tasks[k], At(bases, k));
      }
    }
  }

  /** A document is shown as written exactly when no Task in flight in it has a terminal row in `prior`. */
  lemma ShownExact(document: Body, prior: Body)
    ensures Shown(document, prior) == document <==> NoneRevived(document, prior)
  {
    if TASK in document && document[TASK].Map? {
      var tasks := document[TASK].entries;
      TasksRoundTrip(tasks, MapAt(prior, TASK));
      assert Shown(document, prior)[TASK] == Map(ShownRows(tasks, MapAt(prior, TASK)));
      assert document[TASK := document[TASK]] == document;
    }
  }

  lemma KeysApart()
    ensures TASK !in LOCAL_COLLECTIONS && SEQUENCE !in LOCAL_COLLECTIONS && TASK != SEQUENCE
  {
    assert TASK[0] == 't' && SEQUENCE[0] == 'c' && "run"[0] == 'r';
  }

  lemma NoSequence(document: Body, prior: Body)
    ensures SEQUENCE !in CommittedRows(document, prior) && SEQUENCE !in StatusRows(document)
  {
    KeysApart();
  }

  /** The sequence comes back as the document stated it. */
  lemma SequenceRoundTrip(document: Body, prior: Body, append: bool)
    requires TypedSequence(document) && Split(document, prior, append).Ok?
    ensures var (committed, status) := Split(document, prior, append).value;
            LargerSequence(committed, status) ==
            Ok(if SEQUENCE in document then Some(document[SEQUENCE]) else None)
  {
    NoSequence(document, prior);
    if SEQUENCE in document && SequenceOf(prior).Some? && SequenceOf(prior).value.Str? && document[SEQUENCE].Str? {
      TextLeTotal(SequenceOf(prior).value.text, document[SEQUENCE].text);
    }
  }

  /** What the two halves hold beside the sequence. */
  lemma SplitParts(document: Body, prior: Body, append: bool)
    requires Split(document, prior, append).Ok?
    ensures var (committed, status) := Split(document, prior, append).value;
            && committed - {SEQUENCE} == CommittedRows(document, prior)
            && status - {SEQUENCE} == StatusRows(document)
            && (SEQUENCE !in document ==> SEQUENCE !in committed && SEQUENCE !in status)
  {
    NoSequence(document, prior);
  }

  /** The document with each in-flight row as the committed file keeps it. */
  function Unstarted(document: Body, prior: Body): Body {
    if TASK in document && document[TASK].Map?
    then document[TASK := Map(CommittedTasks(document[TASK].entries, MapAt(prior, TASK)))]
    else document
  }

  /** The committed file's own keys with the local ones of the projection. */
  function Joined(committed: Body, status: Body): Body {
    (committed - LOCAL_COLLECTIONS) + LocalPart(status)
  }

  /** Before the rows are laid over, the halves join to the document with its rows unstarted. */
  lemma HalvesJoin(document: Body, prior: Body, committed: Body, status: Body)
    requires committed - {SEQUENCE} == CommittedRows(document, prior)
    requires status - {SEQUENCE} == StatusRows(document)
    requires SEQUENCE !in document ==> SEQUENCE !in committed
    ensures (if SEQUENCE in document then Joined(committed, status)[SEQUENCE := document[SEQUENCE]]
             else Joined(committed, status)) == Unstarted(document, prior)
  {
    var joined := Joined(committed, status);
    KeysApart();
    forall k | k != SEQUENCE
      ensures k in joined <==> k in Unstarted(document, prior)
      ensures k in joined ==> joined[k] == Unstarted(document, prior)[k]
    {
      HalvesKey(document, prior, committed, status, k);
    }
    JoinedSequence(committed, status);
  }

  lemma JoinedSequence(committed: Body, status: Body)
    ensures SEQUENCE in Joined(committed, status) ==> SEQUENCE in committed
  {
    KeysApart();
  }

  lemma HalvesKey(document: Body, prior: Body, committed: Body, status: Body, k: string)
    requires committed - {SEQUENCE} == CommittedRows(document, prior)
    requires status - {SEQUENCE} == StatusRows(document) && k != SEQUENCE
    ensures k in Joined(committed, status) <==> k in Unstarted(document, prior)
    ensures k in Unstarted(document, prior) ==> Joined(committed, status)[k] == Unstarted(document, prior)[k]
  {
    KeysApart();
    LocalHalf(document, status);
    assert k in committed <==> k in committed - {SEQUENCE};
  }

  lemma LocalHalf(document: Body, status: Body)
    requires status - {SEQUENCE} == StatusRows(document)
    ensures LocalPart(status) == LocalPart(document)
  {
    KeysApart();
    forall k | k in LOCAL_COLLECTIONS
      ensures k in status <==> k in document
      ensures k in status ==> status[k] == document[k]
    {
      assert k in status <==> k in status - {SEQUENCE};
    }
  }

  lemma EntriesOf(document: Body, prior: Body, committed: Body, status: Body)
    requires committed - {SEQUENCE} == CommittedRows(document, prior)
    requires status - {SEQUENCE} == StatusRows(document)
    ensures TASK in committed <==> TASK in document
    ensures TASK in document ==> committed[TASK] == Unstarted(document, prior)[TASK]
    ensures var entries := InFlightEntries(MapAt(document, TASK));
            if entries == map[] then TASK !in status else TASK in status && status[TASK] == Map(entries)
  {
    KeysApart();
    assert TASK in committed <==> TASK in committed - {SEQUENCE};
    assert TASK in status <==> TASK in status - {SEQUENCE};
  }

  /**
    Reading back what was written gives the document as it is shown; that is the document itself exactly
    when no Task in flight has a terminal row in the committed file, which would hide the Task's status.
   */
  lemma SplitOverlay(document: Body, prior: Body, append: bool)
    requires TypedSequence(document) && Split(document, prior, append).Ok?
    ensures var (committed, status) := Split(document, prior, append).value;
            Overlay(committed, status) == Ok(Shown(document, prior))
    ensures Shown(document, prior) == document <==> NoneRevived(document, prior)
  {
    var (committed, status) := Split(document, prior, append).value;
    var tasks, bases := MapAt(document, TASK), MapAt(prior, TASK);
    ShownExact(document, prior);
    SequenceRoundTrip(document, prior, append);
    SplitParts(document, prior, append);
    HalvesJoin(document, prior, committed, status);
    EntriesOf(document, prior, committed, status);
    TasksRoundTrip(tasks, bases);
    OverlayRows(document, tasks, bases, committed, status);
  }

  lemma OverlayRows(document: Body, tasks: Body, bases: Body, committed: Body, status: Body)
    requires tasks == MapAt(document, TASK)
    requires LargerSequence(committed, status) ==
             Ok(if SEQUENCE in document then Some(document[SEQUENCE]) else None)
    requires (if SEQUENCE in document then Joined(committed, status)[SEQUENCE := document[SEQUENCE]]
              else Joined(committed, status)) ==
             if TASK in document && document[TASK].Map?
             then document[TASK := Map(CommittedTasks(tasks, bases))] else document
    requires TASK in committed <==> TASK in document
    requires TASK in document ==>
               committed[TASK] == if document[TASK].Map? then Map(CommittedTasks(tasks, bases)) else document[TASK]
    requires if InFlightEntries(tasks) == map[] then TASK !in status
             else TASK in status && status[TASK] == Map(InFlightEntries(tasks))
    requires OverlaidRows(CommittedTasks(tasks, bases), InFlightEntries(tasks)) == ShownRows(tasks, bases)
    ensures Overlay(committed, status) ==
            Ok(if TASK in document && document[TASK].Map? then document[TASK := Map(ShownRows(tasks, bases))]
               else document)
  {
    var entries := InFlightEntries(tasks);
    if TASK in document && document[TASK].Map? {
      if entries == map[] {
        NoEntries(tasks, bases);
      } else {
        EntriesAreMaps(tasks, CommittedTasks(tasks, bases));
        UpdateTwice(document, CommittedTasks(tasks, bases), ShownRows(tasks, bases));
      }
    }
  }

  lemma EntriesAreMaps(tasks: Body, rows: Body)
    ensures !BadEntry(rows, InFlightEntries(tasks))
  {
  }

  lemma UpdateTwice(document: Body, rows: Body, back: Body)
    ensures document[TASK := Map(rows)][TASK := Map(back)] == document[TASK := Map(back)]
  {
  }

  lemma NoEntries(tasks: Body, bases: Body)
    requires InFlightEntries(tasks) == map[]
    ensures CommittedTasks(tasks, bases) == tasks
    ensures OverlaidRows(CommittedTasks(tasks, bases), map[]) == tasks
  {
    assert forall k :: k in InFlightEntries(tasks) <==> k in tasks && InFlight(tasks[k]);
    assert CommittedTasks(tasks, bases) == tasks;
  }

  // ---- two files, one document ---------------------------------------------

  /** JSON rendering and SHA-256, as far as the protocol needs them. */
  datatype Codec = Codec(render: Body -> string, decode: string -> Body, digest: string -> string)

  /** Decoding undoes rendering, and a digest names its bytes. */
  ghost predicate Lawful(codec: Codec) {
    && (forall b :: codec.decode(codec.render(b)) == b)
    && (forall x, y :: codec.digest(x) == codec.digest(y) ==> x == y)
  }

  /** The two files as they stand on disk. */
  datatype Store = Store(committed: Option<string>, projection: Option<Projection>)

  /** `read_document`; nothing before the committed file exists. */
  function Read(codec: Codec, s: Store): Option<Result<Body, string>> {
    match s.committed
    case None => None
    case Some(raw) => Some(Merged(codec.decode(raw), s.projection, codec.digest(raw)))
  }

  /** One atomic file replacement. */
  datatype Effect = PutProjection(projection: Projection) | PutCommitted(raw: string)

  function Apply(s: Store, e: Effect): Store {
    match e
    case PutProjection(p) => s.(projection := Some(p))
    case PutCommitted(raw) => s.(committed := Some(raw))
  }

  function ApplyAll(s: Store, effects: seq<Effect>): Store
    decreases |effects|
  {
    if effects == [] then s else ApplyAll(Apply(s, effects[0]), effects[1..])
  }

  /** The committed body a write splits against. */
  function Prior(codec: Codec, s: Store): Body {
    if s.committed.Some? then codec.decode(s.committed.value) else map[]
  }

  /** `write_document`: the durable replacements of one write, in order. */
  function Effects(codec: Codec, s: Store, document: Body, append: bool): Result<seq<Effect>, string> {
    match Split(document, Prior(codec, s), append)
    case Err(e) => Err(e)
    case Ok((committed, status)) =>
      var payload := codec.render(committed);
      var base := codec.digest(payload);
      match s.committed
      case None => Ok([PutProjection(Bound(base, status, None)), PutCommitted(payload)])
      case Some(raw) =>
        if payload == raw then Ok([PutProjection(Bound(base, status, None))])
        else
          var previous := Previous(codec.digest(raw), Settled(s.projection, codec.digest(raw)));
          Ok([PutProjection(Bound(base, status, Some(previous))), PutCommitted(payload)])
  }

  /** Settling a projection does not change how it reads against the bytes it was settled for. */
  lemma {:induction false} SettledReads(committed: Body, projection: Option<Projection>, digest: string)
    ensures Merged(committed, Settled(projection, digest), digest) == Merged(committed, projection, digest)
  {
  }

  /**
    A write is atomic to readers: stopped after any of its replacements but the last, it reads as
    the document before; after the last, as the document written is shown.
   */
  lemma WriteAtomic(codec: Codec, s: Store, document: Body, append: bool, landed: nat)
    requires Lawful(codec) && TypedSequence(document) && Effects(codec, s, document, append).Ok?
    requires landed <= |Effects(codec, s, document, append).value|
    ensures var effects := Effects(codec, s, document, append).value;
            Read(codec, ApplyAll(s, effects[..landed])) ==
            if landed < |effects| then Read(codec, s) else Some(Ok(Shown(document, Prior(codec, s))))
  {
    var effects := Effects(codec, s, document, append).value;
    var (committed, status) := Split(document, Prior(codec, s), append).value;
    SplitOverlay(document, Prior(codec, s), append);
    var payload := codec.render(committed);
    assert codec.decode(payload) == committed;
    if s.committed.Some? {
      SettledReads(codec.decode(s.committed.value), s.projection, codec.digest(s.committed.value));
    }
    LandedStores(s, effects, landed);
  }

  lemma LandedStores(s: Store, effects: seq<Effect>, landed: nat)
    requires landed <= |effects| <= 2
    ensures ApplyAll(s, effects[..landed]) ==
            if landed == 0 then s
            else if landed == 1 then Apply(s, effects[0])
            else Apply(Apply(s, effects[0]), effects[1])
  {
    if landed == 1 {
      assert effects[..1] == [effects[0]] && effects[..1][1..] == [];
    } else if landed == 2 {
      assert effects[..2] == [effects[0], effects[1]];
      assert effects[..2][1..] == [effects[1]];
      assert ApplyAll(Apply(s, effects[0]), [effects[1]]) == ApplyAll(Apply(Apply(s, effects[0]), effects[1]), []);
    } else {
      assert effects[..landed] == [];
    }
  }

  /** One attempted write: the document, its ledger append, and how many replacements landed. */
  datatype Write = Write(document: Body, append: bool, landed: nat)

  /** The store after a write that may have stopped short. */
  function After(codec: Codec, s: Store, w: Write): Store {
    match Effects(codec, s, w.document, w.append)
    case Err(_) => s
    case Ok(effects) => ApplyAll(s, effects[..if w.landed < |effects| then w.landed else |effects|])
  }

  function Run(codec: Codec, s: Store, writes: seq<Write>): Store
    decreases |writes|
  {
    if writes == [] then s else Run(codec, After(codec, s, writes[0]), writes[1..])
  }

  /** The write went through to its last replacement. */
  predicate Landed(codec: Codec, s: Store, w: Write) {
    Effects(codec, s, w.document, w.append).Ok? && w.landed >= |Effects(codec, s, w.document, w.append).value|
  }

  /** What the last write that landed shows, or what the store read as to begin with. */
  function LastLanded(codec: Codec, s: Store, writes: seq<Write>, sofar: Option<Result<Body, string>>)
    : Option<Result<Body, string>>
    decreases |writes|
  {
    if writes == [] then sofar
    else
      LastLanded(codec, After(codec, s, writes[0]), writes[1..],
                 if Landed(codec, s, writes[0])
                 then Some(Ok(Shown(writes[0].document, Prior(codec, s)))) else sofar)
  }

  predicate AllTyped(writes: seq<Write>) {
    forall i | 0 <= i < |writes| :: TypedSequence(writes[i].document)
  }

  /** One attempted write reads as what it shows once it landed, and changes nothing for readers before. */
  lemma WriteReads(codec: Codec, s: Store, w: Write)
    requires Lawful(codec) && TypedSequence(w.document)
    ensures Read(codec, After(codec, s, w)) ==
            if Landed(codec, s, w) then Some(Ok(Shown(w.document, Prior(codec, s)))) else Read(codec, s)
  {
    var effects := Effects(codec, s, w.document, w.append);
    if effects.Ok? {
      var n := |effects.value|;
      WriteAtomic(codec, s, w.document, w.append, if w.landed < n then w.landed else n);
    }
  }

  /**
    Over any run of writes, each refused, stopped anywhere or finished, the store reads as the last
    landed document is shown.
   */
  lemma {:induction false} CrashHistory(codec: Codec, s: Store, writes: seq<Write>)
    requires Lawful(codec) && AllTyped(writes)
    ensures Read(codec, Run(codec, s, writes)) == LastLanded(codec, s, writes, Read(codec, s))
    decreases |writes|
  {
    if writes != [] {
      WriteReads(codec, s, writes[0]);
      CrashHistory(codec, After(codec, s, writes[0]), writes[1..]);
    }
  }

  /** A revived row is lost: a finished write reads back as written exactly when there is none. */
  lemma RevivedRowLost(codec: Codec, s: Store, document: Body, append: bool)
    requires Lawful(codec) && TypedSequence(document) && Effects(codec, s, document, append).Ok?
    ensures var done := ApplyAll(s, Effects(codec, s, document, append).value);
            Read(codec, done) == Some(Ok(document)) <==> NoneRevived(document, Prior(codec, s))
  {
    var effects := Effects(codec, s, document, append).value;
    ShownExact(document, Prior(codec, s));
    WriteAtomic(codec, s, document, append, |effects|);
    assert effects[..|effects|] == effects;
  }

  /** Such a document: a Task claimed again over its completed row. */
  lemma RevivedExample()
    ensures var prior := map[TASK := Map(map["EAWF-0001" := Map(map["status" := Str("COMPLETED")])])];
            var document := map[TASK := Map(map["EAWF-0001" := Map(map["status" := Str("CLAIMED")])])];
            && Split(document, prior, false).Ok?
            && var (committed, status) := Split(document, prior, false).value;
               Overlay(committed, status) != Ok(document)
  {
    KeysApart();
    var prior := map[TASK := Map(map["EAWF-0001" := Map(map["status" := Str("COMPLETED")])])];
    var document := map[TASK := Map(map["EAWF-0001" := Map(map["status" := Str("CLAIMED")])])];
    var row := MapAt(document, TASK)["EAWF-0001"];
    assert InFlight(row) && Terminal(MapAt(prior, TASK)["EAWF-0001"]);
    SplitOverlay(document, prior, false);
    assert MapAt(document, TASK)["EAWF-0001"] == row;
  }

  /**
    A committed file moved from outside, to bytes neither projection names, keeps its own rows; a Task
    that was in flight in the last document written and is not terminal there keeps its live status
    fields over the moved file's definition.
   */
  lemma MovedFromOutside(moved: Body, document: Body, prior: Body, append: bool, base: string,
                         previous: Option<Previous>, digest: string)
    requires Split(document, prior, append).Ok?
    requires base != digest && (previous.Some? ==> previous.value.base != digest)
    requires Merged(moved, Some(Bound(base, Split(document, prior, append).value.1, previous)), digest).Ok?
    ensures var status := Split(document, prior, append).value.1;
            var read := Merged(moved, Some(Bound(base, status, previous)), digest).value;
            var was, rows, now := MapAt(document, TASK), MapAt(moved, TASK), MapAt(read, TASK);
            && now.Keys == rows.Keys
            && forall k | k in rows ::
                 if k in was && InFlight(was[k]) && rows[k].Map? && !Terminal(rows[k])
                 then now[k].Map? && Held(now[k].entries) == Held(was[k].entries)
                      && Definition(now[k].entries) == Definition(rows[k].entries)
                 else now[k] == rows[k]
  {
    KeysApart();
    var (committed, status) := Split(document, prior, append).value;
    SplitParts(document, prior, append);
    EntriesOf(document, prior, committed, status);
    assert MapAt(status, TASK) == InFlightEntries(MapAt(document, TASK));
    OverlayTasks(moved, status);
    LiveOverMoved(MapAt(document, TASK), MapAt(moved, TASK));
  }

  lemma LiveOverMoved(was: Body, rows: Body)
    ensures var now := OverlaidRows(rows, InFlightEntries(was));
            && now.Keys == rows.Keys
            && forall k | k in rows ::
                 if k in was && InFlight(was[k]) && rows[k].Map? && !Terminal(rows[k])
                 then now[k].Map? && Held(now[k].entries) == Held(was[k].entries)
                      && Definition(now[k].entries) == Definition(rows[k].entries)
                 else now[k] == rows[k]
  {
    forall k | k in rows && k in was && InFlight(was[k]) && rows[k].Map?
      ensures Held(Definition(rows[k].entries) + Held(was[k].entries)) == Held(was[k].entries)
      ensures Definition(Definition(rows[k].entries) + Held(was[k].entries)) == Definition(rows[k].entries)
    {
    }
  }

  /** The Task rows of an overlay are the committed ones with their entries laid over. */
  lemma OverlayTasks(committed: Body, status: Body)
    requires Overlay(committed, status).Ok?
    ensures MapAt(Overlay(committed, status).value, TASK) == OverlaidRows(MapAt(committed, TASK), MapAt(status, TASK))
  {
    KeysApart();
    var rows := MapAt(committed, TASK);
    assert OverlaidRows(rows, map[]) == rows;
  }

  // ---- along the lifecycle -------------------------------------------------

  /** The statuses a Task's lifecycle moves on to; the terminal ones have none. */
  function TaskEdges(status: string): set<string> {
    if status == "DRAFT" then {"DEFERRED", "DROPPED", "PLANNED"}
    else if status == "DEFERRED" then {"DRAFT", "DROPPED"}
    else if status == "PLANNED" then {"DRAFT", "CLAIMED", "CANCELLED"}
    else if status == "CLAIMED" then {"RUNNING", "PLANNED", "CANCELLED"}
    else if status == "RUNNING" then {"READY_TO_INTEGRATE", "FAILED", "CANCELLED", "PLANNED"}
    else if status == "READY_TO_INTEGRATE" then {"COMPLETED", "PLANNED", "FAILED"}
    else {}
  }

  function StatusOf(v: Value): Option<string> {
    if v.Map? && "status" in v.entries && v.entries["status"].Str? then Some(v.entries["status"].text) else None
  }

  /** `path` is a run of lifecycle moves, none at all included. */
  ghost predicate Moves(path: seq<string>) {
    path != [] && forall i | 0 <= i < |path| - 1 :: path[i + 1] in TaskEdges(path[i])
  }

  /** A row comes from another by lifecycle moves, if both state a status. */
  ghost predicate RowMoves(before: Value, after: Value) {
    StatusOf(before).Some? && StatusOf(after).Some? ==>
      exists path :: Moves(path) && path[0] == StatusOf(before).value && path[|path| - 1] == StatusOf(after).value
  }

  /** Every Task row of `after` that was there before comes from its row by lifecycle moves. */
  ghost predicate LifecycleMoves(before: Body, after: Body) {
    forall k | k in MapAt(before, TASK) && k in MapAt(after, TASK) ::
      RowMoves(MapAt(before, TASK)[k], MapAt(after, TASK)[k])
  }

  lemma {:induction false} NoWayOut(path: seq<string>)
    requires Moves(path) && path[0] in TERMINAL_STATUSES
    ensures |path| == 1
  {
    if |path| > 1 {
      assert path[0 + 1] in TaskEdges(path[0]);
      TerminalEdges(path[0]);
      assert false;
    }
  }

  lemma TerminalEdges(status: string)
    requires status in TERMINAL_STATUSES
    ensures TaskEdges(status) == {}
  {
    assert "COMPLETED"[1] == 'O' && "CANCELLED"[1] == 'A' && "FAILED"[1] == 'A' && "CLAIMED"[1] == 'L';
    assert "COMPLETED"[0] == 'C' && "CANCELLED"[0] == 'C' && "FAILED"[0] == 'F';
    assert "DRAFT"[0] == 'D' && "DEFERRED"[0] == 'D' && "PLANNED"[0] == 'P' && "RUNNING"[0] == 'R'
           && "READY_TO_INTEGRATE"[0] == 'R';
  }

  /** No lifecycle move takes a Task out of a terminal status. */
  lemma TerminalIsFinal(before: Value, after: Value)
    requires Terminal(before) && RowMoves(before, after)
    ensures !InFlight(after)
  {
    StatusesApart();
    if InFlight(after) {
      var path :| Moves(path) && path[0] == StatusOf(before).value && path[|path| - 1] == StatusOf(after).value;
      NoWayOut(path);
      assert false;
    }
  }

  /** A Task row the committed file holds terminal reads as terminal. */
  ghost predicate Grounded(codec: Codec, s: Store) {
    Read(codec, s).Some? && Read(codec, s).value.Ok? ==>
      forall k | k in MapAt(Prior(codec, s), TASK) && Terminal(MapAt(Prior(codec, s), TASK)[k]) ::
        k in MapAt(Read(codec, s).value.value, TASK) && Terminal(MapAt(Read(codec, s).value.value, TASK)[k])
  }

  /** The document of a write comes by lifecycle moves from what the store reads as, once it reads as anything. */
  ghost predicate Lives(codec: Codec, s: Store, w: Write) {
    && TypedSequence(w.document)
    && (Read(codec, s).Some? ==>
          Read(codec, s).value.Ok? && LifecycleMoves(Read(codec, s).value.value, w.document))
  }

  ghost predicate LivingRun(codec: Codec, s: Store, writes: seq<Write>)
    decreases |writes|
  {
    writes != [] ==> Lives(codec, s, writes[0]) && LivingRun(codec, After(codec, s, writes[0]), writes[1..])
  }

  /** A document that comes by lifecycle moves from what is read revives nothing. */
  lemma LifeRevivesNone(codec: Codec, s: Store, w: Write)
    requires Grounded(codec, s) && Lives(codec, s, w)
    ensures NoneRevived(w.document, Prior(codec, s))
  {
    var prior, tasks := MapAt(Prior(codec, s), TASK), MapAt(w.document, TASK);
    if Read(codec, s).Some? {
      var rows := MapAt(Read(codec, s).value.value, TASK);
      forall k | k in tasks && InFlight(tasks[k]) && k in prior ensures !Terminal(prior[k]) {
        if Terminal(prior[k]) {
          TerminalIsFinal(rows[k], tasks[k]);
          assert false;
        }
      }
    } else {
      assert prior == map[];
    }
  }

  /** Whatever lands, a committed terminal row goes on reading as terminal. */
  lemma StaysGrounded(codec: Codec, s: Store, w: Write)
    requires Lawful(codec) && Grounded(codec, s) && Lives(codec, s, w)
    ensures Grounded(codec, After(codec, s, w))
  {
    WriteReads(codec, s, w);
    var effects := Effects(codec, s, w.document, w.append);
    if effects.Ok? {
      var n := |effects.value|;
      LandedStores(s, effects.value, if w.landed < n then w.landed else n);
      if Landed(codec, s, w) {
        var (committed, status) := Split(w.document, Prior(codec, s), w.append).value;
        SplitOverlay(w.document, Prior(codec, s), w.append);
        assert codec.decode(codec.render(committed)) == committed;
        OverlayKeepsRows(committed, status);
      }
    }
  }

  /** The last document that landed, or what the store read as to begin with. */
  function LastWritten(codec: Codec, s: Store, writes: seq<Write>, sofar: Option<Result<Body, string>>)
    : Option<Result<Body, string>>
    decreases |writes|
  {
    if writes == [] then sofar
    else
      LastWritten(codec, After(codec, s, writes[0]), writes[1..],
                  if Landed(codec, s, writes[0]) then Some(Ok(writes[0].document)) else sofar)
  }

  /**
    Along the lifecycle the store never loses a status: over any run of writes, each of a document that
    comes by lifecycle moves from what was read, and each refused, stopped anywhere or finished, the
    store reads as the very last document that landed.
   */
  lemma {:induction false} LifecycleHistory(codec: Codec, s: Store, writes: seq<Write>)
    requires Lawful(codec) && Grounded(codec, s) && LivingRun(codec, s, writes)
    ensures Read(codec, Run(codec, s, writes)) == LastWritten(codec, s, writes, Read(codec, s))
    decreases |writes|
  {
    if writes != [] {
      var w := writes[0];
      WriteReads(codec, s, w);
      LifeRevivesNone(codec, s, w);
      ShownExact(w.document, Prior(codec, s));
      StaysGrounded(codec, s, w);
      LifecycleHistory(codec, After(codec, s, w), writes[1..]);
    }
  }

  /** An empty store is grounded, and so is one whose projection is bound to its committed file. */
  lemma BoundIsGrounded(codec: Codec, s: Store)
    requires s.committed.None? || s.projection.None?
             || (s.projection.value.Bound? && !Superseded(s.projection.value, codec.digest(s.committed.value)))
    ensures Grounded(codec, s)
  {
    if s.committed.Some? && s.projection.Some? && Read(codec, s).value.Ok? {
      OverlayKeepsRows(Prior(codec, s), s.projection.value.status);
    }
  }

  // ---- status-only writes --------------------------------------------------

  /** Only status fields of Tasks in flight differ from a document whose committed half is `committed`. */
  ghost predicate OnlyStatusMoved(committed: Body, document: Body) {
    && (document - LOCAL_COLLECTIONS - {SEQUENCE, TASK}) == committed - {SEQUENCE, TASK}
    && TASK in committed && committed[TASK].Map? && TASK in document && document[TASK].Map?
    && document[TASK].entries.Keys == committed[TASK].entries.Keys
    && (forall k | k in document[TASK].entries ::
          var kept, row := committed[TASK].entries[k], document[TASK].entries[k];
          if InFlight(row) then kept.Map? && !InFlight(kept) && Definition(row.entries) == Definition(kept.entries)
          else row == kept)
    && SEQUENCE in document && document[SEQUENCE].Int?
    && (SEQUENCE in committed ==> committed[SEQUENCE].Int? && committed[SEQUENCE].n <= document[SEQUENCE].n)
  }

  lemma StatusOnlyRows(committed: Body, document: Body)
    requires OnlyStatusMoved(committed, document)
    ensures CommittedTasks(document[TASK].entries, committed[TASK].entries) == committed[TASK].entries
  {
    var tasks, bases := document[TASK].entries, committed[TASK].entries;
    forall k | k in tasks ensures CommittedTasks(tasks, bases)[k] == bases[k] {
      if InFlight(tasks[k]) {
        RowHalves(bases[k].entries);
      }
    }
  }

  /**
    From its claim until it completes a Task costs the committed file nothing: while only status fields,
    runs and a growing sequence move, the committed half of the document is the one already there.
   */
  lemma StatusOnlySplit(committed: Body, document: Body)
    requires OnlyStatusMoved(committed, document)
    ensures Split(document, committed, false).Ok? && Split(document, committed, false).value.0 == committed
  {
    KeysApart();
    StatusOnlyRows(committed, document);
    var rows := CommittedRows(document, committed);
    forall k ensures k in rows <==> k in committed - {SEQUENCE}
             ensures k in rows ==> rows[k] == committed[k] {
      StatusOnlyKey(committed, document, k);
    }
    assert rows == committed - {SEQUENCE};
    if SEQUENCE in committed {
      assert (committed - {SEQUENCE})[SEQUENCE := committed[SEQUENCE]] == committed;
    } else {
      assert committed - {SEQUENCE} == committed;
    }
  }

  lemma StatusOnlyKey(committed: Body, document: Body, k: string)
    requires OnlyStatusMoved(committed, document)
    requires CommittedTasks(document[TASK].entries, committed[TASK].entries) == committed[TASK].entries
    ensures var rows := CommittedRows(document, committed);
            && (k in rows <==> k in committed - {SEQUENCE})
            && (k in rows ==> rows[k] == committed[k])
  {
    KeysApart();
    assert k != SEQUENCE && k != TASK ==>
        (k in document - LOCAL_COLLECTIONS - {SEQUENCE, TASK} <==> k in committed - {SEQUENCE, TASK});
  }

  /** Such a write replaces the projection alone. */
  lemma StatusOnlyWrite(codec: Codec, s: Store, committed: Body, document: Body)
    requires Lawful(codec) && s.committed == Some(codec.render(committed))
    requires OnlyStatusMoved(committed, document)
    ensures var effects := Effects(codec, s, document, false);
            effects.Ok? && |effects.value| == 1 && effects.value[0].PutProjection?
  {
    assert codec.decode(codec.render(committed)) == committed;
    StatusOnlySplit(committed, document);
  }

  // ---- what an overlay never does ------------------------------------------

  /** No row appears or disappears, and a terminal row is never touched. */
  lemma OverlayKeepsRows(committed: Body, status: Body)
    requires Overlay(committed, status).Ok?
    ensures var document := Overlay(committed, status).value;
            && MapAt(document, TASK).Keys == MapAt(committed, TASK).Keys
            && (forall k | k in MapAt(committed, TASK) && Terminal(MapAt(committed, TASK)[k]) ::
                  MapAt(document, TASK)[k] == MapAt(committed, TASK)[k])
  {
    KeysApart();
  }

  /** Laying an entry over a row twice is laying it over once. */
  lemma RowTwice(row: Value, entry: Value)
    ensures OverlaidRow(OverlaidRow(row, entry), entry) == OverlaidRow(row, entry)
  {
    var once := OverlaidRow(row, entry);
    if row.Map? && !Terminal(row) && entry.Map? && !Terminal(once) {
      assert Definition(once.entries) + entry.entries == once.entries;
    }
  }

  /** Laying a projection over its own result changes nothing, exactly when its live sequence compares with itself. */
  lemma OverlayIdempotent(committed: Body, status: Body)
    requires Overlay(committed, status).Ok?
    ensures Overlay(Overlay(committed, status).value, status) == Overlay(committed, status) <==> SelfComparing(status)
  {
    KeysApart();
    OverlaySequence(committed, status);
    if SelfComparing(status) {
      SequenceTwice(committed, status);
      RowsTwice(MapAt(committed, TASK), MapAt(status, TASK));
      OverlayAgain(committed, status);
    }
  }

  /** The overlaid document states the larger sequence. */
  lemma OverlaySequence(committed: Body, status: Body)
    requires Overlay(committed, status).Ok?
    ensures Ok(SequenceOf(Overlay(committed, status).value)) == LargerSequence(committed, status)
  {
    KeysApart();
    var joined := Joined(committed, status);
    assert SEQUENCE in joined <==> SEQUENCE in committed;
    assert SEQUENCE in joined ==> joined[SEQUENCE] == committed[SEQUENCE];
  }

  /** A stated sequence compares with itself: it is no mapping. */
  predicate SelfComparing(m: Body) {
    SequenceOf(m).Some? ==> Greater(SequenceOf(m).value, SequenceOf(m).value).Some?
  }

  lemma SequenceTwice(committed: Body, status: Body)
    requires Overlay(committed, status).Ok? && SelfComparing(status)
    ensures LargerSequence(Overlay(committed, status).value, status) == LargerSequence(committed, status)
  {
    OverlaySequence(committed, status);
  }

  lemma RowsTwice(rows: Body, entries: Body)
    requires !BadEntry(rows, entries)
    ensures OverlaidRows(OverlaidRows(rows, entries), entries) == OverlaidRows(rows, entries)
    ensures !BadEntry(OverlaidRows(rows, entries), entries)
  {
    forall k | k in rows && k in entries
      ensures OverlaidRow(OverlaidRow(rows[k], entries[k]), entries[k]) == OverlaidRow(rows[k], entries[k]) {
      RowTwice(rows[k], entries[k]);
    }
  }

  lemma OverlayAgain(committed: Body, status: Body)
    requires Overlay(committed, status).Ok?
    requires LargerSequence(Overlay(committed, status).value, status) == LargerSequence(committed, status)
    requires var rows, entries := MapAt(committed, TASK), MapAt(status, TASK);
             OverlaidRows(OverlaidRows(rows, entries), entries) == OverlaidRows(rows, entries) &&
             !BadEntry(OverlaidRows(rows, entries), entries)
    ensures Overlay(Overlay(committed, status).value, status) == Overlay(committed, status)
  {
    KeysApart();
    var document := Overlay(committed, status).value;
    OverlaySequence(committed, status);
    var again := Joined(document, status);
    var sequence := SequenceOf(document);
    forall k ensures k in again <==> k in document
             ensures k in document ==> again[k] == document[k] {
      JoinedKey(committed, status, k);
    }
    assert again == document;
    assert sequence.Some? ==> document[SEQUENCE := sequence.value] == document;
    if TASK in document && document[TASK].Map? && TASK in status && status[TASK].Map? {
      assert document[TASK := document[TASK]] == document;
    }
  }

  lemma JoinedKey(committed: Body, status: Body, k: string)
    requires Overlay(committed, status).Ok?
    ensures var document := Overlay(committed, status).value;
            && (k in Joined(document, status) <==> k in document)
            && (k in document ==> Joined(document, status)[k] == document[k])
  {
    KeysApart();
  }

  // ---- the writer in place -------------------------------------------------

  /** A tree's two files, replaced one at a time, and the document they show. */
  class Tree {
    var committed: Option<string>
    var projection: Option<Projection>
    ghost var shows: Option<Result<Body, string>>
    const codec: Codec

    constructor (codec: Codec, committed: Option<string>, projection: Option<Projection>)
      ensures this.codec == codec && Files() == Store(committed, projection)
      ensures Valid() && shows == Read(codec, Store(committed, projection))
    {
      this.codec := codec;
      this.committed := committed;
      this.projection := projection;
      this.shows := Read(codec, Store(committed, projection));
    }

    function Files(): Store
      reads this
    {
      Store(committed, projection)
    }

    /** The files join to the document shown. */
    ghost predicate Valid()
      reads this
    {
      Read(codec, Files()) == shows
    }

    /** `read_document`: the document shown, the last one that landed. */
    method ReadDocument() returns (document: Option<Result<Body, string>>)
      requires Valid()
      ensures document == shows
    {
      document := if committed.None? then None
                  else Some(Merged(codec.decode(committed.value), projection, codec.digest(committed.value)));
    }

    /** `write_document`, stopped after `landing` file replacements when it needs more. */
    method WriteDocument(document: Body, append: bool, landing: nat)
      requires Valid()
      modifies this
      ensures Files() == After(codec, old(Files()), Write(document, append, landing))
      ensures Valid()
      ensures Lawful(codec) && TypedSequence(document) ==>
                shows == if Landed(codec, old(Files()), Write(document, append, landing))
                         then Some(Ok(Shown(document, Prior(codec, old(Files()))))) else old(shows)
    {
      ghost var before := Files();
      var prior := if committed.Some? then codec.decode(committed.value) else map[];
      var halves := Split(document, prior, append);
      if halves.Err? {
        return;
      }
      var payload := codec.render(halves.value.0);
      var base := codec.digest(payload);
      ghost var effects := Effects(codec, before, document, append).value;
      LandedStores(before, effects, if landing < |effects| then landing else |effects|);
      if Lawful(codec) && TypedSequence(document) {
        WriteReads(codec, before, Write(document, append, landing));
      }
      if landing == 0 {
        return;
      }
      if committed == Some(payload) {
        projection := Some(Bound(base, halves.value.1, None));
      } else {
        var previous: Option<Previous> := None;
        if committed.Some? {
          var held := codec.digest(committed.value);
          previous := Some(Previous(held, Settled(projection, held)));
        }
        projection := Some(Bound(base, halves.value.1, previous));
        if landing >= 2 {
          committed := Some(payload);
        }
      }
      shows := Read(codec, Files());
    }
  }
}
