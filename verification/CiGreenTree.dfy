/** Recording green trees, and the release gate that accepts them. */
module CiGreenTree {
  import opened Values
  import opened CiChanges

  const PUSH_EVENT := "push"
  const CHANGES_JOB := "changes"
  const TEST_JOB := "test"
  const TWICE_GREEN_JOB := "twice-green"
  const RELEASE_REF := "refs/heads/release"
  const RECORD_PREFIX := "ci-green-tree-"
  const GATE_DEADLINE_SECONDS := 1800
  const POLL_SECONDS := 30

  // ---- may this run record -------------------------------------------------

  /** One needed job: its result and its outputs. */
  datatype Job = Job(result: string, outputs: map<string, string>)

  /** The decoded `toJSON(needs)`; an undecodable one reads as empty. */
  type Needs = map<string, Job>

  predicate Settled(result: string) {
    result == "success" || result == "skipped"
  }

  /** `_require_settled_needs`. */
  predicate SettledNeeds(needs: Needs) {
    && needs != map[] && (forall name | name in needs :: Settled(needs[name].result))
    && CHANGES_JOB in needs && TEST_JOB in needs && TWICE_GREEN_JOB in needs
    && needs[CHANGES_JOB].result == "success"
  }

  predicate OnReleaseTrain(ref: string) {
    ref == RELEASE_REF || RELEASE_REF + "/" <= ref
  }

  /** The jobs a record stands on: off the release train twice-green skips by design. */
  function HeavyJobs(ref: string): seq<string> {
    if OnReleaseTrain(ref) then [TEST_JOB, TWICE_GREEN_JOB] else [TEST_JOB]
  }

  function Output(needs: Needs, name: string): string {
    if CHANGES_JOB in needs && name in needs[CHANGES_JOB].outputs then needs[CHANGES_JOB].outputs[name] else ""
  }

  predicate AllResult(needs: Needs, jobs: seq<string>, result: string) {
    forall j | j in jobs :: j in needs && needs[j].result == result
  }

  /** `plan_record`: empty when the heavy jobs passed here, else the baseline they were skipped against. */
  function PlanRecord(needs: Needs, event: string, ref: string): Result<string, string> {
    if event != PUSH_EVENT then Err("this event records no tree")
    else if !SettledNeeds(needs) then Err("needed jobs did not pass")
    else if Output(needs, "code") == "true" then
      if AllResult(needs, HeavyJobs(ref), "success") then Ok("") else Err("the heavy jobs did not all pass")
    else if Output(needs, "code") == "false" then
      if !AllResult(needs, HeavyJobs(ref), "skipped") then Err("the heavy jobs were not all skipped")
      else if !IsSha(Output(needs, "green")) then Err("no green baseline")
      else Ok(Output(needs, "green"))
    else Err("unknown code output")
  }

  /** A needed job ended with this result. */
  ghost predicate Ended(needs: Needs, job: string, result: string) {
    job in needs && needs[job].result == result
  }

  /** The changes job reports this value under this name. */
  ghost predicate Reports(needs: Needs, name: string, value: string) {
    && "changes" in needs && name in needs["changes"].outputs && needs["changes"].outputs[name] == value
  }

  /** The two heavy jobs ended with this result; off the release train only `test` counts. */
  ghost predicate HeavyEnded(needs: Needs, ref: string, result: string) {
    && Ended(needs, "test", result)
    && (ref == "refs/heads/release" || "refs/heads/release/" <= ref ==> Ended(needs, "twice-green", result))
  }

  /** Every needed job passed or was skipped, the three known ones are needed, and the changes job ran. */
  ghost predicate AllEnded(needs: Needs) {
    && (forall job | job in needs :: needs[job].result in {"success", "skipped"})
    && {"changes", "test", "twice-green"} <= needs.Keys && Ended(needs, "changes", "success")
  }

  /**
    A push may record its tree exactly when all needs ended well and either the changes job asked for the
    heavy jobs and they passed, or it did not, they were skipped, and it named a baseline commit. In the
    first case the record stands on this run, in the second on that baseline.
   */
  lemma PlanStandsOn(needs: Needs, event: string, ref: string)
    ensures var plan := PlanRecord(needs, event, ref);
            && (plan.Ok? <==>
                  && event == "push" && AllEnded(needs)
                  && (|| (Reports(needs, "code", "true") && HeavyEnded(needs, ref, "success"))
                      || (Reports(needs, "code", "false") && HeavyEnded(needs, ref, "skipped")
                          && exists green :: Reports(needs, "green", green) && ObjectName(green))))
            && (plan.Ok? && Reports(needs, "code", "true") ==> plan.value == "")
            && (plan.Ok? && Reports(needs, "code", "false") ==>
                  Reports(needs, "green", plan.value) && ObjectName(plan.value))
  {
    ShaExact(Output(needs, "green"));
    Trains(ref);
    assert forall j :: j in HeavyJobs(ref) <==> j == "test" || (j == "twice-green" && OnReleaseTrain(ref));
    assert "true"[0] == 't' && "false"[0] == 'f' && Output(needs, "green") != "" ==> |Output(needs, "green")| > 0;
  }

  lemma Trains(ref: string)
    ensures OnReleaseTrain(ref) <==> ref == "refs/heads/release" || "refs/heads/release/" <= ref
  {
    assert "refs/heads/release" + "/" == "refs/heads/release/";
  }

  /** The result of `test` tells the two kinds of plan apart. */
  lemma PlanTested(needs: Needs, event: string, ref: string)
    requires PlanRecord(needs, event, ref).Ok?
    ensures var baseline := PlanRecord(needs, event, ref).value;
            && TEST_JOB in needs && (baseline == "" <==> needs[TEST_JOB].result == "success")
            && CHANGES_JOB in needs && needs[CHANGES_JOB].result == "success"
            && (baseline != "" ==> Output(needs, "code") == "false" && Output(needs, "green") == baseline)
  {
    PlanStandsOn(needs, event, ref);
    assert "success"[1] == 'u' && "skipped"[1] == 'k';
  }

  // ---- finding a recorded run ----------------------------------------------

  datatype Artifact = Artifact(name: string, expired: bool)

  /** The artifacts lookup of one run; nothing when the response is malformed or the call failed. */
  type Artifacts = int -> Option<seq<Artifact>>

  function RecordName(tree: string): string {
    RECORD_PREFIX + tree
  }

  predicate IsGreenPush(run: ApiRun, repository: string) {
    && run.event == PUSH_EVENT && run.status == "completed" && run.conclusion == "success"
    && run.repository == repository && run.id.Some?
  }

  /** `green_push_runs`. */
  function GreenPushRuns(runs: seq<ApiRun>, repository: string): seq<ApiRun> {
    if runs == [] then []
    else (if IsGreenPush(runs[0], repository) then [runs[0]] else []) + GreenPushRuns(runs[1..], repository)
  }

  /** Only finished, successful push runs of this repository qualify. */
  lemma {:induction false} GreenPushRunsIn(runs: seq<ApiRun>, repository: string, r: ApiRun)
    ensures r in GreenPushRuns(runs, repository) <==>
            && r in runs && r.event == "push" && r.status == "completed" && r.conclusion == "success"
            && r.repository == repository && r.id.Some?
  {
    if runs != [] {
      GreenPushRunsIn(runs[1..], repository, r);
    }
  }

  /** `has_record`: an unexpired artifact carries the record's exact name. */
  predicate HasRecord(artifacts: seq<Artifact>, tree: string) {
    exists a | a in artifacts :: a.name == RecordName(tree) && !a.expired
  }

  datatype GreenRun = GreenRun(id: int, sha: string, byHead: bool)

  /** `find_recorded_run`: the first listed run on the tree that uploaded the tree's record. */
  function FindRecordedRun(runs: seq<ApiRun>, tree: string, fetch: Artifacts): Result<Option<GreenRun>, string> {
    if runs == [] then Ok(None)
    else if runs[0].treeId != tree || runs[0].headSha.None? || runs[0].id.None? then
      FindRecordedRun(runs[1..], tree, fetch)
    else
      match fetch(runs[0].id.value)
      case None => Err("artifacts lookup failed")
      case Some(artifacts) =>
        if HasRecord(artifacts, tree) then Ok(Some(GreenRun(runs[0].id.value, runs[0].headSha.value, false)))
        else FindRecordedRun(runs[1..], tree, fetch)
  }

  method SearchRecordedRun(runs: seq<ApiRun>, tree: string, fetch: Artifacts)
    returns (r: Result<Option<GreenRun>, string>)
    ensures r == FindRecordedRun(runs, tree, fetch)
  {
    for i := 0 to |runs|
      invariant FindRecordedRun(runs, tree, fetch) == FindRecordedRun(runs[i..], tree, fetch)
    {
      var run := runs[i];
      assert runs[i..][1..] == runs[i + 1..];
      if run.treeId != tree || run.headSha.None? || run.id.None? {
        continue;
      }
      var artifacts := fetch(run.id.value);
      if artifacts.None? {
        return Err("artifacts lookup failed");
      }
      if HasRecord(artifacts.value, tree) {
        return Ok(Some(GreenRun(run.id.value, run.headSha.value, false)));
      }
    }
    return Ok(None);
  }

  /** An unexpired artifact of run `id` is named as the record of `tree`; nothing when the lookup fails. */
  ghost predicate Recorded(fetch: Artifacts, id: int, tree: string) {
    fetch(id).Some? && exists a | a in fetch(id).value :: a.name == "ci-green-tree-" + tree && !a.expired
  }

  /** A listed run on the tree, with a commit and an id to look its artifacts up by. */
  ghost predicate OnTree(r: ApiRun, tree: string) {
    r.treeId == tree && r.headSha.Some? && r.id.Some?
  }

  /** The first `n` runs were looked at in vain: each is on another tree, or answers and has no record. */
  ghost predicate InVain(runs: seq<ApiRun>, tree: string, fetch: Artifacts, n: int)
    requires n <= |runs|
  {
    forall i | 0 <= i < n && OnTree(runs[i], tree) ::
      fetch(runs[i].id.value).Some? && !Recorded(fetch, runs[i].id.value, tree)
  }

  /** Run `i` is the first one on the tree that carries the record. */
  ghost predicate FirstRecorded(runs: seq<ApiRun>, tree: string, fetch: Artifacts, i: int) {
    && 0 <= i < |runs| && InVain(runs, tree, fetch, i)
    && OnTree(runs[i], tree) && Recorded(fetch, runs[i].id.value, tree)
  }

  /** The search finds exactly the first run on the tree that carries the record, unless a lookup before it fails. */
  lemma {:induction false} RecordedRunListed(runs: seq<ApiRun>, tree: string, fetch: Artifacts)
    ensures var found := FindRecordedRun(runs, tree, fetch);
            && (found == Ok(None) <==> InVain(runs, tree, fetch, |runs|))
            && (forall i | FirstRecorded(runs, tree, fetch, i) ::
                  found == Ok(Some(GreenRun(runs[i].id.value, runs[i].headSha.value, false))))
            && (found.Ok? && found.value.Some? ==> exists i :: FirstRecorded(runs, tree, fetch, i))
  {
    if runs != [] {
      var rest := runs[1..];
      RecordedRunListed(rest, tree, fetch);
      if OnTree(runs[0], tree) {
        var id := runs[0].id.value;
        if fetch(id).Some? {
          RecordNamed(fetch, id, tree);
          assert Recorded(fetch, id, tree) ==> FirstRecorded(runs, tree, fetch, 0);
        }
      }
      forall i | 0 < i <= |runs| && InVain(runs, tree, fetch, 1)
        ensures InVain(runs, tree, fetch, i) <==> InVain(rest, tree, fetch, i - 1) {
        assert forall j | 0 < j < i :: runs[j] == rest[j - 1];
        if InVain(runs, tree, fetch, i) {
          assert forall j | 0 <= j < i - 1 :: rest[j] == runs[j + 1];
        }
      }
      FirstShifts(runs, tree, fetch);
      if i :| FirstRecorded(rest, tree, fetch, i) {
        assert InVain(runs, tree, fetch, 1) ==> FirstRecorded(runs, tree, fetch, i + 1);
      }
    }
  }

  lemma RecordNamed(fetch: Artifacts, id: int, tree: string)
    requires fetch(id).Some?
    ensures HasRecord(fetch(id).value, tree) <==> Recorded(fetch, id, tree)
  {
  }

  lemma FirstShifts(runs: seq<ApiRun>, tree: string, fetch: Artifacts)
    requires runs != []
    ensures forall i | 0 < i :: FirstRecorded(runs, tree, fetch, i) <==>
                                InVain(runs, tree, fetch, 1) && FirstRecorded(runs[1..], tree, fetch, i - 1)
  {
    var rest := runs[1..];
    forall i | 0 < i ensures FirstRecorded(runs, tree, fetch, i) <==>
                             InVain(runs, tree, fetch, 1) && FirstRecorded(rest, tree, fetch, i - 1) {
      if FirstRecorded(runs, tree, fetch, i) {
        assert forall j | 0 <= j < i - 1 :: rest[j] == runs[j + 1];
      }
      if InVain(runs, tree, fetch, 1) && FirstRecorded(rest, tree, fetch, i - 1) {
        assert forall j | 0 < j < i :: runs[j] == rest[j - 1];
      }
    }
  }

  /** The body of a tree record. */
  datatype TreeRecord = TreeRecord(tree: string, sha: string, inheritedTree: string, inheritedRun: Option<int>)

  /** What the record job sees beside its needs. */
  datatype RecordView = RecordView(event: string, ref: string, sha: string, repository: string,
                                   trees: map<string, string>, listing: Option<seq<ApiRun>>, fetch: Artifacts)

  /** `build_record`. */
  function BuildRecord(view: RecordView, needs: Needs): Result<TreeRecord, string> {
    match PlanRecord(needs, view.event, view.ref)
    case Err(e) => Err(e)
    case Ok(inherit) =>
      if !IsSha(view.sha) || view.sha !in view.trees then Err("no tree")
      else if inherit == "" then Ok(TreeRecord(view.trees[view.sha], view.sha, "", None))
      else if view.repository == "" || inherit !in view.trees || view.listing.None? then Err("lookup failed")
      else
        match FindRecordedRun(GreenPushRuns(view.listing.value, view.repository), view.trees[inherit], view.fetch)
        case Err(e) => Err(e)
        case Ok(None) => Err("the green baseline has no recorded tree")
        case Ok(Some(run)) => Ok(TreeRecord(view.trees[view.sha], view.sha, view.trees[inherit], Some(run.id)))
  }

  /** The record of the checked-out commit, standing on its own tests. */
  ghost predicate OwnRecord(view: RecordView, record: TreeRecord) {
    && view.sha in view.trees && ObjectName(view.sha)
    && record == TreeRecord(view.trees[view.sha], view.sha, "", None)
  }

  /** The record of the checked-out commit, standing on the first recorded run of the baseline's tree. */
  ghost predicate InheritedRecord(view: RecordView, baseline: string, record: TreeRecord) {
    && view.sha in view.trees && ObjectName(view.sha) && baseline in view.trees && view.listing.Some?
    && var runs := GreenPushRuns(view.listing.value, view.repository);
    && exists i :: FirstRecorded(runs, view.trees[baseline], view.fetch, i)
                   && record == TreeRecord(view.trees[view.sha], view.sha, view.trees[baseline], runs[i].id)
  }

  /** What is recorded: the run's own tree, on a plan, standing on its own tests or on a recorded baseline. */
  lemma RecordStandsOn(view: RecordView, needs: Needs, record: TreeRecord)
    ensures BuildRecord(view, needs) == Ok(record) <==>
            && PlanRecord(needs, view.event, view.ref).Ok?
            && var baseline := PlanRecord(needs, view.event, view.ref).value;
               if baseline == "" then OwnRecord(view, record)
               else view.repository != "" && InheritedRecord(view, baseline, record)
  {
    ShaExact(view.sha);
    var plan := PlanRecord(needs, view.event, view.ref);
    if plan.Ok? && plan.value in view.trees && view.listing.Some? {
      var runs, tree := GreenPushRuns(view.listing.value, view.repository), view.trees[plan.value];
      RecordedRunListed(runs, tree, view.fetch);
      var found := FindRecordedRun(runs, tree, view.fetch);
      if found.Ok? && found.value.Some? {
        var i :| FirstRecorded(runs, tree, view.fetch, i);
      }
    }
  }

  // ---- the gate ------------------------------------------------------------

  /** A run on the tagged commit itself, if one is listed. */
  function ByHead(runs: seq<ApiRun>, sha: string): Option<GreenRun> {
    if runs == [] then None
    else if runs[0].headSha == Some(sha) && runs[0].id.Some? then Some(GreenRun(runs[0].id.value, sha, true))
    else ByHead(runs[1..], sha)
  }

  /** `find_green_run`; a malformed listing or a failed lookup is an error. */
  function FindGreenRun(listing: Option<seq<ApiRun>>, fetch: Artifacts, repository: string, sha: string, tree: string)
    : Result<Option<GreenRun>, string>
  {
    if listing.None? then Err("the runs lookup failed")
    else
      var runs := GreenPushRuns(listing.value, repository);
      match ByHead(runs, sha)
      case Some(run) => Ok(Some(run))
      case None => FindRecordedRun(runs, tree, fetch)
  }

  /** Run `i` is the first on the commit that has an id. */
  ghost predicate FirstOnHead(runs: seq<ApiRun>, sha: string, i: int) {
    && 0 <= i < |runs| && runs[i].headSha == Some(sha) && runs[i].id.Some?
    && forall j | 0 <= j < i :: !(runs[j].headSha == Some(sha) && runs[j].id.Some?)
  }

  lemma {:induction false} ByHeadListed(runs: seq<ApiRun>, sha: string)
    ensures forall i | FirstOnHead(runs, sha, i) :: ByHead(runs, sha) == Some(GreenRun(runs[i].id.value, sha, true))
    ensures ByHead(runs, sha).Some? <==> exists i :: FirstOnHead(runs, sha, i)
  {
    if runs != [] {
      var rest := runs[1..];
      ByHeadListed(rest, sha);
      if runs[0].headSha == Some(sha) && runs[0].id.Some? {
        assert FirstOnHead(runs, sha, 0);
      } else {
        forall i | 0 < i ensures FirstOnHead(runs, sha, i) <==> FirstOnHead(rest, sha, i - 1) {
          HeadBehind(runs, sha, i);
        }
        if i :| FirstOnHead(rest, sha, i) {
          assert FirstOnHead(runs, sha, i + 1);
        }
      }
    }
  }

  lemma HeadBehind(runs: seq<ApiRun>, sha: string, i: int)
    requires runs != [] && !(runs[0].headSha == Some(sha) && runs[0].id.Some?) && 0 < i
    ensures FirstOnHead(runs, sha, i) <==> FirstOnHead(runs[1..], sha, i - 1)
  {
    var rest := runs[1..];
    if FirstOnHead(runs, sha, i) {
      assert forall j | 0 <= j < i - 1 :: rest[j] == runs[j + 1];
    }
    if FirstOnHead(rest, sha, i - 1) {
      assert forall j | 0 < j < i :: runs[j] == rest[j - 1];
    }
  }

  /**
    What the gate finds among our own green push runs: the first run on the commit itself, and only when
    there is none the first run on its tree that recorded it. Without a listing it finds nothing.
   */
  lemma GateFinds(listing: Option<seq<ApiRun>>, fetch: Artifacts, repository: string, sha: string, tree: string,
                  run: GreenRun)
    ensures FindGreenRun(listing, fetch, repository, sha, tree) == Ok(Some(run)) <==>
            && listing.Some?
            && var runs := GreenPushRuns(listing.value, repository);
               if exists i :: FirstOnHead(runs, sha, i)
               then exists i :: FirstOnHead(runs, sha, i) && run == GreenRun(runs[i].id.value, sha, true)
               else exists i :: FirstRecorded(runs, tree, fetch, i)
                                && run == GreenRun(runs[i].id.value, runs[i].headSha.value, false)
  {
    if listing.Some? {
      var runs := GreenPushRuns(listing.value, repository);
      ByHeadListed(runs, sha);
      RecordedRunListed(runs, tree, fetch);
    }
  }

  /** Some push run of the commit exists and none is still in flight. */
  predicate CommitSettled(runs: seq<ApiRun>, repository: string) {
    && (exists r | r in runs :: r.event == PUSH_EVENT && r.repository == repository)
    && (forall r | r in runs && r.event == PUSH_EVENT && r.repository == repository :: r.status == "completed")
  }

  /** What poll `k` of the gate is answered. */
  datatype Api = Api(listing: nat -> Option<seq<ApiRun>>, commitListing: nat -> Option<seq<ApiRun>>,
                     artifacts: nat -> Artifacts)

  function Poll(api: Api, repository: string, sha: string, tree: string, k: nat): Result<Option<GreenRun>, string> {
    FindGreenRun(api.listing(k), api.artifacts(k), repository, sha, tree)
  }

  /** Poll `k` is answered with a green run. */
  ghost predicate Finds(api: Api, repository: string, sha: string, tree: string, k: nat) {
    exists run :: FindGreenRun(api.listing(k), api.artifacts(k), repository, sha, tree) == Ok(Some(run))
  }

  /** The push runs of this repository among those listed. */
  ghost function Pushed(runs: seq<ApiRun>, repository: string): set<ApiRun> {
    set r | r in runs && r.event == "push" && r.repository == repository
  }

  /** Poll `k` finds nothing, and the commit's push runs, at least one, have all finished. */
  ghost predicate GivesUp(api: Api, repository: string, sha: string, tree: string, k: nat) {
    && FindGreenRun(api.listing(k), api.artifacts(k), repository, sha, tree) == Ok(None)
    && api.commitListing(k).Some?
    && var pushed := Pushed(api.commitListing(k).value, repository);
       pushed != {} && forall r | r in pushed :: r.status == "completed"
  }

  /**
    `await_green_run`: poll until a green run proves the commit or refuse. `clock(0)` is read
    before the first poll and `clock(k + 1)` after poll `k`; two polls are a sleep apart. A
    failed lookup is retried, and the deadline bounds the number of polls.
   */
  method AwaitGreenRun(api: Api, repository: string, sha: string, tree: string, clock: nat -> int)
    returns (passed: bool, polls: nat)
    requires clock(0) <= clock(1) && forall k: nat | k >= 1 :: clock(k) + 30 <= clock(k + 1)
    ensures 1 <= polls <= 61
    ensures passed <==> Finds(api, repository, sha, tree, polls - 1)
    ensures !passed ==> GivesUp(api, repository, sha, tree, polls - 1) || clock(polls) >= clock(0) + 1800
    ensures forall k: nat | k < polls - 1 :: !Finds(api, repository, sha, tree, k)
    ensures forall k: nat | k < polls - 1 :: !GivesUp(api, repository, sha, tree, k)
    ensures forall k: nat | 1 <= k < polls :: clock(k) < clock(0) + 1800
  {
    var deadline := clock(0) + GATE_DEADLINE_SECONDS;
    polls := 0;
    while true
      invariant forall k: nat | k < polls :: !Finds(api, repository, sha, tree, k)
      invariant forall k: nat | k < polls :: !GivesUp(api, repository, sha, tree, k)
      invariant forall k: nat | 1 <= k <= polls :: clock(k) < deadline
      invariant polls >= 1 ==> clock(polls) < deadline && clock(polls) >= clock(0) + POLL_SECONDS * (polls - 1)
      decreases GATE_DEADLINE_SECONDS - POLL_SECONDS * polls + POLL_SECONDS
    {
      var found := Poll(api, repository, sha, tree, polls);
      var commitRuns := api.commitListing(polls);
      if commitRuns.Some? {
        SettledExact(commitRuns.value, repository);
      }
      polls := polls + 1;
      if found.Ok? && found.value.Some? {
        return true, polls;
      }
      if found.Ok? && commitRuns.Some? && CommitSettled(commitRuns.value, repository) {
        return false, polls;
      }
      if clock(polls) >= deadline {
        return false, polls;
      }
    }
  }

  lemma SettledExact(runs: seq<ApiRun>, repository: string)
    ensures CommitSettled(runs, repository) <==>
            Pushed(runs, repository) != {} && forall r | r in Pushed(runs, repository) :: r.status == "completed"
  {
    var pushed := Pushed(runs, repository);
    if CommitSettled(runs, repository) {
      var r :| r in runs && r.event == PUSH_EVENT && r.repository == repository;
      assert r in pushed;
    }
    if pushed != {} {
      var r :| r in pushed;
      assert r in runs && r.event == "push" && r.repository == repository;
    }
  }
}
