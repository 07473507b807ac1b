/** Histories of push runs: what a green run, a record and a passed gate ultimately stand on. */
module CiHistory {
  import opened Values
  import opened CiChanges
  import opened CiGreenTree

  /** The repository's objects: the tree id of each commit, and the tree behind each id. */
  datatype Objects = Objects(treeIds: map<string, string>, trees: map<string, Tree>)

  predicate Has(o: Objects, sha: string) {
    sha in o.treeIds && o.treeIds[sha] in o.trees
  }

  function TreeOf(o: Objects, sha: string): Tree
    requires Has(o, sha)
  {
    o.trees[o.treeIds[sha]]
  }

  /**
    One finished run of the workflow: what triggered it and from which repository, its commit, whether
    it concluded green, whether its `test` job really passed, the record it uploaded, and what its jobs
    saw and reported.
   */
  datatype Run = Run(id: int, event: string, repository: string, sha: string, green: bool, tested: bool,
                     recorded: Option<TreeRecord>, needs: Needs, view: PushView, recordView: RecordView)

  /** A push run of `home`, the only kind that can vouch; any other run may do and upload anything. */
  predicate Ours(run: Run, home: string) {
    run.event == "push" && run.repository == home
  }

  /** `listed` is the row of `run`: its id, trigger, repository, conclusion, commit and tree. */
  predicate IsRow(o: Objects, run: Run, listed: ApiRun) {
    && (listed.id.Some? ==> listed.id.value == run.id)
    && listed.event == run.event && listed.repository == run.repository
    && (listed.conclusion == "success" <==> run.green)
    && (listed.headSha.Some? ==> listed.headSha.value == run.sha)
    && (run.sha in o.treeIds ==> listed.treeId == o.treeIds[run.sha])
  }

  /** Every finished row is the row of a run before; a row still in flight may say anything. */
  ghost predicate TrueListing(o: Objects, prior: seq<Run>, listing: Option<seq<ApiRun>>) {
    listing.Some? ==>
      forall r | r in listing.value && r.status == "completed" ::
        exists j | 0 <= j < |prior| :: IsRow(o, prior[j], r)
  }

  /** The rows answer the query of the changes job, which asks for finished push runs and does not look again. */
  predicate AnswersPushQuery(listing: Option<seq<ApiRun>>) {
    listing.Some? ==> forall r | r in listing.value :: r.event == "push" && r.status == "completed"
  }

  /** A record found among the artifacts of one of our runs is the one that run built. */
  ghost predicate TrueArtifacts(home: string, prior: seq<Run>, fetch: Artifacts) {
    forall j, tree: string | 0 <= j < |prior| && Ours(prior[j], home) ::
      Recorded(fetch, prior[j].id, tree) ==>
        prior[j].recorded.Some? && prior[j].recorded.value.tree == tree
  }

  /** The commits and tree ids git reads are the repository's, and so is the environment. */
  predicate TrueGit(o: Objects, home: string, run: Run) {
    && Has(o, run.sha) && run.view.head == TreeOf(o, run.sha)
    && (forall c | c in run.view.commits :: Has(o, c) && run.view.commits[c] == TreeOf(o, c))
    && (forall c | c in run.recordView.trees :: Has(o, c) && run.recordView.trees[c] == o.treeIds[c])
    && run.recordView.sha == run.sha
    && (run.view.repository == home || run.view.repository == "")
    && (run.recordView.repository == home || run.recordView.repository == "")
  }

  /**
    The workflow's own rules on a push: the changes job reports its verdict, a passed `test` job tested
    this tree, a green run has no failed job and skips `test` only on a verdict of no code, and what is
    uploaded is what `build_record` built. A run that was cancelled or failed may skip `test` for any reason.
   */
  ghost predicate TrueRun(run: Run) {
    var verdict := Classify(run.event, run.view);
    && (CHANGES_JOB in run.needs && run.needs[CHANGES_JOB].result == "success" ==>
          && Output(run.needs, "code") == (if verdict.code then "true" else "false")
          && Output(run.needs, "green") == verdict.green)
    && (TEST_JOB in run.needs && run.needs[TEST_JOB].result == "success" ==> run.tested)
    && (run.green && TEST_JOB in run.needs && run.needs[TEST_JOB].result == "skipped" ==>
          CHANGES_JOB in run.needs && run.needs[CHANGES_JOB].result == "success"
          && Output(run.needs, "code") == "false")
    && (run.green ==> TEST_JOB in run.needs && run.needs[TEST_JOB].result in {"success", "skipped"})
    && (run.recorded.Some? ==> BuildRecord(run.recordView, run.needs) == Ok(run.recorded.value))
  }

  /** A run of ours follows the rules and is answered truthfully about the runs before it; the rest are free. */
  ghost predicate Follows(o: Objects, home: string, prior: seq<Run>, run: Run) {
    Ours(run, home) ==>
      && TrueGit(o, home, run) && TrueRun(run)
      && TrueListing(o, prior, run.view.listing) && AnswersPushQuery(run.view.listing)
      && TrueListing(o, prior, run.recordView.listing)
      && TrueArtifacts(home, prior, run.recordView.fetch)
  }

  ghost predicate History(o: Objects, home: string, runs: seq<Run>) {
    forall n | 0 <= n < |runs| :: Follows(o, home, runs[..n], runs[n])
  }

  /** A push run of `home` up to `n` really passed the `test` job on a tree that agrees with `tree` on the code. */
  ghost predicate Proven(o: Objects, home: string, runs: seq<Run>, n: nat, tree: Tree) {
    exists j | 0 <= j < |runs| && j <= n ::
      Ours(runs[j], home) && runs[j].tested && Has(o, runs[j].sha) && SameCode(TreeOf(o, runs[j].sha), tree)
  }

  lemma ProvenCarries(o: Objects, home: string, runs: seq<Run>, m: nat, n: nat, a: Tree, b: Tree)
    requires Proven(o, home, runs, m, a) && m <= n && SameCode(a, b)
    ensures Proven(o, home, runs, n, b)
  {
    var j :| 0 <= j < |runs| && j <= m && Ours(runs[j], home) && runs[j].tested && Has(o, runs[j].sha)
             && SameCode(TreeOf(o, runs[j].sha), a);
    SameCodeEquivalence(TreeOf(o, runs[j].sha), a, b);
  }

  lemma TestedProves(o: Objects, home: string, runs: seq<Run>, n: nat)
    requires n < |runs| && Ours(runs[n], home) && runs[n].tested && Has(o, runs[n].sha)
    ensures Proven(o, home, runs, n, TreeOf(o, runs[n].sha))
  {
    SameCodeEquivalence(TreeOf(o, runs[n].sha), TreeOf(o, runs[n].sha), TreeOf(o, runs[n].sha));
  }

  /** A run that skipped its tests agrees on the code with an earlier green push run of its own repository. */
  lemma SkipHasBaseline(o: Objects, home: string, runs: seq<Run>, n: nat) returns (j: nat)
    requires History(o, home, runs) && n < |runs| && Ours(runs[n], home)
    requires !Classify(PUSH_EVENT, runs[n].view).code
    ensures j < n && Ours(runs[j], home) && runs[j].green && runs[j].sha == Classify(PUSH_EVENT, runs[n].view).green
    ensures Has(o, runs[j].sha) && SameCode(TreeOf(o, runs[j].sha), TreeOf(o, runs[n].sha))
  {
    var view := runs[n].view;
    assert Follows(o, home, runs[..n], runs[n]);
    var r := SkipNames(PUSH_EVENT, view);
    j := RowBefore(o, runs, n, view.listing, r);
  }

  /** A finished row names a run before. */
  lemma RowBefore(o: Objects, runs: seq<Run>, n: nat, listing: Option<seq<ApiRun>>, r: ApiRun) returns (j: nat)
    requires n <= |runs| && TrueListing(o, runs[..n], listing)
    requires listing.Some? && r in listing.value && r.status == "completed"
    ensures j < n && IsRow(o, runs[j], r)
  {
    var i :| 0 <= i < |runs[..n]| && IsRow(o, runs[..n][i], r);
    j := i;
    assert runs[..n][i] == runs[j];
  }

  /** Every green push run's tree agrees on the code with a tree whose tests really passed. */
  lemma {:induction false} GreenRunsProven(o: Objects, home: string, runs: seq<Run>, n: nat)
    requires History(o, home, runs) && n < |runs| && Ours(runs[n], home) && runs[n].green
    ensures Has(o, runs[n].sha) && Proven(o, home, runs, n, TreeOf(o, runs[n].sha))
    decreases n
  {
    var run := runs[n];
    assert Follows(o, home, runs[..n], run);
    if run.needs[TEST_JOB].result == "success" {
      TestedProves(o, home, runs, n);
    } else {
      OutputFalse(run);
      var j := SkipHasBaseline(o, home, runs, n);
      GreenRunsProven(o, home, runs, j);
      ProvenCarries(o, home, runs, j, n, TreeOf(o, runs[j].sha), TreeOf(o, run.sha));
    }
  }

  /** A reported `code=false` is the verdict. */
  lemma OutputFalse(run: Run)
    requires TrueRun(run) && CHANGES_JOB in run.needs && run.needs[CHANGES_JOB].result == "success"
    requires Output(run.needs, "code") == "false"
    ensures !Classify(run.event, run.view).code
    ensures Output(run.needs, "green") == Classify(run.event, run.view).green
  {
    assert "true"[0] == 't' && "false"[0] == 'f';
  }

  /** What the search finds is a record one of our own earlier runs built. */
  lemma RecordedByOurs(o: Objects, home: string, runs: seq<Run>, n: nat, listing: Option<seq<ApiRun>>, fetch: Artifacts,
                       tree: string)
    returns (j: nat)
    requires n <= |runs| && TrueListing(o, runs[..n], listing) && TrueArtifacts(home, runs[..n], fetch)
    requires listing.Some?
    requires var found := FindRecordedRun(GreenPushRuns(listing.value, home), tree, fetch);
             found.Ok? && found.value.Some?
    ensures j < n && Ours(runs[j], home) && runs[j].recorded.Some? && runs[j].recorded.value.tree == tree
  {
    var pushes := GreenPushRuns(listing.value, home);
    RecordedRunListed(pushes, tree, fetch);
    var i :| FirstRecorded(pushes, tree, fetch, i);
    var r := pushes[i];
    GreenPushRunsIn(listing.value, home, r);
    j := RowBefore(o, runs, n, listing, r);
    assert runs[..n][j] == runs[j];
  }

  /** Every recorded tree agrees on the code with a tree whose tests really passed. */
  lemma {:induction false} RecordsProven(o: Objects, home: string, runs: seq<Run>, n: nat)
    requires History(o, home, runs) && n < |runs| && Ours(runs[n], home) && runs[n].recorded.Some?
    ensures Has(o, runs[n].sha) && runs[n].recorded.value.tree == o.treeIds[runs[n].sha]
    ensures Proven(o, home, runs, n, TreeOf(o, runs[n].sha))
    decreases n
  {
    var run := runs[n];
    assert Follows(o, home, runs[..n], run);
    var view := run.recordView;
    PlanTested(run.needs, view.event, view.ref);
    var baseline := PlanRecord(run.needs, view.event, view.ref).value;
    if baseline == "" {
      TestedProves(o, home, runs, n);
    } else {
      OutputFalse(run);
      var _ := SkipNames(PUSH_EVENT, run.view);
      var j := RecordedByOurs(o, home, runs, n, view.listing, view.fetch, view.trees[baseline]);
      RecordsProven(o, home, runs, j);
      ProvenCarries(o, home, runs, j, n, TreeOf(o, baseline), TreeOf(o, run.sha));
    }
  }

  /**
    A gate that lets a release pass, by head or by recorded tree, passes a tree that agrees on the code
    with one whose tests really passed on a push of this repository, whatever runs of other kinds or of
    other repositories are listed and whatever they uploaded.
   */
  lemma GateProven(o: Objects, home: string, runs: seq<Run>, listing: Option<seq<ApiRun>>, fetch: Artifacts,
                   sha: string)
    requires History(o, home, runs) && Has(o, sha)
    requires TrueListing(o, runs, listing) && TrueArtifacts(home, runs, fetch)
    requires var found := FindGreenRun(listing, fetch, home, sha, o.treeIds[sha]); found.Ok? && found.value.Some?
    ensures Proven(o, home, runs, |runs|, TreeOf(o, sha))
  {
    assert runs[..|runs|] == runs;
    var pushes := GreenPushRuns(listing.value, home);
    if ByHead(pushes, sha).Some? {
      ByHeadListed(pushes, sha);
      var i :| FirstOnHead(pushes, sha, i);
      var r := pushes[i];
      GreenPushRunsIn(listing.value, home, r);
      var j := RowBefore(o, runs, |runs|, listing, r);
      GreenRunsProven(o, home, runs, j);
      Later(o, home, runs, j, TreeOf(o, sha));
    } else {
      var j := RecordedByOurs(o, home, runs, |runs|, listing, fetch, o.treeIds[sha]);
      RecordsProven(o, home, runs, j);
      Later(o, home, runs, j, TreeOf(o, sha));
    }
  }

  lemma Later(o: Objects, home: string, runs: seq<Run>, j: nat, tree: Tree)
    requires Proven(o, home, runs, j, tree) && j <= |runs|
    ensures Proven(o, home, runs, |runs|, tree)
  {
    SameCodeEquivalence(tree, tree, tree);
    ProvenCarries(o, home, runs, j, |runs|, tree, tree);
  }

  // ---- a run that cannot vouch ---------------------------------------------

  /**
    The filter is what this rests on: a green run of another trigger or another repository may upload a
    record of any tree. The search over unfiltered rows takes it, with nothing proven; the gate does not.
   */
  lemma OutsiderCannotVouch(o: Objects, home: string, outsider: Run, sha: string)
    requires !Ours(outsider, home) && outsider.green && outsider.sha in o.treeIds
    requires Has(o, sha) && o.treeIds[outsider.sha] == o.treeIds[sha] && outsider.sha != sha
    ensures var tree := o.treeIds[sha];
            var row := ApiRun(Some(outsider.id), outsider.event, "completed", "success", outsider.repository,
                              Some(outsider.sha), tree);
            && History(o, home, [outsider]) && TrueListing(o, [outsider], Some([row]))
            && TrueArtifacts(home, [outsider], Uploaded(outsider.id, tree))
            && FindRecordedRun([row], tree, Uploaded(outsider.id, tree)) ==
               Ok(Some(GreenRun(outsider.id, outsider.sha, false)))
            && !Proven(o, home, [outsider], 1, TreeOf(o, sha))
            && FindGreenRun(Some([row]), Uploaded(outsider.id, tree), home, sha, tree) == Ok(None)
  {
    var tree := o.treeIds[sha];
    var row := ApiRun(Some(outsider.id), outsider.event, "completed", "success", outsider.repository,
                      Some(outsider.sha), tree);
    assert IsRow(o, [outsider][0], row);
    assert Uploaded(outsider.id, tree)(outsider.id).value[0].name == RecordName(tree);
    assert FindRecordedRun([row], tree, Uploaded(outsider.id, tree)) ==
           Ok(Some(GreenRun(outsider.id, outsider.sha, false)));
    assert GreenPushRuns([row][1..], home) == [];
    assert GreenPushRuns([row], home) == [];
  }

  /** One run's artifacts hold the record of `tree`, and no other run has any. */
  function Uploaded(id: int, tree: string): Artifacts {
    (other: int) => if other == id then Some([Artifact(RecordName(tree), false)]) else None
  }

  // ---- a history that skips ------------------------------------------------

  /** Two commits and their trees. */
  datatype Pair = Pair(a: string, b: string, first: Tree, second: Tree)

  ghost predicate GoodPair(p: Pair) {
    IsSha(p.a) && IsSha(p.b) && p.a != p.b && SameCode(p.first, p.second)
  }

  function ObjectsOf(p: Pair): Objects {
    Objects(map[p.a := "1", p.b := "2"], map["1" := p.first, "2" := p.second])
  }

  function Reported(code: string, green: string, heavy: string): Needs {
    map[CHANGES_JOB := Job("success", map["code" := code, "green" := green]), TEST_JOB := Job(heavy, map[]),
        TWICE_GREEN_JOB := Job("skipped", map[])]
  }

  const HOME := "eawf"

  /** The row of the first push, below the row of a fork's push of the same commit. */
  function Listing(p: Pair): Option<seq<ApiRun>> {
    Some([ApiRun(Some(9), PUSH_EVENT, "completed", "success", "fork", Some(p.a), "1"),
          ApiRun(Some(1), PUSH_EVENT, "completed", "success", HOME, Some(p.a), "1")])
  }

  function FirstRun(p: Pair): Run {
    Run(1, PUSH_EVENT, HOME, p.a, true, true, Some(TreeRecord("1", p.a, "", None)), Reported("true", "", "success"),
        PushView("main", HOME, None, map[], p.first),
        RecordView(PUSH_EVENT, "main", p.a, HOME, map[p.a := "1"], None, Uploaded(1, "1")))
  }

  /** A fork's push: green, tested or not, and free to upload anything. */
  function ForkRun(p: Pair): Run {
    FirstRun(p).(id := 9, repository := "fork", tested := false)
  }

  function SecondRun(p: Pair): Run {
    Run(2, PUSH_EVENT, HOME, p.b, true, false, Some(TreeRecord("2", p.b, "1", Some(1))),
        Reported("false", p.a, "skipped"),
        PushView("main", HOME, Listing(p), map[p.a := p.first], p.second),
        RecordView(PUSH_EVENT, "main", p.b, HOME, map[p.a := "1", p.b := "2"], Listing(p), Uploaded(1, "1")))
  }

  lemma NamesApart()
    ensures CHANGES_JOB != TEST_JOB && TEST_JOB != TWICE_GREEN_JOB && CHANGES_JOB != TWICE_GREEN_JOB
    ensures "code" != "green" && "success" != "skipped" && "true" != "false" && "1" != "2"
    ensures !OnReleaseTrain("main") && HOME != "fork" && HOME != ""
  {
    assert CHANGES_JOB[0] == 'c' && TEST_JOB[1] == 'e' && TWICE_GREEN_JOB[1] == 'w';
    assert TEST_JOB[0] == 't' && TWICE_GREEN_JOB[0] == 't';
    assert "code"[0] != "green"[0] && "success"[1] != "skipped"[1] && "true"[0] != "false"[0] && "1"[0] != "2"[0];
    assert HOME[0] == 'e' && "fork"[0] == 'f';
    assert RELEASE_REF[0] == 'r' && (RELEASE_REF + "/")[0] == 'r' && "main"[0] == 'm';
  }

  lemma FirstPlan(p: Pair)
    requires GoodPair(p)
    ensures PlanRecord(FirstRun(p).needs, PUSH_EVENT, "main") == Ok("")
    ensures Output(FirstRun(p).needs, "code") == "true" && Output(FirstRun(p).needs, "green") == ""
  {
    NamesApart();
  }

  lemma FirstRuled(p: Pair)
    requires GoodPair(p)
    ensures TrueRun(FirstRun(p))
  {
    NamesApart();
    FirstPlan(p);
  }

  lemma FirstFollows(p: Pair)
    requires GoodPair(p)
    ensures Follows(ObjectsOf(p), HOME, [], FirstRun(p)) && !Ours(ForkRun(p), HOME)
  {
    GitIsTrue(p);
    FirstRuled(p);
    assert HOME[0] == 'e' && "fork"[0] == 'f';
  }

  lemma GitIsTrue(p: Pair)
    requires GoodPair(p)
    ensures TrueGit(ObjectsOf(p), HOME, FirstRun(p)) && TrueGit(ObjectsOf(p), HOME, SecondRun(p))
  {
    assert "1"[0] != "2"[0];
  }

  lemma SecondVerdict(p: Pair)
    requires GoodPair(p)
    ensures Classify(PUSH_EVENT, SecondRun(p).view) == Verdict(false, p.a)
  {
    NamesApart();
    NoCodePaths(p.first, p.second);
    var runs := Listing(p).value;
    assert !IsBaseline(runs[0], HOME) && IsBaseline(runs[1], HOME);
    assert LastGreenSha(runs, HOME) == LastGreenSha(runs[1..], HOME) == Some(p.a);
  }

  lemma SecondPlan(p: Pair)
    requires GoodPair(p)
    ensures PlanRecord(SecondRun(p).needs, PUSH_EVENT, "main") == Ok(p.a)
    ensures Output(SecondRun(p).needs, "code") == "false" && Output(SecondRun(p).needs, "green") == p.a
  {
    NamesApart();
  }

  lemma SecondFound(p: Pair)
    ensures FindRecordedRun(GreenPushRuns(Listing(p).value, HOME), "1", Uploaded(1, "1")) ==
            Ok(Some(GreenRun(1, p.a, false)))
  {
    NamesApart();
    var runs := Listing(p).value;
    assert GreenPushRuns(runs[1..][1..], HOME) == [];
    assert GreenPushRuns(runs[1..], HOME) == [runs[1]];
    assert GreenPushRuns(runs, HOME) == [runs[1]];
    assert Uploaded(1, "1")(1).value[0].name == RecordName("1");
  }

  lemma SecondRecord(p: Pair)
    requires GoodPair(p)
    ensures BuildRecord(SecondRun(p).recordView, SecondRun(p).needs) == Ok(TreeRecord("2", p.b, "1", Some(1)))
  {
    SecondPlan(p);
    SecondFound(p);
  }

  lemma SecondAnswered(p: Pair)
    requires GoodPair(p)
    ensures TrueListing(ObjectsOf(p), [FirstRun(p), ForkRun(p)], Listing(p)) && AnswersPushQuery(Listing(p))
    ensures TrueArtifacts(HOME, [FirstRun(p), ForkRun(p)], Uploaded(1, "1"))
  {
    NamesApart();
    var prior := [FirstRun(p), ForkRun(p)];
    assert IsRow(ObjectsOf(p), prior[0], Listing(p).value[1]);
    assert IsRow(ObjectsOf(p), prior[1], Listing(p).value[0]);
    forall j, tree: string | 0 <= j < |prior| && Ours(prior[j], HOME)
      ensures Recorded(Uploaded(1, "1"), prior[j].id, tree) ==>
                prior[j].recorded.Some? && prior[j].recorded.value.tree == tree
    {
      assert prior[j] == FirstRun(p);
      assert RecordName(tree)[|RECORD_PREFIX|..] == tree && RecordName("1")[|RECORD_PREFIX|..] == "1";
    }
  }

  lemma SecondRuled(p: Pair)
    requires GoodPair(p)
    ensures TrueRun(SecondRun(p))
  {
    NamesApart();
    SecondVerdict(p);
    SecondPlan(p);
    SecondRecord(p);
  }

  lemma SecondFollows(p: Pair)
    requires GoodPair(p)
    ensures Follows(ObjectsOf(p), HOME, [FirstRun(p), ForkRun(p)], SecondRun(p))
  {
    GitIsTrue(p);
    SecondRuled(p);
    SecondAnswered(p);
  }

  /**
    Skipping happens: for any two commits that agree on the code, the second push skips past a fork's
    row and records its own tree.
   */
  lemma SkippingHistory(p: Pair)
    requires GoodPair(p)
    ensures History(ObjectsOf(p), HOME, [FirstRun(p), ForkRun(p), SecondRun(p)])
    ensures !SecondRun(p).tested && SecondRun(p).recorded == Some(TreeRecord("2", p.b, "1", Some(1)))
  {
    FirstFollows(p);
    SecondFollows(p);
    ThreeFollow(ObjectsOf(p), HOME, FirstRun(p), ForkRun(p), SecondRun(p));
  }

  lemma ThreeFollow(o: Objects, home: string, first: Run, outsider: Run, second: Run)
    requires Follows(o, home, [], first) && !Ours(outsider, home) && Follows(o, home, [first, outsider], second)
    ensures History(o, home, [first, outsider, second])
  {
    var runs := [first, outsider, second];
    assert runs[..0] == [] && runs[..2] == [first, outsider];
  }
}
