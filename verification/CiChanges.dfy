/** Whether a push must run the heavy test jobs, judged against the last green tree. */
module CiChanges {
  import opened Values

  // ---- trees and their differences -----------------------------------------

  datatype Kind = Regular | Symlink | Gitlink

  /** A tracked path: its object kind, and its mode and bytes. */
  datatype Entry = Entry(kind: Kind, content: string)

  type Tree = map<string, Entry>

  /** One `git diff --name-status --no-renames` row. */
  datatype Change = Change(status: char, path: string)

  predicate Differs(a: Tree, b: Tree, path: string) {
    !((path in a <==> path in b) && (path in a && path in b ==> a[path] == b[path]))
  }

  function StatusOf(a: Tree, b: Tree, path: string): char {
    if path !in a then 'A'
    else if path !in b then 'D'
    else if a[path].kind != b[path].kind then 'T'
    else 'M'
  }

  /** Every path that differs between two trees, with its status. */
  function Diff(a: Tree, b: Tree): set<Change> {
    set p | p in a.Keys + b.Keys && Differs(a, b, p) :: Change(StatusOf(a, b, p), p)
  }

  /** Every path that differs is listed once, as added, deleted, of another kind, or modified. */
  lemma DiffExact(a: Tree, b: Tree, path: string)
    ensures Change('A', path) in Diff(a, b) <==> path !in a && path in b
    ensures Change('D', path) in Diff(a, b) <==> path in a && path !in b
    ensures Change('T', path) in Diff(a, b) <==> path in a && path in b && a[path].kind != b[path].kind
    ensures Change('M', path) in Diff(a, b) <==>
            path in a && path in b && a[path].kind == b[path].kind && a[path] != b[path]
  {
  }

  const BOOKKEEPING_FILES: set<string> := {".secrets.baseline"}
  const STATE_FILE := ".ea/state.json"
  const STATE_STORE_PREFIX := ".ea/store/"

  predicate IsBookkeeping(path: string) {
    path in BOOKKEEPING_FILES
  }

  predicate IsStatePath(path: string) {
    path == STATE_FILE || STATE_STORE_PREFIX <= path
  }

  /** An in-place edit of a tracked state file, which the commit-policy census cannot see. */
  predicate IsStateContentEdit(status: char, path: string) {
    status == 'M' && IsStatePath(path)
  }

  /** `_code_paths`: the paths whose change is not bookkeeping. */
  function CodePaths(changes: set<Change>): set<string> {
    set c | c in changes && !IsBookkeeping(c.path) && !IsStateContentEdit(c.status, c.path) :: c.path
  }

  /** At `path` the two trees hold the same, up to an in-place edit of the tracked state. */
  ghost predicate SameAt(a: Tree, b: Tree, path: string) {
    && (path in a <==> path in b)
    && (path in a && path in b ==>
          || a[path] == b[path]
          || (a[path].kind == b[path].kind && (path == ".ea/state.json" || ".ea/store/" <= path)))
  }

  /** The two trees agree on everything the heavy jobs and the census exercise. */
  ghost predicate SameCode(a: Tree, b: Tree) {
    forall path :: path != ".secrets.baseline" ==> SameAt(a, b, path)
  }

  /** Finding no code path in the diff is agreeing on the code. */
  lemma NoCodePaths(a: Tree, b: Tree)
    ensures CodePaths(Diff(a, b)) == {} <==> SameCode(a, b)
  {
    if CodePaths(Diff(a, b)) == {} {
      forall path | path != ".secrets.baseline" ensures SameAt(a, b, path) {
        if Differs(a, b, path) {
          var c := Change(StatusOf(a, b, path), path);
          assert c in Diff(a, b);
          assert !IsStateContentEdit(c.status, c.path) ==> c.path in CodePaths(Diff(a, b));
        }
      }
    }
    if SameCode(a, b) {
      forall c | c in Diff(a, b) && !IsBookkeeping(c.path) ensures IsStateContentEdit(c.status, c.path) {
        assert SameAt(a, b, c.path);
      }
    }
  }

  /** Agreeing on the code is an equivalence, so a skip may be taken against a skip. */
  lemma SameCodeEquivalence(a: Tree, b: Tree, c: Tree)
    ensures SameCode(a, a)
    ensures SameCode(a, b) ==> SameCode(b, a)
    ensures SameCode(a, b) && SameCode(b, c) ==> SameCode(a, c)
  {
    if SameCode(a, b) {
      forall path | path != ".secrets.baseline" ensures SameAt(b, a, path) {
        assert SameAt(a, b, path);
      }
    }
    if SameCode(a, b) && SameCode(b, c) {
      forall path | path != ".secrets.baseline" ensures SameAt(a, c, path) {
        assert SameAt(a, b, path) && SameAt(b, c, path);
      }
    }
  }

  // ---- the baseline --------------------------------------------------------

  /** A run as the API lists it; a field the response lacks reads as an empty text. */
  datatype ApiRun = ApiRun(id: Option<int>, event: string, status: string, conclusion: string,
                           repository: string, headSha: Option<string>, treeId: string)

  predicate IsHex(c: char) {
    '0' <= c <= '9' || 'a' <= c <= 'f'
  }

  /** A full SHA-1 or SHA-256 object name. */
  predicate IsSha(s: string) {
    (|s| == 40 || |s| == 64) && forall i | 0 <= i < |s| :: IsHex(s[i])
  }

  /** Forty or sixty-four lower-case hexadecimal digits. */
  ghost predicate ObjectName(s: string) {
    |s| in {40, 64} && forall c | c in s :: c in "0123456789abcdef"
  }

  lemma ShaExact(s: string)
    ensures IsSha(s) <==> ObjectName(s)
  {
    forall c ensures IsHex(c) <==> c in "0123456789abcdef" {
      HexDigit(c);
    }
    assert forall i | 0 <= i < |s| :: s[i] in s;
  }

  lemma HexDigit(c: char)
    ensures IsHex(c) <==> c in "0123456789abcdef"
  {
    var digits := "0123456789abcdef";
    assert forall i | 0 <= i < |digits| :: IsHex(digits[i]);
    if '0' <= c <= '9' {
      assert digits[c as int - '0' as int] == c;
    } else if 'a' <= c <= 'f' {
      assert digits[c as int - 'a' as int + 10] == c;
    }
  }

  predicate IsBaseline(run: ApiRun, repository: string) {
    && run.conclusion == "success" && run.repository == repository
    && run.headSha.Some? && IsSha(run.headSha.value)
  }

  /** A successful run of this repository on a named commit. */
  ghost predicate Green(run: ApiRun, repository: string, sha: string) {
    run.conclusion == "success" && run.repository == repository && run.headSha == Some(sha) && ObjectName(sha)
  }

  /** The newest green run, in listing order, is on `sha`. */
  ghost predicate NewestGreen(runs: seq<ApiRun>, repository: string, sha: string) {
    exists i | 0 <= i < |runs| :: Green(runs[i], repository, sha) && NoneGreen(runs, repository, i)
  }

  /** None of the first `n` runs is green. */
  ghost predicate NoneGreen(runs: seq<ApiRun>, repository: string, n: int)
    requires n <= |runs|
  {
    forall i, sha | 0 <= i < n :: !Green(runs[i], repository, sha)
  }

  /** `last_green_sha`: the newest successful run of this repository, in listing order. */
  function LastGreenSha(runs: seq<ApiRun>, repository: string): Option<string> {
    if runs == [] then None
    else if IsBaseline(runs[0], repository) then runs[0].headSha
    else LastGreenSha(runs[1..], repository)
  }

  /** The baseline is the commit of the newest green run, and there is none exactly when no run is green. */
  lemma {:induction false} NewestIsBaseline(runs: seq<ApiRun>, repository: string)
    ensures LastGreenSha(runs, repository).None? <==> NoneGreen(runs, repository, |runs|)
    ensures forall sha :: LastGreenSha(runs, repository) == Some(sha) <==> NewestGreen(runs, repository, sha)
  {
    if runs != [] {
      var rest := runs[1..];
      NewestIsBaseline(rest, repository);
      forall sha ensures IsBaseline(runs[0], repository) && runs[0].headSha == Some(sha) <==>
                         Green(runs[0], repository, sha) {
        ShaExact(sha);
      }
      if IsBaseline(runs[0], repository) {
        var sha := runs[0].headSha.value;
        assert NewestGreen(runs, repository, sha);
      } else {
        forall sha ensures NewestGreen(runs, repository, sha) <==> NewestGreen(rest, repository, sha) {
          NewestBehind(runs, repository, sha);
        }
        assert forall i, sha | 0 < i < |runs| ::
                 Green(runs[i], repository, sha) <==> Green(rest[i - 1], repository, sha);
      }
    }
  }

  lemma NewestBehind(runs: seq<ApiRun>, repository: string, sha: string)
    requires runs != [] && forall x :: !Green(runs[0], repository, x)
    ensures NewestGreen(runs, repository, sha) <==> NewestGreen(runs[1..], repository, sha)
  {
    var rest := runs[1..];
    if NewestGreen(runs, repository, sha) {
      var i :| 0 <= i < |runs| && Green(runs[i], repository, sha) && NoneGreen(runs, repository, i);
      assert rest[i - 1] == runs[i];
    }
    if NewestGreen(rest, repository, sha) {
      var i :| 0 <= i < |rest| && Green(rest[i], repository, sha) && NoneGreen(rest, repository, i);
      assert runs[i + 1] == rest[i];
    }
  }

  /** Whether the heavy jobs must run, and the green commit that was compared with. */
  datatype Verdict = Verdict(code: bool, green: string)

  /** What the changes job of a push sees: its branch, the runs lookup, and the commits git can read. */
  datatype PushView = PushView(refName: string, repository: string, listing: Option<seq<ApiRun>>,
                               commits: map<string, Tree>, head: Tree)

  /** `classify` on a push: every failure to establish the baseline runs the full matrix. */
  function ClassifyPush(view: PushView): Verdict {
    if view.refName == "" || view.repository == "" || view.listing.None? then Verdict(true, "")
    else
      match LastGreenSha(view.listing.value, view.repository)
      case None => Verdict(true, "")
      case Some(green) =>
        if green !in view.commits then Verdict(true, "")
        else Verdict(CodePaths(Diff(view.commits[green], view.head)) != {}, green)
  }

  /** A scheduled or dispatched run re-proves everything; an unknown event has no baseline rule. */
  function Classify(event: string, view: PushView): Verdict {
    if event == "push" then ClassifyPush(view) else Verdict(true, "")
  }

  /** The commit a push is judged against: readable, and that of the newest green run of its own repository. */
  ghost predicate Established(view: PushView, green: string) {
    && view.refName != "" && view.repository != "" && view.listing.Some?
    && NewestGreen(view.listing.value, view.repository, green) && green in view.commits
  }

  lemma PushVerdict(view: PushView)
    ensures var v := ClassifyPush(view);
            && (forall green :: Established(view, green) ==>
                  v.green == green && (!v.code <==> SameCode(view.commits[green], view.head)))
            && ((forall green :: !Established(view, green)) ==> v == Verdict(true, ""))
  {
    if view.listing.Some? {
      NewestIsBaseline(view.listing.value, view.repository);
    }
    forall green | Established(view, green)
      ensures ClassifyPush(view).green == green
      ensures !ClassifyPush(view).code <==> SameCode(view.commits[green], view.head) {
      NoCodePaths(view.commits[green], view.head);
    }
  }

  /** A skip is a push that agrees on the code with the commit of the newest green run of its repository. */
  lemma SkipMeansSameCode(event: string, view: PushView)
    ensures !Classify(event, view).code <==>
            event == "push" && exists green :: Established(view, green) && SameCode(view.commits[green], view.head)
    ensures !Classify(event, view).code ==> Established(view, Classify(event, view).green)
    ensures event != "push" ==> Classify(event, view) == Verdict(true, "")
  {
    PushVerdict(view);
    if event == "push" && !Classify(event, view).code {
      assert exists green :: Established(view, green);
    }
  }

  /** What a skip names: a listed green run, and a tree that agrees with the tested one on the code. */
  lemma SkipNames(event: string, view: PushView) returns (r: ApiRun)
    requires !Classify(event, view).code
    ensures var green := Classify(event, view).green;
            && event == "push" && view.listing.Some? && r in view.listing.value && Green(r, view.repository, green)
            && green in view.commits && SameCode(view.commits[green], view.head)
  {
    SkipMeansSameCode(event, view);
    PushVerdict(view);
    var green := Classify(event, view).green;
    var i :| 0 <= i < |view.listing.value| && Green(view.listing.value[i], view.repository, green);
    r := view.listing.value[i];
  }

  /** Over an established baseline a push skips exactly when it agrees with it; without one it never does. */
  lemma SameCodeSkips(view: PushView, green: string)
    requires Established(view, green)
    ensures !Classify("push", view).code <==> SameCode(view.commits[green], view.head)
    ensures Classify("push", view).green == green
  {
    PushVerdict(view);
  }
}
