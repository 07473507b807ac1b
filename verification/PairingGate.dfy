/** The commit stream of `git log --name-status -z`: parsing undoes printing. */
module PairingGate {
  import opened Text
  import opened Values

  const SENTINEL := "COMMIT"

  const NUL: char := '\0'

  /** One parsed commit; a changed file carries its status letter and its (destination) path. */
  datatype CommitRecord = CommitRecord(sha: string, subject: string, body: string, changed: seq<(char, string)>)

  datatype Header = Header(sha: string, subject: string, body: string)

  // ---- the parser ----------------------------------------------------------

  /** The record of the commit being read, if one was opened. */
  function Flush(header: Option<Header>, changed: seq<(char, string)>): seq<CommitRecord> {
    match header
    case None => []
    case Some(h) => [CommitRecord(h.sha, h.subject, h.body, changed)]
  }

  function Prepend(records: seq<CommitRecord>, rest: Option<seq<CommitRecord>>): Option<seq<CommitRecord>> {
    match rest
    case None => None
    case Some(more) => Some(records + more)
  }

  lemma PrependTwice(a: seq<CommitRecord>, b: seq<CommitRecord>, rest: Option<seq<CommitRecord>>)
    ensures Prepend(a, Prepend(b, rest)) == Prepend(a + b, rest)
    ensures Prepend([], rest) == rest
  {
    if rest.Some? {
      assert a + (b + rest.value) == (a + b) + rest.value;
      assert [] + rest.value == rest.value;
    }
  }

  /** The records read from `tokens` on; nothing when a record is cut short. */
  function ParseFrom(tokens: seq<string>, header: Option<Header>, changed: seq<(char, string)>)
    : Option<seq<CommitRecord>>
    decreases |tokens|
  {
    if tokens == [] then Some(Flush(header, changed))
    else if tokens[0] == SENTINEL then
      if |tokens| < 4 then None
      else Prepend(Flush(header, changed),
                   ParseFrom(tokens[4..], Some(Header(tokens[1], tokens[2], tokens[3])), []))
    else
      var status := Strip(tokens[0]);
      if status == "" then ParseFrom(tokens[1..], header, changed)
      else if status[0] == 'R' || status[0] == 'C' then
        if |tokens| < 3 then None
        else ParseFrom(tokens[3..], header, changed + [(status[0], tokens[2])])
      else if |tokens| < 2 then None
      else ParseFrom(tokens[2..], header, changed + [(status[0], tokens[1])])
  }

  /** `_parse_log`: one pass over the NUL-delimited tokens; nothing where the source indexes past the end. */
  method ParseLog(raw: string) returns (r: Option<seq<CommitRecord>>)
    ensures r == ParseFrom(Split(raw, NUL), None, [])
  {
    var tokens := Split(raw, NUL);
    var records: seq<CommitRecord> := [];
    var header: Option<Header> := None;
    var changed: seq<(char, string)> := [];
    var index := 0;
    assert tokens[0..] == tokens;
    PrependTwice([], [], ParseFrom(tokens, None, []));
    while index < |tokens|
      invariant 0 <= index <= |tokens|
      invariant ParseFrom(tokens, None, []) == Prepend(records, ParseFrom(tokens[index..], header, changed))
    {
      ghost var left := tokens[index..];
      if tokens[index] == SENTINEL {
        if |tokens| < index + 4 {
          return None;
        }
        assert left[4..] == tokens[index + 4..];
        PrependTwice(records, Flush(header, changed),
                     ParseFrom(left[4..], Some(Header(left[1], left[2], left[3])), []));
        records := records + Flush(header, changed);
        header := Some(Header(tokens[index + 1], tokens[index + 2], tokens[index + 3]));
        changed, index := [], index + 4;
        continue;
      }
      var status := Strip(tokens[index]);
      if status == "" {
        assert left[1..] == tokens[index + 1..];
        index := index + 1;
        continue;
      }
      if status[0] == 'R' || status[0] == 'C' {
        if |tokens| < index + 3 {
          return None;
        }
        assert left[3..] == tokens[index + 3..];
        changed, index := changed + [(status[0], tokens[index + 2])], index + 3;
      } else {
        if |tokens| < index + 2 {
          return None;
        }
        assert left[2..] == tokens[index + 2..];
        changed, index := changed + [(status[0], tokens[index + 1])], index + 2;
      }
    }
    return Some(records + Flush(header, changed));
  }

  // ---- the printer ---------------------------------------------------------

  /** One changed file as git lists it: a rename or copy names the old path too. */
  datatype Change =
    | Touched(code: char, score: string, path: string)
    | Moved(code: char, score: string, source: string, path: string)

  /** A commit, and how many separator tokens git puts after its entries. */
  datatype Commit = Commit(sha: string, subject: string, body: string, changes: seq<Change>, gap: nat)

  predicate Digits(s: string) {
    forall i | 0 <= i < |s| :: '0' <= s[i] <= '9'
  }

  /** A status letter, `R` or `C` exactly on a rename or copy, and a similarity score. */
  predicate GoodChange(c: Change) {
    && !IsSpace(c.code) && c.code != NUL && Digits(c.score) && NUL !in c.path
    && (c.Moved? <==> c.code == 'R' || c.code == 'C')
    && (c.Moved? ==> NUL !in c.source)
  }

  /** Any NUL-free texts, and nothing else, make a commit. */
  predicate GoodCommit(c: Commit) {
    && NUL !in c.sha && NUL !in c.subject && NUL !in c.body
    && forall i | 0 <= i < |c.changes| :: GoodChange(c.changes[i])
  }

  /** The entry's tokens; the first of a commit carries git's leading newline. */
  function ChangeTokens(c: Change, first: bool): seq<string> {
    var status := (if first then "\n" else "") + [c.code] + c.score;
    match c
    case Touched(_, _, path) => [status, path]
    case Moved(_, _, source, path) => [status, source, path]
  }

  function ChangesTokens(changes: seq<Change>, first: bool): seq<string> {
    if changes == [] then []
    else ChangeTokens(changes[0], first) + ChangesTokens(changes[1..], false)
  }

  function Blanks(n: nat): seq<string> {
    if n == 0 then [] else [""] + Blanks(n - 1)
  }

  function CommitTokens(c: Commit): seq<string> {
    ["COMMIT", c.sha, c.subject, c.body] + (ChangesTokens(c.changes, true) + Blanks(c.gap))
  }

  function LogTokens(commits: seq<Commit>): seq<string> {
    if commits == [] then [""] else CommitTokens(commits[0]) + LogTokens(commits[1..])
  }

  /** The raw stream: every field ends in a NUL. */
  function PrintLog(commits: seq<Commit>): string {
    Join(LogTokens(commits), NUL)
  }

  function Listed(changes: seq<Change>): seq<(char, string)> {
    seq(|changes|, i requires 0 <= i < |changes| => (changes[i].code, changes[i].path))
  }

  /** The record a commit reads back as: every change under its letter, at its destination path. */
  function RecordOf(c: Commit): CommitRecord {
    CommitRecord(c.sha, c.subject, c.body, Listed(c.changes))
  }

  function RecordsOf(commits: seq<Commit>): seq<CommitRecord> {
    seq(|commits|, i requires 0 <= i < |commits| => RecordOf(commits[i]))
  }

  // ---- reading back --------------------------------------------------------

  /** A status token strips to its letter and score, and is never taken for the sentinel. */
  lemma StatusReads(code: char, score: string, first: bool)
    requires !IsSpace(code) && Digits(score)
    ensures var status := (if first then "\n" else "") + [code] + score;
            status != SENTINEL && Strip(status) == [code] + score
  {
    var text := [code] + score;
    var status := (if first then "\n" else "") + text;
    assert status == (if first then "\n" else "") + [code] + score;
    assert StripLeft(text) == text;
    if first {
      assert IsSpace(status[0]) && status[1..] == text;
      assert SENTINEL[0] == 'C';
    } else {
      assert status == text;
      assert SENTINEL[1] == 'O';
      if |score| >= 1 {
        assert text[1] == score[0];
      }
    }
    assert StripRight(text) == text by {
      if score != "" {
        assert text[|text| - 1] == score[|score| - 1];
      }
    }
  }

  lemma ChangeReads(c: Change, first: bool, rest: seq<string>, header: Option<Header>, changed: seq<(char, string)>)
    requires GoodChange(c)
    ensures ParseFrom(ChangeTokens(c, first) + rest, header, changed) ==
            ParseFrom(rest, header, changed + [(c.code, c.path)])
  {
    var tokens := ChangeTokens(c, first) + rest;
    StatusReads(c.code, c.score, first);
    if c.Moved? {
      assert tokens[3..] == rest;
    } else {
      assert tokens[2..] == rest;
    }
  }

  lemma {:induction false} ChangesRead(changes: seq<Change>, first: bool, rest: seq<string>,
                                       header: Option<Header>, changed: seq<(char, string)>)
    requires forall i | 0 <= i < |changes| :: GoodChange(changes[i])
    ensures ParseFrom(ChangesTokens(changes, first) + rest, header, changed) ==
            ParseFrom(rest, header, changed + Listed(changes))
    decreases |changes|
  {
    if changes == [] {
      assert [] + rest == rest && changed + Listed(changes) == changed;
    } else {
      var more := ChangesTokens(changes[1..], false);
      assert ChangesTokens(changes, first) + rest == ChangeTokens(changes[0], first) + (more + rest);
      ChangeReads(changes[0], first, more + rest, header, changed);
      var now := changed + [(changes[0].code, changes[0].path)];
      ChangesRead(changes[1..], false, rest, header, now);
      assert now + Listed(changes[1..]) == changed + Listed(changes);
    }
  }

  lemma {:induction false} BlanksRead(n: nat, rest: seq<string>, header: Option<Header>, changed: seq<(char, string)>)
    ensures ParseFrom(Blanks(n) + rest, header, changed) == ParseFrom(rest, header, changed)
  {
    if n == 0 {
      assert [] + rest == rest;
    } else {
      var tokens := Blanks(n) + rest;
      assert tokens[0] == "" && tokens[1..] == Blanks(n - 1) + rest;
      assert "" != SENTINEL && Strip("") == "";
      BlanksRead(n - 1, rest, header, changed);
    }
  }

  lemma CommitReads(c: Commit, rest: seq<string>, header: Option<Header>, changed: seq<(char, string)>)
    requires GoodCommit(c)
    ensures ParseFrom(CommitTokens(c) + rest, header, changed) ==
            Prepend(Flush(header, changed),
                    ParseFrom(rest, Some(Header(c.sha, c.subject, c.body)), Listed(c.changes)))
  {
    var tokens := CommitTokens(c) + rest;
    var begun := Some(Header(c.sha, c.subject, c.body));
    var entries := ChangesTokens(c.changes, true);
    assert tokens[4..] == entries + (Blanks(c.gap) + rest);
    ChangesRead(c.changes, true, Blanks(c.gap) + rest, begun, []);
    assert [] + Listed(c.changes) == Listed(c.changes);
    BlanksRead(c.gap, rest, begun, Listed(c.changes));
  }

  lemma {:induction false} LogReads(commits: seq<Commit>, header: Option<Header>, changed: seq<(char, string)>)
    requires forall i | 0 <= i < |commits| :: GoodCommit(commits[i])
    ensures ParseFrom(LogTokens(commits), header, changed) == Some(Flush(header, changed) + RecordsOf(commits))
    decreases |commits|
  {
    if commits == [] {
      BlanksRead(1, [], header, changed);
      assert Blanks(1) + [] == [""];
      assert Flush(header, changed) + RecordsOf(commits) == Flush(header, changed);
    } else {
      var c := commits[0];
      CommitReads(c, LogTokens(commits[1..]), header, changed);
      LogReads(commits[1..], Some(Header(c.sha, c.subject, c.body)), Listed(c.changes));
      assert [RecordOf(c)] + RecordsOf(commits[1..]) == RecordsOf(commits);
    }
  }

  lemma {:induction false} TokensNulFree(commits: seq<Commit>)
    requires forall i | 0 <= i < |commits| :: GoodCommit(commits[i])
    ensures LogTokens(commits) != [] && forall token | token in LogTokens(commits) :: NUL !in token
    decreases |commits|
  {
    if commits != [] {
      TokensNulFree(commits[1..]);
      ChangesNulFree(commits[0].changes, true);
      BlanksNulFree(commits[0].gap);
    }
  }

  lemma {:induction false} ChangesNulFree(changes: seq<Change>, first: bool)
    requires forall i | 0 <= i < |changes| :: GoodChange(changes[i])
    ensures forall token | token in ChangesTokens(changes, first) :: NUL !in token
    decreases |changes|
  {
    if changes != [] {
      ChangesNulFree(changes[1..], false);
    }
  }

  lemma {:induction false} BlanksNulFree(n: nat)
    ensures forall token | token in Blanks(n) :: NUL !in token
  {
    if n > 0 {
      BlanksNulFree(n - 1);
    }
  }

  /**
    Parsing undoes printing: for any NUL-free subjects, bodies and paths, one literally named
    `COMMIT` included, the stream reads back as the same commits, renames and copies on their
    destination path.
   */
  lemma ParsePrint(commits: seq<Commit>)
    requires forall i | 0 <= i < |commits| :: GoodCommit(commits[i])
    ensures ParseFrom(Split(PrintLog(commits), NUL), None, []) == Some(RecordsOf(commits))
  {
    TokensNulFree(commits);
    SplitJoin(LogTokens(commits), NUL);
    LogReads(commits, None, []);
    assert [] + RecordsOf(commits) == RecordsOf(commits);
  }
}
