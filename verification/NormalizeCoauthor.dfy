/** One co-author trailer line: how it is read, printed and made canonical. */
module CoauthorTrailer {
  import opened Text
  import opened Values

  const KEY := "co-authored-by:"

  const PREFIX := "Co-Authored-By: "

  /** The registered runtimes, by e-mail; every registered line is the printed trailer of its row. */
  const RUNTIMES: map<string, string> :=
    map["noreply@anthropic.com" := "Claude", "noreply@openai.com" := "Codex"]

  datatype Trailer = Trailer(name: string, email: string)

  const NEWLINE := '\n'

  /** `_parse_trailer`: the name and e-mail of a trailer line, trimmed, when both are there. */
  function Parse(line: string): Option<Trailer> {
    if |line| < |KEY| || Lower(line[..|KEY|]) != KEY then None else ParseName(line[|KEY|..])
  }

  /** The name runs to the first `<`. */
  function ParseName(rest: string): Option<Trailer> {
    var i := IndexOf(rest, '<');
    if i == |rest| then None else ParseEmail(Strip(rest[..i]), rest[i + 1..])
  }

  /** The e-mail runs to the first `>`, and only white space may follow. */
  function ParseEmail(name: string, tail: string): Option<Trailer> {
    var j := IndexOf(tail, '>');
    if j == |tail| || !Blank(tail[j + 1..]) then None
    else
      var email := Strip(tail[..j]);
      if name == "" || email == "" then None else Some(Trailer(name, email))
  }

  function Print(t: Trailer): string {
    PREFIX + t.name + " <" + t.email + ">"
  }

  /** The trailer a line stands for: the e-mail in lower case, a registered runtime by its name. */
  function Canonical(t: Trailer): Trailer {
    var email := Lower(t.email);
    Trailer(if email in RUNTIMES then RUNTIMES[email] else t.name, email)
  }

  /** What a parsed trailer looks like. */
  predicate GoodTrailer(t: Trailer) {
    && t.name != "" && Trimmed(t.name) && '<' !in t.name
    && t.email != "" && Trimmed(t.email) && '>' !in t.email
    && NEWLINE !in t.name && NEWLINE !in t.email
  }

  lemma ParseGood(line: string)
    requires NEWLINE !in line && Parse(line).Some?
    ensures GoodTrailer(Parse(line).value)
  {
    var rest := line[|KEY|..];
    var i := IndexOf(rest, '<');
    var tail := rest[i + 1..];
    var j := IndexOf(tail, '>');
    StripTrims(rest[..i]);
    StripTrims(tail[..j]);
  }

  lemma EmailReads(name: string, email: string)
    requires name != "" && email != "" && Trimmed(email) && '>' !in email
    ensures ParseEmail(name, email + ">") == Some(Trailer(name, email))
  {
    var tail := email + ">";
    IndexOfHead(email, '>', "");
    assert email + ['>'] + "" == tail;
    assert tail[..|email|] == email && tail[|email| + 1..] == "";
    StripPadded(email, "", "");
    assert "" + email + "" == email;
  }

  lemma NameReads(t: Trailer)
    requires GoodTrailer(t)
    ensures ParseName(" " + t.name + " <" + t.email + ">") == Some(t)
  {
    var head, tail := " " + t.name + " ", t.email + ">";
    var rest := " " + t.name + " <" + t.email + ">";
    assert rest == head + ['<'] + tail;
    IndexOfHead(head, '<', tail);
    assert rest[..|head|] == head && rest[|head| + 1..] == tail;
    StripPadded(t.name, " ", " ");
    EmailReads(t.name, t.email);
  }

  /** Reading a printed trailer gives the trailer back. */
  lemma ParsePrint(t: Trailer)
    requires GoodTrailer(t)
    ensures Parse(Print(t)) == Some(t)
  {
    var after := t.name + " <" + t.email + ">";
    PrefixReads(Print(t), after);
    assert " " + after == " " + t.name + " <" + t.email + ">";
    NameReads(t);
  }

  lemma PrefixReads(line: string, after: string)
    requires line == PREFIX + after
    ensures |line| >= |KEY| && Lower(line[..|KEY|]) == KEY && line[|KEY|..] == " " + after
  {
    assert line[..|KEY|] == PREFIX[..|KEY|];
    assert PREFIX[|KEY|..] == " ";
  }

  /** A line in five parts: the key in any case, a name, an e-mail between angle brackets, and white space. */
  ghost predicate InParts(line: string, key: string, name: string, email: string, tail: string) {
    && line == key + name + "<" + email + ">" + tail
    && Lower(key) == "co-authored-by:" && '<' !in name && '>' !in email && Blank(tail)
  }

  /** The line is a trailer of `t`: name and e-mail are not blank, and are taken trimmed. */
  ghost predicate TrailerOf(line: string, t: Trailer) {
    exists key, name, email, tail ::
      InParts(line, key, name, email, tail)
      && Strip(name) == t.name != "" && Strip(email) == t.email != ""
  }

  lemma EmailPart(name: string, email: string, tail: string)
    requires '>' !in email && Blank(tail) && name != "" && Strip(email) != ""
    ensures ParseEmail(name, email + ['>'] + tail) == Some(Trailer(name, Strip(email)))
  {
    var rest := email + ['>'] + tail;
    IndexOfHead(email, '>', tail);
    assert rest[..|email|] == email && rest[|email| + 1..] == tail;
  }

  lemma NamePart(name: string, after: string)
    requires '<' !in name
    ensures ParseName(name + ['<'] + after) == ParseEmail(Strip(name), after)
  {
    var rest := name + ['<'] + after;
    IndexOfHead(name, '<', after);
    assert rest[..|name|] == name && rest[|name| + 1..] == after;
  }

  lemma KeyPart(key: string, rest: string)
    requires Lower(key) == "co-authored-by:"
    ensures Parse(key + rest) == ParseName(rest)
  {
    var line := key + rest;
    assert |key| == |Lower(key)| == |KEY|;
    assert line[..|KEY|] == key && line[|KEY|..] == rest;
  }

  lemma Regrouped(key: string, name: string, email: string, tail: string)
    ensures key + name + "<" + email + ">" + tail == key + (name + ['<'] + (email + ['>'] + tail))
  {
  }

  lemma PartsRead(line: string, key: string, name: string, email: string, tail: string)
    requires InParts(line, key, name, email, tail) && Strip(name) != "" && Strip(email) != ""
    ensures Parse(line) == Some(Trailer(Strip(name), Strip(email)))
  {
    Regrouped(key, name, email, tail);
    KeyPart(key, name + ['<'] + (email + ['>'] + tail));
    NamePart(name, email + ['>'] + tail);
    EmailPart(Strip(name), email, tail);
  }

  lemma Cut(s: string, c: char)
    requires IndexOf(s, c) < |s|
    ensures s == s[..IndexOf(s, c)] + [c] + s[IndexOf(s, c) + 1..]
  {
  }

  lemma Reassembled(line: string, key: string, rest: string, name: string, after: string, email: string, tail: string)
    requires line == key + rest && rest == name + "<" + after && after == email + ">" + tail
    ensures line == key + name + "<" + email + ">" + tail
  {
  }

  lemma ReadParts(line: string) returns (key: string, name: string, email: string, tail: string)
    requires Parse(line).Some?
    ensures InParts(line, key, name, email, tail)
    ensures Strip(name) != "" && Strip(email) != "" && Parse(line) == Some(Trailer(Strip(name), Strip(email)))
  {
    key := line[..|KEY|];
    var rest := line[|KEY|..];
    Cut(rest, '<');
    name := rest[..IndexOf(rest, '<')];
    var after := rest[IndexOf(rest, '<') + 1..];
    Cut(after, '>');
    email, tail := after[..IndexOf(after, '>')], after[IndexOf(after, '>') + 1..];
    assert line == key + rest;
    Reassembled(line, key, rest, name, after, email, tail);
  }

  /** Reading a line finds the trailer it is, and nothing in any other line. */
  lemma ParseExact(line: string, t: Trailer)
    ensures Parse(line) == Some(t) <==> TrailerOf(line, t)
  {
    if Parse(line).Some? {
      var key, name, email, tail := ReadParts(line);
    }
    if TrailerOf(line, t) {
      var key, name, email, tail :| InParts(line, key, name, email, tail)
                                    && Strip(name) == t.name != "" && Strip(email) == t.email != "";
      PartsRead(line, key, name, email, tail);
    }
  }

  /** A registered runtime takes its own name, anybody else keeps theirs, and the e-mail is in lower case. */
  lemma CanonicalExact(t: Trailer)
    ensures Canonical(t).email == Lower(t.email)
    ensures Canonical(t).name ==
            if Lower(t.email) == "noreply@anthropic.com" then "Claude"
            else if Lower(t.email) == "noreply@openai.com" then "Codex" else t.name
    ensures Print(t) == "Co-Authored-By: " + t.name + " <" + t.email + ">"
  {
    assert "noreply@anthropic.com"[8] == 'a' && "noreply@openai.com"[8] == 'o';
  }

  lemma LowerTwice(s: string)
    ensures Lower(Lower(s)) == Lower(s)
  {
  }

  lemma CanonicalGood(t: Trailer)
    requires GoodTrailer(t)
    ensures GoodTrailer(Canonical(t)) && Canonical(Canonical(t)) == Canonical(t)
  {
    var email := Lower(t.email);
    LowerTwice(t.email);
    RegisteredNames(email);
    forall i | 0 <= i < |email| ensures email[i] != '>' && email[i] != NEWLINE {
      assert t.email[i] in t.email;
    }
  }

  lemma RegisteredNames(email: string)
    ensures email in RUNTIMES ==>
              RUNTIMES[email] != "" && Trimmed(RUNTIMES[email]) && '<' !in RUNTIMES[email]
              && NEWLINE !in RUNTIMES[email]
  {
  }

  lemma TrailerNotBlank(line: string)
    requires Blank(line)
    ensures Parse(line).None?
  {
    if |line| >= |KEY| {
      assert Lower(line[..|KEY|])[0] == LowerChar(line[0]);
    }
  }

  /** A way of reading a line as a trailer. */
  type Reader = string -> Option<Trailer>

  /** Blank lines are no trailers, what is read is well formed, and reading undoes printing. */
  ghost predicate Reads(read: Reader) {
    && (forall line | Blank(line) :: read(line).None?)
    && (forall line | NEWLINE !in line && read(line).Some? :: GoodTrailer(read(line).value))
    && (forall t | GoodTrailer(t) :: read(Print(t)) == Some(t))
  }

  /** The trailer expression reads trailers. */
  lemma ParseReads()
    ensures Reads(Parse)
  {
    forall line | Blank(line) ensures Parse(line).None? {
      TrailerNotBlank(line);
    }
    forall line | NEWLINE !in line && Parse(line).Some? ensures GoodTrailer(Parse(line).value) {
      ParseGood(line);
    }
    forall t | GoodTrailer(t) ensures Parse(Print(t)) == Some(t) {
      ParsePrint(t);
    }
  }
}

/** The commit-message hook that canonicalises and deduplicates co-author trailers. */
module NormalizeCoauthor {
  import opened Text
  import opened Values
  import opened CoauthorTrailer

  // ---- lines ---------------------------------------------------------------

  /** `text.splitlines()` for newline-separated text. */
  function Lines(text: string): seq<string> {
    var parts := Split(text, NEWLINE);
    if parts[|parts| - 1] == "" then parts[..|parts| - 1] else parts
  }

  predicate EndsInNewline(text: string) {
    text != "" && text[|text| - 1] == NEWLINE
  }

  // ---- the trailing block --------------------------------------------------

  /** The lines without the blank ones at the end. */
  function TrimBlank(lines: seq<string>): seq<string> {
    if lines != [] && Blank(lines[|lines| - 1]) then TrimBlank(lines[..|lines| - 1]) else lines
  }

  /** Where the uninterrupted run of trailers that ends `lines` begins. */
  function BlockStart(read: Reader, lines: seq<string>): (k: nat)
    ensures k <= |lines|
  {
    if lines == [] || read(lines[|lines| - 1]).None? then |lines|
    else BlockStart(read, lines[..|lines| - 1])
  }

  /** `_split_trailer_block`. */
  method SplitTrailerBlock(read: Reader, lines: seq<string>) returns (body: seq<string>, trailers: seq<string>)
    ensures var trimmed := TrimBlank(lines);
            body == trimmed[..BlockStart(read, trimmed)] && trailers == trimmed[BlockStart(read, trimmed)..]
  {
    var end := |lines|;
    assert lines[..end] == lines;
    while end > 0 && Blank(lines[end - 1])
      invariant 0 <= end <= |lines| && TrimBlank(lines) == TrimBlank(lines[..end])
    {
      assert lines[..end][..end - 1] == lines[..end - 1];
      end := end - 1;
    }
    var start := end;
    assert TrimBlank(lines) == lines[..end];
    while start > 0
      invariant 0 <= start <= end && BlockStart(read, lines[..end]) == BlockStart(read, lines[..start])
    {
      if read(lines[start - 1]).None? {
        break;
      }
      assert lines[..start][..start - 1] == lines[..start - 1];
      start := start - 1;
    }
    assert lines[..end][..start] == lines[..start] && lines[..end][start..] == lines[start..end];
    return lines[..start], lines[start..end];
  }

  lemma {:induction false} BlockParses(read: Reader, lines: seq<string>)
    ensures forall i | BlockStart(read, lines) <= i < |lines| :: read(lines[i]).Some?
  {
    if lines != [] && read(lines[|lines| - 1]).Some? {
      BlockParses(read, lines[..|lines| - 1]);
    }
  }

  /** A run of trailers after a line that is none is found as it stands. */
  lemma {:induction false} BlockFound(read: Reader, before: seq<string>, block: seq<string>)
    requires before == [] || read(before[|before| - 1]).None?
    requires forall i | 0 <= i < |block| :: read(block[i]).Some?
    ensures BlockStart(read, before + block) == |before|
    decreases |block|
  {
    var all := before + block;
    if block == [] {
      assert all == before;
    } else {
      assert all[|all| - 1] == block[|block| - 1];
      assert all[..|all| - 1] == before + block[..|block| - 1];
      BlockFound(read, before, block[..|block| - 1]);
    }
  }

  // ---- deduplication -------------------------------------------------------

  function KeyOf(read: Reader, line: string): string
    requires read(line).Some?
  {
    Lower(read(line).value.email)
  }

  predicate AllRead(read: Reader, lines: seq<string>) {
    forall i | 0 <= i < |lines| :: read(lines[i]).Some?
  }

  /** The canonical line of each trailer whose e-mail was not seen before. */
  function Kept(read: Reader, trailers: seq<string>, seen: set<string>): seq<string>
    requires AllRead(read, trailers)
  {
    if trailers == [] then []
    else
      var key := KeyOf(read, trailers[0]);
      if key in seen then Kept(read, trailers[1..], seen)
      else [Print(Canonical(read(trailers[0]).value))] + Kept(read, trailers[1..], seen + {key})
  }

  /** Which trailers survive: the positions of the first occurrences. */
  ghost function Firsts(read: Reader, trailers: seq<string>, seen: set<string>, at: nat): seq<nat>
    requires AllRead(read, trailers)
  {
    if trailers == [] then []
    else
      var key := KeyOf(read, trailers[0]);
      if key in seen then Firsts(read, trailers[1..], seen, at + 1)
      else [at] + Firsts(read, trailers[1..], seen + {key}, at + 1)
  }

  /** Line `i` is the first trailer with its e-mail. */
  ghost predicate IsFirst(read: Reader, trailers: seq<string>, i: int)
    requires AllRead(read, trailers)
  {
    0 <= i < |trailers| && forall j | 0 <= j < i :: KeyOf(read, trailers[j]) != KeyOf(read, trailers[i])
  }

  /** The keys of the first `n` trailers. */
  ghost function KeysBefore(read: Reader, trailers: seq<string>, n: nat): set<string>
    requires AllRead(read, trailers) && n <= |trailers|
  {
    set j | 0 <= j < n :: KeyOf(read, trailers[j])
  }

  /** A trailer's e-mail was seen before exactly when it is not the first with it. */
  lemma FirstOrSeen(read: Reader, all: seq<string>, n: nat)
    requires AllRead(read, all) && n < |all|
    ensures KeyOf(read, all[n]) in KeysBefore(read, all, n) <==> !IsFirst(read, all, n)
    ensures KeysBefore(read, all, n + 1) == KeysBefore(read, all, n) + {KeyOf(read, all[n])}
  {
    if !IsFirst(read, all, n) {
      var j :| 0 <= j < n && KeyOf(read, all[j]) == KeyOf(read, all[n]);
      assert KeyOf(read, all[j]) in KeysBefore(read, all, n);
    }
  }

  /** The positions that hold a first trailer. */
  ghost function FirstPositions(read: Reader, all: seq<string>): iset<int>
    requires AllRead(read, all)
  {
    iset i: int | IsFirst(read, all, i)
  }

  /** `kept` holds the canonical line of each listed trailer. */
  ghost predicate LinesOf(read: Reader, all: seq<string>, firsts: seq<nat>, kept: seq<string>)
    requires AllRead(read, all)
  {
    |kept| == |firsts| &&
    forall i | 0 <= i < |firsts| ::
      firsts[i] < |all| && kept[i] == Print(Canonical(read(all[firsts[i]]).value))
  }

  /** `at` lists, in order, exactly the positions of `wanted` from `n` on. */
  ghost predicate ListsFrom(wanted: iset<int>, n: nat, at: seq<nat>) {
    && (forall i | 0 <= i < |at| :: n <= at[i] && at[i] in wanted)
    && (forall i, j | 0 <= i < j < |at| :: at[i] < at[j])
    && (forall k | n <= k && k in wanted :: k in at)
  }

  lemma ListsStep(wanted: iset<int>, n: nat, rest: seq<nat>)
    requires ListsFrom(wanted, n + 1, rest)
    ensures ListsFrom(wanted, n, if n in wanted then [n] + rest else rest)
  {
    if n in wanted {
      var at := [n] + rest;
      forall k | n <= k && k in wanted ensures k in at {
        assert k == n || k in rest;
      }
    }
  }

  lemma LinesStep(read: Reader, all: seq<string>, n: nat, rest: seq<nat>, kept: seq<string>)
    requires AllRead(read, all) && n < |all| && LinesOf(read, all, rest, kept)
    ensures LinesOf(read, all, [n] + rest, [Print(Canonical(read(all[n]).value))] + kept)
  {
  }

  lemma {:induction false} KeptAt(read: Reader, all: seq<string>, n: nat)
    requires AllRead(read, all) && n <= |all|
    ensures ListsFrom(FirstPositions(read, all), n, Firsts(read, all[n..], KeysBefore(read, all, n), n))
    ensures LinesOf(read, all, Firsts(read, all[n..], KeysBefore(read, all, n), n),
                    Kept(read, all[n..], KeysBefore(read, all, n)))
    decreases |all| - n
  {
    if n < |all| {
      assert all[n..][0] == all[n] && all[n..][1..] == all[n + 1..];
      KeptAt(read, all, n + 1);
      FirstOrSeen(read, all, n);
      var before, key := KeysBefore(read, all, n), KeyOf(read, all[n]);
      var rest := Firsts(read, all[n + 1..], before + {key}, n + 1);
      ListsStep(FirstPositions(read, all), n, rest);
      LinesStep(read, all, n, rest, Kept(read, all[n + 1..], before + {key}));
      assert key in before ==> before + {key} == before;
    }
  }

  /** The surviving lines in order: one per e-mail, each from that e-mail's first trailer. */
  lemma KeptFirsts(read: Reader, trailers: seq<string>) returns (firsts: seq<nat>)
    requires AllRead(read, trailers)
    ensures ListsFrom(FirstPositions(read, trailers), 0, firsts)
    ensures LinesOf(read, trailers, firsts, Kept(read, trailers, {}))
  {
    KeptAt(read, trailers, 0);
    assert trailers[0..] == trailers && KeysBefore(read, trailers, 0) == {};
    firsts := Firsts(read, trailers, {}, 0);
  }

  predicate NewlineFree(lines: seq<string>) {
    forall i | 0 <= i < |lines| :: NEWLINE !in lines[i]
  }

  /** `line` is what a trailer line is rewritten to: it reads as its own canonical trailer. */
  ghost predicate IsCanonical(read: Reader, line: string) {
    && NEWLINE !in line && read(line).Some?
    && Print(Canonical(read(line).value)) == line
  }

  lemma CanonicalLine(read: Reader, line: string)
    requires Reads(read) && NEWLINE !in line && read(line).Some?
    ensures IsCanonical(read, Print(Canonical(read(line).value)))
    ensures KeyOf(read, Print(Canonical(read(line).value))) == KeyOf(read, line)
  {
    var t := read(line).value;
    CanonicalGood(t);
    LowerTwice(t.email);
  }

  /** Every surviving line is canonical, and no e-mail survives twice. */
  lemma KeptCanonical(read: Reader, trailers: seq<string>)
    requires Reads(read) && AllRead(read, trailers) && NewlineFree(trailers)
    ensures var kept := Kept(read, trailers, {});
            && (trailers != [] ==> kept != [])
            && (forall i | 0 <= i < |kept| :: IsCanonical(read, kept[i]))
            && (forall i, j | 0 <= i < j < |kept| :: KeyOf(read, kept[i]) != KeyOf(read, kept[j]))
  {
    var kept := Kept(read, trailers, {});
    var firsts := KeptFirsts(read, trailers);
    forall i | 0 <= i < |kept|
      ensures IsCanonical(read, kept[i]) && KeyOf(read, kept[i]) == KeyOf(read, trailers[firsts[i]])
    {
      CanonicalLine(read, trailers[firsts[i]]);
    }
    forall i, j | 0 <= i < j < |kept| ensures KeyOf(read, kept[i]) != KeyOf(read, kept[j]) {
      assert firsts[j] in FirstPositions(read, trailers) && firsts[i] < firsts[j];
    }
    if trailers != [] {
      assert 0 in FirstPositions(read, trailers);
    }
  }

  /** Canonical lines with distinct e-mails are kept as they are. */
  lemma {:induction false} KeptStable(read: Reader, lines: seq<string>, seen: set<string>)
    requires AllRead(read, lines) && forall i | 0 <= i < |lines| :: IsCanonical(read, lines[i])
    requires forall i, j | 0 <= i < j < |lines| :: KeyOf(read, lines[i]) != KeyOf(read, lines[j])
    requires forall i | 0 <= i < |lines| :: KeyOf(read, lines[i]) !in seen
    ensures Kept(read, lines, seen) == lines
  {
    if lines != [] {
      KeptStable(read, lines[1..], seen + {KeyOf(read, lines[0])});
      assert [lines[0]] + lines[1..] == lines;
    }
  }

  // ---- the whole message ---------------------------------------------------

  function Body(read: Reader, lines: seq<string>): seq<string> {
    TrimBlank(lines)[..BlockStart(read, TrimBlank(lines))]
  }

  function Block(read: Reader, lines: seq<string>): seq<string> {
    TrimBlank(lines)[BlockStart(read, TrimBlank(lines))..]
  }

  lemma BlockAllRead(read: Reader, lines: seq<string>)
    ensures AllRead(read, Block(read, lines))
  {
    BlockParses(read, TrimBlank(lines));
  }

  /** The lines of the rewritten message: the body, one blank line, the surviving trailers. */
  function Rebuilt(read: Reader, lines: seq<string>): seq<string>
    requires AllRead(read, Block(read, lines))
  {
    var body := TrimBlank(Body(read, lines));
    body + (if body == [] then [] else [""]) + Kept(read, Block(read, lines), {})
  }

  function Normalized(read: Reader, text: string): string {
    var lines := Lines(text);
    BlockAllRead(read, lines);
    if Block(read, lines) == [] then text
    else Join(Rebuilt(read, lines), NEWLINE) + if EndsInNewline(text) then [NEWLINE] else ""
  }

  /** `normalize`. */
  method NormalizeWith(read: Reader, text: string) returns (output: string)
    ensures output == Normalized(read, text)
  {
    var lines := Lines(text);
    BlockAllRead(read, lines);
    var body, trailers := SplitTrailerBlock(read, lines);
    if trailers == [] {
      return text;
    }
    var seen: set<string> := {};
    var kept: seq<string> := [];
    for i := 0 to |trailers|
      invariant Kept(read, trailers, {}) == kept + Kept(read, trailers[i..], seen)
    {
      var parsed := read(trailers[i]).value;
      var key := Lower(parsed.email);
      assert trailers[i..][1..] == trailers[i + 1..];
      if key !in seen {
        seen := seen + {key};
        kept := kept + [Print(Canonical(parsed))];
      }
    }
    var rebuilt := body;
    while rebuilt != [] && Blank(rebuilt[|rebuilt| - 1])
      invariant TrimBlank(rebuilt) == TrimBlank(body)
    {
      rebuilt := rebuilt[..|rebuilt| - 1];
    }
    if rebuilt != [] {
      rebuilt := rebuilt + [""];
    }
    rebuilt := rebuilt + kept;
    assert rebuilt == Rebuilt(read, lines);
    output := Join(rebuilt, NEWLINE);
    if EndsInNewline(text) {
      output := output + [NEWLINE];
    }
  }

  lemma {:induction false} TrimBlankEnds(lines: seq<string>)
    ensures TrimBlank(lines) != [] ==> !Blank(TrimBlank(lines)[|TrimBlank(lines)| - 1])
    ensures |TrimBlank(lines)| <= |lines| && TrimBlank(lines) == lines[..|TrimBlank(lines)|]
    ensures forall i | |TrimBlank(lines)| <= i < |lines| :: Blank(lines[i])
  {
    if lines != [] && Blank(lines[|lines| - 1]) {
      TrimBlankEnds(lines[..|lines| - 1]);
    }
  }

  /**
    Nothing but blank lines is lost from the body: it is a prefix of the message, the rewritten
    message begins with it, and what is dropped between the two is blank.
   */
  lemma BodyKept(read: Reader, text: string)
    ensures var lines := Lines(text);
            var body := TrimBlank(Body(read, lines));
            && body <= lines && |Body(read, lines)| <= |lines|
            && (forall i | |body| <= i < |Body(read, lines)| :: Blank(lines[i]))
            && (AllRead(read, Block(read, lines)) && Block(read, lines) != [] ==> body <= Rebuilt(read, lines))
  {
    var lines := Lines(text);
    var before := Body(read, lines);
    TrimBlankEnds(lines);
    TrimBlankEnds(before);
    assert before <= lines;
    var body := TrimBlank(before);
    forall i | |body| <= i < |before| ensures Blank(lines[i]) {
      assert before[i] == lines[i];
    }
  }

  lemma LinesNewlineFree(text: string)
    ensures NewlineFree(Lines(text))
  {
    var parts := Split(text, NEWLINE);
    forall i | 0 <= i < |Lines(text)| ensures NEWLINE !in Lines(text)[i] {
      assert Lines(text)[i] == parts[i];
      assert parts[i] in parts;
    }
  }

  /** Lines whose last one is not empty survive joining and splitting. */
  lemma LinesJoin(lines: seq<string>)
    requires lines != [] && NewlineFree(lines) && lines[|lines| - 1] != ""
    ensures Lines(Join(lines, NEWLINE)) == lines && !EndsInNewline(Join(lines, NEWLINE))
  {
    SplitJoin(lines, NEWLINE);
    JoinEnds(lines);
  }

  /** So do they with a final newline. */
  lemma LinesJoinFinal(lines: seq<string>)
    requires lines != [] && NewlineFree(lines)
    ensures Lines(Join(lines, NEWLINE) + [NEWLINE]) == lines
    ensures EndsInNewline(Join(lines, NEWLINE) + [NEWLINE])
  {
    var longer := lines + [""];
    JoinSnocEmpty(lines);
    SplitJoin(longer, NEWLINE);
    assert longer[..|lines|] == lines;
  }

  lemma {:induction false} JoinSnocEmpty(lines: seq<string>)
    requires lines != []
    ensures Join(lines + [""], NEWLINE) == Join(lines, NEWLINE) + [NEWLINE]
  {
    if |lines| == 1 {
      assert (lines + [""])[1..] == [""];
      assert Join([""], NEWLINE) == "";
    } else {
      JoinSnocEmpty(lines[1..]);
      assert (lines + [""])[1..] == lines[1..] + [""];
    }
  }

  lemma {:induction false} JoinEnds(lines: seq<string>)
    requires lines != [] && lines[|lines| - 1] != "" && NEWLINE !in lines[|lines| - 1]
    ensures Join(lines, NEWLINE) != "" && !EndsInNewline(Join(lines, NEWLINE))
  {
    if |lines| > 1 {
      JoinEnds(lines[1..]);
    }
  }

  lemma PartsNewlineFree(read: Reader, lines: seq<string>)
    requires NewlineFree(lines)
    ensures NewlineFree(Block(read, lines)) && NewlineFree(TrimBlank(Body(read, lines)))
  {
    var before := Body(read, lines);
    TrimBlankEnds(lines);
    TrimBlankEnds(before);
    assert before <= lines;
    var body := TrimBlank(before);
    forall i | |body| <= i < |before| ensures Blank(lines[i]) {
      assert before[i] == lines[i];
    }
  }

  /** What survives of a block still reads as trailers, the last line included. */
  lemma KeptReads(read: Reader, trailers: seq<string>)
    requires Reads(read) && AllRead(read, trailers) && NewlineFree(trailers) && trailers != []
    ensures var kept := Kept(read, trailers, {});
            kept != [] && AllRead(read, kept) && NewlineFree(kept) && !Blank(kept[|kept| - 1])
  {
    KeptCanonical(read, trailers);
    var kept := Kept(read, trailers, {});
    assert IsCanonical(read, kept[|kept| - 1]);
  }

  /** The parts a message is rebuilt from: a body ending in text, and trailers. */
  lemma RebuiltParts(read: Reader, lines: seq<string>)
    requires Reads(read) && NewlineFree(lines) && AllRead(read, Block(read, lines)) && Block(read, lines) != []
    ensures var body, kept := TrimBlank(Body(read, lines)), Kept(read, Block(read, lines), {});
            && NewlineFree(body) && (body != [] ==> !Blank(body[|body| - 1]))
            && kept != [] && AllRead(read, kept) && NewlineFree(kept) && !Blank(kept[|kept| - 1])
  {
    PartsNewlineFree(read, lines);
    TrimBlankEnds(Body(read, lines));
    KeptReads(read, Block(read, lines));
  }

  lemma NewlineFreeParts(body: seq<string>, kept: seq<string>)
    requires NewlineFree(body) && NewlineFree(kept) && kept != []
    ensures var all := body + (if body == [] then [] else [""]) + kept;
            all != [] && NewlineFree(all) && all[|all| - 1] == kept[|kept| - 1]
  {
  }

  /** The rebuilt lines end in a surviving trailer. */
  lemma RebuiltEnds(read: Reader, lines: seq<string>)
    requires Reads(read) && NewlineFree(lines) && AllRead(read, Block(read, lines)) && Block(read, lines) != []
    ensures var kept := Kept(read, Block(read, lines), {});
            && kept != [] && NewlineFree(Rebuilt(read, lines))
            && Rebuilt(read, lines) != []
            && Rebuilt(read, lines)[|Rebuilt(read, lines)| - 1] == kept[|kept| - 1]
            && !Blank(kept[|kept| - 1])
  {
    RebuiltParts(read, lines);
    NewlineFreeParts(TrimBlank(Body(read, lines)), Kept(read, Block(read, lines), {}));
  }

  /** The lines of a rewritten message are the rebuilt ones. */
  lemma RebuiltReads(read: Reader, text: string)
    requires Reads(read) && AllRead(read, Block(read, Lines(text))) && Block(read, Lines(text)) != []
    ensures Lines(Normalized(read, text)) == Rebuilt(read, Lines(text))
    ensures EndsInNewline(Normalized(read, text)) <==> EndsInNewline(text)
  {
    var lines := Lines(text);
    LinesNewlineFree(text);
    RebuiltEnds(read, lines);
    var again := Rebuilt(read, lines);
    if EndsInNewline(text) {
      LinesJoinFinal(again);
    } else {
      LinesJoin(again);
      assert Join(again, NEWLINE) + "" == Join(again, NEWLINE);
    }
  }

  /** A body line, a separating blank line if there is one, and trailers are found again as they are. */
  lemma PartsFound(read: Reader, body: seq<string>, kept: seq<string>)
    requires Reads(read)
    requires body != [] ==> !Blank(body[|body| - 1])
    requires kept != [] && !Blank(kept[|kept| - 1]) && AllRead(read, kept)
    ensures var all := body + (if body == [] then [] else [""]) + kept;
            Block(read, all) == kept && TrimBlank(Body(read, all)) == body
  {
    var before := body + if body == [] then [] else [""];
    var all := before + kept;
    assert TrimBlank(all) == all;
    BlockFound(read, before, kept);
    assert all[..|before|] == before && all[|before|..] == kept;
    if body != [] {
      assert before[..|before| - 1] == body;
    }
  }

  /** The rebuilt lines split into the same body and exactly the surviving trailers. */
  lemma RebuiltSplits(read: Reader, lines: seq<string>)
    requires Reads(read) && NewlineFree(lines) && AllRead(read, Block(read, lines)) && Block(read, lines) != []
    ensures var again := Rebuilt(read, lines);
            && Block(read, again) == Kept(read, Block(read, lines), {})
            && TrimBlank(Body(read, again)) == TrimBlank(Body(read, lines))
  {
    RebuiltParts(read, lines);
    PartsFound(read, TrimBlank(Body(read, lines)), Kept(read, Block(read, lines), {}));
  }

  /** Rebuilding the rebuilt lines gives them back. */
  lemma RebuiltTwice(read: Reader, lines: seq<string>)
    requires Reads(read) && NewlineFree(lines) && AllRead(read, Block(read, lines)) && Block(read, lines) != []
    ensures var again := Rebuilt(read, lines);
            AllRead(read, Block(read, again)) && Block(read, again) != [] && Rebuilt(read, again) == again
  {
    BlockAllRead(read, Rebuilt(read, lines));
    RebuiltEnds(read, lines);
    RebuiltSplits(read, lines);
    PartsNewlineFree(read, lines);
    KeptCanonical(read, Block(read, lines));
    KeptStable(read, Kept(read, Block(read, lines), {}), {});
  }

  /** Rewriting twice is rewriting once, for any way of reading trailers. */
  lemma RewriteIdempotent(read: Reader, text: string)
    requires Reads(read)
    ensures Normalized(read, Normalized(read, text)) == Normalized(read, text)
  {
    var lines := Lines(text);
    BlockAllRead(read, lines);
    if Block(read, lines) != [] {
      LinesNewlineFree(text);
      RebuiltReads(read, text);
      RebuiltTwice(read, lines);
    }
  }

  /** `normalize`, with the co-author trailer expression. */
  method Normalize(text: string) returns (output: string)
    ensures output == Normalized(Parse, text)
  {
    output := NormalizeWith(Parse, text);
  }

  /** Running the hook twice is running it once, on every message. */
  lemma NormalizeIdempotent(text: string)
    ensures Normalized(Parse, Normalized(Parse, text)) == Normalized(Parse, text)
  {
    ParseReads();
    RewriteIdempotent(Parse, text);
  }
}
