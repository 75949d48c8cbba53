/**
 * Conventional-commit parsing and the choice of a semantic-version bump from a list of commits.
 * A header `type(scope, scope): subject` is read with four regular expressions; each of them is
 * written here as a scan of the header, next to the declarative condition under which the
 * expression matches, and the two are proved to agree.
 */
module CommitUtils {
  import opened Wrappers
  import opened JsText

  /** A commit as the git log reports it: its hash, its first line (`message`) and the rest (`body`). */
  datatype Commit = Commit(hash: string, message: string, body: string)

  /** Reading `.match` of an `undefined` header, or index `[1]` of a match that failed. */
  datatype TypeError = UndefinedHeader | NullMatch

  /**
   * A parsed commit. `Unconventional` is the empty object returned for a header that is not a
   * conventional-commit header.
   */
  datatype ParsedCommit =
    | Unconventional
    | Conventional(
        kind: string,
        scopes: Option<seq<string>>,
        subject: string,
        merge: Option<string>,
        description: seq<string>,
        breaking: bool)

  function GetCommitMessage(commit: Commit): string
  {
    if |commit.body| > 0 then commit.message + "\n" + commit.body else commit.message
  }

  /** The lines of the full message are the lines of `message` followed by those of a non-empty body. */
  lemma CommitLines(commit: Commit)
    ensures Split(GetCommitMessage(commit), '\n')
         == Split(commit.message, '\n') + (if commit.body == "" then [] else Split(commit.body, '\n'))
  {
    if commit.body != "" {
      SplitAround(commit.message, commit.body, '\n');
    }
  }

  /** A first line that starts with "Merge" in any letter case (`/^Merge/i`). */
  predicate IsMergeLine(line: string) {
    |line| >= 5 && LowerAscii(line[..5]) == "merge"
  }

  predicate IsHeadStop(c: char) { c == '(' || c == ':' }

  predicate IsNotJsWhitespace(c: char) { !IsJsWhitespace(c) }

  /** Where `[^(:]+` at the start of a header has to stop: the first `(` or `:`. */
  function TypeEnd(h: string): (t: nat)
    ensures t <= |h| && (t < |h| ==> IsHeadStop(h[t]))
    ensures forall k :: 0 <= k < t ==> !IsHeadStop(h[k])
  {
    FindFrom(h, IsHeadStop, 0)
  }

  /**
   * `^[^(:]+(?:\([^)]+\))?:` matches with the type ending at `n` and, when `c > n`, the
   * parenthesised scope closing at `c`.
   */
  predicate HeaderMatch(h: string, n: nat, c: nat) {
    && 1 <= n < |h|
    && (forall k :: 0 <= k < n ==> !IsHeadStop(h[k]))
    && ((c == n && h[n] == ':')
        || (&& n + 1 < c && c + 1 < |h| && h[n] == '(' && h[c] == ')' && h[c + 1] == ':'
            && forall k :: n < k < c ==> h[k] != ')'))
  }

  /** The validity test of a header, as a scan. */
  predicate ConventionalHeader(h: string) {
    var t := TypeEnd(h);
    && 1 <= t < |h|
    && (h[t] == ':'
        || (h[t] == '(' && var c := IndexOf(h, ')', t + 1); t + 1 < c && c + 1 < |h| && h[c + 1] == ':'))
  }

  lemma ConventionalHeaderMatches(h: string)
    ensures ConventionalHeader(h) <==> exists n, c :: HeaderMatch(h, n, c)
  {
    var t := TypeEnd(h);
    if ConventionalHeader(h) {
      if h[t] == ':' {
        assert HeaderMatch(h, t, t);
      } else {
        assert HeaderMatch(h, t, IndexOf(h, ')', t + 1));
      }
    }
    if exists n, c :: HeaderMatch(h, n, c) {
      var n, c :| HeaderMatch(h, n, c);
      assert n == t;
      if c != n {
        assert IndexOf(h, ')', t + 1) == c;
      }
    }
  }

  /** Where `^[^(:]+\((.*)\)` can end its capture: a `)` after the type's `(`, with no line break between. */
  predicate ScopeCloseAt(h: string, c: nat) {
    var t := TypeEnd(h);
    && 1 <= t < c < |h| && h[t] == '(' && h[c] == ')'
    && forall k :: t < k < c ==> !IsLineTerminator(h[k])
  }

  /** The `)` that closes the scope capture: `.*` is greedy, so it is the last one that can. */
  function ScopeClose(h: string): (r: Option<nat>)
    ensures r.Some? ==> ScopeCloseAt(h, r.value) && forall c: nat :: ScopeCloseAt(h, c) ==> c <= r.value
    ensures r.None? ==> forall c: nat :: !ScopeCloseAt(h, c)
  {
    var t := TypeEnd(h);
    if t == 0 || t == |h| || h[t] != '(' then None
    else
      var e := FindFrom(h, IsLineTerminator, t + 1);
      var r := LastIndexIn(h, ')', t + 1, e);
      assert forall c: nat :: ScopeCloseAt(h, c) ==> c < e;
      r
  }

  /** `s.trim()` of every piece. */
  function TrimAll(parts: seq<string>): (r: seq<string>)
    ensures |r| == |parts| && forall i :: 0 <= i < |parts| ==> r[i] == Trim(parts[i])
  {
    seq(|parts|, i requires 0 <= i < |parts| => Trim(parts[i]))
  }

  /** `scopes`: the captured text split at commas and trimmed, or `None` when the scope expression fails. */
  function ScopeList(h: string): (r: Option<seq<string>>)
    ensures r.Some? <==> exists c: nat :: ScopeCloseAt(h, c)
    ensures r.Some? ==> |r.value| >= 1
    ensures r.Some? ==> forall i :: 0 <= i < |r.value| ==> ',' !in r.value[i]
    ensures r.Some? ==> forall i :: 0 <= i < |r.value| ==>
              |r.value[i]| == 0 || (!IsJsWhitespace(r.value[i][0]) && !IsJsWhitespace(r.value[i][|r.value[i]| - 1]))
  {
    match ScopeClose(h)
    case None => None
    case Some(c) =>
      var parts := Split(h[TypeEnd(h) + 1..c], ',');
      forall i | 0 <= i < |parts| ensures ',' !in Trim(parts[i]) {
        TrimKeepsCharacters(parts[i]);
      }
      Some(TrimAll(parts))
  }

  /**
   * The scope list is the captured text cut at its commas, each piece trimmed: the untrimmed pieces
   * hold no comma and, joined with commas, give back exactly the text between `(` and the closing `)`.
   */
  lemma ScopeListPieces(h: string)
    ensures ScopeList(h).Some? <==> ScopeClose(h).Some?
    ensures ScopeList(h).Some? ==>
              exists parts :: && |parts| == |ScopeList(h).value|
                              && Join(parts, ',') == h[TypeEnd(h) + 1..ScopeClose(h).value]
                              && (forall i :: 0 <= i < |parts| ==> ',' !in parts[i])
                              && ScopeList(h).value == TrimAll(parts)
  {
    if ScopeClose(h).Some? {
      var captured := h[TypeEnd(h) + 1..ScopeClose(h).value];
      JoinSplit(captured, ',');
      assert ScopeList(h).value == TrimAll(Split(captured, ','));
    }
  }

  /** `)` immediately followed by `:`. */
  predicate CloseColon(h: string, k: nat) {
    k + 1 < |h| && h[k] == ')' && h[k + 1] == ':'
  }

  function LastCloseColon(h: string, lo: nat, hi: nat): (r: Option<nat>)
    requires lo <= hi <= |h|
    ensures r.Some? ==> lo <= r.value < hi && CloseColon(h, r.value) && forall k :: r.value < k < hi ==> !CloseColon(h, k)
    ensures r.None? ==> forall k :: lo <= k < hi ==> !CloseColon(h, k)
    decreases hi - lo
  {
    if lo == hi then None
    else if CloseColon(h, hi - 1) then Some(hi - 1)
    else LastCloseColon(h, lo, hi - 1)
  }

  /** Where a group `\(.*\)` followed by `:` can end: a scope close that a colon follows. */
  predicate GroupColonAt(h: string, c: nat) {
    ScopeCloseAt(h, c) && c + 1 < |h| && h[c + 1] == ':'
  }

  /** The end of the greedy group `\(.*\)` before the subject's colon, if the group can match at all. */
  function GroupColon(h: string): (r: Option<nat>)
    ensures r.Some? ==> GroupColonAt(h, r.value) && forall c: nat :: GroupColonAt(h, c) ==> c <= r.value
    ensures r.None? ==> forall c: nat :: !GroupColonAt(h, c)
  {
    var t := TypeEnd(h);
    if t == 0 || t == |h| || h[t] != '(' then None
    else
      var e := FindFrom(h, IsLineTerminator, t + 1);
      var r := LastCloseColon(h, t + 1, e);
      assert forall c: nat :: GroupColonAt(h, c) ==> c < e && CloseColon(h, c);
      r
  }

  /**
   * The colon that `^[^(:]+(?:\(.*\))?:` stops at: after the group when it can match (the
   * optional group is greedy), otherwise right after the type.
   */
  function SubjectColon(h: string): (r: Option<nat>)
    ensures r.Some? ==> r.value < |h| && h[r.value] == ':'
    ensures (exists c: nat :: GroupColonAt(h, c)) ==>
              r.Some? && r.value >= 1 && GroupColonAt(h, r.value - 1) && forall c: nat :: GroupColonAt(h, c) ==> c < r.value
    ensures (forall c: nat :: !GroupColonAt(h, c)) && r.Some? ==> r.value == TypeEnd(h)
    ensures r.None? <==> (forall c: nat :: !GroupColonAt(h, c)) && !(1 <= TypeEnd(h) < |h| && h[TypeEnd(h)] == ':')
  {
    match GroupColon(h)
    case Some(c) => Some(c + 1)
    case None =>
      var t := TypeEnd(h);
      if 1 <= t < |h| && h[t] == ':' then Some(t) else None
  }

  /** `:\s*(.*)` from the colon at `colon`: white space (line breaks included) is skipped, the rest of the line captured. */
  function SubjectAfter(h: string, colon: nat): (s: string)
    requires colon < |h|
    ensures forall i :: 0 <= i < |s| ==> !IsLineTerminator(s[i])
    ensures |s| > 0 ==> !IsJsWhitespace(s[0])
  {
    var b := FindFrom(h, IsNotJsWhitespace, colon + 1);
    var e := FindFrom(h, IsLineTerminator, b);
    h[b..e]
  }

  /**
   * The subject is the rest of the header's line after the colon and the white space that follows
   * it: a slice that starts past that white space and ends at the first line break or the end.
   */
  lemma SubjectAfterIsRestOfLine(h: string, colon: nat)
    requires colon < |h|
    ensures exists b, e :: colon < b <= e <= |h| && SubjectAfter(h, colon) == h[b..e]
              && (forall j :: colon < j < b ==> IsJsWhitespace(h[j]))
              && (b < |h| ==> !IsJsWhitespace(h[b]))
              && (forall j :: b <= j < e ==> !IsLineTerminator(h[j]))
              && (e == |h| || IsLineTerminator(h[e]))
  {
    var b := FindFrom(h, IsNotJsWhitespace, colon + 1);
    var e := FindFrom(h, IsLineTerminator, b);
    assert SubjectAfter(h, colon) == h[b..e];
  }

  /** The header is the first line, or the second when the first is a merge line. */
  function HeaderIndex(lines: seq<string>): nat
    requires |lines| >= 1
  {
    if IsMergeLine(lines[0]) then 1 else 0
  }

  predicate IsBreakingLine(line: string) {
    Contains(line, "BREAKING CHANGE")
  }

  /** Some line of `lines` mentions "BREAKING CHANGE". */
  predicate AnyBreaking(lines: seq<string>) {
    exists i :: 0 <= i < |lines| && IsBreakingLine(lines[i])
  }

  /** `parseCommit` of the commit utilities. */
  function ParseCommit(commit: Commit): Result<ParsedCommit, TypeError>
  {
    var lines := Split(GetCommitMessage(commit), '\n');
    var merge := if IsMergeLine(lines[0]) then Some(lines[0]) else None;
    var rest := if merge.Some? then lines[1..] else lines;
    if rest == [] then Failure(UndefinedHeader) else ReadHeader(merge, rest)
  }

  /** The part of `parseCommit` after the header `rest[0]` is found: the validity test and the fields. */
  function ReadHeader(merge: Option<string>, rest: seq<string>): Result<ParsedCommit, TypeError>
    requires rest != []
  {
    var header := rest[0];
    if !ConventionalHeader(header) then Success(Unconventional)
    else
      match SubjectColon(header)
      case None => Failure(NullMatch)
      case Some(colon) =>
        Success(Conventional(
          header[..TypeEnd(header)],
          ScopeList(header),
          SubjectAfter(header, colon),
          merge,
          rest[1..],
          AnyBreaking(rest)))
  }

  /**
   * How `parseCommit` turns out, in terms of the message's lines and the header among them: it
   * throws when there is no header or when the subject expression fails on a valid header, gives
   * the empty object for an invalid header, and otherwise reads every field from the header and
   * the lines after it.
   */
  lemma ParseCommitCases(commit: Commit)
    ensures var lines := Split(GetCommitMessage(commit), '\n'); var h := HeaderIndex(lines);
            var r := ParseCommit(commit);
            && (r == Failure(UndefinedHeader) <==> h == |lines|)
            && (r == Success(Unconventional) <==> h < |lines| && !ConventionalHeader(lines[h]))
            && (r == Failure(NullMatch) <==> h < |lines| && ConventionalHeader(lines[h]) && SubjectColon(lines[h]).None?)
            && (r.Success? && r.value.Conventional? ==>
                  && h < |lines|
                  && ConventionalHeader(lines[h])
                  && r.value.kind == lines[h][..TypeEnd(lines[h])]
                  && r.value.scopes == ScopeList(lines[h])
                  && r.value.subject == SubjectAfter(lines[h], SubjectColon(lines[h]).value)
                  && r.value.merge == (if h == 1 then Some(lines[0]) else None)
                  && r.value.description == lines[h + 1..])
  {
  }

  /** `breaking` is set exactly when the header or a line after it mentions "BREAKING CHANGE". */
  lemma BreakingFromHeaderOn(commit: Commit)
    requires ParseCommit(commit).Success? && ParseCommit(commit).value.Conventional?
    ensures var lines := Split(GetCommitMessage(commit), '\n'); var h := HeaderIndex(lines);
            h < |lines| &&
            (ParseCommit(commit).value.breaking <==> exists i :: h <= i < |lines| && IsBreakingLine(lines[i]))
  {
    var lines := Split(GetCommitMessage(commit), '\n');
    var h := HeaderIndex(lines);
    var rest := if IsMergeLine(lines[0]) then lines[1..] else lines;
    assert rest == lines[h..];
    assert ParseCommit(commit).value.breaking == AnyBreaking(rest);
    AnyBreakingFrom(lines, h);
  }

  lemma AnyBreakingFrom(lines: seq<string>, h: nat)
    requires h <= |lines|
    ensures AnyBreaking(lines[h..]) <==> exists i :: h <= i < |lines| && IsBreakingLine(lines[i])
  {
    var rest := lines[h..];
    if AnyBreaking(rest) {
      var i :| 0 <= i < |rest| && IsBreakingLine(rest[i]);
      assert lines[h + i] == rest[i];
    }
    if exists i :: h <= i < |lines| && IsBreakingLine(lines[i]) {
      var i :| h <= i < |lines| && IsBreakingLine(lines[i]);
      assert rest[i - h] == lines[i];
    }
  }

  /** What the type expression captures from a valid header is non-empty and holds neither `(` nor `:`. */
  lemma KindIsPlain(h: string)
    requires ConventionalHeader(h)
    ensures var kind := h[..TypeEnd(h)];
            |kind| >= 1 && '(' !in kind && ':' !in kind
  {
    var kind := h[..TypeEnd(h)];
    assert forall k :: 0 <= k < |kind| ==> kind[k] == h[k];
  }

  /** The type is never empty and holds neither `(` nor `:`. */
  lemma TypeIsPlain(commit: Commit)
    requires ParseCommit(commit).Success? && ParseCommit(commit).value.Conventional?
    ensures var kind := ParseCommit(commit).value.kind;
            |kind| >= 1 && '(' !in kind && ':' !in kind
  {
    ParseCommitCases(commit);
    var lines := Split(GetCommitMessage(commit), '\n');
    KindIsPlain(lines[HeaderIndex(lines)]);
  }

  /** A conventional header is always parsed, unless a line break sits inside its parentheses. */
  lemma ConventionalHeaderHasSubject(h: string)
    requires ConventionalHeader(h)
    requires forall k :: 0 <= k < |h| ==> !IsLineTerminator(h[k])
    ensures SubjectColon(h).Some?
  {
    var t := TypeEnd(h);
    if h[t] == '(' {
      assert GroupColonAt(h, IndexOf(h, ')', t + 1));
    }
  }

  /**
   * A plain (non-merge) first line is the header whatever the body says; after a merge line the
   * header is the first line of the body, and a merge commit without a body has no header at all.
   */
  lemma HeaderSource(commit: Commit)
    requires '\n' !in commit.message
    ensures var lines := Split(GetCommitMessage(commit), '\n');
            && lines[0] == commit.message
            && (!IsMergeLine(commit.message) ==> HeaderIndex(lines) == 0)
            && (IsMergeLine(commit.message) && commit.body == "" ==> ParseCommit(commit) == Failure(UndefinedHeader))
            && (IsMergeLine(commit.message) && commit.body != "" ==> lines[1] == Split(commit.body, '\n')[0])
  {
    CommitLines(commit);
    assert IndexOf(commit.message, '\n', 0) == |commit.message|;
    assert Split(commit.message, '\n') == [commit.message];
  }

  /**
   * An instance of the maximality in `ScopeClose`'s contract: the greedy scope capture runs to the
   * last `)` of the line, past the colon, so the subject ends up inside the one scope.
   */
  lemma GreedyScopeCapture()
    ensures ScopeList("feat(a): fix (b)") == Some(["a): fix (b"])
  {
    var h := "feat(a): fix (b)";
    GreedyScopeClose();
    var capture := h[5..15];
    assert capture == "a): fix (b";
    NoCommaIsOnePiece(capture);
    TrimUnpadded(capture);
    assert TrimAll([capture]) == [capture];
  }

  lemma GreedyScopeClose()
    ensures TypeEnd("feat(a): fix (b)") == 4 && ScopeClose("feat(a): fix (b)") == Some(15)
  {
    var h := "feat(a): fix (b)";
    assert h[0] == 'f' && h[1] == 'e' && h[2] == 'a' && h[3] == 't' && h[4] == '(';
    assert TypeEnd(h) == 4;
    assert ScopeCloseAt(h, 15);
  }

  lemma NoCommaIsOnePiece(s: string)
    requires ',' !in s
    ensures Split(s, ',') == [s]
  {
    assert IndexOf(s, ',', 0) == |s|;
  }

  // ---------------------------------------------------------------------------------------------
  // Version bumps

  datatype Bump = Patch | Minor | Major

  function Rank(b: Bump): nat {
    match b
    case Patch => 0
    case Minor => 1
    case Major => 2
  }

  function MaxOf(a: Bump, b: Bump): (m: Bump)
    ensures Rank(m) >= Rank(a) && Rank(m) >= Rank(b) && (m == a || m == b)
  {
    if Rank(a) >= Rank(b) then a else b
  }

  /**
   * The bump one parsed commit asks for: major when breaking, else what the pattern maps its type
   * to, else patch. The empty object reads as type `unknown`, not breaking.
   */
  function CommitBump(p: ParsedCommit, pattern: map<string, Bump>): Bump
  {
    var kind := if p.Conventional? then p.kind else "unknown";
    if p.Conventional? && p.breaking then Major
    else if kind in pattern then pattern[kind]
    else Patch
  }

  /** The greatest bump asked for by any of the commits, patch when there are none. */
  function MaxBump(parsed: seq<ParsedCommit>, pattern: map<string, Bump>): Bump
  {
    if parsed == [] then Patch
    else MaxOf(MaxBump(parsed[..|parsed| - 1], pattern), CommitBump(parsed[|parsed| - 1], pattern))
  }

  /** `MaxBump` is the maximum under patch < minor < major: an upper bound that some commit attains, or patch. */
  lemma {:induction false} MaxBumpIsMaximum(parsed: seq<ParsedCommit>, pattern: map<string, Bump>)
    ensures forall j :: 0 <= j < |parsed| ==> Rank(CommitBump(parsed[j], pattern)) <= Rank(MaxBump(parsed, pattern))
    ensures MaxBump(parsed, pattern) == Patch || exists j :: 0 <= j < |parsed| && CommitBump(parsed[j], pattern) == MaxBump(parsed, pattern)
    decreases |parsed|
  {
    if parsed != [] {
      var init := parsed[..|parsed| - 1];
      MaxBumpIsMaximum(init, pattern);
      assert forall j :: 0 <= j < |init| ==> init[j] == parsed[j];
    }
  }

  lemma MaxBumpStep(parsed: seq<ParsedCommit>, k: nat, pattern: map<string, Bump>)
    requires k < |parsed|
    ensures MaxBump(parsed[..k + 1], pattern) == MaxOf(MaxBump(parsed[..k], pattern), CommitBump(parsed[k], pattern))
  {
    assert parsed[..k + 1][..k] == parsed[..k];
  }

  /** The bump depends on which commits there are, not on their order. */
  lemma MaxBumpIgnoresOrder(parsed: seq<ParsedCommit>, other: seq<ParsedCommit>, pattern: map<string, Bump>)
    requires multiset(parsed) == multiset(other)
    ensures MaxBump(parsed, pattern) == MaxBump(other, pattern)
  {
    MaxBumpIsMaximum(parsed, pattern);
    MaxBumpIsMaximum(other, pattern);
    BoundedBy(parsed, other, pattern);
    BoundedBy(other, parsed, pattern);
  }

  lemma BoundedBy(parsed: seq<ParsedCommit>, other: seq<ParsedCommit>, pattern: map<string, Bump>)
    requires multiset(parsed) == multiset(other)
    requires MaxBump(parsed, pattern) == Patch || exists j :: 0 <= j < |parsed| && CommitBump(parsed[j], pattern) == MaxBump(parsed, pattern)
    requires forall j :: 0 <= j < |other| ==> Rank(CommitBump(other[j], pattern)) <= Rank(MaxBump(other, pattern))
    ensures Rank(MaxBump(parsed, pattern)) <= Rank(MaxBump(other, pattern))
  {
    if MaxBump(parsed, pattern) != Patch {
      var j :| 0 <= j < |parsed| && CommitBump(parsed[j], pattern) == MaxBump(parsed, pattern);
      assert parsed[j] in multiset(other);
      var i :| 0 <= i < |other| && other[i] == parsed[j];
    }
  }

  /** `commits.map(parseCommit)`, each result kept apart: a value or what that commit throws. */
  function ParseEach(commits: seq<Commit>): (results: seq<Result<ParsedCommit, TypeError>>)
    ensures |results| == |commits| && forall j :: 0 <= j < |commits| ==> results[j] == ParseCommit(commits[j])
  {
    seq(|commits|, j requires 0 <= j < |commits| => ParseCommit(commits[j]))
  }

  /** The mapped list as the program sees it: the values in order, or the first throw, which ends the map. */
  function Collect(results: seq<Result<ParsedCommit, TypeError>>): Result<seq<ParsedCommit>, TypeError>
    decreases |results|
  {
    if results == [] then Success([])
    else if results[0].Failure? then Failure(results[0].error)
    else
      var rest := Collect(results[1..]);
      if rest.Failure? then Failure(rest.error) else Success([results[0].value] + rest.value)
  }

  /** `Collect` succeeds exactly when every commit parses, and then holds each one's result at its index. */
  lemma {:induction false} CollectIsPointwise(results: seq<Result<ParsedCommit, TypeError>>)
    ensures Collect(results).Success? <==> forall j :: 0 <= j < |results| ==> results[j].Success?
    ensures Collect(results).Success? ==>
              && |Collect(results).value| == |results|
              && forall j :: 0 <= j < |results| ==> Collect(results).value[j] == results[j].value
    decreases |results|
  {
    if results != [] {
      CollectIsPointwise(results[1..]);
      assert forall j :: 1 <= j < |results| ==> results[j] == results[1..][j - 1];
    }
  }

  /** When some commit throws, the map throws what the first of them throws. */
  lemma {:induction false} FirstThrowWins(results: seq<Result<ParsedCommit, TypeError>>, j: nat)
    requires j < |results| && results[j].Failure?
    requires forall i :: 0 <= i < j ==> results[i].Success?
    ensures Collect(results) == Failure(results[j].error)
    decreases j
  {
    if j > 0 {
      assert forall i :: 0 <= i < j - 1 ==> results[1..][i] == results[i + 1];
      FirstThrowWins(results[1..], j - 1);
    }
  }

  /**
   * `getVersionBump`: all commits are parsed first, a throw ending the whole call, then the
   * largest bump is looked for.
   */
  method GetVersionBump(commits: seq<Commit>, pattern: map<string, Bump>) returns (r: Result<Bump, TypeError>)
    ensures Collect(ParseEach(commits)).Failure? ==> r == Failure(Collect(ParseEach(commits)).error)
    ensures Collect(ParseEach(commits)).Success? ==> r == Success(MaxBump(Collect(ParseEach(commits)).value, pattern))
  {
    var all := Collect(ParseEach(commits));
    if all.Failure? {
      return Failure(all.error);
    }
    var bump := LargestBump(all.value, pattern);
    r := Success(bump);
  }

  /** The loop of `getVersionBump`: it keeps the largest bump so far and returns major as soon as one commit asks for it. */
  method LargestBump(parsed: seq<ParsedCommit>, pattern: map<string, Bump>) returns (maxBump: Bump)
    ensures maxBump == MaxBump(parsed, pattern)
  {
    MaxBumpIsMaximum(parsed, pattern);
    maxBump := Patch;
    var k := 0;
    while k < |parsed|
      invariant 0 <= k <= |parsed|
      invariant maxBump == MaxBump(parsed[..k], pattern) && maxBump != Major
    {
      MaxBumpStep(parsed, k, pattern);
      var kind := if parsed[k].Conventional? then parsed[k].kind else "unknown";
      var breaking := parsed[k].Conventional? && parsed[k].breaking;
      if breaking {
        return Major;
      }
      var typeBump := if kind in pattern then pattern[kind] else Patch;
      if typeBump == Major {
        return Major;
      }
      assert typeBump == CommitBump(parsed[k], pattern);
      if typeBump == Minor && maxBump == Patch {
        maxBump := typeBump;
      }
      k := k + 1;
    }
    assert parsed[..k] == parsed;
  }
}
