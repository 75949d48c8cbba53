/**
 * The `ci` executor: it reads the latest commit with the executor's own (older) header parser,
 * checks that every scope names a workspace project, bumps each such project's version by one
 * change, and then commits, tags, pushes and publishes as its options say. Git, the file system,
 * semver and the nx task runner are not modelled; what the executor asks of them is recorded as
 * a plan of steps.
 */
module CiExecutor {
  import opened Wrappers
  import opened JsText
  import opened CommitUtils

  // ---------------------------------------------------------------------------------------------
  // The older commit parser

  /**
   * The executor's `parseCommit`. Unlike the commit utilities it has no validity test: the type
   * expression `^([^(:]+)[(:]` and the subject expression `^[^(:]+\(.*\):\s*(.*)`, whose
   * parenthesised group is required, must both match or index `[1]` of `null` throws.
   */
  function LegacyParseCommit(message: string): Result<ParsedCommit, TypeError>
  {
    var lines := Split(message, '\n');
    var merge := if IsMergeLine(lines[0]) then Some(lines[0]) else None;
    var rest := if merge.Some? then lines[1..] else lines;
    if rest == [] then Failure(UndefinedHeader) else LegacyReadHeader(merge, rest)
  }

  /** The older parser once the header `rest[0]` is found. */
  function LegacyReadHeader(merge: Option<string>, rest: seq<string>): Result<ParsedCommit, TypeError>
    requires rest != []
  {
    var header := rest[0];
    var t := TypeEnd(header);
    if !(1 <= t < |header|) then Failure(NullMatch)
    else
      match GroupColon(header)
      case None => Failure(NullMatch)
      case Some(c) =>
        Success(Conventional(
          header[..t],
          ScopeList(header),
          SubjectAfter(header, c + 1),
          merge,
          rest[1..],
          AnyBreaking(rest)))
  }

  /**
   * When the older parser throws: with no header, and when the header has no `(...)` group
   * directly followed by `:`.
   */
  lemma LegacyParseOutcome(message: string)
    ensures var lines := Split(message, '\n'); var h := HeaderIndex(lines);
            var r := LegacyParseCommit(message);
            && (r == Failure(UndefinedHeader) <==> h == |lines|)
            && (r == Failure(NullMatch) <==> h < |lines| && GroupColon(lines[h]).None?)
            && (r.Success? <==> h < |lines| && GroupColon(lines[h]).Some?)
  {
    var lines := Split(message, '\n');
    var h := HeaderIndex(lines);
    var rest := if IsMergeLine(lines[0]) then lines[1..] else lines;
    assert rest == lines[h..];
    if h < |lines| {
      var header := lines[h];
      assert rest[0] == header;
      match GroupColon(header)
      case None =>
      case Some(c) =>
        assert ScopeCloseAt(header, c);
    }
  }

  /** The older parser finds its header at `HeaderIndex` and reads it with `LegacyReadHeader`. */
  lemma LegacyParseIsReadHeader(message: string)
    requires LegacyParseCommit(message).Success?
    ensures var lines := Split(message, '\n'); var h := HeaderIndex(lines);
            && h < |lines|
            && LegacyParseCommit(message) == LegacyReadHeader(if h == 1 then Some(lines[0]) else None, lines[h..])
  {
    var lines := Split(message, '\n');
    var h := HeaderIndex(lines);
    assert (if IsMergeLine(lines[0]) then lines[1..] else lines) == lines[h..];
  }

  /** The fields the older parser reads once the header `lines[h]` is found. */
  lemma LegacyHeaderFields(merge: Option<string>, lines: seq<string>, h: nat)
    requires h < |lines| && LegacyReadHeader(merge, lines[h..]).Success?
    ensures var r := LegacyReadHeader(merge, lines[h..]).value;
            && GroupColon(lines[h]).Some?
            && r.Conventional?
            && r.kind == lines[h][..TypeEnd(lines[h])]
            && r.scopes == ScopeList(lines[h]) && r.scopes.Some?
            && r.subject == SubjectAfter(lines[h], GroupColon(lines[h]).value + 1)
            && r.merge == merge
            && r.description == lines[h + 1..]
            && r.breaking == AnyBreaking(lines[h..])
  {
    var rest := lines[h..];
    assert rest[0] == lines[h] && rest[1..] == lines[h + 1..];
    assert ScopeCloseAt(lines[h], GroupColon(lines[h]).value);
  }

  /** Whatever the older parser returns carries a scope list: its subject expression needs the group. */
  lemma LegacyHasScopes(message: string)
    ensures LegacyParseCommit(message).Success? ==>
              LegacyParseCommit(message).value.Conventional? && LegacyParseCommit(message).value.scopes.Some?
  {
    var lines := Split(message, '\n');
    var rest := if IsMergeLine(lines[0]) then lines[1..] else lines;
    if rest != [] {
      var header := rest[0];
      match GroupColon(header)
      case None =>
      case Some(c) =>
        assert ScopeCloseAt(header, c);
    }
  }

  /** A header without a parenthesised scope, such as `feat: subject`, makes the older parser throw. */
  lemma UnscopedHeaderThrows(message: string)
    requires var lines := Split(message, '\n'); var h := HeaderIndex(lines);
             h < |lines| && TypeEnd(lines[h]) < |lines[h]| && lines[h][TypeEnd(lines[h])] == ':'
    ensures LegacyParseCommit(message) == Failure(NullMatch)
  {
    LegacyParseOutcome(message);
    var lines := Split(message, '\n');
    var h := lines[HeaderIndex(lines)];
    assert forall c: nat :: !GroupColonAt(h, c);
  }

  /**
   * Where the older parser succeeds on a header that the commit utilities also accept, both
   * parsers give the same record.
   */
  lemma LegacyAgreesOnValidHeaders(commit: Commit)
    requires LegacyParseCommit(GetCommitMessage(commit)).Success?
    requires ParseCommit(commit) != Success(Unconventional)
    ensures ParseCommit(commit) == LegacyParseCommit(GetCommitMessage(commit))
  {
    var lines := Split(GetCommitMessage(commit), '\n');
    var merge := if IsMergeLine(lines[0]) then Some(lines[0]) else None;
    var rest := if merge.Some? then lines[1..] else lines;
    HeaderReadersAgree(merge, rest);
  }

  /** The two header readers agree wherever the older one succeeds and the newer one accepts the header. */
  lemma HeaderReadersAgree(merge: Option<string>, rest: seq<string>)
    requires rest != [] && LegacyReadHeader(merge, rest).Success?
    requires ReadHeader(merge, rest) != Success(Unconventional)
    ensures ReadHeader(merge, rest) == LegacyReadHeader(merge, rest)
  {
    SubjectAfterGroup(rest[0]);
  }

  /** When the group can match, the subject colon of the commit utilities is the one right after it. */
  lemma SubjectAfterGroup(h: string)
    requires GroupColon(h).Some?
    ensures SubjectColon(h) == Some(GroupColon(h).value + 1)
  {
  }

  // ---------------------------------------------------------------------------------------------
  // Options and the change

  /** The executor's options; `None` is an option left out (undefined). */
  datatype CiOptions = CiOptions(
    commit: Option<bool>,
    publish: Option<bool>,
    push: Option<bool>,
    tag: Option<bool>,
    tagDelimiter: Option<string>,
    versionBumpPattern: Option<map<string, Bump>>,
    noCiMessage: Option<string>,
    publishScript: Option<string>)

  /** The options once the destructuring defaults are applied and the bump pattern is merged. */
  datatype Settings = Settings(
    commit: bool,
    publish: bool,
    push: bool,
    tag: bool,
    tagDelimiter: string,
    pattern: map<string, Bump>,
    noCiMessage: Option<string>,
    publishScript: string)

  const DefaultPattern: map<string, Bump> := map["feat" := Minor]

  /** `{ ...defaultVersionBump, ...versionBumpPattern }`. */
  function MergedPattern(user: Option<map<string, Bump>>): (m: map<string, Bump>)
    ensures m.Keys == {"feat"} + (if user.Some? then user.value.Keys else {})
    ensures user.Some? ==> forall k :: k in user.value ==> m[k] == user.value[k]
    ensures (user.None? || "feat" !in user.value) ==> m["feat"] == Minor
  {
    DefaultPattern + user.GetOr(map[])
  }

  function Resolve(o: CiOptions): Settings
  {
    Settings(
      o.commit.GetOr(true),
      o.publish.GetOr(true),
      o.push.GetOr(true),
      o.tag.GetOr(true),
      o.tagDelimiter.GetOr("||"),
      MergedPattern(o.versionBumpPattern),
      o.noCiMessage,
      o.publishScript.GetOr("publish"))
  }

  /** With no options at all the executor commits, tags, pushes and publishes, with the default pattern. */
  lemma NoOptionsMeansEverything()
    ensures Resolve(CiOptions(None, None, None, None, None, None, None, None))
         == Settings(true, true, true, true, "||", map["feat" := Minor], None, "publish")
  {
  }

  /**
   * The change of a parsed header under the merged pattern: major when breaking, otherwise the
   * user's entry for its type, otherwise minor for `feat`, otherwise patch.
   */
  lemma ChangeSelection(p: ParsedCommit, user: Option<map<string, Bump>>)
    requires p.Conventional?
    ensures CommitBump(p, MergedPattern(user))
         == if p.breaking then Major
            else if user.Some? && p.kind in user.value then user.value[p.kind]
            else if p.kind == "feat" then Minor
            else Patch
  {
  }

  // ---------------------------------------------------------------------------------------------
  // The plan

  /** What the executor asks of git, the file system and the task runner. */
  datatype Step =
    | BumpVersion(project: string, change: Bump)      // rewrite the project's package.json
    | AddConfig(key: string, value: string)           // `git.addConfig`
    | CommitFiles(projects: seq<string>, message: string)  // `git.add` of their package.json files, then `git.commit`
    | AddTag(name: string)
    | PushTags
    | RunTarget(project: string, target: string)      // the publish task of one project

  datatype ExecError =
    | NoLatestCommit                 // `commitLog.latest` is null
    | ParseFailed(error: TypeError)  // the header parser throws
    | NullScopes                     // `scopes.forEach` on a missing scope list
    | ProjectDoesNotExist(project: string)

  /** The steps the executor takes and how it settles. */
  datatype Run = Run(steps: seq<Step>, outcome: Result<(), ExecError>)

  /** The first scope, in order, that is not a workspace project. */
  function FirstMissing(scopes: seq<string>, projects: set<string>): (r: Option<string>)
    ensures r.None? <==> forall i :: 0 <= i < |scopes| ==> scopes[i] in projects
    ensures r.Some? ==> exists i :: 0 <= i < |scopes| && scopes[i] == r.value && r.value !in projects
                                  && forall j :: 0 <= j < i ==> scopes[j] in projects
    decreases |scopes|
  {
    if scopes == [] then None
    else if scopes[0] !in projects then Some(scopes[0])
    else
      var r := FirstMissing(scopes[1..], projects);
      assert forall i :: 1 <= i < |scopes| ==> scopes[i] == scopes[1..][i - 1];
      r
  }

  /** `versionChanges` after the bump loop: each scope mapped to the version its last bump produced. */
  function VersionChanges(scopes: seq<string>, versions: nat -> string): map<string, string>
  {
    if scopes == [] then map[]
    else VersionChanges(scopes[..|scopes| - 1], versions)[scopes[|scopes| - 1] := versions(|scopes| - 1)]
  }

  /**
   * Every scope has an entry in `versionChanges`, and it holds the version produced by the last
   * bump of that scope (bump number `i` produces `versions(i)`).
   */
  lemma {:induction false} VersionChangesLastWins(scopes: seq<string>, versions: nat -> string, i: nat)
    requires i < |scopes|
    requires forall j :: i < j < |scopes| ==> scopes[j] != scopes[i]
    ensures scopes[i] in VersionChanges(scopes, versions)
    ensures VersionChanges(scopes, versions)[scopes[i]] == versions(i)
    decreases |scopes|
  {
    var n := |scopes| - 1;
    if i < n {
      var init := scopes[..n];
      assert forall j :: i < j < |init| ==> init[j] == scopes[j];
      VersionChangesLastWins(init, versions, i);
    }
  }

  /** `versionChanges` has an entry exactly for the scopes. */
  lemma {:induction false} VersionChangesKeys(scopes: seq<string>, versions: nat -> string)
    ensures forall s :: s in VersionChanges(scopes, versions) <==> s in scopes
    decreases |scopes|
  {
    if scopes != [] {
      var init := scopes[..|scopes| - 1];
      VersionChangesKeys(init, versions);
      assert scopes == init + [scopes[|scopes| - 1]];
    }
  }

  function BumpSteps(scopes: seq<string>, change: Bump): seq<Step>
  {
    if scopes == [] then [] else BumpSteps(scopes[..|scopes| - 1], change) + [BumpVersion(scopes[|scopes| - 1], change)]
  }

  /** One bump step per scope, in order. */
  lemma {:induction false} BumpStepsAt(scopes: seq<string>, change: Bump)
    ensures |BumpSteps(scopes, change)| == |scopes|
    ensures forall i :: 0 <= i < |scopes| ==> BumpSteps(scopes, change)[i] == BumpVersion(scopes[i], change)
    decreases |scopes|
  {
    if scopes != [] {
      var init := scopes[..|scopes| - 1];
      BumpStepsAt(init, change);
      assert forall i :: 0 <= i < |init| ==> init[i] == scopes[i];
    }
  }

  /** `${scope}${tagDelimiter}${versionChanges[scope]}`; a missing entry prints as `undefined`. */
  function TagName(scope: string, delimiter: string, changes: map<string, string>): string
  {
    scope + delimiter + (if scope in changes then changes[scope] else "undefined")
  }

  function TagSteps(scopes: seq<string>, delimiter: string, changes: map<string, string>): seq<Step>
  {
    if scopes == [] then []
    else TagSteps(scopes[..|scopes| - 1], delimiter, changes) + [AddTag(TagName(scopes[|scopes| - 1], delimiter, changes))]
  }

  /** One tag step per scope, in order. */
  lemma {:induction false} TagStepsAt(scopes: seq<string>, delimiter: string, changes: map<string, string>)
    ensures |TagSteps(scopes, delimiter, changes)| == |scopes|
    ensures forall i :: 0 <= i < |scopes| ==> TagSteps(scopes, delimiter, changes)[i] == AddTag(TagName(scopes[i], delimiter, changes))
    decreases |scopes|
  {
    if scopes != [] {
      var init := scopes[..|scopes| - 1];
      TagStepsAt(init, delimiter, changes);
      assert forall i :: 0 <= i < |init| ==> init[i] == scopes[i];
    }
  }

  function PublishSteps(scopes: seq<string>, target: string): seq<Step>
  {
    if scopes == [] then [] else PublishSteps(scopes[..|scopes| - 1], target) + [RunTarget(scopes[|scopes| - 1], target)]
  }

  /** One publish step per scope, in order. */
  lemma {:induction false} PublishStepsAt(scopes: seq<string>, target: string)
    ensures |PublishSteps(scopes, target)| == |scopes|
    ensures forall i :: 0 <= i < |scopes| ==> PublishSteps(scopes, target)[i] == RunTarget(scopes[i], target)
    decreases |scopes|
  {
    if scopes != [] {
      var init := scopes[..|scopes| - 1];
      PublishStepsAt(init, target);
      assert forall i :: 0 <= i < |init| ==> init[i] == scopes[i];
    }
  }

  /** The message of the executor's own commit. */
  function CommitMessage(noCiMessage: Option<string>, scopes: seq<string>): string
  {
    noCiMessage.GetOr("") + " ci(" + Join(scopes, ',') + "): Bumped version of packages"
  }

  /** A scope as the executor's own message can carry it: no comma, no `)`, no line break, no padding. */
  predicate PlainScope(scope: string) {
    && ',' !in scope && ')' !in scope
    && (forall c :: c in scope ==> !IsLineTerminator(c))
    && Trim(scope) == scope
  }

  /**
   * Read as a header, the executor's own commit message gives back exactly the scopes it bumped,
   * provided the no-CI prefix holds neither `(` nor `:` and every scope is plain.
   */
  lemma CiCommitNamesItsScopes(noCiMessage: Option<string>, scopes: seq<string>)
    requires '(' !in noCiMessage.GetOr("") && ':' !in noCiMessage.GetOr("")
    requires |scopes| >= 1 && forall i :: 0 <= i < |scopes| ==> PlainScope(scopes[i])
    ensures ScopeList(CommitMessage(noCiMessage, scopes)) == Some(scopes)
  {
    var p := noCiMessage.GetOr("");
    var joined := Join(scopes, ',');
    PlainJoin(scopes);
    var tail := "): Bumped version of packages";
    CiTail();
    CiHeaderScope(p, joined, tail);
    var h := CommitMessage(noCiMessage, scopes);
    assert h == p + " ci(" + joined + tail;
    SplitJoin(scopes, ',');
    PlainScopesTrimmed(scopes);
  }

  lemma CiTail()
    ensures var tail := "): Bumped version of packages"; |tail| >= 1 && tail[0] == ')' && ')' !in tail[1..]
  {
    assert "): Bumped version of packages"[1..] == ": Bumped version of packages";
  }

  /** Plain scopes joined with commas hold no `)` and no line break. */
  lemma PlainJoin(scopes: seq<string>)
    requires forall i :: 0 <= i < |scopes| ==> PlainScope(scopes[i])
    ensures ')' !in Join(scopes, ',') && forall c :: c in Join(scopes, ',') ==> !IsLineTerminator(c)
  {
    JoinCharacters(scopes, ',');
  }

  lemma PlainScopesTrimmed(scopes: seq<string>)
    requires forall i :: 0 <= i < |scopes| ==> PlainScope(scopes[i])
    ensures TrimAll(scopes) == scopes
  {
  }

  /** In `prefix ci(joined)tail` the type ends at the `(` and the greedy capture is exactly `joined`. */
  lemma CiHeaderScope(p: string, joined: string, tail: string)
    requires '(' !in p && ':' !in p
    requires forall c :: c in joined ==> !IsLineTerminator(c)
    requires |tail| >= 1 && tail[0] == ')' && ')' !in tail[1..]
    ensures var h := p + " ci(" + joined + tail;
            var t := |p| + 3; var c := t + 1 + |joined|;
            TypeEnd(h) == t && ScopeClose(h) == Some(c) && h[t + 1..c] == joined
  {
    var h := p + " ci(" + joined + tail;
    var t := |p| + 3;
    var c := t + 1 + |joined|;
    CiHeaderType(p, joined + tail);
    assert h == p + " ci(" + (joined + tail);
    CiHeaderParts(p, joined, tail);
    forall k: nat | c < k < |h| ensures !ScopeCloseAt(h, k) {
      assert h[k] == tail[1..][k - c - 1];
    }
  }

  /** The pieces of `prefix ci(joined)tail`: the capture, its line, and where the `)` sits. */
  lemma CiHeaderParts(p: string, joined: string, tail: string)
    requires forall c :: c in joined ==> !IsLineTerminator(c)
    requires |tail| >= 1 && tail[0] == ')'
    ensures var h := p + " ci(" + joined + tail; var t := |p| + 3; var c := t + 1 + |joined|;
            && |h| == c + |tail| && h[t] == '(' && h[c] == ')' && h[t + 1..c] == joined
            && (forall k :: t < k < c ==> !IsLineTerminator(h[k]))
            && (forall k :: c <= k < |h| ==> h[k] == tail[k - c])
  {
    var h := p + " ci(" + joined + tail;
    var t := |p| + 3;
    assert h[t + 1..] == joined + tail;
    forall k | t < k < t + 1 + |joined| ensures !IsLineTerminator(h[k]) {
      assert h[k] == joined[k - t - 1];
    }
  }

  lemma CiHeaderType(p: string, rest: string)
    requires '(' !in p && ':' !in p
    ensures TypeEnd(p + " ci(" + rest) == |p| + 3
  {
    var h := p + " ci(" + rest;
    forall k | 0 <= k < |p| + 3 ensures !IsHeadStop(h[k]) {
      if k < |p| { assert h[k] == p[k]; }
    }
    assert h[|p| + 3] == '(';
  }

  const CiIdentity: seq<Step> := [AddConfig("user.email", "ci@ci.com"), AddConfig("user.name", "ci")]

  /** The commit: `git.add` of the bumped files and `git.commit`, when `commit` is set. */
  function CommitPart(s: Settings, scopes: seq<string>): seq<Step>
  {
    if s.commit then [CommitFiles(scopes, CommitMessage(s.noCiMessage, scopes))] else []
  }

  /** The tags, when both `tag` and `commit` are set. */
  function TagPart(s: Settings, scopes: seq<string>, versions: nat -> string): seq<Step>
  {
    if s.tag && s.commit then TagSteps(scopes, s.tagDelimiter, VersionChanges(scopes, versions)) else []
  }

  /** `git.push(['--tags'])`, when both `push` and `commit` are set. */
  function PushPart(s: Settings): seq<Step>
  {
    if s.push && s.commit then [PushTags] else []
  }

  function PublishPart(s: Settings, scopes: seq<string>): seq<Step>
  {
    if s.publish then PublishSteps(scopes, s.publishScript) else []
  }

  /** Everything after the bumps. */
  function PlanTail(s: Settings, scopes: seq<string>, versions: nat -> string): seq<Step>
  {
    CiIdentity + CommitPart(s, scopes) + TagPart(s, scopes, versions) + PushPart(s) + PublishPart(s, scopes)
  }

  /** The steps after a successful validation, given the change and the produced versions. */
  function Plan(s: Settings, scopes: seq<string>, change: Bump, versions: nat -> string): seq<Step>
  {
    BumpSteps(scopes, change) + PlanTail(s, scopes, versions)
  }

  /** The scope list the executor works on, or `None` when the destructured `scopes` is missing. */
  function ScopesOf(p: ParsedCommit): Option<seq<string>>
  {
    if p.Conventional? then p.scopes else None
  }

  /**
   * The executor once the settings are resolved and the header is parsed: a parse failure or a
   * missing scope list throws, so does a scope that is not a project, and otherwise the plan runs.
   */
  function RunOn(s: Settings, parsed: Result<ParsedCommit, TypeError>, projects: set<string>,
                 versions: nat -> string): Run
  {
    if parsed.Failure? then Run([], Failure(ParseFailed(parsed.error)))
    else
      match ScopesOf(parsed.value)
      case None => Run([], Failure(NullScopes))
      case Some(scopes) =>
        match FirstMissing(scopes, projects)
        case Some(missing) => Run([], Failure(ProjectDoesNotExist(missing)))
        case None => Run(Plan(s, scopes, CommitBump(parsed.value, s.pattern), versions), Success(()))
  }

  /** The whole executor, as a function of its options, the latest commit, the projects and the versions. */
  function ExecutorRun(options: CiOptions, latest: Option<Commit>, projects: set<string>,
                       versions: nat -> string): Run
  {
    if latest.None? then Run([], Failure(NoLatestCommit))
    else RunOn(Resolve(options), LegacyParseCommit(GetCommitMessage(latest.value)), projects, versions)
  }

  // ---------------------------------------------------------------------------------------------
  // Properties of a run

  /**
   * The scope list is never missing once the header parses (the older parser requires the
   * group), and every failure happens before any step is taken.
   */
  lemma FailsBeforeAnyStep(options: CiOptions, latest: Option<Commit>, projects: set<string>, versions: nat -> string)
    ensures var run := ExecutorRun(options, latest, projects, versions);
            && run.outcome != Failure(NullScopes)
            && (run.outcome.Failure? ==> run.steps == [])
  {
    if latest.Some? {
      LegacyHasScopes(GetCommitMessage(latest.value));
    }
  }

  /**
   * With a parsed header, a run succeeds exactly when every scope is a workspace project; when one
   * is not, the run fails naming the first such scope and takes no step.
   */
  lemma ScopeValidation(s: Settings, parsed: Result<ParsedCommit, TypeError>, projects: set<string>,
                        versions: nat -> string)
    requires parsed.Success? && ScopesOf(parsed.value).Some?
    ensures var scopes := ScopesOf(parsed.value).value; var run := RunOn(s, parsed, projects, versions);
            && (run.outcome.Success? <==> forall i :: 0 <= i < |scopes| ==> scopes[i] in projects)
            && (run.outcome.Failure? ==>
                  && run.steps == []
                  && exists i :: 0 <= i < |scopes| && run.outcome == Failure(ProjectDoesNotExist(scopes[i]))
                              && scopes[i] !in projects && forall j :: 0 <= j < i ==> scopes[j] in projects)
  {
  }

  lemma {:induction false} TagStepsAreTags(scopes: seq<string>, delimiter: string, changes: map<string, string>)
    ensures forall x :: x in TagSteps(scopes, delimiter, changes) ==> x.AddTag?
    decreases |scopes|
  {
    if scopes != [] {
      TagStepsAreTags(scopes[..|scopes| - 1], delimiter, changes);
    }
  }

  lemma {:induction false} PublishStepsArePublishes(scopes: seq<string>, target: string)
    ensures forall x :: x in PublishSteps(scopes, target) ==> x.RunTarget?
    decreases |scopes|
  {
    if scopes != [] {
      PublishStepsArePublishes(scopes[..|scopes| - 1], target);
    }
  }

  /** After the bumps come only the git identity, git steps and publish tasks; and git steps only with `commit`. */
  lemma PlanTailSteps(s: Settings, scopes: seq<string>, versions: nat -> string)
    ensures forall x :: x in PlanTail(s, scopes, versions) ==> !x.BumpVersion?
    ensures (exists x :: x in PlanTail(s, scopes, versions) && (x.AddTag? || x.PushTags? || x.CommitFiles?)) ==> s.commit
  {
    TagStepsAreTags(scopes, s.tagDelimiter, VersionChanges(scopes, versions));
    PublishStepsArePublishes(scopes, s.publishScript);
  }

  /** A successful run starts by bumping every scope, in order, by the one selected change, and bumps nothing else. */
  lemma BumpsComeFirst(s: Settings, parsed: Result<ParsedCommit, TypeError>, projects: set<string>,
                       versions: nat -> string)
    requires RunOn(s, parsed, projects, versions).outcome.Success?
    ensures parsed.Success? && ScopesOf(parsed.value).Some?
    ensures var steps := RunOn(s, parsed, projects, versions).steps;
            var scopes := ScopesOf(parsed.value).value;
            var change := CommitBump(parsed.value, s.pattern);
            && |scopes| <= |steps|
            && (forall i :: 0 <= i < |scopes| ==> steps[i] == BumpVersion(scopes[i], change))
            && (forall i :: |scopes| <= i < |steps| ==> !steps[i].BumpVersion?)
  {
    var steps := RunOn(s, parsed, projects, versions).steps;
    var scopes := ScopesOf(parsed.value).value;
    var change := CommitBump(parsed.value, s.pattern);
    var tail := PlanTail(s, scopes, versions);
    assert steps == BumpSteps(scopes, change) + tail;
    BumpStepsAt(scopes, change);
    PlanTailSteps(s, scopes, versions);
    forall i | |scopes| <= i < |steps| ensures !steps[i].BumpVersion? {
      assert steps[i] == tail[i - |scopes|];
    }
  }

  /** Tags, the push and the commit happen only when the executor commits. */
  lemma TagAndPushNeedCommit(s: Settings, parsed: Result<ParsedCommit, TypeError>, projects: set<string>,
                             versions: nat -> string)
    ensures var steps := RunOn(s, parsed, projects, versions).steps;
            ((exists i :: 0 <= i < |steps| && (steps[i].AddTag? || steps[i].PushTags? || steps[i].CommitFiles?))
               ==> s.commit)
  {
    var run := RunOn(s, parsed, projects, versions);
    if run.outcome.Success? {
      var scopes := ScopesOf(parsed.value).value;
      var change := CommitBump(parsed.value, s.pattern);
      var bumps := BumpSteps(scopes, change);
      var tail := PlanTail(s, scopes, versions);
      assert run.steps == bumps + tail;
      BumpStepsAt(scopes, change);
      PlanTailSteps(s, scopes, versions);
      forall i | 0 <= i < |run.steps| && (run.steps[i].AddTag? || run.steps[i].PushTags? || run.steps[i].CommitFiles?)
        ensures s.commit
      {
        if i >= |bumps| {
          assert run.steps[i] == tail[i - |bumps|];
        }
      }
    }
  }

  /**
   * When the executor commits and tags, every scope is tagged `scope + delimiter + version`, with the
   * version its last bump produced.
   */
  lemma TagsNameLastVersion(s: Settings, parsed: Result<ParsedCommit, TypeError>, projects: set<string>,
                            versions: nat -> string, i: nat)
    requires RunOn(s, parsed, projects, versions).outcome.Success?
    requires s.commit && s.tag
    requires parsed.Success? && ScopesOf(parsed.value).Some?
    requires var scopes := ScopesOf(parsed.value).value;
             i < |scopes| && forall j :: i < j < |scopes| ==> scopes[j] != scopes[i]
    ensures var scopes := ScopesOf(parsed.value).value;
            AddTag(scopes[i] + s.tagDelimiter + versions(i)) in RunOn(s, parsed, projects, versions).steps
  {
    var steps := RunOn(s, parsed, projects, versions).steps;
    var scopes := ScopesOf(parsed.value).value;
    var changes := VersionChanges(scopes, versions);
    VersionChangesLastWins(scopes, versions, i);
    TagStepsAt(scopes, s.tagDelimiter, changes);
    var tags := TagSteps(scopes, s.tagDelimiter, changes);
    assert tags[i] == AddTag(scopes[i] + s.tagDelimiter + versions(i));
    assert tags == TagPart(s, scopes, versions);
    assert tags[i] in PlanTail(s, scopes, versions);
  }

  // ---------------------------------------------------------------------------------------------
  // The executor as the program runs it

  /** `scopes.forEach(...)` with its throw: the first scope that is not a project, if any. */
  method CheckScopes(scopes: seq<string>, projects: set<string>) returns (missing: Option<string>)
    ensures missing == FirstMissing(scopes, projects)
  {
    var i := 0;
    while i < |scopes|
      invariant 0 <= i <= |scopes|
      invariant FirstMissing(scopes, projects) == FirstMissing(scopes[i..], projects)
    {
      if scopes[i] !in projects {
        return Some(scopes[i]);
      }
      assert scopes[i..][1..] == scopes[i + 1..];
      i := i + 1;
    }
    return None;
  }

  /** The bump loop: one bump per scope, in order, recording each produced version in `versionChanges`. */
  method BumpScopes(scopes: seq<string>, change: Bump, versions: nat -> string)
    returns (steps: seq<Step>, versionChanges: map<string, string>)
    ensures steps == BumpSteps(scopes, change)
    ensures versionChanges == VersionChanges(scopes, versions)
  {
    steps := [];
    versionChanges := map[];
    var i := 0;
    while i < |scopes|
      invariant 0 <= i <= |scopes|
      invariant steps == BumpSteps(scopes[..i], change)
      invariant versionChanges == VersionChanges(scopes[..i], versions)
    {
      var newVersion := versions(i);
      steps := steps + [BumpVersion(scopes[i], change)];
      versionChanges := versionChanges[scopes[i] := newVersion];
      assert scopes[..i + 1][..i] == scopes[..i];
      i := i + 1;
    }
    assert scopes[..i] == scopes;
  }

  /** The tag loop. */
  method TagScopes(scopes: seq<string>, delimiter: string, versionChanges: map<string, string>)
    returns (steps: seq<Step>)
    ensures steps == TagSteps(scopes, delimiter, versionChanges)
  {
    steps := [];
    var i := 0;
    while i < |scopes|
      invariant 0 <= i <= |scopes|
      invariant steps == TagSteps(scopes[..i], delimiter, versionChanges)
    {
      steps := steps + [AddTag(TagName(scopes[i], delimiter, versionChanges))];
      assert scopes[..i + 1][..i] == scopes[..i];
      i := i + 1;
    }
    assert scopes[..i] == scopes;
  }

  /** The publish loop. */
  method PublishScopes(scopes: seq<string>, target: string) returns (steps: seq<Step>)
    ensures steps == PublishSteps(scopes, target)
  {
    steps := [];
    var i := 0;
    while i < |scopes|
      invariant 0 <= i <= |scopes|
      invariant steps == PublishSteps(scopes[..i], target)
    {
      steps := steps + [RunTarget(scopes[i], target)];
      assert scopes[..i + 1][..i] == scopes[..i];
      i := i + 1;
    }
    assert scopes[..i] == scopes;
  }

  /** The executor body: the latest commit is read and parsed, then the rest runs on the parse. */
  method Execute(options: CiOptions, latest: Option<Commit>, projects: set<string>, versions: nat -> string)
    returns (run: Run)
    ensures run == ExecutorRun(options, latest, projects, versions)
  {
    var s := Resolve(options);
    if latest.None? {
      return Run([], Failure(NoLatestCommit));
    }
    var parsed := LegacyParseCommit(GetCommitMessage(latest.value));
    run := RunParsed(s, parsed, projects, versions);
  }

  /** Validation, the change, then each group of steps as the settings allow. */
  method RunParsed(s: Settings, parsed: Result<ParsedCommit, TypeError>, projects: set<string>,
                   versions: nat -> string) returns (run: Run)
    ensures run == RunOn(s, parsed, projects, versions)
  {
    if parsed.Failure? {
      return Run([], Failure(ParseFailed(parsed.error)));
    }
    var scopes := ScopesOf(parsed.value);
    if scopes.None? {
      return Run([], Failure(NullScopes));
    }
    var missing := CheckScopes(scopes.value, projects);
    if missing.Some? {
      return Run([], Failure(ProjectDoesNotExist(missing.value)));
    }
    var change := CommitBump(parsed.value, s.pattern);
    var bumps, versionChanges := BumpScopes(scopes.value, change, versions);
    var tail := CiIdentity;
    if s.commit {
      tail := tail + [CommitFiles(scopes.value, CommitMessage(s.noCiMessage, scopes.value))];
    }
    assert tail == CiIdentity + CommitPart(s, scopes.value);
    if s.tag && s.commit {
      var tags := TagScopes(scopes.value, s.tagDelimiter, versionChanges);
      tail := tail + tags;
    }
    assert tail == CiIdentity + CommitPart(s, scopes.value) + TagPart(s, scopes.value, versions);
    if s.push && s.commit {
      tail := tail + [PushTags];
    }
    if s.publish {
      var published := PublishScopes(scopes.value, s.publishScript);
      tail := tail + published;
    }
    assert tail == PlanTail(s, scopes.value, versions);
    run := Run(bumps + tail, Success(()));
  }
}
