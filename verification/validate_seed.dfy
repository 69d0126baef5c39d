/** The seed validator: a short-circuiting pipeline of fatal checks over a seed
    document (org, project, repos, issues), with advisory warnings collected on
    the way and a summary on success. */
module ValidateSeed {
  import opened Wrappers
  import opened PyText
  import opened JsonValue

  const PriorityOpts: set<string> := {"FIRE", "High", "Medium", "Low", "Nice to Have"}
  const SizeOpts: set<string> := {"XS", "S", "M", "L", "XL"}
  const EstimateOpts: set<string> := {"1", "2", "3"}

  /** Process exit statuses: success, a reported validation failure, and an
      uncaught Python exception. */
  const ExitValid := 0
  const ExitInvalid := 3
  const ExitCrash := 1

  /** The first fatal condition met. Indices are 1-based, as reported. The two
      `Unhashable` cases are not reported by the program: they are the
      `TypeError` Python raises when a list or dict meets a `set`. */
  datatype FatalError =
    | UsageError
    | ParseFailure
    | TopLevelNotObject
    | OrgNameRequired
    | OrgShortnameRequired
    | ProjectTitleRequired
    | ReposNotArray
    | RepoMissingName(index: nat)
    | UnhashableRepoName(index: nat)
    | IssuesNotArray
    | IssueNotObject(index: nat)
    | IssueMissingKey(index: nat)
    | IssueDuplicateKey(index: nat, key: string)
    | IssueMissingTitle(index: nat)
    | UnhashableWorkRepo(index: nat)
  {
    predicate IsCrash() {
      UnhashableRepoName? || UnhashableWorkRepo?
    }

    /** Raised by the checks on the top level, org and project. */
    predicate IsHeader() {
      TopLevelNotObject? || OrgNameRequired? || OrgShortnameRequired? || ProjectTitleRequired?
    }

    /** Raised by the repos checks. */
    predicate IsRepos() {
      ReposNotArray? || RepoMissingName? || UnhashableRepoName?
    }

    /** Raised inside the issue loop, about the issue at `index`. */
    predicate AtIssue() {
      IssueNotObject? || IssueMissingKey? || IssueDuplicateKey? || IssueMissingTitle? || UnhashableWorkRepo?
    }
  }

  /** The three issue fields checked against a fixed set of options. */
  datatype Advisory = Priority | Estimate | Size {
    function Field(): string {
      match this
      case Priority => "priority"
      case Estimate => "estimate"
      case Size => "size"
    }

    function Options(): set<string> {
      match this
      case Priority => PriorityOpts
      case Estimate => EstimateOpts
      case Size => SizeOpts
    }
  }

  /** The order in which an issue's advisory fields are checked. */
  const AdvisoryOrder: seq<Advisory> := [Priority, Estimate, Size]

  /** An advisory finding about issue `index`, carrying the offending raw value. */
  datatype Warning =
    | NotAnOption(index: nat, field: Advisory, value: Json)
    | UnknownWorkRepo(index: nat, value: Json)

  datatype Summary = Summary(org: Json, project: Json, repoCount: nat, issueCount: nat)

  datatype Report = Report(result: Result<Summary, FatalError>, warnings: seq<Warning>)

  function ExitCode(r: Report): (code: int)
    ensures code == ExitValid <==> r.result.Success?
    ensures r.result.Failure? ==> (code == ExitCrash <==> r.result.error.IsCrash())
    ensures r.result.Failure? && !r.result.error.IsCrash() ==> code == ExitInvalid
  {
    match r.result
    case Success(_) => ExitValid
    case Failure(e) => if e.IsCrash() then ExitCrash else ExitInvalid
  }

  /** `to_str(x).strip()` is truthy, stated by kind of value: anything but
      `None` and a string of whitespace (see `NonBlankIff`). */
  predicate NonBlank(j: Json) {
    !j.JNull? && !(j.JStr? && AllSpace(j.s))
  }

  /** `NonBlank` is the program's test `to_str(x).strip()`. */
  lemma NonBlankIff(j: Json)
    ensures NonBlank(j) <==> Strip(ToStr(j)) != []
  {
    BlankIff(j);
  }

  /** `x or {}`. */
  function OrEmpty(j: Json): Json {
    if Truthy(j) then j else JObj([])
  }

  function Org(doc: Json): Json
    requires doc.JObj?
  {
    OrEmpty(Get(doc, "org"))
  }

  function Project(doc: Json): Json
    requires doc.JObj?
  {
    OrEmpty(Get(doc, "project"))
  }

  function Repos(doc: Json): Json
    requires doc.JObj?
  {
    GetOr(doc, "repos", JArr([]))
  }

  function Issues(doc: Json): Json
    requires doc.JObj?
  {
    GetOr(doc, "issues", JArr([]))
  }

  predicate OrgNameOk(doc: Json)
    requires doc.JObj?
  {
    Org(doc).JObj? && NonBlank(Get(Org(doc), "name"))
  }

  predicate OrgShortnameOk(doc: Json)
    requires doc.JObj? && Org(doc).JObj?
  {
    NonBlank(Get(Org(doc), "shortname"))
  }

  predicate ProjectTitleOk(doc: Json)
    requires doc.JObj?
  {
    Project(doc).JObj? && NonBlank(Get(Project(doc), "title"))
  }

  // ---------------------------------------------------------------- repos

  predicate RepoNamed(r: Json) {
    r.JObj? && NonBlank(Get(r, "name"))
  }

  predicate RepoOk(r: Json) {
    RepoNamed(r) && HashKeyOf(Get(r, "name")).Some?
  }

  /** The key a repo that passed the checks adds to the name set. */
  function RepoKey(r: Json): HashKey
    requires RepoOk(r)
  {
    HashKeyOf(Get(r, "name")).value
  }

  /** The set the program builds from repo names `repos[i..]`. */
  ghost function RepoKeys(repos: seq<Json>, i: nat): set<HashKey>
    requires i <= |repos|
    requires forall j :: i <= j < |repos| ==> RepoOk(repos[j])
    decreases |repos| - i
  {
    if i == |repos| then {} else {RepoKey(repos[i])} + RepoKeys(repos, i + 1)
  }

  /** The name set holds exactly the keys of the repos' names. */
  lemma {:induction false} RepoKeysMembers(repos: seq<Json>, i: nat, x: HashKey)
    requires i <= |repos|
    requires forall j :: i <= j < |repos| ==> RepoOk(repos[j])
    ensures x in RepoKeys(repos, i) <==> exists j :: i <= j < |repos| && RepoKey(repos[j]) == x
    decreases |repos| - i
  {
    if i < |repos| {
      RepoKeysMembers(repos, i + 1, x);
      if RepoKey(repos[i]) != x && x !in RepoKeys(repos, i + 1) {
        forall j | i <= j < |repos|
          ensures RepoKey(repos[j]) != x
        {
          if j > i {
            assert !(i + 1 <= j < |repos| && RepoKey(repos[j]) == x);
          }
        }
      }
    }
  }

  /** The position of the first repo at or after `i` that fails the checks, or
      `|repos|` when none does. */
  ghost function FirstBadRepo(repos: seq<Json>, i: nat): (k: nat)
    requires i <= |repos|
    ensures i <= k <= |repos|
    ensures forall j :: i <= j < k ==> RepoOk(repos[j])
    ensures k < |repos| ==> !RepoOk(repos[k])
    decreases |repos| - i
  {
    if i == |repos| || !RepoOk(repos[i]) then i else FirstBadRepo(repos, i + 1)
  }

  /** A bad repo after good ones is the first bad one. */
  lemma {:induction false} FirstBadRepoAt(repos: seq<Json>, i: nat, k: nat)
    requires i <= k < |repos|
    requires forall j :: i <= j < k ==> RepoOk(repos[j])
    requires !RepoOk(repos[k])
    ensures FirstBadRepo(repos, i) == k
    decreases k - i
  {
    if i < k {
      FirstBadRepoAt(repos, i + 1, k);
    }
  }

  /** The repo loop from position `i` on, `names` holding what was added before:
      it stops at the first repo that is not an object with a non-blank,
      hashable name, and otherwise yields every repo's raw name. */
  function CollectRepoNames(repos: seq<Json>, i: nat, names: set<HashKey>): (r: Result<set<HashKey>, FatalError>)
    requires i <= |repos|
    ensures var k := FirstBadRepo(repos, i);
      if k == |repos| then r == Success(names + RepoKeys(repos, i))
      else r == Failure(if RepoNamed(repos[k]) then UnhashableRepoName(k + 1) else RepoMissingName(k + 1))
    decreases |repos| - i
  {
    if i == |repos| then
      assert names + RepoKeys(repos, i) == names;
      Success(names)
    else if !RepoNamed(repos[i]) then Failure(RepoMissingName(i + 1))
    else match HashKeyOf(Get(repos[i], "name"))
      case None => Failure(UnhashableRepoName(i + 1))
      case Some(key) =>
        var r := CollectRepoNames(repos, i + 1, names + {key});
        if r.Success? then
          assert names + {key} + RepoKeys(repos, i + 1) == names + RepoKeys(repos, i);
          r
        else r
  }

  /** There are never more distinct repo names than repos. */
  lemma {:induction false} RepoKeysBound(repos: seq<Json>, i: nat)
    requires i <= |repos|
    requires forall j :: i <= j < |repos| ==> RepoOk(repos[j])
    ensures |RepoKeys(repos, i)| <= |repos| - i
    decreases |repos| - i
  {
    if i < |repos| {
      RepoKeysBound(repos, i + 1);
    }
  }

  // --------------------------------------------------------------- issues

  function StrippedKey(it: Json): string
    requires it.JObj?
  {
    Strip(ToStr(Get(it, "key")))
  }

  predicate TitleOk(it: Json)
    requires it.JObj?
  {
    NonBlank(Get(it, "title"))
  }

  /** The program looks `work_repo` up in the repo set: present, and `to_str` non-empty. */
  predicate WorkRepoLookedUp(it: Json)
    requires it.JObj?
  {
    Get(it, "work_repo") != JNull && ToStr(Get(it, "work_repo")) != []
  }

  predicate WorkRepoHashable(it: Json)
    requires it.JObj?
  {
    WorkRepoLookedUp(it) ==> HashKeyOf(Get(it, "work_repo")).Some?
  }

  /** Everything about one issue, except key uniqueness, that lets the issue loop pass it. */
  predicate IssueShapeOk(it: Json) {
    it.JObj? && StrippedKey(it) != [] && TitleOk(it) && WorkRepoHashable(it)
  }

  /** The option warnings of one issue for `fields`, in order: a field warns when
      it is present and its `to_str` is not among its options. */
  function OptionWarnings(it: Json, idx: nat, fields: seq<Advisory>): (w: seq<Warning>)
    requires it.JObj?
    ensures |w| <= |fields|
  {
    if fields == [] then []
    else
      var v := Get(it, fields[0].Field());
      (if v != JNull && ToStr(v) !in fields[0].Options() then [NotAnOption(idx, fields[0], v)] else [])
      + OptionWarnings(it, idx, fields[1..])
  }

  /** A warning is among the option warnings for `fields` exactly when it is an
      option warning about this issue, for one of `fields`, whose value is the
      field's, present, and not among the field's options. */
  lemma {:induction false} OptionWarningsIff(it: Json, idx: nat, fields: seq<Advisory>, w: Warning)
    requires it.JObj?
    ensures w in OptionWarnings(it, idx, fields)
        <==> && w.NotAnOption? && w.index == idx && w.field in fields
             && w.value == Get(it, w.field.Field()) && w.value != JNull && ToStr(w.value) !in w.field.Options()
  {
    if fields != [] {
      OptionWarningsIff(it, idx, fields[1..], w);
      var v := Get(it, fields[0].Field());
      var head := if v != JNull && ToStr(v) !in fields[0].Options() then [NotAnOption(idx, fields[0], v)] else [];
      assert OptionWarnings(it, idx, fields) == head + OptionWarnings(it, idx, fields[1..]);
      assert w.NotAnOption? ==> (w.field in fields <==> w.field == fields[0] || w.field in fields[1..]);
    }
  }

  /** All four warnings of one issue that passed its fatal checks. */
  function IssueWarnings(it: Json, idx: nat, names: set<HashKey>): (w: seq<Warning>)
    requires IssueShapeOk(it)
  {
    var wr := Get(it, "work_repo");
    OptionWarnings(it, idx, AdvisoryOrder)
    + (if WorkRepoLookedUp(it) && HashKeyOf(wr).value !in names then [UnknownWorkRepo(idx, wr)] else [])
  }

  /** When a warning about issue `it` is due, stated per kind. */
  predicate WarningDue(it: Json, w: Warning, names: set<HashKey>)
    requires IssueShapeOk(it)
  {
    match w
    case NotAnOption(_, a, v) => v == Get(it, a.Field()) && v != JNull && ToStr(v) !in a.Options()
    case UnknownWorkRepo(_, v) =>
      v == Get(it, "work_repo") && v != JNull && ToStr(v) != [] && HashKeyOf(v).value !in names
  }

  lemma IssueWarningsIff(it: Json, idx: nat, names: set<HashKey>, w: Warning)
    requires IssueShapeOk(it)
    ensures w in IssueWarnings(it, idx, names) <==> w.index == idx && WarningDue(it, w, names)
  {
    OptionWarningsIff(it, idx, AdvisoryOrder, w);
    if w.NotAnOption? {
      assert w.field == AdvisoryOrder[0] || w.field == AdvisoryOrder[1] || w.field == AdvisoryOrder[2];
    }
  }

  /** The outcome of one issue: go on with its stripped key and warnings, or stop. */
  datatype Step = Next(key: string, warnings: seq<Warning>) | Stop(error: FatalError, warnings: seq<Warning>)

  /** One turn of the issue loop, checks in source order: object, key non-blank,
      key unseen, title non-blank, then the warnings. */
  function CheckIssue(it: Json, idx: nat, seen: set<string>, names: set<HashKey>): (r: Step)
    ensures r.Next? <==> IssueShapeOk(it) && StrippedKey(it) !in seen
    ensures r.Next? ==> r.key == StrippedKey(it) && r.warnings == IssueWarnings(it, idx, names)
    ensures r.Stop? ==> r.error.AtIssue() && r.error.index == idx
    ensures r.Stop? && !r.error.UnhashableWorkRepo? ==> r.warnings == []
  {
    if !it.JObj? then Stop(IssueNotObject(idx), [])
    else
      var key := StrippedKey(it);
      if key == [] then Stop(IssueMissingKey(idx), [])
      else if key in seen then Stop(IssueDuplicateKey(idx, key), [])
      else if !TitleOk(it) then Stop(IssueMissingTitle(idx), [])
      else if !WorkRepoHashable(it) then Stop(UnhashableWorkRepo(idx), OptionWarnings(it, idx, AdvisoryOrder))
      else Next(key, IssueWarnings(it, idx, names))
  }

  datatype Scan = Scan(error: Option<FatalError>, warnings: seq<Warning>)

  /** The issue loop from position `i` on, with `seen` the keys already added. */
  function ScanIssues(issues: seq<Json>, names: set<HashKey>, i: nat, seen: set<string>): (r: Scan)
    requires i <= |issues|
    ensures r.error.Some? ==> r.error.value.AtIssue() && i < r.error.value.index <= |issues|
    decreases |issues| - i
  {
    if i == |issues| then Scan(None, [])
    else match CheckIssue(issues[i], i + 1, seen, names)
      case Stop(e, w) => Scan(Some(e), w)
      case Next(key, w) =>
        var rest := ScanIssues(issues, names, i + 1, seen + {key});
        Scan(rest.error, w + rest.warnings)
  }

  /** The stripped keys of the object issues before position `k`. */
  ghost function SeenKeys(issues: seq<Json>, k: nat): set<string>
    requires k <= |issues|
  {
    set j | 0 <= j < k && issues[j].JObj? :: StrippedKey(issues[j])
  }

  lemma SeenKeysStep(issues: seq<Json>, i: nat)
    requires i < |issues| && issues[i].JObj?
    ensures SeenKeys(issues, i + 1) == SeenKeys(issues, i) + {StrippedKey(issues[i])}
  {
  }

  /** Issue `j` passes the loop given the issues before it. */
  ghost predicate IssueAccepted(issues: seq<Json>, j: nat)
    requires j < |issues|
  {
    IssueShapeOk(issues[j]) && StrippedKey(issues[j]) !in SeenKeys(issues, j)
  }

  /** Every issue before position `k` has the right shape. */
  ghost predicate ShapesOk(issues: seq<Json>, k: nat)
    requires k <= |issues|
  {
    forall j :: 0 <= j < k ==> IssueShapeOk(issues[j])
  }

  /** The stripped keys of the issues before position `k` are pairwise distinct. */
  ghost predicate KeysDistinct(issues: seq<Json>, k: nat)
    requires k <= |issues| && ShapesOk(issues, k)
  {
    forall j, j' :: 0 <= j < j' < k ==> StrippedKey(issues[j]) != StrippedKey(issues[j'])
  }

  /** Every issue before position `k` is accepted: well shaped, keys distinct. */
  ghost predicate AcceptedPrefix(issues: seq<Json>, k: nat)
    requires k <= |issues|
  {
    ShapesOk(issues, k) && KeysDistinct(issues, k)
  }

  /** After an accepted prefix, the next issue extends it exactly when the loop
      accepts that issue. */
  lemma AcceptedStep(issues: seq<Json>, i: nat)
    requires i < |issues| && AcceptedPrefix(issues, i)
    ensures AcceptedPrefix(issues, i + 1) <==> IssueAccepted(issues, i)
  {
    if IssueAccepted(issues, i) {
      forall j | 0 <= j < i
        ensures StrippedKey(issues[j]) != StrippedKey(issues[i])
      {
        assert StrippedKey(issues[j]) in SeenKeys(issues, i);
      }
    }
  }

  lemma AcceptedShrink(issues: seq<Json>, k: nat, k': nat)
    requires k' <= k <= |issues| && AcceptedPrefix(issues, k)
    ensures AcceptedPrefix(issues, k')
  {
  }

  lemma ConcatAssoc<T>(a: seq<T>, b: seq<T>, c: seq<T>)
    ensures a + (b + c) == (a + b) + c
  {
  }

  /** The warnings issues `issues[i..k]` produce, in order. */
  function WarningsBetween(issues: seq<Json>, names: set<HashKey>, i: nat, k: nat): (w: seq<Warning>)
    requires i <= k <= |issues| && ShapesOk(issues, k)
    decreases k - i
  {
    if i == k then [] else IssueWarnings(issues[i], i + 1, names) + WarningsBetween(issues, names, i + 1, k)
  }

  /** A warning of `issues[i..k]` is one of issue `i`'s or one of the rest's. */
  lemma WarningsBetweenStep(issues: seq<Json>, names: set<HashKey>, i: nat, k: nat, w: Warning)
    requires i < k <= |issues| && ShapesOk(issues, k)
    ensures w in WarningsBetween(issues, names, i, k)
        <==> w in IssueWarnings(issues[i], i + 1, names) || w in WarningsBetween(issues, names, i + 1, k)
  {
    var cur := IssueWarnings(issues[i], i + 1, names);
    var rest := WarningsBetween(issues, names, i + 1, k);
    assert WarningsBetween(issues, names, i, k) == cur + rest;
  }

  /** A warning is among those of `issues[i..k]` exactly when the issue it names
      is one of them and the warning is due for that issue. */
  lemma {:induction false} WarningsBetweenIff(issues: seq<Json>, names: set<HashKey>, i: nat, k: nat, w: Warning)
    requires i <= k <= |issues| && ShapesOk(issues, k)
    ensures w in WarningsBetween(issues, names, i, k) <==> i < w.index <= k && WarningDue(issues[w.index - 1], w, names)
    decreases k - i
  {
    if i < k {
      WarningsBetweenStep(issues, names, i, k, w);
      WarningsBetweenIff(issues, names, i + 1, k, w);
      IssueWarningsIff(issues[i], i + 1, names, w);
      DueSplit(issues, names, i, k, w);
    }
  }

  /** A warning due for an issue of `issues[i..k]` is due for issue `i` or for
      one of the rest. */
  lemma DueSplit(issues: seq<Json>, names: set<HashKey>, i: nat, k: nat, w: Warning)
    requires i < k <= |issues| && ShapesOk(issues, k)
    ensures (i < w.index <= k && WarningDue(issues[w.index - 1], w, names))
        <==> (w.index == i + 1 && WarningDue(issues[i], w, names))
             || (i + 1 < w.index <= k && WarningDue(issues[w.index - 1], w, names))
  {
  }

  /** The loop, started at `i`, accepted every remaining issue and emitted `w`. */
  ghost predicate Completes(issues: seq<Json>, names: set<HashKey>, i: nat, w: seq<Warning>)
    requires i <= |issues|
  {
    AcceptedPrefix(issues, |issues|) && w == WarningsBetween(issues, names, i, |issues|)
  }

  /** The loop, started at `i` after an accepted prefix, stopped with `e` at the
      first issue it rejects, emitting `w`: the warnings of the issues it passed,
      then what the rejected issue's own check emitted. */
  ghost predicate RejectsAt(issues: seq<Json>, names: set<HashKey>, i: nat, e: FatalError, w: seq<Warning>)
    requires i <= |issues|
  {
    && e.AtIssue()
    && var k := e.index;
    && i < k <= |issues|
    && AcceptedPrefix(issues, k - 1)
    && !IssueAccepted(issues, k - 1)
    && var step := CheckIssue(issues[k - 1], k, SeenKeys(issues, k - 1), names);
       step.Stop? && e == step.error && w == WarningsBetween(issues, names, i, k - 1) + step.warnings
  }

  /** Where the issue loop, started at `i` after an accepted prefix, stops. */
  ghost predicate StopsAt(issues: seq<Json>, names: set<HashKey>, i: nat, s: Scan)
    requires i <= |issues|
  {
    && (s.error.None? <==> AcceptedPrefix(issues, |issues|))
    && (s.error.None? ==> Completes(issues, names, i, s.warnings))
    && (s.error.Some? ==> RejectsAt(issues, names, i, s.error.value, s.warnings))
  }

  /** An accepted issue in front of a completed run extends it. */
  lemma CompletesStep(issues: seq<Json>, names: set<HashKey>, i: nat, w: seq<Warning>)
    requires i < |issues| && Completes(issues, names, i + 1, w)
    ensures Completes(issues, names, i, IssueWarnings(issues[i], i + 1, names) + w)
  {
  }

  /** An accepted issue in front of a rejecting run extends it. */
  lemma RejectsStep(issues: seq<Json>, names: set<HashKey>, i: nat, e: FatalError, w: seq<Warning>)
    requires i < |issues| && AcceptedPrefix(issues, i + 1)
    requires RejectsAt(issues, names, i + 1, e, w)
    ensures RejectsAt(issues, names, i, e, IssueWarnings(issues[i], i + 1, names) + w)
  {
    var k := e.index;
    var step := CheckIssue(issues[k - 1], k, SeenKeys(issues, k - 1), names);
    var cur := IssueWarnings(issues[i], i + 1, names);
    var mid := WarningsBetween(issues, names, i + 1, k - 1);
    assert WarningsBetween(issues, names, i, k - 1) == cur + mid;
    ConcatAssoc(cur, mid, step.warnings);
  }

  /** An accepted issue adds its warnings in front of whatever the rest of the loop does. */
  lemma ScanAcceptStep(issues: seq<Json>, names: set<HashKey>, i: nat)
    requires i < |issues| && AcceptedPrefix(issues, i + 1)
    requires CheckIssue(issues[i], i + 1, SeenKeys(issues, i), names).Next?
    requires StopsAt(issues, names, i + 1, ScanIssues(issues, names, i + 1, SeenKeys(issues, i + 1)))
    ensures StopsAt(issues, names, i, ScanIssues(issues, names, i, SeenKeys(issues, i)))
  {
    var step := CheckIssue(issues[i], i + 1, SeenKeys(issues, i), names);
    SeenKeysStep(issues, i);
    var rest := ScanIssues(issues, names, i + 1, SeenKeys(issues, i + 1));
    assert ScanIssues(issues, names, i, SeenKeys(issues, i)) == Scan(rest.error, step.warnings + rest.warnings);
    if rest.error.None? {
      CompletesStep(issues, names, i, rest.warnings);
    } else {
      RejectsStep(issues, names, i, rest.error.value, rest.warnings);
    }
  }

  /** A rejected issue ends the loop with its own error and warnings. */
  lemma ScanRejectStep(issues: seq<Json>, names: set<HashKey>, i: nat)
    requires i < |issues| && AcceptedPrefix(issues, i) && !IssueAccepted(issues, i)
    ensures StopsAt(issues, names, i, ScanIssues(issues, names, i, SeenKeys(issues, i)))
  {
    var step := CheckIssue(issues[i], i + 1, SeenKeys(issues, i), names);
    assert ScanIssues(issues, names, i, SeenKeys(issues, i)) == Scan(Some(step.error), step.warnings);
    assert WarningsBetween(issues, names, i, i) == [];
    assert [] + step.warnings == step.warnings;
    if AcceptedPrefix(issues, |issues|) {
      AcceptedShrink(issues, |issues|, i + 1);
      AcceptedStep(issues, i);
    }
  }

  /** The issue loop, run from position `i` with the keys of the accepted prefix,
      either accepts every remaining issue or stops at the first one it rejects,
      reporting that issue's own error; the warnings it emits are those of the
      issues it passed (and, on a work_repo crash, the stopping issue's first three). */
  lemma {:induction false} ScanCorrect(issues: seq<Json>, names: set<HashKey>, i: nat)
    requires i <= |issues| && AcceptedPrefix(issues, i)
    ensures StopsAt(issues, names, i, ScanIssues(issues, names, i, SeenKeys(issues, i)))
    decreases |issues| - i
  {
    if i < |issues| {
      AcceptedStep(issues, i);
      if IssueAccepted(issues, i) {
        ScanCorrect(issues, names, i + 1);
        ScanAcceptStep(issues, names, i);
      } else {
        ScanRejectStep(issues, names, i);
      }
    } else {
      assert ScanIssues(issues, names, i, SeenKeys(issues, i)) == Scan(None, []);
      assert WarningsBetween(issues, names, i, i) == [];
    }
  }

  /** Two first rejections after the same accepted prefix are the same issue. */
  lemma FirstRejectionUnique(issues: seq<Json>, k: nat, k': nat)
    requires 1 <= k <= |issues| && 1 <= k' <= |issues|
    requires AcceptedPrefix(issues, k - 1) && !IssueAccepted(issues, k - 1)
    requires AcceptedPrefix(issues, k' - 1) && !IssueAccepted(issues, k' - 1)
    ensures k == k'
  {
  }

  // ------------------------------------------------------------- pipeline

  /** The checks on the top level, org and project pass. */
  predicate HeaderOk(doc: Json) {
    doc.JObj? && OrgNameOk(doc) && OrgShortnameOk(doc) && ProjectTitleOk(doc)
  }

  /** The checks on the top level, org and project, in source order: the first
      that fails, if any. */
  function HeaderError(doc: Json): (e: Option<FatalError>)
    ensures e.None? <==> HeaderOk(doc)
    ensures e.Some? ==> e.value.IsHeader()
  {
    if !doc.JObj? then Some(TopLevelNotObject)
    else if !OrgNameOk(doc) then Some(OrgNameRequired)
    else if !OrgShortnameOk(doc) then Some(OrgShortnameRequired)
    else if !ProjectTitleOk(doc) then Some(ProjectTitleRequired)
    else None
  }

  /** The fatal checks up to and including the repos loop pass. */
  ghost predicate ReposPass(doc: Json) {
    && HeaderOk(doc)
    && Repos(doc).JArr?
    && forall j :: 0 <= j < |Repos(doc).elems| ==> RepoOk(Repos(doc).elems[j])
  }

  /** The issue loop is reached. */
  ghost predicate IssuesReached(doc: Json) {
    ReposPass(doc) && Issues(doc).JArr?
  }

  /** The repo names the program collects from a document whose repos pass. */
  ghost function RepoNameSet(doc: Json): set<HashKey>
    requires ReposPass(doc)
  {
    RepoKeys(Repos(doc).elems, 0)
  }

  /** The repos checks, once the header passed: the set of repo names, or the
      first failure. */
  function ReposStage(doc: Json): (r: Result<set<HashKey>, FatalError>)
    requires HeaderOk(doc)
    ensures r.Failure? ==> r.error.IsRepos()
  {
    if !Repos(doc).JArr? then Failure(ReposNotArray) else CollectRepoNames(Repos(doc).elems, 0, {})
  }

  /** The repos checks pass exactly when every repo passes, and then yield the
      names of all repos. */
  lemma ReposStageSpec(doc: Json)
    requires HeaderOk(doc)
    ensures ReposStage(doc).Success? <==> ReposPass(doc)
    ensures ReposStage(doc).Success? ==> ReposStage(doc).value == RepoNameSet(doc)
  {
    if Repos(doc).JArr? {
      var repos := Repos(doc).elems;
      var k := FirstBadRepo(repos, 0);
      if k == |repos| {
        assert {} + RepoKeys(repos, 0) == RepoKeys(repos, 0);
      }
    }
  }

  /** The issues checks and the summary, once the repos passed with `names`. */
  function IssuesStage(doc: Json, names: set<HashKey>): (r: Report)
    requires HeaderOk(doc)
    ensures !Issues(doc).JArr? ==> r == Report(Failure(IssuesNotArray), [])
    ensures r.result.Failure? ==> r.result.error == IssuesNotArray || r.result.error.AtIssue()
    ensures r.result.Success? ==>
      && Issues(doc).JArr?
      && r.result.value.repoCount == |names|
      && r.result.value.issueCount == |Issues(doc).elems|
  {
    if !Issues(doc).JArr? then Report(Failure(IssuesNotArray), [])
    else
      var scan := ScanIssues(Issues(doc).elems, names, 0, {});
      match scan.error
      case Some(e) => Report(Failure(e), scan.warnings)
      case None =>
        var summary := Summary(Get(Org(doc), "name"), Get(Project(doc), "title"), |names|, |Issues(doc).elems|);
        Report(Success(summary), scan.warnings)
  }

  /** A seed document the validator accepts, stated declaratively: org and
      project present with non-blank name, shortname and title; repos and
      issues lists (or absent); every repo an object with a non-blank hashable
      name; every issue an object with non-blank key and title and a hashable
      work_repo; stripped keys pairwise distinct. Nothing about priority,
      estimate, size or the work_repo's membership appears. */
  ghost predicate ValidSeed(doc: Json) {
    IssuesReached(doc) && AcceptedPrefix(Issues(doc).elems, |Issues(doc).elems|)
  }

  /** The validator on an already-parsed document. */
  function Validate(doc: Json): (r: Report)
    ensures r.result.Success? ==> doc.JObj? && Issues(doc).JArr?
    ensures r.result.Success? ==> r.result.value.issueCount == |Issues(doc).elems|
    ensures r.result.Failure? ==> !r.result.error.ParseFailure? && !r.result.error.UsageError?
  {
    match HeaderError(doc)
    case Some(e) => Report(Failure(e), [])
    case None =>
      match ReposStage(doc)
      case Failure(e) => Report(Failure(e), [])
      case Success(names) => IssuesStage(doc, names)
  }

  /** The validator on the outcome of reading the file: `None` when it did not parse. */
  function ValidateSource(src: Option<Json>): (r: Report)
    ensures r.result == Failure(ParseFailure) <==> src.None?
    ensures r.result != Failure(UsageError)
    ensures src.None? ==> r.warnings == []
  {
    match src
    case None => Report(Failure(ParseFailure), [])
    case Some(doc) => Validate(doc)
  }

  /** The program on its argument vector (program name first); `read` stands
      for opening and parsing the named file. */
  function Run(argv: seq<string>, read: string -> Option<Json>): (r: Report)
    ensures r.result == Failure(UsageError) <==> |argv| != 2
    ensures r.result == Failure(ParseFailure) <==> |argv| == 2 && read(argv[1]).None?
    ensures r.result.Success? ==> |argv| == 2 && read(argv[1]).Some? && r == Validate(read(argv[1]).value)
    ensures ExitCode(r) != ExitCrash ==> r.result.Success? || ExitCode(r) == ExitInvalid
  {
    if |argv| != 2 then Report(Failure(UsageError), [])
    else ValidateSource(read(argv[1]))
  }

  /** Once the issue loop is reached, the validator's outcome is the loop's, run
      with the collected repo names. */
  lemma IssueLoopOutcome(doc: Json)
    requires IssuesReached(doc)
    ensures var issues := Issues(doc).elems;
      var s := ScanIssues(issues, RepoNameSet(doc), 0, SeenKeys(issues, 0));
      && StopsAt(issues, RepoNameSet(doc), 0, s)
      && Validate(doc).warnings == s.warnings
      && (s.error.Some? <==> Validate(doc).result.Failure?)
      && (s.error.Some? ==> Validate(doc).result.error == s.error.value)
  {
    var issues := Issues(doc).elems;
    ReposStageSpec(doc);
    assert SeenKeys(issues, 0) == {};
    ScanCorrect(issues, RepoNameSet(doc), 0);
  }

  /** The validator succeeds exactly on the documents `ValidSeed` describes, so
      no priority, estimate, size or work_repo membership can change the outcome. */
  lemma ValidateAcceptsIff(doc: Json)
    ensures Validate(doc).result.Success? <==> ValidSeed(doc)
  {
    if HeaderOk(doc) {
      ReposStageSpec(doc);
    }
    if IssuesReached(doc) {
      IssueLoopOutcome(doc);
    }
  }

  /** Every failure before the issue loop is reported without warnings. */
  lemma EarlyFailureSilent(doc: Json)
    requires !IssuesReached(doc)
    ensures Validate(doc).result.Failure? && Validate(doc).warnings == []
  {
    if HeaderOk(doc) {
      ReposStageSpec(doc);
    }
  }

  /** On success: the summary echoes the raw org name and project title, counts
      the distinct raw repo names and the issues, and the warnings are exactly
      those of all issues in order. */
  lemma ValidateSummary(doc: Json)
    requires ValidSeed(doc)
    ensures var r := Validate(doc);
      && r.result.Success?
      && r.result.value.org == Get(Org(doc), "name")
      && r.result.value.project == Get(Project(doc), "title")
      && r.result.value.repoCount == |RepoNameSet(doc)| <= |Repos(doc).elems|
      && r.result.value.issueCount == |Issues(doc).elems|
      && NonBlank(r.result.value.org) && NonBlank(r.result.value.project)
      && r.warnings == WarningsBetween(Issues(doc).elems, RepoNameSet(doc), 0, |Issues(doc).elems|)
  {
    IssueLoopOutcome(doc);
    RepoKeysBound(Repos(doc).elems, 0);
  }

  /** On success a warning is emitted exactly when it is due for the issue it names. */
  lemma ValidWarningsIff(doc: Json, w: Warning)
    requires ValidSeed(doc)
    ensures w in Validate(doc).warnings
        <==> 1 <= w.index <= |Issues(doc).elems| && WarningDue(Issues(doc).elems[w.index - 1], w, RepoNameSet(doc))
  {
    ValidateSummary(doc);
    WarningsBetweenIff(Issues(doc).elems, RepoNameSet(doc), 0, |Issues(doc).elems|, w);
  }

  /** The header checks run in order: top level, org.name, org.shortname,
      project.title. */
  lemma HeaderOrder(doc: Json)
    ensures Validate(doc).result == Failure(TopLevelNotObject) <==> !doc.JObj?
    ensures Validate(doc).result == Failure(OrgNameRequired) <==> doc.JObj? && !OrgNameOk(doc)
    ensures Validate(doc).result == Failure(OrgShortnameRequired)
        <==> doc.JObj? && OrgNameOk(doc) && !OrgShortnameOk(doc)
    ensures Validate(doc).result == Failure(ProjectTitleRequired)
        <==> doc.JObj? && OrgNameOk(doc) && OrgShortnameOk(doc) && !ProjectTitleOk(doc)
  {
    if HeaderOk(doc) {
      HeaderPassed(doc);
    } else {
      HeaderFailureReported(doc);
    }
  }

  /** A failing header check is the validator's outcome, with no warnings. */
  lemma HeaderFailureReported(doc: Json)
    requires HeaderError(doc).Some?
    ensures Validate(doc) == Report(Failure(HeaderError(doc).value), [])
  {
  }

  /** Past the header, no header error is reported. */
  lemma HeaderPassed(doc: Json)
    requires HeaderOk(doc)
    ensures Validate(doc).result.Success? || !Validate(doc).result.error.IsHeader()
  {
    match ReposStage(doc)
    case Failure(e) =>
      assert Validate(doc).result == Failure(e);
    case Success(names) =>
      assert Validate(doc) == IssuesStage(doc, names);
  }

  /** A falsy org (absent, `null`, `false`, `0`, empty) reads as `{}`, which has
      no name. */
  lemma FalsyOrgRejected(doc: Json)
    requires doc.JObj? && !Truthy(Get(doc, "org"))
    ensures Validate(doc).result == Failure(OrgNameRequired)
  {
    assert Org(doc) == JObj([]);
    assert !OrgNameOk(doc);
  }

  /** A failing repos check is the validator's outcome, with no warnings. */
  lemma ReposFailureReported(doc: Json)
    requires HeaderOk(doc) && ReposStage(doc).Failure?
    ensures Validate(doc) == Report(Failure(ReposStage(doc).error), [])
  {
  }

  /** Once the repos passed, only the issues list and the issue loop can fail. */
  lemma ReposPassed(doc: Json)
    requires HeaderOk(doc) && ReposStage(doc).Success?
    ensures Validate(doc).result.Failure? ==>
      Validate(doc).result.error == IssuesNotArray || Validate(doc).result.error.AtIssue()
  {
    assert Validate(doc) == IssuesStage(doc, ReposStage(doc).value);
  }

  /** A repos error is the validator's outcome exactly when it is the repos
      stage's. */
  lemma ReposErrorIff(doc: Json, e: FatalError)
    requires HeaderOk(doc) && e.IsRepos()
    ensures Validate(doc).result == Failure(e) <==> ReposStage(doc) == Failure(e)
  {
    if ReposStage(doc).Failure? {
      ReposFailureReported(doc);
    } else {
      ReposPassed(doc);
    }
  }

  /** A missing repos list reads as empty; one present but not a list (`null`
      included) stops everything. */
  lemma ReposListOutcome(doc: Json)
    requires HeaderOk(doc)
    ensures Lookup(doc.members, "repos").None? ==> Repos(doc) == JArr([])
    ensures Validate(doc).result == Failure(ReposNotArray) <==> !Repos(doc).JArr?
  {
    ReposErrorIff(doc, ReposNotArray);
  }

  /** The first bad repo stops the validator with its 1-based index: as a
      missing name, or, for a list or object name, as the crash on adding it
      to the set. */
  lemma RepoRejectedAt(doc: Json, k: nat)
    requires HeaderOk(doc)
    ensures Validate(doc).result == Failure(RepoMissingName(k)) <==>
      && Repos(doc).JArr?
      && 1 <= k <= |Repos(doc).elems|
      && (forall j :: 0 <= j < k - 1 ==> RepoOk(Repos(doc).elems[j]))
      && !RepoNamed(Repos(doc).elems[k - 1])
    ensures Validate(doc).result == Failure(UnhashableRepoName(k)) <==>
      && Repos(doc).JArr?
      && 1 <= k <= |Repos(doc).elems|
      && (forall j :: 0 <= j < k - 1 ==> RepoOk(Repos(doc).elems[j]))
      && RepoNamed(Repos(doc).elems[k - 1]) && !RepoOk(Repos(doc).elems[k - 1])
  {
    ReposErrorIff(doc, RepoMissingName(k));
    ReposErrorIff(doc, UnhashableRepoName(k));
    if Repos(doc).JArr? {
      var repos := Repos(doc).elems;
      if 1 <= k <= |repos| && (forall j :: 0 <= j < k - 1 ==> RepoOk(repos[j])) && !RepoOk(repos[k - 1]) {
        FirstBadRepoAt(repos, 0, k - 1);
      }
    }
  }

  /** A missing issues list reads as empty; one present but not a list stops the
      validator after the repos passed. */
  lemma IssuesListOutcome(doc: Json)
    requires ReposPass(doc)
    ensures Lookup(doc.members, "issues").None? ==> Issues(doc) == JArr([])
    ensures Validate(doc).result == Failure(IssuesNotArray) <==> !Issues(doc).JArr?
  {
    ReposStageSpec(doc);
  }

  /** If issue `k` is the first the loop rejects, the validator fails with that
      issue's error, after the warnings of the issues before it and whatever
      the rejected issue itself emitted. */
  lemma IssueRejectedAt(doc: Json, k: nat)
    requires IssuesReached(doc)
    requires 1 <= k <= |Issues(doc).elems|
    requires AcceptedPrefix(Issues(doc).elems, k - 1) && !IssueAccepted(Issues(doc).elems, k - 1)
    ensures var issues := Issues(doc).elems;
      var step := CheckIssue(issues[k - 1], k, SeenKeys(issues, k - 1), RepoNameSet(doc));
      && step.Stop?
      && Validate(doc) == Report(Failure(step.error), WarningsBetween(issues, RepoNameSet(doc), 0, k - 1) + step.warnings)
  {
    var issues := Issues(doc).elems;
    IssueLoopOutcome(doc);
    var s := ScanIssues(issues, RepoNameSet(doc), 0, SeenKeys(issues, 0));
    if s.error.Some? {
      FirstRejectionUnique(issues, k, s.error.value.index);
    }
  }

  /** If every issue before `k` was accepted, the validator checks issue `k` for
      object, key, duplicate key and title in that order (so a duplicate key is
      reported even when the title is blank too), and on any of these emits
      exactly the warnings of issues 1..k-1. An issue that passes them all but
      has a list or dict `work_repo` crashes at the name-set lookup, after its
      own option warnings. */
  lemma IssueFailureAt(doc: Json, k: nat)
    requires IssuesReached(doc)
    requires 1 <= k <= |Issues(doc).elems|
    requires AcceptedPrefix(Issues(doc).elems, k - 1)
    ensures var issues := Issues(doc).elems;
      var it := issues[k - 1];
      var r := Validate(doc);
      var before := WarningsBetween(issues, RepoNameSet(doc), 0, k - 1);
      && (!it.JObj? ==> r == Report(Failure(IssueNotObject(k)), before))
      && (it.JObj? && StrippedKey(it) == [] ==> r == Report(Failure(IssueMissingKey(k)), before))
      && (it.JObj? && StrippedKey(it) != [] && StrippedKey(it) in SeenKeys(issues, k - 1) ==>
            r == Report(Failure(IssueDuplicateKey(k, StrippedKey(it))), before))
      && (it.JObj? && StrippedKey(it) != [] && StrippedKey(it) !in SeenKeys(issues, k - 1) && !TitleOk(it) ==>
            r == Report(Failure(IssueMissingTitle(k)), before))
      && (it.JObj? && StrippedKey(it) != [] && StrippedKey(it) !in SeenKeys(issues, k - 1) && TitleOk(it)
          && !WorkRepoHashable(it) ==>
            r == Report(Failure(UnhashableWorkRepo(k)), before + OptionWarnings(it, k, AdvisoryOrder)))
  {
    var issues := Issues(doc).elems;
    if !IssueAccepted(issues, k - 1) {
      IssueRejectedAt(doc, k);
      var step := CheckIssue(issues[k - 1], k, SeenKeys(issues, k - 1), RepoNameSet(doc));
      if !step.error.UnhashableWorkRepo? {
        assert step.warnings == [];
        var before := WarningsBetween(issues, RepoNameSet(doc), 0, k - 1);
        assert before + step.warnings == before;
      }
    }
  }

  /** Conversely, an error about an issue names the first issue the loop
      rejects: every issue before it was accepted, and the warnings are those of
      the issues before it plus what the rejected issue emitted. A duplicate-key
      error in particular names an issue whose stripped key equals that of an
      earlier issue. */
  lemma IssueErrorLocated(doc: Json)
    requires Validate(doc).result.Failure? && Validate(doc).result.error.AtIssue()
    ensures IssuesReached(doc)
    ensures var issues := Issues(doc).elems;
      var e := Validate(doc).result.error;
      && 1 <= e.index <= |issues|
      && AcceptedPrefix(issues, e.index - 1)
      && !IssueAccepted(issues, e.index - 1)
      && (e.IssueDuplicateKey? ==>
            && issues[e.index - 1].JObj?
            && e.key == StrippedKey(issues[e.index - 1]) != []
            && exists j :: 0 <= j < e.index - 1 && issues[j].JObj? && StrippedKey(issues[j]) == e.key)
  {
    ReposStageSpec(doc);
    IssueLoopOutcome(doc);
  }

  /** Issue keys compare as the dicts `json.load` builds: an issue keyed by an
      object with a repeated name (`{"a": 1, "a": 2}`) and a later issue keyed
      by the dict that object loads as (`{"a": 2}`) are duplicates, although
      the documents spell the keys differently. */
  lemma DictKeysCollide(doc: Json, m: seq<Member>)
    requires IssuesReached(doc) && |Issues(doc).elems| >= 2
    requires IssueShapeOk(Issues(doc).elems[0]) && Issues(doc).elems[1].JObj?
    requires Get(Issues(doc).elems[0], "key") == JObj(m)
    requires Get(Issues(doc).elems[1], "key") == JObj(DictItems(m))
    ensures Validate(doc).result == Failure(IssueDuplicateKey(2, StrippedKey(Issues(doc).elems[1])))
  {
    var issues := Issues(doc).elems;
    ToStrOfDict(m);
    BlankIff(JObj(DictItems(m)));
    assert AcceptedPrefix(issues, 1);
    assert SeenKeys(issues, 1) == {StrippedKey(issues[0])};
    IssueFailureAt(doc, 2);
  }
}
