/** The grammar of the pull-request commands that may be run on a user's behalf. */
module GithubArgv {
  import opened Options
  import opened JsText

  const MAX_SAFE_INTEGER := 9007199254740991
  const MAX_TITLE_CHARS := 256

  datatype Flag = RepoFlag | TitleFlag

  datatype Operation =
    | Close(prNumber: nat, repo: Option<string>)
    | Reopen(prNumber: nat, repo: Option<string>)
    | EditTitle(prNumber: nat, title: string, repo: Option<string>)

  /** One case per message. */
  datatype Problem =
    | NotAPullRequestCommand
    | UnsupportedAction
    | ValueRequired(flag: Flag)
    | InvalidOrRepeated(flag: Flag)
    | UnsupportedFlag(arg: string)
    | ExactlyOneTarget
    | BadTarget
    | EditNeedsTitle
    | TitleOnlyForEdit

  datatype Result<+T> = Ok(value: T) | Refused(problem: Problem)

  /** Path parts of the text as a URL, when it is an https URL of the host github.com. */
  type PullUrl = string -> Option<seq<string>>

  // ---- Targets and values

  predicate StartsWith(s: string, prefix: string) {
    prefix <= s
  }

  predicate IsPositiveNumeral(s: string) {
    s != "" && '1' <= s[0] <= '9' && forall i :: 0 <= i < |s| ==> '0' <= s[i] <= '9'
  }

  function NumeralValue(s: string): nat
    requires forall i :: 0 <= i < |s| ==> '0' <= s[i] <= '9'
  {
    if s == "" then 0 else 10 * NumeralValue(s[..|s| - 1]) + (s[|s| - 1] - '0') as nat
  }

  function SafeNumber(s: string): Option<nat>
    requires IsPositiveNumeral(s)
  {
    if NumeralValue(s) <= MAX_SAFE_INTEGER then Some(NumeralValue(s)) else None
  }

  function ParseTarget(s: string, url: PullUrl): Option<nat> {
    if IsPositiveNumeral(s) then SafeNumber(s)
    else
      var parts := url(s);
      if parts.None? || |parts.value| != 4 || parts.value[2] != "pull" || !IsPositiveNumeral(parts.value[3]) then None
      else SafeNumber(parts.value[3])
  }

  /** One slash with something on both sides and no white space. */
  predicate IsRepoName(s: string) {
    var slash := IndexOf(s, '/');
    0 < slash < |s| - 1 && '/' !in s[slash + 1..] && forall i :: 0 <= i < |s| ==> !IsSpace(s[i])
  }

  predicate ValidValue(flag: Flag, value: string) {
    match flag
    case RepoFlag => IsRepoName(value)
    case TitleFlag => value != "" && Utf16Length(value) <= MAX_TITLE_CHARS
  }

  function FlagText(flag: Flag): string {
    if flag == RepoFlag then "--repo" else "--title"
  }

  // ---- What targets and values are

  /** In decimal notation, or as the last of four path parts of the address of a pull request. */
  ghost predicate Designates(s: string, n: nat, url: PullUrl) {
    && 1 <= n <= 9007199254740991
    && (s == Decimal(n) || (!IsNumber(s) && url(s).Some? && |url(s).value| == 4 && url(s).value[2] == "pull"
                            && url(s).value[3] == Decimal(n)))
  }

  ghost predicate IsNumber(s: string) {
    exists n: nat :: n >= 1 && s == Decimal(n)
  }

  /** Owner and name, neither empty, with one slash between them and no white space. */
  predicate AreRepo(s: string, owner: string, name: string) {
    && s == owner + "/" + name && owner != "" && name != "" && '/' !in owner && '/' !in name
    && forall i :: 0 <= i < |s| ==> !IsSpace(s[i])
  }

  ghost predicate IsValue(flag: Flag, value: string) {
    match flag
    case RepoFlag => exists owner, name :: AreRepo(value, owner, name)
    case TitleFlag => 1 <= |value| && Utf16Length(value) <= 256
  }

  lemma {:induction false} NumeralIsDecimal(s: string)
    requires IsPositiveNumeral(s)
    ensures NumeralValue(s) >= 1 && s == Decimal(NumeralValue(s))
  {
    var front, last := s[..|s| - 1], s[|s| - 1];
    assert s == front + [last];
    if front != "" {
      NumeralIsDecimal(front);
    }
  }

  lemma {:induction false} DecimalIsNumeral(n: nat)
    requires n >= 1
    ensures IsPositiveNumeral(Decimal(n)) && NumeralValue(Decimal(n)) == n
  {
    if n >= 10 {
      DecimalIsNumeral(n / 10);
      assert Decimal(n)[..|Decimal(n)| - 1] == Decimal(n / 10);
    }
  }

  lemma TargetIff(s: string, n: nat, url: PullUrl)
    ensures ParseTarget(s, url) == Some(n) <==> Designates(s, n, url)
  {
    if IsPositiveNumeral(s) {
      NumeralIsDecimal(s);
    } else if url(s).Some? && |url(s).value| == 4 && IsPositiveNumeral(url(s).value[3]) {
      NumeralIsDecimal(url(s).value[3]);
    }
    if n >= 1 {
      DecimalIsNumeral(n);
    }
    forall m: nat | m >= 1 && s == Decimal(m) ensures IsPositiveNumeral(s) && NumeralValue(s) == m {
      DecimalIsNumeral(m);
    }
  }

  lemma RepoNameIff(s: string)
    ensures IsRepoName(s) <==> exists owner, name :: AreRepo(s, owner, name)
  {
    var slash := IndexOf(s, '/');
    if IsRepoName(s) {
      assert s == s[..slash] + "/" + s[slash + 1..];
      assert AreRepo(s, s[..slash], s[slash + 1..]);
    }
    if owner, name :| AreRepo(s, owner, name) {
      IndexOfFirst(owner, '/', name);
      assert s == owner + ['/'] + name;
      assert s[slash + 1..] == name;
    }
  }

  lemma ValueIff(flag: Flag, value: string)
    ensures ValidValue(flag, value) <==> IsValue(flag, value)
  {
    RepoNameIff(value);
  }

  // ---- The parser, one argument group at a time

  /** The loop's variables. */
  datatype Seen = Seen(target: Option<nat>, repo: Option<string>, title: Option<string>)

  const NOTHING := Seen(None, None, None)

  function Store(seen: Seen, flag: Flag, value: string): Result<Seen> {
    match flag
    case RepoFlag =>
      if seen.repo.Some? || !IsRepoName(value) then Refused(InvalidOrRepeated(RepoFlag))
        else Ok(seen.(repo := Some(value)))
    case TitleFlag =>
      if seen.title.Some? || value == "" || Utf16Length(value) > MAX_TITLE_CHARS
        then Refused(InvalidOrRepeated(TitleFlag))
      else Ok(seen.(title := Some(value)))
  }

  function StoreTarget(seen: Seen, arg: string, url: PullUrl): Result<Seen> {
    if StartsWith(arg, "-") then Refused(UnsupportedFlag(arg))
    else if seen.target.Some? then Refused(ExactlyOneTarget)
    else if ParseTarget(arg, url).None? then Refused(BadTarget)
    else Ok(seen.(target := ParseTarget(arg, url)))
  }

  function StoreAssigned(seen: Seen, arg: string): Result<Seen>
    requires '=' in arg
  {
    var equals := IndexOf(arg, '=');
    var flag := if arg[..equals] == "--repo" then RepoFlag else TitleFlag;
    if arg[equals + 1..] == "" then Refused(ValueRequired(flag)) else Store(seen, flag, arg[equals + 1..])
  }

  predicate IsAssignment(arg: string) {
    StartsWith(arg, "--repo=") || StartsWith(arg, "--title=")
  }

  lemma AssignmentHasEquals(arg: string)
    requires IsAssignment(arg)
    ensures '=' in arg
  {
    assert arg[6] == '=' || arg[7] == '=';
  }

  function ParseGroups(words: seq<string>, seen: Seen, url: PullUrl): Result<Seen> {
    if words == [] then Ok(seen)
    else
      var arg := words[0];
      if arg == "--repo" || arg == "--title" then
        var flag := if arg == "--repo" then RepoFlag else TitleFlag;
        if |words| == 1 || StartsWith(words[1], "-") then Refused(ValueRequired(flag))
        else
          var next := Store(seen, flag, words[1]);
          if next.Refused? then next else ParseGroups(words[2..], next.value, url)
      else
        var next :=
          if IsAssignment(arg) then AssignmentHasEquals(arg); StoreAssigned(seen, arg)
          else StoreTarget(seen, arg, url);
        if next.Refused? then next else ParseGroups(words[1..], next.value, url)
  }

  function Finish(action: string, seen: Seen): Result<Operation> {
    if seen.target.None? then Refused(ExactlyOneTarget)
    else if action == "edit" then
      if seen.title.None? then Refused(EditNeedsTitle)
        else Ok(EditTitle(seen.target.value, seen.title.value, seen.repo))
    else if seen.title.Some? then Refused(TitleOnlyForEdit)
    else if action == "close" then Ok(Close(seen.target.value, seen.repo))
    else Ok(Reopen(seen.target.value, seen.repo))
  }

  function Parse(argv: seq<string>, url: PullUrl): Result<Operation> {
    if |argv| < 3 || argv[0] != "pr" then Refused(NotAPullRequestCommand)
    else if argv[1] !in {"close", "reopen", "edit"} then Refused(UnsupportedAction)
    else
      var seen := ParseGroups(argv[2..], NOTHING, url);
      if seen.Refused? then Refused(seen.problem) else Finish(argv[1], seen.value)
  }

  method ParseGithubActionArgv(argv: seq<string>, url: PullUrl) returns (result: Result<Operation>)
    ensures result == Parse(argv, url)
  {
    if |argv| < 3 || argv[0] != "pr" {
      return Refused(NotAPullRequestCommand);
    }
    var action := argv[1];
    if action != "close" && action != "reopen" && action != "edit" {
      return Refused(UnsupportedAction);
    }
    var seen := NOTHING;
    var i := 2;
    while i < |argv|
      invariant 2 <= i <= |argv|
      invariant ParseGroups(argv[2..], NOTHING, url) == ParseGroups(argv[i..], seen, url)
    {
      var next;
      next, i := ReadGroup(argv, i, seen, url);
      if next.Refused? {
        return Refused(next.problem);
      }
      seen := next.value;
    }
    result := Finish(action, seen);
  }

  /** Reads the argument at position i, and the one behind it when that is its value. */
  method ReadGroup(argv: seq<string>, i: nat, seen: Seen, url: PullUrl) returns (next: Result<Seen>, i': nat)
    requires i < |argv|
    ensures next.Refused? ==> ParseGroups(argv[i..], seen, url) == next
    ensures next.Ok? ==> i < i' <= |argv|
    ensures next.Ok? ==> ParseGroups(argv[i..], seen, url) == ParseGroups(argv[i'..], next.value, url)
  {
    var arg := argv[i];
    i' := i + 1;
    assert argv[i..][0] == arg && argv[i..][1..] == argv[i + 1..];
    if arg == "--repo" || arg == "--title" {
      var flag := if arg == "--repo" then RepoFlag else TitleFlag;
      if i' >= |argv| || StartsWith(argv[i'], "-") {
        return Refused(ValueRequired(flag)), i';
      }
      assert argv[i..][1] == argv[i'] && argv[i..][2..] == argv[i' + 1..];
      next := Store(seen, flag, argv[i']);
      i' := i' + 1;
    } else if IsAssignment(arg) {
      AssignmentHasEquals(arg);
      next := StoreAssigned(seen, arg);
    } else {
      next := StoreTarget(seen, arg, url);
    }
  }

  // ---- The grammar: a command is a verb and a sequence of argument groups

  datatype Group =
    | Target(text: string)
    | Spaced(flag: Flag, value: string)
    | Assigned(flag: Flag, value: string)

  function WordsOf(g: Group): (words: seq<string>) {
    match g
    case Target(text) => [text]
    case Spaced(flag, value) => [FlagText(flag), value]
    case Assigned(flag, value) => [FlagText(flag) + "=" + value]
  }

  function Words(groups: seq<Group>): seq<string> {
    if groups == [] then [] else WordsOf(groups[0]) + Words(groups[1..])
  }

  predicate WellFormed(g: Group, url: PullUrl) {
    match g
    case Target(text) => !StartsWith(text, "-") && ParseTarget(text, url).Some?
    case Spaced(flag, value) => !StartsWith(value, "-") && ValidValue(flag, value)
    case Assigned(flag, value) => ValidValue(flag, value)
  }

  /** What the groups say about one thing, in order. */
  function Targets(groups: seq<Group>, url: PullUrl): seq<nat> {
    if groups == [] then []
    else (if groups[0].Target? && ParseTarget(groups[0].text, url).Some? then [ParseTarget(groups[0].text, url).value]
      else [])
         + Targets(groups[1..], url)
  }

  function Values(groups: seq<Group>, flag: Flag): seq<string> {
    if groups == [] then []
    else (if !groups[0].Target? && groups[0].flag == flag then [groups[0].value] else []) + Values(groups[1..], flag)
  }

  function AsSeq<T>(o: Option<T>): seq<T> {
    if o.Some? then [o.value] else []
  }

  function Verb(op: Operation): string {
    match op
    case Close(_, _) => "close"
    case Reopen(_, _) => "reopen"
    case EditTitle(_, _, _) => "edit"
  }

  /** The groups are valid one by one and together name one target, at most one repository and a
      title exactly when the operation sets one. */
  ghost predicate Arranges(groups: seq<Group>, op: Operation, url: PullUrl) {
    && AllWellFormed(groups, url)
    && Targets(groups, url) == [op.prNumber]
    && Values(groups, RepoFlag) == AsSeq(op.repo)
    && Values(groups, TitleFlag) == if op.EditTitle? then [op.title] else []
  }

  /** What was seen, and what is still to come, fill the slots of the result. */
  ghost predicate SlotsFit(seen: Seen, targets: seq<nat>, repos: seq<string>, titles: seq<string>, result: Seen) {
    && AsSeq(seen.target) + targets == AsSeq(result.target)
    && AsSeq(seen.repo) + repos == AsSeq(result.repo)
    && AsSeq(seen.title) + titles == AsSeq(result.title)
  }

  ghost predicate AllWellFormed(groups: seq<Group>, url: PullUrl) {
    forall i :: 0 <= i < |groups| ==> WellFormed(groups[i], url)
  }

  ghost predicate Collects(groups: seq<Group>, seen: Seen, result: Seen, url: PullUrl) {
    && AllWellFormed(groups, url)
    && SlotsFit(seen, Targets(groups, url), Values(groups, RepoFlag), Values(groups, TitleFlag), result)
  }

  function StoreGroup(seen: Seen, g: Group, url: PullUrl): Result<Seen> {
    if g.Target? then StoreTarget(seen, g.text, url) else Store(seen, g.flag, g.value)
  }

  /** Storing one group fills one empty slot. */
  lemma StoreFillsSlot(g: Group, rest: seq<Group>, seen: Seen, result: Seen, url: PullUrl)
    ensures Collects([g] + rest, seen, result, url)
      <==> WellFormed(g, url) && StoreGroup(seen, g, url).Ok?
           && Collects(rest, StoreGroup(seen, g, url).value, result, url)
  {
    OneMoreWellFormed(g, rest, url);
    if WellFormed(g, url) {
      SaidByOneMore(g, rest, url);
      GroupFillsSlot(g, seen, Targets(rest, url), Values(rest, RepoFlag), Values(rest, TitleFlag), result, url);
    }
  }

  /** What a group says about the target, and about a flag. */
  function TargetSaid(g: Group, url: PullUrl): seq<nat>
    requires WellFormed(g, url)
  {
    if g.Target? then [ParseTarget(g.text, url).value] else []
  }

  function FlagSaid(g: Group, flag: Flag): seq<string> {
    if !g.Target? && g.flag == flag then [g.value] else []
  }

  /** What a group adds to what the others say. */
  lemma SaidByOneMore(g: Group, rest: seq<Group>, url: PullUrl)
    requires WellFormed(g, url)
    ensures Targets([g] + rest, url) == TargetSaid(g, url) + Targets(rest, url)
    ensures Values([g] + rest, RepoFlag) == FlagSaid(g, RepoFlag) + Values(rest, RepoFlag)
    ensures Values([g] + rest, TitleFlag) == FlagSaid(g, TitleFlag) + Values(rest, TitleFlag)
  {
    assert ([g] + rest)[1..] == rest;
  }

  lemma GroupFillsSlot(g: Group, seen: Seen, targets: seq<nat>, repos: seq<string>, titles: seq<string>, result: Seen,
                       url: PullUrl)
    requires WellFormed(g, url)
    ensures SlotsFit(seen, TargetSaid(g, url) + targets, FlagSaid(g, RepoFlag) + repos, FlagSaid(g, TitleFlag) + titles,
                     result)
      <==> StoreGroup(seen, g, url).Ok? && SlotsFit(StoreGroup(seen, g, url).value, targets, repos, titles, result)
  {
    NothingSaid(targets);
    NothingSaid(repos);
    NothingSaid(titles);
    match g
    case Target(text) => SlotFilled(seen.target, ParseTarget(text, url).value, targets, result.target);
    case _ =>
      SlotFilled(seen.repo, g.value, repos, result.repo);
      SlotFilled(seen.title, g.value, titles, result.title);
  }

  lemma NothingSaid<T>(rest: seq<T>)
    ensures [] + rest == rest
  {
  }

  lemma OneMoreWellFormed(g: Group, rest: seq<Group>, url: PullUrl)
    ensures AllWellFormed([g] + rest, url) <==> WellFormed(g, url) && AllWellFormed(rest, url)
  {
    var groups := [g] + rest;
    assert forall i :: 0 <= i < |rest| ==> groups[i + 1] == rest[i];
    assert groups[0] == g;
    assert forall i :: 0 < i < |groups| ==> groups[i] == rest[i - 1];
  }

  lemma SlotFilled<T>(slot: Option<T>, value: T, rest: seq<T>, result: Option<T>)
    ensures AsSeq(slot) + ([value] + rest) == AsSeq(result) <==> slot.None? && [value] + rest == AsSeq(result)
  {
    NothingSaid([value] + rest);
    if slot.Some? {
      assert |AsSeq(slot) + ([value] + rest)| >= 2;
    }
  }

  /** A well-formed group is read off the front of the words in one step. */
  lemma GroupIsRead(g: Group, rest: seq<string>, seen: Seen, url: PullUrl)
    requires WellFormed(g, url)
    ensures ParseGroups(WordsOf(g) + rest, seen, url)
      == if StoreGroup(seen, g, url).Ok? then ParseGroups(rest, StoreGroup(seen, g, url).value, url)
        else StoreGroup(seen, g, url)
  {
    var words := WordsOf(g) + rest;
    match g
    case Target(text) =>
      assert words[1..] == rest;
      assert IsAssignment(text) || text == "--repo" || text == "--title" ==> StartsWith(text, "-");
    case Spaced(flag, value) =>
      assert words[2..] == rest;
    case Assigned(flag, value) =>
      assert words[1..] == rest;
      AssignedSplits(flag, value);
  }

  lemma AssignedSplits(flag: Flag, value: string)
    ensures var arg := FlagText(flag) + "=" + value;
      && IsAssignment(arg) && arg != "--repo" && arg != "--title"
      && '=' in arg && IndexOf(arg, '=') == |FlagText(flag)|
      && arg[..|FlagText(flag)|] == FlagText(flag) && arg[|FlagText(flag)| + 1..] == value
  {
    var arg := FlagText(flag) + "=" + value;
    IndexOfFirst(FlagText(flag), '=', value);
    assert FlagText(flag) + ['='] + value == arg;
    assert arg[..|FlagText(flag)| + 1] == FlagText(flag) + "=";
  }

  /** Every assignment word is an assigned group. */
  lemma AssignmentIsAssigned(arg: string) returns (flag: Flag, value: string)
    requires IsAssignment(arg)
    ensures arg == FlagText(flag) + "=" + value
  {
    if StartsWith(arg, "--repo=") {
      flag, value := RepoFlag, arg[7..];
      assert arg == arg[..7] + value;
    } else {
      flag, value := TitleFlag, arg[8..];
      assert arg == arg[..8] + value;
    }
  }

  /** Every arrangement that fits the empty slots parses. */
  lemma {:induction false} ArrangementParses(groups: seq<Group>, words: seq<string>, seen: Seen, result: Seen,
                                             url: PullUrl)
    requires Collects(groups, seen, result, url)
    ensures ParseGroups(Words(groups) + words, seen, url) == ParseGroups(words, result, url)
  {
    if groups == [] {
      assert AsSeq(seen.target) == AsSeq(result.target);
      assert AsSeq(seen.repo) == AsSeq(result.repo);
      assert AsSeq(seen.title) == AsSeq(result.title);
      assert Words(groups) + words == words;
    } else {
      var g, rest := groups[0], groups[1..];
      assert groups == [g] + rest;
      StoreFillsSlot(g, rest, seen, result, url);
      WordsOfMore(g, rest, words);
      GroupIsRead(g, Words(rest) + words, seen, url);
      ArrangementParses(rest, words, StoreGroup(seen, g, url).value, result, url);
    }
  }

  /** The first group of words that do not begin with an offence. */
  lemma FirstGroup(words: seq<string>, seen: Seen, url: PullUrl) returns (g: Group, rest: seq<string>)
    requires words != [] && forall p :: !Offends(words, seen.target.Some?, GivenIn(seen), p, url)
    ensures WellFormed(g, url) && words == WordsOf(g) + rest && |rest| < |words|
    ensures StoreGroup(seen, g, url).Ok?
  {
    var arg := words[0];
    if arg == "--repo" || arg == "--title" {
      var flag := if arg == "--repo" then RepoFlag else TitleFlag;
      SpacedShown(words, flag, seen.target.Some?, GivenIn(seen), url);
      g, rest := Spaced(flag, words[1]), words[2..];
    } else if IsAssignment(arg) {
      var flag, value := AssignmentIsAssigned(arg);
      AssignedShown(words, flag, value, seen.target.Some?, GivenIn(seen), url);
      g, rest := Assigned(flag, value), words[1..];
    } else {
      TargetShown(words, seen.target.Some?, GivenIn(seen), url);
      g, rest := Target(arg), words[1..];
    }
  }

  /** Only arrangements parse. */
  lemma {:induction false} ParsedIsArrangement(words: seq<string>, seen: Seen, url: PullUrl)
      returns (groups: seq<Group>)
    requires ParseGroups(words, seen, url).Ok?
    ensures words == Words(groups) && Collects(groups, seen, ParseGroups(words, seen, url).value, url)
    decreases |words|
  {
    if words == [] {
      groups := [];
    } else {
      forall p ensures !Offends(words, seen.target.Some?, GivenIn(seen), p, url) {
        if Offends(words, seen.target.Some?, GivenIn(seen), p, url) {
          OffenceStops(words, seen, p, url);
        }
      }
      var g, rest := FirstGroup(words, seen, url);
      GroupIsRead(g, rest, seen, url);
      var next := StoreGroup(seen, g, url).value;
      var others := ParsedIsArrangement(rest, next, url);
      groups := [g] + others;
      assert groups[1..] == others;
      StoreFillsSlot(g, others, seen, ParseGroups(words, seen, url).value, url);
    }
  }

  ghost predicate IsCommandFor(argv: seq<string>, groups: seq<Group>, op: Operation, url: PullUrl) {
    argv == ["pr", Verb(op)] + Words(groups) && Arranges(groups, op, url)
  }

  function SeenFor(op: Operation): Seen {
    Seen(Some(op.prNumber), op.repo, if op.EditTitle? then Some(op.title) else None)
  }

  lemma ArrangesIsCollects(groups: seq<Group>, op: Operation, url: PullUrl)
    ensures Arranges(groups, op, url) <==> Collects(groups, NOTHING, SeenFor(op), url)
  {
  }

  /** An arrangement of an operation's groups, in any order and any mix of the two flag forms, parses
      to that operation. */
  lemma EveryArrangementParses(argv: seq<string>, groups: seq<Group>, op: Operation, url: PullUrl)
    requires IsCommandFor(argv, groups, op, url)
    ensures Parse(argv, url) == Ok(op)
  {
    ArrangesIsCollects(groups, op, url);
    ArrangementParses(groups, [], NOTHING, SeenFor(op), url);
    assert Words(groups) + [] == Words(groups);
    FinishOf(op);
    assert groups != [];
    assert argv[2..] == Words(groups);
  }

  lemma FinishOf(op: Operation)
    ensures Finish(Verb(op), SeenFor(op)) == Ok(op) && Verb(op) in {"close", "reopen", "edit"}
  {
  }

  lemma AcceptedHasArrangement(argv: seq<string>, op: Operation, url: PullUrl) returns (groups: seq<Group>)
    requires Parse(argv, url) == Ok(op)
    ensures IsCommandFor(argv, groups, op, url)
  {
    ParsedParts(argv, op, url);
    groups := ParsedIsArrangement(argv[2..], NOTHING, url);
    ArrangesIsCollects(groups, op, url);
  }

  lemma ParsedParts(argv: seq<string>, op: Operation, url: PullUrl)
    requires Parse(argv, url) == Ok(op)
    ensures |argv| >= 2 && argv == ["pr", Verb(op)] + argv[2..]
    ensures ParseGroups(argv[2..], NOTHING, url) == Ok(SeenFor(op))
  {
    FinishedIs(argv[1], ParseGroups(argv[2..], NOTHING, url).value, op);
    TwoAndRest(argv);
  }

  lemma TwoAndRest<T>(s: seq<T>)
    requires |s| >= 2
    ensures s == [s[0], s[1]] + s[2..]
  {
  }

  lemma FinishedIs(action: string, seen: Seen, op: Operation)
    requires action in {"close", "reopen", "edit"} && Finish(action, seen) == Ok(op)
    ensures seen == SeenFor(op) && action == Verb(op)
  {
  }

  /** What parses is one, so the parser accepts an argument list exactly when it is an arrangement of
      the operation it returns. */
  lemma AcceptedIffArrangement(argv: seq<string>, op: Operation, url: PullUrl)
    ensures Parse(argv, url) == Ok(op) <==> exists groups :: IsCommandFor(argv, groups, op, url)
  {
    if Parse(argv, url) == Ok(op) {
      var groups := AcceptedHasArrangement(argv, op, url);
    }
    if groups :| IsCommandFor(argv, groups, op, url) {
      EveryArrangementParses(argv, groups, op, url);
    }
  }

  // ---- What is refused, and why

  /** The words begin with what cannot be read when a target and these flags have been given. */
  ghost predicate Offends(words: seq<string>, targeted: bool, given: set<Flag>, p: Problem, url: PullUrl)
    requires words != []
  {
    var arg := words[0];
    if arg == "--repo" || arg == "--title" then
      var flag := if arg == "--repo" then RepoFlag else TitleFlag;
      if |words| == 1 || "-" <= words[1] then p == ValueRequired(flag) else CannotTake(flag, words[1], given, p)
    else if "--repo=" <= arg then
      if |arg| == 7 then p == ValueRequired(RepoFlag) else CannotTake(RepoFlag, arg[7..], given, p)
    else if "--title=" <= arg then
      if |arg| == 8 then p == ValueRequired(TitleFlag) else CannotTake(TitleFlag, arg[8..], given, p)
    else if "-" <= arg then p == UnsupportedFlag(arg)
    else if targeted then p == ExactlyOneTarget
    else p == BadTarget && forall n: nat :: !Designates(arg, n, url)
  }

  ghost predicate CannotTake(flag: Flag, value: string, given: set<Flag>, p: Problem) {
    p == InvalidOrRepeated(flag) && (flag in given || !IsValue(flag, value))
  }

  function GivenIn(seen: Seen): (flags: set<Flag>)
    ensures RepoFlag in flags <==> seen.repo.Some?
    ensures TitleFlag in flags <==> seen.title.Some?
  {
    (if seen.repo.Some? then {RepoFlag} else {}) + if seen.title.Some? then {TitleFlag} else {}
  }

  lemma AssignedIs(arg: string, flag: Flag)
    requires FlagText(flag) + "=" <= arg
    ensures '=' in arg && IndexOf(arg, '=') == |FlagText(flag)| && arg[..|FlagText(flag)|] == FlagText(flag)
  {
    var value := arg[|FlagText(flag)| + 1..];
    assert arg == FlagText(flag) + "=" + value;
    AssignedSplits(flag, value);
  }

  lemma OffenceStops(words: seq<string>, seen: Seen, p: Problem, url: PullUrl)
    requires words != [] && Offends(words, seen.target.Some?, GivenIn(seen), p, url)
    ensures ParseGroups(words, seen, url) == Refused(p)
  {
    var arg := words[0];
    if arg == "--repo" || arg == "--title" {
      if |words| > 1 && !StartsWith(words[1], "-") {
        ValueIff(if arg == "--repo" then RepoFlag else TitleFlag, words[1]);
      }
    } else if IsAssignment(arg) {
      AssignedStops(arg, seen);
    } else {
      TargetStops(arg, url);
    }
  }

  lemma AssignedStops(arg: string, seen: Seen)
    requires IsAssignment(arg)
    ensures '=' in arg && StoreAssigned(seen, arg)
      == if "--repo=" <= arg then
           if |arg| == 7 then Refused(ValueRequired(RepoFlag)) else Store(seen, RepoFlag, arg[7..])
         else if |arg| == 8 then Refused(ValueRequired(TitleFlag)) else Store(seen, TitleFlag, arg[8..])
    ensures "--repo=" <= arg && |arg| > 7 ==> (ValidValue(RepoFlag, arg[7..]) <==> IsValue(RepoFlag, arg[7..]))
    ensures "--title=" <= arg && |arg| > 8 ==> (ValidValue(TitleFlag, arg[8..]) <==> IsValue(TitleFlag, arg[8..]))
  {
    assert FlagText(RepoFlag) + "=" == "--repo=" && FlagText(TitleFlag) + "=" == "--title=";
    if "--repo=" <= arg {
      AssignedIs(arg, RepoFlag);
      ValueIff(RepoFlag, arg[7..]);
    } else {
      AssignedIs(arg, TitleFlag);
      ValueIff(TitleFlag, arg[8..]);
    }
  }

  lemma TargetStops(arg: string, url: PullUrl)
    ensures ParseTarget(arg, url).None? <==> forall n: nat :: !Designates(arg, n, url)
  {
    forall n: nat ensures ParseTarget(arg, url) == Some(n) <==> Designates(arg, n, url) {
      TargetIff(arg, n, url);
    }
  }

  // What stands in front when it is no offence.

  lemma SpacedShown(words: seq<string>, flag: Flag, targeted: bool, given: set<Flag>, url: PullUrl)
    requires words != [] && words[0] == FlagText(flag) && forall p :: !Offends(words, targeted, given, p, url)
    ensures |words| > 1 && !StartsWith(words[1], "-") && ValidValue(flag, words[1]) && flag !in given
  {
    assert !Offends(words, targeted, given, ValueRequired(flag), url);
    assert !Offends(words, targeted, given, InvalidOrRepeated(flag), url);
    ValueIff(flag, words[1]);
  }

  lemma AssignedShown(words: seq<string>, flag: Flag, value: string, targeted: bool, given: set<Flag>, url: PullUrl)
    requires words != [] && words[0] == FlagText(flag) + "=" + value
    requires forall p :: !Offends(words, targeted, given, p, url)
    ensures ValidValue(flag, value) && flag !in given
  {
    AssignedSplits(flag, value);
    assert words[0][2] == FlagText(flag)[2];
    assert value == words[0][|FlagText(flag)| + 1..];
    assert "--repo=" <= words[0] <==> flag == RepoFlag;
    assert |FlagText(flag)| == if flag == RepoFlag then 6 else 7;
    assert !Offends(words, targeted, given, ValueRequired(flag), url);
    assert !Offends(words, targeted, given, InvalidOrRepeated(flag), url);
    ValueIff(flag, value);
  }

  lemma TargetShown(words: seq<string>, targeted: bool, given: set<Flag>, url: PullUrl)
    requires words != [] && words[0] != "--repo" && words[0] != "--title" && !IsAssignment(words[0])
    requires forall p :: !Offends(words, targeted, given, p, url)
    ensures !StartsWith(words[0], "-") && !targeted && ParseTarget(words[0], url).Some?
  {
    assert !Offends(words, targeted, given, UnsupportedFlag(words[0]), url);
    assert !Offends(words, targeted, given, ExactlyOneTarget, url);
    assert !Offends(words, targeted, given, BadTarget, url);
    TargetStops(words[0], url);
  }

  /** Groups that can be read one behind the other. */
  ghost predicate AreRead(groups: seq<Group>, url: PullUrl) {
    && AllWellFormed(groups, url)
    && |Targets(groups, url)| <= 1 && |Values(groups, RepoFlag)| <= 1 && |Values(groups, TitleFlag)| <= 1
  }

  ghost function Given(groups: seq<Group>): set<Flag> {
    set flag: Flag | Values(groups, flag) != []
  }

  /** What is missing, or too much, when all words have been read. */
  ghost predicate Lacks(action: string, groups: seq<Group>, p: Problem, url: PullUrl) {
    if Targets(groups, url) == [] then p == ExactlyOneTarget
    else if action == "edit" then p == EditNeedsTitle && TitleFlag !in Given(groups)
    else p == TitleOnlyForEdit && TitleFlag in Given(groups)
  }

  /** The command is refused at the first word that cannot be read, or else at its end. */
  ghost predicate IsRefusal(argv: seq<string>, p: Problem, url: PullUrl) {
    if |argv| < 3 || argv[0] != "pr" then p == NotAPullRequestCommand
    else if argv[1] != "close" && argv[1] != "reopen" && argv[1] != "edit" then p == UnsupportedAction
    else exists groups, rest ::
      && AreRead(groups, url) && argv[2..] == Words(groups) + rest
      && if rest == [] then Lacks(argv[1], groups, p, url)
         else Offends(rest, Targets(groups, url) != [], Given(groups), p, url)
  }

  function SeenOf(groups: seq<Group>, url: PullUrl): Seen {
    Seen(First(Targets(groups, url)), First(Values(groups, RepoFlag)), First(Values(groups, TitleFlag)))
  }

  function First<T>(s: seq<T>): Option<T> {
    if s == [] then None else Some(s[0])
  }

  lemma ReadIffCollected(groups: seq<Group>, seen: Seen, url: PullUrl)
    ensures AreRead(groups, url) ==> Collects(groups, NOTHING, SeenOf(groups, url), url)
    ensures Collects(groups, NOTHING, seen, url) ==> AreRead(groups, url) && seen == SeenOf(groups, url)
    ensures GivenIn(SeenOf(groups, url)) == Given(groups)
  {
    forall flag: Flag ensures flag in GivenIn(SeenOf(groups, url)) <==> flag in Given(groups) {
      match flag
      case RepoFlag => assert RepoFlag in Given(groups) <==> Values(groups, RepoFlag) != [];
      case TitleFlag => assert TitleFlag in Given(groups) <==> Values(groups, TitleFlag) != [];
    }
    NothingSaid(Targets(groups, url));
    NothingSaid(Values(groups, RepoFlag));
    NothingSaid(Values(groups, TitleFlag));
  }

  /** Where a refused list of words stops being readable. */
  lemma {:induction false} RefusedStops(words: seq<string>, seen: Seen, url: PullUrl)
      returns (groups: seq<Group>, rest: seq<string>, at: Seen)
    requires ParseGroups(words, seen, url).Refused?
    ensures words == Words(groups) + rest && rest != [] && Collects(groups, seen, at, url)
    ensures Offends(rest, at.target.Some?, GivenIn(at), ParseGroups(words, seen, url).problem, url)
    decreases |words|
  {
    if p :| Offends(words, seen.target.Some?, GivenIn(seen), p, url) {
      OffenceStops(words, seen, p, url);
      groups, rest, at := [], words, seen;
      NothingSaid(words);
      NothingCollected(seen, url);
    } else {
      var g, others := FirstGroup(words, seen, url);
      GroupIsRead(g, others, seen, url);
      var behind;
      behind, rest, at := RefusedStops(others, StoreGroup(seen, g, url).value, url);
      groups := [g] + behind;
      WordsOfMore(g, behind, rest);
      StoreFillsSlot(g, behind, seen, at, url);
    }
  }

  lemma NothingCollected(seen: Seen, url: PullUrl)
    ensures Collects([], seen, seen, url)
  {
  }

  lemma WordsOfMore(g: Group, groups: seq<Group>, rest: seq<string>)
    ensures Words([g] + groups) + rest == WordsOf(g) + (Words(groups) + rest)
  {
    assert ([g] + groups)[1..] == groups;
  }

  lemma FinishRefused(action: string, groups: seq<Group>, p: Problem, url: PullUrl)
    requires AreRead(groups, url) && action in {"close", "reopen", "edit"}
    ensures Finish(action, SeenOf(groups, url)) == Refused(p) <==> Lacks(action, groups, p, url)
  {
  }

  /** Every refusal is the one stated, with its problem. */
  lemma RefusedIff(argv: seq<string>, p: Problem, url: PullUrl)
    ensures Parse(argv, url) == Refused(p) <==> IsRefusal(argv, p, url)
  {
    if |argv| >= 3 && argv[0] == "pr" && argv[1] in {"close", "reopen", "edit"} {
      if Parse(argv, url) == Refused(p) {
        RefusedIsRefusal(argv, p, url);
      }
      if IsRefusal(argv, p, url) {
        RefusalIsRefused(argv, p, url);
      }
    }
  }

  lemma RefusedIsRefusal(argv: seq<string>, p: Problem, url: PullUrl)
    requires |argv| >= 3 && argv[0] == "pr" && argv[1] in {"close", "reopen", "edit"}
    requires Parse(argv, url) == Refused(p)
    ensures IsRefusal(argv, p, url)
  {
    var words := argv[2..];
    if ParseGroups(words, NOTHING, url).Refused? {
      var groups, rest, at := RefusedStops(words, NOTHING, url);
      ReadIffCollected(groups, at, url);
      assert Offends(rest, Targets(groups, url) != [], Given(groups), p, url);
    } else {
      var groups := ParsedIsArrangement(words, NOTHING, url);
      ReadIffCollected(groups, ParseGroups(words, NOTHING, url).value, url);
      FinishRefused(argv[1], groups, p, url);
      assert words == Words(groups) + [];
    }
  }

  lemma RefusalIsRefused(argv: seq<string>, p: Problem, url: PullUrl)
    requires |argv| >= 3 && argv[0] == "pr" && argv[1] in {"close", "reopen", "edit"}
    requires IsRefusal(argv, p, url)
    ensures Parse(argv, url) == Refused(p)
  {
    var groups, rest :|
      && AreRead(groups, url) && argv[2..] == Words(groups) + rest
      && if rest == [] then Lacks(argv[1], groups, p, url)
         else Offends(rest, Targets(groups, url) != [], Given(groups), p, url);
    var seen := SeenOf(groups, url);
    ReadIffCollected(groups, seen, url);
    ArrangementParses(groups, rest, NOTHING, seen, url);
    if rest == [] {
      FinishRefused(argv[1], groups, p, url);
    } else {
      OffenceStops(rest, seen, p, url);
    }
  }

  // ---- Order does not matter

  lemma {:induction false} TargetsDistribute(a: seq<Group>, b: seq<Group>, url: PullUrl)
    ensures Targets(a + b, url) == Targets(a, url) + Targets(b, url)
  {
    if a == [] {
      assert a + b == b;
    } else {
      assert (a + b)[1..] == a[1..] + b;
      TargetsDistribute(a[1..], b, url);
    }
  }

  lemma {:induction false} ValuesDistribute(a: seq<Group>, b: seq<Group>, flag: Flag)
    ensures Values(a + b, flag) == Values(a, flag) + Values(b, flag)
  {
    if a == [] {
      assert a + b == b;
    } else {
      assert (a + b)[1..] == a[1..] + b;
      ValuesDistribute(a[1..], b, flag);
    }
  }

  /** The first group of one sequence taken out of another with the same groups. */
  lemma FirstTakenOut(groups: seq<Group>, others: seq<Group>) returns (pre: seq<Group>, post: seq<Group>)
    requires groups != [] && multiset(groups) == multiset(others)
    ensures others == pre + [groups[0]] + post && multiset(groups[1..]) == multiset(pre + post)
  {
    assert groups == [groups[0]] + groups[1..];
    assert groups[0] in multiset(others);
    var k: nat :| k < |others| && others[k] == groups[0];
    pre, post := others[..k], others[k + 1..];
    assert others == pre + [groups[0]] + post;
    assert multiset(pre + post) == multiset(others) - multiset{groups[0]};
    assert multiset(groups[1..]) == multiset(groups) - multiset{groups[0]};
  }

  lemma {:induction false} SameTargets(groups: seq<Group>, others: seq<Group>, url: PullUrl)
    requires multiset(groups) == multiset(others)
    ensures multiset(Targets(groups, url)) == multiset(Targets(others, url))
  {
    if groups == [] {
      assert |multiset(others)| == 0;
    } else {
      var pre, post := FirstTakenOut(groups, others);
      SameTargets(groups[1..], pre + post, url);
      TargetsDistribute(pre, post, url);
      TargetsDistribute(pre + [groups[0]], post, url);
      TargetsDistribute(pre, [groups[0]], url);
      TargetsDistribute([groups[0]], groups[1..], url);
      assert [groups[0]] + groups[1..] == groups;
    }
  }

  lemma {:induction false} SameValues(groups: seq<Group>, others: seq<Group>, flag: Flag)
    requires multiset(groups) == multiset(others)
    ensures multiset(Values(groups, flag)) == multiset(Values(others, flag))
  {
    if groups == [] {
      assert |multiset(others)| == 0;
    } else {
      var pre, post := FirstTakenOut(groups, others);
      SameValues(groups[1..], pre + post, flag);
      ValuesDistribute(pre, post, flag);
      ValuesDistribute(pre + [groups[0]], post, flag);
      ValuesDistribute(pre, [groups[0]], flag);
      ValuesDistribute([groups[0]], groups[1..], flag);
      assert [groups[0]] + groups[1..] == groups;
    }
  }

  lemma SmallMultiset<T>(s: seq<T>, t: seq<T>)
    requires multiset(s) == multiset(t) && |s| <= 1
    ensures s == t
  {
    assert |multiset(t)| == |t|;
    assert |multiset(s)| == |s|;
    if |s| == 1 {
      assert s == [s[0]] && t == [t[0]];
      assert s[0] in multiset(t);
    }
  }

  /** Reordering the argument groups of an accepted command changes nothing. */
  lemma OrderDoesNotMatter(groups: seq<Group>, others: seq<Group>, op: Operation, url: PullUrl)
    requires multiset(groups) == multiset(others)
    requires Arranges(groups, op, url)
    ensures Parse(["pr", Verb(op)] + Words(others), url) == Ok(op)
  {
    SameTargets(groups, others, url);
    SameValues(groups, others, RepoFlag);
    SameValues(groups, others, TitleFlag);
    SmallMultiset(Targets(groups, url), Targets(others, url));
    SmallMultiset(Values(groups, RepoFlag), Values(others, RepoFlag));
    SmallMultiset(Values(groups, TitleFlag), Values(others, TitleFlag));
    forall i | 0 <= i < |others| ensures WellFormed(others[i], url) {
      assert others[i] in multiset(groups);
    }
    EveryArrangementParses(["pr", Verb(op)] + Words(others), others, op, url);
  }

  /** The two ways of writing a flag mean the same, for a value that does not look like a flag. */
  lemma FlagFormsAgree(before: seq<Group>, flag: Flag, value: string, after: seq<Group>, op: Operation, url: PullUrl)
    requires !StartsWith(value, "-")
    ensures Arranges(before + [Spaced(flag, value)] + after, op, url)
      <==> Arranges(before + [Assigned(flag, value)] + after, op, url)
  {
    FormsSayTheSame(before, flag, value, after, url);
    ValidBothWays(before, Spaced(flag, value), after, url);
    ValidBothWays(before, Assigned(flag, value), after, url);
  }

  lemma ValidBothWays(before: seq<Group>, g: Group, after: seq<Group>, url: PullUrl)
    ensures (forall i :: 0 <= i < |before + [g] + after| ==> WellFormed((before + [g] + after)[i], url))
      <==> (forall i :: 0 <= i < |before| ==> WellFormed(before[i], url)) && WellFormed(g, url)
           && (forall i :: 0 <= i < |after| ==> WellFormed(after[i], url))
  {
    var groups := before + [g] + after;
    assert forall i :: 0 <= i < |before| ==> groups[i] == before[i];
    assert groups[|before|] == g;
    assert forall i :: 0 <= i < |after| ==> groups[|before| + 1 + i] == after[i];
    assert forall i :: |before| < i < |groups| ==> groups[i] == after[i - |before| - 1];
  }

  lemma FormsSayTheSame(before: seq<Group>, flag: Flag, value: string, after: seq<Group>, url: PullUrl)
    ensures Targets(before + [Spaced(flag, value)] + after, url)
      == Targets(before + [Assigned(flag, value)] + after, url)
    ensures forall f ::
      Values(before + [Spaced(flag, value)] + after, f) == Values(before + [Assigned(flag, value)] + after, f)
  {
    var g, h := [Spaced(flag, value)], [Assigned(flag, value)];
    TargetsDistribute(before + g, after, url);
    TargetsDistribute(before, g, url);
    TargetsDistribute(before + h, after, url);
    TargetsDistribute(before, h, url);
    forall f ensures Values(before + g + after, f) == Values(before + h + after, f) {
      ValuesDistribute(before + g, after, f);
      ValuesDistribute(before, g, f);
      ValuesDistribute(before + h, after, f);
      ValuesDistribute(before, h, f);
    }
  }

  /** An accepted argument list is the arrangement of one group sequence only. */
  lemma {:induction false} ArrangementUnique(groups: seq<Group>, others: seq<Group>, url: PullUrl)
    requires forall i :: 0 <= i < |groups| ==> WellFormed(groups[i], url)
    requires forall i :: 0 <= i < |others| ==> WellFormed(others[i], url)
    requires Words(groups) == Words(others)
    ensures groups == others
  {
    if groups != [] && others != [] {
      var g, h := groups[0], others[0];
      SameFirstGroup(g, Words(groups[1..]), h, Words(others[1..]), url);
      assert Words(groups[1..]) == Words(groups)[|WordsOf(g)|..];
      assert Words(others[1..]) == Words(others)[|WordsOf(h)|..];
      ArrangementUnique(groups[1..], others[1..], url);
    }
  }

  lemma SameFirstGroup(g: Group, rest: seq<string>, h: Group, others: seq<string>, url: PullUrl)
    requires WellFormed(g, url) && WellFormed(h, url)
    requires WordsOf(g) + rest == WordsOf(h) + others
    ensures g == h
  {
    assert (WordsOf(g) + rest)[0] == WordsOf(g)[0];
    assert (WordsOf(h) + others)[0] == WordsOf(h)[0];
    SameFirstWord(g, h, url);
    assert g.Spaced? ==> (WordsOf(g) + rest)[1] == g.value;
    assert h.Spaced? ==> (WordsOf(h) + others)[1] == h.value;
  }

  /** The first word tells the kind of group and all but the value behind a spaced flag. */
  lemma SameFirstWord(g: Group, h: Group, url: PullUrl)
    requires WellFormed(g, url) && WellFormed(h, url) && WordsOf(g)[0] == WordsOf(h)[0]
    ensures if g.Spaced? then h.Spaced? && h.flag == g.flag else g == h
  {
    if g.Assigned? {
      AssignedSplits(g.flag, g.value);
    }
    if h.Assigned? {
      AssignedSplits(h.flag, h.value);
    }
    assert !g.Target? ==> WordsOf(g)[0][0] == '-';
    assert !h.Target? ==> WordsOf(h)[0][0] == '-';
  }
}
