/** Running a reviewer over fixtures, and the oracle that answers with the expected labels. */
module ReviewRunner {
  import opened Options
  import opened JsText
  import opened ReviewJson
  import Loader = FixtureLoader
  import opened OutputScorers

  // ---- The oracle's answer

  predicate IsTruthy(v: Json) {
    match v
    case Boolean(flag) => flag
    case Number(value) => value != 0.0
    case Text(text) => text != ""
    case List(_) => true
    case Record(_) => true
    case NonFinite => true // only read where a string is expected
    case _ => false
  }

  function IdOf(raw: Json): string {
    TextOf(Value(raw, "fixture_id"))
  }

  function ExpectedItems(raw: Json): seq<Json> {
    Loader.Items(Value(Value(raw, "expected"), "memory_results"))
  }

  function Summary(raw: Json): string {
    "Oracle baseline copied expected labels for " + IdOf(raw) + "."
  }

  function ExpectedLabelsToReviewerOutput(raw: Json): Json {
    var expected, fields := Value(raw, "expected"), OracleFields(raw);
    Record(if IsTruthy(Value(expected, "failure_code")) then fields["failure_code" := Value(expected, "failure_code")]
      else fields)
  }

  function OracleFields(raw: Json): map<string, Json> {
    map[
      "prompt_outcome" := Value(Value(raw, "expected"), "prompt_outcome"),
      "confidence" := Number(1.0),
      "summary" := Text(Summary(raw)),
      "memory_results" := List(ExpectedItems(raw))]
  }

  lemma LetterFirstIsNotBlank(s: string)
    requires s != "" && 'A' <= s[0] <= 'Z'
    ensures NonBlank(Text(s)).Some?
  {
    var pre, post := TrimParts(s);
    assert !IsSpace(s[0]);
    assert Trim(s) == "" ==> s == pre + post;
  }

  lemma SummaryIsNotBlank(raw: Json)
    ensures NonBlank(Text(Summary(raw))).Some?
  {
    var start := "Oracle baseline copied expected labels for ";
    assert Summary(raw)[0] == start[0] == 'O';
    LetterFirstIsNotBlank(Summary(raw));
  }

  /** The output holds the expected outcome, results and failure code of the fixture. */
  predicate Copies(output: Json, raw: Json) {
    var expected := Value(raw, "expected");
    && output.Record?
    && Value(output, "prompt_outcome") == Value(expected, "prompt_outcome")
    && Value(output, "confidence") == Number(1.0)
    && Value(output, "summary") == Text(Summary(raw))
    && Value(output, "memory_results") == List(ExpectedItems(raw))
    && (Has(output, "failure_code") ==>
      Has(expected, "failure_code") && Value(output, "failure_code") == Value(expected, "failure_code"))
  }

  lemma FieldNamesDiffer()
    ensures "prompt_outcome" != "memory_results" && "prompt_outcome" != "confidence" && "prompt_outcome" != "summary"
    ensures "memory_results" != "confidence" && "memory_results" != "summary" && "confidence" != "summary"
    ensures "failure_code" !in {"prompt_outcome", "memory_results", "confidence", "summary"}
  {
    assert "prompt_outcome"[0] != "memory_results"[0];
  }

  lemma OracleCopies(raw: Json)
    ensures Copies(ExpectedLabelsToReviewerOutput(raw), raw)
  {
    var expected := Value(raw, "expected");
    var fields := OracleFields(raw);
    OracleFieldsHold(raw);
    if IsTruthy(Value(expected, "failure_code")) {
      FieldNamesDiffer();
      assert fields["failure_code" := Value(expected, "failure_code")]["memory_results"] == fields["memory_results"];
    }
  }

  lemma OracleFieldsHold(raw: Json)
    ensures OracleFields(raw).Keys == {"prompt_outcome", "confidence", "summary", "memory_results"}
    ensures OracleFields(raw)["prompt_outcome"] == Value(Value(raw, "expected"), "prompt_outcome")
    ensures OracleFields(raw)["confidence"] == Number(1.0) && OracleFields(raw)["summary"] == Text(Summary(raw))
    ensures OracleFields(raw)["memory_results"] == List(ExpectedItems(raw))
  {
    FieldNamesDiffer();
  }

  // ---- Accepted fixtures and the oracle's answer to them

  /** An accepted result is one the scorers' validator reads without complaint. */
  lemma AcceptedResultReads(entry: Json, evidenceIds: set<string>, secret: Loader.Secrets)
    requires Loader.ValidResult(entry, evidenceIds, secret)
    ensures ReadsCleanly(entry)
    ensures LabelsOf(entry).id == NonBlank(Value(entry, "memory_id")).value
    ensures EvidenceHolds(LabelsOf(entry), evidenceIds)
  {
    StringsOfNonBlank(Value(entry, "evidence_ids").items);
  }

  lemma IdsAlike(items: seq<Json>)
    requires forall i :: 0 <= i < |items| ==> NonBlank(Value(items[i], "memory_id")).Some?
    ensures Distinct(LabelsOfAll(items)) <==> DistinctIds(items, "memory_id")
    ensures IdSet(LabelsOfAll(items)) == IdsOf(items, "memory_id")
  {
    assert forall i :: 0 <= i < |items| ==> Value(items[i], "memory_id") == Text(LabelsOfAll(items)[i].id);
    var labels := LabelsOfAll(items);
    forall id | id in IdsOf(items, "memory_id") ensures id in IdSet(labels) {
      var i :| 0 <= i < |items| && Value(items[i], "memory_id") == Text(id);
      assert labels[i].id == id;
    }
  }

  /** The labels of an accepted fixture are one for each returned memory. */
  lemma AcceptedIsConsistent(raw: Json, secret: Loader.Secrets)
    requires Loader.ValidFixture(raw, secret)
    ensures Consistent(FixtureOf(raw))
  {
    var items := ExpectedItems(raw);
    forall i | 0 <= i < |items| ensures NonBlank(Value(items[i], "memory_id")).Some? {
      AcceptedResultReads(items[i], Loader.EvidenceIds(raw), secret);
    }
    IdsAlike(items);
    CleanCausesKnown(items);
    MemoryIdsAreIds(raw, secret);
  }

  lemma MemoryIdsAreIds(raw: Json, secret: Loader.Secrets)
    requires Loader.ValidMemories(Value(raw, "returned_memories"), secret)
    ensures forall id :: id in Loader.MemoryIds(raw) ==> Loader.IsMemoryId(id)
  {
  }

  lemma SameIdSameLabels(labels: seq<Labels>)
    requires Distinct(labels)
    ensures AllAgree(labels, labels)
  {
    forall i, j | 0 <= i < |labels| && 0 <= j < |labels| && labels[j].id == labels[i].id
      ensures Agree(labels[i], labels[j]) {
      assert i == j;
    }
  }

  lemma CopyHeadIsValid(output: Json, raw: Json, secret: Loader.Secrets)
    requires Loader.ValidExpected(Value(raw, "expected"), Loader.MemoryIds(raw), Loader.EvidenceIds(raw), secret)
      && Copies(output, raw)
    ensures ValidOutputHead(output)
  {
    SummaryIsNotBlank(raw);
  }

  lemma CopyIsPerfect(output: Json, raw: Json, secret: Loader.Secrets)
    requires Loader.ValidFixture(raw, secret) && Copies(output, raw)
    ensures Perfect(FixtureOf(raw), output)
  {
    AcceptedIsConsistent(raw, secret);
    CopyHeadIsValid(output, raw, secret);
    var items := ExpectedItems(raw);
    forall i | 0 <= i < |items|
      ensures ReadsCleanly(items[i]) && EvidenceHolds(LabelsOfAll(items)[i], Loader.EvidenceIds(raw)) {
      AcceptedResultReads(items[i], Loader.EvidenceIds(raw), secret);
    }
    SameIdSameLabels(LabelsOfAll(items));
    assert ResultItems(output) == items;
    assert FixtureOf(raw).expected == LabelsOfAll(items);
  }

  /** Whatever the loader accepts, the oracle's answer to it is perfect. */
  lemma OracleIsPerfect(raw: Json, secret: Loader.Secrets)
    requires Loader.IssuesOf(raw, secret) == []
    ensures Perfect(FixtureOf(raw), ExpectedLabelsToReviewerOutput(raw))
  {
    Loader.AcceptedIffValid(raw, secret);
    OracleCopies(raw);
    CopyIsPerfect(ExpectedLabelsToReviewerOutput(raw), raw, secret);
  }

  // ---- Running a reviewer

  datatype ReviewerInput = ReviewerInput(fixtureId: string, task: Json, memories: Json, evidence: Json)

  /** None stands for a reviewer that throws. */
  type Reviewer = ReviewerInput -> Option<Json>

  datatype EvalResult = EvalResult(fixtureId: string, source: Json, expected: Json, actual: Json,
                                   scores: seq<Score>, passed: bool, failed: seq<Scorer>)

  function BuildReviewerInput(raw: Json): ReviewerInput {
    ReviewerInput(IdOf(raw), Value(raw, "prompt"), Value(raw, "returned_memories"), Value(raw, "evidence"))
  }

  /** A run holds its output; anything else is the output itself. */
  function OutputOfRun(result: Json): Json {
    if Has(result, "output") then Value(result, "output") else result
  }

  function FailedScorers(scores: seq<Score>): seq<Scorer> {
    if scores == [] then []
    else FailedScorers(scores[..|scores| - 1]) + if scores[|scores| - 1].passed then []
      else [scores[|scores| - 1].scorer]
  }

  lemma {:induction false} NoneFailedIff(scores: seq<Score>)
    ensures FailedScorers(scores) == [] <==> forall i :: 0 <= i < |scores| ==> scores[i].passed
  {
    if scores != [] {
      var n := |scores| - 1;
      NoneFailedIff(scores[..n]);
      AllPassOneMore(scores, n);
    }
  }

  lemma AllPassOneMore(scores: seq<Score>, n: nat)
    requires |scores| == n + 1
    ensures (forall i :: 0 <= i < |scores| ==> scores[i].passed)
      <==> scores[n].passed && forall i :: 0 <= i < n ==> scores[..n][i].passed
  {
    assert forall i :: 0 <= i < n ==> scores[..n][i] == scores[i];
  }

  /** The report on one fixture; none when the reviewer throws. */
  function ReportOf(raw: Json, reviewer: Reviewer, leq: Order): Option<EvalResult> {
    var answer := reviewer(BuildReviewerInput(raw));
    if answer.None? then None
    else
      var output := OutputOfRun(answer.value);
      var scores := SevenScores(Scoring(FixtureOf(raw), output, leq));
      Some(EvalResult(IdOf(raw), Value(raw, "fixture_source"), Value(raw, "expected"), output, scores,
                      FailedScorers(scores) == [], FailedScorers(scores)))
  }

  method RunMemoryReviewBotFixture(raw: Json, reviewer: Reviewer, leq: Order) returns (result: Option<EvalResult>)
    ensures result == ReportOf(raw, reviewer, leq)
  {
    var answer := reviewer(BuildReviewerInput(raw));
    if answer.None? {
      return None;
    }
    var output := OutputOfRun(answer.value);
    var scores := ScoreMemoryReviewBotOutput(FixtureOf(raw), output, leq);
    var failed := FailedScorers(scores);
    result := Some(EvalResult(IdOf(raw), Value(raw, "fixture_source"), Value(raw, "expected"), output, scores,
                              failed == [], failed));
  }

  /** A fixture is reported as passed exactly when all seven scorers pass the reviewer's output. */
  lemma PassedIffAllPass(raw: Json, reviewer: Reviewer, leq: Order)
    requires ReportOf(raw, reviewer, leq).Some?
    ensures var report := ReportOf(raw, reviewer, leq).value;
      report.passed <==> PassesAll(FixtureOf(raw), report.actual, leq)
  {
    NoneFailedIffAllPass(FixtureOf(raw), ReportOf(raw, reviewer, leq).value.actual, leq);
  }

  lemma NoneFailedIffAllPass(fixture: Fixture, output: Json, leq: Order)
    ensures FailedScorers(SevenScores(Scoring(fixture, output, leq))) == [] <==> PassesAll(fixture, output, leq)
  {
    NoneFailedIff(SevenScores(Scoring(fixture, output, leq)));
    SevenPassIff(fixture, output, leq);
  }

  /** All answers in order; none when there is none for one of them. */
  function Collect<A, B>(xs: seq<A>, run: A -> Option<B>): Option<seq<B>> {
    if xs == [] then Some([])
    else
      var front, last := Collect(xs[..|xs| - 1], run), run(xs[|xs| - 1]);
      if front.None? || last.None? then None else Some(front.value + [last.value])
  }

  lemma {:induction false} NoneIsFinal<A, B>(xs: seq<A>, n: nat, run: A -> Option<B>)
    requires n <= |xs| && Collect(xs[..n], run).None?
    ensures Collect(xs, run).None?
  {
    if n == |xs| {
      assert xs[..n] == xs;
    } else {
      var front := xs[..|xs| - 1];
      assert front[..n] == xs[..n];
      NoneIsFinal(front, n, run);
    }
  }

  lemma {:induction false} CollectedInOrder<A, B>(xs: seq<A>, run: A -> Option<B>)
    ensures Collect(xs, run).Some? <==> forall i :: 0 <= i < |xs| ==> run(xs[i]).Some?
    ensures Collect(xs, run).Some? ==> |Collect(xs, run).value| == |xs|
    ensures Collect(xs, run).Some? ==> forall i :: 0 <= i < |xs| ==> Some(Collect(xs, run).value[i]) == run(xs[i])
  {
    if xs != [] {
      var n := |xs| - 1;
      CollectedInOrder(xs[..n], run);
      assert xs == xs[..n] + [xs[n]];
    }
  }

  function Reporter(reviewer: Reviewer, leq: Order): Json -> Option<EvalResult> {
    (raw: Json) => ReportOf(raw, reviewer, leq)
  }

  /** One report for each fixture in order, unless the reviewer throws for one of them. */
  method RunMemoryReviewBotFixtures(fixtures: seq<Json>, reviewer: Reviewer, leq: Order)
      returns (results: Option<seq<EvalResult>>)
    ensures results == Collect(fixtures, Reporter(reviewer, leq))
    ensures results.Some? <==> forall i :: 0 <= i < |fixtures| ==> Reporter(reviewer, leq)(fixtures[i]).Some?
    ensures results.Some? ==> |results.value| == |fixtures|
  {
    var done: seq<EvalResult> := [];
    for i := 0 to |fixtures|
      invariant Collect(fixtures[..i], Reporter(reviewer, leq)) == Some(done)
    {
      assert fixtures[..i + 1][..i] == fixtures[..i];
      var result := RunMemoryReviewBotFixture(fixtures[i], reviewer, leq);
      assert Reporter(reviewer, leq)(fixtures[i]) == result;
      if result.None? {
        NoneIsFinal(fixtures, i + 1, Reporter(reviewer, leq));
        CollectedInOrder(fixtures, Reporter(reviewer, leq));
        return None;
      }
      done := done + [result.value];
    }
    assert fixtures[..|fixtures|] == fixtures;
    CollectedInOrder(fixtures, Reporter(reviewer, leq));
    results := Some(done);
  }

  // ---- The oracle reviewer

  /** The last fixture of each id. */
  function FixturesById(fixtures: seq<Json>): map<string, Json> {
    if fixtures == [] then map[]
    else
      var last := fixtures[|fixtures| - 1];
      FixturesById(fixtures[..|fixtures| - 1])[IdOf(last) := last]
  }

  function OracleReviewer(fixtures: seq<Json>): Reviewer {
    (input: ReviewerInput) =>
      var byId := FixturesById(fixtures);
      if input.fixtureId !in byId then None
      else Some(RunOf(ExpectedLabelsToReviewerOutput(byId[input.fixtureId])))
  }

  function RunOf(output: Json): (run: Json)
    ensures OutputOfRun(run) == output
  {
    Record(map["metadata" := Record(map[]), "output" := output])
  }

  ghost predicate IsLastWithItsId(fixtures: seq<Json>, k: nat) {
    k < |fixtures| && forall j :: k < j < |fixtures| ==> IdOf(fixtures[j]) != IdOf(fixtures[k])
  }

  lemma {:induction false} LookupFindsLast(fixtures: seq<Json>, id: string) returns (k: nat)
    requires exists i :: 0 <= i < |fixtures| && IdOf(fixtures[i]) == id
    ensures IsLastWithItsId(fixtures, k) && IdOf(fixtures[k]) == id
    ensures id in FixturesById(fixtures) && FixturesById(fixtures)[id] == fixtures[k]
  {
    var n := |fixtures| - 1;
    if IdOf(fixtures[n]) == id {
      k := n;
    } else {
      var i :| 0 <= i < |fixtures| && IdOf(fixtures[i]) == id;
      assert fixtures[..n][i] == fixtures[i];
      k := LookupFindsLast(fixtures[..n], id);
    }
  }

  /** The oracle answers for every fixture of its list, with the labels of the last fixture of that id,
      and passes exactly when those are perfect for the fixture at hand. */
  lemma OracleAnswersWithLast(fixtures: seq<Json>, i: nat, k: nat, secret: Loader.Secrets, leq: Order)
    requires Lawful(leq) && i < |fixtures| && Loader.IssuesOf(fixtures[i], secret) == []
    requires IsLastWithItsId(fixtures, k) && IdOf(fixtures[k]) == IdOf(fixtures[i])
    ensures OracleReviewer(fixtures)(BuildReviewerInput(fixtures[i]))
      == Some(RunOf(ExpectedLabelsToReviewerOutput(fixtures[k])))
    ensures PassesAll(FixtureOf(fixtures[i]), ExpectedLabelsToReviewerOutput(fixtures[k]), leq)
      <==> Perfect(FixtureOf(fixtures[i]), ExpectedLabelsToReviewerOutput(fixtures[k]))
  {
    var last := LookupFindsLast(fixtures, IdOf(fixtures[i]));
    assert last == k;
    AcceptedPassesIffPerfect(fixtures[i], ExpectedLabelsToReviewerOutput(fixtures[k]), secret, leq);
  }

  /** For an accepted fixture, an output of any reviewer passes every scorer exactly when it is perfect. */
  lemma AcceptedPassesIffPerfect(raw: Json, output: Json, secret: Loader.Secrets, leq: Order)
    requires Lawful(leq) && Loader.IssuesOf(raw, secret) == []
    ensures PassesAll(FixtureOf(raw), output, leq) <==> Perfect(FixtureOf(raw), output)
  {
    Loader.AcceptedIffValid(raw, secret);
    AcceptedIsConsistent(raw, secret);
    PassesAllIffPerfect(FixtureOf(raw), output, leq);
  }

  /** For accepted fixtures with distinct ids the run with the oracle gives a report for every fixture,
      and every one says that all seven scorers passed. */
  lemma OraclePassesAccepted(fixtures: seq<Json>, secret: Loader.Secrets, leq: Order)
    requires Lawful(leq)
    requires forall i :: 0 <= i < |fixtures| ==> Loader.IssuesOf(fixtures[i], secret) == []
    requires forall i, j :: 0 <= i < j < |fixtures| ==>
      Value(fixtures[i], "fixture_id") != Value(fixtures[j], "fixture_id")
    ensures var reports := Collect(fixtures, Reporter(OracleReviewer(fixtures), leq));
      reports.Some? && |reports.value| == |fixtures| && forall i :: 0 <= i < |fixtures| ==> reports.value[i].passed
  {
    forall i | 0 <= i < |fixtures| ensures Value(fixtures[i], "fixture_id") == Text(IdOf(fixtures[i])) {
      IdIsText(fixtures[i], secret);
    }
    forall i | 0 <= i < |fixtures|
      ensures ReportOf(fixtures[i], OracleReviewer(fixtures), leq).Some?
        && ReportOf(fixtures[i], OracleReviewer(fixtures), leq).value.passed
    {
      OraclePassesOne(fixtures, i, secret, leq);
    }
    CollectedInOrder(fixtures, Reporter(OracleReviewer(fixtures), leq));
  }

  lemma IdIsText(raw: Json, secret: Loader.Secrets)
    requires Loader.IssuesOf(raw, secret) == []
    ensures Value(raw, "fixture_id") == Text(IdOf(raw))
  {
    Loader.AcceptedIffValid(raw, secret);
  }

  lemma OraclePassesOne(fixtures: seq<Json>, i: nat, secret: Loader.Secrets, leq: Order)
    requires Lawful(leq) && i < |fixtures| && Loader.IssuesOf(fixtures[i], secret) == [] && IsLastWithItsId(fixtures, i)
    ensures ReportOf(fixtures[i], OracleReviewer(fixtures), leq).Some?
      && ReportOf(fixtures[i], OracleReviewer(fixtures), leq).value.passed
  {
    OracleAnswersWithLast(fixtures, i, i, secret, leq);
    OracleIsPerfect(fixtures[i], secret);
    PassedIffAllPass(fixtures[i], OracleReviewer(fixtures), leq);
  }

  // ---- What a passing output is, in terms of the two documents

  predicate AreSolidTexts(v: Json) {
    v.List? && forall i :: 0 <= i < |v.items| ==> IsSolidText(v.items[i])
  }

  /** A result as the reviewer has to write it. */
  predicate IsWellFormed(x: Json) {
    && x.Record? && IsSolidText(Value(x, "memory_id"))
    && IsTextIn(Value(x, "relevance"), {"relevant", "borderline", "irrelevant"})
    && IsTextIn(Value(x, "usefulness"), {"useful", "not_useful"})
    && IsTextIn(Value(x, "effect"), {"helped", "hurt", "neutral"})
    && IsTextIn(Value(x, "lifecycle_state"), {"active", "superseded", "expired", "rejected", "unknown"})
    && AreSolidTexts(Value(x, "root_causes")) && AreSolidTexts(Value(x, "evidence_ids"))
    && forall i :: 0 <= i < |Value(x, "root_causes").items| ==>
         IsTextIn(Value(x, "root_causes").items[i],
                  {"creation", "retrieval", "agent_usage", "stale_memory", "provenance_missing",
                   "supersession_missing", "telemetry_gap"})
  }

  /** The result says what the expected one says: root causes in any order, and the relevance of an
      inactive memory judged neutral and not useful may be borderline for irrelevant or the reverse. */
  ghost predicate SaysTheSame(e: Json, x: Json) {
    && Value(x, "usefulness") == Value(e, "usefulness") && Value(x, "effect") == Value(e, "effect")
    && Value(x, "lifecycle_state") == Value(e, "lifecycle_state")
    && multiset(Loader.Items(Value(x, "root_causes"))) == multiset(Loader.Items(Value(e, "root_causes")))
    && (Value(x, "relevance") == Value(e, "relevance")
        || (IsTextIn(Value(x, "relevance"), {"borderline", "irrelevant"})
            && IsTextIn(Value(e, "relevance"), {"borderline", "irrelevant"})
            && Value(e, "usefulness") == Text("not_useful") && Value(e, "effect") == Text("neutral")
            && IsTextIn(Value(e, "lifecycle_state"), {"superseded", "expired", "rejected"})))
  }

  /** It cites evidence of the fixture only, and some unless it is borderline, not useful, neutral and
      without root causes. */
  predicate CitesWhatItMust(raw: Json, x: Json) {
    var cited := Loader.Items(Value(x, "evidence_ids"));
    && (forall i :: 0 <= i < |cited| ==> Lists(Value(raw, "evidence"), "evidence_id", cited[i]))
    && (cited == [] ==>
          Value(x, "relevance") == Text("borderline") && Value(x, "usefulness") == Text("not_useful")
          && Value(x, "effect") == Text("neutral") && Loader.Items(Value(x, "root_causes")) == [])
  }

  predicate HeadFits(raw: Json, output: Json) {
    && output.Record?
    && Value(output, "prompt_outcome") == Value(Value(raw, "expected"), "prompt_outcome")
    && Value(output, "confidence").Number? && 0.0 <= Value(output, "confidence").value <= 1.0
    && IsSolidText(Value(output, "summary"))
    && (Has(output, "failure_code") ==>
          IsTextIn(Value(output, "failure_code"),
                   {"missing_prompt", "missing_task_summary", "missing_transcript_evidence",
                    "missing_output_evidence", "missing_memory_evidence", "missing_usage_evidence",
                    "missing_required_evidence", "invalid_reviewer_output"}))
    && Value(output, "memory_results").List?
  }

  /** One well-formed result for each returned memory. */
  ghost predicate OneEach(raw: Json, results: seq<Json>) {
    && (forall i :: 0 <= i < |results| ==> IsWellFormed(results[i]))
    && (forall i, j :: 0 <= i < j < |results| ==> Value(results[i], "memory_id") != Value(results[j], "memory_id"))
    && (forall i :: 0 <= i < |results| ==>
          Lists(Value(raw, "returned_memories"), "memory_id", Value(results[i], "memory_id")))
    && forall i :: 0 <= i < |Loader.Items(Value(raw, "returned_memories"))| ==>
         Lists(List(results), "memory_id", Value(Loader.Items(Value(raw, "returned_memories"))[i], "memory_id"))
  }

  ghost predicate AllSaid(expected: seq<Json>, results: seq<Json>) {
    forall i, j :: 0 <= i < |expected| && 0 <= j < |results| ==>
      Value(results[j], "memory_id") == Value(expected[i], "memory_id") ==> SaysTheSame(expected[i], results[j])
  }

  ghost predicate IsRightFor(raw: Json, output: Json) {
    && HeadFits(raw, output)
    && var results, expected := Value(output, "memory_results").items, ExpectedItems(raw);
       && OneEach(raw, results)
       && AllSaid(expected, results)
       && forall j :: 0 <= j < |results| ==> CitesWhatItMust(raw, results[j])
  }

  lemma SolidTextsAreNonBlank(v: Json)
    ensures AreSolidTexts(v) <==> v.List? && AllNonBlank(v.items)
  {
    if v.List? {
      forall i | 0 <= i < |v.items| ensures IsSolidText(v.items[i]) <==> NonBlank(v.items[i]).Some? {
        SolidIsNonBlank(v.items[i]);
      }
    }
  }

  lemma WellFormedReads(x: Json)
    ensures IsWellFormed(x) <==> ReadsCleanly(x)
  {
    SolidIsNonBlank(Value(x, "memory_id"));
    SolidTextsAreNonBlank(Value(x, "root_causes"));
    SolidTextsAreNonBlank(Value(x, "evidence_ids"));
  }

  /** The strings of an array occur as often as the texts. */
  lemma {:induction false} TextsAsStrings(items: seq<Json>, s: string)
    requires AllNonBlank(items)
    ensures multiset(Strings(items))[s] == multiset(items)[Text(s)]
  {
    if items != [] {
      var n := |items| - 1;
      assert forall i :: 0 <= i < n ==> items[..n][i] == items[i];
      TextsAsStrings(items[..n], s);
      assert items == items[..n] + [items[n]];
      OneMoreCounted(items[..n], items[n], Text(s));
      OneMoreCounted(Strings(items[..n]), NonBlank(items[n]).value, s);
    }
  }

  lemma OneMoreCounted<T>(front: seq<T>, last: T, x: T)
    ensures multiset(front + [last])[x] == multiset(front)[x] + if last == x then 1 else 0
  {
  }

  lemma SameTextsSameStrings(a: seq<Json>, b: seq<Json>)
    requires AllNonBlank(a) && AllNonBlank(b)
    ensures multiset(a) == multiset(b) <==> multiset(Strings(a)) == multiset(Strings(b))
  {
    forall s
      ensures multiset(Strings(a))[s] == multiset(a)[Text(s)] && multiset(Strings(b))[s] == multiset(b)[Text(s)]
    {
      TextsAsStrings(a, s);
      TextsAsStrings(b, s);
    }
    if multiset(Strings(a)) == multiset(Strings(b)) {
      forall x ensures multiset(a)[x] == multiset(b)[x] {
        if x.Text? {
          assert multiset(Strings(a))[x.text] == multiset(Strings(b))[x.text];
        } else {
          assert x !in a && x !in b;
        }
      }
    }
  }

  /** The labels are the texts of the entry. */
  predicate AreTextsOf(x: Json, r: Labels) {
    && Value(x, "relevance") == Text(r.relevance) && Value(x, "usefulness") == Text(r.usefulness)
    && Value(x, "effect") == Text(r.effect) && Value(x, "lifecycle_state") == Text(r.lifecycle)
  }

  lemma LabelsAreTexts(x: Json)
    requires ReadsCleanly(x)
    ensures AreTextsOf(x, LabelsOf(x))
    ensures Value(x, "root_causes").List? && AllNonBlank(Value(x, "root_causes").items)
    ensures LabelsOf(x).rootCauses == Strings(Value(x, "root_causes").items)
  {
  }

  lemma AgreeingSayTheSame(e: Json, x: Json)
    requires ReadsCleanly(e) && ReadsCleanly(x)
    ensures Agree(LabelsOf(e), LabelsOf(x)) <==> SaysTheSame(e, x)
  {
    LabelsAreTexts(e);
    LabelsAreTexts(x);
    SameTextsSameStrings(Value(x, "root_causes").items, Value(e, "root_causes").items);
    AgreeIsSaying(e, x, LabelsOf(e), LabelsOf(x));
  }

  lemma AgreeIsSaying(e: Json, x: Json, a: Labels, b: Labels)
    requires AreTextsOf(e, a) && AreTextsOf(x, b)
    requires multiset(b.rootCauses) == multiset(a.rootCauses)
      <==> multiset(Loader.Items(Value(x, "root_causes"))) == multiset(Loader.Items(Value(e, "root_causes")))
    ensures Agree(a, b) <==> SaysTheSame(e, x)
  {
  }

  lemma CitingIsHolding(raw: Json, x: Json, secret: Loader.Secrets)
    requires Loader.ValidEvidenceList(Value(raw, "evidence"), secret) && ReadsCleanly(x)
    ensures EvidenceHolds(LabelsOf(x), Loader.EvidenceIds(raw)) <==> CitesWhatItMust(raw, x)
  {
    var cited, evidence := Value(x, "evidence_ids").items, Value(raw, "evidence").items;
    StringsOfNonBlank(cited);
    StringsOfNonBlank(Value(x, "root_causes").items);
    LabelsAreTexts(x);
    forall i | 0 <= i < |cited|
      ensures Strings(cited)[i] in Loader.EvidenceIds(raw) <==> Lists(Value(raw, "evidence"), "evidence_id", cited[i])
    {
      ListedIff(evidence, "evidence_id", Strings(cited)[i]);
    }
  }

  lemma OneEachIff(raw: Json, results: seq<Json>, secret: Loader.Secrets)
    requires Loader.ValidMemories(Value(raw, "returned_memories"), secret)
    ensures OneEach(raw, results) <==>
      (forall i :: 0 <= i < |results| ==> ReadsCleanly(results[i]))
      && Distinct(LabelsOfAll(results)) && IdSet(LabelsOfAll(results)) == Loader.MemoryIds(raw)
  {
    AllWellFormedRead(results);
    ReturnedIds(raw, secret);
    if forall i :: 0 <= i < |results| ==> ReadsCleanly(results[i]) {
      IdsAlike(results);
      SetsAlike(results, Loader.Items(Value(raw, "returned_memories")));
    }
  }

  lemma AllWellFormedRead(results: seq<Json>)
    ensures (forall i :: 0 <= i < |results| ==> IsWellFormed(results[i]))
      <==> forall i :: 0 <= i < |results| ==> ReadsCleanly(results[i])
    ensures (forall i :: 0 <= i < |results| ==> ReadsCleanly(results[i])) ==>
      forall i :: 0 <= i < |results| ==> NonBlank(Value(results[i], "memory_id")).Some?
  {
    forall i | 0 <= i < |results| ensures IsWellFormed(results[i]) <==> ReadsCleanly(results[i]) {
      WellFormedReads(results[i]);
    }
  }

  lemma ReturnedIds(raw: Json, secret: Loader.Secrets)
    requires Loader.ValidMemories(Value(raw, "returned_memories"), secret)
    ensures var returned := Loader.Items(Value(raw, "returned_memories"));
      && Value(raw, "returned_memories") == List(returned) && Loader.MemoryIds(raw) == IdsOf(returned, "memory_id")
      && forall i :: 0 <= i < |returned| ==> NonBlank(Value(returned[i], "memory_id")).Some?
  {
  }

  lemma AgreeIff(expected: seq<Json>, results: seq<Json>)
    requires forall i :: 0 <= i < |expected| ==> ReadsCleanly(expected[i])
    requires forall j :: 0 <= j < |results| ==> ReadsCleanly(results[j])
    ensures AllAgree(LabelsOfAll(expected), LabelsOfAll(results)) <==> AllSaid(expected, results)
  {
    var a, b := LabelsOfAll(expected), LabelsOfAll(results);
    forall i, j | 0 <= i < |expected| && 0 <= j < |results|
      ensures b[j].id == a[i].id <==> Value(results[j], "memory_id") == Value(expected[i], "memory_id")
      ensures Agree(a[i], b[j]) <==> SaysTheSame(expected[i], results[j])
    {
      SameIdIff(expected[i], results[j]);
      AgreeingSayTheSame(expected[i], results[j]);
    }
  }

  lemma SameIdIff(e: Json, x: Json)
    requires ReadsCleanly(e) && ReadsCleanly(x)
    ensures LabelsOf(x).id == LabelsOf(e).id <==> Value(x, "memory_id") == Value(e, "memory_id")
  {
  }

  lemma ExpectedRead(raw: Json, secret: Loader.Secrets)
    requires Loader.ValidFixture(raw, secret)
    ensures forall i :: 0 <= i < |ExpectedItems(raw)| ==> ReadsCleanly(ExpectedItems(raw)[i])
  {
    forall i | 0 <= i < |ExpectedItems(raw)| ensures ReadsCleanly(ExpectedItems(raw)[i]) {
      AcceptedResultReads(ExpectedItems(raw)[i], Loader.EvidenceIds(raw), secret);
    }
  }

  lemma HeadIff(raw: Json, output: Json, secret: Loader.Secrets)
    requires Loader.ValidFixture(raw, secret)
    ensures HeadFits(raw, output) <==>
      output.Record? && ValidOutputHead(output) && Value(output, "memory_results").List?
      && TextOf(Value(output, "prompt_outcome")) == FixtureOf(raw).outcome
  {
    SolidIsNonBlank(Value(output, "summary"));
  }

  lemma PerfectIsRight(raw: Json, output: Json, secret: Loader.Secrets)
    requires Loader.ValidFixture(raw, secret)
    ensures Perfect(FixtureOf(raw), output) <==> IsRightFor(raw, output)
  {
    HeadIff(raw, output, secret);
    if HeadFits(raw, output) {
      var results := Value(output, "memory_results").items;
      OneEachIff(raw, results, secret);
      if OneEach(raw, results) {
        ExpectedRead(raw, secret);
        AgreeIff(ExpectedItems(raw), results);
        forall j | 0 <= j < |results|
          ensures EvidenceHolds(LabelsOf(results[j]), Loader.EvidenceIds(raw)) <==> CitesWhatItMust(raw, results[j])
        {
          CitingIsHolding(raw, results[j], secret);
        }
      }
    }
  }

  /** For an accepted fixture a reviewer's output passes all seven scorers, and is reported as passed,
      exactly when it is right. */
  lemma PassedIffRight(raw: Json, reviewer: Reviewer, secret: Loader.Secrets, leq: Order)
    requires Lawful(leq) && Loader.IssuesOf(raw, secret) == [] && ReportOf(raw, reviewer, leq).Some?
    ensures var report := ReportOf(raw, reviewer, leq).value; report.passed <==> IsRightFor(raw, report.actual)
  {
    var output := ReportOf(raw, reviewer, leq).value.actual;
    PassedIffAllPass(raw, reviewer, leq);
    AcceptedPassesIffPerfect(raw, output, secret, leq);
    Loader.AcceptedIffValid(raw, secret);
    PerfectIsRight(raw, output, secret);
  }
}
