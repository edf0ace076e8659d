/** The scorers that compare a reviewer's output with the labels of a fixture. */
module OutputScorers {
  import opened Options
  import opened ReviewJson
  import Loader = FixtureLoader
  import Sorting

  datatype Code =
    | MissingMemoryResult | UnexpectedMemoryResult | DuplicateMemoryResult | InvalidSchema | InvalidEnum
    | FabricatedEvidenceId | MissingRequiredEvidence | ConfusionMismatch | RelevanceMismatch | UsefulnessMismatch
    | EffectMismatch | FalsePositiveHurtMismatch | RootCauseMismatch | LifecycleMismatch

  datatype Scorer =
    | SchemaValid | EvidenceValid | ConfusionExact | ItemLabelsExact
    | FalsePositiveHurtExact | RootCauseExact | LifecycleExact

  datatype Score = Score(scorer: Scorer, passed: bool, codes: seq<Code>)

  datatype Labels = Labels(id: string, relevance: string, usefulness: string, effect: string, lifecycle: string,
                           rootCauses: seq<string>, evidence: seq<string>)

  /** What the scorers read of a fixture. */
  datatype Fixture = Fixture(memoryIds: set<string>, evidenceIds: set<string>, outcome: string, expected: seq<Labels>)

  function TextOf(v: Json): string {
    if v.Text? then v.text else ""
  }

  function LabelsOf(entry: Json): Labels {
    Labels(TextOf(Value(entry, "memory_id")), TextOf(Value(entry, "relevance")), TextOf(Value(entry, "usefulness")),
           TextOf(Value(entry, "effect")), TextOf(Value(entry, "lifecycle_state")),
           Strings(Loader.Items(Value(entry, "root_causes"))), Strings(Loader.Items(Value(entry, "evidence_ids"))))
  }

  function LabelsOfAll(entries: seq<Json>): (labels: seq<Labels>)
    ensures |labels| == |entries| && forall i :: 0 <= i < |entries| ==> labels[i] == LabelsOf(entries[i])
  {
    seq(|entries|, i requires 0 <= i < |entries| => LabelsOf(entries[i]))
  }

  function FixtureOf(raw: Json): Fixture {
    var expected := Value(raw, "expected");
    Fixture(Loader.MemoryIds(raw), Loader.EvidenceIds(raw), TextOf(Value(expected, "prompt_outcome")),
            LabelsOfAll(Loader.Items(Value(expected, "memory_results"))))
  }

  // ---- The strings that are sorted

  type Order = (string, string) -> bool

  /** Root causes and memory identifiers. */
  function SortedStrings(): string -> bool {
    s => s in ROOT_CAUSES || Loader.IsMemoryId(s)
  }

  /** The comparison orders those strings and tells them apart; nothing is asked of it elsewhere. */
  ghost predicate Lawful(leq: Order) {
    Sorting.Lawful(leq, SortedStrings())
  }

  // ---- Reading a reviewer's output

  function EnumCodes(v: Json, allowed: set<string>): seq<Code> {
    Flag(!IsOneOf(v, allowed), InvalidEnum)
  }

  function Keep(values: seq<string>, good: string -> bool): seq<string> {
    if values == [] then []
    else
      var front, last := Keep(values[..|values| - 1], good), values[|values| - 1];
      if good(last) then front + [last] else front
  }

  lemma {:induction false} KeepAll(values: seq<string>, good: string -> bool)
    requires forall i :: 0 <= i < |values| ==> good(values[i])
    ensures Keep(values, good) == values
  {
    if values != [] {
      KeepAll(values[..|values| - 1], good);
    }
  }

  function RootCauseCodes(v: Json): seq<Code> {
    if !v.List? then [InvalidSchema]
    else BlankCodes(v.items, InvalidSchema) + FlagEach(Strings(v.items), MemberOf(ROOT_CAUSES), InvalidEnum)
  }

  function StringsCodes(v: Json): seq<Code> {
    if !v.List? then [InvalidSchema] else BlankCodes(v.items, InvalidSchema)
  }

  function ParseCodes(entry: Json): seq<Code> {
    if !entry.Record? then [InvalidSchema]
    else
      Flag(NonBlank(Value(entry, "memory_id")).None?, InvalidSchema)
      + EnumCodes(Value(entry, "relevance"), RELEVANCE)
      + EnumCodes(Value(entry, "usefulness"), USEFULNESS)
      + EnumCodes(Value(entry, "effect"), EFFECTS)
      + EnumCodes(Value(entry, "lifecycle_state"), LIFECYCLES)
      + RootCauseCodes(Value(entry, "root_causes"))
      + StringsCodes(Value(entry, "evidence_ids"))
  }

  /** An entry with bad strings in its arrays is still read, without them. */
  function Parse(entry: Json): Option<Labels> {
    var causes, evidence := Value(entry, "root_causes"), Value(entry, "evidence_ids");
    if !entry.Record? || NonBlank(Value(entry, "memory_id")).None? || !Loader.ValidLabels(entry)
      || !causes.List? || !evidence.List? then None
    else Some(LabelsOf(entry).(rootCauses := Keep(Strings(causes.items), MemberOf(ROOT_CAUSES))))
  }

  /** One entry as it was read: the codes it gave and the labels, if it could be read. */
  datatype Reading = Reading(codes: seq<Code>, labels: Option<Labels>)

  function Read(entry: Json): Reading {
    Reading(ParseCodes(entry), Parse(entry))
  }

  function Readings(items: seq<Json>): (readings: seq<Reading>)
    ensures |readings| == |items| && forall i :: 0 <= i < |items| ==> readings[i] == Read(items[i])
  {
    seq(|items|, i requires 0 <= i < |items| => Read(items[i]))
  }

  function Parsed(readings: seq<Reading>): seq<Labels> {
    if readings == [] then []
    else
      var front, last := Parsed(readings[..|readings| - 1]), readings[|readings| - 1].labels;
      if last.Some? then front + [last.value] else front
  }

  function IdSet(results: seq<Labels>): set<string> {
    set i | 0 <= i < |results| :: results[i].id
  }

  function ReadingCodes(reading: Reading, seen: set<string>, returned: set<string>): seq<Code> {
    reading.codes +
    if reading.labels.None? then []
    else
      Flag(reading.labels.value.id !in returned, UnexpectedMemoryResult)
      + Flag(reading.labels.value.id in seen, DuplicateMemoryResult)
  }

  function ItemsCodes(readings: seq<Reading>, returned: set<string>): seq<Code> {
    if readings == [] then []
    else
      var front := readings[..|readings| - 1];
      ItemsCodes(front, returned) + ReadingCodes(readings[|readings| - 1], IdSet(Parsed(front)), returned)
  }

  function HeadCodes(actual: Json): seq<Code> {
    EnumCodes(Value(actual, "prompt_outcome"), OUTCOMES)
    + Flag(!InUnitInterval(Value(actual, "confidence")), InvalidSchema)
    + Flag(NonBlank(Value(actual, "summary")).None?, InvalidSchema)
    + (if Has(actual, "failure_code") then EnumCodes(Value(actual, "failure_code"), FAILURES) else [])
    + Flag(!Value(actual, "memory_results").List?, InvalidSchema)
  }

  function ResultItems(actual: Json): seq<Json> {
    Loader.Items(Value(actual, "memory_results"))
  }

  /** The reason codes of the validator; it returns an output exactly when there are none. */
  function OutputCodes(actual: Json, returned: set<string>): seq<Code> {
    if !actual.Record? then [InvalidSchema]
    else
      HeadCodes(actual) + ResultsCodes(Readings(ResultItems(actual)), returned)
  }

  function ResultsCodes(readings: seq<Reading>, returned: set<string>): seq<Code> {
    ItemsCodes(readings, returned) + Repeat(|returned - IdSet(Parsed(readings))|, MissingMemoryResult)
  }

  datatype Output = Output(outcome: string, results: seq<Labels>)

  function OutputOf(actual: Json): Output {
    Output(TextOf(Value(actual, "prompt_outcome")), Parsed(Readings(ResultItems(actual))))
  }

  function Unique(codes: seq<Code>): seq<Code> {
    if codes == [] then []
    else
      var front, last := Unique(codes[..|codes| - 1]), codes[|codes| - 1];
      if last in front then front else front + [last]
  }

  /** Removing repeated codes keeps each of them, once. */
  lemma {:induction false} UniqueHasTheSame(codes: seq<Code>)
    ensures forall code :: code in Unique(codes) <==> code in codes
    ensures forall i, j :: 0 <= i < j < |Unique(codes)| ==> Unique(codes)[i] != Unique(codes)[j]
    ensures Unique(codes) == [] <==> codes == []
  {
    if codes != [] {
      var front, last := codes[..|codes| - 1], codes[|codes| - 1];
      UniqueHasTheSame(front);
      assert codes == front + [last];
      assert last in codes;
    }
  }

  lemma ParsedOneMore(readings: seq<Reading>, i: nat)
    requires i < |readings|
    ensures Parsed(readings[..i + 1])
      == Parsed(readings[..i]) + if readings[i].labels.Some? then [readings[i].labels.value] else []
  {
    assert readings[..i + 1][..i] == readings[..i];
  }

  lemma ItemsOneMore(readings: seq<Reading>, i: nat, returned: set<string>)
    requires i < |readings|
    ensures ItemsCodes(readings[..i + 1], returned)
      == ItemsCodes(readings[..i], returned) + ReadingCodes(readings[i], IdSet(Parsed(readings[..i])), returned)
  {
    assert readings[..i + 1][..i] == readings[..i];
  }

  method NoteReading(reading: Reading, seen: set<string>, returned: set<string>, codes: CodeList<Code>)
    modifies codes
    ensures codes.codes == old(codes.codes) + ReadingCodes(reading, seen, returned)
  {
    codes.AddAll(reading.codes);
    if reading.labels.Some? {
      if reading.labels.value.id !in returned {
        codes.Add(UnexpectedMemoryResult);
      }
      if reading.labels.value.id in seen {
        codes.Add(DuplicateMemoryResult);
      }
    }
  }

  /** One turn of the loop over the results. */
  method ReadResult(readings: seq<Reading>, i: nat, returned: set<string>, results0: seq<Labels>, seen0: set<string>,
                    codes: CodeList<Code>)
    returns (results: seq<Labels>, seen: set<string>)
    requires i < |readings| && results0 == Parsed(readings[..i]) && seen0 == IdSet(results0)
    modifies codes
    ensures results == Parsed(readings[..i + 1]) && seen == IdSet(results)
    ensures codes.codes == old(codes.codes) + ReadingCodes(readings[i], seen0, returned)
  {
    ParsedOneMore(readings, i);
    NoteReading(readings[i], seen0, returned, codes);
    results, seen := results0, seen0;
    if readings[i].labels.Some? {
      var parsed := readings[i].labels.value;
      IdSetOneMore(results, parsed);
      seen, results := seen + {parsed.id}, results + [parsed];
    }
  }

  method CollectResults(head: seq<Code>, readings: seq<Reading>, returned: set<string>)
      returns (results: seq<Labels>, reasons: seq<Code>)
    ensures reasons == head + ResultsCodes(readings, returned)
    ensures results == Parsed(readings)
  {
    var list := new CodeList<Code>();
    list.AddAll(head);
    var seen: set<string> := {};
    results := [];
    for i := 0 to |readings|
      invariant fresh(list) && Gathered(head, readings[..i], returned, results, seen, list.codes)
    {
      ghost var codes := list.codes;
      results, seen := ReadResult(readings, i, returned, results, seen, list);
      GatheredOneMore(head, readings, i, returned, codes);
    }
    assert readings[..|readings|] == readings;
    CheckMissing(returned, seen, MissingMemoryResult, list);
    reasons := list.codes;
  }

  /** The loop's variables after the given readings. */
  ghost predicate Gathered(head: seq<Code>, readings: seq<Reading>, returned: set<string>, results: seq<Labels>,
                           seen: set<string>, codes: seq<Code>) {
    results == Parsed(readings) && seen == IdSet(results) && codes == head + ItemsCodes(readings, returned)
  }

  lemma GatheredOneMore(head: seq<Code>, readings: seq<Reading>, i: nat, returned: set<string>, codes: seq<Code>)
    requires i < |readings| && codes == head + ItemsCodes(readings[..i], returned)
    ensures codes + ReadingCodes(readings[i], IdSet(Parsed(readings[..i])), returned)
      == head + ItemsCodes(readings[..i + 1], returned)
  {
    ItemsOneMore(readings, i, returned);
  }

  lemma IdSetOneMore(results: seq<Labels>, next: Labels)
    ensures IdSet(results + [next]) == IdSet(results) + {next.id}
  {
    var more := results + [next];
    assert more[|results|] == next;
    assert forall i :: 0 <= i < |results| ==> more[i] == results[i];
  }

  method ValidateReviewerOutput(fixture: Fixture, actual: Json) returns (output: Option<Output>, reasons: seq<Code>)
    ensures reasons == Unique(OutputCodes(actual, fixture.memoryIds))
    ensures output == if reasons == [] then Some(OutputOf(actual)) else None
  {
    if !actual.Record? {
      reasons := Unique([InvalidSchema]);
      UniqueHasTheSame([InvalidSchema]);
      return None, reasons;
    }
    var results, codes := CollectResults(HeadCodes(actual), Readings(ResultItems(actual)), fixture.memoryIds);
    reasons := Unique(codes);
    UniqueHasTheSame(codes);
    output := if codes != [] then None else Some(Output(TextOf(Value(actual, "prompt_outcome")), results));
  }

  // ---- The scorers

  predicate RequiresEvidence(r: Labels) {
    r.relevance != "borderline" || r.usefulness == "useful" || r.effect != "neutral" || r.rootCauses != []
  }

  function EvidenceCodes(results: seq<Labels>, evidenceIds: set<string>): seq<Code> {
    CodesOfAll(results, EvidenceCheck(evidenceIds))
  }

  function EvidenceCheck(evidenceIds: set<string>): Labels -> seq<Code> {
    (r: Labels) => EvidenceCodesOf(r, evidenceIds)
  }

  function CodesOfAll(results: seq<Labels>, check: Labels -> seq<Code>): seq<Code> {
    if results == [] then [] else CodesOfAll(results[..|results| - 1], check) + check(results[|results| - 1])
  }

  lemma {:induction false} NoCodesOfAll(results: seq<Labels>, check: Labels -> seq<Code>)
    ensures CodesOfAll(results, check) == [] <==> forall i :: 0 <= i < |results| ==> check(results[i]) == []
  {
    if results != [] {
      var n := |results| - 1;
      NoCodesOfAll(results[..n], check);
      assert results == results[..n] + [results[n]];
    }
  }

  function EvidenceCodesOf(r: Labels, evidenceIds: set<string>): seq<Code> {
    Flag(RequiresEvidence(r) && r.evidence == [], MissingRequiredEvidence)
      + FlagEach(r.evidence, MemberOf(evidenceIds), FabricatedEvidenceId)
  }

  /** The last result of each identifier. */
  function ById(results: seq<Labels>): map<string, Labels> {
    if results == [] then map[]
    else
      var last := results[|results| - 1];
      ById(results[..|results| - 1])[last.id := last]
  }

  predicate IsBoundary(relevance: string) {
    relevance == "borderline" || relevance == "irrelevant"
  }

  predicate IsInactive(lifecycle: string) {
    lifecycle == "superseded" || lifecycle == "expired" || lifecycle == "rejected"
  }

  predicate AllowsInactiveNeutralRelevanceBoundary(e: Labels, r: Labels) {
    && IsBoundary(e.relevance) && IsBoundary(r.relevance)
    && e.usefulness == "not_useful" && r.usefulness == "not_useful"
    && e.effect == "neutral" && r.effect == "neutral"
    && e.lifecycle == r.lifecycle && IsInactive(e.lifecycle)
  }

  type Comparison = (Labels, Labels) -> seq<Code>

  function CompareItems(): Comparison {
    (e: Labels, r: Labels) =>
      Flag(r.relevance != e.relevance && !AllowsInactiveNeutralRelevanceBoundary(e, r), RelevanceMismatch)
      + Flag(r.usefulness != e.usefulness, UsefulnessMismatch)
      + Flag(r.effect != e.effect, EffectMismatch)
  }

  function CompareRootCauses(leq: Order): Comparison {
    (e: Labels, r: Labels) =>
      Flag(Sorting.Sort(e.rootCauses, leq) != Sorting.Sort(r.rootCauses, leq), RootCauseMismatch)
  }

  function CompareLifecycles(): Comparison {
    (e: Labels, r: Labels) => Flag(r.lifecycle != e.lifecycle, LifecycleMismatch)
  }

  /** Every expected result is compared with the actual one for its memory. */
  function ComparedCodes(expected: seq<Labels>, byId: map<string, Labels>, compare: Comparison): seq<Code> {
    if expected == [] then []
    else
      var last := expected[|expected| - 1];
      ComparedCodes(expected[..|expected| - 1], byId, compare)
      + if last.id in byId then compare(last, byId[last.id]) else [MissingMemoryResult]
  }

  function HurtIds(results: seq<Labels>): seq<string> {
    if results == [] then []
    else HurtIds(results[..|results| - 1]) + if results[|results| - 1].effect == "hurt"
      then [results[|results| - 1].id] else []
  }

  function HurtFalsePositiveIds(outcome: string, results: seq<Labels>, leq: Order): seq<string> {
    if outcome != "false_positive" then [] else Sorting.Sort(HurtIds(results), leq)
  }

  /** The reason codes of one scorer for an output that validates. */
  function ScorerCodes(scorer: Scorer, fixture: Fixture, output: Output, leq: Order): seq<Code> {
    CodesFor(scorer,
      EvidenceCodes(output.results, fixture.evidenceIds),
      Flag(output.outcome != fixture.outcome, ConfusionMismatch),
      ComparedCodes(fixture.expected, ById(output.results), CompareItems()),
      Flag(HurtFalsePositiveIds(fixture.outcome, fixture.expected, leq)
        != HurtFalsePositiveIds(output.outcome, output.results, leq), FalsePositiveHurtMismatch),
      ComparedCodes(fixture.expected, ById(output.results), CompareRootCauses(leq)),
      ComparedCodes(fixture.expected, ById(output.results), CompareLifecycles()))
  }

  function CodesFor(scorer: Scorer, evidence: seq<Code>, confusion: seq<Code>, items: seq<Code>, hurt: seq<Code>,
                    rootCauses: seq<Code>, lifecycles: seq<Code>): seq<Code> {
    match scorer
    case SchemaValid => []
    case EvidenceValid => evidence
    case ConfusionExact => confusion
    case ItemLabelsExact => items
    case FalsePositiveHurtExact => hurt
    case RootCauseExact => rootCauses
    case LifecycleExact => lifecycles
  }

  function ScoreOf(scorer: Scorer, fixture: Fixture, actual: Json, leq: Order): Score {
    var reasons := Unique(OutputCodes(actual, fixture.memoryIds));
    var codes := if reasons != [] then reasons else ScorerCodes(scorer, fixture, OutputOf(actual), leq);
    Score(scorer, codes == [], Unique(codes))
  }

  method CheckResultEvidence(results: seq<Labels>, evidenceIds: set<string>) returns (codes: seq<Code>)
    ensures codes == EvidenceCodes(results, evidenceIds)
  {
    var list := new CodeList<Code>();
    for i := 0 to |results|
      invariant fresh(list) && list.codes == EvidenceCodes(results[..i], evidenceIds)
    {
      assert results[..i + 1][..i] == results[..i];
      if RequiresEvidence(results[i]) && results[i].evidence == [] {
        list.Add(MissingRequiredEvidence);
      }
      CheckEach(results[i].evidence, MemberOf(evidenceIds), FabricatedEvidenceId, list);
    }
    assert results[..|results|] == results;
    codes := list.codes;
  }

  method ResultsByMemoryId(results: seq<Labels>) returns (byId: map<string, Labels>)
    ensures byId == ById(results)
  {
    byId := map[];
    for i := 0 to |results|
      invariant byId == ById(results[..i])
    {
      assert results[..i + 1][..i] == results[..i];
      byId := byId[results[i].id := results[i]];
    }
    assert results[..|results|] == results;
  }

  method CompareEach(expected: seq<Labels>, results: seq<Labels>, compare: Comparison) returns (codes: seq<Code>)
    ensures codes == ComparedCodes(expected, ById(results), compare)
  {
    var actualById := ResultsByMemoryId(results);
    codes := [];
    for i := 0 to |expected|
      invariant codes == ComparedCodes(expected[..i], actualById, compare)
    {
      assert expected[..i + 1][..i] == expected[..i];
      if expected[i].id !in actualById {
        codes := codes + [MissingMemoryResult];
      } else {
        codes := codes + compare(expected[i], actualById[expected[i].id]);
      }
    }
    assert expected[..|expected|] == expected;
  }

  method ScoreValidOutput(scorer: Scorer, fixture: Fixture, output: Output, leq: Order) returns (codes: seq<Code>)
    ensures codes == ScorerCodes(scorer, fixture, output, leq)
  {
    match scorer
    case SchemaValid => codes := [];
    case EvidenceValid => codes := CheckResultEvidence(output.results, fixture.evidenceIds);
    case ConfusionExact => codes := Flag(output.outcome != fixture.outcome, ConfusionMismatch);
    case ItemLabelsExact => codes := CompareEach(fixture.expected, output.results, CompareItems());
    case FalsePositiveHurtExact =>
      var expectedHurt := HurtFalsePositiveIds(fixture.outcome, fixture.expected, leq);
      var actualHurt := HurtFalsePositiveIds(output.outcome, output.results, leq);
      codes := Flag(expectedHurt != actualHurt, FalsePositiveHurtMismatch);
    case RootCauseExact => codes := CompareEach(fixture.expected, output.results, CompareRootCauses(leq));
    case LifecycleExact => codes := CompareEach(fixture.expected, output.results, CompareLifecycles());
  }

  method ScoreOne(scorer: Scorer, fixture: Fixture, actual: Json, leq: Order) returns (score: Score)
    ensures score == ScoreOf(scorer, fixture, actual, leq)
  {
    var output, codes := ValidateReviewerOutput(fixture, actual);
    if output.Some? {
      codes := ScoreValidOutput(scorer, fixture, output.value, leq);
    }
    score := Score(scorer, codes == [], Unique(codes));
  }

  function SevenScores(score: Scorer -> Score): seq<Score> {
    [score(SchemaValid), score(EvidenceValid), score(ConfusionExact), score(ItemLabelsExact),
     score(FalsePositiveHurtExact), score(RootCauseExact), score(LifecycleExact)]
  }

  function Scoring(fixture: Fixture, actual: Json, leq: Order): Scorer -> Score {
    (scorer: Scorer) => ScoreOf(scorer, fixture, actual, leq)
  }

  method ScoreMemoryReviewBotOutput(fixture: Fixture, actual: Json, leq: Order) returns (scores: seq<Score>)
    ensures scores == SevenScores(Scoring(fixture, actual, leq))
    ensures (forall i :: 0 <= i < |scores| ==> scores[i].passed) <==> PassesAll(fixture, actual, leq)
  {
    var schema := ScoreOne(SchemaValid, fixture, actual, leq);
    var evidence := ScoreOne(EvidenceValid, fixture, actual, leq);
    var confusion := ScoreOne(ConfusionExact, fixture, actual, leq);
    var items := ScoreOne(ItemLabelsExact, fixture, actual, leq);
    var hurt := ScoreOne(FalsePositiveHurtExact, fixture, actual, leq);
    var rootCauses := ScoreOne(RootCauseExact, fixture, actual, leq);
    var lifecycles := ScoreOne(LifecycleExact, fixture, actual, leq);
    scores := [schema, evidence, confusion, items, hurt, rootCauses, lifecycles];
    SevenPassIff(fixture, actual, leq);
  }

  lemma SevenPassIff(fixture: Fixture, actual: Json, leq: Order)
    ensures var scores := SevenScores(Scoring(fixture, actual, leq));
      (forall i :: 0 <= i < |scores| ==> scores[i].passed) <==> PassesAll(fixture, actual, leq)
  {
    SevenAreAll(Scoring(fixture, actual, leq));
    assert forall scorer :: Scoring(fixture, actual, leq)(scorer) == ScoreOf(scorer, fixture, actual, leq);
  }

  /** The seven are all there are. */
  lemma SevenAreAll(score: Scorer -> Score)
    ensures (forall i :: 0 <= i < |SevenScores(score)| ==> SevenScores(score)[i].passed)
      <==> forall scorer :: score(scorer).passed
  {
    var scores := SevenScores(score);
    if forall i :: 0 <= i < |scores| ==> scores[i].passed {
      forall scorer ensures score(scorer).passed {
        assert scores[0].passed && scores[1].passed && scores[2].passed && scores[3].passed;
        assert scores[4].passed && scores[5].passed && scores[6].passed;
        match scorer
        case SchemaValid =>
        case EvidenceValid =>
        case ConfusionExact =>
        case ItemLabelsExact =>
        case FalsePositiveHurtExact =>
        case RootCauseExact =>
        case LifecycleExact =>
      }
    }
  }

  ghost predicate PassesAll(fixture: Fixture, actual: Json, leq: Order) {
    forall scorer :: ScoreOf(scorer, fixture, actual, leq).passed
  }

  // ---- What a perfect output is

  predicate ReadsCleanly(entry: Json) {
    && entry.Record? && NonBlank(Value(entry, "memory_id")).Some? && Loader.ValidLabels(entry)
    && Loader.ArrayOf(Value(entry, "root_causes"), MemberOf(ROOT_CAUSES))
    && Value(entry, "evidence_ids").List? && AllNonBlank(Value(entry, "evidence_ids").items)
  }

  predicate ValidOutputHead(actual: Json) {
    && IsOneOf(Value(actual, "prompt_outcome"), OUTCOMES) && InUnitInterval(Value(actual, "confidence"))
    && NonBlank(Value(actual, "summary")).Some?
    && (Has(actual, "failure_code") ==> IsOneOf(Value(actual, "failure_code"), FAILURES))
  }

  /** A well-formed output with exactly one result for each returned memory. */
  ghost predicate ValidOutput(actual: Json, returned: set<string>) {
    && actual.Record? && ValidOutputHead(actual) && Value(actual, "memory_results").List?
    && (forall i :: 0 <= i < |ResultItems(actual)| ==> ReadsCleanly(ResultItems(actual)[i]))
    && Distinct(LabelsOfAll(ResultItems(actual))) && IdSet(LabelsOfAll(ResultItems(actual))) == returned
  }

  /** The labels agree: root causes in any order, and the relevance of an inactive memory judged neutral
      and not useful may be borderline for irrelevant or the reverse. */
  ghost predicate Agree(e: Labels, r: Labels) {
    && r.usefulness == e.usefulness && r.effect == e.effect && r.lifecycle == e.lifecycle
    && multiset(r.rootCauses) == multiset(e.rootCauses)
    && (r.relevance == e.relevance
        || (e.relevance in {"borderline", "irrelevant"} && r.relevance in {"borderline", "irrelevant"}
            && e.usefulness == "not_useful" && e.effect == "neutral"
            && e.lifecycle in {"superseded", "expired", "rejected"}))
  }

  /** Only real evidence is cited, and none is missing unless the judgment is borderline, neutral, not
      useful and without root causes. */
  predicate EvidenceHolds(r: Labels, evidenceIds: set<string>) {
    && (forall i :: 0 <= i < |r.evidence| ==> r.evidence[i] in evidenceIds)
    && (r.evidence == [] ==>
          r.relevance == "borderline" && r.usefulness != "useful" && r.effect == "neutral" && r.rootCauses == [])
  }

  predicate AllEvidenceHolds(results: seq<Labels>, evidenceIds: set<string>) {
    forall i :: 0 <= i < |results| ==> EvidenceHolds(results[i], evidenceIds)
  }

  ghost predicate Perfect(fixture: Fixture, actual: Json) {
    && ValidOutput(actual, fixture.memoryIds)
    && TextOf(Value(actual, "prompt_outcome")) == fixture.outcome
    && AllAgree(fixture.expected, LabelsOfAll(ResultItems(actual)))
    && AllEvidenceHolds(LabelsOfAll(ResultItems(actual)), fixture.evidenceIds)
  }

  // ---- Validation finds nothing exactly in valid outputs

  lemma ParseCleanly(entry: Json)
    ensures ParseCodes(entry) == [] <==> ReadsCleanly(entry)
    ensures ReadsCleanly(entry) ==>
      Parse(entry) == Some(LabelsOf(entry)) && LabelsOf(entry).id == NonBlank(Value(entry, "memory_id")).value
  {
    var causes, evidence := Value(entry, "root_causes"), Value(entry, "evidence_ids");
    if causes.List? {
      CausesCleanly(causes, MemberOf(ROOT_CAUSES));
    }
    if Loader.ArrayOf(causes, MemberOf(ROOT_CAUSES)) {
      CausesKept(causes, MemberOf(ROOT_CAUSES));
    }
    if evidence.List? {
      NoBlanks(evidence.items, InvalidSchema);
    }
  }

  lemma CausesCleanly(v: Json, known: string -> bool)
    requires v.List?
    ensures BlankCodes(v.items, InvalidSchema) + FlagEach(Strings(v.items), known, InvalidEnum) == []
      <==> Loader.ArrayOf(v, known)
  {
    NoBlanks(v.items, InvalidSchema);
    NoFlags(Strings(v.items), known, InvalidEnum);
    BothEmpty(BlankCodes(v.items, InvalidSchema), FlagEach(Strings(v.items), known, InvalidEnum));
    if AllNonBlank(v.items) {
      StringsOfNonBlank(v.items);
    }
  }

  lemma BothEmpty<T>(a: seq<T>, b: seq<T>)
    ensures a + b == [] <==> a == [] && b == []
  {
    assert |a + b| == |a| + |b|;
  }

  lemma CausesKept(v: Json, known: string -> bool)
    requires Loader.ArrayOf(v, known)
    ensures Keep(Strings(v.items), known) == Strings(v.items)
  {
    StringsOfNonBlank(v.items);
    KeepAll(Strings(v.items), known);
  }

  ghost predicate AllClean(items: seq<Json>) {
    forall i :: 0 <= i < |items| ==> ReadsCleanly(items[i])
  }

  /** Each reading has labels exactly as given; labels and readings in step. */
  ghost predicate ReadAs(readings: seq<Reading>, labels: seq<Labels>) {
    |readings| == |labels| && forall i :: 0 <= i < |labels| ==> readings[i].labels == Some(labels[i])
  }

  lemma {:induction false} ParsedCleanly(readings: seq<Reading>, labels: seq<Labels>)
    requires ReadAs(readings, labels)
    ensures Parsed(readings) == labels
  {
    if readings != [] {
      var n := |readings| - 1;
      ParsedCleanly(readings[..n], labels[..n]);
      assert labels == labels[..n] + [labels[n]];
    }
  }

  ghost predicate Distinct(labels: seq<Labels>) {
    forall i, j :: 0 <= i < j < |labels| ==> labels[i].id != labels[j].id
  }

  /** Reading finds nothing exactly when every entry reads cleanly, as a result for a returned memory
      that has none yet. */
  lemma {:induction false} ItemsCleanly(readings: seq<Reading>, labels: seq<Labels>, returned: set<string>)
    requires |readings| == |labels|
    requires forall i :: 0 <= i < |readings| ==> readings[i].codes == [] ==> readings[i].labels == Some(labels[i])
    ensures ItemsCodes(readings, returned) == [] <==>
      AllSilent(readings) && Distinct(labels) && IdSet(labels) <= returned
  {
    if readings != [] {
      var n := |readings| - 1;
      var front, before := readings[..n], labels[..n];
      assert readings == front + [readings[n]] && labels == before + [labels[n]];
      ItemsCleanly(front, before, returned);
      SilentOneMore(front, readings[n]);
      LabelsOneMore(before, labels[n], returned);
      if AllSilent(front) {
        ParsedCleanly(front, before);
      }
      ReadingCleanly(readings[n], labels[n], IdSet(Parsed(front)), returned);
    }
  }

  lemma LabelsOneMore(before: seq<Labels>, last: Labels, returned: set<string>)
    ensures Distinct(before + [last]) && IdSet(before + [last]) <= returned <==>
      Distinct(before) && IdSet(before) <= returned && last.id in returned && last.id !in IdSet(before)
  {
    DistinctOneMore(before, last);
    IdSetOneMore(before, last);
  }

  ghost predicate AllSilent(readings: seq<Reading>) {
    forall i :: 0 <= i < |readings| ==> readings[i].codes == []
  }

  lemma SilentOneMore(front: seq<Reading>, last: Reading)
    ensures AllSilent(front + [last]) <==> AllSilent(front) && last.codes == []
  {
    var all := front + [last];
    assert all[|front|] == last && forall i :: 0 <= i < |front| ==> all[i] == front[i];
  }

  lemma ReadingCleanly(reading: Reading, labels: Labels, seen: set<string>, returned: set<string>)
    requires reading.codes == [] ==> reading.labels == Some(labels)
    ensures ReadingCodes(reading, seen, returned) == []
      <==> reading.codes == [] && labels.id in returned && labels.id !in seen
  {
  }

  lemma DistinctOneMore(before: seq<Labels>, last: Labels)
    ensures Distinct(before + [last]) <==> Distinct(before) && last.id !in IdSet(before)
  {
    var all := before + [last];
    if Distinct(all) {
      assert forall i :: 0 <= i < |before| ==> all[i] == before[i] && all[i].id != all[|before|].id;
    }
  }

  lemma ResultsCleanly(readings: seq<Reading>, labels: seq<Labels>, returned: set<string>)
    requires |readings| == |labels|
    requires forall i :: 0 <= i < |readings| ==> readings[i].codes == [] ==> readings[i].labels == Some(labels[i])
    ensures ResultsCodes(readings, returned) == [] <==>
      AllSilent(readings) && Distinct(labels) && IdSet(labels) == returned
    ensures ResultsCodes(readings, returned) == [] ==> Parsed(readings) == labels
  {
    ItemsCleanly(readings, labels, returned);
    if AllSilent(readings) {
      ParsedCleanly(readings, labels);
    }
    NoneMissing(returned, IdSet(Parsed(readings)), MissingMemoryResult);
  }

  lemma ResultsIff(items: seq<Json>, returned: set<string>)
    ensures ResultsCodes(Readings(items), returned) == [] <==>
      AllClean(items) && Distinct(LabelsOfAll(items)) && IdSet(LabelsOfAll(items)) == returned
    ensures ResultsCodes(Readings(items), returned) == [] ==> Parsed(Readings(items)) == LabelsOfAll(items)
  {
    forall i | 0 <= i < |items|
      ensures Readings(items)[i].codes == [] <==> ReadsCleanly(items[i])
      ensures ReadsCleanly(items[i]) ==> Readings(items)[i].labels == Some(LabelsOfAll(items)[i])
    {
      ParseCleanly(items[i]);
    }
    ResultsCleanly(Readings(items), LabelsOfAll(items), returned);
  }

  lemma ValidationIff(actual: Json, returned: set<string>)
    ensures OutputCodes(actual, returned) == [] <==> ValidOutput(actual, returned)
    ensures ValidOutput(actual, returned) ==> OutputOf(actual).results == LabelsOfAll(ResultItems(actual))
  {
    HeadIff(actual);
    ResultsIff(ResultItems(actual), returned);
  }

  lemma HeadIff(actual: Json)
    ensures HeadCodes(actual) == [] <==> ValidOutputHead(actual) && Value(actual, "memory_results").List?
  {
  }

  // ---- Comparisons

  predicate CausesKnown(results: seq<Labels>) {
    forall i :: 0 <= i < |results| ==> Sorting.AllUsed(results[i].rootCauses, MemberOf(ROOT_CAUSES))
  }

  lemma CausesAreSorted(causes: seq<string>)
    requires Sorting.AllUsed(causes, MemberOf(ROOT_CAUSES))
    ensures Sorting.AllUsed(causes, SortedStrings())
  {
    forall i | 0 <= i < |causes| ensures SortedStrings()(causes[i]) {
      assert MemberOf(ROOT_CAUSES)(causes[i]);
    }
  }

  /** What the loader guarantees of the expected labels. */
  ghost predicate Consistent(fixture: Fixture) {
    && Distinct(fixture.expected) && CausesKnown(fixture.expected)
    && (forall id :: id in fixture.memoryIds ==> Loader.IsMemoryId(id))
    && IdSet(fixture.expected) == fixture.memoryIds
  }

  ghost predicate OneForEach(fixture: Fixture, results: seq<Labels>) {
    Distinct(results) && CausesKnown(results) && IdSet(results) == fixture.memoryIds
  }

  lemma {:induction false} ByIdKeys(results: seq<Labels>)
    ensures ById(results).Keys == IdSet(results)
  {
    if results != [] {
      var n := |results| - 1;
      ByIdKeys(results[..n]);
      assert results == results[..n] + [results[n]];
      IdSetOneMore(results[..n], results[n]);
    }
  }

  lemma {:induction false} ByIdAt(results: seq<Labels>, i: nat)
    requires Distinct(results) && i < |results|
    ensures results[i].id in ById(results) && ById(results)[results[i].id] == results[i]
  {
    var n := |results| - 1;
    if i < n {
      ByIdAt(results[..n], i);
      assert results[i].id != results[n].id;
    }
  }

  lemma ByIdFinds(results: seq<Labels>)
    requires Distinct(results)
    ensures forall i :: 0 <= i < |results| ==>
      results[i].id in ById(results) && ById(results)[results[i].id] == results[i]
    ensures ById(results).Keys == IdSet(results)
  {
    ByIdKeys(results);
    forall i | 0 <= i < |results| ensures results[i].id in ById(results) && ById(results)[results[i].id] == results[i] {
      ByIdAt(results, i);
    }
  }

  lemma {:induction false} NoComparedCodes(expected: seq<Labels>, byId: map<string, Labels>, compare: Comparison)
    ensures ComparedCodes(expected, byId, compare) == [] <==>
      forall i :: 0 <= i < |expected| ==> expected[i].id in byId && compare(expected[i], byId[expected[i].id]) == []
  {
    if expected != [] {
      var n := |expected| - 1;
      NoComparedCodes(expected[..n], byId, compare);
      assert expected == expected[..n] + [expected[n]];
    }
  }

  lemma NoEvidenceCodes(results: seq<Labels>, evidenceIds: set<string>)
    ensures EvidenceCodes(results, evidenceIds) == [] <==> AllEvidenceHolds(results, evidenceIds)
  {
    NoCodesOfAll(results, EvidenceCheck(evidenceIds));
    forall i | 0 <= i < |results|
      ensures EvidenceCheck(evidenceIds)(results[i]) == [] <==> EvidenceHolds(results[i], evidenceIds) {
      NoEvidenceCodesOf(results[i], evidenceIds);
    }
  }

  lemma NoEvidenceCodesOf(r: Labels, evidenceIds: set<string>)
    ensures EvidenceCodesOf(r, evidenceIds) == [] <==> EvidenceHolds(r, evidenceIds)
  {
    NoFlags(r.evidence, MemberOf(evidenceIds), FabricatedEvidenceId);
  }

  ghost predicate AllAgree(expected: seq<Labels>, results: seq<Labels>) {
    forall i, j :: 0 <= i < |expected| && 0 <= j < |results| && results[j].id == expected[i].id ==>
      Agree(expected[i], results[j])
  }

  lemma PairAgrees(e: Labels, r: Labels, leq: Order)
    requires Lawful(leq)
    requires Sorting.AllUsed(e.rootCauses, MemberOf(ROOT_CAUSES))
      && Sorting.AllUsed(r.rootCauses, MemberOf(ROOT_CAUSES))
    ensures CompareItems()(e, r) == [] && CompareRootCauses(leq)(e, r) == [] && CompareLifecycles()(e, r) == []
      <==> Agree(e, r)
  {
    CausesAreSorted(e.rootCauses);
    CausesAreSorted(r.rootCauses);
    Sorting.SortedEqualIff(e.rootCauses, r.rootCauses, leq, SortedStrings());
    ItemsAgreeIff(e, r);
  }

  lemma ItemsAgreeIff(e: Labels, r: Labels)
    ensures CompareItems()(e, r) == [] <==>
      r.usefulness == e.usefulness && r.effect == e.effect
      && (r.relevance == e.relevance || AllowsInactiveNeutralRelevanceBoundary(e, r))
  {
  }

  /** The three comparing scorers together say that all labels agree. */
  lemma ComparisonsIff(fixture: Fixture, results: seq<Labels>, leq: Order)
    requires Lawful(leq) && Consistent(fixture) && OneForEach(fixture, results)
    ensures ComparedCodes(fixture.expected, ById(results), CompareItems()) == []
        && ComparedCodes(fixture.expected, ById(results), CompareRootCauses(leq)) == []
        && ComparedCodes(fixture.expected, ById(results), CompareLifecycles()) == []
      <==> AllAgree(fixture.expected, results)
  {
    var expected, byId := fixture.expected, ById(results);
    NoComparedCodes(expected, byId, CompareItems());
    NoComparedCodes(expected, byId, CompareRootCauses(leq));
    NoComparedCodes(expected, byId, CompareLifecycles());
    ByIdFinds(results);
    EachHasResult(fixture, results, byId);
    AgreeThroughMap(expected, results, byId);
    forall i | 0 <= i < |expected|
      ensures (CompareItems()(expected[i], byId[expected[i].id]) == []
        && CompareRootCauses(leq)(expected[i], byId[expected[i].id]) == []
               && CompareLifecycles()(expected[i], byId[expected[i].id]) == [])
                 <==> Agree(expected[i], byId[expected[i].id])
    {
      assert HasResult(expected[i], results, byId);
      PairAgrees(expected[i], byId[expected[i].id], leq);
    }
  }

  lemma EachHasResult(fixture: Fixture, results: seq<Labels>, byId: map<string, Labels>)
    requires Consistent(fixture) && OneForEach(fixture, results)
    requires forall j :: 0 <= j < |results| ==> results[j].id in byId && byId[results[j].id] == results[j]
    ensures forall i :: 0 <= i < |fixture.expected| ==> HasResult(fixture.expected[i], results, byId)
  {
    var expected := fixture.expected;
    forall i | 0 <= i < |expected| ensures HasResult(expected[i], results, byId) {
      assert expected[i].id in IdSet(expected);
      assert expected[i].id in IdSet(results);
      var j :| 0 <= j < |results| && results[j].id == expected[i].id;
    }
  }

  ghost predicate HasResult(e: Labels, results: seq<Labels>, byId: map<string, Labels>) {
    e.id in byId && exists j :: 0 <= j < |results| && results[j] == byId[e.id] && results[j].id == e.id
  }

  lemma AgreeThroughMap(expected: seq<Labels>, results: seq<Labels>, byId: map<string, Labels>)
    requires forall j :: 0 <= j < |results| ==> results[j].id in byId && byId[results[j].id] == results[j]
    requires forall i :: 0 <= i < |expected| ==> HasResult(expected[i], results, byId)
    ensures AllAgree(expected, results)
      <==> forall i :: 0 <= i < |expected| ==> expected[i].id in byId && Agree(expected[i], byId[expected[i].id])
  {
    if AllAgree(expected, results) {
      forall i | 0 <= i < |expected| ensures Agree(expected[i], byId[expected[i].id]) {
        var j :| 0 <= j < |results| && results[j] == byId[expected[i].id] && results[j].id == expected[i].id;
      }
    }
  }

  // ---- The hurt memories

  ghost predicate Hurts(results: seq<Labels>, id: string) {
    exists i :: 0 <= i < |results| && results[i].id == id && results[i].effect == "hurt"
  }

  lemma HurtsOneMore(results: seq<Labels>, last: Labels, id: string)
    ensures Hurts(results + [last], id) <==> Hurts(results, id) || (last.id == id && last.effect == "hurt")
  {
    var all := results + [last];
    assert all[|results|] == last;
    assert forall i :: 0 <= i < |results| ==> all[i] == results[i];
  }

  lemma {:induction false} HurtIdsAre(results: seq<Labels>, id: string)
    requires Distinct(results)
    ensures multiset(HurtIds(results))[id] == if Hurts(results, id) then 1 else 0
  {
    if results != [] {
      var n := |results| - 1;
      HurtIdsAre(results[..n], id);
      assert results == results[..n] + [results[n]];
      HurtsOneMore(results[..n], results[n], id);
      DistinctOneMore(results[..n], results[n]);
    }
  }

  lemma HurtAlike(fixture: Fixture, results: seq<Labels>, id: string)
    requires Consistent(fixture) && OneForEach(fixture, results) && AllAgree(fixture.expected, results)
    ensures Hurts(fixture.expected, id) <==> Hurts(results, id)
  {
    var expected := fixture.expected;
    if id in IdSet(expected) {
      var i :| 0 <= i < |expected| && expected[i].id == id;
      var j :| 0 <= j < |results| && results[j].id == id;
      assert Agree(expected[i], results[j]);
      assert Hurts(expected, id) <==> expected[i].effect == "hurt";
      assert Hurts(results, id) <==> results[j].effect == "hurt";
    }
  }

  /** Agreeing labels hurt the same memories, so that scorer adds nothing to the others. */
  lemma AgreeingHurtTheSame(fixture: Fixture, results: seq<Labels>, leq: Order)
    requires Lawful(leq) && Consistent(fixture) && OneForEach(fixture, results) && AllAgree(fixture.expected, results)
    ensures HurtFalsePositiveIds(fixture.outcome, fixture.expected, leq)
      == HurtFalsePositiveIds(fixture.outcome, results, leq)
  {
    var expected := fixture.expected;
    forall id ensures multiset(HurtIds(expected))[id] == multiset(HurtIds(results))[id] {
      HurtIdsAre(expected, id);
      HurtIdsAre(results, id);
      HurtAlike(fixture, results, id);
    }
    assert multiset(HurtIds(expected)) == multiset(HurtIds(results));
    HurtIdsAreIds(expected, fixture.memoryIds);
    HurtIdsAreIds(results, fixture.memoryIds);
    Sorting.SortedEqualIff(HurtIds(expected), HurtIds(results), leq, SortedStrings());
  }

  lemma {:induction false} HurtIdsAreIds(results: seq<Labels>, ids: set<string>)
    requires IdSet(results) <= ids && forall id :: id in ids ==> Loader.IsMemoryId(id)
    ensures Sorting.AllUsed(HurtIds(results), SortedStrings())
  {
    if results != [] {
      var n := |results| - 1;
      assert results == results[..n] + [results[n]];
      IdSetOneMore(results[..n], results[n]);
      HurtIdsAreIds(results[..n], ids);
    }
  }

  // ---- The main equivalence

  /** For a valid output the scorers together say that outcome, labels and evidence are right. */
  lemma ScorersIff(fixture: Fixture, output: Output, leq: Order)
    requires Lawful(leq) && Consistent(fixture) && OneForEach(fixture, output.results)
    ensures (forall scorer :: ScorerCodes(scorer, fixture, output, leq) == []) <==>
      output.outcome == fixture.outcome && AllAgree(fixture.expected, output.results)
      && AllEvidenceHolds(output.results, fixture.evidenceIds)
  {
    NoEvidenceCodes(output.results, fixture.evidenceIds);
    ComparisonsIff(fixture, output.results, leq);
    ScorersSplit(fixture, output, leq);
    if output.outcome == fixture.outcome && AllAgree(fixture.expected, output.results) {
      AgreeingHurtTheSame(fixture, output.results, leq);
    }
  }

  lemma ScorersSplit(fixture: Fixture, output: Output, leq: Order)
    ensures (forall scorer :: ScorerCodes(scorer, fixture, output, leq) == []) <==>
      && EvidenceCodes(output.results, fixture.evidenceIds) == []
      && output.outcome == fixture.outcome
      && ComparedCodes(fixture.expected, ById(output.results), CompareItems()) == []
      && HurtFalsePositiveIds(fixture.outcome, fixture.expected, leq)
        == HurtFalsePositiveIds(output.outcome, output.results, leq)
      && ComparedCodes(fixture.expected, ById(output.results), CompareRootCauses(leq)) == []
      && ComparedCodes(fixture.expected, ById(output.results), CompareLifecycles()) == []
  {
    var evidence, confusion :=
      EvidenceCodes(output.results, fixture.evidenceIds), Flag(output.outcome != fixture.outcome, ConfusionMismatch);
    var items := ComparedCodes(fixture.expected, ById(output.results), CompareItems());
    var hurt := Flag(HurtFalsePositiveIds(fixture.outcome, fixture.expected, leq)
                     != HurtFalsePositiveIds(output.outcome, output.results, leq), FalsePositiveHurtMismatch);
    var rootCauses := ComparedCodes(fixture.expected, ById(output.results), CompareRootCauses(leq));
    var lifecycles := ComparedCodes(fixture.expected, ById(output.results), CompareLifecycles());
    NoneForAny(evidence, confusion, items, hurt, rootCauses, lifecycles);
    assert forall scorer ::
      ScorerCodes(scorer, fixture, output, leq)
        == CodesFor(scorer, evidence, confusion, items, hurt, rootCauses, lifecycles);
  }

  lemma NoneForAny(evidence: seq<Code>, confusion: seq<Code>, items: seq<Code>, hurt: seq<Code>, rootCauses: seq<Code>,
                   lifecycles: seq<Code>)
    ensures (forall scorer :: CodesFor(scorer, evidence, confusion, items, hurt, rootCauses, lifecycles) == [])
      <==> evidence == [] && confusion == [] && items == [] && hurt == [] && rootCauses == [] && lifecycles == []
  {
    if forall scorer :: CodesFor(scorer, evidence, confusion, items, hurt, rootCauses, lifecycles) == [] {
      assert CodesFor(EvidenceValid, evidence, confusion, items, hurt, rootCauses, lifecycles) == [];
      assert CodesFor(ConfusionExact, evidence, confusion, items, hurt, rootCauses, lifecycles) == [];
      assert CodesFor(ItemLabelsExact, evidence, confusion, items, hurt, rootCauses, lifecycles) == [];
      assert CodesFor(FalsePositiveHurtExact, evidence, confusion, items, hurt, rootCauses, lifecycles) == [];
      assert CodesFor(RootCauseExact, evidence, confusion, items, hurt, rootCauses, lifecycles) == [];
      assert CodesFor(LifecycleExact, evidence, confusion, items, hurt, rootCauses, lifecycles) == [];
    }
  }

  /** An output passes all seven scorers exactly when it is perfect. */
  lemma PassesAllIffPerfect(fixture: Fixture, actual: Json, leq: Order)
    requires Lawful(leq) && Consistent(fixture)
    ensures PassesAll(fixture, actual, leq) <==> Perfect(fixture, actual)
  {
    ValidationIff(actual, fixture.memoryIds);
    PassesAllParts(fixture, actual, leq);
    if ValidOutput(actual, fixture.memoryIds) {
      CleanCausesKnown(ResultItems(actual));
      ScorersIff(fixture, OutputOf(actual), leq);
    }
  }

  lemma CleanCausesKnown(items: seq<Json>)
    requires forall i :: 0 <= i < |items| ==> ReadsCleanly(items[i])
    ensures CausesKnown(LabelsOfAll(items))
  {
    forall i | 0 <= i < |items| ensures Sorting.AllUsed(LabelsOfAll(items)[i].rootCauses, MemberOf(ROOT_CAUSES)) {
      assert ReadsCleanly(items[i]);
      StringsOfNonBlank(Value(items[i], "root_causes").items);
    }
  }

  lemma PassesAllParts(fixture: Fixture, actual: Json, leq: Order)
    ensures PassesAll(fixture, actual, leq) <==>
      OutputCodes(actual, fixture.memoryIds) == []
        && forall scorer :: ScorerCodes(scorer, fixture, OutputOf(actual), leq) == []
  {
    UniqueHasTheSame(OutputCodes(actual, fixture.memoryIds));
    if PassesAll(fixture, actual, leq) {
      assert ScoreOf(SchemaValid, fixture, actual, leq).passed;
      forall scorer ensures ScorerCodes(scorer, fixture, OutputOf(actual), leq) == [] {
        assert ScoreOf(scorer, fixture, actual, leq).passed;
      }
    }
  }

  // ---- What each scorer says about a valid output, in terms of the labels

  /** Some result with the identifier of e, and every such result, stands in the relation to e. */
  ghost predicate Meets(e: Labels, results: seq<Labels>, related: (Labels, Labels) -> bool) {
    && (exists j :: 0 <= j < |results| && results[j].id == e.id)
    && forall j :: 0 <= j < |results| && results[j].id == e.id ==> related(e, results[j])
  }

  ghost predicate AllMeet(expected: seq<Labels>, results: seq<Labels>, related: (Labels, Labels) -> bool) {
    forall i :: 0 <= i < |expected| ==> Meets(expected[i], results, related)
  }

  /** Usefulness and effect are the same; relevance is, too, or is borderline for irrelevant or the reverse
      in an inactive memory judged neutral and not useful. */
  function ItemLabelsAgree(): (Labels, Labels) -> bool {
    (e: Labels, r: Labels) =>
      && r.usefulness == e.usefulness && r.effect == e.effect
      && (r.relevance == e.relevance
          || (e.relevance in {"borderline", "irrelevant"} && r.relevance in {"borderline", "irrelevant"}
              && e.usefulness == "not_useful" && e.effect == "neutral" && r.lifecycle == e.lifecycle
              && e.lifecycle in {"superseded", "expired", "rejected"}))
  }

  function RootCausesAgree(): (Labels, Labels) -> bool {
    (e: Labels, r: Labels) => multiset(r.rootCauses) == multiset(e.rootCauses)
  }

  function LifecyclesAgree(): (Labels, Labels) -> bool {
    (e: Labels, r: Labels) => r.lifecycle == e.lifecycle
  }

  /** The identifiers of the results judged to hurt, which count for a false positive only. */
  function HurtSet(outcome: string, results: seq<Labels>): set<string> {
    set i | 0 <= i < |results| && outcome == "false_positive" && results[i].effect == "hurt" :: results[i].id
  }

  ghost predicate Verdict(scorer: Scorer, fixture: Fixture, output: Output) {
    match scorer
    case SchemaValid => true
    case EvidenceValid => AllEvidenceHolds(output.results, fixture.evidenceIds)
    case ConfusionExact => output.outcome == fixture.outcome
    case ItemLabelsExact => AllMeet(fixture.expected, output.results, ItemLabelsAgree())
    case FalsePositiveHurtExact =>
      HurtSet(fixture.outcome, fixture.expected) == HurtSet(output.outcome, output.results)
    case RootCauseExact => AllMeet(fixture.expected, output.results, RootCausesAgree())
    case LifecycleExact => AllMeet(fixture.expected, output.results, LifecyclesAgree())
  }

  lemma ComparedMeet(fixture: Fixture, results: seq<Labels>, compare: Comparison, related: (Labels, Labels) -> bool)
    requires Consistent(fixture) && OneForEach(fixture, results)
    requires forall i, j :: 0 <= i < |fixture.expected| && 0 <= j < |results| ==>
      (compare(fixture.expected[i], results[j]) == [] <==> related(fixture.expected[i], results[j]))
    ensures ComparedCodes(fixture.expected, ById(results), compare) == []
      <==> AllMeet(fixture.expected, results, related)
  {
    var expected, byId := fixture.expected, ById(results);
    NoComparedCodes(expected, byId, compare);
    ByIdFinds(results);
    EachHasResult(fixture, results, byId);
    forall i | 0 <= i < |expected|
      ensures compare(expected[i], byId[expected[i].id]) == [] <==> Meets(expected[i], results, related)
    {
      MeetsThroughMap(expected[i], results, byId, compare, related);
    }
  }

  lemma MeetsThroughMap(e: Labels, results: seq<Labels>, byId: map<string, Labels>, compare: Comparison,
                        related: (Labels, Labels) -> bool)
    requires HasResult(e, results, byId)
    requires forall j :: 0 <= j < |results| ==> results[j].id in byId && byId[results[j].id] == results[j]
    requires forall j :: 0 <= j < |results| ==> (compare(e, results[j]) == [] <==> related(e, results[j]))
    ensures compare(e, byId[e.id]) == [] <==> Meets(e, results, related)
  {
  }

  lemma RootCausesCompared(fixture: Fixture, results: seq<Labels>, leq: Order)
    requires Lawful(leq) && Consistent(fixture) && OneForEach(fixture, results)
    ensures ComparedCodes(fixture.expected, ById(results), CompareRootCauses(leq)) == []
      <==> AllMeet(fixture.expected, results, RootCausesAgree())
  {
    forall i, j | 0 <= i < |fixture.expected| && 0 <= j < |results|
      ensures CompareRootCauses(leq)(fixture.expected[i], results[j]) == []
        <==> RootCausesAgree()(fixture.expected[i], results[j])
    {
      var e, r := fixture.expected[i], results[j];
      CausesAreSorted(e.rootCauses);
      CausesAreSorted(r.rootCauses);
      Sorting.SortedEqualIff(e.rootCauses, r.rootCauses, leq, SortedStrings());
    }
    ComparedMeet(fixture, results, CompareRootCauses(leq), RootCausesAgree());
  }

  lemma HurtCompared(fixture: Fixture, output: Output, leq: Order)
    requires Lawful(leq) && Consistent(fixture) && OneForEach(fixture, output.results)
    ensures HurtFalsePositiveIds(fixture.outcome, fixture.expected, leq)
        == HurtFalsePositiveIds(output.outcome, output.results, leq)
      <==> HurtSet(fixture.outcome, fixture.expected) == HurtSet(output.outcome, output.results)
  {
    HurtIdsAreIds(fixture.expected, fixture.memoryIds);
    HurtIdsAreIds(output.results, fixture.memoryIds);
    HurtIdsAreSet(fixture.outcome, fixture.expected);
    HurtIdsAreSet(output.outcome, output.results);
    var a := if fixture.outcome == "false_positive" then HurtIds(fixture.expected) else [];
    var b := if output.outcome == "false_positive" then HurtIds(output.results) else [];
    Sorting.SortedEqualIff(a, b, leq, SortedStrings());
    SameWithoutRepeats(a, b, HurtSet(fixture.outcome, fixture.expected), HurtSet(output.outcome, output.results));
  }

  lemma HurtIdsAreSet(outcome: string, results: seq<Labels>)
    requires Distinct(results)
    ensures var ids := if outcome == "false_positive" then HurtIds(results) else [];
      forall id :: multiset(ids)[id] == if id in HurtSet(outcome, results) then 1 else 0
  {
    forall id ensures multiset(HurtIds(results))[id] == if Hurts(results, id) then 1 else 0 {
      HurtIdsAre(results, id);
    }
    if outcome == "false_positive" {
      assert forall id :: id in HurtSet(outcome, results) <==> Hurts(results, id);
    }
  }

  lemma SameWithoutRepeats(a: seq<string>, b: seq<string>, s: set<string>, t: set<string>)
    requires forall id :: multiset(a)[id] == if id in s then 1 else 0
    requires forall id :: multiset(b)[id] == if id in t then 1 else 0
    ensures multiset(a) == multiset(b) <==> s == t
  {
    if multiset(a) == multiset(b) {
      assert forall id :: id in s <==> multiset(a)[id] == 1;
    }
  }

  lemma ScorerVerdict(scorer: Scorer, fixture: Fixture, output: Output, leq: Order)
    requires Lawful(leq) && Consistent(fixture) && OneForEach(fixture, output.results)
    ensures ScorerCodes(scorer, fixture, output, leq) == [] <==> Verdict(scorer, fixture, output)
  {
    match scorer
    case SchemaValid =>
    case EvidenceValid => NoEvidenceCodes(output.results, fixture.evidenceIds);
    case ConfusionExact =>
    case ItemLabelsExact => ComparedMeet(fixture, output.results, CompareItems(), ItemLabelsAgree());
    case FalsePositiveHurtExact => HurtCompared(fixture, output, leq);
    case RootCauseExact => RootCausesCompared(fixture, output.results, leq);
    case LifecycleExact => ComparedMeet(fixture, output.results, CompareLifecycles(), LifecyclesAgree());
  }

  /** Each scorer's own answer: none passes an output that does not validate, and one that does is passed
      exactly as its labels say. */
  lemma EachScorerIff(scorer: Scorer, fixture: Fixture, actual: Json, leq: Order)
    requires Lawful(leq) && Consistent(fixture)
    ensures ScoreOf(scorer, fixture, actual, leq).scorer == scorer
    ensures ScoreOf(scorer, fixture, actual, leq).passed <==>
      ValidOutput(actual, fixture.memoryIds)
      && Verdict(scorer, fixture, Output(TextOf(Value(actual, "prompt_outcome")), LabelsOfAll(ResultItems(actual))))
  {
    ValidationIff(actual, fixture.memoryIds);
    UniqueHasTheSame(OutputCodes(actual, fixture.memoryIds));
    if ValidOutput(actual, fixture.memoryIds) {
      CleanCausesKnown(ResultItems(actual));
      ScorerVerdict(scorer, fixture, OutputOf(actual), leq);
    }
  }
}
