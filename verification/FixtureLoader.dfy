/** Validation of the labelled fixtures that memory reviewers are evaluated on. */
module FixtureLoader {
  import opened Options
  import opened JsText
  import opened ReviewJson

  const FIXTURE_VERSIONS := {"memory_review_bot_fixture_v1"}
  const FIXTURE_SOURCES := {"production", "synthetic"}
  const MEMORY_SOURCES := {"recall", "company_recall", "company_bootstrap", "synthetic"}
  const EVIDENCE_KINDS := {"prompt", "transcript", "output", "memory", "lifecycle", "feedback", "slack"}

  datatype Code =
    | InvalidShape | MissingField | InvalidEnum | InvalidId | DuplicateMemoryId | DuplicateEvidenceId
    | UnknownMemoryId | FabricatedEvidenceId | TooLarge | SecretDetected

  /** The patterns that detect secrets in a snippet. */
  type Secrets = string -> bool

  // ---- Identifiers

  predicate IsLowerOrDigit(c: char) { 'a' <= c <= 'z' || '0' <= c <= '9' }

  predicate IsAlphanumeric(c: char) { IsLowerOrDigit(c) || 'A' <= c <= 'Z' }

  predicate IsFixtureId(s: string) {
    s != "" && IsLowerOrDigit(s[0]) && forall i :: 0 <= i < |s| ==> IsLowerOrDigit(s[i]) || s[i] == '-'
  }

  predicate IsEvidenceId(s: string) {
    |s| > 3 && s[..3] == "ev_" && IsLowerOrDigit(s[3]) && forall i :: 3 <= i < |s| ==>
      IsLowerOrDigit(s[i]) || s[i] == '_'
  }

  predicate IsMemoryId(s: string) {
    s != "" && IsAlphanumeric(s[0]) && forall i :: 0 <= i < |s| ==> IsAlphanumeric(s[i]) || s[i] in "._:-"
  }

  function IsMemoryIdFn(): string -> bool {
    s => IsMemoryId(s)
  }

  // ---- Checks of single fields

  function TextCodes(v: Json, max: nat): seq<Code> {
    if NonBlank(v).None? then [MissingField] else Flag(Utf16Length(v.text) > max, TooLarge)
  }

  function OptionalTextCodes(record: Json, key: string, max: nat): seq<Code> {
    if Has(record, key) then TextCodes(Value(record, key), max) else []
  }

  function EnumCodes(v: Json, allowed: set<string>): seq<Code> {
    Flag(!IsOneOf(v, allowed), InvalidEnum)
  }

  function SecretCodes(v: Json, secret: Secrets): seq<Code> {
    Flag(v.Text? && v.text != "" && secret(v.text), SecretDetected)
  }

  /** A required text that is scanned: blank ones are not. */
  function ScannedTextCodes(v: Json, max: nat, secret: Secrets): seq<Code> {
    TextCodes(v, max) + if NonBlank(v).Some? then SecretCodes(v, secret) else []
  }

  predicate IsPositiveInteger(v: Json) {
    v.Number? && v.value.Floor as real == v.value && v.value >= 1.0
  }

  function EvidenceIdCodes(v: Json, evidenceIds: set<string>): seq<Code> {
    if !v.List? then [MissingField]
    else BlankCodes(v.items, MissingField) + Flag(Strings(v.items) == [], MissingField)
         + FlagEach(Strings(v.items), MemberOf(evidenceIds), FabricatedEvidenceId)
  }

  function RootCauseCodes(v: Json): seq<Code> {
    if !v.List? then [MissingField]
    else BlankCodes(v.items, MissingField) + FlagEach(Strings(v.items), MemberOf(ROOT_CAUSES), InvalidEnum)
  }

  function MissedIdCodes(expected: Json): seq<Code> {
    if !Has(expected, "missed_memory_ids") then []
    else
      var v := Value(expected, "missed_memory_ids");
      if !v.List? then [MissingField]
      else BlankCodes(v.items, MissingField) + FlagEach(Strings(v.items), IsMemoryIdFn(), InvalidId)
  }

  // ---- Checks of the parts

  function HeadCodes(raw: Json): seq<Code> {
    EnumCodes(Value(raw, "schema_version"), FIXTURE_VERSIONS)
    + TextCodes(Value(raw, "fixture_id"), 120)
    + Flag(NonBlank(Value(raw, "fixture_id")).Some? && !IsFixtureId(Value(raw, "fixture_id").text), InvalidId)
    + EnumCodes(Value(raw, "fixture_source"), FIXTURE_SOURCES)
  }

  function PromptCodes(prompt: Json, secret: Secrets): seq<Code> {
    if !prompt.Record? then [MissingField]
    else
      TextCodes(Value(prompt, "task_summary"), 700)
      + TextCodes(Value(prompt, "bounded_prompt"), 4000)
      + OptionalTextCodes(prompt, "session_id", 120)
      + OptionalTextCodes(prompt, "prompt_id", 120)
      + OptionalTextCodes(prompt, "outcome_summary", 2000)
      + (if NonBlank(Value(prompt, "task_summary")).Some? then SecretCodes(Value(prompt, "task_summary"), secret)
        else [])
      + (if NonBlank(Value(prompt, "bounded_prompt")).Some? then SecretCodes(Value(prompt, "bounded_prompt"), secret)
        else [])
      + SecretCodes(Value(prompt, "outcome_summary"), secret)
  }

  function MemoryCodes(entry: Json, seen: set<string>, secret: Secrets): seq<Code> {
    if !entry.Record? then [InvalidShape]
    else
      var id := NonBlank(Value(entry, "memory_id"));
      TextCodes(Value(entry, "memory_id"), 160)
      + Flag(id.Some? && !IsMemoryId(id.value), InvalidId)
      + Flag(id.Some? && id.value in seen, DuplicateMemoryId)
      + EnumCodes(Value(entry, "source"), MEMORY_SOURCES)
      + Flag(!IsPositiveInteger(Value(entry, "rank")), MissingField)
      + Flag(!InUnitInterval(Value(entry, "score")), MissingField)
      + EnumCodes(Value(entry, "lifecycle_state"), LIFECYCLES)
      + TextCodes(Value(entry, "scope"), 240)
      + ScannedTextCodes(Value(entry, "content_excerpt"), 1200, secret)
  }

  function EvidenceCodes(entry: Json, seen: set<string>, secret: Secrets): seq<Code> {
    if !entry.Record? then [InvalidShape]
    else
      var id := NonBlank(Value(entry, "evidence_id"));
      TextCodes(Value(entry, "evidence_id"), 120)
      + Flag(id.Some? && !IsEvidenceId(id.value), InvalidId)
      + Flag(id.Some? && id.value in seen, DuplicateEvidenceId)
      + EnumCodes(Value(entry, "kind"), EVIDENCE_KINDS)
      + OptionalTextCodes(entry, "source_ref", 240)
      + ScannedTextCodes(Value(entry, "snippet"), 1200, secret)
  }

  function ResultCodes(entry: Json, seen: set<string>, memoryIds: set<string>, evidenceIds: set<string>,
                       secret: Secrets): seq<Code> {
    if !entry.Record? then [InvalidShape]
    else
      ResultIdCodes(Value(entry, "memory_id"), seen, memoryIds)
      + LabelCodes(entry)
      + RootCauseCodes(Value(entry, "root_causes"))
      + EvidenceIdCodes(Value(entry, "evidence_ids"), evidenceIds)
      + RationaleCodes(entry, secret)
  }

  function ResultIdCodes(v: Json, seen: set<string>, memoryIds: set<string>): seq<Code> {
    var id := NonBlank(v);
    TextCodes(v, 160)
    + Flag(id.Some? && id.value !in memoryIds, UnknownMemoryId)
    + Flag(id.Some? && id.value in seen, DuplicateMemoryId)
  }

  function RationaleCodes(entry: Json, secret: Secrets): seq<Code> {
    OptionalTextCodes(entry, "rationale", 700) + SecretCodes(Value(entry, "rationale"), secret)
  }

  function LabelCodes(entry: Json): seq<Code> {
    EnumCodes(Value(entry, "relevance"), RELEVANCE)
    + EnumCodes(Value(entry, "usefulness"), USEFULNESS)
    + EnumCodes(Value(entry, "effect"), EFFECTS)
    + EnumCodes(Value(entry, "lifecycle_state"), LIFECYCLES)
  }

  function MemoryCheck(secret: Secrets): (Json, set<string>) -> seq<Code> {
    (entry, seen) => MemoryCodes(entry, seen, secret)
  }

  function EvidenceCheck(secret: Secrets): (Json, set<string>) -> seq<Code> {
    (entry, seen) => EvidenceCodes(entry, seen, secret)
  }

  function ResultCheck(memoryIds: set<string>, evidenceIds: set<string>,
                       secret: Secrets): (Json, set<string>) -> seq<Code> {
    (entry, seen) => ResultCodes(entry, seen, memoryIds, evidenceIds, secret)
  }

  function Items(v: Json): seq<Json> {
    if v.List? then v.items else []
  }

  function MemoriesCodes(v: Json, secret: Secrets): seq<Code> {
    if !v.List? then [MissingField] else EntryCodes(v.items, "memory_id", MemoryCheck(secret))
  }

  function EvidenceListCodes(v: Json, secret: Secrets): seq<Code> {
    if !v.List? then [MissingField]
    else Flag(v.items == [], MissingField) + EntryCodes(v.items, "evidence_id", EvidenceCheck(secret))
  }

  function ExpectedCodes(expected: Json, memoryIds: set<string>, evidenceIds: set<string>, secret: Secrets): seq<Code> {
    if !expected.Record? then [MissingField]
    else
      EnumCodes(Value(expected, "prompt_outcome"), OUTCOMES)
      + FailureCodes(expected)
      + EvidenceIdCodes(Value(expected, "evidence_ids"), evidenceIds)
      + MissedIdCodes(expected)
      + ExpectedResultsCodes(Value(expected, "memory_results"), memoryIds, evidenceIds, secret)
  }

  function FailureCodes(expected: Json): seq<Code> {
    if Has(expected, "failure_code") then EnumCodes(Value(expected, "failure_code"), FAILURES) else []
  }

  function ExpectedResultsCodes(v: Json, memoryIds: set<string>, evidenceIds: set<string>, secret: Secrets): seq<Code> {
    if !v.List? then [MissingField]
    else EntryCodes(v.items, "memory_id", ResultCheck(memoryIds, evidenceIds, secret))
         + Repeat(|memoryIds - IdsOf(v.items, "memory_id")|, UnknownMemoryId)
  }

  function MemoryIds(raw: Json): set<string> {
    IdsOf(Items(Value(raw, "returned_memories")), "memory_id")
  }

  function EvidenceIds(raw: Json): set<string> {
    IdsOf(Items(Value(raw, "evidence")), "evidence_id")
  }

  /** The codes of all issues, in the order they are found; a fixture with none is accepted. */
  function IssuesOf(raw: Json, secret: Secrets): seq<Code> {
    if !raw.Record? then [InvalidShape]
    else
      HeadCodes(raw)
      + PromptCodes(Value(raw, "prompt"), secret)
      + MemoriesCodes(Value(raw, "returned_memories"), secret)
      + EvidenceListCodes(Value(raw, "evidence"), secret)
      + ExpectedCodes(Value(raw, "expected"), MemoryIds(raw), EvidenceIds(raw), secret)
  }

  // ---- The program

  method ValidateEvidenceIdArray(v: Json, evidenceIds: set<string>, issues: CodeList<Code>)
    modifies issues
    ensures issues.codes == old(issues.codes) + EvidenceIdCodes(v, evidenceIds)
  {
    if !v.List? {
      issues.Add(MissingField);
      return;
    }
    var values := ReadStrings(v.items, MissingField, issues);
    if values == [] {
      issues.Add(MissingField);
    }
    CheckEach(values, MemberOf(evidenceIds), FabricatedEvidenceId, issues);
  }

  method ValidateMissedIds(expected: Json, issues: CodeList<Code>)
    modifies issues
    ensures issues.codes == old(issues.codes) + MissedIdCodes(expected)
  {
    if !Has(expected, "missed_memory_ids") {
      return;
    }
    var v := Value(expected, "missed_memory_ids");
    if !v.List? {
      issues.Add(MissingField);
      return;
    }
    var values := ReadStrings(v.items, MissingField, issues);
    CheckEach(values, IsMemoryIdFn(), InvalidId, issues);
  }

  method ValidateReturnedMemories(v: Json, secret: Secrets, issues: CodeList<Code>) returns (memoryIds: set<string>)
    modifies issues
    ensures issues.codes == old(issues.codes) + MemoriesCodes(v, secret)
    ensures memoryIds == IdsOf(Items(v), "memory_id")
  {
    if !v.List? {
      issues.Add(MissingField);
      return {};
    }
    memoryIds := CheckEntries(v.items, "memory_id", MemoryCheck(secret), issues);
  }

  method ValidateEvidence(v: Json, secret: Secrets, issues: CodeList<Code>) returns (evidenceIds: set<string>)
    modifies issues
    ensures issues.codes == old(issues.codes) + EvidenceListCodes(v, secret)
    ensures evidenceIds == IdsOf(Items(v), "evidence_id")
  {
    if !v.List? {
      issues.Add(MissingField);
      return {};
    }
    issues.AddAll(Flag(v.items == [], MissingField));
    evidenceIds := CheckEntries(v.items, "evidence_id", EvidenceCheck(secret), issues);
    Regrouped(old(issues.codes), Flag(v.items == [], MissingField),
              EntryCodes(v.items, "evidence_id", EvidenceCheck(secret)));
  }

  lemma Regrouped(codes: seq<Code>, a: seq<Code>, b: seq<Code>)
    ensures (codes + a) + b == codes + (a + b)
  {
  }

  method ValidateExpectedResults(v: Json, memoryIds: set<string>, evidenceIds: set<string>, secret: Secrets,
                                 issues: CodeList<Code>)
    modifies issues
    ensures issues.codes == old(issues.codes) + ExpectedResultsCodes(v, memoryIds, evidenceIds, secret)
  {
    if !v.List? {
      issues.Add(MissingField);
      return;
    }
    var seen := CheckEntries(v.items, "memory_id", ResultCheck(memoryIds, evidenceIds, secret), issues);
    CheckMissing(memoryIds, seen, UnknownMemoryId, issues);
  }

  lemma Appended(codes: seq<Code>, a: seq<Code>, b: seq<Code>, c: seq<Code>, d: seq<Code>, e: seq<Code>)
    ensures ((((codes + a) + b) + c) + d) + e == codes + (a + b + c + d + e)
  {
  }

  method ValidateExpected(expected: Json, memoryIds: set<string>, evidenceIds: set<string>, secret: Secrets,
                          issues: CodeList<Code>)
    modifies issues
    ensures issues.codes == old(issues.codes) + ExpectedCodes(expected, memoryIds, evidenceIds, secret)
  {
    if !expected.Record? {
      issues.Add(MissingField);
      return;
    }
    issues.AddAll(EnumCodes(Value(expected, "prompt_outcome"), OUTCOMES));
    issues.AddAll(FailureCodes(expected));
    ValidateEvidenceIdArray(Value(expected, "evidence_ids"), evidenceIds, issues);
    ValidateMissedIds(expected, issues);
    ValidateExpectedResults(Value(expected, "memory_results"), memoryIds, evidenceIds, secret, issues);
    Appended(old(issues.codes), EnumCodes(Value(expected, "prompt_outcome"), OUTCOMES), FailureCodes(expected),
             EvidenceIdCodes(Value(expected, "evidence_ids"), evidenceIds), MissedIdCodes(expected),
             ExpectedResultsCodes(Value(expected, "memory_results"), memoryIds, evidenceIds, secret));
  }

  method ValidateMemoryReviewBotFixture(raw: Json, secret: Secrets) returns (issues: seq<Code>)
    ensures issues == IssuesOf(raw, secret)
  {
    if !raw.Record? {
      return [InvalidShape];
    }
    var list := new CodeList<Code>();
    list.AddAll(HeadCodes(raw));
    list.AddAll(PromptCodes(Value(raw, "prompt"), secret));
    var memoryIds := ValidateReturnedMemories(Value(raw, "returned_memories"), secret, list);
    var evidenceIds := ValidateEvidence(Value(raw, "evidence"), secret, list);
    ValidateExpected(Value(raw, "expected"), memoryIds, evidenceIds, secret, list);
    issues := list.codes;
    Appended([], HeadCodes(raw), PromptCodes(Value(raw, "prompt"), secret),
             MemoriesCodes(Value(raw, "returned_memories"), secret),
             EvidenceListCodes(Value(raw, "evidence"), secret),
               ExpectedCodes(Value(raw, "expected"), MemoryIds(raw), EvidenceIds(raw), secret));
  }

  // ---- What acceptance means

  predicate FitsText(v: Json, max: nat) {
    NonBlank(v).Some? && Utf16Length(v.text) <= max
  }

  predicate FitsOptional(record: Json, key: string, max: nat) {
    Has(record, key) ==> FitsText(Value(record, key), max)
  }

  predicate Clean(v: Json, secret: Secrets) {
    v.Text? && v.text != "" ==> !secret(v.text)
  }

  /** An array of the allowed strings. */
  predicate ArrayOf(v: Json, good: string -> bool) {
    v.List? && AllNonBlank(v.items) && forall i :: 0 <= i < |v.items| ==> v.items[i].Text? && good(v.items[i].text)
  }

  predicate CitesEvidence(v: Json, evidenceIds: set<string>) {
    ArrayOf(v, MemberOf(evidenceIds)) && v.items != []
  }

  predicate ValidLabels(entry: Json) {
    && IsOneOf(Value(entry, "relevance"), RELEVANCE) && IsOneOf(Value(entry, "usefulness"), USEFULNESS)
    && IsOneOf(Value(entry, "effect"), EFFECTS) && IsOneOf(Value(entry, "lifecycle_state"), LIFECYCLES)
  }

  predicate ValidHead(raw: Json) {
    && IsOneOf(Value(raw, "schema_version"), FIXTURE_VERSIONS) && IsOneOf(Value(raw, "fixture_source"), FIXTURE_SOURCES)
    && FitsText(Value(raw, "fixture_id"), 120) && IsFixtureId(Value(raw, "fixture_id").text)
  }

  predicate ValidPrompt(prompt: Json, secret: Secrets) {
    && prompt.Record?
    && FitsText(Value(prompt, "task_summary"), 700) && Clean(Value(prompt, "task_summary"), secret)
    && FitsText(Value(prompt, "bounded_prompt"), 4000) && Clean(Value(prompt, "bounded_prompt"), secret)
    && FitsOptional(prompt, "session_id", 120) && FitsOptional(prompt, "prompt_id", 120)
    && FitsOptional(prompt, "outcome_summary", 2000) && Clean(Value(prompt, "outcome_summary"), secret)
  }

  predicate ValidMemory(entry: Json, secret: Secrets) {
    && entry.Record?
    && FitsText(Value(entry, "memory_id"), 160) && IsMemoryId(Value(entry, "memory_id").text)
    && IsOneOf(Value(entry, "source"), MEMORY_SOURCES) && IsOneOf(Value(entry, "lifecycle_state"), LIFECYCLES)
    && IsPositiveInteger(Value(entry, "rank")) && InUnitInterval(Value(entry, "score"))
    && FitsText(Value(entry, "scope"), 240)
    && FitsText(Value(entry, "content_excerpt"), 1200) && Clean(Value(entry, "content_excerpt"), secret)
  }

  predicate ValidEvidence(entry: Json, secret: Secrets) {
    && entry.Record?
    && FitsText(Value(entry, "evidence_id"), 120) && IsEvidenceId(Value(entry, "evidence_id").text)
    && IsOneOf(Value(entry, "kind"), EVIDENCE_KINDS)
    && FitsOptional(entry, "source_ref", 240)
    && FitsText(Value(entry, "snippet"), 1200) && Clean(Value(entry, "snippet"), secret)
  }

  predicate ValidResult(entry: Json, evidenceIds: set<string>, secret: Secrets) {
    && entry.Record? && FitsText(Value(entry, "memory_id"), 160) && ValidLabels(entry)
    && ArrayOf(Value(entry, "root_causes"), MemberOf(ROOT_CAUSES))
    && CitesEvidence(Value(entry, "evidence_ids"), evidenceIds)
    && ValidRationale(entry, secret)
  }

  predicate ValidRationale(entry: Json, secret: Secrets) {
    FitsOptional(entry, "rationale", 700) && Clean(Value(entry, "rationale"), secret)
  }

  ghost predicate ValidMemories(v: Json, secret: Secrets) {
    v.List? && DistinctIds(v.items, "memory_id") && forall i :: 0 <= i < |v.items| ==> ValidMemory(v.items[i], secret)
  }

  ghost predicate ValidEvidenceList(v: Json, secret: Secrets) {
    && v.List? && v.items != [] && DistinctIds(v.items, "evidence_id")
    && forall i :: 0 <= i < |v.items| ==> ValidEvidence(v.items[i], secret)
  }

  /** Exactly one valid result for each of the returned memories. */
  ghost predicate ValidResults(v: Json, memoryIds: set<string>, evidenceIds: set<string>, secret: Secrets) {
    && v.List? && DistinctIds(v.items, "memory_id") && IdsOf(v.items, "memory_id") == memoryIds
    && forall i :: 0 <= i < |v.items| ==> ValidResult(v.items[i], evidenceIds, secret)
  }

  ghost predicate ValidExpected(expected: Json, memoryIds: set<string>, evidenceIds: set<string>, secret: Secrets) {
    && expected.Record? && IsOneOf(Value(expected, "prompt_outcome"), OUTCOMES)
    && (Has(expected, "failure_code") ==> IsOneOf(Value(expected, "failure_code"), FAILURES))
    && CitesEvidence(Value(expected, "evidence_ids"), evidenceIds)
    && (Has(expected, "missed_memory_ids") ==> ArrayOf(Value(expected, "missed_memory_ids"), IsMemoryIdFn()))
    && ValidResults(Value(expected, "memory_results"), memoryIds, evidenceIds, secret)
  }

  ghost predicate ValidFixture(raw: Json, secret: Secrets) {
    && raw.Record? && ValidHead(raw) && ValidPrompt(Value(raw, "prompt"), secret)
    && ValidMemories(Value(raw, "returned_memories"), secret) && ValidEvidenceList(Value(raw, "evidence"), secret)
    && ValidExpected(Value(raw, "expected"), MemoryIds(raw), EvidenceIds(raw), secret)
  }

  lemma ArrayIff(v: Json, good: string -> bool, code: Code)
    requires v.List?
    ensures BlankCodes(v.items, MissingField) == [] && FlagEach(Strings(v.items), good, code) == []
      <==> ArrayOf(v, good)
    ensures ArrayOf(v, good) ==> |Strings(v.items)| == |v.items|
  {
    NoBlanks(v.items, MissingField);
    NoFlags(Strings(v.items), good, code);
    if AllNonBlank(v.items) {
      StringsOfNonBlank(v.items);
    }
  }

  lemma MemoriesIff(v: Json, secret: Secrets)
    ensures MemoriesCodes(v, secret) == [] <==> ValidMemories(v, secret)
  {
    if v.List? {
      forall entry, seen
        ensures MemoryCheck(secret)(entry, seen) == []
          <==> ValidMemory(entry, secret) && NonBlank(Value(entry, "memory_id")).value !in seen
      {
        MemoryIff(entry, seen, secret);
      }
      EntriesIff(v.items, "memory_id", MemoryCheck(secret), entry => ValidMemory(entry, secret));
    }
  }

  lemma MemoryIff(entry: Json, seen: set<string>, secret: Secrets)
    ensures MemoryCodes(entry, seen, secret) == []
      <==> ValidMemory(entry, secret) && Value(entry, "memory_id").text !in seen
  {
    if entry.Record? {
      MemoryIdIff(Value(entry, "memory_id"), seen);
    }
  }

  lemma MemoryIdIff(v: Json, seen: set<string>)
    ensures var id := NonBlank(v);
      TextCodes(v, 160) == [] && Flag(id.Some? && !IsMemoryId(id.value), InvalidId) == []
        && Flag(id.Some? && id.value in seen, DuplicateMemoryId) == []
      <==> FitsText(v, 160) && IsMemoryId(v.text) && v.text !in seen
  {
  }

  lemma EvidenceIff(entry: Json, seen: set<string>, secret: Secrets)
    ensures EvidenceCodes(entry, seen, secret) == []
      <==> ValidEvidence(entry, secret) && Value(entry, "evidence_id").text !in seen
  {
  }

  lemma EvidenceListIff(v: Json, secret: Secrets)
    ensures EvidenceListCodes(v, secret) == [] <==> ValidEvidenceList(v, secret)
  {
    if v.List? {
      forall entry, seen
        ensures EvidenceCheck(secret)(entry, seen) == []
          <==> ValidEvidence(entry, secret) && NonBlank(Value(entry, "evidence_id")).value !in seen
      {
        EvidenceIff(entry, seen, secret);
      }
      EntriesIff(v.items, "evidence_id", EvidenceCheck(secret), entry => ValidEvidence(entry, secret));
    }
  }

  lemma EvidenceIdsIff(v: Json, evidenceIds: set<string>)
    ensures EvidenceIdCodes(v, evidenceIds) == [] <==> CitesEvidence(v, evidenceIds)
  {
    if v.List? {
      ArrayIff(v, MemberOf(evidenceIds), FabricatedEvidenceId);
    }
  }

  lemma RootCausesIff(v: Json)
    ensures RootCauseCodes(v) == [] <==> ArrayOf(v, MemberOf(ROOT_CAUSES))
  {
    if v.List? {
      ArrayIff(v, MemberOf(ROOT_CAUSES), InvalidEnum);
    }
  }

  lemma MissedIdsIff(expected: Json)
    ensures MissedIdCodes(expected) == []
      <==> (Has(expected, "missed_memory_ids") ==> ArrayOf(Value(expected, "missed_memory_ids"), IsMemoryIdFn()))
  {
    if Value(expected, "missed_memory_ids").List? {
      ArrayIff(Value(expected, "missed_memory_ids"), IsMemoryIdFn(), InvalidId);
    }
  }

  lemma ResultIff(entry: Json, seen: set<string>, memoryIds: set<string>, evidenceIds: set<string>, secret: Secrets)
    ensures ResultCodes(entry, seen, memoryIds, evidenceIds, secret) == [] <==>
      ValidResult(entry, evidenceIds, secret) && Value(entry, "memory_id").text in memoryIds
        && Value(entry, "memory_id").text !in seen
  {
    ResultIdIff(Value(entry, "memory_id"), seen, memoryIds);
    LabelsIff(entry);
    RootCausesIff(Value(entry, "root_causes"));
    EvidenceIdsIff(Value(entry, "evidence_ids"), evidenceIds);
    RationaleIff(entry, secret);
  }

  lemma ResultIdIff(v: Json, seen: set<string>, memoryIds: set<string>)
    ensures ResultIdCodes(v, seen, memoryIds) == [] <==> FitsText(v, 160) && v.text in memoryIds && v.text !in seen
  {
  }

  lemma LabelsIff(entry: Json)
    ensures LabelCodes(entry) == [] <==> ValidLabels(entry)
  {
  }

  lemma RationaleIff(entry: Json, secret: Secrets)
    ensures RationaleCodes(entry, secret) == [] <==> ValidRationale(entry, secret)
  {
  }

  lemma ResultsIff(v: Json, memoryIds: set<string>, evidenceIds: set<string>, secret: Secrets)
    ensures ExpectedResultsCodes(v, memoryIds, evidenceIds, secret) == []
      <==> ValidResults(v, memoryIds, evidenceIds, secret)
  {
    if v.List? {
      forall entry, seen
        ensures ResultCheck(memoryIds, evidenceIds, secret)(entry, seen) == [] <==>
          ValidResult(entry, evidenceIds, secret) && NonBlank(Value(entry, "memory_id")).value in memoryIds - seen
      {
        ResultIff(entry, seen, memoryIds, evidenceIds, secret);
      }
      ExactEntriesIff(v.items, "memory_id", ResultCheck(memoryIds, evidenceIds, secret),
                      entry => ValidResult(entry, evidenceIds, secret),
                      memoryIds, UnknownMemoryId);
    }
  }

  /** The loader accepts exactly the valid fixtures. */
  lemma AcceptedIffValid(raw: Json, secret: Secrets)
    ensures IssuesOf(raw, secret) == [] <==> ValidFixture(raw, secret)
  {
    MemoriesIff(Value(raw, "returned_memories"), secret);
    EvidenceListIff(Value(raw, "evidence"), secret);
    var expected := Value(raw, "expected");
    ResultsIff(Value(expected, "memory_results"), MemoryIds(raw), EvidenceIds(raw), secret);
    EvidenceIdsIff(Value(expected, "evidence_ids"), EvidenceIds(raw));
    MissedIdsIff(expected);
    HeadIff(raw);
    PromptIff(Value(raw, "prompt"), secret);
    ExpectedIff(expected, MemoryIds(raw), EvidenceIds(raw), secret);
  }

  lemma HeadIff(raw: Json)
    ensures HeadCodes(raw) == [] <==> ValidHead(raw)
  {
  }

  lemma PromptIff(prompt: Json, secret: Secrets)
    ensures PromptCodes(prompt, secret) == [] <==> ValidPrompt(prompt, secret)
  {
  }

  lemma ExpectedIff(expected: Json, memoryIds: set<string>, evidenceIds: set<string>, secret: Secrets)
    ensures ExpectedCodes(expected, memoryIds, evidenceIds, secret) == []
      <==> ValidExpected(expected, memoryIds, evidenceIds, secret)
  {
    ResultsIff(Value(expected, "memory_results"), memoryIds, evidenceIds, secret);
    EvidenceIdsIff(Value(expected, "evidence_ids"), evidenceIds);
    MissedIdsIff(expected);
  }

  // ---- What a valid fixture is, by names and texts alone

  predicate IsShort(v: Json, max: nat) {
    IsSolidText(v) && Utf16Length(v.text) <= max
  }

  /** Lower-case letters, digits and hyphens, no hyphen in front. */
  predicate IsSlug(s: string) {
    1 <= |s| && s[0] != '-' && forall i :: 0 <= i < |s| ==> s[i] == '-' || '0' <= s[i] <= '9' || 'a' <= s[i] <= 'z'
  }

  /** Lower-case letters, digits and underscores behind `ev_`, no underscore first. */
  predicate NamesEvidence(s: string) {
    && |s| >= 4 && s[0] == 'e' && s[1] == 'v' && s[2] == '_' && s[3] != '_'
    && forall i :: 3 <= i < |s| ==> s[i] == '_' || '0' <= s[i] <= '9' || 'a' <= s[i] <= 'z'
  }

  /** Letters, digits, dots, underscores, colons and hyphens, a letter or a digit in front. */
  predicate NamesMemory(s: string) {
    && 1 <= |s| && s[0] !in "._:-"
    && forall i :: 0 <= i < |s| ==>
         s[i] in "._:-" || '0' <= s[i] <= '9' || 'a' <= s[i] <= 'z' || 'A' <= s[i] <= 'Z'
  }

  ghost predicate IsRank(v: Json) {
    exists n: nat :: n >= 1 && IsTheNumber(v, n)
  }

  predicate IsTheNumber(v: Json, n: nat) {
    v.Number? && v.value == n as real
  }

  predicate IsHeaded(raw: Json) {
    && Value(raw, "schema_version") == Text("memory_review_bot_fixture_v1")
    && IsTextIn(Value(raw, "fixture_source"), {"production", "synthetic"})
    && IsShort(Value(raw, "fixture_id"), 120) && IsSlug(Value(raw, "fixture_id").text)
  }

  /** The key holds no text in which a secret is recognised. */
  predicate HidesNothing(record: Json, key: string, secret: Secrets) {
    Value(record, key).Text? && Value(record, key).text != "" ==> !secret(Value(record, key).text)
  }

  predicate IsSoundPrompt(prompt: Json, secret: Secrets) {
    && prompt.Record?
    && IsShort(Value(prompt, "task_summary"), 700) && HidesNothing(prompt, "task_summary", secret)
    && IsShort(Value(prompt, "bounded_prompt"), 4000) && HidesNothing(prompt, "bounded_prompt", secret)
    && FitsIfThere(prompt, "session_id", 120) && FitsIfThere(prompt, "prompt_id", 120)
    && FitsIfThere(prompt, "outcome_summary", 2000) && HidesNothing(prompt, "outcome_summary", secret)
  }

  predicate FitsIfThere(record: Json, key: string, max: nat)
    requires record.Record?
  {
    key in record.fields ==> IsShort(record.fields[key], max)
  }

  ghost predicate IsSoundMemory(entry: Json, secret: Secrets) {
    && entry.Record?
    && IsShort(Value(entry, "memory_id"), 160) && NamesMemory(Value(entry, "memory_id").text)
    && IsTextIn(Value(entry, "source"), {"recall", "company_recall", "company_bootstrap", "synthetic"})
    && IsTextIn(Value(entry, "lifecycle_state"), {"active", "superseded", "expired", "rejected", "unknown"})
    && IsRank(Value(entry, "rank"))
    && Value(entry, "score").Number? && 0.0 <= Value(entry, "score").value <= 1.0
    && IsShort(Value(entry, "scope"), 240)
    && IsShort(Value(entry, "content_excerpt"), 1200) && HidesNothing(entry, "content_excerpt", secret)
  }

  predicate IsSoundEvidence(entry: Json, secret: Secrets) {
    && entry.Record?
    && IsShort(Value(entry, "evidence_id"), 120) && NamesEvidence(Value(entry, "evidence_id").text)
    && IsTextIn(Value(entry, "kind"), {"prompt", "transcript", "output", "memory", "lifecycle", "feedback", "slack"})
    && FitsIfThere(entry, "source_ref", 240)
    && IsShort(Value(entry, "snippet"), 1200) && HidesNothing(entry, "snippet", secret)
  }

  /** An array of solid texts, each of which holds up. */
  predicate AreTexts(v: Json, good: Json -> bool) {
    v.List? && forall i :: 0 <= i < |v.items| ==> IsSolidText(v.items[i]) && good(v.items[i])
  }

  predicate Cites(v: Json, evidence: Json) {
    AreTexts(v, (x: Json) => Lists(evidence, "evidence_id", x)) && |v.items| >= 1
  }

  predicate IsSoundResult(entry: Json, evidence: Json, secret: Secrets) {
    && entry.Record? && IsShort(Value(entry, "memory_id"), 160)
    && IsTextIn(Value(entry, "relevance"), {"relevant", "borderline", "irrelevant"})
    && IsTextIn(Value(entry, "usefulness"), {"useful", "not_useful"})
    && IsTextIn(Value(entry, "effect"), {"helped", "hurt", "neutral"})
    && IsTextIn(Value(entry, "lifecycle_state"), {"active", "superseded", "expired", "rejected", "unknown"})
    && AreTexts(Value(entry, "root_causes"),
                (x: Json) => IsTextIn(x, {"creation", "retrieval", "agent_usage", "stale_memory",
                                            "provenance_missing", "supersession_missing", "telemetry_gap"}))
    && Cites(Value(entry, "evidence_ids"), evidence)
    && FitsIfThere(entry, "rationale", 700) && HidesNothing(entry, "rationale", secret)
  }

  predicate NoneTwice(v: Json, key: string) {
    v.List? && forall i, j :: 0 <= i < j < |v.items| ==> Value(v.items[i], key) != Value(v.items[j], key)
  }

  /** The results are for the memories, one for each. */
  ghost predicate OneForEach(results: Json, memories: Json) {
    && results.List? && memories.List? && NoneTwice(results, "memory_id")
    && (forall i :: 0 <= i < |results.items| ==> Lists(memories, "memory_id", Value(results.items[i], "memory_id")))
    && forall i :: 0 <= i < |memories.items| ==> Lists(results, "memory_id", Value(memories.items[i], "memory_id"))
  }

  predicate IsSoundVerdict(expected: Json, evidence: Json) {
    && expected.Record?
    && IsTextIn(Value(expected, "prompt_outcome"),
                {"true_positive", "false_positive", "true_negative", "false_negative"})
    && ("failure_code" in expected.fields ==>
          IsTextIn(Value(expected, "failure_code"),
                   {"missing_prompt", "missing_task_summary", "missing_transcript_evidence",
                    "missing_output_evidence", "missing_memory_evidence", "missing_usage_evidence",
                    "missing_required_evidence", "invalid_reviewer_output"}))
    && Cites(Value(expected, "evidence_ids"), evidence)
    && ("missed_memory_ids" in expected.fields ==>
          AreTexts(Value(expected, "missed_memory_ids"), (x: Json) => x.Text? && NamesMemory(x.text)))
  }

  ghost predicate IsSoundFixture(raw: Json, secret: Secrets) {
    var memories, evidence := Value(raw, "returned_memories"), Value(raw, "evidence");
    var expected := Value(raw, "expected");
    var results := Value(expected, "memory_results");
    && raw.Record? && IsHeaded(raw) && IsSoundPrompt(Value(raw, "prompt"), secret)
    && NoneTwice(memories, "memory_id")
    && (forall i :: 0 <= i < |memories.items| ==> IsSoundMemory(memories.items[i], secret))
    && NoneTwice(evidence, "evidence_id") && |evidence.items| >= 1
    && (forall i :: 0 <= i < |evidence.items| ==> IsSoundEvidence(evidence.items[i], secret))
    && IsSoundVerdict(expected, evidence) && OneForEach(results, memories)
    && forall i :: 0 <= i < |results.items| ==> IsSoundResult(results.items[i], evidence, secret)
  }

  lemma FitsIff(v: Json, max: nat)
    ensures FitsText(v, max) <==> IsShort(v, max)
    ensures IsShort(v, max) ==> NonBlank(v) == Some(v.text)
  {
    SolidIsNonBlank(v);
  }

  lemma NamesIff(s: string)
    ensures IsFixtureId(s) <==> IsSlug(s)
    ensures IsEvidenceId(s) <==> NamesEvidence(s)
    ensures IsMemoryId(s) <==> NamesMemory(s)
  {
    assert |s| >= 3 ==> (s[..3] == "ev_" <==> s[0] == 'e' && s[1] == 'v' && s[2] == '_');
    forall c: char ensures c in "._:-" <==> c == '.' || c == '_' || c == ':' || c == '-' {
      assert "._:-"[0] == '.' && "._:-"[1] == '_' && "._:-"[2] == ':' && "._:-"[3] == '-';
    }
  }

  lemma RankIff(v: Json)
    ensures IsPositiveInteger(v) <==> IsRank(v)
  {
    if v.Number? && v.value.Floor as real == v.value && v.value >= 1.0 {
      var n: nat := v.value.Floor;
      assert IsTheNumber(v, n);
    }
  }

  lemma HeadedIff(raw: Json)
    ensures ValidHead(raw) <==> IsHeaded(raw)
  {
    FitsIff(Value(raw, "fixture_id"), 120);
    if Value(raw, "fixture_id").Text? {
      NamesIff(Value(raw, "fixture_id").text);
    }
  }

  lemma OptionalIff(record: Json, key: string, max: nat)
    requires record.Record?
    ensures FitsOptional(record, key, max) <==> FitsIfThere(record, key, max)
  {
    FitsIff(Value(record, key), max);
  }

  lemma SoundPromptIff(prompt: Json, secret: Secrets)
    ensures ValidPrompt(prompt, secret) <==> IsSoundPrompt(prompt, secret)
  {
    if prompt.Record? {
      FitsIff(Value(prompt, "task_summary"), 700);
      FitsIff(Value(prompt, "bounded_prompt"), 4000);
      OptionalIff(prompt, "session_id", 120);
      OptionalIff(prompt, "prompt_id", 120);
      OptionalIff(prompt, "outcome_summary", 2000);
    }
  }

  lemma SoundMemoryIff(entry: Json, secret: Secrets)
    ensures ValidMemory(entry, secret) <==> IsSoundMemory(entry, secret)
    ensures ValidMemory(entry, secret) ==>
      NonBlank(Value(entry, "memory_id")) == Some(Value(entry, "memory_id").text)
  {
    FitsIff(Value(entry, "memory_id"), 160);
    FitsIff(Value(entry, "scope"), 240);
    FitsIff(Value(entry, "content_excerpt"), 1200);
    RankIff(Value(entry, "rank"));
    if Value(entry, "memory_id").Text? {
      NamesIff(Value(entry, "memory_id").text);
    }
  }

  lemma SoundEvidenceIff(entry: Json, secret: Secrets)
    ensures ValidEvidence(entry, secret) <==> IsSoundEvidence(entry, secret)
    ensures ValidEvidence(entry, secret) ==>
      NonBlank(Value(entry, "evidence_id")) == Some(Value(entry, "evidence_id").text)
  {
    FitsIff(Value(entry, "evidence_id"), 120);
    FitsIff(Value(entry, "snippet"), 1200);
    if entry.Record? {
      OptionalIff(entry, "source_ref", 240);
    }
    if Value(entry, "evidence_id").Text? {
      NamesIff(Value(entry, "evidence_id").text);
    }
  }

  lemma TextsIff(v: Json, good: string -> bool, holds: Json -> bool)
    requires forall s :: good(s) <==> holds(Text(s))
    ensures ArrayOf(v, good) <==> AreTexts(v, holds)
  {
    if v.List? {
      forall i | 0 <= i < |v.items|
        ensures NonBlank(v.items[i]).Some? && good(v.items[i].text) <==> IsSolidText(v.items[i]) && holds(v.items[i])
      {
        SolidIsNonBlank(v.items[i]);
      }
    }
  }

  /** Entries that all have an identifier. */
  predicate AllNamed(v: Json, key: string) {
    v.List? && forall i :: 0 <= i < |v.items| ==> NonBlank(Value(v.items[i], key)).Some?
  }

  lemma CitesIff(v: Json, evidence: Json)
    requires AllNamed(evidence, "evidence_id")
    ensures CitesEvidence(v, IdsOf(evidence.items, "evidence_id")) <==> Cites(v, evidence)
  {
    var ids := IdsOf(evidence.items, "evidence_id");
    forall s ensures MemberOf(ids)(s) <==> Lists(evidence, "evidence_id", Text(s)) {
      ListedIff(evidence.items, "evidence_id", s);
    }
    TextsIff(v, MemberOf(ids), (x: Json) => Lists(evidence, "evidence_id", x));
  }

  lemma CausesIff(v: Json)
    ensures ArrayOf(v, MemberOf(ROOT_CAUSES)) <==>
      AreTexts(v, (x: Json) => IsTextIn(x, {"creation", "retrieval", "agent_usage", "stale_memory",
                                            "provenance_missing", "supersession_missing", "telemetry_gap"}))
  {
    TextsIff(v, MemberOf(ROOT_CAUSES),
             (x: Json) => IsTextIn(x, {"creation", "retrieval", "agent_usage", "stale_memory",
                                       "provenance_missing", "supersession_missing", "telemetry_gap"}));
  }

  lemma SoundResultIff(entry: Json, evidence: Json, secret: Secrets)
    requires AllNamed(evidence, "evidence_id")
    ensures ValidResult(entry, IdsOf(evidence.items, "evidence_id"), secret) <==> IsSoundResult(entry, evidence, secret)
  {
    FitsIff(Value(entry, "memory_id"), 160);
    CausesIff(Value(entry, "root_causes"));
    CitesIff(Value(entry, "evidence_ids"), evidence);
    if entry.Record? {
      OptionalIff(entry, "rationale", 700);
    }
  }

  lemma MissedIff(v: Json)
    ensures ArrayOf(v, IsMemoryIdFn()) <==> AreTexts(v, (x: Json) => x.Text? && NamesMemory(x.text))
  {
    forall s ensures IsMemoryIdFn()(s) <==> NamesMemory(s) {
      NamesIff(s);
    }
    TextsIff(v, IsMemoryIdFn(), (x: Json) => x.Text? && NamesMemory(x.text));
  }

  /** What is expected besides the results. */
  ghost predicate ValidVerdict(expected: Json, evidenceIds: set<string>) {
    && expected.Record? && IsOneOf(Value(expected, "prompt_outcome"), OUTCOMES)
    && (Has(expected, "failure_code") ==> IsOneOf(Value(expected, "failure_code"), FAILURES))
    && CitesEvidence(Value(expected, "evidence_ids"), evidenceIds)
    && (Has(expected, "missed_memory_ids") ==> ArrayOf(Value(expected, "missed_memory_ids"), IsMemoryIdFn()))
  }

  lemma SoundVerdictIff(expected: Json, evidence: Json)
    requires AllNamed(evidence, "evidence_id")
    ensures ValidVerdict(expected, IdsOf(evidence.items, "evidence_id")) <==> IsSoundVerdict(expected, evidence)
  {
    CitesIff(Value(expected, "evidence_ids"), evidence);
    MissedIff(Value(expected, "missed_memory_ids"));
  }

  lemma SoundResultsIff(results: Json, memories: Json, evidence: Json, secret: Secrets)
    requires AllNamed(memories, "memory_id") && AllNamed(evidence, "evidence_id")
    ensures ValidResults(results, IdsOf(memories.items, "memory_id"), IdsOf(evidence.items, "evidence_id"), secret)
      <==> OneForEach(results, memories) && forall i :: 0 <= i < |results.items| ==>
        IsSoundResult(results.items[i], evidence, secret)
  {
    if results.List? {
      forall i | 0 <= i < |results.items|
        ensures ValidResult(results.items[i], IdsOf(evidence.items, "evidence_id"), secret)
          <==> IsSoundResult(results.items[i], evidence, secret)
        ensures IsSoundResult(results.items[i], evidence, secret) ==>
          NonBlank(Value(results.items[i], "memory_id")).Some?
      {
        SoundResultIff(results.items[i], evidence, secret);
        FitsIff(Value(results.items[i], "memory_id"), 160);
      }
      if AllNamed(results, "memory_id") {
        SetsAlike(results.items, memories.items);
        assert List(memories.items) == memories && List(results.items) == results;
      }
    }
  }

  lemma SoundMemoriesIff(v: Json, secret: Secrets)
    ensures ValidMemories(v, secret) <==> NoneTwice(v, "memory_id") && forall i :: 0 <= i < |v.items| ==>
      IsSoundMemory(v.items[i], secret)
    ensures ValidMemories(v, secret) ==> AllNamed(v, "memory_id")
  {
    if v.List? {
      forall i | 0 <= i < |v.items|
        ensures ValidMemory(v.items[i], secret) <==> IsSoundMemory(v.items[i], secret)
        ensures ValidMemory(v.items[i], secret) ==> NonBlank(Value(v.items[i], "memory_id")).Some?
      {
        SoundMemoryIff(v.items[i], secret);
      }
    }
  }

  lemma SoundEvidenceListIff(v: Json, secret: Secrets)
    ensures ValidEvidenceList(v, secret) <==>
      NoneTwice(v, "evidence_id") && |v.items| >= 1
      && forall i :: 0 <= i < |v.items| ==> IsSoundEvidence(v.items[i], secret)
    ensures ValidEvidenceList(v, secret) ==> AllNamed(v, "evidence_id")
  {
    if v.List? {
      forall i | 0 <= i < |v.items|
        ensures ValidEvidence(v.items[i], secret) <==> IsSoundEvidence(v.items[i], secret)
        ensures ValidEvidence(v.items[i], secret) ==> NonBlank(Value(v.items[i], "evidence_id")).Some?
      {
        SoundEvidenceIff(v.items[i], secret);
      }
    }
  }

  lemma ExpectedParts(expected: Json, memoryIds: set<string>, evidenceIds: set<string>, secret: Secrets)
    ensures ValidExpected(expected, memoryIds, evidenceIds, secret) <==>
      ValidVerdict(expected, evidenceIds)
      && ValidResults(Value(expected, "memory_results"), memoryIds, evidenceIds, secret)
  {
  }

  /** The loader accepts exactly the fixtures that are sound, said of the document alone. */
  lemma AcceptedIffSound(raw: Json, secret: Secrets)
    ensures IssuesOf(raw, secret) == [] <==> IsSoundFixture(raw, secret)
  {
    var memories, evidence, expected := Value(raw, "returned_memories"), Value(raw, "evidence"), Value(raw, "expected");
    AcceptedIffValid(raw, secret);
    HeadedIff(raw);
    SoundPromptIff(Value(raw, "prompt"), secret);
    SoundMemoriesIff(memories, secret);
    SoundEvidenceListIff(evidence, secret);
    ExpectedParts(expected, MemoryIds(raw), EvidenceIds(raw), secret);
    if AllNamed(memories, "memory_id") && AllNamed(evidence, "evidence_id") {
      SoundVerdictIff(expected, evidence);
      SoundResultsIff(Value(expected, "memory_results"), memories, evidence, secret);
    }
  }
}
