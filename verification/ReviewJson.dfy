/** JSON values as the fixture loader and the output scorers read them. */
module ReviewJson {
  import opened Options
  import opened JsText

  /** Undefined is what reading a missing field gives; NonFinite stands for NaN and the infinities, which a
      reviewer may return although no JSON text denotes them. */
  datatype Json =
    | Undefined
    | Null
    | Boolean(flag: bool)
    | Number(value: real)
    | NonFinite
    | Text(text: string)
    | List(items: seq<Json>)
    | Record(fields: map<string, Json>)

  function Value(record: Json, key: string): Json {
    if record.Record? && key in record.fields then record.fields[key] else Undefined
  }

  predicate Has(record: Json, key: string) {
    record.Record? && key in record.fields
  }

  function NonBlank(v: Json): Option<string> {
    if v.Text? && Trim(v.text) != "" then Some(v.text) else None
  }

  // ---- Texts, said without the readers

  predicate IsSolidText(v: Json) { v.Text? && !AllSpace(v.text) }

  predicate IsTextIn(v: Json, allowed: set<string>) { v.Text? && v.text in allowed }

  lemma SolidIsNonBlank(v: Json)
    ensures IsSolidText(v) <==> NonBlank(v).Some?
    ensures IsSolidText(v) ==> NonBlank(v) == Some(v.text)
  {
    if v.Text? {
      TrimsToNothing(v.text);
    }
  }

  /** Some entry of the array has the text under the key. */
  predicate Lists(v: Json, key: string, text: Json) {
    v.List? && exists i :: 0 <= i < |v.items| && Value(v.items[i], key) == text
  }

  // ---- The readers

  predicate IsOneOf(v: Json, allowed: set<string>) {
    v.Text? && v.text in allowed
  }

  predicate InUnitInterval(v: Json) {
    v.Number? && 0.0 <= v.value <= 1.0
  }

  function MemberOf(allowed: set<string>): string -> bool {
    s => s in allowed
  }

  const RELEVANCE := {"relevant", "borderline", "irrelevant"}
  const USEFULNESS := {"useful", "not_useful"}
  const EFFECTS := {"helped", "hurt", "neutral"}
  const LIFECYCLES := {"active", "superseded", "expired", "rejected", "unknown"}
  const OUTCOMES := {"true_positive", "false_positive", "true_negative", "false_negative"}
  const ROOT_CAUSES :=
    {"creation", "retrieval", "agent_usage", "stale_memory", "provenance_missing", "supersession_missing",
     "telemetry_gap"}
  const FAILURES := {"missing_prompt", "missing_task_summary", "missing_transcript_evidence", "missing_output_evidence",
                     "missing_memory_evidence", "missing_usage_evidence", "missing_required_evidence",
                       "invalid_reviewer_output"}

  // ---- The shared list of codes that checks push into

  class CodeList<C> {
    var codes: seq<C>

    constructor ()
      ensures codes == []
    {
      codes := [];
    }

    method Add(code: C)
      modifies this
      ensures codes == old(codes) + [code]
    {
      codes := codes + [code];
    }

    method AddAll(more: seq<C>)
      modifies this
      ensures codes == old(codes) + more
    {
      codes := codes + more;
    }
  }

  function Flag<C>(bad: bool, code: C): seq<C> {
    if bad then [code] else []
  }

  /** One code for each value that is not good. */
  function FlagEach<C>(values: seq<string>, good: string -> bool, code: C): seq<C> {
    if values == [] then []
    else FlagEach(values[..|values| - 1], good, code) + Flag(!good(values[|values| - 1]), code)
  }

  lemma {:induction false} NoFlags<C>(values: seq<string>, good: string -> bool, code: C)
    ensures FlagEach(values, good, code) == [] <==> forall i :: 0 <= i < |values| ==> good(values[i])
  {
    if values != [] {
      var front := values[..|values| - 1];
      NoFlags(front, good, code);
      assert values == front + [values[|values| - 1]];
    }
  }

  method CheckEach<C>(values: seq<string>, good: string -> bool, code: C, list: CodeList<C>)
    modifies list
    ensures list.codes == old(list.codes) + FlagEach(values, good, code)
  {
    for i := 0 to |values|
      invariant list.codes == old(list.codes) + FlagEach(values[..i], good, code)
    {
      assert values[..i + 1][..i] == values[..i];
      if !good(values[i]) {
        list.Add(code);
      }
    }
    assert values[..|values|] == values;
  }

  // ---- Arrays of strings

  function Strings(items: seq<Json>): seq<string> {
    if items == [] then []
    else
      var front, last := Strings(items[..|items| - 1]), NonBlank(items[|items| - 1]);
      if last.Some? then front + [last.value] else front
  }

  function BlankCodes<C>(items: seq<Json>, code: C): seq<C> {
    if items == [] then []
    else BlankCodes(items[..|items| - 1], code) + Flag(NonBlank(items[|items| - 1]).None?, code)
  }

  predicate AllNonBlank(items: seq<Json>) {
    forall i :: 0 <= i < |items| ==> NonBlank(items[i]).Some?
  }

  lemma {:induction false} NoBlanks<C>(items: seq<Json>, code: C)
    ensures BlankCodes(items, code) == [] <==> AllNonBlank(items)
  {
    if items != [] {
      var front := items[..|items| - 1];
      NoBlanks(front, code);
      assert items == front + [items[|items| - 1]];
      assert forall i :: 0 <= i < |front| ==> front[i] == items[i];
    }
  }

  lemma {:induction false} StringsOfNonBlank(items: seq<Json>)
    requires AllNonBlank(items)
    ensures |Strings(items)| == |items| && forall i :: 0 <= i < |items| ==> items[i] == Text(Strings(items)[i])
  {
    if items != [] {
      var front, last := items[..|items| - 1], items[|items| - 1];
      assert forall i :: 0 <= i < |front| ==> front[i] == items[i];
      StringsOfNonBlank(front);
      assert Strings(items) == Strings(front) + [NonBlank(last).value];
    }
  }

  method ReadStrings<C>(items: seq<Json>, code: C, list: CodeList<C>) returns (strings: seq<string>)
    modifies list
    ensures strings == Strings(items) && list.codes == old(list.codes) + BlankCodes(items, code)
  {
    strings := [];
    for i := 0 to |items|
      invariant strings == Strings(items[..i]) && list.codes == old(list.codes) + BlankCodes(items[..i], code)
    {
      assert items[..i + 1][..i] == items[..i];
      var text := NonBlank(items[i]);
      if text.None? {
        list.Add(code);
      } else {
        strings := strings + [text.value];
      }
    }
    assert items[..|items|] == items;
  }

  // ---- Arrays of records with an identifier

  /** The identifiers among the entries; entries that are no records or have none are skipped. */
  function IdsOf(entries: seq<Json>, key: string): set<string> {
    set i | 0 <= i < |entries| && NonBlank(Value(entries[i], key)).Some? :: NonBlank(Value(entries[i], key)).value
  }

  predicate DistinctIds(entries: seq<Json>, key: string) {
    forall i, j :: 0 <= i < j < |entries| ==> Value(entries[i], key) != Value(entries[j], key)
  }

  lemma IdsOneMore(entries: seq<Json>, i: nat, key: string)
    requires i < |entries|
    ensures var id := NonBlank(Value(entries[i], key));
      IdsOf(entries[..i + 1], key) == IdsOf(entries[..i], key) + if id.Some? then {id.value} else {}
  {
    assert entries[..i + 1] == entries[..i] + [entries[i]];
    assert forall k :: 0 <= k < i ==> entries[..i][k] == entries[..i + 1][k];
    assert entries[..i + 1][i] == entries[i];
  }

  /** Every entry is checked against the identifiers before it. */
  function EntryCodes<C>(entries: seq<Json>, key: string, check: (Json, set<string>) -> seq<C>): seq<C> {
    if entries == [] then []
    else
      var n := |entries| - 1;
      EntryCodes(entries[..n], key, check) + check(entries[n], IdsOf(entries[..n], key))
  }

  method CheckEntries<C>(entries: seq<Json>, key: string, check: (Json, set<string>) -> seq<C>, list: CodeList<C>)
      returns (ids: set<string>)
    modifies list
    ensures list.codes == old(list.codes) + EntryCodes(entries, key, check) && ids == IdsOf(entries, key)
  {
    ids := {};
    for i := 0 to |entries|
      invariant ids == IdsOf(entries[..i], key)
      invariant list.codes == old(list.codes) + EntryCodes(entries[..i], key, check)
    {
      assert entries[..i + 1][..i] == entries[..i];
      IdsOneMore(entries, i, key);
      list.AddAll(check(entries[i], ids));
      var id := NonBlank(Value(entries[i], key));
      if id.Some? {
        ids := ids + {id.value};
      }
    }
    assert entries[..|entries|] == entries;
  }

  lemma {:induction false} NoEntryCodes<C>(entries: seq<Json>, key: string, check: (Json, set<string>) -> seq<C>)
    ensures EntryCodes(entries, key, check) == []
      <==> forall i :: 0 <= i < |entries| ==> check(entries[i], IdsOf(entries[..i], key)) == []
  {
    if entries != [] {
      var n := |entries| - 1;
      NoEntryCodes(entries[..n], key, check);
      forall i | 0 <= i < n ensures entries[..n][i] == entries[i] && entries[..n][..i] == entries[..i] {
      }
    }
  }

  /** When every entry has an identifier, finding none among those before it makes them distinct. */
  lemma NewIdsAreDistinct(entries: seq<Json>, key: string)
    requires forall i :: 0 <= i < |entries| ==> NonBlank(Value(entries[i], key)).Some?
    ensures DistinctIds(entries, key)
      <==> forall i :: 0 <= i < |entries| ==> NonBlank(Value(entries[i], key)).value !in IdsOf(entries[..i], key)
  {
    forall i | 0 <= i < |entries|
      ensures NonBlank(Value(entries[i], key)).value in IdsOf(entries[..i], key)
        <==> exists j :: 0 <= j < i && Value(entries[j], key) == Value(entries[i], key)
    {
      if j :| 0 <= j < i && Value(entries[j], key) == Value(entries[i], key) {
        assert entries[..i][j] == entries[j];
      }
    }
  }

  /** A check that finds nothing exactly in valid entries with a new identifier finds nothing in a list
      exactly when all its entries are valid and their identifiers distinct. */
  lemma EntriesIff<C>(entries: seq<Json>, key: string, check: (Json, set<string>) -> seq<C>, valid: Json -> bool)
    requires forall entry :: valid(entry) ==> NonBlank(Value(entry, key)).Some?
    requires forall entry, seen ::
      check(entry, seen) == [] <==> valid(entry) && NonBlank(Value(entry, key)).value !in seen
    ensures EntryCodes(entries, key, check) == []
      <==> DistinctIds(entries, key) && forall i :: 0 <= i < |entries| ==> valid(entries[i])
  {
    NoEntryCodes(entries, key, check);
    if forall i :: 0 <= i < |entries| ==> valid(entries[i]) {
      NewIdsAreDistinct(entries, key);
    }
  }

  function Repeat<C>(n: nat, code: C): (codes: seq<C>)
    ensures |codes| == n && forall i :: 0 <= i < n ==> codes[i] == code
  {
    seq(n, i => code)
  }

  lemma RepeatOneMore<C>(n: nat, code: C)
    ensures Repeat(n + 1, code) == Repeat(n, code) + [code]
  {
  }

  /** One code for each identifier that is missing. */
  lemma OneFewer(left: set<string>, present: set<string>, id: string)
    requires id in left
    ensures |left - present| == |left - {id} - present| + if id in present then 0 else 1
  {
    if id in present {
      assert left - {id} - present == left - present;
    } else {
      assert left - {id} - present == (left - present) - {id};
    }
  }

  method CheckMissing<C>(ids: set<string>, present: set<string>, code: C, list: CodeList<C>)
    modifies list
    ensures list.codes == old(list.codes) + Repeat(|ids - present|, code)
  {
    var left := ids;
    ghost var count := 0;
    while left != {}
      invariant count + |left - present| == |ids - present|
      invariant list.codes == old(list.codes) + Repeat(count, code)
      decreases left
    {
      var id :| id in left;
      OneFewer(left, present, id);
      if id !in present {
        list.Add(code);
        RepeatOneMore(count, code);
        count := count + 1;
      }
      left := left - {id};
    }
  }

  /** The same for a check that also wants each identifier in a set, with one code for each member of
      the set that no entry has. */
  lemma ExactEntriesIff<C>(entries: seq<Json>, key: string, check: (Json, set<string>) -> seq<C>, valid: Json -> bool,
                           ids: set<string>, missing: C)
    requires forall entry :: valid(entry) ==> NonBlank(Value(entry, key)).Some?
    requires forall entry, seen ::
      check(entry, seen) == [] <==> valid(entry) && NonBlank(Value(entry, key)).value in ids - seen
    ensures EntryCodes(entries, key, check) + Repeat(|ids - IdsOf(entries, key)|, missing) == [] <==>
      DistinctIds(entries, key) && IdsOf(entries, key) == ids && forall i :: 0 <= i < |entries| ==> valid(entries[i])
  {
    EntriesIff(entries, key, check, entry => valid(entry) && NonBlank(Value(entry, key)).value in ids);
    NoneMissing(ids, IdsOf(entries, key), missing);
  }

  lemma NoneMissing<C>(ids: set<string>, found: set<string>, missing: C)
    ensures Repeat(|ids - found|, missing) == [] <==> ids <= found
  {
    assert |ids - found| == 0 <==> ids - found == {};
    if ids - found == {} {
      assert forall id :: id in ids ==> id !in ids - found;
    }
  }

  // ---- Identifiers, said without the readers

  /** The identifiers of entries that all have one. */
  lemma ListedIff(entries: seq<Json>, key: string, id: string)
    requires forall i :: 0 <= i < |entries| ==> NonBlank(Value(entries[i], key)).Some?
    ensures id in IdsOf(entries, key) <==> Lists(List(entries), key, Text(id))
  {
    if Lists(List(entries), key, Text(id)) {
      var i :| 0 <= i < |entries| && Value(entries[i], key) == Text(id);
      assert NonBlank(Value(entries[i], key)).value == id;
    }
  }

  lemma SetsAlike(results: seq<Json>, returned: seq<Json>)
    requires forall i :: 0 <= i < |results| ==> NonBlank(Value(results[i], "memory_id")).Some?
    requires forall i :: 0 <= i < |returned| ==> NonBlank(Value(returned[i], "memory_id")).Some?
    ensures IdsOf(results, "memory_id") == IdsOf(returned, "memory_id") <==>
      (forall i :: 0 <= i < |results| ==> Lists(List(returned), "memory_id", Value(results[i], "memory_id")))
      && forall i :: 0 <= i < |returned| ==> Lists(List(results), "memory_id", Value(returned[i], "memory_id"))
  {
    ListsWithin(results, returned);
    ListsWithin(returned, results);
  }

  lemma ListsWithin(a: seq<Json>, b: seq<Json>)
    requires forall i :: 0 <= i < |a| ==> NonBlank(Value(a[i], "memory_id")).Some?
    requires forall i :: 0 <= i < |b| ==> NonBlank(Value(b[i], "memory_id")).Some?
    ensures IdsOf(a, "memory_id") <= IdsOf(b, "memory_id")
      <==> forall i :: 0 <= i < |a| ==> Lists(List(b), "memory_id", Value(a[i], "memory_id"))
  {
    forall i | 0 <= i < |a|
      ensures NonBlank(Value(a[i], "memory_id")).value in IdsOf(b, "memory_id")
        <==> Lists(List(b), "memory_id", Value(a[i], "memory_id"))
      ensures NonBlank(Value(a[i], "memory_id")).value in IdsOf(a, "memory_id")
    {
      ListedIff(b, "memory_id", NonBlank(Value(a[i], "memory_id")).value);
    }
  }
}
