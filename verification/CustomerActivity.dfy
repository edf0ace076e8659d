/** The customer transcript projector: consecutive tool activity of one category and one prompt is
    folded into one row, everything else passes through or is dropped. */
module CustomerActivity {
  import opened Options
  import opened Utf16

  datatype Category = Inspect | Change | Verify | Plan | Git | Command

  datatype Status = Running | Completed | Error

  datatype Detail = Detail(tool: Text, content: Text)

  datatype Event =
    | ToolCall(id: string, tool: string, payload: string, toolStatus: Option<Status>, commandFailure: bool,
               promptId: Option<string>)
    | Patch(id: string, files: seq<Text>, promptId: Option<string>)
    | AgentTimeline(id: string, eventType: string)
    | RawAgentRuntime(id: string)
    | ToolTruncated(id: string)
    | Activity(id: string, category: Category, status: Status, count: nat, details: seq<Detail>, overflow: Option<nat>,
               promptId: Option<string>)
    | Other(id: string, text: string)

  /** The parts of the projector that read tool names and command text. */
  datatype Rules = Rules(
    lower: string -> string,
    classifyTool: Event -> Option<Category>,
    detailOf: Event -> Detail,
    cleanse: Text -> Text)

  const MAX_DETAILS := 5
  const MAX_DETAIL_LENGTH := 120
  const VISIBLE_TIMELINE_EVENTS := {"publish_gate.result", "verification.result", "git.commit", "git.push", "pr.open"}

  // ---- One event

  predicate IsFanOut(rules: Rules, e: Event) {
    e.ToolCall? && rules.lower(e.tool) == "apply_patch"
  }

  function Classify(rules: Rules, e: Event): Option<Category> {
    match e
    case Patch(_, _, _) => Some(Change)
    case ToolCall(_, _, _, _, _, _) => rules.classifyTool(e)
    case _ => None
  }

  predicate Classified(rules: Rules, e: Event) { Classify(rules, e).Some? }

  predicate Shown(e: Event) {
    !e.RawAgentRuntime? && !e.ToolTruncated? && (e.AgentTimeline? ==> e.eventType in VISIBLE_TIMELINE_EVENTS)
  }

  function PromptOf(e: Event): Option<string> {
    if e.ToolCall? || e.Patch? then e.promptId else None
  }

  function Rank(s: Status): nat {
    match s case Error => 3 case Running => 2 case Completed => 1
  }

  function EffectiveStatus(e: Event): Status
    requires e.ToolCall?
  {
    if e.toolStatus == Some(Error) && e.commandFailure then Completed
    else if e.toolStatus.Some? then e.toolStatus.value
    else Completed
  }

  function MergeStatus(current: Status, e: Event): Status {
    if e.ToolCall? && Rank(EffectiveStatus(e)) > Rank(current) then EffectiveStatus(e) else current
  }

  // ---- Details of a run

  function CategoryName(c: Category): string {
    match c
    case Inspect => "inspect" case Change => "change" case Verify => "verify"
    case Plan => "plan" case Git => "git" case Command => "command"
  }

  function PatchTool(): Text { Ascii("patch") }

  function PatchDetails(files: seq<Text>): seq<Detail> {
    if files == [] then []
    else (if files[0] == [] then [] else [Detail(PatchTool(), files[0])]) + PatchDetails(files[1..])
  }

  function DetailsOf(rules: Rules, e: Event): seq<Detail> {
    if e.Patch? then PatchDetails(e.files) else [rules.detailOf(e)]
  }

  /** The details an item list offers, cleaned, without those that cleaning empties. */
  function Offered(rules: Rules, raw: seq<Detail>): seq<Detail> {
    if raw == [] then []
    else
      var content := rules.cleanse(raw[0].content);
      (if content == [] then [] else [Detail(raw[0].tool, content)]) + Offered(rules, raw[1..])
  }

  function AllDetails(rules: Rules, items: seq<Event>): seq<Detail> {
    if items == [] then [] else DetailsOf(rules, items[0]) + AllDetails(rules, items[1..])
  }

  const NUL: CodeUnit := 0
  const ELLIPSIS: CodeUnit := 0x2026

  /** The text under which a detail is remembered. */
  function Key(d: Detail): Text { d.tool + [NUL] + d.content }

  function Keys(ds: seq<Detail>): set<Text> { set d | d in ds :: Key(d) }

  /** The first detail under each key, in order of appearance. */
  function FirstOfEachKey(ds: seq<Detail>): seq<Detail> {
    if ds == [] then []
    else
      var front, last := FirstOfEachKey(ds[..|ds| - 1]), ds[|ds| - 1];
      if Key(last) in Keys(ds[..|ds| - 1]) then front else front + [last]
  }

  function Shorten(d: Detail): Detail {
    if |d.content| <= MAX_DETAIL_LENGTH then d
    else Detail(d.tool, d.content[..MAX_DETAIL_LENGTH - 1] + [ELLIPSIS])
  }

  function ShortenAll(ds: seq<Detail>): seq<Detail> {
    seq(|ds|, i requires 0 <= i < |ds| => Shorten(ds[i]))
  }

  /** The details a list of events offers. */
  function Offers(rules: Rules, items: seq<Event>): seq<Detail> {
    Offered(rules, AllDetails(rules, items))
  }

  /** The entries of a run, before capping. */
  function Entries(rules: Rules, items: seq<Event>): seq<Detail> {
    FirstOfEachKey(Offers(rules, items))
  }

  function Cap<T>(ts: seq<T>, n: nat): seq<T> {
    if |ts| <= n then ts else ts[..n]
  }

  // ---- The runs

  /** Two neighbouring events that belong to one row. */
  predicate Mergeable(rules: Rules, a: Event, b: Event) {
    && Classified(rules, a) && Classify(rules, a) == Classify(rules, b)
    && PromptOf(a) == PromptOf(b) && PromptOf(a).Some? && PromptOf(a) != Some("")
  }

  function RunLength(rules: Rules, es: seq<Event>): (n: nat)
    requires es != []
    ensures 1 <= n <= |es|
  {
    if |es| > 1 && Mergeable(rules, es[0], es[1]) then 1 + RunLength(rules, es[1..]) else 1
  }

  function StatusOf(items: seq<Event>): Status {
    if items == [] then Completed else MergeStatus(StatusOf(items[..|items| - 1]), items[|items| - 1])
  }

  /** The row of a run. */
  function Row(rules: Rules, items: seq<Event>): Event
    requires items != [] && Classified(rules, items[0])
  {
    var category, entries := Classify(rules, items[0]).value, Entries(rules, items);
    Activity(
      "customer-" + CategoryName(category) + "-" + items[0].id + "-" + items[|items| - 1].id,
      category,
      StatusOf(items),
      |items|,
      ShortenAll(Cap(entries, MAX_DETAILS)),
      if |entries| > MAX_DETAILS then Some(|entries| - MAX_DETAILS) else None,
      if PromptOf(items[0]) == Some("") then None else PromptOf(items[0]))
  }

  /** The declarative reading: cut the list into maximal runs. */
  function Rows(rules: Rules, es: seq<Event>): seq<Event>
    decreases |es|
  {
    if es == [] then []
    else if Classified(rules, es[0]) then
      var n := RunLength(rules, es);
      [Row(rules, es[..n])] + Rows(rules, es[n..])
    else
      (if Shown(es[0]) then [es[0]] else []) + Rows(rules, es[1..])
  }

  function DropFanOut(rules: Rules, es: seq<Event>): seq<Event> {
    if es == [] then []
    else (if IsFanOut(rules, es[0]) then [] else [es[0]]) + DropFanOut(rules, es[1..])
  }

  function Project(rules: Rules, events: seq<Event>): seq<Event> {
    Rows(rules, DropFanOut(rules, events))
  }

  // ---- Runs are the maximal ones

  /** Any two of the events belong to one row. */
  ghost predicate Chain(rules: Rules, es: seq<Event>) {
    forall i, j :: 0 <= i < j < |es| ==> Mergeable(rules, es[i], es[j])
  }

  /** The head run is a chain and cannot be extended; no other length has both properties. */
  lemma {:induction false} RunLengthIsMaximal(rules: Rules, es: seq<Event>, n: nat)
    requires 1 <= n <= |es|
    ensures n == RunLength(rules, es) <==> Chain(rules, es[..n]) && (n == |es| || !Mergeable(rules, es[n - 1], es[n]))
  {
    if n > 1 {
      RunLengthIsMaximal(rules, es[1..], n - 1);
      ChainCons(rules, es[0], es[1..][..n - 1]);
      assert es[..n] == [es[0]] + es[1..][..n - 1];
    }
  }

  lemma ChainCons(rules: Rules, e: Event, es: seq<Event>)
    requires es != []
    ensures Chain(rules, [e] + es) <==> Mergeable(rules, e, es[0]) && Chain(rules, es)
  {
    var all := [e] + es;
    assert all[0] == e && all[1] == es[0];
    assert forall i :: 0 <= i < |es| ==> all[i + 1] == es[i];
    if Mergeable(rules, e, es[0]) && Chain(rules, es) {
      forall i, j | 0 <= i < j < |all| ensures Mergeable(rules, all[i], all[j]) {
        assert all[j] == es[j - 1];
        if i == 0 {
          assert j > 1 ==> Mergeable(rules, es[0], es[j - 1]);
        } else {
          assert Mergeable(rules, es[i - 1], es[j - 1]);
        }
      }
    }
    if Chain(rules, all) {
      assert Mergeable(rules, all[0], all[1]);
      forall i, j | 0 <= i < j < |es| ensures Mergeable(rules, es[i], es[j]) {
        assert Mergeable(rules, all[i + 1], all[j + 1]);
      }
    }
  }

  lemma ChainAgrees(rules: Rules, es: seq<Event>, j: nat)
    requires Chain(rules, es) && j < |es|
    ensures Classify(rules, es[0]) == Classify(rules, es[j])
    ensures PromptOf(es[0]) == PromptOf(es[j])
  {
    if j > 0 {
      assert Mergeable(rules, es[0], es[j]);
    }
  }

  /** A run that cannot be extended is flushed as one row. */
  lemma FlushRun(rules: Rules, items: seq<Event>, rest: seq<Event>)
    requires items != [] && Classified(rules, items[0]) && Chain(rules, items)
    requires rest == [] || !Mergeable(rules, items[|items| - 1], rest[0])
    ensures Rows(rules, items + rest) == [Row(rules, items)] + Rows(rules, rest)
  {
    var es, n := items + rest, |items|;
    assert es[..n] == items && es[n..] == rest;
    RunLengthIsMaximal(rules, es, n);
  }

  /** A cutting of es into consecutive pieces: inside a piece any two events belong together, and
      across a cut the neighbours do not. */
  ghost predicate MaximalRuns(rules: Rules, es: seq<Event>, pieces: seq<seq<Event>>)
    decreases |es|
  {
    if es == [] then pieces == []
    else
      && pieces != [] && pieces[0] != [] && pieces[0] <= es && Chain(rules, pieces[0])
      && var n := |pieces[0]|;
         (n == |es| || !Mergeable(rules, es[n - 1], es[n])) && MaximalRuns(rules, es[n..], pieces[1..])
  }

  /** What a piece contributes to the transcript. */
  function Shape(rules: Rules, piece: seq<Event>): seq<Event> {
    if piece == [] then []
    else if Classified(rules, piece[0]) then [Row(rules, piece)] else if Shown(piece[0]) then [piece[0]] else []
  }

  function ShapeAll(rules: Rules, pieces: seq<seq<Event>>): seq<Event> {
    if pieces == [] then [] else Shape(rules, pieces[0]) + ShapeAll(rules, pieces[1..])
  }

  /** There is one cutting into maximal runs, and the rows are its pieces' shapes: every cutting
      with that property gives the projector's output. */
  lemma {:induction false} RowsAreMaximalRuns(rules: Rules, es: seq<Event>, pieces: seq<seq<Event>>)
    requires MaximalRuns(rules, es, pieces)
    ensures Rows(rules, es) == ShapeAll(rules, pieces)
    decreases |es|
  {
    if es != [] {
      var n := |pieces[0]|;
      assert es[..n] == pieces[0];
      RunLengthIsMaximal(rules, es, n);
      RowsAreMaximalRuns(rules, es[n..], pieces[1..]);
    }
  }

  lemma {:induction false} MaximalRunsExist(rules: Rules, es: seq<Event>) returns (pieces: seq<seq<Event>>)
    ensures MaximalRuns(rules, es, pieces)
    decreases |es|
  {
    if es == [] {
      pieces := [];
    } else {
      var n := RunLength(rules, es);
      RunLengthIsMaximal(rules, es, n);
      var rest := MaximalRunsExist(rules, es[n..]);
      pieces := [es[..n]] + rest;
      assert pieces[1..] == rest;
    }
  }

  // ---- The imperative projector

  /** The row under construction. */
  datatype Bucket = Bucket(category: Category, promptId: Option<string>, items: seq<Event>, status: Status)

  ghost predicate BucketOf(rules: Rules, bucket: Option<Bucket>, items: seq<Event>) {
    if bucket.None? then items == []
    else
      && bucket.value.items == items != []
      && Classify(rules, items[0]) == Some(bucket.value.category)
      && bucket.value.promptId == (if PromptOf(items[0]) == Some("") then None else PromptOf(items[0]))
      && bucket.value.status == StatusOf(items)
      && Chain(rules, items)
  }

  predicate CanMerge(bucket: Option<Bucket>, category: Category, promptId: Option<string>) {
    bucket.Some? && bucket.value.category == category && bucket.value.promptId == promptId && promptId.Some?
  }

  lemma CanMergeIffMergeable(rules: Rules, bucket: Option<Bucket>, items: seq<Event>, e: Event)
    requires BucketOf(rules, bucket, items) && Classified(rules, e)
    ensures CanMerge(bucket, Classify(rules, e).value, PromptOf(e))
       <==> items != [] && Mergeable(rules, items[|items| - 1], e)
  {
    if items != [] {
      ChainAgrees(rules, items, |items| - 1);
    }
  }

  /** The collector's variables after the given cleaned details. */
  ghost predicate Collected(offered: seq<Detail>, seen: set<Text>, details: seq<Detail>, total: nat) {
    && seen == Keys(offered) && total == |FirstOfEachKey(offered)|
    && details == ShortenAll(Cap(FirstOfEachKey(offered), MAX_DETAILS))
  }

  method Push(rules: Rules, raw: Detail, seen: set<Text>, details: seq<Detail>, total: nat, ghost offered: seq<Detail>)
    returns (seen': set<Text>, details': seq<Detail>, total': nat)
    requires Collected(offered, seen, details, total)
    ensures Collected(offered + Offered(rules, [raw]), seen', details', total')
  {
    seen', details', total' := seen, details, total;
    var normalized := rules.cleanse(raw.content);
    assert [raw][1..] == [] && Offered(rules, [raw][1..]) == [];
    if normalized == [] {
      assert offered + [] == offered;
      return;
    }
    var entry := Detail(raw.tool, normalized);
    assert Offered(rules, [raw]) == [entry];
    CollectOneMore(offered, entry, seen, details, total);
    if Key(entry) in seen {
      return;
    }
    seen' := seen + {Key(entry)};
    total' := total + 1;
    if |details| < MAX_DETAILS {
      details' := details + [Shorten(entry)];
    }
  }

  lemma CollectOneMore(offered: seq<Detail>, entry: Detail, seen: set<Text>, details: seq<Detail>, total: nat)
    requires Collected(offered, seen, details, total)
    ensures Key(entry) in seen ==> Collected(offered + [entry], seen, details, total)
    ensures Key(entry) !in seen ==>
      Collected(offered + [entry], seen + {Key(entry)},
                if |details| < MAX_DETAILS then details + [Shorten(entry)] else details, total + 1)
  {
    OfferOne(offered, entry);
    CapOneMore(FirstOfEachKey(offered), entry);
  }

  lemma CapOneMore(ds: seq<Detail>, entry: Detail)
    ensures var shown := ShortenAll(Cap(ds, MAX_DETAILS));
      ShortenAll(Cap(ds + [entry], MAX_DETAILS)) == if |shown| < MAX_DETAILS then shown + [Shorten(entry)] else shown
  {
  }

  method PushAll(rules: Rules, raw: seq<Detail>, seen: set<Text>, details: seq<Detail>, total: nat,
                 ghost offered: seq<Detail>)
    returns (seen': set<Text>, details': seq<Detail>, total': nat)
    requires Collected(offered, seen, details, total)
    ensures Collected(offered + Offered(rules, raw), seen', details', total')
  {
    seen', details', total' := seen, details, total;
    assert offered + [] == offered && raw[..0] == [];
    for k := 0 to |raw|
      invariant Collected(offered + Offered(rules, raw[..k]), seen', details', total')
    {
      seen', details', total' := Push(rules, raw[k], seen', details', total', offered + Offered(rules, raw[..k]));
      OfferedConcat(rules, raw[..k], [raw[k]]);
      assert raw[..k + 1] == raw[..k] + [raw[k]];
      assert offered + Offered(rules, raw[..k + 1]) == offered + Offered(rules, raw[..k]) + Offered(rules, [raw[k]]);
    }
    assert raw[..|raw|] == raw;
  }

  method CollectDetails(rules: Rules, items: seq<Event>) returns (details: seq<Detail>, overflow: nat)
    ensures details == ShortenAll(Cap(Entries(rules, items), MAX_DETAILS))
    ensures overflow == |Entries(rules, items)| - |details|
  {
    var seen: set<Text> := {};
    var total: nat := 0;
    details := [];
    for i := 0 to |items|
      invariant Collected(Offered(rules, AllDetails(rules, items[..i])), seen, details, total)
    {
      ghost var before := AllDetails(rules, items[..i]);
      var raw := DetailsOf(rules, items[i]);
      seen, details, total := PushAll(rules, raw, seen, details, total, Offered(rules, before));
      OfferedByOneMore(rules, items, i);
    }
    assert items[..|items|] == items;
    overflow := if total > |details| then total - |details| else 0;
  }

  lemma OfferedByOneMore(rules: Rules, items: seq<Event>, i: nat)
    requires i < |items|
    ensures Offered(rules, AllDetails(rules, items[..i + 1]))
      == Offered(rules, AllDetails(rules, items[..i])) + Offered(rules, DetailsOf(rules, items[i]))
  {
    assert items[..i + 1] == items[..i] + [items[i]];
    AllDetailsSnoc(rules, items[..i], items[i]);
    OfferedConcat(rules, AllDetails(rules, items[..i]), DetailsOf(rules, items[i]));
  }

  lemma {:induction false} AllDetailsSnoc(rules: Rules, items: seq<Event>, e: Event)
    ensures AllDetails(rules, items + [e]) == AllDetails(rules, items) + DetailsOf(rules, e)
  {
    if items == [] {
      assert ([] + [e])[1..] == [];
    } else {
      assert (items + [e])[1..] == items[1..] + [e];
      AllDetailsSnoc(rules, items[1..], e);
    }
  }

  lemma {:induction false} OfferedConcat(rules: Rules, a: seq<Detail>, b: seq<Detail>)
    ensures Offered(rules, a + b) == Offered(rules, a) + Offered(rules, b)
  {
    if a == [] {
      assert a + b == b;
    } else {
      assert (a + b)[1..] == a[1..] + b;
      OfferedConcat(rules, a[1..], b);
    }
  }

  lemma OfferOne(before: seq<Detail>, entry: Detail)
    ensures Keys(before + [entry]) == Keys(before) + {Key(entry)}
    ensures FirstOfEachKey(before + [entry])
         == if Key(entry) in Keys(before) then FirstOfEachKey(before) else FirstOfEachKey(before) + [entry]
  {
    assert (before + [entry])[..|before|] == before;
  }

  /** The row of the open bucket. */
  method RowOf(rules: Rules, open: Bucket, ghost items: seq<Event>) returns (row: Event)
    requires BucketOf(rules, Some(open), items)
    ensures row == Row(rules, items)
  {
    var details, overflow := CollectDetails(rules, open.items);
    var first, last := open.items[0], open.items[|open.items| - 1];
    row := Activity(
      "customer-" + CategoryName(open.category) + "-" + first.id + "-" + last.id,
      open.category, open.status, |open.items|, details,
      if overflow > 0 then Some(overflow) else None,
      open.promptId);
  }

  /** Appends the row of the open bucket, if there is one; next is what the list goes on with. */
  method FlushBucket(rules: Rules, result: seq<Event>, bucket: Option<Bucket>, ghost items: seq<Event>,
                     ghost next: seq<Event>)
    returns (extended: seq<Event>)
    requires BucketOf(rules, bucket, items)
    requires items == [] || next == [] || !Mergeable(rules, items[|items| - 1], next[0])
    ensures extended + Rows(rules, next) == result + Rows(rules, items + next)
    ensures extended == if items == [] then result else result + [Row(rules, items)]
  {
    if bucket.None? {
      assert items + next == next;
      return result;
    }
    var row := RowOf(rules, bucket.value, items);
    FlushRun(rules, items, next);
    extended := result + [row];
    Reassociate(result, [row], Rows(rules, next));
  }

  lemma Reassociate<T>(a: seq<T>, b: seq<T>, c: seq<T>)
    ensures (a + b) + c == a + (b + c)
  {
  }

  /** One turn of the projector's loop; rest is what is still to be read, fan-out calls aside. */
  method Consume(rules: Rules, event: Event, result: seq<Event>, bucket: Option<Bucket>, ghost items: seq<Event>,
                 ghost rest: seq<Event>)
    returns (result': seq<Event>, bucket': Option<Bucket>, ghost items': seq<Event>)
    requires BucketOf(rules, bucket, items)
    ensures BucketOf(rules, bucket', items')
    ensures result' + Rows(rules, items' + rest)
         == result + Rows(rules, items + if IsFanOut(rules, event) then rest else [event] + rest)
  {
    result', bucket', items' := result, bucket, items;
    if IsFanOut(rules, event) {
      return;
    }
    if Classify(rules, event).Some? {
      result', bucket', items' := ConsumeClassified(rules, event, result, bucket, items, rest);
      return;
    }
    result' := ConsumeOther(rules, event, result, bucket, items, rest);
    bucket' := None;
    items' := [];
  }

  /** Any other event ends the open bucket and is passed on or dropped. */
  method ConsumeOther(rules: Rules, event: Event, result: seq<Event>, bucket: Option<Bucket>, ghost items: seq<Event>,
                      ghost rest: seq<Event>)
    returns (result': seq<Event>)
    requires BucketOf(rules, bucket, items) && !Classified(rules, event)
    ensures result' + Rows(rules, [] + rest) == result + Rows(rules, items + ([event] + rest))
  {
    result' := FlushBucket(rules, result, bucket, items, [event] + rest);
    RowsOther(rules, event, rest);
    Regroup(result', event, Rows(rules, [] + rest));
    if Shown(event) {
      result' := result' + [event];
    }
  }

  lemma Regroup(a: seq<Event>, e: Event, b: seq<Event>)
    ensures (a + [e]) + b == a + ([e] + b)
  {
  }

  /** A classified event joins the open bucket or, after a flush, begins the next. */
  method ConsumeClassified(rules: Rules, event: Event, result: seq<Event>, bucket: Option<Bucket>,
                           ghost items: seq<Event>, ghost rest: seq<Event>)
    returns (result': seq<Event>, bucket': Option<Bucket>, ghost items': seq<Event>)
    requires BucketOf(rules, bucket, items) && Classified(rules, event)
    ensures BucketOf(rules, bucket', items')
    ensures result' + Rows(rules, items' + rest) == result + Rows(rules, items + ([event] + rest))
  {
    result', items' := result, items;
    var category, promptId := Classify(rules, event).value, PromptOf(event);
    CanMergeIffMergeable(rules, bucket, items, event);
    var open;
    if CanMerge(bucket, category, promptId) {
      open := bucket.value;
    } else {
      result' := FlushBucket(rules, result, bucket, items, [event] + rest);
      open := Bucket(category, if promptId == Some("") then None else promptId, [], Completed);
      items' := [];
      assert [] + ([event] + rest) == [event] + rest;
    }
    PushToBucket(rules, open, items', event);
    assert items' + ([event] + rest) == items' + [event] + rest;
    bucket' := Some(open.(items := open.items + [event], status := MergeStatus(open.status, event)));
    items' := items' + [event];
  }

  method ProjectCustomerActivityEvents(rules: Rules, events: seq<Event>) returns (result: seq<Event>)
    ensures result == Project(rules, events)
    ensures Reads(rules, events, result)
  {
    result := [];
    var bucket: Option<Bucket> := None;
    ghost var items: seq<Event> := [];
    assert events[0..] == events && [] + DropFanOut(rules, events) == DropFanOut(rules, events);
    for i := 0 to |events|
      invariant BucketOf(rules, bucket, items)
      invariant Project(rules, events) == result + Rows(rules, items + DropFanOut(rules, events[i..]))
    {
      DropStep(rules, events, i);
      result, bucket, items := Consume(rules, events[i], result, bucket, items, DropFanOut(rules, events[i + 1..]));
    }
    result := FlushBucket(rules, result, bucket, items, []);
    assert events[|events|..] == [];
    ProjectionReads(rules, events);
  }

  lemma DropStep(rules: Rules, events: seq<Event>, i: nat)
    requires i < |events|
    ensures DropFanOut(rules, events[i..])
         == if IsFanOut(rules, events[i]) then DropFanOut(rules, events[i + 1..])
            else [events[i]] + DropFanOut(rules, events[i + 1..])
  {
    assert events[i..][1..] == events[i + 1..];
  }

  lemma RowsOther(rules: Rules, e: Event, rest: seq<Event>)
    requires !Classified(rules, e)
    ensures Rows(rules, [e] + rest) == if Shown(e) then [e] + Rows(rules, [] + rest) else Rows(rules, [] + rest)
  {
    assert ([e] + rest)[1..] == rest && [] + rest == rest;
  }

  lemma ExtendChain(rules: Rules, items: seq<Event>, e: Event)
    requires Chain(rules, items) && (items == [] || Mergeable(rules, items[|items| - 1], e))
    ensures Chain(rules, items + [e])
  {
    var es := items + [e];
    forall i, j | 0 <= i < j < |es| ensures Mergeable(rules, es[i], es[j]) {
      if j < |items| {
        assert Mergeable(rules, items[i], items[j]);
      } else if i < |items| - 1 {
        assert Mergeable(rules, items[i], items[|items| - 1]);
      }
    }
  }

  /** One more event in the open bucket, or the first in a new one. */
  lemma PushToBucket(rules: Rules, open: Bucket, items: seq<Event>, e: Event)
    requires Classified(rules, e)
    requires if items == []
      then open == Bucket(Classify(rules, e).value, if PromptOf(e) == Some("") then None
        else PromptOf(e), [], Completed)
      else BucketOf(rules, Some(open), items) && Mergeable(rules, items[|items| - 1], e)
    ensures BucketOf(rules, Some(open.(items := open.items + [e], status := MergeStatus(open.status, e))), items + [e])
  {
    ExtendChain(rules, items, e);
    ExtendStatus(items, e);
    assert (items + [e])[0] == if items == [] then e else items[0];
  }

  lemma ExtendStatus(items: seq<Event>, e: Event)
    ensures StatusOf(items + [e]) == MergeStatus(StatusOf(items), e)
  {
    assert (items + [e])[..|items|] == items;
  }

  // ---- What the projection keeps

  function CountClassified(rules: Rules, es: seq<Event>): nat {
    if es == [] then 0
    else (if !IsFanOut(rules, es[0]) && Classified(rules, es[0]) then 1 else 0) + CountClassified(rules, es[1..])
  }

  function ActivityTotal(es: seq<Event>): nat {
    if es == [] then 0 else (if es[0].Activity? then es[0].count else 0) + ActivityTotal(es[1..])
  }

  lemma {:induction false} CountClassifiedDrop(rules: Rules, es: seq<Event>)
    ensures CountClassified(rules, DropFanOut(rules, es)) == CountClassified(rules, es)
    ensures ActivityTotal(DropFanOut(rules, es)) == ActivityTotal(es)
    ensures forall e :: e in DropFanOut(rules, es) ==> !IsFanOut(rules, e)
  {
    if es != [] {
      CountClassifiedDrop(rules, es[1..]);
      var rest := DropFanOut(rules, es[1..]);
      assert ([es[0]] + rest)[1..] == rest && [] + rest == rest;
    }
  }

  lemma {:induction false} CountRun(rules: Rules, es: seq<Event>, n: nat)
    requires n <= |es| && (forall e :: e in es ==> !IsFanOut(rules, e))
    requires forall i :: 0 <= i < n ==> Classified(rules, es[i])
    ensures CountClassified(rules, es) == n + CountClassified(rules, es[n..])
    ensures ActivityTotal(es) == ActivityTotal(es[n..])
  {
    if n == 0 {
      assert es[0..] == es;
    } else {
      CountRun(rules, es[1..], n - 1);
      assert es[1..][n - 1..] == es[n..];
    }
  }

  lemma {:induction false} RowsConserve(rules: Rules, es: seq<Event>)
    requires forall e :: e in es ==> !IsFanOut(rules, e)
    ensures ActivityTotal(Rows(rules, es)) == CountClassified(rules, es) + ActivityTotal(es)
    decreases |es|
  {
    if es != [] {
      if Classified(rules, es[0]) {
        var n := RunLength(rules, es);
        RunLengthIsMaximal(rules, es, n);
        forall i | 0 <= i < n ensures Classified(rules, es[i]) {
          ChainAgrees(rules, es[..n], i);
        }
        CountRun(rules, es, n);
        RowsConserve(rules, es[n..]);
        var rest := Rows(rules, es[n..]);
        assert ([Row(rules, es[..n])] + rest)[1..] == rest;
      } else {
        RowsConserve(rules, es[1..]);
        var rest := Rows(rules, es[1..]);
        assert ([es[0]] + rest)[1..] == rest && [] + rest == rest;
      }
    }
  }

  /** No tool activity is lost or counted twice: the counts of the rows add up to the classified
      events, fan-out calls aside, plus the counts of rows that were already in the input. */
  lemma ProjectionConserves(rules: Rules, events: seq<Event>)
    ensures ActivityTotal(Project(rules, events)) == CountClassified(rules, events) + ActivityTotal(events)
  {
    CountClassifiedDrop(rules, events);
    RowsConserve(rules, DropFanOut(rules, events));
  }

  /** An event the projection would copy as it stands. */
  predicate Settled(rules: Rules, e: Event) {
    !IsFanOut(rules, e) && !Classified(rules, e) && Shown(e)
  }

  lemma {:induction false} RowsSettled(rules: Rules, es: seq<Event>)
    requires forall e :: e in es ==> !IsFanOut(rules, e)
    ensures forall e :: e in Rows(rules, es) ==> Settled(rules, e)
    decreases |es|
  {
    if es != [] {
      RowsSettled(rules, if Classified(rules, es[0]) then es[RunLength(rules, es)..] else es[1..]);
    }
  }

  lemma {:induction false} SettledStays(rules: Rules, es: seq<Event>)
    requires forall e :: e in es ==> Settled(rules, e)
    ensures DropFanOut(rules, es) == es && Rows(rules, es) == es
  {
    if es != [] {
      SettledStays(rules, es[1..]);
      assert Settled(rules, es[0]);
      SettledFirst(rules, es[0], es[1..]);
      assert es == [es[0]] + es[1..];
    }
  }

  lemma SettledFirst(rules: Rules, e: Event, rest: seq<Event>)
    requires Settled(rules, e)
    ensures DropFanOut(rules, [e] + rest) == [e] + DropFanOut(rules, rest)
    ensures Rows(rules, [e] + rest) == [e] + Rows(rules, rest)
  {
    assert ([e] + rest)[1..] == rest;
  }

  /** Projecting a projected transcript changes nothing. */
  lemma ProjectionIsIdempotent(rules: Rules, events: seq<Event>)
    ensures Project(rules, Project(rules, events)) == Project(rules, events)
  {
    CountClassifiedDrop(rules, events);
    RowsSettled(rules, DropFanOut(rules, events));
    SettledStays(rules, Project(rules, events));
  }

  // ---- What the details of a row are

  /** No earlier detail has the same key. */
  ghost predicate IsFirst(ds: seq<Detail>, k: nat)
    requires k < |ds|
  {
    forall j :: 0 <= j < k ==> Key(ds[j]) != Key(ds[k])
  }

  lemma IsFirstIffNewKey(ds: seq<Detail>, k: nat)
    requires k < |ds|
    ensures IsFirst(ds, k) <==> Key(ds[k]) !in Keys(ds[..k])
  {
    if Key(ds[k]) in Keys(ds[..k]) {
      var d :| d in ds[..k] && Key(d) == Key(ds[k]);
      var j :| 0 <= j < k && ds[..k][j] == d;
      assert Key(ds[j]) == Key(ds[k]);
    } else {
      assert forall j :: 0 <= j < k ==> ds[j] in ds[..k];
    }
  }

  /** The positions of the details that are first under their key. */
  ghost function FirstPositions(ds: seq<Detail>, n: nat): (at: seq<nat>)
    requires n <= |ds|
    ensures forall i :: 0 <= i < |at| ==> at[i] < n
  {
    if n == 0 then []
    else if IsFirst(ds, n - 1) then FirstPositions(ds, n - 1) + [n - 1]
    else FirstPositions(ds, n - 1)
  }

  /** They are all of them, in increasing order. */
  lemma FirstPositionsComplete(ds: seq<Detail>, n: nat)
    requires n <= |ds|
    ensures var at := FirstPositions(ds, n);
      && (forall i, j :: 0 <= i < j < |at| ==> at[i] < at[j])
      && (forall k :: 0 <= k < n ==> (k in at <==> IsFirst(ds, k)))
  {
    FirstPositionsRise(ds, n);
    FirstPositionsAreAll(ds, n);
  }

  lemma {:induction false} FirstPositionsRise(ds: seq<Detail>, n: nat)
    requires n <= |ds|
    ensures forall i, j :: 0 <= i < j < |FirstPositions(ds, n)| ==> FirstPositions(ds, n)[i] < FirstPositions(ds, n)[j]
  {
    if n > 0 {
      FirstPositionsRise(ds, n - 1);
    }
  }

  lemma {:induction false} FirstPositionsAreAll(ds: seq<Detail>, n: nat)
    requires n <= |ds|
    ensures forall k :: 0 <= k < n ==> (k in FirstPositions(ds, n) <==> IsFirst(ds, k))
  {
    if n > 0 {
      FirstPositionsAreAll(ds, n - 1);
      var before := FirstPositions(ds, n - 1);
      assert FirstPositions(ds, n) == if IsFirst(ds, n - 1) then before + [n - 1] else before;
    }
  }

  function Pick(ds: seq<Detail>, at: seq<nat>): (picked: seq<Detail>)
    requires forall i :: 0 <= i < |at| ==> at[i] < |ds|
    ensures |picked| == |at| && forall i :: 0 <= i < |at| ==> picked[i] == ds[at[i]]
  {
    seq(|at|, i requires 0 <= i < |at| => ds[at[i]])
  }

  lemma PickOneMore(ds: seq<Detail>, at: seq<nat>, k: nat)
    requires k < |ds| && forall i :: 0 <= i < |at| ==> at[i] < |ds|
    ensures Pick(ds, at + [k]) == Pick(ds, at) + [ds[k]]
  {
  }

  /** FirstOfEachKey picks, for every key, its first detail. */
  lemma {:induction false} FirstOfEachKeyIsFirst(ds: seq<Detail>, n: nat)
    requires n <= |ds|
    ensures var at := FirstPositions(ds, n);
      FirstOfEachKey(ds[..n]) == Pick(ds, at)
  {
    if n > 0 {
      var front := ds[..n - 1];
      FirstOfEachKeyIsFirst(ds, n - 1);
      IsFirstIffNewKey(ds, n - 1);
      assert ds[..n] == front + [ds[n - 1]];
      OfferOne(front, ds[n - 1]);
      PickOneMore(ds, FirstPositions(ds, n - 1), n - 1);
    }
  }

  lemma {:induction false} OneEntryForEachKey(ds: seq<Detail>)
    ensures |FirstOfEachKey(ds)| == |Keys(ds)|
  {
    if ds == [] {
      assert Keys(ds) == {};
    } else {
      var front, last := ds[..|ds| - 1], ds[|ds| - 1];
      OneEntryForEachKey(front);
      assert ds == front + [last];
      OfferOne(front, last);
      assert Key(last) in Keys(front) ==> Keys(ds) == Keys(front);
    }
  }

  /** A row's details and overflow: the details are the first five first-of-their-key entries in
      order of appearance, and with the overflow they account for every distinct key. */
  lemma DetailsAccountForEveryKey(rules: Rules, items: seq<Event>)
    requires items != [] && Classified(rules, items[0])
    ensures var row, offered := Row(rules, items), Offers(rules, items);
      && |row.details| + (if row.overflow.Some? then row.overflow.value else 0) == |Keys(offered)|
      && |row.details| == (if |Keys(offered)| < MAX_DETAILS then |Keys(offered)| else MAX_DETAILS)
      && (row.overflow.Some? <==> |Keys(offered)| > MAX_DETAILS)
      && |FirstPositions(offered, |offered|)| == |Keys(offered)|
      && forall i :: 0 <= i < |row.details| ==>
        row.details[i] == Shorten(offered[FirstPositions(offered, |offered|)[i]])
  {
    var offered := Offers(rules, items);
    FirstOfEachKeyIsFirst(offered, |offered|);
    OneEntryForEachKey(offered);
    assert offered[..|offered|] == offered;
  }

  /** One of the names begins with another one and a NUL. */
  ghost predicate NestedNames(names: set<Text>) {
    exists t, u :: t in names && u in names && u + [NUL] <= t
  }

  /** Details of tools with these names are told apart by their keys. */
  ghost predicate KeysIdentify(names: set<Text>) {
    forall a: Detail, b: Detail :: a.tool in names && b.tool in names && Key(a) == Key(b) ==> a == b
  }

  lemma EqualKeysNest(a: Detail, b: Detail)
    requires Key(a) == Key(b) && a != b && |a.tool| <= |b.tool|
    ensures a.tool + [NUL] <= b.tool
  {
    var key := Key(a);
    assert key[..|a.tool|] == a.tool && key[|a.tool| + 1..] == a.content;
    assert key[..|b.tool|] == b.tool && key[|b.tool| + 1..] == b.content;
    assert key[|a.tool|] == NUL;
  }

  lemma NestedNamesMerge(t: Text, u: Text) returns (a: Detail, b: Detail)
    requires u + [NUL] <= t
    ensures a.tool == t && b.tool == u && a != b && Key(a) == Key(b)
  {
    a, b := Detail(t, [NUL]), Detail(u, t[|u| + 1..] + [NUL] + [NUL]);
    assert t == u + [NUL] + t[|u| + 1..];
  }

  /** Keys stand for (tool, content) pairs exactly when no tool's name is another one's followed by a
      NUL and more. */
  lemma KeysIdentifyIff(names: set<Text>)
    ensures KeysIdentify(names) <==> !NestedNames(names)
  {
    if t, u :| t in names && u in names && u + [NUL] <= t {
      var a, b := NestedNamesMerge(t, u);
    }
    forall a: Detail, b: Detail | a.tool in names && b.tool in names && Key(a) == Key(b) && a != b
      ensures NestedNames(names) {
      if |a.tool| <= |b.tool| {
        EqualKeysNest(a, b);
      } else {
        EqualKeysNest(b, a);
      }
    }
  }

  function Pairs(ds: seq<Detail>): set<Detail> { set d | d in ds }

  function ToolNames(ds: seq<Detail>): set<Text> { set d | d in ds :: d.tool }

  lemma PairsOneMore(front: seq<Detail>, last: Detail)
    ensures Pairs(front + [last]) == Pairs(front) + {last}
  {
  }

  /** No two different details of the list share a key. */
  ghost predicate OwnKeys(ds: seq<Detail>) {
    forall d, e :: d in ds && e in ds && Key(d) == Key(e) ==> d == e
  }

  lemma OwnKeysOneMore(front: seq<Detail>, last: Detail)
    ensures OwnKeys(front + [last]) <==> OwnKeys(front) && (last in front || Key(last) !in Keys(front))
    ensures last in front ==> Key(last) in Keys(front)
  {
    assert forall d :: d in front + [last] <==> d in front || d == last;
    assert forall d :: d in front ==> Key(d) in Keys(front);
    if Key(last) in Keys(front) && last !in front {
      var d :| d in front && Key(d) == Key(last);
      assert d != last;
    }
  }

  /** There are never more keys than pairs, and as many exactly when no two different pairs share one. */
  lemma {:induction false} KeysCountPairs(ds: seq<Detail>)
    ensures |Keys(ds)| <= |Pairs(ds)|
    ensures |Keys(ds)| == |Pairs(ds)| <==> OwnKeys(ds)
  {
    if ds == [] {
      assert Keys(ds) == {} && Pairs(ds) == {};
    } else {
      var front, last := ds[..|ds| - 1], ds[|ds| - 1];
      KeysCountPairs(front);
      assert ds == front + [last];
      OwnKeysOneMore(front, last);
      CountsOneMore(front, last);
    }
  }

  lemma CountsOneMore(front: seq<Detail>, last: Detail)
    ensures |Pairs(front + [last])| == |Pairs(front)| + if last in front then 0 else 1
    ensures |Keys(front + [last])| == |Keys(front)| + if Key(last) in Keys(front) then 0 else 1
  {
    PairsOneMore(front, last);
    OfferOne(front, last);
    assert last in front ==> Pairs(front) + {last} == Pairs(front);
    assert Key(last) in Keys(front) ==> Keys(front) + {Key(last)} == Keys(front);
  }

  /** So a row's details and overflow count the distinct (tool, content) pairs exactly when its details
      have keys of their own, which they do whenever no tool name is nested in another. */
  lemma DetailsCountPairs(rules: Rules, items: seq<Event>)
    requires items != [] && Classified(rules, items[0])
    ensures var row, offered := Row(rules, items), Offers(rules, items);
      var total := |row.details| + (if row.overflow.Some? then row.overflow.value else 0);
      && total <= |Pairs(offered)|
      && (total == |Pairs(offered)| <==> OwnKeys(offered))
      && (!NestedNames(ToolNames(offered)) ==> total == |Pairs(offered)|)
  {
    var offered := Offers(rules, items);
    DetailsAccountForEveryKey(rules, items);
    KeysCountPairs(offered);
    KeysIdentifyIff(ToolNames(offered));
    assert forall d :: d in offered ==> d.tool in ToolNames(offered);
  }

  /** An instance: two details of nested names share a key, and the second is swallowed. */
  lemma NestedNamesLoseADetail()
    ensures var a, b := Detail([1, NUL, 2], [3]), Detail([1], [2, NUL, 3]);
      a != b && Key(a) == Key(b) && FirstOfEachKey([a, b]) == [a]
  {
    var a, b := Detail([1, NUL, 2], [3]), Detail([1], [2, NUL, 3]);
    assert Key(a) == [1, NUL, 2, NUL, 3] == Key(b);
    assert [a, b][..1] == [a] && [a][..0] == [];
    OfferOne([], a);
    OfferOne([a], b);
    assert [] + [a] == [a] && [a] + [b] == [a, b];
  }

  // ---- What the customer reads, in terms of the fields of the events

  /** The event is activity of this category. */
  predicate IsActivity(rules: Rules, e: Event, c: Category) {
    (e.Patch? && c == Change) || (e.ToolCall? && rules.classifyTool(e) == Some(c))
  }

  ghost predicate IsSomeActivity(rules: Rules, e: Event) {
    exists c :: IsActivity(rules, e, c)
  }

  /** Two neighbours share a row: activity of one category under one prompt that has an identifier. */
  ghost predicate Together(rules: Rules, a: Event, b: Event) {
    && (exists c :: IsActivity(rules, a, c) && IsActivity(rules, b, c))
    && a.promptId == b.promptId && a.promptId.Some? && a.promptId.value != ""
  }

  /** The fan-out calls of patches are left out, and nothing else is. */
  ghost predicate IsKept(rules: Rules, events: seq<Event>, kept: seq<Event>, at: seq<nat>) {
    && |at| == |kept| && (forall k :: 0 <= k < |at| ==> at[k] < |events| && kept[k] == events[at[k]])
    && (forall k, l :: 0 <= k < l < |at| ==> at[k] < at[l])
    && forall i {:trigger events[i]} :: 0 <= i < |events| ==>
         (i in at <==> !(events[i].ToolCall? && rules.lower(events[i].tool) == "apply_patch"))
  }

  function Flatten<T>(lists: seq<seq<T>>): seq<T> {
    if lists == [] then [] else lists[0] + Flatten(lists[1..])
  }

  ghost predicate Failed(items: seq<Event>) {
    exists e :: e in items && e.ToolCall? && e.toolStatus == Some(Error) && !e.commandFailure
  }

  ghost predicate StillRunning(items: seq<Event>) {
    exists e :: e in items && e.ToolCall? && e.toolStatus == Some(Running)
  }

  /** A row's status: an error if a tool failed other than through the command it ran, else running if
      a tool is running, else completed. */
  lemma {:induction false} StatusIsWorst(items: seq<Event>)
    ensures StatusOf(items)
      == if Failed(items) then Error else if StillRunning(items) then Running else Completed
  {
    if items != [] {
      var front, last := items[..|items| - 1], items[|items| - 1];
      StatusIsWorst(front);
      assert items == front + [last];
      assert last.ToolCall? && last.toolStatus == Some(Error) && !last.commandFailure ==> Failed(items);
      assert last.ToolCall? && last.toolStatus == Some(Running) ==> StillRunning(items);
      assert forall e :: e in items <==> e in front || e == last;
    }
  }

  /** The offered detail k is the first of its tool and content. */
  ghost predicate IsNew(offered: seq<Detail>, k: nat)
    requires k < |offered|
  {
    forall j :: 0 <= j < k ==>
      offered[j].tool + [0] + offered[j].content != offered[k].tool + [0] + offered[k].content
  }

  predicate IsShortened(d: Detail, shown: Detail) {
    && shown.tool == d.tool
    && (if |d.content| <= 120 then shown.content == d.content
        else |shown.content| == 120 && shown.content[..119] == d.content[..119] && shown.content[119] == 0x2026)
  }

  /** The first five new details, shortened, and how many more there are. */
  ghost predicate ShowsDetails(offered: seq<Detail>, details: seq<Detail>, overflow: Option<nat>) {
    exists at :: AreNew(offered, at) && ShowsFirstFive(offered, at, details, overflow)
  }

  /** The positions of the new details, in order. */
  ghost predicate AreNew(offered: seq<Detail>, at: seq<nat>) {
    && (forall k, l :: 0 <= k < l < |at| ==> at[k] < at[l])
    && (forall k :: 0 <= k < |at| ==> at[k] < |offered|)
    && (forall k :: 0 <= k < |offered| ==> (k in at <==> IsNew(offered, k)))
  }

  predicate ShowsFirstFive(offered: seq<Detail>, at: seq<nat>, details: seq<Detail>, overflow: Option<nat>)
    requires forall k :: 0 <= k < |at| ==> at[k] < |offered|
  {
    && |details| == (if |at| < 5 then |at| else 5)
    && (forall i :: 0 <= i < |details| ==> IsShortened(offered[at[i]], details[i]))
    && overflow == if |at| > 5 then Some(|at| - 5) else None
  }

  /** The identifier of a row: its category and the first and the last of its events. */
  predicate IsRowId(id: string, c: Category, first: string, last: string) {
    match c
    case Inspect => id == "customer-" + "inspect" + "-" + first + "-" + last
    case Change => id == "customer-" + "change" + "-" + first + "-" + last
    case Verify => id == "customer-" + "verify" + "-" + first + "-" + last
    case Plan => id == "customer-" + "plan" + "-" + first + "-" + last
    case Git => id == "customer-" + "git" + "-" + first + "-" + last
    case Command => id == "customer-" + "command" + "-" + first + "-" + last
  }

  ghost predicate IsRowOf(rules: Rules, items: seq<Event>, row: Event)
    requires items != []
  {
    && row.Activity? && row.count == |items|
    && (forall e :: e in items ==> IsActivity(rules, e, row.category))
    && (forall e :: e in items ==>
          row.promptId == if e.promptId.Some? && e.promptId.value != "" then e.promptId else None)
    && row.status == (if Failed(items) then Error else if StillRunning(items) then Running else Completed)
    && IsRowId(row.id, row.category, items[0].id, items[|items| - 1].id)
    && ShowsDetails(Offers(rules, items), row.details, row.overflow)
  }

  /** Everything else is passed on, save internal events and the timeline's internal ones. */
  ghost predicate IsPassedOn(e: Event, shown: seq<Event>) {
    if e.RawAgentRuntime? || e.ToolTruncated? then shown == []
    else if e.AgentTimeline? && e.eventType != "publish_gate.result" && e.eventType != "verification.result"
            && e.eventType != "git.commit" && e.eventType != "git.push" && e.eventType != "pr.open" then shown == []
    else shown == [e]
  }

  /** What one piece of the kept events becomes. */
  ghost predicate Becomes(rules: Rules, piece: seq<Event>, shown: seq<Event>) {
    && piece != []
    && (forall i :: 0 <= i < |piece| - 1 ==> Together(rules, piece[i], piece[i + 1]))
    && if IsSomeActivity(rules, piece[0]) then |shown| == 1 && IsRowOf(rules, piece, shown[0])
       else |piece| == 1 && IsPassedOn(piece[0], shown)
  }

  /** The kept events cut where neighbours do not share a row, and piece by piece what is shown. */
  ghost predicate Tells(rules: Rules, kept: seq<Event>, pieces: seq<seq<Event>>, shown: seq<seq<Event>>,
                        result: seq<Event>) {
    && kept == Flatten(pieces) && result == Flatten(shown) && |pieces| == |shown|
    && (forall k :: 0 <= k < |pieces| ==> Becomes(rules, pieces[k], shown[k]))
    && (forall k :: 0 < k < |pieces| ==> Apart(rules, pieces[k - 1], pieces[k]))
  }

  ghost predicate Apart(rules: Rules, a: seq<Event>, b: seq<Event>) {
    a != [] && b != [] && !Together(rules, a[|a| - 1], b[0])
  }

  ghost predicate Reads(rules: Rules, events: seq<Event>, result: seq<Event>) {
    exists kept, at, pieces, shown :: IsKept(rules, events, kept, at) && Tells(rules, kept, pieces, shown, result)
  }

  // ---- The rows are what the customer is to read

  lemma ClassifiedIsActivity(rules: Rules, e: Event)
    ensures IsSomeActivity(rules, e) <==> Classified(rules, e)
    ensures forall c :: IsActivity(rules, e, c) <==> Classify(rules, e) == Some(c)
  {
    if Classified(rules, e) {
      assert IsActivity(rules, e, Classify(rules, e).value);
    }
  }

  lemma TogetherIsMergeable(rules: Rules, a: Event, b: Event)
    ensures Together(rules, a, b) <==> Mergeable(rules, a, b)
  {
    ClassifiedIsActivity(rules, a);
    ClassifiedIsActivity(rules, b);
    if Mergeable(rules, a, b) {
      assert IsActivity(rules, a, Classify(rules, a).value) && IsActivity(rules, b, Classify(rules, a).value);
    }
  }

  lemma ChainIsTogether(rules: Rules, es: seq<Event>)
    requires Chain(rules, es)
    ensures forall i :: 0 <= i < |es| - 1 ==> Together(rules, es[i], es[i + 1])
  {
    forall i | 0 <= i < |es| - 1 ensures Together(rules, es[i], es[i + 1]) {
      TogetherIsMergeable(rules, es[i], es[i + 1]);
    }
  }

  /** What a list of events offers: event by event, a tool call its one detail and a patch its files,
      each cleaned and dropped when nothing is left. */
  lemma OffersByEvent(rules: Rules, a: seq<Event>, b: seq<Event>)
    ensures Offers(rules, []) == [] && Offers(rules, a + b) == Offers(rules, a) + Offers(rules, b)
    ensures forall e :: Offers(rules, [e]) == Offered(rules, DetailsOf(rules, e))
  {
    AllDetailsConcat(rules, a, b);
    OfferedConcat(rules, AllDetails(rules, a), AllDetails(rules, b));
    forall e ensures AllDetails(rules, [e]) == DetailsOf(rules, e) {
      assert AllDetails(rules, [e]) == DetailsOf(rules, e) + AllDetails(rules, []);
    }
  }

  lemma {:induction false} AllDetailsConcat(rules: Rules, a: seq<Event>, b: seq<Event>)
    ensures AllDetails(rules, a + b) == AllDetails(rules, a) + AllDetails(rules, b)
  {
    if a == [] {
      assert a + b == b;
    } else {
      assert (a + b)[1..] == a[1..] + b;
      AllDetailsConcat(rules, a[1..], b);
    }
  }

  /** One tool call. */
  lemma OffersOfCall(rules: Rules, e: Event)
    requires e.ToolCall?
    ensures var d := rules.detailOf(e); var content := rules.cleanse(d.content);
      Offers(rules, [e]) == if content == [] then [] else [Detail(d.tool, content)]
  {
    OffersByEvent(rules, [], []);
    assert [rules.detailOf(e)][1..] == [];
  }

  /** One patch: its files in order. */
  lemma OffersOfPatch(rules: Rules, id: string, f: seq<Text>, g: seq<Text>, p: Option<string>)
    ensures Offers(rules, [Patch(id, [], p)]) == []
    ensures Offers(rules, [Patch(id, f + g, p)]) == Offers(rules, [Patch(id, f, p)]) + Offers(rules, [Patch(id, g, p)])
  {
    OffersByEvent(rules, [], []);
    PatchDetailsConcat(f, g);
    OfferedConcat(rules, PatchDetails(f), PatchDetails(g));
  }

  lemma OffersOfFile(rules: Rules, id: string, p: Option<string>, file: Text)
    ensures var content := rules.cleanse(file);
      Offers(rules, [Patch(id, [file], p)])
        == if file == [] || content == [] then [] else [Detail(Ascii("patch"), content)]
  {
    OffersByEvent(rules, [], []);
    OneFile(rules, file);
  }

  lemma OneFile(rules: Rules, file: Text)
    ensures var content := rules.cleanse(file);
      Offered(rules, PatchDetails([file]))
        == if file == [] || content == [] then [] else [Detail(Ascii("patch"), content)]
  {
    assert [file][1..] == [];
    if file != [] {
      var d := Detail(PatchTool(), file);
      assert PatchDetails([file]) == [d] && [d][1..] == [];
    }
  }

  lemma {:induction false} PatchDetailsConcat(f: seq<Text>, g: seq<Text>)
    ensures PatchDetails(f + g) == PatchDetails(f) + PatchDetails(g)
  {
    if f == [] {
      assert f + g == g;
    } else {
      assert (f + g)[1..] == f[1..] + g;
      PatchDetailsConcat(f[1..], g);
    }
  }

  lemma FirstAreNew(offered: seq<Detail>)
    ensures AreNew(offered, FirstPositions(offered, |offered|))
  {
    FirstPositionsComplete(offered, |offered|);
    forall k | 0 <= k < |offered| ensures IsFirst(offered, k) <==> IsNew(offered, k) {
    }
  }

  lemma ShortensAs(d: Detail)
    ensures IsShortened(d, Shorten(d))
  {
  }

  lemma RowShowsDetails(rules: Rules, items: seq<Event>)
    requires items != [] && Classified(rules, items[0])
    ensures ShowsDetails(Offers(rules, items), Row(rules, items).details, Row(rules, items).overflow)
  {
    var offered, row := Offers(rules, items), Row(rules, items);
    DetailsAccountForEveryKey(rules, items);
    FirstAreNew(offered);
    ShownAt(offered, FirstPositions(offered, |offered|), row.details, row.overflow);
  }

  lemma ShownAt(offered: seq<Detail>, at: seq<nat>, details: seq<Detail>, overflow: Option<nat>)
    requires forall k :: 0 <= k < |at| ==> at[k] < |offered|
    requires |details| == (if |at| < MAX_DETAILS then |at| else MAX_DETAILS)
    requires |details| + (if overflow.Some? then overflow.value else 0) == |at|
    requires overflow.Some? <==> |at| > MAX_DETAILS
    requires forall i :: 0 <= i < |details| ==> details[i] == Shorten(offered[at[i]])
    ensures ShowsFirstFive(offered, at, details, overflow)
  {
    forall i | 0 <= i < |details| ensures IsShortened(offered[at[i]], details[i]) {
      ShortensAs(offered[at[i]]);
    }
  }

  lemma RowIsRowOf(rules: Rules, items: seq<Event>)
    requires items != [] && Classified(rules, items[0]) && Chain(rules, items)
    ensures IsRowOf(rules, items, Row(rules, items))
  {
    var row := Row(rules, items);
    forall i | 0 <= i < |items|
      ensures IsActivity(rules, items[i], row.category) && items[i].promptId == items[0].promptId
    {
      ChainAgrees(rules, items, i);
      ClassifiedIsActivity(rules, items[i]);
    }
    StatusIsWorst(items);
    RowShowsDetails(rules, items);
  }

  lemma PieceBecomesShape(rules: Rules, piece: seq<Event>)
    requires piece != [] && Chain(rules, piece)
    ensures Becomes(rules, piece, Shape(rules, piece))
  {
    ChainIsTogether(rules, piece);
    ClassifiedIsActivity(rules, piece[0]);
    if Classified(rules, piece[0]) {
      RowIsRowOf(rules, piece);
    } else {
      assert |piece| > 1 ==> Mergeable(rules, piece[0], piece[1]);
    }
  }

  function Shapes(rules: Rules, pieces: seq<seq<Event>>): (shown: seq<seq<Event>>)
    ensures |shown| == |pieces| && forall k :: 0 <= k < |pieces| ==> shown[k] == Shape(rules, pieces[k])
  {
    seq(|pieces|, k requires 0 <= k < |pieces| => Shape(rules, pieces[k]))
  }

  lemma {:induction false} PiecesTell(rules: Rules, es: seq<Event>, pieces: seq<seq<Event>>)
    requires MaximalRuns(rules, es, pieces)
    ensures Tells(rules, es, pieces, Shapes(rules, pieces), ShapeAll(rules, pieces))
    decreases |es|
  {
    if es != [] {
      var n, rest := |pieces[0]|, pieces[1..];
      PiecesTell(rules, es[n..], rest);
      PieceBecomesShape(rules, pieces[0]);
      NextPieceIsApart(rules, es, pieces);
      PrependPiece(rules, es[n..], pieces[0], Shape(rules, pieces[0]), rest, Shapes(rules, rest),
                   ShapeAll(rules, rest));
      assert es == pieces[0] + es[n..] && pieces == [pieces[0]] + rest;
      assert Shapes(rules, pieces) == [Shape(rules, pieces[0])] + Shapes(rules, rest);
    }
  }

  lemma NextPieceIsApart(rules: Rules, es: seq<Event>, pieces: seq<seq<Event>>)
    requires es != [] && MaximalRuns(rules, es, pieces)
    ensures |pieces| > 1 ==> Apart(rules, pieces[0], pieces[1])
  {
    var n := |pieces[0]|;
    if |pieces| > 1 {
      assert pieces[1..][0] == pieces[1] && pieces[1] <= es[n..];
      TogetherIsMergeable(rules, es[n - 1], es[n]);
    }
  }

  lemma PrependPiece(rules: Rules, es: seq<Event>, piece: seq<Event>, shape: seq<Event>, rest: seq<seq<Event>>,
                     shapes: seq<seq<Event>>, result: seq<Event>)
    requires Tells(rules, es, rest, shapes, result) && Becomes(rules, piece, shape)
    requires rest != [] ==> Apart(rules, piece, rest[0])
    ensures Tells(rules, piece + es, [piece] + rest, [shape] + shapes, shape + result)
  {
    var pieces, shown := [piece] + rest, [shape] + shapes;
    assert pieces[1..] == rest && shown[1..] == shapes;
    forall k | 0 <= k < |pieces| ensures Becomes(rules, pieces[k], shown[k]) {
      assert k > 0 ==> pieces[k] == rest[k - 1] && shown[k] == shapes[k - 1];
    }
    forall k | 0 < k < |pieces| ensures Apart(rules, pieces[k - 1], pieces[k]) {
      assert pieces[k] == rest[k - 1];
      assert k > 1 ==> pieces[k - 1] == rest[k - 2];
    }
  }

  /** The positions of the events that are kept. */
  ghost function KeptAt(rules: Rules, events: seq<Event>, n: nat): (at: seq<nat>)
    requires n <= |events|
    ensures forall k :: 0 <= k < |at| ==> at[k] < n
  {
    if n == 0 then []
    else KeptAt(rules, events, n - 1) + if IsFanOut(rules, events[n - 1]) then [] else [n - 1]
  }

  lemma {:induction false} DropFanOutSnoc(rules: Rules, es: seq<Event>, e: Event)
    ensures DropFanOut(rules, es + [e]) == DropFanOut(rules, es) + if IsFanOut(rules, e) then [] else [e]
  {
    if es == [] {
      assert ([] + [e])[1..] == [];
    } else {
      assert (es + [e])[1..] == es[1..] + [e];
      DropFanOutSnoc(rules, es[1..], e);
    }
  }

  /** Of the first n events those at these positions are kept. */
  ghost predicate ArePicked(rules: Rules, events: seq<Event>, n: nat, at: seq<nat>, kept: seq<Event>)
    requires n <= |events|
  {
    && |at| == |kept| && (forall k :: 0 <= k < |at| ==> at[k] < n && kept[k] == events[at[k]])
    && (forall k, l :: 0 <= k < l < |at| ==> at[k] < at[l])
    && forall i :: 0 <= i < n ==> (i in at <==> !IsFanOut(rules, events[i]))
  }

  lemma {:induction false} KeptArePicked(rules: Rules, events: seq<Event>, n: nat)
    requires n <= |events|
    ensures ArePicked(rules, events, n, KeptAt(rules, events, n), DropFanOut(rules, events[..n]))
  {
    if n > 0 {
      KeptArePicked(rules, events, n - 1);
      KeptNext(rules, events, n - 1);
      OneMorePicked(rules, events, n - 1, KeptAt(rules, events, n - 1), DropFanOut(rules, events[..n - 1]));
    }
  }

  lemma KeptNext(rules: Rules, events: seq<Event>, n: nat)
    requires n < |events|
    ensures var fanOut := IsFanOut(rules, events[n]);
      && KeptAt(rules, events, n + 1) == KeptAt(rules, events, n) + (if fanOut then [] else [n])
      && DropFanOut(rules, events[..n + 1])
         == DropFanOut(rules, events[..n]) + (if fanOut then [] else [events[n]])
  {
    assert events[..n + 1] == events[..n] + [events[n]];
    DropFanOutSnoc(rules, events[..n], events[n]);
  }

  lemma OneMorePicked(rules: Rules, events: seq<Event>, n: nat, at: seq<nat>, kept: seq<Event>)
    requires n < |events| && ArePicked(rules, events, n, at, kept)
    ensures var fanOut := IsFanOut(rules, events[n]);
      ArePicked(rules, events, n + 1, at + if fanOut then [] else [n], kept + if fanOut then [] else [events[n]])
  {
    if !IsFanOut(rules, events[n]) {
      var at' := at + [n];
      assert at'[|at|] == n && forall k :: 0 <= k < |at| ==> at'[k] == at[k] && at[k] in at';
    }
  }

  /** The projection is what the customer is to read. */
  lemma ProjectionReads(rules: Rules, events: seq<Event>)
    ensures Reads(rules, events, Project(rules, events))
  {
    var kept, at := DropFanOut(rules, events), KeptAt(rules, events, |events|);
    KeptArePicked(rules, events, |events|);
    assert events[..|events|] == events;
    assert IsKept(rules, events, kept, at);
    var pieces := MaximalRunsExist(rules, kept);
    RowsAreMaximalRuns(rules, kept, pieces);
    PiecesTell(rules, kept, pieces);
  }
}
