/** The Codex rollout parser: calls and outputs are separate records, and a call leaves the pending
    map with its first output. */
module CodexRollout {
  import opened Options
  import opened TraceTools

  datatype Record =
    | FunctionCall(ts: Option<int>, callId: Option<string>, name: string)
    | FunctionCallOutput(ts: Option<int>, callId: Option<string>, raw: string)
    | TaskComplete
    | StreamError
    | Unrelated

  datatype Outcome = Failed | Succeeded | Incomplete

  /** What a record adds to the history. */
  function EntriesOf(h: seq<Entry>, r: Record): seq<Entry> {
    match r
    case FunctionCall(ts, callId, name) => [Call(FiledUnder(callId, CallCount(h)), name, ts)]
    case FunctionCallOutput(ts, callId, raw) => [Output(callId, raw, ts)]
    case _ => []
  }

  function History(records: seq<Record>): seq<Entry> {
    if records == [] then []
    else
      var h := History(records[..|records| - 1]);
      h + EntriesOf(h, records[|records| - 1])
  }

  // ---- The stream, in terms of the records

  predicate IsTraced(r: Record) { r.FunctionCall? || r.FunctionCallOutput? }

  predicate IsItemOf(r: Record, item: Item) {
    match r
    case FunctionCall(ts, callId, name) => item == Use(callId, name, ts)
    case FunctionCallOutput(ts, callId, raw) => item == Result(callId, raw, ts)
    case _ => false
  }

  /** The items are the calls and the outputs among the records, all of them and in order. */
  ghost predicate IsStreamOf(records: seq<Record>, items: seq<Item>, from: seq<nat>) {
    && |from| == |items|
    && (forall m :: 0 <= m < |from| ==> from[m] < |records| && IsItemOf(records[from[m]], items[m]))
    && (forall m, n :: 0 <= m < n < |from| ==> from[m] < from[n])
    && (forall i {:trigger records[i]} :: 0 <= i < |records| && IsTraced(records[i]) ==> i in from)
  }

  /** One tool for each call record, in order, with the first output that replies to it. */
  ghost predicate Traces(text: Text, records: seq<Record>, tools: seq<Tool>) {
    exists items, from :: IsStreamOf(records, items, from) && FirstReplies(text, items, tools)
  }

  lemma {:induction false} HistoryIsStream(records: seq<Record>) returns (items: seq<Item>, from: seq<nat>)
    ensures IsStreamOf(records, items, from) && History(records) == Filed(items)
  {
    if records == [] {
      items, from := [], [];
    } else {
      var n := |records| - 1;
      assert records == records[..n] + [records[n]];
      var before, places := HistoryIsStream(records[..n]);
      HistoryOneMore(records[..n], records[n], before);
      if IsTraced(records[n]) {
        StreamOneMore(records[..n], before, places, records[n], ItemOf(records[n]));
        items, from := before + [ItemOf(records[n])], places + [n];
      } else {
        StreamAlike(records[..n], before, places, records[n]);
        items, from := before, places;
      }
    }
  }

  lemma HistoryOneMore(records: seq<Record>, r: Record, items: seq<Item>)
    requires History(records) == Filed(items)
    ensures History(records + [r]) == if IsTraced(r) then Filed(items + [ItemOf(r)]) else Filed(items)
  {
    assert (records + [r])[..|records|] == records;
    if IsTraced(r) {
      FiledOneMore(items, ItemOf(r));
    } else {
      assert History(records) + [] == History(records);
    }
  }

  function ItemOf(r: Record): (item: Item)
    requires IsTraced(r)
    ensures IsItemOf(r, item)
  {
    match r
    case FunctionCall(ts, callId, name) => Use(callId, name, ts)
    case FunctionCallOutput(ts, callId, raw) => Result(callId, raw, ts)
  }

  lemma StreamAlike(records: seq<Record>, items: seq<Item>, from: seq<nat>, r: Record)
    requires IsStreamOf(records, items, from) && !IsTraced(r)
    ensures IsStreamOf(records + [r], items, from)
  {
    var all := records + [r];
    assert all[|records|] == r && forall i :: 0 <= i < |records| ==> all[i] == records[i];
  }

  lemma StreamOneMore(records: seq<Record>, items: seq<Item>, from: seq<nat>, r: Record, item: Item)
    requires IsStreamOf(records, items, from) && IsItemOf(r, item)
    ensures IsStreamOf(records + [r], items + [item], from + [|records|])
  {
    var from' := from + [|records|];
    assert from'[|from|] == |records|;
    assert forall m :: 0 <= m < |from| ==> from'[m] == from[m] && from[m] in from';
  }

  lemma HistoryTraces(text: Text, records: seq<Record>, tools: seq<Tool>)
    requires FirstReplyTools(text, History(records), tools)
    ensures Traces(text, records, tools)
  {
    var items, from := HistoryIsStream(records);
    FirstRepliesOf(text, items, tools);
  }

  /** An output record: the pending call it answers, if any, is written and forgotten. */
  method StoreOutput(text: Text, ghost h: seq<Entry>, ghost at: seq<nat>, tools: seq<Tool>,
                     pending: map<string, Pending>,
                     callId: Option<string>, raw: string, ts: Option<int>)
    returns (tools': seq<Tool>, pending': map<string, Pending>)
    requires FirstReplyState(text, h, at, tools, pending)
    ensures FirstReplyState(text, h + [Output(callId, raw, ts)], at, tools', pending')
  {
    tools', pending' := tools, pending;
    if callId.Some? && callId.value != "" && callId.value in pending {
      FirstReplyOnMatch(text, h, at, tools, pending, Output(callId, raw, ts));
      var call := pending[callId.value];
      var tool := WriteTool(text, tools[call.toolIndex], raw, call.startTs, ts);
      tools' := tools[call.toolIndex := tool];
      pending' := pending - {callId.value};
    } else {
      FirstReplyOnUnmatched(text, h, at, tools, pending, Output(callId, raw, ts));
    }
  }

  /** A call record: a new tool without output, pending under the identifier. */
  method FileCall(text: Text, ghost h: seq<Entry>, id: string, name: string, ts: Option<int>,
                  tools0: seq<Tool>, pending0: map<string, Pending>, ghost at0: seq<nat>)
    returns (tools: seq<Tool>, pending: map<string, Pending>, ghost at: seq<nat>)
    requires FirstReplyState(text, h, at0, tools0, pending0)
    ensures FirstReplyState(text, h + [Call(id, name, ts)], at, tools, pending)
  {
    FirstReplyOnCall(text, h, at0, tools0, pending0, Call(id, name, ts));
    at := at0 + [|h|];
    pending := pending0[id := Pending(|tools0|, ts)];
    tools := tools0 + [Tool(name, "", None, None)];
  }

  /** What one record does to the tools and the pending calls. */
  method ReadRecord(text: Text, ghost h: seq<Entry>, record: Record, tools0: seq<Tool>, pending0: map<string, Pending>,
                    ghost at0: seq<nat>)
    returns (tools: seq<Tool>, pending: map<string, Pending>, ghost at: seq<nat>)
    requires FirstReplyState(text, h, at0, tools0, pending0)
    ensures FirstReplyState(text, h + EntriesOf(h, record), at, tools, pending)
  {
    tools, pending, at := tools0, pending0, at0;
    match record {
      case FunctionCall(ts, callId, name) =>
        tools, pending, at := FileCall(text, h, FiledUnder(callId, |tools|), name, ts, tools, pending, at);
      case FunctionCallOutput(ts, callId, raw) =>
        tools, pending := StoreOutput(text, h, at, tools, pending, callId, raw, ts);
      case _ =>
        assert h + [] == h;
    }
  }

  /** One tool for each call record, in order, each with the text of its first reply; every other
      output changes nothing. */
  method ParseCodexRollout(text: Text, records: seq<Record>)
    returns (tools: seq<Tool>, toolCallCount: nat, outcome: Outcome)
    ensures FirstReplyTools(text, History(records), tools) && Traces(text, records, tools)
    ensures toolCallCount == |tools| == CallCount(History(records))
    ensures outcome == Failed <==> StreamError in records
    ensures outcome == Succeeded <==> StreamError !in records && TaskComplete in records
  {
    tools := [];
    var complete, sawError := false, false;
    var pending: map<string, Pending> := map[];
    ghost var at: seq<nat> := [];
    for n := 0 to |records|
      invariant FirstReplyState(text, History(records[..n]), at, tools, pending)
      invariant sawError == (StreamError in records[..n]) && complete == (TaskComplete in records[..n])
    {
      assert records[..n + 1][..n] == records[..n] && records[..n + 1] == records[..n] + [records[n]];
      tools, pending, at := ReadRecord(text, History(records[..n]), records[n], tools, pending, at);
      complete := complete || records[n].TaskComplete?;
      sawError := sawError || records[n].StreamError?;
    }
    assert records[..|records|] == records;
    toolCallCount := |tools|;
    outcome := if sawError then Failed else if complete then Succeeded else Incomplete;
    HistoryTraces(text, records, tools);
  }
}

/** The Claude transcript parser: calls and results are blocks inside messages, and the call index is
    never emptied, so the last result wins. */
module ClaudeTranscript {
  import opened Options
  import opened TraceTools

  datatype Block =
    | ToolUse(id: Option<string>, name: string)
    | ToolResult(toolUseId: Option<string>, raw: string)
    | OtherBlock

  datatype Record =
    | Assistant(ts: Option<int>, content: seq<Block>)
    | UserText(ts: Option<int>, prompt: string)
    | UserBlocks(ts: Option<int>, blocks: seq<Block>)
    | Unrelated

  /** An assistant message contributes its tool calls; results quoted in it are ignored. */
  function AfterAssistant(h: seq<Entry>, ts: Option<int>, content: seq<Block>): seq<Entry> {
    if content == [] then h
    else
      var h := AfterAssistant(h, ts, content[..|content| - 1]);
      match content[|content| - 1]
      case ToolUse(id, name) => h + [Call(FiledUnder(id, CallCount(h)), name, ts)]
      case _ => h
  }

  /** A user message contributes its tool results. */
  function AfterUser(h: seq<Entry>, ts: Option<int>, blocks: seq<Block>): seq<Entry> {
    if blocks == [] then h
    else
      var h := AfterUser(h, ts, blocks[..|blocks| - 1]);
      match blocks[|blocks| - 1]
      case ToolResult(id, raw) => h + [Output(id, raw, ts)]
      case _ => h
  }

  function History(records: seq<Record>): seq<Entry> {
    if records == [] then []
    else
      var h := History(records[..|records| - 1]);
      match records[|records| - 1]
      case Assistant(ts, content) => AfterAssistant(h, ts, content)
      case UserBlocks(ts, blocks) => AfterUser(h, ts, blocks)
      case _ => h
  }

  // ---- The stream, in terms of the messages and their blocks

  /** Message r has block b, and a tool use of the assistant or a tool result of the user is in it. */
  predicate IsTraced(records: seq<Record>, r: nat, b: nat) {
    && r < |records|
    && match records[r]
       case Assistant(_, content) => b < |content| && content[b].ToolUse?
       case UserBlocks(_, blocks) => b < |blocks| && blocks[b].ToolResult?
       case _ => false
  }

  predicate IsItemAt(records: seq<Record>, r: nat, b: nat, item: Item)
    requires IsTraced(records, r, b)
  {
    match records[r]
    case Assistant(ts, content) => item == Use(content[b].id, content[b].name, ts)
    case UserBlocks(ts, blocks) => item == Result(blocks[b].toolUseId, blocks[b].raw, ts)
    case _ => false
  }

  predicate Before(p: (nat, nat), q: (nat, nat)) {
    p.0 < q.0 || (p.0 == q.0 && p.1 < q.1)
  }

  /** The items are the traced blocks, all of them and in order. */
  ghost predicate IsStreamOf(records: seq<Record>, items: seq<Item>, from: seq<(nat, nat)>) {
    && |from| == |items|
    && (forall m :: 0 <= m < |from| ==>
          IsTraced(records, from[m].0, from[m].1) && IsItemAt(records, from[m].0, from[m].1, items[m]))
    && (forall m, n :: 0 <= m < n < |from| ==> Before(from[m], from[n]))
    && (forall r: nat, b: nat :: IsTraced(records, r, b) ==> (r, b) in from)
  }

  /** One tool for each tool-use block, in order, with the last result that replies to it. */
  ghost predicate Traces(text: Text, records: seq<Record>, tools: seq<Tool>) {
    exists items, from :: IsStreamOf(records, items, from) && LastReplies(text, items, tools)
  }

  /** The blocks of b are the blocks of a. */
  ghost predicate SameBlocks(a: seq<Record>, b: seq<Record>) {
    forall r: nat, x: nat :: IsTraced(a, r, x) ==>
      IsTraced(b, r, x) && forall item :: IsItemAt(a, r, x, item) ==> IsItemAt(b, r, x, item)
  }

  lemma StreamAlike(a: seq<Record>, b: seq<Record>, items: seq<Item>, from: seq<(nat, nat)>)
    requires IsStreamOf(a, items, from) && SameBlocks(a, b)
    requires forall r: nat, x: nat :: IsTraced(b, r, x) ==> IsTraced(a, r, x)
    ensures IsStreamOf(b, items, from)
  {
  }

  lemma StreamOneMore(a: seq<Record>, b: seq<Record>, items: seq<Item>, from: seq<(nat, nat)>, place: (nat, nat),
                      item: Item)
    requires IsStreamOf(a, items, from) && SameBlocks(a, b)
    requires IsTraced(b, place.0, place.1) && IsItemAt(b, place.0, place.1, item)
    requires forall r: nat, x: nat :: IsTraced(b, r, x) ==> IsTraced(a, r, x) || (r, x) == place
    requires forall r: nat, x: nat :: IsTraced(a, r, x) ==> Before((r, x), place)
    ensures IsStreamOf(b, items + [item], from + [place])
  {
    var from' := from + [place];
    assert from'[|from|] == place && forall m :: 0 <= m < |from| ==> from'[m] == from[m] && from[m] in from';
  }

  /** The last message of b is that of a and one block more. */
  ghost predicate OneBlockMore(a: seq<Record>, b: seq<Record>, n: nat) {
    && SameBlocks(a, b) && |a| == |b| && a != []
    && (forall r: nat, x: nat :: IsTraced(b, r, x) ==> IsTraced(a, r, x) || (r, x) == (|a| - 1, n))
    && (forall r: nat, x: nat :: IsTraced(a, r, x) ==> Before((r, x), (|a| - 1, n)))
  }

  lemma AssistantGrows(front: seq<Record>, ts: Option<int>, content: seq<Block>)
    requires content != []
    ensures OneBlockMore(front + [Assistant(ts, content[..|content| - 1])], front + [Assistant(ts, content)],
                         |content| - 1)
    ensures content[|content| - 1].ToolUse? <==> IsTraced(front + [Assistant(ts, content)], |front|, |content| - 1)
  {
    var a, b := front + [Assistant(ts, content[..|content| - 1])], front + [Assistant(ts, content)];
    assert a[|front|].content == content[..|content| - 1] && b[|front|].content == content;
    assert forall r :: 0 <= r < |front| ==> a[r] == front[r] == b[r];
  }

  lemma UserGrows(front: seq<Record>, ts: Option<int>, blocks: seq<Block>)
    requires blocks != []
    ensures OneBlockMore(front + [UserBlocks(ts, blocks[..|blocks| - 1])], front + [UserBlocks(ts, blocks)],
                         |blocks| - 1)
    ensures blocks[|blocks| - 1].ToolResult? <==> IsTraced(front + [UserBlocks(ts, blocks)], |front|, |blocks| - 1)
  {
    var a, b := front + [UserBlocks(ts, blocks[..|blocks| - 1])], front + [UserBlocks(ts, blocks)];
    assert a[|front|].blocks == blocks[..|blocks| - 1] && b[|front|].blocks == blocks;
    assert forall r :: 0 <= r < |front| ==> a[r] == front[r] == b[r];
  }

  /** The stream after one more block, which is traced or not. */
  lemma BlockIsStreamed(a: seq<Record>, b: seq<Record>, n: nat, items0: seq<Item>, from0: seq<(nat, nat)>, item: Item)
      returns (items: seq<Item>, from: seq<(nat, nat)>)
    requires IsStreamOf(a, items0, from0) && OneBlockMore(a, b, n)
    requires IsTraced(b, |a| - 1, n) ==> IsItemAt(b, |a| - 1, n, item)
    ensures IsStreamOf(b, items, from)
    ensures Filed(items)
      == Filed(items0) + if IsTraced(b, |a| - 1, n) then [FiledEntry(Filed(items0), item)] else []
  {
    if IsTraced(b, |a| - 1, n) {
      StreamOneMore(a, b, items0, from0, (|a| - 1, n), item);
      FiledOneMore(items0, item);
      items, from := items0 + [item], from0 + [(|a| - 1, n)];
    } else {
      items, from := items0, from0;
      StreamAlike(a, b, items, from);
    }
  }

  lemma {:induction false} AssistantIsStream(front: seq<Record>, items0: seq<Item>, from0: seq<(nat, nat)>,
                                             ts: Option<int>, content: seq<Block>)
      returns (items: seq<Item>, from: seq<(nat, nat)>)
    requires IsStreamOf(front, items0, from0)
    ensures IsStreamOf(front + [Assistant(ts, content)], items, from)
    ensures AfterAssistant(Filed(items0), ts, content) == Filed(items)
    decreases |content|
  {
    var all := front + [Assistant(ts, content)];
    if content == [] {
      items, from := items0, from0;
      StreamAlike(front, all, items, from);
    } else {
      var n := |content| - 1;
      items, from := AssistantIsStream(front, items0, from0, ts, content[..n]);
      AssistantGrows(front, ts, content);
      var item := if content[n].ToolUse? then Use(content[n].id, content[n].name, ts) else Use(None, "", ts);
      items, from := BlockIsStreamed(front + [Assistant(ts, content[..n])], all, n, items, from, item);
    }
  }

  lemma {:induction false} UserIsStream(front: seq<Record>, items0: seq<Item>, from0: seq<(nat, nat)>,
                                        ts: Option<int>, blocks: seq<Block>)
      returns (items: seq<Item>, from: seq<(nat, nat)>)
    requires IsStreamOf(front, items0, from0)
    ensures IsStreamOf(front + [UserBlocks(ts, blocks)], items, from)
    ensures AfterUser(Filed(items0), ts, blocks) == Filed(items)
    decreases |blocks|
  {
    var all := front + [UserBlocks(ts, blocks)];
    if blocks == [] {
      items, from := items0, from0;
      StreamAlike(front, all, items, from);
    } else {
      var n := |blocks| - 1;
      items, from := UserIsStream(front, items0, from0, ts, blocks[..n]);
      UserGrows(front, ts, blocks);
      var item := if blocks[n].ToolResult? then Result(blocks[n].toolUseId, blocks[n].raw, ts) else Use(None, "", ts);
      items, from := BlockIsStreamed(front + [UserBlocks(ts, blocks[..n])], all, n, items, from, item);
    }
  }

  lemma {:induction false} HistoryIsStream(records: seq<Record>) returns (items: seq<Item>, from: seq<(nat, nat)>)
    ensures IsStreamOf(records, items, from) && History(records) == Filed(items)
  {
    if records == [] {
      items, from := [], [];
    } else {
      var n := |records| - 1;
      var front := records[..n];
      items, from := HistoryIsStream(front);
      assert records == front + [records[n]];
      match records[n] {
        case Assistant(ts, content) => items, from := AssistantIsStream(front, items, from, ts, content);
        case UserBlocks(ts, blocks) => items, from := UserIsStream(front, items, from, ts, blocks);
        case _ => StreamAlike(front, records, items, from);
      }
    }
  }

  lemma HistoryTraces(text: Text, records: seq<Record>, tools: seq<Tool>)
    requires LastReplyTools(text, History(records), tools)
    ensures Traces(text, records, tools)
  {
    var items, from := HistoryIsStream(records);
    LastRepliesOf(text, items, tools);
  }

  method ReadAssistant(text: Text, ghost h: seq<Entry>, ts: Option<int>, content: seq<Block>,
                       tools0: seq<Tool>, index0: map<string, Pending>, ghost at0: seq<nat>)
    returns (tools: seq<Tool>, index: map<string, Pending>, ghost at: seq<nat>)
    requires LastReplyState(text, h, at0, tools0, index0)
    ensures LastReplyState(text, AfterAssistant(h, ts, content), at, tools, index)
  {
    tools, index, at := tools0, index0, at0;
    for n := 0 to |content|
      invariant LastReplyState(text, AfterAssistant(h, ts, content[..n]), at, tools, index)
    {
      ghost var before := AfterAssistant(h, ts, content[..n]);
      assert content[..n + 1][..n] == content[..n];
      if content[n].ToolUse? {
        var id := FiledUnder(content[n].id, |tools|);
        LastReplyOnCall(text, before, at, tools, index, Call(id, content[n].name, ts));
        at := at + [|before|];
        index := index[id := Pending(|tools|, ts)];
        tools := tools + [Tool(content[n].name, "", None, None)];
      }
    }
    assert content[..|content|] == content;
  }

  /** A tool result: the tool its identifier leads to is written, over whatever it held. */
  method StoreResult(text: Text, ghost h: seq<Entry>, ghost at: seq<nat>, tools: seq<Tool>, index: map<string, Pending>,
                     callId: Option<string>, raw: string, ts: Option<int>)
    returns (tools': seq<Tool>)
    requires LastReplyState(text, h, at, tools, index)
    ensures LastReplyState(text, h + [Output(callId, raw, ts)], at, tools', index)
  {
    tools' := tools;
    if callId.Some? && callId.value != "" && callId.value in index {
      LastReplyOnMatch(text, h, at, tools, index, Output(callId, raw, ts));
      var entry := index[callId.value];
      var tool := WriteTool(text, tools[entry.toolIndex], raw, entry.startTs, ts);
      tools' := tools[entry.toolIndex := tool];
    } else {
      LastReplyOnUnmatched(text, h, at, tools, index, Output(callId, raw, ts));
    }
  }

  method ReadUser(text: Text, ghost h: seq<Entry>, ts: Option<int>, blocks: seq<Block>,
                  tools0: seq<Tool>, index: map<string, Pending>, ghost at: seq<nat>)
    returns (tools: seq<Tool>)
    requires LastReplyState(text, h, at, tools0, index)
    ensures LastReplyState(text, AfterUser(h, ts, blocks), at, tools, index)
  {
    tools := tools0;
    for n := 0 to |blocks|
      invariant LastReplyState(text, AfterUser(h, ts, blocks[..n]), at, tools, index)
    {
      ghost var before := AfterUser(h, ts, blocks[..n]);
      assert blocks[..n + 1][..n] == blocks[..n];
      if blocks[n].ToolResult? {
        tools := StoreResult(text, before, at, tools, index, blocks[n].toolUseId, blocks[n].raw, ts);
      }
    }
    assert blocks[..|blocks|] == blocks;
  }

  /** One tool for each tool-use block, in order, each with the text of its last result. */
  method ParseClaudeTranscript(text: Text, records: seq<Record>) returns (tools: seq<Tool>, toolCallCount: nat)
    ensures LastReplyTools(text, History(records), tools) && Traces(text, records, tools)
    ensures toolCallCount == |tools| == CallCount(History(records))
  {
    tools := [];
    var callIndex: map<string, Pending> := map[];
    ghost var at: seq<nat> := [];
    for n := 0 to |records|
      invariant LastReplyState(text, History(records[..n]), at, tools, callIndex)
    {
      ghost var h := History(records[..n]);
      assert records[..n + 1][..n] == records[..n];
      match records[n] {
        case Assistant(ts, content) =>
          tools, callIndex, at := ReadAssistant(text, h, ts, content, tools, callIndex, at);
        case UserBlocks(ts, blocks) =>
          tools := ReadUser(text, h, ts, blocks, tools, callIndex, at);
        case UserText(_, _) =>
        case Unrelated =>
      }
    }
    assert records[..|records|] == records;
    toolCallCount := |tools|;
    HistoryTraces(text, records, tools);
  }
}
