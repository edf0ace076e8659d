/** How the two transcript parsers pair tool calls with tool outputs, stated over the history of
    calls and outputs alone, without the maps the parsers keep. */
module TraceTools {
  import opened Options
  import JsText

  /** One entry of the history.  A call carries the identifier it is filed under; an output may have
      none, and an empty one is never looked up. */
  datatype Entry =
    | Call(id: string, name: string, ts: Option<int>)
    | Output(callId: Option<string>, raw: string, ts: Option<int>)

  datatype Tool = Tool(name: string, output: string, estimatedTokens: Option<nat>, durationMs: Option<int>)

  /** The identifier a call is filed under: its own, or one made from the number of tools so far. */
  function FiledUnder(callId: Option<string>, toolCount: nat): string {
    if callId.Some? then callId.value else "idx-" + JsText.Decimal(toolCount)
  }

  /** Redaction with truncation, and the token estimate. */
  datatype Text = Text(clean: string -> string, estimate: string -> nat)

  function CallCount(h: seq<Entry>): (n: nat)
    ensures n <= |h|
  {
    if h == [] then 0 else CallCount(h[..|h| - 1]) + (if h[|h| - 1].Call? then 1 else 0)
  }

  /** h[j] is an output filed under the identifier of the call h[i]. */
  predicate Replies(h: seq<Entry>, i: nat, j: nat)
    requires i < |h| && j < |h| && h[i].Call?
  {
    h[j].Output? && h[j].callId == Some(h[i].id) && h[i].id != ""
  }

  /** h[j] is a later call that takes over the identifier of h[i]. */
  predicate Reuses(h: seq<Entry>, i: nat, j: nat)
    requires i < |h| && j < |h| && h[i].Call?
  {
    h[j].Call? && h[j].id == h[i].id
  }

  /** No call strictly between positions i and n takes over the identifier. */
  predicate Unclaimed(h: seq<Entry>, i: nat, n: nat)
    requires i < |h| && n <= |h| && h[i].Call?
  {
    forall k :: i < k < n ==> !Reuses(h, i, k)
  }

  /** The first output for the call h[i] before position n, if the identifier was not taken over
      before it. */
  ghost predicate FirstReply(h: seq<Entry>, i: nat, j: nat)
    requires i < |h| && h[i].Call?
  {
    i < j < |h| && Replies(h, i, j) && Unclaimed(h, i, j) && forall k :: i < k < j ==> !Replies(h, i, k)
  }

  /** The last output for the call h[i] before the identifier is taken over; the timed form looks
      only at outputs with a timestamp. */
  ghost predicate LastReply(h: seq<Entry>, i: nat, j: nat, timed: bool)
    requires i < |h| && h[i].Call?
  {
    && i < j < |h| && Counts(h, i, j, timed) && Unclaimed(h, i, j)
    && forall k :: j < k < |h| && Unclaimed(h, i, k) ==> !Counts(h, i, k, timed)
  }

  predicate Counts(h: seq<Entry>, i: nat, j: nat, timed: bool)
    requires i < |h| && j < |h| && h[i].Call?
  {
    Replies(h, i, j) && (timed ==> h[j].ts.Some?)
  }

  function Unanswered(h: seq<Entry>, i: nat): Tool
    requires i < |h| && h[i].Call?
  {
    Tool(h[i].name, "", None, None)
  }

  function Elapsed(h: seq<Entry>, i: nat, j: nat): Option<int>
    requires i < |h| && j < |h| && h[i].Call? && h[j].Output?
  {
    if h[i].ts.Some? && h[j].ts.Some? then Some(h[j].ts.value - h[i].ts.value) else None
  }

  function Answered(text: Text, h: seq<Entry>, i: nat, j: nat, durationMs: Option<int>): Tool
    requires i < |h| && j < |h| && h[i].Call? && h[j].Output?
  {
    Tool(h[i].name, text.clean(h[j].raw), Some(text.estimate(h[j].raw)), durationMs)
  }

  /** A tool after one more output has been stored in it. */
  function Written(text: Text, tool: Tool, raw: string, startTs: Option<int>, ts: Option<int>): Tool {
    Tool(tool.name, text.clean(raw), Some(text.estimate(raw)),
         if startTs.Some? && ts.Some? then Some(ts.value - startTs.value) else tool.durationMs)
  }

  method WriteTool(text: Text, tool: Tool, raw: string, startTs: Option<int>, ts: Option<int>) returns (tool': Tool)
    ensures tool' == Written(text, tool, raw, startTs, ts)
  {
    tool' := tool.(output := text.clean(raw), estimatedTokens := Some(text.estimate(raw)));
    if startTs.Some? && ts.Some? {
      tool' := tool'.(durationMs := Some(ts.value - startTs.value));
    }
  }

  /** First-reply rule: the tool of the call h[i]. */
  ghost predicate FirstReplyTool(text: Text, h: seq<Entry>, i: nat, tool: Tool)
    requires i < |h| && h[i].Call?
  {
    && (forall j :: FirstReply(h, i, j) ==> tool == Answered(text, h, i, j, Elapsed(h, i, j)))
    && ((forall j :: !FirstReply(h, i, j)) ==> tool == Unanswered(h, i))
  }

  /** Last-reply rule: output and estimate come from the last reply; the duration from the last
      reply that has a timestamp, and only when the call has one too. */
  ghost predicate LastReplyTool(text: Text, h: seq<Entry>, i: nat, tool: Tool)
    requires i < |h| && h[i].Call?
  {
    && (forall j :: LastReply(h, i, j, false) ==> tool == Answered(text, h, i, j, tool.durationMs))
    && ((forall j :: !LastReply(h, i, j, false)) ==> tool == Unanswered(h, i))
    && (forall j :: LastReply(h, i, j, true) ==> tool.durationMs == Elapsed(h, i, j))
    && ((forall j :: !LastReply(h, i, j, true)) ==> tool.durationMs == None)
  }

  /** The tools are the calls of the history in order, one for one; `at` gives their positions. */
  ghost predicate OneToolPerCall(h: seq<Entry>, at: seq<nat>) {
    && |at| == CallCount(h)
    && CallsAt(h, at)
    && (forall k, l :: 0 <= k < l < |at| ==> at[k] < at[l])
    && (forall i {:trigger i in at} :: 0 <= i < |h| && h[i].Call? ==> i in at)
  }

  predicate CallsAt(h: seq<Entry>, at: seq<nat>) {
    forall k :: 0 <= k < |at| ==> at[k] < |h| && h[at[k]].Call?
  }

  ghost predicate FirstReplyToolsAt(text: Text, h: seq<Entry>, at: seq<nat>, tools: seq<Tool>)
    requires CallsAt(h, at)
  {
    |tools| == |at| && forall k :: 0 <= k < |at| ==> FirstReplyTool(text, h, at[k], tools[k])
  }

  ghost predicate LastReplyToolsAt(text: Text, h: seq<Entry>, at: seq<nat>, tools: seq<Tool>)
    requires CallsAt(h, at)
  {
    |tools| == |at| && forall k :: 0 <= k < |at| ==> LastReplyTool(text, h, at[k], tools[k])
  }

  ghost predicate FirstReplyTools(text: Text, h: seq<Entry>, tools: seq<Tool>) {
    exists at :: OneToolPerCall(h, at) && FirstReplyToolsAt(text, h, at, tools)
  }

  ghost predicate LastReplyTools(text: Text, h: seq<Entry>, tools: seq<Tool>) {
    exists at :: OneToolPerCall(h, at) && LastReplyToolsAt(text, h, at, tools)
  }

  // ---- One more entry

  lemma AppendKeeps(h: seq<Entry>, e: Entry, i: nat, j: nat)
    requires i < |h| && j < |h| && h[i].Call?
    ensures var h' := h + [e];
      && Replies(h', i, j) == Replies(h, i, j) && Reuses(h', i, j) == Reuses(h, i, j)
      && Unclaimed(h', i, j) == Unclaimed(h, i, j)
      && FirstReply(h', i, j) == FirstReply(h, i, j)
      && Unanswered(h', i) == Unanswered(h, i)
  {
    var h' := h + [e];
    assert forall k :: 0 <= k < |h| ==> h'[k] == h[k];
    assert forall k :: 0 <= k < |h| ==> Reuses(h', i, k) == Reuses(h, i, k) && Replies(h', i, k) == Replies(h, i, k);
  }

  lemma OneMoreOutput(h: seq<Entry>, e: Entry, at: seq<nat>)
    requires OneToolPerCall(h, at) && e.Output?
    ensures OneToolPerCall(h + [e], at)
  {
    assert (h + [e])[..|h|] == h;
  }

  lemma OneMoreCall(h: seq<Entry>, e: Entry, at: seq<nat>)
    requires OneToolPerCall(h, at) && e.Call?
    ensures OneToolPerCall(h + [e], at + [|h|])
  {
    var at' := at + [|h|];
    assert (h + [e])[..|h|] == h;
    assert at'[|at|] == |h|;
    assert forall k :: 0 <= k < |at| ==> at'[k] == at[k] && at[k] in at';
  }

  /** Nothing has happened to the identifier since the call h[i]. */
  ghost predicate Open(h: seq<Entry>, i: nat)
    requires i < |h| && h[i].Call?
  {
    Unclaimed(h, i, |h|) && forall k :: i < k < |h| ==> !Replies(h, i, k)
  }

  lemma OpenStep(h: seq<Entry>, e: Entry, i: nat)
    requires i < |h| && h[i].Call?
    ensures var h' := h + [e];
      Open(h', i) <==> Open(h, i) && !Replies(h', i, |h|) && !Reuses(h', i, |h|)
    ensures FirstReply(h + [e], i, |h|) <==> Open(h, i) && Replies(h + [e], i, |h|)
  {
    var h' := h + [e];
    forall k | 0 <= k < |h|
      ensures Reuses(h', i, k) == Reuses(h, i, k) && Replies(h', i, k) == Replies(h, i, k)
    {
      AppendKeeps(h, e, i, k);
    }
  }

  /** How the first-reply rule moves on: an open call takes the entry if it replies, and no other
      entry matters. */
  lemma FirstReplyStep(text: Text, h: seq<Entry>, e: Entry, i: nat, tool: Tool)
    requires i < |h| && h[i].Call? && FirstReplyTool(text, h, i, tool)
    ensures var h' := h + [e];
      if Open(h, i) && Replies(h', i, |h|)
      then FirstReplyTool(text, h', i, Answered(text, h', i, |h|, Elapsed(h', i, |h|)))
      else FirstReplyTool(text, h', i, tool)
  {
    var h' := h + [e];
    OpenStep(h, e, i);
    forall j | 0 <= j < |h| ensures FirstReply(h', i, j) == FirstReply(h, i, j) {
      AppendKeeps(h, e, i, j);
    }
    if Open(h, i) && Replies(h', i, |h|) {
      assert forall j :: FirstReply(h', i, j) ==> j == |h|;
    } else {
      assert forall j :: FirstReply(h', i, j) <==> FirstReply(h, i, j);
    }
  }

  // ---- The first-reply loop: an answered call leaves the map

  datatype Pending = Pending(toolIndex: nat, startTs: Option<int>)

  /** The map holds exactly the open calls. */
  ghost predicate HoldsOpen(h: seq<Entry>, at: seq<nat>, pending: map<string, Pending>)
    requires CallsAt(h, at)
  {
    && (forall id :: id in pending ==> Holds(h, at, id, pending[id]))
    && (forall k :: 0 <= k < |at| && Open(h, at[k]) ==> h[at[k]].id in pending && pending[h[at[k]].id].toolIndex == k)
  }

  ghost predicate Holds(h: seq<Entry>, at: seq<nat>, id: string, p: Pending)
    requires CallsAt(h, at)
  {
    p.toolIndex < |at| && h[at[p.toolIndex]].id == id && p.startTs == h[at[p.toolIndex]].ts && Open(h, at[p.toolIndex])
  }

  ghost predicate FirstReplyState(text: Text, h: seq<Entry>, at: seq<nat>, tools: seq<Tool>,
                                  pending: map<string, Pending>) {
    OneToolPerCall(h, at) && FirstReplyToolsAt(text, h, at, tools) && HoldsOpen(h, at, pending)
  }

  lemma PendingOnCall(h: seq<Entry>, at: seq<nat>, pending: map<string, Pending>, e: Entry)
    requires OneToolPerCall(h, at) && HoldsOpen(h, at, pending) && e.Call?
    ensures OneToolPerCall(h + [e], at + [|h|])
    ensures HoldsOpen(h + [e], at + [|h|], pending[e.id := Pending(|at|, e.ts)])
  {
    var h', at', pending' := h + [e], at + [|h|], pending[e.id := Pending(|at|, e.ts)];
    OneMoreCall(h, e, at);
    forall k | 0 <= k < |at|
      ensures at'[k] == at[k] && h'[at[k]] == h[at[k]]
      ensures Open(h', at[k]) <==> Open(h, at[k]) && h[at[k]].id != e.id
    {
      OpenStep(h, e, at[k]);
    }
    assert Open(h', |h|) && at'[|at|] == |h|;
    assert Holds(h', at', e.id, pending'[e.id]);
    forall id | id in pending && id != e.id ensures Holds(h', at', id, pending'[id]) {
      assert Holds(h, at, id, pending[id]);
    }
  }

  lemma FirstReplyOnCall(text: Text, h: seq<Entry>, at: seq<nat>, tools: seq<Tool>, pending: map<string, Pending>,
                         e: Entry)
    requires FirstReplyState(text, h, at, tools, pending) && e.Call?
    ensures FirstReplyState(text, h + [e], at + [|h|], tools + [Tool(e.name, "", None, None)],
                            pending[e.id := Pending(|tools|, e.ts)])
  {
    var h', at', tools' := h + [e], at + [|h|], tools + [Tool(e.name, "", None, None)];
    PendingOnCall(h, at, pending, e);
    forall k | 0 <= k < |at'| ensures FirstReplyTool(text, h', at'[k], tools'[k]) {
      if k < |at| {
        FirstReplyStep(text, h, e, at[k], tools[k]);
      }
    }
  }

  /** A matched output closes its call and no other. */
  lemma PendingOnMatch(h: seq<Entry>, at: seq<nat>, pending: map<string, Pending>, e: Entry)
    requires OneToolPerCall(h, at) && HoldsOpen(h, at, pending)
    requires e.Output? && e.callId.Some? && e.callId.value != "" && e.callId.value in pending
    ensures OneToolPerCall(h + [e], at) && HoldsOpen(h + [e], at, pending - {e.callId.value})
  {
    var id, h' := e.callId.value, h + [e];
    OneMoreOutput(h, e, at);
    forall k | 0 <= k < |at|
      ensures h'[at[k]] == h[at[k]] && (Open(h', at[k]) <==> Open(h, at[k]) && h[at[k]].id != id)
    {
      OpenStep(h, e, at[k]);
    }
    forall other | other in pending - {id} ensures Holds(h', at, other, pending[other]) {
      assert Holds(h, at, other, pending[other]);
    }
  }

  lemma FirstReplyOnMatch(text: Text, h: seq<Entry>, at: seq<nat>, tools: seq<Tool>, pending: map<string, Pending>,
                          e: Entry)
    requires FirstReplyState(text, h, at, tools, pending)
    requires e.Output? && e.callId.Some? && e.callId.value != "" && e.callId.value in pending
    ensures var p := pending[e.callId.value];
      && p.toolIndex < |tools|
      && FirstReplyState(text, h + [e], at,
           tools[p.toolIndex := Written(text, tools[p.toolIndex], e.raw, p.startTs, e.ts)], pending - {e.callId.value})
  {
    var p, h' := pending[e.callId.value], h + [e];
    assert Holds(h, at, e.callId.value, p);
    PendingOnMatch(h, at, pending, e);
    FirstReplyName(text, h, at[p.toolIndex], tools[p.toolIndex]);
    assert tools[p.toolIndex] == Unanswered(h, at[p.toolIndex]);
    forall k | 0 <= k < |at|
      ensures h'[at[k]] == h[at[k]] && (k != p.toolIndex ==> FirstReplyTool(text, h', at[k], tools[k]))
    {
      FirstReplyStep(text, h, e, at[k], tools[k]);
    }
    FirstReplyStep(text, h, e, at[p.toolIndex], tools[p.toolIndex]);
  }

  lemma FirstReplyName(text: Text, h: seq<Entry>, i: nat, tool: Tool)
    requires i < |h| && h[i].Call? && FirstReplyTool(text, h, i, tool)
    ensures tool.name == h[i].name
  {
    if j :| FirstReply(h, i, j) {
    }
  }

  lemma FirstReplyOnUnmatched(text: Text, h: seq<Entry>, at: seq<nat>, tools: seq<Tool>, pending: map<string, Pending>,
                              e: Entry)
    requires FirstReplyState(text, h, at, tools, pending)
    requires e.Output? && (e.callId.None? || e.callId.value == "" || e.callId.value !in pending)
    ensures FirstReplyState(text, h + [e], at, tools, pending)
  {
    var h' := h + [e];
    OneMoreOutput(h, e, at);
    forall k | 0 <= k < |at|
      ensures h'[at[k]] == h[at[k]]
      ensures Open(h', at[k]) == Open(h, at[k])
      ensures FirstReplyTool(text, h', at[k], tools[k])
    {
      OpenStep(h, e, at[k]);
      FirstReplyStep(text, h, e, at[k], tools[k]);
    }
    forall id | id in pending ensures Holds(h', at, id, pending[id]) {
      assert Holds(h, at, id, pending[id]);
    }
  }

  // ---- The last-reply loop: the map only ever grows

  /** The identifier still belongs to the call h[i]. */
  ghost predicate Current(h: seq<Entry>, i: nat)
    requires i < |h| && h[i].Call?
  {
    Unclaimed(h, i, |h|)
  }

  lemma LastReplyMoves(h: seq<Entry>, e: Entry, i: nat, timed: bool)
    requires i < |h| && h[i].Call?
    ensures var h' := h + [e];
      && (Current(h', i) <==> Current(h, i) && !Reuses(h', i, |h|))
      && (LastReply(h', i, |h|, timed) <==> Current(h, i) && Counts(h', i, |h|, timed))
      && (forall j :: 0 <= j < |h| ==>
            (LastReply(h', i, j, timed) <==>
             LastReply(h, i, j, timed) && !(Current(h, i) && Counts(h', i, |h|, timed))))
  {
    var h' := h + [e];
    forall k | 0 <= k < |h|
      ensures h'[k] == h[k] && Reuses(h', i, k) == Reuses(h, i, k) && Counts(h', i, k, timed) == Counts(h, i, k, timed)
      ensures Unclaimed(h', i, k) == Unclaimed(h, i, k)
    {
      AppendKeeps(h, e, i, k);
    }
    assert Unclaimed(h', i, |h|) == Current(h, i);
  }

  lemma LastReplyStep(text: Text, h: seq<Entry>, e: Entry, i: nat, tool: Tool)
    requires i < |h| && h[i].Call? && LastReplyTool(text, h, i, tool)
    ensures var h' := h + [e];
      if Current(h, i) && Replies(h', i, |h|)
      then LastReplyTool(text, h', i, Answered(text, h', i, |h|,
             if h[i].ts.Some? && e.ts.Some? then Some(e.ts.value - h[i].ts.value) else tool.durationMs))
      else LastReplyTool(text, h', i, tool)
  {
    if Current(h, i) && Replies(h + [e], i, |h|) {
      LastReplyTaken(text, h, e, i, tool);
    } else {
      LastReplyKept(text, h, e, i, tool);
    }
  }

  lemma LastReplyTaken(text: Text, h: seq<Entry>, e: Entry, i: nat, tool: Tool)
    requires i < |h| && h[i].Call? && LastReplyTool(text, h, i, tool)
    requires Current(h, i) && Replies(h + [e], i, |h|)
    ensures LastReplyTool(text, h + [e], i, Answered(text, h + [e], i, |h|,
              if h[i].ts.Some? && e.ts.Some? then Some(e.ts.value - h[i].ts.value) else tool.durationMs))
  {
    var h' := h + [e];
    LastReplyMoves(h, e, i, false);
    LastReplyMoves(h, e, i, true);
    UntimedCall(text, h, i, tool);
    assert LastReply(h', i, |h|, false);
    assert forall j :: LastReply(h', i, j, false) ==> j == |h|;
    if e.ts.Some? {
      assert LastReply(h', i, |h|, true);
      assert forall j :: LastReply(h', i, j, true) ==> j == |h|;
    } else {
      assert forall j :: LastReply(h', i, j, true) <==> LastReply(h, i, j, true);
    }
  }

  lemma LastReplyKept(text: Text, h: seq<Entry>, e: Entry, i: nat, tool: Tool)
    requires i < |h| && h[i].Call? && LastReplyTool(text, h, i, tool)
    requires !(Current(h, i) && Replies(h + [e], i, |h|))
    ensures LastReplyTool(text, h + [e], i, tool)
  {
    var h' := h + [e];
    LastReplyMoves(h, e, i, false);
    LastReplyMoves(h, e, i, true);
    assert forall j :: LastReply(h', i, j, false) <==> LastReply(h, i, j, false);
    assert forall j :: LastReply(h', i, j, true) <==> LastReply(h, i, j, true);
  }

  lemma UntimedCall(text: Text, h: seq<Entry>, i: nat, tool: Tool)
    requires i < |h| && h[i].Call? && LastReplyTool(text, h, i, tool)
    ensures tool.name == h[i].name
    ensures h[i].ts.None? ==> tool.durationMs == None
  {
    if j :| LastReply(h, i, j, false) {
    }
    if j :| LastReply(h, i, j, true) {
    }
  }

  lemma LastReplyWrites(text: Text, h: seq<Entry>, e: Entry, i: nat, tool: Tool)
    requires i < |h| && h[i].Call? && LastReplyTool(text, h, i, tool)
    requires Current(h, i) && e.Output? && e.callId == Some(h[i].id) && h[i].id != ""
    ensures LastReplyTool(text, h + [e], i, Written(text, tool, e.raw, h[i].ts, e.ts))
  {
    UntimedCall(text, h, i, tool);
    LastReplyStep(text, h, e, i, tool);
  }

  ghost predicate LastReplyState(text: Text, h: seq<Entry>, at: seq<nat>, tools: seq<Tool>,
                                 index: map<string, Pending>) {
    OneToolPerCall(h, at) && LastReplyToolsAt(text, h, at, tools) && HoldsCurrent(h, at, index)
  }

  /** The map leads every identifier to the last call filed under it. */
  ghost predicate HoldsCurrent(h: seq<Entry>, at: seq<nat>, index: map<string, Pending>)
    requires CallsAt(h, at)
  {
    && (forall id :: id in index ==> Indexes(h, at, id, index[id]))
    && (forall k :: 0 <= k < |at| && Current(h, at[k]) ==> h[at[k]].id in index && index[h[at[k]].id].toolIndex == k)
  }

  ghost predicate Indexes(h: seq<Entry>, at: seq<nat>, id: string, p: Pending)
    requires CallsAt(h, at)
  {
    p.toolIndex < |at| && h[at[p.toolIndex]].id == id && p.startTs == h[at[p.toolIndex]].ts
      && Current(h, at[p.toolIndex])
  }

  lemma LastReplyFresh(text: Text, h: seq<Entry>, e: Entry)
    requires e.Call?
    ensures Current(h + [e], |h|) && LastReplyTool(text, h + [e], |h|, Tool(e.name, "", None, None))
  {
  }

  lemma IndexOnCall(h: seq<Entry>, at: seq<nat>, index: map<string, Pending>, e: Entry)
    requires OneToolPerCall(h, at) && HoldsCurrent(h, at, index) && e.Call?
    ensures OneToolPerCall(h + [e], at + [|h|])
    ensures HoldsCurrent(h + [e], at + [|h|], index[e.id := Pending(|at|, e.ts)])
  {
    var h', at', index' := h + [e], at + [|h|], index[e.id := Pending(|at|, e.ts)];
    OneMoreCall(h, e, at);
    forall k | 0 <= k < |at|
      ensures at'[k] == at[k] && h'[at[k]] == h[at[k]]
      ensures Current(h', at[k]) <==> Current(h, at[k]) && h[at[k]].id != e.id
    {
      LastReplyMoves(h, e, at[k], false);
    }
    assert at'[|at|] == |h| && Current(h', |h|);
    assert Indexes(h', at', e.id, index'[e.id]);
    forall id | id in index && id != e.id ensures Indexes(h', at', id, index'[id]) {
      assert Indexes(h, at, id, index[id]);
    }
  }

  lemma LastReplyOnCall(text: Text, h: seq<Entry>, at: seq<nat>, tools: seq<Tool>, index: map<string, Pending>,
                        e: Entry)
    requires LastReplyState(text, h, at, tools, index) && e.Call?
    ensures LastReplyState(text, h + [e], at + [|h|], tools + [Tool(e.name, "", None, None)],
                           index[e.id := Pending(|tools|, e.ts)])
  {
    var h', at', tools' := h + [e], at + [|h|], tools + [Tool(e.name, "", None, None)];
    IndexOnCall(h, at, index, e);
    LastReplyFresh(text, h, e);
    forall k | 0 <= k < |at'| ensures LastReplyTool(text, h', at'[k], tools'[k]) {
      if k < |at| {
        LastReplyStep(text, h, e, at[k], tools[k]);
      }
    }
  }

  lemma IndexOnOutput(h: seq<Entry>, at: seq<nat>, index: map<string, Pending>, e: Entry)
    requires OneToolPerCall(h, at) && HoldsCurrent(h, at, index) && e.Output?
    ensures OneToolPerCall(h + [e], at) && HoldsCurrent(h + [e], at, index)
  {
    var h' := h + [e];
    OneMoreOutput(h, e, at);
    forall k | 0 <= k < |at| ensures h'[at[k]] == h[at[k]] && (Current(h', at[k]) <==> Current(h, at[k])) {
      LastReplyMoves(h, e, at[k], false);
    }
    forall id | id in index ensures Indexes(h', at, id, index[id]) {
      assert Indexes(h, at, id, index[id]);
    }
  }

  lemma LastReplyOnMatch(text: Text, h: seq<Entry>, at: seq<nat>, tools: seq<Tool>, index: map<string, Pending>,
                         e: Entry)
    requires LastReplyState(text, h, at, tools, index)
    requires e.Output? && e.callId.Some? && e.callId.value != "" && e.callId.value in index
    ensures var p := index[e.callId.value];
      && p.toolIndex < |tools|
      && LastReplyState(text, h + [e], at,
           tools[p.toolIndex := Written(text, tools[p.toolIndex], e.raw, p.startTs, e.ts)], index)
  {
    var p, h' := index[e.callId.value], h + [e];
    assert Indexes(h, at, e.callId.value, p);
    IndexOnOutput(h, at, index, e);
    forall k | 0 <= k < |at| && k != p.toolIndex ensures LastReplyTool(text, h', at[k], tools[k]) {
      assert Current(h, at[k]) ==> h[at[k]].id != e.callId.value;
      LastReplyStep(text, h, e, at[k], tools[k]);
    }
    LastReplyWrites(text, h, e, at[p.toolIndex], tools[p.toolIndex]);
  }

  lemma LastReplyOnUnmatched(text: Text, h: seq<Entry>, at: seq<nat>, tools: seq<Tool>, index: map<string, Pending>,
                             e: Entry)
    requires LastReplyState(text, h, at, tools, index)
    requires e.Output? && (e.callId.None? || e.callId.value == "" || e.callId.value !in index)
    ensures LastReplyState(text, h + [e], at, tools, index)
  {
    IndexOnOutput(h, at, index, e);
    forall k | 0 <= k < |at| ensures LastReplyTool(text, h + [e], at[k], tools[k]) {
      LastReplyStep(text, h, e, at[k], tools[k]);
    }
  }

  // ---- What the two rules say

  lemma PositionsUnique(h: seq<Entry>, at: seq<nat>, at': seq<nat>)
    requires OneToolPerCall(h, at) && OneToolPerCall(h, at')
    ensures at == at'
  {
    var k := 0;
    while k < |at|
      invariant 0 <= k <= |at| && forall m :: 0 <= m < k ==> at[m] == at'[m]
    {
      assert at[k] in at' && at'[k] in at;
      var l :| 0 <= l < |at'| && at'[l] == at[k];
      var m :| 0 <= m < |at| && at[m] == at'[k];
      assert at[k] == at'[k];
      k := k + 1;
    }
  }

  /** The first-reply rule determines the tools: two lists that obey it are equal. */
  lemma FirstReplyToolsUnique(text: Text, h: seq<Entry>, tools: seq<Tool>, tools': seq<Tool>)
    requires FirstReplyTools(text, h, tools) && FirstReplyTools(text, h, tools')
    ensures tools == tools'
  {
    var at :| OneToolPerCall(h, at) && FirstReplyToolsAt(text, h, at, tools);
    var at' :| OneToolPerCall(h, at') && FirstReplyToolsAt(text, h, at', tools');
    PositionsUnique(h, at, at');
    forall k | 0 <= k < |at| ensures tools[k] == tools'[k] {
      FirstReplyToolUnique(text, h, at[k], tools[k], tools'[k]);
    }
  }

  lemma FirstReplyToolUnique(text: Text, h: seq<Entry>, i: nat, tool: Tool, tool': Tool)
    requires i < |h| && h[i].Call? && FirstReplyTool(text, h, i, tool) && FirstReplyTool(text, h, i, tool')
    ensures tool == tool'
  {
    if j :| FirstReply(h, i, j) {
    }
  }

  lemma LastReplyToolsUnique(text: Text, h: seq<Entry>, tools: seq<Tool>, tools': seq<Tool>)
    requires LastReplyTools(text, h, tools) && LastReplyTools(text, h, tools')
    ensures tools == tools'
  {
    var at :| OneToolPerCall(h, at) && LastReplyToolsAt(text, h, at, tools);
    var at' :| OneToolPerCall(h, at') && LastReplyToolsAt(text, h, at', tools');
    PositionsUnique(h, at, at');
    forall k | 0 <= k < |at| ensures tools[k] == tools'[k] {
      LastReplyToolUnique(text, h, at[k], tools[k], tools'[k]);
    }
  }

  lemma LastReplyToolUnique(text: Text, h: seq<Entry>, i: nat, tool: Tool, tool': Tool)
    requires i < |h| && h[i].Call? && LastReplyTool(text, h, i, tool) && LastReplyTool(text, h, i, tool')
    ensures tool == tool'
  {
    if j :| LastReply(h, i, j, true) {
    }
    if j :| LastReply(h, i, j, false) {
    }
  }

  /** Under the first-reply rule a written tool is final: whatever the transcript goes on with, its
      tool stays. */
  lemma FirstReplyIsFinal(text: Text, h: seq<Entry>, more: seq<Entry>, i: nat, j: nat, tool: Tool, tool': Tool)
    requires i < |h| && h[i].Call? && FirstReply(h, i, j)
    requires FirstReplyTool(text, h, i, tool)
    requires (h + more)[i].Call? && FirstReplyTool(text, h + more, i, tool')
    ensures tool' == tool
  {
    var h' := h + more;
    assert forall k :: 0 <= k < |h| ==> h'[k] == h[k];
    assert forall k :: i < k < j ==> Replies(h', i, k) == Replies(h, i, k) && Reuses(h', i, k) == Reuses(h, i, k);
    assert Replies(h', i, j);
    assert FirstReply(h', i, j);
  }

  /** Of the replies that count, one is the last. */
  lemma {:induction false} SomeReplyIsLast(h: seq<Entry>, i: nat, k: nat, timed: bool) returns (l: nat)
    requires i < k < |h| && h[i].Call? && Counts(h, i, k, timed) && Unclaimed(h, i, k)
    ensures k <= l && LastReply(h, i, l, timed)
    decreases |h| - k
  {
    if m: nat :| k < m < |h| && Unclaimed(h, i, m) && Counts(h, i, m, timed) {
      l := SomeReplyIsLast(h, i, m, timed);
    } else {
      l := k;
    }
  }

  /** A reply with a timestamp came before position j and after the call h[i]. */
  ghost predicate TimedBefore(h: seq<Entry>, i: nat, j: nat)
    requires i < |h| && j <= |h| && h[i].Call?
  {
    exists k :: i < k < j && Counts(h, i, k, true) && Unclaimed(h, i, k)
  }

  /** Under the last-reply rule output and duration of a tool come from the same reply exactly when the
      call has no timestamp, or the last reply has one, or no reply before it had one. */
  lemma DurationAgreesIff(text: Text, h: seq<Entry>, i: nat, j: nat, tool: Tool)
    requires i < |h| && h[i].Call? && LastReplyTool(text, h, i, tool) && LastReply(h, i, j, false)
    ensures tool.output == text.clean(h[j].raw)
    ensures tool.durationMs == Elapsed(h, i, j) <==> h[i].ts.None? || h[j].ts.Some? || !TimedBefore(h, i, j)
  {
    UntimedCall(text, h, i, tool);
    if h[j].ts.Some? {
      assert LastReply(h, i, j, true);
    } else if k :| i < k < j && Counts(h, i, k, true) && Unclaimed(h, i, k) {
      var l := SomeReplyIsLast(h, i, k, true);
      assert tool.durationMs == Elapsed(h, i, l);
    } else {
      forall l: nat ensures !LastReply(h, i, l, true) {
        assert LastReply(h, i, l, true) ==> Counts(h, i, l, false);
      }
    }
  }

  /** Under the last-reply rule the output and the duration of one tool can come from different
      records: a late reply without a timestamp replaces the text and leaves the old duration. */
  lemma DurationMayBeOlderThanOutput(text: Text)
    ensures var h := [Call("a", "t", Some(0)), Output(Some("a"), "x", Some(5)), Output(Some("a"), "y", None)];
      LastReplyTool(text, h, 0, Tool("t", text.clean("y"), Some(text.estimate("y")), Some(5)))
  {
    var h := [Call("a", "t", Some(0)), Output(Some("a"), "x", Some(5)), Output(Some("a"), "y", None)];
    assert Unclaimed(h, 0, 1) && Unclaimed(h, 0, 2) && Unclaimed(h, 0, 3);
    assert Counts(h, 0, 1, true) && Counts(h, 0, 2, false) && !Counts(h, 0, 2, true);
    assert LastReply(h, 0, 2, false) && LastReply(h, 0, 1, true);
    assert forall j :: LastReply(h, 0, j, false) ==> j == 2;
    assert forall j :: LastReply(h, 0, j, true) ==> j == 1;
  }

  // ---- The two rules for the stream of calls and replies as the transcript has it

  /** A call or a reply with the identifier it came with, if any. */
  datatype Item =
    | Use(id: Option<string>, name: string, ts: Option<int>)
    | Result(id: Option<string>, raw: string, ts: Option<int>)

  /** The positions of the calls, in order. */
  ghost predicate AreCalls(items: seq<Item>, calls: seq<nat>) {
    && (forall k :: 0 <= k < |calls| ==> calls[k] < |items| && items[calls[k]].Use?)
    && (forall k, l :: 0 <= k < l < |calls| ==> calls[k] < calls[l])
    && (forall i {:trigger items[i]} :: 0 <= i < |items| && items[i].Use? ==> i in calls)
  }

  /** The identifier of the k-th call: its own, or one made from its number. */
  function IdOf(items: seq<Item>, calls: seq<nat>, k: nat): string
    requires k < |calls| && calls[k] < |items|
  {
    if items[calls[k]].id.Some? then items[calls[k]].id.value else "idx-" + JsText.Decimal(k)
  }

  /** Item j is a reply to the k-th call: it comes later, under the same identifier, which is not empty,
      and before any other call has taken that identifier over.  The timed form asks for a timestamp. */
  ghost predicate IsReply(items: seq<Item>, calls: seq<nat>, k: nat, j: nat, timed: bool)
    requires AreCalls(items, calls) && k < |calls|
  {
    && calls[k] < j < |items| && items[j].Result? && (timed ==> items[j].ts.Some?)
    && IdOf(items, calls, k) != "" && items[j].id == Some(IdOf(items, calls, k))
    && forall l :: k < l < |calls| && calls[l] < j ==> IdOf(items, calls, l) != IdOf(items, calls, k)
  }

  ghost predicate IsFirstReply(items: seq<Item>, calls: seq<nat>, k: nat, j: nat)
    requires AreCalls(items, calls) && k < |calls|
  {
    IsReply(items, calls, k, j, false) && forall m: nat :: m < j ==> !IsReply(items, calls, k, m, false)
  }

  ghost predicate IsLastReply(items: seq<Item>, calls: seq<nat>, k: nat, j: nat, timed: bool)
    requires AreCalls(items, calls) && k < |calls|
  {
    IsReply(items, calls, k, j, timed) && forall m: nat :: m > j ==> !IsReply(items, calls, k, m, timed)
  }

  ghost predicate HasReply(items: seq<Item>, calls: seq<nat>, k: nat, timed: bool)
    requires AreCalls(items, calls) && k < |calls|
  {
    exists j: nat :: IsReply(items, calls, k, j, timed)
  }

  function Duration(call: Item, reply: Item): Option<int> {
    if call.ts.Some? && reply.ts.Some? then Some(reply.ts.value - call.ts.value) else None
  }

  /** The tool of the k-th call holds its first reply, or nothing. */
  ghost predicate HoldsFirst(text: Text, items: seq<Item>, calls: seq<nat>, k: nat, tool: Tool)
    requires AreCalls(items, calls) && k < |calls|
  {
    var call := items[calls[k]];
    && tool.name == call.name
    && (forall j: nat :: IsFirstReply(items, calls, k, j) ==>
          tool.output == text.clean(items[j].raw) && tool.estimatedTokens == Some(text.estimate(items[j].raw))
          && tool.durationMs == Duration(call, items[j]))
    && (!HasReply(items, calls, k, false) ==>
          tool.output == "" && tool.estimatedTokens == None && tool.durationMs == None)
  }

  /** The tool of the k-th call holds its last reply and the duration up to its last reply with a
      timestamp, or nothing. */
  ghost predicate HoldsLast(text: Text, items: seq<Item>, calls: seq<nat>, k: nat, tool: Tool)
    requires AreCalls(items, calls) && k < |calls|
  {
    var call := items[calls[k]];
    && tool.name == call.name
    && (forall j: nat :: IsLastReply(items, calls, k, j, false) ==>
          tool.output == text.clean(items[j].raw) && tool.estimatedTokens == Some(text.estimate(items[j].raw)))
    && (!HasReply(items, calls, k, false) ==> tool.output == "" && tool.estimatedTokens == None)
    && (forall j: nat :: IsLastReply(items, calls, k, j, true) ==> tool.durationMs == Duration(call, items[j]))
    && (!HasReply(items, calls, k, true) ==> tool.durationMs == None)
  }

  ghost predicate FirstReplies(text: Text, items: seq<Item>, tools: seq<Tool>) {
    exists calls ::
      AreCalls(items, calls) && |tools| == |calls|
      && forall k :: 0 <= k < |calls| ==> HoldsFirst(text, items, calls, k, tools[k])
  }

  ghost predicate LastReplies(text: Text, items: seq<Item>, tools: seq<Tool>) {
    exists calls ::
      AreCalls(items, calls) && |tools| == |calls|
      && forall k :: 0 <= k < |calls| ==> HoldsLast(text, items, calls, k, tools[k])
  }

  // ---- The stream and the history of filed identifiers

  /** The stream with every call's identifier made out. */
  function Filed(items: seq<Item>): seq<Entry> {
    if items == [] then []
    else
      var h := Filed(items[..|items| - 1]);
      h + [FiledEntry(h, items[|items| - 1])]
  }

  function FiledEntry(h: seq<Entry>, item: Item): Entry {
    match item
    case Use(id, name, ts) => Call(FiledUnder(id, CallCount(h)), name, ts)
    case Result(id, raw, ts) => Output(id, raw, ts)
  }

  lemma {:induction false} FiledAt(items: seq<Item>, m: nat)
    requires m < |items|
    ensures |Filed(items)| == |items|
    ensures Filed(items)[m] == FiledEntry(Filed(items)[..m], items[m])
  {
    var n := |items| - 1;
    FiledLength(items);
    FiledLength(items[..n]);
    if m < n {
      FiledAt(items[..n], m);
      assert Filed(items)[..m] == Filed(items[..n])[..m];
    } else {
      assert Filed(items)[..n] == Filed(items[..n]);
    }
  }

  lemma FiledOneMore(items: seq<Item>, item: Item)
    ensures Filed(items + [item]) == Filed(items) + [FiledEntry(Filed(items), item)]
  {
    assert (items + [item])[..|items|] == items;
  }

  lemma {:induction false} FiledLength(items: seq<Item>)
    ensures |Filed(items)| == |items|
  {
    if items != [] {
      FiledLength(items[..|items| - 1]);
    }
  }

  /** The calls before position n are the first m of the list. */
  ghost predicate SplitsAt(at: seq<nat>, n: nat, m: nat) {
    m <= |at| && (forall k :: 0 <= k < m ==> at[k] < n) && (forall k :: m <= k < |at| ==> at[k] >= n)
  }

  lemma {:induction false} CallsBefore(h: seq<Entry>, at: seq<nat>, n: nat) returns (m: nat)
    requires OneToolPerCall(h, at) && n <= |h|
    ensures CallCount(h[..n]) == m && SplitsAt(at, n, m)
  {
    if n == 0 {
      m := 0;
    } else {
      m := CallsBefore(h, at, n - 1);
      assert h[..n][..n - 1] == h[..n - 1];
      if h[n - 1].Call? {
        assert n - 1 in at;
        SplitsOneMore(at, n - 1, m);
        m := m + 1;
      } else {
        assert forall k :: 0 <= k < |at| ==> at[k] != n - 1;
      }
    }
  }

  lemma SplitsOneMore(at: seq<nat>, n: nat, m: nat)
    requires SplitsAt(at, n, m) && n in at && forall k, l :: 0 <= k < l < |at| ==> at[k] < at[l]
    ensures SplitsAt(at, n + 1, m + 1)
  {
    var k :| 0 <= k < |at| && at[k] == n;
    assert k >= m;
    forall l | m + 1 <= l < |at| ensures at[l] >= n + 1 {
      assert at[m] < at[l];
    }
  }

  /** Positions and identifiers in the stream are those in the history. */
  ghost predicate FiledAs(items: seq<Item>, at: seq<nat>) {
    && OneToolPerCall(Filed(items), at) && AreCalls(items, at)
    && forall k :: 0 <= k < |at| ==> Filed(items)[at[k]].id == IdOf(items, at, k)
  }

  lemma {:induction false} FiledCalls(items: seq<Item>, at: seq<nat>)
    requires OneToolPerCall(Filed(items), at)
    ensures FiledAs(items, at)
  {
    var h := Filed(items);
    FiledLength(items);
    forall i | 0 <= i < |items| ensures h[i].Call? == items[i].Use? {
      FiledAt(items, i);
    }
    forall k | 0 <= k < |at| ensures h[at[k]].id == IdOf(items, at, k) {
      FiledId(items, at, k);
    }
  }

  lemma {:induction false} FiledId(items: seq<Item>, at: seq<nat>, k: nat)
    requires OneToolPerCall(Filed(items), at) && k < |at| && at[k] < |items| && items[at[k]].Use?
    ensures Filed(items)[at[k]].id == IdOf(items, at, k)
  {
    FiledAt(items, at[k]);
    var m := CallsBefore(Filed(items), at, at[k]);
    SplitsOnce(at, k, m);
  }

  lemma SplitsOnce(at: seq<nat>, k: nat, m: nat)
    requires k < |at| && SplitsAt(at, at[k], m) && forall i, j :: 0 <= i < j < |at| ==> at[i] < at[j]
    ensures m == k
  {
    var next := if m < |at| then at[m] else 0;
    assert m < |at| ==> next >= at[k];
  }

  /** Replies in the two readings. */
  lemma {:induction false} FiledReplies(items: seq<Item>, at: seq<nat>, k: nat, j: nat, timed: bool)
    requires FiledAs(items, at) && k < |at|
    ensures IsReply(items, at, k, j, timed)
      <==> at[k] < j < |Filed(items)| && Counts(Filed(items), at[k], j, timed) && Unclaimed(Filed(items), at[k], j)
  {
    FiledLength(items);
    if at[k] < j < |items| {
      FiledAt(items, j);
      UnclaimedByNumber(items, at, k, j);
    }
  }

  lemma {:induction false} UnclaimedByNumber(items: seq<Item>, at: seq<nat>, k: nat, j: nat)
    requires FiledAs(items, at) && k < |at| && at[k] < j <= |Filed(items)|
    ensures Unclaimed(Filed(items), at[k], j)
      <==> forall l :: k < l < |at| && at[l] < j ==> IdOf(items, at, l) != IdOf(items, at, k)
  {
    if forall l :: k < l < |at| && at[l] < j ==> IdOf(items, at, l) != IdOf(items, at, k) {
      NotReused(items, at, k, j);
    }
    if Unclaimed(Filed(items), at[k], j) {
      forall l | k < l < |at| && at[l] < j ensures IdOf(items, at, l) != IdOf(items, at, k) {
        assert !Reuses(Filed(items), at[k], at[l]);
      }
    }
  }

  lemma {:induction false} NotReused(items: seq<Item>, at: seq<nat>, k: nat, j: nat)
    requires FiledAs(items, at) && k < |at| && at[k] < j <= |Filed(items)|
    requires forall l :: k < l < |at| && at[l] < j ==> IdOf(items, at, l) != IdOf(items, at, k)
    ensures Unclaimed(Filed(items), at[k], j)
  {
    var h := Filed(items);
    forall i | at[k] < i < j ensures !Reuses(h, at[k], i) {
      if h[i].Call? {
        assert i in at;
        var l :| 0 <= l < |at| && at[l] == i;
      }
    }
  }

  lemma {:induction false} FirstAlike(items: seq<Item>, at: seq<nat>, k: nat, j: nat)
    requires FiledAs(items, at) && k < |at|
    ensures FirstReply(Filed(items), at[k], j) <==> IsFirstReply(items, at, k, j)
  {
    var h, i := Filed(items), at[k];
    FiledReplies(items, at, k, j, false);
    if IsFirstReply(items, at, k, j) {
      forall m | i < m < j ensures !Replies(h, i, m) {
        FiledReplies(items, at, k, m, false);
      }
    }
    if FirstReply(h, i, j) {
      forall m: nat | m < j ensures !IsReply(items, at, k, m, false) {
        FiledReplies(items, at, k, m, false);
      }
    }
  }

  lemma {:induction false} LastAlike(items: seq<Item>, at: seq<nat>, k: nat, j: nat, timed: bool)
    requires FiledAs(items, at) && k < |at|
    ensures LastReply(Filed(items), at[k], j, timed) <==> IsLastReply(items, at, k, j, timed)
  {
    forall m: nat
      ensures IsReply(items, at, k, m, timed)
        <==> at[k] < m < |Filed(items)| && Counts(Filed(items), at[k], m, timed) && Unclaimed(Filed(items), at[k], m)
    {
      FiledReplies(items, at, k, m, timed);
    }
  }

  lemma {:induction false} FirstToolHolds(text: Text, items: seq<Item>, at: seq<nat>, k: nat, tool: Tool)
    requires FiledAs(items, at) && k < |at| && FirstReplyTool(text, Filed(items), at[k], tool)
    ensures HoldsFirst(text, items, at, k, tool)
  {
    var h, i := Filed(items), at[k];
    FiledLength(items);
    FiledAt(items, i);
    FirstReplyName(text, h, i, tool);
    forall j: nat | IsFirstReply(items, at, k, j)
      ensures tool == Tool(tool.name, text.clean(items[j].raw), Some(text.estimate(items[j].raw)),
                           Duration(items[i], items[j]))
    {
      FirstAlike(items, at, k, j);
      FiledAt(items, j);
    }
    if !HasReply(items, at, k, false) {
      forall j: nat ensures !FirstReply(h, i, j) {
        FirstAlike(items, at, k, j);
      }
    }
  }

  lemma {:induction false} LastToolHolds(text: Text, items: seq<Item>, at: seq<nat>, k: nat, tool: Tool)
    requires FiledAs(items, at) && k < |at| && LastReplyTool(text, Filed(items), at[k], tool)
    ensures HoldsLast(text, items, at, k, tool)
  {
    FiledLength(items);
    FiledAt(items, at[k]);
    UntimedCall(text, Filed(items), at[k], tool);
    LastOutputHolds(text, items, at, k, tool);
    LastDurationHolds(text, items, at, k, tool);
  }

  lemma {:induction false} LastOutputHolds(text: Text, items: seq<Item>, at: seq<nat>, k: nat, tool: Tool)
    requires FiledAs(items, at) && k < |at| && LastReplyTool(text, Filed(items), at[k], tool)
    ensures forall j: nat :: IsLastReply(items, at, k, j, false) ==>
      tool.output == text.clean(items[j].raw) && tool.estimatedTokens == Some(text.estimate(items[j].raw))
    ensures !HasReply(items, at, k, false) ==> tool.output == "" && tool.estimatedTokens == None
  {
    forall j: nat | IsLastReply(items, at, k, j, false)
      ensures tool.output == text.clean(items[j].raw) && tool.estimatedTokens == Some(text.estimate(items[j].raw))
    {
      LastAlike(items, at, k, j, false);
      FiledAt(items, j);
    }
    if !HasReply(items, at, k, false) {
      forall j: nat ensures !LastReply(Filed(items), at[k], j, false) {
        LastAlike(items, at, k, j, false);
      }
    }
  }

  lemma {:induction false} LastDurationHolds(text: Text, items: seq<Item>, at: seq<nat>, k: nat, tool: Tool)
    requires FiledAs(items, at) && k < |at| && LastReplyTool(text, Filed(items), at[k], tool)
    ensures forall j: nat :: IsLastReply(items, at, k, j, true) ==> tool.durationMs == Duration(items[at[k]], items[j])
    ensures !HasReply(items, at, k, true) ==> tool.durationMs == None
  {
    FiledLength(items);
    FiledAt(items, at[k]);
    forall j: nat | IsLastReply(items, at, k, j, true)
      ensures tool.durationMs == Duration(items[at[k]], items[j])
    {
      LastAlike(items, at, k, j, true);
      FiledAt(items, j);
    }
    if !HasReply(items, at, k, true) {
      forall j: nat ensures !LastReply(Filed(items), at[k], j, true) {
        LastAlike(items, at, k, j, true);
      }
    }
  }

  /** The tools of a history are the tools of its stream. */
  lemma {:induction false} FirstRepliesOf(text: Text, items: seq<Item>, tools: seq<Tool>)
    requires FirstReplyTools(text, Filed(items), tools)
    ensures FirstReplies(text, items, tools)
  {
    var at :| OneToolPerCall(Filed(items), at) && FirstReplyToolsAt(text, Filed(items), at, tools);
    FiledCalls(items, at);
    forall k | 0 <= k < |at| ensures HoldsFirst(text, items, at, k, tools[k]) {
      FirstToolHolds(text, items, at, k, tools[k]);
    }
  }

  lemma {:induction false} LastRepliesOf(text: Text, items: seq<Item>, tools: seq<Tool>)
    requires LastReplyTools(text, Filed(items), tools)
    ensures LastReplies(text, items, tools)
  {
    var at :| OneToolPerCall(Filed(items), at) && LastReplyToolsAt(text, Filed(items), at, tools);
    FiledCalls(items, at);
    forall k | 0 <= k < |at| ensures HoldsLast(text, items, at, k, tools[k]) {
      LastToolHolds(text, items, at, k, tools[k]);
    }
  }
}
