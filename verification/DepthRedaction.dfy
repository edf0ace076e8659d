/** Depth-limited redaction of telemetry payloads.  The payload is an arbitrary heap graph, cycles
    included; only the depth argument makes the walk end. */
module DepthRedaction {
  import opened Options
  import opened JsText

  datatype Value =
    | Str(s: string) | Num(n: real) | Bool(b: bool) | Null
    | Array(arr: ArrayNode) | Object(obj: ObjectNode) | Error(err: ErrorNode)

  class ArrayNode {
    var items: seq<Value>
  }

  class ObjectNode {
    var entries: seq<(string, Value)>
  }

  /** `custom` are the enumerable own properties. */
  class ErrorNode {
    var name: string
    var message: string
    var stack: Option<string>
    var cause: Option<Value>
    var custom: seq<(string, Value)>
  }

  datatype Out =
    | OStr(s: string) | ONum(n: real) | OBool(b: bool) | ONull
    | OArray(items: seq<Out>) | OObject(fields: seq<Field>)
    | OError(name: string, message: string, stack: Option<string>, cause: Option<Out>, custom: seq<Field>)

  datatype Field = Field(key: string, value: Out)

  /** The pattern tables, and the stack trace a new error gets. */
  datatype Rules = Rules(redact: string -> string, isSecretKey: string -> bool, newStack: string -> string)

  const REDACTED := OStr("[REDACTED]")
  const TRUNCATED := OObject([Field("_truncated", OBool(true))])
  const COMPLETED_EVENT := "prompt.dispatch_subspans_completed"
  const SUBSPAN_NAMES := {
    "runtime_client_ready", "session_created", "prompt_sent_to_backend", "backend_first_token",
    "bridge_first_visible_event_queued", "bridge_first_visible_event_buffered", "bridge_first_visible_event" }
  const SNAPSHOT_KEYS := {"offset_ms", "duration_ms", "signal", "first_event_type", "skipped"}

  // ---- The exemption

  function Fields(v: Value): seq<(string, Value)>
    reads if v.Object? then {v.obj as object} else if v.Error? then {v.err as object} else {}
  {
    match v
    case Object(o) => o.entries
    case Error(e) => e.custom
    case _ => []
  }

  predicate FitsSnapshot(key: string, v: Value) {
    match key
    case "offset_ms" => v.Num?
    case "duration_ms" => v.Num?
    case "signal" => v.Str?
    case "first_event_type" => v.Str?
    case "skipped" => v.Bool?
    case _ => false
  }

  predicate IsSnapshot(v: Value)
    reads if v.Object? then {v.obj as object} else if v.Error? then {v.err as object} else {}
  {
    && (v.Object? || v.Error?)
    && (exists i :: 0 <= i < |Fields(v)| && Fields(v)[i].0 == "offset_ms")
    && (forall i :: 0 <= i < |Fields(v)| ==> FitsSnapshot(Fields(v)[i].0, Fields(v)[i].1))
  }

  predicate UnderSpans(rootEvent: Option<string>, path: seq<string>, key: string) {
    rootEvent == Some(COMPLETED_EVENT) && path != [] && path[|path| - 1] == "spans" && key in SUBSPAN_NAMES
  }

  /** The root object's `event`, when that is a string; entries have distinct keys, so the first is
      the one. */
  function EventOf(entries: seq<(string, Value)>): Option<string> {
    if entries == [] then None
    else if entries[0].0 == "event" then (if entries[0].1.Str? then Some(entries[0].1.s) else None)
    else EventOf(entries[1..])
  }

  // ---- The walk

  function Budget(maxDepth: int): nat { if maxDepth < -1 then 0 else maxDepth + 1 }

  function RedactValue(rules: Rules, v: Value, maxDepth: int, path: seq<string>, root: Option<string>): Out
    reads *
    decreases Budget(maxDepth), 1
  {
    if maxDepth <= 0 && (v.Error? || v.Array? || v.Object?) then TRUNCATED
    else
      match v
      case Str(s) => OStr(rules.redact(s))
      case Num(n) => ONum(n)
      case Bool(b) => OBool(b)
      case Null => ONull
      case Error(e) => RedactError(rules, e, maxDepth - 1, path, root)
      case Array(a) => OArray(RedactItems(rules, a.items, |a.items|, maxDepth - 1, path, root))
      case Object(o) => RedactObject(rules, o, maxDepth - 1, path, root)
  }

  function RedactItems(rules: Rules, items: seq<Value>, n: nat, maxDepth: int, path: seq<string>,
                       root: Option<string>): (out: seq<Out>)
    requires n <= |items|
    reads *
    ensures |out| == n
    decreases Budget(maxDepth), 2, n
  {
    if n == 0 then []
    else
      RedactItems(rules, items, n - 1, maxDepth, path, root)
      + [RedactValue(rules, items[n - 1], maxDepth, path + [Decimal(n - 1)], root)]
  }

  predicate ErrorIsClean(rules: Rules, e: ErrorNode)
    reads e
  {
    && rules.redact(e.message) == e.message
    && (e.stack.Some? && e.stack.value != "" ==> rules.redact(e.stack.value) == e.stack.value)
    && e.stack != Some("") && e.cause.None? && e.custom == []
  }

  function RedactError(rules: Rules, e: ErrorNode, maxDepth: int, path: seq<string>, root: Option<string>): Out
    reads *
    decreases Budget(maxDepth), 4
  {
    if ErrorIsClean(rules, e) then OError(e.name, e.message, e.stack, None, [])
    else
      var message := rules.redact(e.message);
      OError(e.name, message,
        if e.stack.Some? && e.stack.value != "" && rules.redact(e.stack.value) != ""
          then Some(rules.redact(e.stack.value)) else Some(rules.newStack(message)),
        if e.cause.Some? then Some(RedactValue(rules, e.cause.value, maxDepth - 1, path + ["cause"], root)) else None,
        RedactCustom(rules, e.custom, |e.custom|, maxDepth, path, root))
  }

  function RedactCustom(rules: Rules, custom: seq<(string, Value)>, n: nat, maxDepth: int, path: seq<string>,
                        root: Option<string>): seq<Field>
    requires n <= |custom|
    reads *
    decreases Budget(maxDepth), 3, n
  {
    if n == 0 then []
    else
      var (key, value) := custom[n - 1];
      RedactCustom(rules, custom, n - 1, maxDepth, path, root)
      + if key == "cause" then []
        else [Field(key, if rules.isSecretKey(key) then REDACTED else RedactValue(rules, value, maxDepth - 1,
          path + [key], root))]
  }

  function RedactObject(rules: Rules, o: ObjectNode, maxDepth: int, path: seq<string>, root: Option<string>): Out
    reads *
    decreases Budget(maxDepth), 5
  {
    if maxDepth <= 0 then TRUNCATED
    else OObject(RedactEntries(rules, o.entries, |o.entries|, maxDepth, path,
                               if path == [] then EventOf(o.entries) else root))
  }

  /** The object that a property is copied into gets the placeholder for a secret key, and otherwise
      the redacted value, one level deeper. */
  function RedactEntries(rules: Rules, entries: seq<(string, Value)>, n: nat, maxDepth: int, path: seq<string>,
                         root: Option<string>): (out: seq<Field>)
    requires n <= |entries| && maxDepth >= 1
    reads *
    ensures |out| == n
    decreases Budget(maxDepth), 4, n
  {
    if n == 0 then []
    else
      var (key, value) := entries[n - 1];
      RedactEntries(rules, entries, n - 1, maxDepth, path, root)
      + [Field(key, RedactProperty(rules, key, value, maxDepth - 1, path, root))]
  }

  function RedactProperty(rules: Rules, key: string, value: Value, maxDepth: int, path: seq<string>,
                          root: Option<string>): Out
    reads *
    decreases Budget(maxDepth), 6
  {
    var nextPath := path + [key];
    if rules.isSecretKey(key) && !(UnderSpans(root, path, key) && IsSnapshot(value)) then REDACTED
    else
      match value
      case Error(e) => RedactError(rules, e, maxDepth, nextPath, root)
      case Str(s) => OStr(rules.redact(s))
      case Array(a) => OArray(RedactItems(rules, a.items, |a.items|, maxDepth, nextPath, root))
      case Object(o) => RedactObject(rules, o, maxDepth, nextPath, root)
      case Num(n) => ONum(n)
      case Bool(b) => OBool(b)
      case Null => ONull
  }

  // ---- Bounded output

  function Max(a: nat, b: nat): nat { if a >= b then a else b }

  /** Levels of containers. */
  function Nesting(out: Out): nat {
    match out
    case OArray(items) => 1 + NestingOfItems(items)
    case OObject(fields) => 1 + NestingOfFields(fields)
    case OError(_, _, _, cause, custom) => 1
      + Max(if cause.Some? then Nesting(cause.value) else 0, NestingOfFields(custom))
    case _ => 0
  }

  function NestingOfItems(items: seq<Out>): nat {
    if items == [] then 0 else Max(NestingOfItems(items[..|items| - 1]), Nesting(items[|items| - 1]))
  }

  function NestingOfFields(fields: seq<Field>): nat {
    if fields == [] then 0 else Max(NestingOfFields(fields[..|fields| - 1]), Nesting(fields[|fields| - 1].value))
  }

  function ValueBound(maxDepth: int): nat { if maxDepth <= 0 then 1 else maxDepth + 1 }

  function ObjectBound(maxDepth: int): nat { if maxDepth <= 0 then 1 else maxDepth + 2 }

  function ErrorBound(maxDepth: int): nat { if maxDepth <= 0 then 2 else maxDepth + 1 }

  lemma {:induction false} ValueNesting(rules: Rules, v: Value, maxDepth: int, path: seq<string>, root: Option<string>)
    ensures Nesting(RedactValue(rules, v, maxDepth, path, root)) <= ValueBound(maxDepth)
    decreases Budget(maxDepth), 1
  {
    var out := RedactValue(rules, v, maxDepth, path, root);
    if maxDepth > 0 {
      match v
      case Error(e) =>
        ErrorNesting(rules, e, maxDepth - 1, path, root);
        assert out == RedactError(rules, e, maxDepth - 1, path, root);
      case Array(a) =>
        ItemsNesting(rules, a.items, |a.items|, maxDepth - 1, path, root);
        assert out == OArray(RedactItems(rules, a.items, |a.items|, maxDepth - 1, path, root));
      case Object(o) =>
        ObjectNesting(rules, o, maxDepth - 1, path, root);
        assert out == RedactObject(rules, o, maxDepth - 1, path, root);
      case _ =>
    } else {
      TruncatedNesting();
    }
  }

  lemma TruncatedNesting()
    ensures Nesting(TRUNCATED) == 1
  {
    var entries := [Field("_truncated", OBool(true))];
    assert entries[..0] == [];
    assert NestingOfFields(entries) == Max(NestingOfFields(entries[..0]), Nesting(OBool(true)));
  }

  lemma {:induction false} ItemsNesting(rules: Rules, items: seq<Value>, n: nat, maxDepth: int, path: seq<string>,
                                        root: Option<string>)
    requires n <= |items|
    ensures NestingOfItems(RedactItems(rules, items, n, maxDepth, path, root)) <= ValueBound(maxDepth)
    decreases Budget(maxDepth), 2, n
  {
    if n > 0 {
      ItemsNesting(rules, items, n - 1, maxDepth, path, root);
      ValueNesting(rules, items[n - 1], maxDepth, path + [Decimal(n - 1)], root);
      var out := RedactItems(rules, items, n, maxDepth, path, root);
      assert out[..|out| - 1] == RedactItems(rules, items, n - 1, maxDepth, path, root);
    }
  }

  lemma {:induction false} CustomNesting(rules: Rules, custom: seq<(string, Value)>, n: nat, maxDepth: int,
                                         path: seq<string>, root: Option<string>)
    requires n <= |custom|
    ensures NestingOfFields(RedactCustom(rules, custom, n, maxDepth, path, root)) <= ValueBound(maxDepth - 1)
    decreases Budget(maxDepth), 3, n
  {
    if n > 0 {
      CustomNesting(rules, custom, n - 1, maxDepth, path, root);
      var front := RedactCustom(rules, custom, n - 1, maxDepth, path, root);
      var (key, value) := custom[n - 1];
      if key == "cause" {
        assert front + [] == front;
      } else {
        ValueNesting(rules, value, maxDepth - 1, path + [key], root);
        var out := if rules.isSecretKey(key) then REDACTED
          else RedactValue(rules, value, maxDepth - 1, path + [key], root);
        assert RedactCustom(rules, custom, n, maxDepth, path, root) == front + [Field(key, out)];
        OneMoreField(front, Field(key, out));
      }
    }
  }

  lemma OneMoreField(front: seq<Field>, last: Field)
    ensures NestingOfFields(front + [last]) == Max(NestingOfFields(front), Nesting(last.value))
  {
    assert (front + [last])[..|front|] == front;
  }

  lemma {:induction false} ErrorNesting(rules: Rules, e: ErrorNode, maxDepth: int, path: seq<string>,
                                        root: Option<string>)
    ensures Nesting(RedactError(rules, e, maxDepth, path, root)) <= ErrorBound(maxDepth)
    decreases Budget(maxDepth), 4
  {
    if !ErrorIsClean(rules, e) {
      var custom := RedactCustom(rules, e.custom, |e.custom|, maxDepth, path, root);
      CustomNesting(rules, e.custom, |e.custom|, maxDepth, path, root);
      var out := RedactError(rules, e, maxDepth, path, root);
      assert out.custom == custom;
      if e.cause.Some? {
        ValueNesting(rules, e.cause.value, maxDepth - 1, path + ["cause"], root);
        assert out.cause == Some(RedactValue(rules, e.cause.value, maxDepth - 1, path + ["cause"], root));
      }
    }
  }

  lemma {:induction false} EntriesNesting(rules: Rules, entries: seq<(string, Value)>, n: nat, maxDepth: int,
                                          path: seq<string>, root: Option<string>)
    requires n <= |entries| && maxDepth >= 1
    ensures NestingOfFields(RedactEntries(rules, entries, n, maxDepth, path, root)) <= maxDepth + 1
    decreases Budget(maxDepth), 4, n
  {
    if n > 0 {
      EntriesNesting(rules, entries, n - 1, maxDepth, path, root);
      PropertyNesting(rules, entries[n - 1].0, entries[n - 1].1, maxDepth - 1, path, root);
      var out := RedactEntries(rules, entries, n, maxDepth, path, root);
      assert out[..|out| - 1] == RedactEntries(rules, entries, n - 1, maxDepth, path, root);
    }
  }

  lemma {:induction false} PropertyNesting(rules: Rules, key: string, value: Value, maxDepth: int, path: seq<string>,
                                           root: Option<string>)
    requires maxDepth >= 0
    ensures Nesting(RedactProperty(rules, key, value, maxDepth, path, root)) <= maxDepth + 2
    decreases Budget(maxDepth), 6
  {
    var nextPath := path + [key];
    match value
    case Error(e) => ErrorNesting(rules, e, maxDepth, nextPath, root);
    case Array(a) => ItemsNesting(rules, a.items, |a.items|, maxDepth, nextPath, root);
    case Object(o) => ObjectNesting(rules, o, maxDepth, nextPath, root);
    case _ =>
  }

  /** Whatever the heap looks like, cycles included, the walk ends and its result is at most two
      levels deeper than the depth argument; one level when that is used up. */
  lemma {:induction false} ObjectNesting(rules: Rules, o: ObjectNode, maxDepth: int, path: seq<string>,
                                         root: Option<string>)
    ensures Nesting(RedactObject(rules, o, maxDepth, path, root)) <= ObjectBound(maxDepth)
    decreases Budget(maxDepth), 5
  {
    if maxDepth <= 0 {
      TruncatedNesting();
    } else {
      EntriesNesting(rules, o.entries, |o.entries|, maxDepth, path, if path == [] then EventOf(o.entries) else root);
    }
  }

  /** The bound is met, at every depth, by an object holding an array that holds itself. */
  lemma NestingBoundIsTight(rules: Rules, o: ObjectNode, a: ArrayNode, maxDepth: int)
    requires maxDepth >= 1 && !rules.isSecretKey("a")
    requires o.entries == [("a", Array(a))] && a.items == [Array(a)]
    ensures Nesting(RedactObject(rules, o, maxDepth, [], None)) == maxDepth + 2
  {
    var root := EventOf(o.entries);
    CyclicItems(rules, a, maxDepth - 1, ["a"], root);
    var fields := RedactEntries(rules, o.entries, 1, maxDepth, [], root);
    var value := OArray(RedactItems(rules, a.items, 1, maxDepth - 1, ["a"], root));
    assert RedactEntries(rules, o.entries, 0, maxDepth, [], root) == [];
    assert [] + ["a"] == ["a"];
    assert RedactProperty(rules, "a", Array(a), maxDepth - 1, [], root) == value;
    assert fields == [] + [Field("a", value)] && fields[..0] == [];
    assert NestingOfFields(fields) == Max(NestingOfFields(fields[..0]), Nesting(value));
  }

  lemma {:induction false} CyclicItems(rules: Rules, a: ArrayNode, maxDepth: nat, path: seq<string>,
                                       root: Option<string>)
    requires a.items == [Array(a)]
    ensures NestingOfItems(RedactItems(rules, a.items, 1, maxDepth, path, root)) == maxDepth + 1
  {
    var inner := RedactValue(rules, Array(a), maxDepth, path + [Decimal(0)], root);
    if maxDepth == 0 {
      TruncatedNesting();
    } else {
      CyclicItems(rules, a, maxDepth - 1, path + [Decimal(0)], root);
    }
    assert RedactItems(rules, a.items, 0, maxDepth, path, root) == [];
    var out := RedactItems(rules, a.items, 1, maxDepth, path, root);
    assert out == [inner] && out[..0] == [];
  }

  // ---- No secret-named key survives

  predicate AllSnapshotKeys(fields: seq<Field>) {
    forall i :: 0 <= i < |fields| ==> fields[i].key in SNAPSHOT_KEYS
  }

  /** A dispatch span snapshot, or what is left of one when the depth is used up. */
  predicate SnapshotShaped(out: Out) {
    match out
    case OObject(fields) => out == TRUNCATED || AllSnapshotKeys(fields)
    case OError(_, _, _, _, custom) => AllSnapshotKeys(custom)
    case _ => false
  }

  /** Every secret-named key below this node holds the placeholder, except a span snapshot directly
      under `spans` of a completed-subspans event. */
  ghost predicate Scrubbed(rules: Rules, root: Option<string>, path: seq<string>, out: Out)
    decreases out
  {
    match out
    case OArray(items) => forall i :: 0 <= i < |items| ==> Scrubbed(rules, root, path + [Decimal(i)], items[i])
    case OObject(fields) => AllScrubbed(rules, root, path, fields, true)
    case OError(_, _, _, cause, custom) =>
      (cause.Some? ==> Scrubbed(rules, root, path + ["cause"], cause.value))
        && AllScrubbed(rules, root, path, custom, false)
    case _ => true
  }

  ghost predicate ScrubbedField(rules: Rules, root: Option<string>, path: seq<string>, f: Field, exempts: bool)
    decreases f
  {
    && (rules.isSecretKey(f.key) ==>
          f.value == REDACTED || (exempts && UnderSpans(root, path, f.key) && SnapshotShaped(f.value)))
    && Scrubbed(rules, root, path + [f.key], f.value)
  }

  ghost predicate AllScrubbed(rules: Rules, root: Option<string>, path: seq<string>, fields: seq<Field>, exempts: bool)
    decreases fields
  {
    forall i :: 0 <= i < |fields| ==> ScrubbedField(rules, root, path, fields[i], exempts)
  }

  lemma {:induction false} ValueScrubbed(rules: Rules, v: Value, maxDepth: int, path: seq<string>, root: Option<string>)
    requires !rules.isSecretKey("_truncated") && path != []
    ensures Scrubbed(rules, root, path, RedactValue(rules, v, maxDepth, path, root))
    decreases Budget(maxDepth), 1
  {
    if maxDepth > 0 {
      match v
      case Error(e) => ErrorScrubbed(rules, e, maxDepth - 1, path, root);
      case Array(a) => ItemsScrubbed(rules, a.items, |a.items|, maxDepth - 1, path, root);
      case Object(o) => ObjectScrubbed(rules, o, maxDepth - 1, path, root);
      case _ =>
    }
  }

  lemma {:induction false} ItemsScrubbed(rules: Rules, items: seq<Value>, n: nat, maxDepth: int, path: seq<string>,
                                         root: Option<string>)
    requires !rules.isSecretKey("_truncated") && path != [] && n <= |items|
    ensures forall i :: 0 <= i < n ==>
      Scrubbed(rules, root, path + [Decimal(i)], RedactItems(rules, items, n, maxDepth, path, root)[i])
    decreases Budget(maxDepth), 2, n
  {
    if n > 0 {
      ItemsScrubbed(rules, items, n - 1, maxDepth, path, root);
      ValueScrubbed(rules, items[n - 1], maxDepth, path + [Decimal(n - 1)], root);
    }
  }

  lemma {:induction false} CustomScrubbed(rules: Rules, custom: seq<(string, Value)>, n: nat, maxDepth: int,
                                          path: seq<string>, root: Option<string>)
    requires !rules.isSecretKey("_truncated") && n <= |custom|
    ensures AllScrubbed(rules, root, path, RedactCustom(rules, custom, n, maxDepth, path, root), false)
    decreases Budget(maxDepth), 3, n
  {
    if n > 0 {
      var (key, value) := custom[n - 1];
      CustomScrubbed(rules, custom, n - 1, maxDepth, path, root);
      ValueScrubbed(rules, value, maxDepth - 1, path + [key], root);
      var last := Field(key, if rules.isSecretKey(key) then REDACTED
        else RedactValue(rules, value, maxDepth - 1, path + [key], root));
      assert ScrubbedField(rules, root, path, last, false);
      assert RedactCustom(rules, custom, n, maxDepth, path, root)
          == RedactCustom(rules, custom, n - 1, maxDepth, path, root) + if key == "cause" then [] else [last];
    }
  }

  lemma {:induction false} ErrorScrubbed(rules: Rules, e: ErrorNode, maxDepth: int, path: seq<string>,
                                         root: Option<string>)
    requires !rules.isSecretKey("_truncated")
    ensures Scrubbed(rules, root, path, RedactError(rules, e, maxDepth, path, root))
    decreases Budget(maxDepth), 4
  {
    CustomScrubbed(rules, e.custom, |e.custom|, maxDepth, path, root);
    if e.cause.Some? {
      ValueScrubbed(rules, e.cause.value, maxDepth - 1, path + ["cause"], root);
    }
  }

  lemma {:induction false} EntriesScrubbed(rules: Rules, entries: seq<(string, Value)>, n: nat, maxDepth: int,
                                           path: seq<string>, root: Option<string>)
    requires !rules.isSecretKey("_truncated") && n <= |entries| && maxDepth >= 1
    ensures AllScrubbed(rules, root, path, RedactEntries(rules, entries, n, maxDepth, path, root), true)
    decreases Budget(maxDepth), 4, n
  {
    if n > 0 {
      var (key, value) := entries[n - 1];
      EntriesScrubbed(rules, entries, n - 1, maxDepth, path, root);
      PropertyScrubbed(rules, key, value, maxDepth - 1, path, root);
      if IsSnapshot(value) {
        SnapshotStaysSnapshot(rules, key, value, maxDepth - 1, path, root);
      }
      var last := Field(key, RedactProperty(rules, key, value, maxDepth - 1, path, root));
      assert ScrubbedField(rules, root, path, last, true);
      assert RedactEntries(rules, entries, n, maxDepth, path, root)
          == RedactEntries(rules, entries, n - 1, maxDepth, path, root) + [last];
    }
  }

  lemma {:induction false} PropertyScrubbed(rules: Rules, key: string, value: Value, maxDepth: int, path: seq<string>,
                                            root: Option<string>)
    requires !rules.isSecretKey("_truncated") && maxDepth >= 0
    ensures Scrubbed(rules, root, path + [key], RedactProperty(rules, key, value, maxDepth, path, root))
    decreases Budget(maxDepth), 6
  {
    var nextPath := path + [key];
    match value
    case Error(e) => ErrorScrubbed(rules, e, maxDepth, nextPath, root);
    case Array(a) => ItemsScrubbed(rules, a.items, |a.items|, maxDepth, nextPath, root);
    case Object(o) => ObjectScrubbed(rules, o, maxDepth, nextPath, root);
    case _ =>
  }

  lemma SnapshotStaysSnapshot(rules: Rules, key: string, value: Value, maxDepth: int, path: seq<string>,
                              root: Option<string>)
    requires IsSnapshot(value)
    ensures var out := RedactProperty(rules, key, value, maxDepth, path, root); out == REDACTED || SnapshotShaped(out)
  {
    var nextPath := path + [key];
    match value
    case Object(o) =>
      if maxDepth >= 1 {
        EntriesKeys(rules, o.entries, |o.entries|, maxDepth, nextPath, root);
      }
    case Error(e) =>
      CustomKeys(rules, e.custom, |e.custom|, maxDepth, nextPath, root);
  }

  lemma {:induction false} EntriesKeys(rules: Rules, entries: seq<(string, Value)>, n: nat, maxDepth: int,
                                       path: seq<string>, root: Option<string>)
    requires n <= |entries| && maxDepth >= 1
    ensures forall i :: 0 <= i < n ==> RedactEntries(rules, entries, n, maxDepth, path, root)[i].key == entries[i].0
  {
    if n > 0 {
      EntriesKeys(rules, entries, n - 1, maxDepth, path, root);
    }
  }

  lemma {:induction false} CustomKeys(rules: Rules, custom: seq<(string, Value)>, n: nat, maxDepth: int,
                                      path: seq<string>, root: Option<string>)
    requires n <= |custom| && forall i :: 0 <= i < n ==> FitsSnapshot(custom[i].0, custom[i].1)
    ensures AllSnapshotKeys(RedactCustom(rules, custom, n, maxDepth, path, root))
  {
    if n > 0 {
      CustomKeys(rules, custom, n - 1, maxDepth, path, root);
      var (key, value) := custom[n - 1];
      assert FitsSnapshot(key, value) && key in SNAPSHOT_KEYS;
      var last := Field(key, if rules.isSecretKey(key) then REDACTED
        else RedactValue(rules, value, maxDepth - 1, path + [key], root));
      assert RedactCustom(rules, custom, n, maxDepth, path, root)
          == RedactCustom(rules, custom, n - 1, maxDepth, path, root) + if key == "cause" then [] else [last];
    }
  }

  /** In the redacted form of any payload, at any depth limit, every secret-named key of an object or
      of a cloned error holds the placeholder; the one exception is a dispatch span snapshot. */
  lemma {:induction false} ObjectScrubbed(rules: Rules, o: ObjectNode, maxDepth: int, path: seq<string>,
                                          root: Option<string>)
    requires !rules.isSecretKey("_truncated")
    ensures Scrubbed(rules, if path == [] then EventOf(o.entries)
      else root, path, RedactObject(rules, o, maxDepth, path, root))
    decreases Budget(maxDepth), 5
  {
    if maxDepth > 0 {
      EntriesScrubbed(rules, o.entries, |o.entries|, maxDepth, path, if path == [] then EventOf(o.entries) else root);
    }
  }

  // ---- What the redacted form says, place by place

  /** The event stands at this position, and no property before it is called so. */
  predicate IsEventAt(entries: seq<(string, Value)>, event: string, i: nat) {
    && i < |entries| && entries[i] == ("event", Str(event))
    && forall j :: 0 <= j < i ==> entries[j].0 != "event"
  }

  /** The root object's event, when that is a string. */
  lemma {:induction false} EventOfIff(entries: seq<(string, Value)>, event: string)
    ensures EventOf(entries) == Some(event) <==> exists i :: IsEventAt(entries, event, i)
  {
    if entries != [] && entries[0].0 != "event" {
      var rest := entries[1..];
      EventOfIff(rest, event);
      if EventOf(entries) == Some(event) {
        var i: nat :| IsEventAt(rest, event, i);
        assert forall j :: 0 < j < i + 2 ==> entries[j] == rest[j - 1];
        assert IsEventAt(entries, event, i + 1);
      }
      if i: nat :| IsEventAt(entries, event, i) {
        assert forall j :: 0 <= j < i ==> rest[j] == entries[j + 1];
        assert IsEventAt(rest, event, i - 1);
      }
    } else if EventOf(entries) == Some(event) {
      assert IsEventAt(entries, event, 0);
    }
  }

  /** A container is cut off when the containers around it have used up the limit: an array or object
      around it counts one, an error two; an array or an error is let through one level deeper. */
  predicate IsCut(v: Value, cost: nat, limit: int) {
    (v.Object? && cost >= limit) || ((v.Array? || v.Error?) && cost > limit)
  }

  /** A property of a span snapshot. */
  predicate IsSnapshotEntry(p: (string, Value)) {
    || (p.0 == "offset_ms" && p.1.Num?) || (p.0 == "duration_ms" && p.1.Num?)
    || (p.0 == "signal" && p.1.Str?) || (p.0 == "first_event_type" && p.1.Str?) || (p.0 == "skipped" && p.1.Bool?)
  }

  predicate AreSnapshotEntries(entries: seq<(string, Value)>) {
    && (forall i :: 0 <= i < |entries| ==> IsSnapshotEntry(entries[i]))
    && exists i :: 0 <= i < |entries| && entries[i].0 == "offset_ms"
  }

  /** A span snapshot in the `spans` of a completed-subspans event. */
  predicate IsExempt(root: Option<string>, path: seq<string>, key: string, v: Value)
    reads if v.Object? then {v.obj as object} else if v.Error? then {v.err as object} else {}
  {
    && root == Some("prompt.dispatch_subspans_completed") && path != [] && path[|path| - 1] == "spans"
    && key in {"runtime_client_ready", "session_created", "prompt_sent_to_backend", "backend_first_token",
               "bridge_first_visible_event_queued", "bridge_first_visible_event_buffered",
               "bridge_first_visible_event"}
    && match v
       case Object(o) => AreSnapshotEntries(o.entries)
       case Error(e) => AreSnapshotEntries(e.custom)
       case _ => false
  }

  function WithoutCause(custom: seq<(string, Value)>): seq<(string, Value)> {
    if custom == [] then []
    else
      WithoutCause(custom[..|custom| - 1])
      + if custom[|custom| - 1].0 == "cause" then [] else [custom[|custom| - 1]]
  }

  /** The stack of a redacted error: the redacted one, or that of a new error unless the error is
      returned as it is. */
  predicate StackMirrors(rules: Rules, e: ErrorNode, stack: Option<string>)
    reads e
  {
    if e.stack.Some? && e.stack.value != "" && rules.redact(e.stack.value) != ""
    then stack == Some(rules.redact(e.stack.value))
    else if e.stack.None? && rules.redact(e.message) == e.message && e.cause.None? && e.custom == [] then stack == None
    else stack == Some(rules.newStack(rules.redact(e.message)))
  }

  /** What stands in the output where v stands in the payload: text is redacted, other leaves are kept,
      and containers keep their shape, their keys and their order down to where they are cut off. */
  ghost predicate Mirrors(rules: Rules, root: Option<string>, limit: int, cost: nat, path: seq<string>, v: Value,
                          out: Out)
    reads *
    decreases out
  {
    if IsCut(v, cost, limit) then out == OObject([Field("_truncated", OBool(true))])
    else
      match v
      case Str(s) => out == OStr(rules.redact(s))
      case Num(n) => out == ONum(n)
      case Bool(b) => out == OBool(b)
      case Null => out == ONull
      case Array(a) => out.OArray? && ItemsMirror(rules, root, limit, cost + 1, path, a.items, out.items)
      case Object(o) => out.OObject? && FieldsMirror(rules, if path == [] then EventOf(o.entries) else root, limit,
        cost + 1, path, o.entries, out.fields, true)
      case Error(e) => out.OError? && ErrorMirrors(rules, root, limit, cost, path, e, out)
  }

  ghost predicate ErrorMirrors(rules: Rules, root: Option<string>, limit: int, cost: nat, path: seq<string>,
                               e: ErrorNode, out: Out)
    requires out.OError?
    reads *
    decreases out, 0
  {
    && out.name == e.name && out.message == rules.redact(e.message) && StackMirrors(rules, e, out.stack)
    && out.cause.Some? == e.cause.Some?
    && (out.cause.Some? ==>
          Mirrors(rules, root, limit, cost + 2, path + ["cause"], e.cause.value, out.cause.value))
    && FieldsMirror(rules, root, limit, cost + 2, path, WithoutCause(e.custom), out.custom, false)
  }

  ghost predicate ItemsMirror(rules: Rules, root: Option<string>, limit: int, cost: nat, path: seq<string>,
                              items: seq<Value>, out: seq<Out>)
    reads *
    decreases out
  {
    |out| == |items|
    && forall i :: 0 <= i < |out| ==> Mirrors(rules, root, limit, cost, path + [Decimal(i)], items[i], out[i])
  }

  ghost predicate FieldMirrors(rules: Rules, root: Option<string>, limit: int, cost: nat, path: seq<string>,
                               p: (string, Value), f: Field, exempts: bool)
    reads *
    decreases f
  {
    && f.key == p.0
    && if rules.isSecretKey(p.0) && !(exempts && IsExempt(root, path, p.0, p.1)) then f.value == OStr("[REDACTED]")
       else Mirrors(rules, root, limit, cost, path + [p.0], p.1, f.value)
  }

  ghost predicate FieldsMirror(rules: Rules, root: Option<string>, limit: int, cost: nat, path: seq<string>,
                               entries: seq<(string, Value)>, fields: seq<Field>, exempts: bool)
    reads *
    decreases fields
  {
    |fields| == |entries|
    && forall i :: 0 <= i < |fields| ==>
         FieldMirrors(rules, root, limit, cost, path, entries[i], fields[i], exempts)
  }

  lemma SnapshotsAlike(v: Value, root: Option<string>, path: seq<string>, key: string)
    ensures IsExempt(root, path, key, v) <==> UnderSpans(root, path, key) && IsSnapshot(v)
  {
    SnapshotEntriesAlike(Fields(v));
  }

  lemma SnapshotEntriesAlike(entries: seq<(string, Value)>)
    ensures (forall i :: 0 <= i < |entries| ==> FitsSnapshot(entries[i].0, entries[i].1))
      <==> forall i :: 0 <= i < |entries| ==> IsSnapshotEntry(entries[i])
  {
    forall i | 0 <= i < |entries| ensures FitsSnapshot(entries[i].0, entries[i].1) <==> IsSnapshotEntry(entries[i]) {
      EntryAlike(entries[i].0, entries[i].1);
    }
  }

  lemma EntryAlike(key: string, v: Value)
    ensures FitsSnapshot(key, v) <==> IsSnapshotEntry((key, v))
  {
  }

  lemma {:induction false} ValueMirrors(rules: Rules, v: Value, limit: int, cost: nat, path: seq<string>,
                                        root: Option<string>)
    requires cost >= 1 && path != []
    ensures Mirrors(rules, root, limit, cost, path, v, RedactValue(rules, v, limit - cost + 1, path, root))
    decreases Budget(limit - cost + 1), 1
  {
    if limit - cost + 1 > 0 {
      match v
      case Error(e) => ErrorIsMirrored(rules, e, limit, cost, path, root);
      case Array(a) => ItemsAreMirrored(rules, a.items, |a.items|, limit, cost + 1, path, root);
      case Object(o) => ObjectMirrors(rules, o, limit, cost, path, root);
      case _ =>
    }
  }

  lemma {:induction false} ItemsAreMirrored(rules: Rules, items: seq<Value>, n: nat, limit: int, cost: nat,
                                            path: seq<string>, root: Option<string>)
    requires n <= |items| && cost >= 1 && path != []
    ensures ItemsMirror(rules, root, limit, cost, path, items[..n],
                        RedactItems(rules, items, n, limit - cost + 1, path, root))
    decreases Budget(limit - cost + 1), 2, n
  {
    if n > 0 {
      ItemsAreMirrored(rules, items, n - 1, limit, cost, path, root);
      ValueMirrors(rules, items[n - 1], limit, cost, path + [Decimal(n - 1)], root);
      ItemsOneMore(rules, root, limit, cost, path, items[..n - 1], items[n - 1],
                   RedactItems(rules, items, n - 1, limit - cost + 1, path, root),
                   RedactValue(rules, items[n - 1], limit - cost + 1, path + [Decimal(n - 1)], root));
      assert items[..n] == items[..n - 1] + [items[n - 1]];
    }
  }

  lemma ItemsOneMore(rules: Rules, root: Option<string>, limit: int, cost: nat, path: seq<string>, items: seq<Value>,
                     v: Value, outs: seq<Out>, out: Out)
    requires ItemsMirror(rules, root, limit, cost, path, items, outs)
    requires Mirrors(rules, root, limit, cost, path + [Decimal(|items|)], v, out)
    ensures ItemsMirror(rules, root, limit, cost, path, items + [v], outs + [out])
  {
  }

  lemma FieldsOneMore(rules: Rules, root: Option<string>, limit: int, cost: nat, path: seq<string>,
                      entries: seq<(string, Value)>, p: (string, Value), fields: seq<Field>, f: Field, exempts: bool)
    requires FieldsMirror(rules, root, limit, cost, path, entries, fields, exempts)
    requires FieldMirrors(rules, root, limit, cost, path, p, f, exempts)
    ensures FieldsMirror(rules, root, limit, cost, path, entries + [p], fields + [f], exempts)
  {
  }

  lemma {:induction false} CustomMirrors(rules: Rules, custom: seq<(string, Value)>, n: nat, limit: int, cost: nat,
                                         path: seq<string>, root: Option<string>)
    requires n <= |custom|
    ensures FieldsMirror(rules, root, limit, cost + 2, path, WithoutCause(custom[..n]),
                         RedactCustom(rules, custom, n, limit - cost, path, root), false)
    decreases Budget(limit - cost), 3, n
  {
    if n > 0 {
      var (key, value) := custom[n - 1];
      CustomMirrors(rules, custom, n - 1, limit, cost, path, root);
      ValueMirrors(rules, value, limit, cost + 2, path + [key], root);
      assert custom[..n][..n - 1] == custom[..n - 1] && custom[..n][n - 1] == custom[n - 1];
      var out := if rules.isSecretKey(key) then REDACTED
        else RedactValue(rules, value, limit - cost - 1, path + [key], root);
      var front := RedactCustom(rules, custom, n - 1, limit - cost, path, root);
      assert RedactCustom(rules, custom, n, limit - cost, path, root)
          == front + if key == "cause" then [] else [Field(key, out)];
      if key == "cause" {
        assert front + [] == front;
      } else {
        FieldsOneMore(rules, root, limit, cost + 2, path, WithoutCause(custom[..n - 1]), custom[n - 1], front,
                      Field(key, out), false);
      }
    }
  }

  lemma {:induction false} ErrorIsMirrored(rules: Rules, e: ErrorNode, limit: int, cost: nat, path: seq<string>,
                                           root: Option<string>)
    ensures RedactError(rules, e, limit - cost, path, root).OError?
    ensures ErrorMirrors(rules, root, limit, cost, path, e, RedactError(rules, e, limit - cost, path, root))
    decreases Budget(limit - cost), 4
  {
    if !ErrorIsClean(rules, e) {
      ErrorUnfold(rules, e, limit - cost, path, root);
      CustomMirrors(rules, e.custom, |e.custom|, limit, cost, path, root);
      assert e.custom[..|e.custom|] == e.custom;
      if e.cause.Some? {
        ValueMirrors(rules, e.cause.value, limit, cost + 2, path + ["cause"], root);
      }
    }
  }

  lemma {:induction false} EntriesMirror(rules: Rules, entries: seq<(string, Value)>, n: nat, limit: int, cost: nat,
                                         path: seq<string>, root: Option<string>)
    requires n <= |entries| && limit - cost >= 1
    ensures FieldsMirror(rules, root, limit, cost + 1, path, entries[..n],
                         RedactEntries(rules, entries, n, limit - cost, path, root), true)
    decreases Budget(limit - cost), 4, n
  {
    if n > 0 {
      var (key, value) := entries[n - 1];
      EntriesMirror(rules, entries, n - 1, limit, cost, path, root);
      PropertyMirrors(rules, key, value, limit, cost + 1, path, root);
      FieldsOneMore(rules, root, limit, cost + 1, path, entries[..n - 1], entries[n - 1],
                    RedactEntries(rules, entries, n - 1, limit - cost, path, root),
                    Field(key, RedactProperty(rules, key, value, limit - cost - 1, path, root)), true);
      assert entries[..n] == entries[..n - 1] + [entries[n - 1]];
    }
  }

  lemma {:induction false} PropertyMirrors(rules: Rules, key: string, value: Value, limit: int, cost: nat,
                                           path: seq<string>, root: Option<string>)
    requires limit - cost >= 0
    ensures FieldMirrors(rules, root, limit, cost, path, (key, value),
                         Field(key, RedactProperty(rules, key, value, limit - cost, path, root)), true)
    decreases Budget(limit - cost), 6
  {
    var nextPath := path + [key];
    SnapshotsAlike(value, root, path, key);
    if !(rules.isSecretKey(key) && !IsExempt(root, path, key, value)) {
      match value
      case Error(e) => ErrorIsMirrored(rules, e, limit, cost, nextPath, root);
      case Array(a) =>
        ItemsAreMirrored(rules, a.items, |a.items|, limit, cost + 1, nextPath, root);
        assert a.items[..|a.items|] == a.items;
      case Object(o) => ObjectMirrors(rules, o, limit, cost, nextPath, root);
      case _ =>
    }
  }

  /** The redacted form of any payload, cycles included, at any limit. */
  lemma {:induction false} ObjectMirrors(rules: Rules, o: ObjectNode, limit: int, cost: nat, path: seq<string>,
                                         root: Option<string>)
    ensures Mirrors(rules, root, limit, cost, path, Object(o), RedactObject(rules, o, limit - cost, path, root))
    decreases Budget(limit - cost), 5
  {
    if limit - cost > 0 {
      var nextRoot := if path == [] then EventOf(o.entries) else root;
      EntriesMirror(rules, o.entries, |o.entries|, limit, cost, path, nextRoot);
      assert o.entries[..|o.entries|] == o.entries;
    }
  }

  /** No text is left that redaction would change. */
  predicate IsRedacted(rules: Rules, out: Out) {
    match out
    case OStr(s) => rules.redact(s) == s
    case OArray(items) => forall i :: 0 <= i < |items| ==> IsRedacted(rules, items[i])
    case OObject(fields) => forall i :: 0 <= i < |fields| ==> IsRedacted(rules, fields[i].value)
    case OError(_, message, _, cause, custom) =>
      && rules.redact(message) == message && (cause.Some? ==> IsRedacted(rules, cause.value))
      && forall i :: 0 <= i < |custom| ==> IsRedacted(rules, custom[i].value)
    case _ => true
  }

  ghost predicate RedactsOnce(rules: Rules) {
    rules.redact("[REDACTED]") == "[REDACTED]" && forall s :: rules.redact(rules.redact(s)) == rules.redact(s)
  }

  lemma {:induction false} MirrorIsRedacted(rules: Rules, root: Option<string>, limit: int, cost: nat,
                                            path: seq<string>, v: Value, out: Out)
    requires RedactsOnce(rules) && Mirrors(rules, root, limit, cost, path, v, out)
    ensures IsRedacted(rules, out)
    decreases out
  {
    if !IsCut(v, cost, limit) {
      match v
      case Array(a) =>
        forall i | 0 <= i < |out.items| ensures IsRedacted(rules, out.items[i]) {
          MirrorIsRedacted(rules, root, limit, cost + 1, path + [Decimal(i)], a.items[i], out.items[i]);
        }
      case Object(o) =>
        var nextRoot := if path == [] then EventOf(o.entries) else root;
        FieldsAreRedacted(rules, nextRoot, limit, cost + 1, path, o.entries, out.fields, true);
      case Error(e) =>
        if out.cause.Some? {
          MirrorIsRedacted(rules, root, limit, cost + 2, path + ["cause"], e.cause.value, out.cause.value);
        }
        FieldsAreRedacted(rules, root, limit, cost + 2, path, WithoutCause(e.custom), out.custom, false);
      case _ =>
    }
  }

  lemma {:induction false} FieldsAreRedacted(rules: Rules, root: Option<string>, limit: int, cost: nat,
                                             path: seq<string>, entries: seq<(string, Value)>, fields: seq<Field>,
                                             exempts: bool)
    requires RedactsOnce(rules) && FieldsMirror(rules, root, limit, cost, path, entries, fields, exempts)
    ensures forall i :: 0 <= i < |fields| ==> IsRedacted(rules, fields[i].value)
    decreases fields
  {
    forall i | 0 <= i < |fields| ensures IsRedacted(rules, fields[i].value) {
      assert FieldMirrors(rules, root, limit, cost, path, entries[i], fields[i], exempts);
      if !(rules.isSecretKey(entries[i].0) && !(exempts && IsExempt(root, path, entries[i].0, entries[i].1))) {
        MirrorIsRedacted(rules, root, limit, cost, path + [entries[i].0], entries[i].1, fields[i].value);
      }
    }
  }

  /** With a redaction that changes nothing the second time, the redacted form of any payload is free of
      text it would change, at any limit. */
  lemma PayloadIsRedacted(rules: Rules, o: ObjectNode, limit: int)
    requires RedactsOnce(rules)
    ensures IsRedacted(rules, RedactObject(rules, o, limit, [], None))
  {
    RedactedIsMirror(rules, o, limit, [], None);
  }

  // ---- The loops

  method WalkValue(rules: Rules, v: Value, maxDepth: int, path: seq<string>, root: Option<string>) returns (out: Out)
    ensures out == RedactValue(rules, v, maxDepth, path, root)
    decreases Budget(maxDepth), 1
  {
    if maxDepth <= 0 && (v.Error? || v.Array? || v.Object?) {
      return TRUNCATED;
    }
    match v {
      case Str(s) => out := OStr(rules.redact(s));
      case Num(n) => out := ONum(n);
      case Bool(b) => out := OBool(b);
      case Null => out := ONull;
      case Error(e) => out := WalkError(rules, e, maxDepth - 1, path, root);
      case Array(a) =>
        var items := WalkItems(rules, a.items, maxDepth - 1, path, root);
        out := OArray(items);
      case Object(o) => out := WalkObject(rules, o, maxDepth - 1, path, root);
    }
  }

  method WalkItems(rules: Rules, items: seq<Value>, maxDepth: int, path: seq<string>, root: Option<string>)
      returns (out: seq<Out>)
    ensures out == RedactItems(rules, items, |items|, maxDepth, path, root)
    decreases Budget(maxDepth), 2
  {
    out := [];
    for index := 0 to |items|
      invariant out == RedactItems(rules, items, index, maxDepth, path, root)
    {
      var item := WalkValue(rules, items[index], maxDepth, path + [Decimal(index)], root);
      out := out + [item];
    }
  }

  method WalkError(rules: Rules, e: ErrorNode, maxDepth: int, path: seq<string>, root: Option<string>)
      returns (out: Out)
    ensures out == RedactError(rules, e, maxDepth, path, root)
    decreases Budget(maxDepth), 4
  {
    if ErrorIsClean(rules, e) {
      return OError(e.name, e.message, e.stack, None, []);
    }
    var message := rules.redact(e.message);
    var stack := if e.stack.Some? && e.stack.value != "" then rules.redact(e.stack.value) else "";
    var cause: Option<Out> := None;
    if e.cause.Some? {
      var redacted := WalkValue(rules, e.cause.value, maxDepth - 1, path + ["cause"], root);
      cause := Some(redacted);
    }
    var custom := WalkCustom(rules, e.custom, maxDepth, path, root);
    out := OError(e.name, message, Some(if stack != "" then stack else rules.newStack(message)), cause, custom);
    ErrorUnfold(rules, e, maxDepth, path, root);
  }

  lemma ErrorUnfold(rules: Rules, e: ErrorNode, maxDepth: int, path: seq<string>, root: Option<string>)
    requires !ErrorIsClean(rules, e)
    ensures var message, out := rules.redact(e.message), RedactError(rules, e, maxDepth, path, root);
      var stack := if e.stack.Some? && e.stack.value != "" then rules.redact(e.stack.value) else "";
      && out.OError? && out.name == e.name && out.message == message
      && out.stack == Some(if stack != "" then stack else rules.newStack(message))
      && out.cause == (if e.cause.Some?
                       then Some(RedactValue(rules, e.cause.value, maxDepth - 1, path + ["cause"], root)) else None)
      && out.custom == RedactCustom(rules, e.custom, |e.custom|, maxDepth, path, root)
  {
  }

  method WalkCustom(rules: Rules, properties: seq<(string, Value)>, maxDepth: int, path: seq<string>,
                    root: Option<string>) returns (custom: seq<Field>)
    ensures custom == RedactCustom(rules, properties, |properties|, maxDepth, path, root)
    decreases Budget(maxDepth), 3
  {
    custom := [];
    for index := 0 to |properties|
      invariant custom == RedactCustom(rules, properties, index, maxDepth, path, root)
    {
      var (key, value) := properties[index];
      if key == "cause" {
        assert custom + [] == custom;
        continue;
      }
      var redacted := REDACTED;
      if !rules.isSecretKey(key) {
        redacted := WalkValue(rules, value, maxDepth - 1, path + [key], root);
      }
      custom := custom + [Field(key, redacted)];
    }
  }

  method WalkObject(rules: Rules, o: ObjectNode, maxDepth: int, path: seq<string>, root: Option<string>)
      returns (out: Out)
    ensures out == RedactObject(rules, o, maxDepth, path, root)
    ensures Mirrors(rules, root, maxDepth, 0, path, Object(o), out)
    ensures RedactsOnce(rules) ==> IsRedacted(rules, out)
    decreases Budget(maxDepth), 5
  {
    if maxDepth <= 0 {
      RedactedIsMirror(rules, o, maxDepth, path, root);
      return TRUNCATED;
    }
    var nextRoot := if path == [] then EventOf(o.entries) else root;
    var fields: seq<Field> := [];
    for index := 0 to |o.entries|
      invariant fields == RedactEntries(rules, o.entries, index, maxDepth, path, nextRoot)
    {
      var (key, value) := o.entries[index];
      var redacted := WalkProperty(rules, key, value, maxDepth - 1, path, nextRoot);
      fields := fields + [Field(key, redacted)];
    }
    out := OObject(fields);
    RedactedIsMirror(rules, o, maxDepth, path, root);
  }

  lemma RedactedIsMirror(rules: Rules, o: ObjectNode, limit: int, path: seq<string>, root: Option<string>)
    ensures Mirrors(rules, root, limit, 0, path, Object(o), RedactObject(rules, o, limit, path, root))
    ensures RedactsOnce(rules) ==> IsRedacted(rules, RedactObject(rules, o, limit, path, root))
  {
    ObjectMirrors(rules, o, limit, 0, path, root);
    if RedactsOnce(rules) {
      MirrorIsRedacted(rules, root, limit, 0, path, Object(o), RedactObject(rules, o, limit, path, root));
    }
  }

  method WalkProperty(rules: Rules, key: string, value: Value, maxDepth: int, path: seq<string>, root: Option<string>)
      returns (out: Out)
    ensures out == RedactProperty(rules, key, value, maxDepth, path, root)
    decreases Budget(maxDepth), 6
  {
    var nextPath := path + [key];
    if rules.isSecretKey(key) && !(UnderSpans(root, path, key) && IsSnapshot(value)) {
      return REDACTED;
    }
    match value {
      case Error(e) => out := WalkError(rules, e, maxDepth, nextPath, root);
      case Str(s) => out := OStr(rules.redact(s));
      case Array(a) =>
        var items := WalkItems(rules, a.items, maxDepth, nextPath, root);
        out := OArray(items);
      case Object(o) => out := WalkObject(rules, o, maxDepth, nextPath, root);
      case Num(n) => out := ONum(n);
      case Bool(b) => out := OBool(b);
      case Null => out := ONull;
    }
  }
}
