/** Copy-on-write redaction: string leaves are rewritten, and what holds no rewritten leaf is shared. */
module LazyRedaction {
  import opened Options

  /** A JavaScript value.  Containers are heap objects, so two of them are equal only when they are
      the same reference. */
  datatype Value =
    | Text(s: string) | Number(n: real) | NotANumber | Null
    | List(list: ListNode) | Record(record: RecordNode)

  datatype Property = Property(key: string, value: Value)

  /** `repr` holds everything that can be reached from the items. */
  class ListNode {
    var items: seq<Value>
    ghost const height: nat
    ghost var repr: set<object>

    constructor (items: seq<Value>, ghost height: nat, ghost repr: set<object>)
      ensures this.items == items && this.height == height && this.repr == repr
    {
      this.items := items;
      this.height := height;
      this.repr := repr;
    }
  }

  class RecordNode {
    var entries: seq<Property>
    ghost const height: nat
    ghost var repr: set<object>

    constructor (entries: seq<Property>, ghost height: nat, ghost repr: set<object>)
      ensures this.entries == entries && this.height == height && this.repr == repr
    {
      this.entries := entries;
      this.height := height;
      this.repr := repr;
    }
  }

  predicate IsContainer(v: Value) { v.List? || v.Record? }

  ghost function Height(v: Value): nat {
    match v
    case List(node) => node.height
    case Record(node) => node.height
    case _ => 0
  }

  /** The container itself, if the value is one. */
  ghost function Self(v: Value): set<object> {
    match v
    case List(node) => {node}
    case Record(node) => {node}
    case _ => {}
  }

  /** What can be reached from the value's items. */
  ghost function Repr(v: Value): set<object>
    reads Self(v)
  {
    match v
    case List(node) => node.repr
    case Record(node) => node.repr
    case _ => {}
  }

  ghost function Footprint(v: Value): set<object>
    reads Self(v)
  {
    Self(v) + Repr(v)
  }

  function Values(entries: seq<Property>): (values: seq<Value>)
    ensures |values| == |entries| && forall i :: 0 <= i < |entries| ==> values[i] == entries[i].value
  {
    seq(|entries|, i requires 0 <= i < |entries| => entries[i].value)
  }

  function Keys(entries: seq<Property>): (keys: seq<string>)
    ensures |keys| == |entries| && forall i :: 0 <= i < |entries| ==> keys[i] == entries[i].key
  {
    seq(|entries|, i requires 0 <= i < |entries| => entries[i].key)
  }

  ghost function Children(v: Value): seq<Value>
    reads Self(v)
  {
    match v
    case List(node) => node.items
    case Record(node) => Values(node.entries)
    case _ => []
  }

  /** The keys of an object; an array has none. */
  ghost function KeysOf(v: Value): seq<string>
    reads Self(v)
  {
    if v.Record? then Keys(v.record.entries) else []
  }

  // ---- Values without cycles

  /** No container reaches itself, as in every value that came out of JSON. */
  ghost predicate Acyclic(v: Value)
    reads Footprint(v)
    decreases Height(v), 1
  {
    Self(v) !! Repr(v) && AllWithin(Children(v), Height(v), Repr(v))
  }

  ghost predicate AllWithin(items: seq<Value>, height: nat, repr: set<object>)
    reads repr
    decreases height, 0
  {
    forall i :: 0 <= i < |items| ==> Height(items[i]) < height && Within(items[i], repr) && Acyclic(items[i])
  }

  ghost predicate Within(v: Value, repr: set<object>)
    reads repr
  {
    Self(v) <= repr && Repr(v) <= repr
  }

  // ---- The eager reading, on trees

  datatype Tree =
    | TText(s: string) | TNumber(n: real) | TNotANumber | TNull
    | TList(items: seq<Tree>) | TRecord(keys: seq<string>, values: seq<Tree>)

  ghost function TreeOf(v: Value): Tree
    requires Acyclic(v)
    reads Footprint(v)
    decreases Height(v), 1
  {
    match v
    case Text(s) => TText(s)
    case Number(n) => TNumber(n)
    case NotANumber => TNotANumber
    case Null => TNull
    case List(_) => TList(TreesOf(Children(v), Height(v), Repr(v)))
    case Record(_) => TRecord(KeysOf(v), TreesOf(Children(v), Height(v), Repr(v)))
  }

  ghost function TreesOf(items: seq<Value>, height: nat, repr: set<object>): (trees: seq<Tree>)
    requires AllWithin(items, height, repr)
    reads repr
    ensures |trees| == |items| && forall i :: 0 <= i < |items| ==> trees[i] == TreeOf(items[i])
    decreases height, 0, |items|
  {
    if items == [] then []
    else TreesOf(items[..|items| - 1], height, repr) + [TreeOf(items[|items| - 1])]
  }

  /** Every string leaf rewritten, everything else copied. */
  function Eager(redact: string -> string, t: Tree): Tree {
    match t
    case TText(s) => TText(redact(s))
    case TList(items) => TList(seq(|items|, i requires 0 <= i < |items| => Eager(redact, items[i])))
    case TRecord(keys, values) => TRecord(keys, seq(|values|, i requires 0 <= i < |values| => Eager(redact, values[i])))
    case _ => t
  }

  /** A not-a-number strictly inside a container. */
  predicate HoldsNaN(t: Tree) {
    match t
    case TList(items) => exists i :: 0 <= i < |items| && (items[i].TNotANumber? || HoldsNaN(items[i]))
    case TRecord(_, values) => exists i :: 0 <= i < |values| && (values[i].TNotANumber? || HoldsNaN(values[i]))
    case _ => false
  }

  /** The operator `===`: not-a-number differs from itself. */
  predicate StrictlyEqual(a: Value, b: Value) { a == b && !a.NotANumber? }

  // ---- Sharing

  /** Nothing in v makes the lazy walk see a difference. */
  ghost predicate Quiet(redact: string -> string, v: Value)
    requires Acyclic(v)
    reads Footprint(v)
    decreases Height(v), 1
  {
    if v.Text? then redact(v.s) == v.s
    else IsContainer(v) ==> AllQuiet(redact, Children(v), Height(v), Repr(v))
  }

  ghost predicate AllQuiet(redact: string -> string, items: seq<Value>, height: nat, repr: set<object>)
    requires AllWithin(items, height, repr)
    reads repr
    decreases height, 0
  {
    forall i :: 0 <= i < |items| ==> !items[i].NotANumber? && Quiet(redact, items[i])
  }

  /** r is v with the differing containers, and only those, replaced by others. */
  ghost predicate Shares(redact: string -> string, v: Value, r: Value)
    requires Acyclic(v) && Acyclic(r)
    reads Footprint(v), Footprint(r)
    decreases Height(v), 1
  {
    if Quiet(redact, v) then r == v
    else if v.Text? then r == Text(redact(v.s)) && r != v
    else
      && r != v && v.List? == r.List? && v.Record? == r.Record? && KeysOf(v) == KeysOf(r)
      && AllShare(redact, Children(v), Height(v), Repr(v), Children(r), Height(r), Repr(r))
  }

  ghost predicate AllShare(redact: string -> string, items: seq<Value>, height: nat, repr: set<object>,
                           items': seq<Value>, height': nat, repr': set<object>)
    requires AllWithin(items, height, repr) && AllWithin(items', height', repr')
    reads repr, repr'
    decreases height, 0
  {
    |items| == |items'| && forall i :: 0 <= i < |items| ==> Shares(redact, items[i], items'[i])
  }

  // ---- Places

  /** What stands at the end of a path of positions, if it leads anywhere. */
  ghost function ValueAt(v: Value, path: seq<nat>): Option<Value>
    reads *
    decreases |path|
  {
    if path == [] then Some(v)
    else if v.List? && path[0] < |v.list.items| then ValueAt(v.list.items[path[0]], path[1..])
    else if v.Record? && path[0] < |v.record.entries| then ValueAt(v.record.entries[path[0]].value, path[1..])
    else None
  }

  /** Place by place: text is rewritten, other leaves are kept, arrays keep their length and objects their
      keys in order. */
  ghost predicate IsRedactionOf(redact: string -> string, v: Option<Value>, r: Option<Value>)
    reads *
  {
    match v
    case None => r == None
    case Some(Text(s)) => r == Some(Text(redact(s)))
    case Some(List(node)) => r.Some? && r.value.List? && |r.value.list.items| == |node.items|
    case Some(Record(node)) =>
      && r.Some? && r.value.Record? && |r.value.record.entries| == |node.entries|
      && forall i :: 0 <= i < |node.entries| ==> r.value.record.entries[i].key == node.entries[i].key
    case _ => r == v
  }

  // ---- The walk

  /** Nothing that was there before is written: there is no modifies clause.  A result other than the
      value itself is a new container, and everything below it is new or comes from the value. */
  method RedactSecretsInValue(redact: string -> string, value: Value) returns (r: Value)
    requires Acyclic(value)
    ensures Acyclic(r) && Height(r) <= Height(value) && Shares(redact, value, r)
    ensures r != value ==> fresh(Self(r))
    ensures forall o :: o in Repr(r) ==> o in Repr(value) || fresh(o)
    ensures TreeOf(value) == old(TreeOf(value)) && TreeOf(r) == Eager(redact, old(TreeOf(value)))
    ensures r == value <==> TreeOf(r) == old(TreeOf(value)) && !HoldsNaN(old(TreeOf(value)))
    ensures forall path :: IsRedactionOf(redact, ValueAt(value, path), ValueAt(r, path))
  {
    ghost var before := TreeOf(value);
    r := Walk(redact, value);
    assert TreeOf(value) == before;
    LazyEqualsEager(redact, value, r);
    forall path ensures IsRedactionOf(redact, ValueAt(value, path), ValueAt(r, path)) {
      PlacesRedacted(redact, value, r, path);
    }
  }

  method Walk(redact: string -> string, value: Value) returns (r: Value)
    requires Acyclic(value)
    ensures Acyclic(r) && Height(r) <= Height(value) && Shares(redact, value, r)
    ensures r != value ==> fresh(Self(r))
    ensures forall o :: o in Repr(r) ==> o in Repr(value) || fresh(o)
    decreases Height(value), 3
  {
    match value {
      case Text(s) => r := Text(redact(s));
      case List(_) => r := RedactList(redact, value);
      case Record(_) => r := RedactRecord(redact, value);
      case _ => r := value;
    }
  }

  /** The copy is made at the first difference and grows in place from then on. */
  method RedactList(redact: string -> string, value: Value) returns (r: Value)
    requires Acyclic(value) && value.List?
    ensures Acyclic(r) && Height(r) <= Height(value) && Shares(redact, value, r)
    ensures r != value ==> fresh(Self(r))
    ensures forall o :: o in Repr(r) ==> o in Repr(value) || fresh(o)
    decreases Height(value), 2
  {
    var node := value.list;
    var out: ListNode? := null;
    ghost var seen: seq<Value>, below := [], node.repr;
    for index := 0 to |node.items|
      invariant out != null ==> fresh(out)
      invariant forall o :: o in below ==> o in node.repr || fresh(o)
      invariant ListSoFar(redact, value, index, out, seen, below)
    {
      out, seen, below := ListStep(redact, value, index, out, seen, below);
    }
    ListDone(redact, value, out, seen, below);
    r := if out == null then value else List(out);
  }

  /** The results for the first items, and the copy if there is one: it holds exactly them. */
  ghost predicate ListSoFar(redact: string -> string, value: Value, index: nat, out: ListNode?, seen: seq<Value>,
                            below: set<object>)
    requires Acyclic(value) && value.List? && index <= |value.list.items|
    reads Footprint(value), below, if out == null then {} else {out}
  {
    && ChildrenSoFar(redact, value, index, seen, below)
    && (out == null <==> Unchanged(Children(value)[..index], seen))
    && (out != null ==> out !in below && out.items == seen && out.height == Height(value) && out.repr == below)
  }

  ghost predicate ChildrenSoFar(redact: string -> string, value: Value, index: nat, seen: seq<Value>,
                                below: set<object>)
    requires Acyclic(value) && index <= |Children(value)|
    reads Footprint(value), below
  {
    assert AllWithin(Children(value), Height(value), Repr(value));
    && |seen| == index && Repr(value) <= below && AllWithin(seen, Height(value), below)
    && AllShare(redact, Children(value)[..index], Height(value), Repr(value), seen, Height(value), below)
  }

  method ListStep(redact: string -> string, value: Value, index: nat, out: ListNode?, ghost seen: seq<Value>,
                  ghost below: set<object>)
    returns (out': ListNode?, ghost seen': seq<Value>, ghost below': set<object>)
    requires Acyclic(value) && value.List? && index < |value.list.items|
      && ListSoFar(redact, value, index, out, seen, below)
    requires out != null ==> out !in Footprint(value)
    modifies if out == null then {} else {out}
    ensures Acyclic(value) && index < |value.list.items| && ListSoFar(redact, value, index + 1, out', seen', below')
    ensures out != null ==> out' == out
    ensures out == null && out' != null ==> fresh(out')
    ensures forall o :: o in below' ==> o in below || fresh(o)
    decreases Height(value), 1
  {
    var node := value.list;
    var redacted;
    redacted, below' := RedactChild(redact, value, index, node.items[index], seen, below);
    seen', out' := seen + [redacted], out;
    if !StrictlyEqual(redacted, node.items[index]) && out == null {
      UnchangedIsEqual(Children(value)[..index], seen);
      out' := new ListNode(node.items[..index], node.height, below);
    }
    if out' != null {
      GrowList(redact, value, index, out', redacted, seen', below');
    }
  }

  /** Appends to the copy; what has been gathered so far is not touched. */
  method GrowList(redact: string -> string, value: Value, index: nat, out: ListNode, redacted: Value,
                  ghost seen: seq<Value>, ghost below: set<object>)
    requires Acyclic(value) && value.List? && index < |value.list.items|
    requires ChildrenSoFar(redact, value, index + 1, seen, below)
    requires out !in Footprint(value) && out !in below && out.items + [redacted] == seen
    modifies out
    ensures Acyclic(value) && index < |value.list.items| && ChildrenSoFar(redact, value, index + 1, seen, below)
    ensures Children(value) == old(Children(value)) && out.items == seen && out.repr == below
  {
    out.items := out.items + [redacted];
    out.repr := below;
  }

  /** One child's result, which goes with the earlier ones. */
  method RedactChild(redact: string -> string, value: Value, index: nat, item: Value, ghost seen: seq<Value>,
                     ghost below: set<object>)
    returns (redacted: Value, ghost below': set<object>)
    requires Acyclic(value) && index < |Children(value)| && item == Children(value)[index]
    requires ChildrenSoFar(redact, value, index, seen, below)
    ensures ChildrenSoFar(redact, value, index + 1, seen + [redacted], below')
    ensures Unchanged(Children(value)[..index + 1], seen + [redacted])
      <==> Unchanged(Children(value)[..index], seen) && StrictlyEqual(redacted, item)
    ensures forall o :: o in below' ==> o in below || fresh(o)
    decreases Height(value), 0
  {
    assert AllWithin(Children(value), Height(value), Repr(value));
    redacted := Walk(redact, item);
    SharesOneMore(redact, value, index, seen, below, redacted);
    UnchangedOneMore(Children(value), index, seen, redacted);
    below' := below + Footprint(redacted);
  }

  lemma ListDone(redact: string -> string, value: Value, out: ListNode?, seen: seq<Value>, below: set<object>)
    requires Acyclic(value) && value.List? && ListSoFar(redact, value, |value.list.items|, out, seen, below)
    requires out != null ==> out !in Footprint(value)
    ensures out == null ==> Shares(redact, value, value)
    ensures out != null ==> Acyclic(List(out)) && Shares(redact, value, List(out))
  {
    assert Children(value)[..|Children(value)|] == Children(value);
    UnchangedIffQuiet(redact, value, seen, below);
  }

  predicate Unchanged(items: seq<Value>, seen: seq<Value>)
    requires |items| == |seen|
  {
    forall i :: 0 <= i < |items| ==> StrictlyEqual(seen[i], items[i])
  }

  lemma SharesOneMore(redact: string -> string, value: Value, index: nat, seen: seq<Value>, below: set<object>,
                      redacted: Value)
    requires Acyclic(value) && index < |Children(value)| && ChildrenSoFar(redact, value, index, seen, below)
    requires Acyclic(Children(value)[index]) && Acyclic(redacted) && Height(redacted) < Height(value)
    requires Shares(redact, Children(value)[index], redacted)
    ensures ChildrenSoFar(redact, value, index + 1, seen + [redacted], below + Footprint(redacted))
  {
    var all, below' := seen + [redacted], below + Footprint(redacted);
    WithinMore(seen, Height(value), below, redacted);
    var items := Children(value);
    assert AllWithin(items, Height(value), Repr(value));
    forall i | 0 <= i <= index ensures Shares(redact, items[..index + 1][i], all[i]) {
      if i < index {
        assert items[..index][i] == items[i] && all[i] == seen[i];
        assert Shares(redact, items[..index][i], seen[i]);
      }
    }
  }

  lemma WithinMore(seen: seq<Value>, height: nat, below: set<object>, redacted: Value)
    requires AllWithin(seen, height, below) && Acyclic(redacted) && Height(redacted) < height
    ensures AllWithin(seen + [redacted], height, below + Footprint(redacted))
  {
  }

  lemma UnchangedOneMore(items: seq<Value>, index: nat, seen: seq<Value>, redacted: Value)
    requires index < |items| && |seen| == index
    ensures Unchanged(items[..index + 1], seen + [redacted])
      <==> Unchanged(items[..index], seen) && StrictlyEqual(redacted, items[index])
  {
    var all := seen + [redacted];
    assert all[index] == redacted && items[..index + 1][index] == items[index];
    assert forall i :: 0 <= i < index ==> all[i] == seen[i] && items[..index + 1][i] == items[..index][i];
  }

  lemma UnchangedIffQuiet(redact: string -> string, value: Value, seen: seq<Value>, below: set<object>)
    requires Acyclic(value) && IsContainer(value) && ChildrenSoFar(redact, value, |Children(value)|, seen, below)
    ensures Children(value)[..|Children(value)|] == Children(value)
    ensures Unchanged(Children(value), seen) <==> Quiet(redact, value)
  {
    var items := Children(value);
    assert items[..|items|] == items;
    assert AllWithin(items, Height(value), Repr(value));
    forall i | 0 <= i < |items|
      ensures StrictlyEqual(seen[i], items[i]) <==> !items[i].NotANumber? && Quiet(redact, items[i]) {
      assert Shares(redact, items[i], seen[i]);
    }
    assert Quiet(redact, value) <==> AllQuiet(redact, items, Height(value), Repr(value));
  }

  method RedactRecord(redact: string -> string, value: Value) returns (r: Value)
    requires Acyclic(value) && value.Record?
    ensures Acyclic(r) && Height(r) <= Height(value) && Shares(redact, value, r)
    ensures r != value ==> fresh(Self(r))
    ensures forall o :: o in Repr(r) ==> o in Repr(value) || fresh(o)
    decreases Height(value), 2
  {
    var node := value.record;
    var out: RecordNode? := null;
    ghost var seen: seq<Value>, below := [], node.repr;
    for index := 0 to |node.entries|
      invariant out != null ==> fresh(out)
      invariant forall o :: o in below ==> o in node.repr || fresh(o)
      invariant RecordSoFar(redact, value, index, out, seen, below)
    {
      out, seen, below := RecordStep(redact, value, index, out, seen, below);
    }
    RecordDone(redact, value, out, seen, below);
    r := if out == null then value else Record(out);
  }

  ghost predicate RecordSoFar(redact: string -> string, value: Value, index: nat, out: RecordNode?, seen: seq<Value>,
                              below: set<object>)
    requires Acyclic(value) && value.Record? && index <= |value.record.entries|
    reads Footprint(value), below, if out == null then {} else {out}
  {
    && ChildrenSoFar(redact, value, index, seen, below)
    && (out == null <==> Unchanged(Children(value)[..index], seen))
    && (out != null ==> out !in below && out.height == Height(value) && out.repr == below)
    && (out != null ==> Values(out.entries) == seen && Keys(out.entries) == KeysOf(value)[..index])
  }

  method RecordStep(redact: string -> string, value: Value, index: nat, out: RecordNode?, ghost seen: seq<Value>,
                    ghost below: set<object>)
    returns (out': RecordNode?, ghost seen': seq<Value>, ghost below': set<object>)
    requires Acyclic(value) && value.Record? && index < |value.record.entries|
      && RecordSoFar(redact, value, index, out, seen, below)
    requires out != null ==> out !in Footprint(value)
    modifies if out == null then {} else {out}
    ensures Acyclic(value) && index < |value.record.entries|
      && RecordSoFar(redact, value, index + 1, out', seen', below')
    ensures out != null ==> out' == out
    ensures out == null && out' != null ==> fresh(out')
    ensures forall o :: o in below' ==> o in below || fresh(o)
    decreases Height(value), 1
  {
    var node := value.record;
    var key, item := node.entries[index].key, node.entries[index].value;
    var redacted;
    redacted, below' := RedactChild(redact, value, index, item, seen, below);
    seen', out' := seen + [redacted], out;
    if !StrictlyEqual(redacted, item) && out == null {
      UnchangedIsEqual(Children(value)[..index], seen);
      out' := StartRecord(node, index, below);
    }
    if out' != null {
      GrowRecord(redact, value, index, out', Property(key, redacted), seen', below');
    }
  }

  method StartRecord(node: RecordNode, index: nat, ghost below: set<object>) returns (out: RecordNode)
    requires index <= |node.entries|
    ensures fresh(out) && out.height == node.height && out.repr == below
    ensures Values(out.entries) == Values(node.entries)[..index] && Keys(out.entries) == Keys(node.entries)[..index]
  {
    out := new RecordNode(node.entries[..index], node.height, below);
  }

  lemma UnchangedIsEqual(items: seq<Value>, seen: seq<Value>)
    requires |items| == |seen| && Unchanged(items, seen)
    ensures seen == items
  {
  }

  /** Appends to the copy; what has been gathered so far is not touched. */
  method GrowRecord(redact: string -> string, value: Value, index: nat, out: RecordNode, p: Property,
                    ghost seen: seq<Value>, ghost below: set<object>)
    requires Acyclic(value) && value.Record? && index < |value.record.entries|
      && p.key == value.record.entries[index].key
    requires ChildrenSoFar(redact, value, index + 1, seen, below)
    requires out !in Footprint(value) && out !in below && out.height == Height(value)
    requires Values(out.entries) + [p.value] == seen && Keys(out.entries) == KeysOf(value)[..index]
    modifies out
    ensures Acyclic(value) && index < |value.record.entries| && ChildrenSoFar(redact, value, index + 1, seen, below)
    ensures out.repr == below && Values(out.entries) == seen && Keys(out.entries) == KeysOf(value)[..index + 1]
  {
    assert KeysOf(value)[..index + 1] == KeysOf(value)[..index] + [p.key];
    OneMoreProperty(out.entries, p);
    out.entries := out.entries + [p];
    out.repr := below;
  }

  lemma RecordDone(redact: string -> string, value: Value, out: RecordNode?, seen: seq<Value>, below: set<object>)
    requires Acyclic(value) && value.Record? && RecordSoFar(redact, value, |value.record.entries|, out, seen, below)
    requires out != null ==> out !in Footprint(value)
    ensures out == null ==> Shares(redact, value, value)
    ensures out != null ==> Acyclic(Record(out)) && Shares(redact, value, Record(out))
  {
    assert KeysOf(value)[..|value.record.entries|] == KeysOf(value);
    UnchangedIffQuiet(redact, value, seen, below);
  }

  lemma OneMoreProperty(entries: seq<Property>, p: Property)
    ensures Values(entries + [p]) == Values(entries) + [p.value] && Keys(entries + [p]) == Keys(entries) + [p.key]
  {
  }

  /** The lazy result has the tree of the eager one. */
  lemma {:induction false} SharesIsEager(redact: string -> string, v: Value, r: Value)
    requires Acyclic(v) && Acyclic(r) && Shares(redact, v, r)
    ensures TreeOf(r) == Eager(redact, TreeOf(v))
    decreases Height(v)
  {
    if IsContainer(v) {
      var items, items' := Children(v), Children(r);
      ItemsShare(redact, v, r);
      forall i | 0 <= i < |items| ensures TreeOf(items'[i]) == Eager(redact, TreeOf(items[i])) {
        SharesIsEager(redact, items[i], items'[i]);
      }
      EagerOfItems(redact, KeysOf(v), TreesOf(items, Height(v), Repr(v)), TreesOf(items', Height(r), Repr(r)));
    }
  }

  lemma EagerOfItems(redact: string -> string, keys: seq<string>, trees: seq<Tree>, trees': seq<Tree>)
    requires |trees| == |trees'| && forall i :: 0 <= i < |trees| ==> trees'[i] == Eager(redact, trees[i])
    ensures Eager(redact, TList(trees)) == TList(trees')
    ensures Eager(redact, TRecord(keys, trees)) == TRecord(keys, trees')
  {
    assert trees' == seq(|trees|, i requires 0 <= i < |trees| => Eager(redact, trees[i]));
  }

  /** Container or copy, the items share one by one. */
  lemma ItemsShare(redact: string -> string, v: Value, r: Value)
    requires Acyclic(v) && Acyclic(r) && Shares(redact, v, r) && IsContainer(v)
    ensures AllWithin(Children(v), Height(v), Repr(v)) && AllWithin(Children(r), Height(r), Repr(r))
    ensures AllShare(redact, Children(v), Height(v), Repr(v), Children(r), Height(r), Repr(r))
    ensures v.List? == r.List? && v.Record? == r.Record? && KeysOf(v) == KeysOf(r)
  {
    if Quiet(redact, v) {
      var items := Children(v);
      assert AllQuiet(redact, items, Height(v), Repr(v));
      forall i | 0 <= i < |items| ensures Shares(redact, items[i], items[i]) {
        QuietSharesItself(redact, items[i]);
      }
    }
  }

  lemma QuietSharesItself(redact: string -> string, v: Value)
    requires Acyclic(v) && Quiet(redact, v)
    ensures Shares(redact, v, v)
  {
  }

  /** What the result holds at every place. */
  lemma {:induction false} PlacesRedacted(redact: string -> string, v: Value, r: Value, path: seq<nat>)
    requires Acyclic(v) && Acyclic(r) && Shares(redact, v, r)
    ensures IsRedactionOf(redact, ValueAt(v, path), ValueAt(r, path))
    decreases |path|
  {
    if IsContainer(v) {
      ItemsShare(redact, v, r);
      SameShape(v, r);
      if path != [] && path[0] < |Children(v)| {
        PlacesRedacted(redact, Children(v)[path[0]], Children(r)[path[0]], path[1..]);
      }
    }
  }

  lemma SameShape(v: Value, r: Value)
    requires v.List? == r.List? && v.Record? == r.Record? && KeysOf(v) == KeysOf(r) && |Children(v)| == |Children(r)|
    ensures v.Record? ==> |v.record.entries| == |r.record.entries|
    ensures v.Record? ==>
      forall i :: 0 <= i < |v.record.entries| ==> r.record.entries[i].key == v.record.entries[i].key
  {
    if v.Record? {
      assert Keys(v.record.entries) == Keys(r.record.entries);
      forall i | 0 <= i < |v.record.entries| ensures r.record.entries[i].key == v.record.entries[i].key {
        assert Keys(v.record.entries)[i] == Keys(r.record.entries)[i];
      }
    }
  }

  lemma {:induction false} QuietIffUnchanged(redact: string -> string, v: Value)
    requires Acyclic(v)
    ensures Quiet(redact, v) <==> Eager(redact, TreeOf(v)) == TreeOf(v) && !HoldsNaN(TreeOf(v))
    decreases Height(v)
  {
    if IsContainer(v) {
      var items, trees := Children(v), TreesOf(Children(v), Height(v), Repr(v));
      forall i | 0 <= i < |items|
        ensures Quiet(redact, items[i]) <==> Eager(redact, trees[i]) == trees[i] && !HoldsNaN(trees[i])
        ensures items[i].NotANumber? <==> trees[i].TNotANumber?
      {
        QuietIffUnchanged(redact, items[i]);
      }
      EagerKeeps(redact, trees);
    }
  }

  lemma EagerKeeps(redact: string -> string, trees: seq<Tree>)
    ensures seq(|trees|, i requires 0 <= i < |trees| => Eager(redact, trees[i])) == trees
      <==> forall i :: 0 <= i < |trees| ==> Eager(redact, trees[i]) == trees[i]
  {
    var eager := seq(|trees|, i requires 0 <= i < |trees| => Eager(redact, trees[i]));
    assert forall i :: 0 <= i < |trees| ==> eager[i] == Eager(redact, trees[i]);
  }

  /** The promise of the lazy walk, for any result that shares as the method's does: the same tree
      as rewriting every leaf, and the identical reference exactly when no leaf changed and no
      container holds a not-a-number (never the case for JSON). */
  lemma LazyEqualsEager(redact: string -> string, v: Value, r: Value)
    requires Acyclic(v) && Acyclic(r) && Shares(redact, v, r)
    ensures TreeOf(r) == Eager(redact, TreeOf(v))
    ensures r == v <==> TreeOf(r) == TreeOf(v) && !HoldsNaN(TreeOf(v))
  {
    SharesIsEager(redact, v, r);
    QuietIffUnchanged(redact, v);
  }

  /** An array holding a single not-a-number is copied although nothing in it changes. */
  lemma ArrayOfNaNIsCopied(redact: string -> string, v: Value, r: Value)
    requires Acyclic(v) && Acyclic(r) && Shares(redact, v, r)
    requires v.List? && v.list.items == [NotANumber]
    ensures r != v && TreeOf(r) == TreeOf(v) == TList([TNotANumber])
  {
    LazyEqualsEager(redact, v, r);
    assert TreeOf(v).items == [TNotANumber];
    assert HoldsNaN(TreeOf(v));
  }
}
