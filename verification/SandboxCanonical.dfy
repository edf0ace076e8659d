/** The canonical text of a parsed sandbox layer source: JSON with every object's keys sorted. */
module SandboxCanonical {
  import opened Options
  import Sorting
  import SandboxEnv

  datatype Json =
    | JNull | JNumber(n: int) | JString(s: string)
    | JArray(items: seq<Json>) | JObject(members: seq<Member>)

  datatype Member = Member(key: string, value: Json)

  /** The comparison `left.localeCompare(right) <= 0`, the keys it orders, and `JSON.stringify`. */
  datatype Engine = Engine(leq: (string, string) -> bool, ordered: string -> bool, stringify: Json -> string)

  const MEMBER_NAMES := {
    "schemaVersion", "manifest", "layer", "buildIdentity", "version", "name", "layerDockerfile", "smokeCommands",
    "baseTemplateRef", "baseVersion", "compilerVersion", "kind", "command", "values" }

  /** The keys of a source's document: the fixed member names and the names of variables. */
  predicate IsKey(key: string) { key in MEMBER_NAMES || SandboxEnv.IsEnvKey(key) }

  /** The comparison orders the keys it is said to and tells them apart; nothing is asked of it
      elsewhere. */
  ghost predicate Lawful(engine: Engine) {
    Sorting.Lawful(engine.leq, engine.ordered)
  }

  /** Lawful, and the keys of documents are among the ordered ones. */
  ghost predicate Orders(engine: Engine) {
    Lawful(engine) && forall key :: IsKey(key) ==> engine.ordered(key)
  }

  // ---- Sorting the members of an object

  function ByKey(engine: Engine): (Member, Member) -> bool {
    (m: Member, n: Member) => engine.leq(m.key, n.key)
  }

  function SortMembers(engine: Engine, members: seq<Member>): seq<Member> {
    Sorting.Sort(members, ByKey(engine))
  }

  ghost predicate DistinctKeys(members: seq<Member>) {
    forall i, j :: 0 <= i < j < |members| ==> members[i].key != members[j].key
  }

  ghost predicate OrderedKeys(engine: Engine, members: seq<Member>) {
    forall i :: 0 <= i < |members| ==> engine.ordered(members[i].key)
  }

  function Elements(members: seq<Member>): set<Member> { set m | m in members }

  function MemberIn(members: set<Member>): Member -> bool {
    m => m in members
  }

  /** Between members with distinct keys the comparison of keys is lawful. */
  lemma LawfulBetween(engine: Engine, members: seq<Member>)
    requires Lawful(engine) && DistinctKeys(members) && OrderedKeys(engine, members)
    ensures Sorting.Lawful(ByKey(engine), MemberIn(Elements(members)))
    ensures Sorting.AllUsed(members, MemberIn(Elements(members)))
  {
    forall m, n | m in Elements(members) && n in Elements(members)
      ensures engine.ordered(m.key) && engine.ordered(n.key) && (m.key == n.key ==> m == n)
    {
      var i :| 0 <= i < |members| && members[i] == m;
      var j :| 0 <= j < |members| && members[j] == n;
    }
  }

  /** With distinct keys no member occurs twice. */
  lemma {:induction false} EachOnce(members: seq<Member>, m: Member)
    requires DistinctKeys(members)
    ensures multiset(members)[m] == if m in Elements(members) then 1 else 0
  {
    if members != [] {
      var front, last := members[..|members| - 1], members[|members| - 1];
      EachOnce(front, m);
      assert members == front + [last];
      assert last !in front;
    }
  }

  lemma SameMultiset(a: seq<Member>, b: seq<Member>)
    requires DistinctKeys(a) && DistinctKeys(b)
    ensures Elements(a) == Elements(b) <==> multiset(a) == multiset(b)
  {
    if Elements(a) == Elements(b) {
      forall m ensures multiset(a)[m] == multiset(b)[m] {
        EachOnce(a, m);
        EachOnce(b, m);
      }
    }
    if multiset(a) == multiset(b) {
      forall m ensures m in Elements(a) <==> m in Elements(b) {
        assert m in multiset(a) <==> m in multiset(b);
      }
    }
  }

  lemma PermutedKeysDistinct(a: seq<Member>, b: seq<Member>)
    requires DistinctKeys(a) && multiset(a) == multiset(b)
    ensures DistinctKeys(b) && Elements(a) == Elements(b)
  {
    forall m ensures m in a <==> m in b {
      assert m in multiset(a) <==> m in multiset(b);
    }
    forall i, j | 0 <= i < j < |b| ensures b[i].key != b[j].key {
      assert b[i] in a && b[j] in a;
      var k :| 0 <= k < |a| && a[k] == b[i];
      var l :| 0 <= l < |a| && a[l] == b[j];
      if b[i] == b[j] {
        TwiceInSequence(b, i, j);
        EachOnce(a, b[i]);
      }
    }
  }

  lemma TwiceInSequence(b: seq<Member>, i: nat, j: nat)
    requires i < j < |b| && b[i] == b[j]
    ensures multiset(b)[b[i]] >= 2
  {
    assert b == b[..j] + [b[j]] + b[j + 1..];
    assert b[i] in b[..j];
  }

  lemma SortMembersKeeps(engine: Engine, members: seq<Member>)
    requires DistinctKeys(members)
    ensures DistinctKeys(SortMembers(engine, members)) && Elements(SortMembers(engine, members)) == Elements(members)
  {
    Sorting.SortPermutes(members, ByKey(engine));
    PermutedKeysDistinct(members, SortMembers(engine, members));
  }

  /** The sorted list is determined by the elements. */
  lemma SortedByElements(engine: Engine, a: seq<Member>, b: seq<Member>)
    requires Lawful(engine) && DistinctKeys(a) && DistinctKeys(b) && OrderedKeys(engine, a) && OrderedKeys(engine, b)
    requires Elements(a) == Elements(b)
    ensures SortMembers(engine, a) == SortMembers(engine, b)
  {
    SameMultiset(a, b);
    LawfulBetween(engine, a);
    LawfulBetween(engine, b);
    Sorting.SortedEqualIff(a, b, ByKey(engine), MemberIn(Elements(a)));
  }

  // ---- Sorting a whole value

  function SortJson(engine: Engine, v: Json): Json {
    match v
    case JArray(items) => JArray(seq(|items|, i requires 0 <= i < |items| => SortJson(engine, items[i])))
    case JObject(members) =>
      JObject(SortMembers(engine,
                          seq(|members|,
                              i requires 0 <= i < |members| =>
                                Member(members[i].key, SortJson(engine, members[i].value)))))
    case _ => v
  }

  /** Keys are distinct in every object, as they are in every JavaScript object, and among the ordered ones. */
  ghost predicate WellFormed(engine: Engine, v: Json) {
    match v
    case JArray(items) => forall i :: 0 <= i < |items| ==> WellFormed(engine, items[i])
    case JObject(members) =>
      DistinctKeys(members) && OrderedKeys(engine, members) && forall i :: 0 <= i < |members| ==>
        WellFormed(engine, members[i].value)
    case _ => true
  }

  /** A value with its objects read as finite maps, so that key order is gone. */
  datatype Meaning = Leaf(v: Json) | Items(items: seq<Meaning>) | Fields(fields: map<string, Meaning>)

  function MeaningOf(v: Json): Meaning {
    match v
    case JArray(items) => Items(seq(|items|, i requires 0 <= i < |items| => MeaningOf(items[i])))
    case JObject(members) => Fields(FieldsOf(members))
    case _ => Leaf(v)
  }

  function FieldsOf(members: seq<Member>): map<string, Meaning> {
    if members == [] then map[]
    else FieldsOf(members[..|members| - 1])[members[|members| - 1].key := MeaningOf(members[|members| - 1].value)]
  }

  function KeysOf(members: seq<Member>): set<string> { set m | m in members :: m.key }

  lemma {:induction false} FieldsKeys(members: seq<Member>)
    ensures FieldsOf(members).Keys == KeysOf(members)
  {
    if members != [] {
      var front, last := members[..|members| - 1], members[|members| - 1];
      FieldsKeys(front);
      assert members == front + [last];
      assert KeysOf(members) == KeysOf(front) + {last.key};
    }
  }

  lemma {:induction false} FieldAt(members: seq<Member>, i: nat)
    requires DistinctKeys(members) && i < |members|
    ensures members[i].key in FieldsOf(members) && FieldsOf(members)[members[i].key] == MeaningOf(members[i].value)
  {
    if i < |members| - 1 {
      FieldAt(members[..|members| - 1], i);
    }
  }

  /** What an object's map holds. */
  lemma FieldsHold(members: seq<Member>)
    requires DistinctKeys(members)
    ensures FieldsOf(members).Keys == KeysOf(members)
    ensures forall i :: 0 <= i < |members| ==>
              members[i].key in FieldsOf(members) && FieldsOf(members)[members[i].key] == MeaningOf(members[i].value)
  {
    FieldsKeys(members);
    forall i | 0 <= i < |members|
      ensures members[i].key in FieldsOf(members) && FieldsOf(members)[members[i].key] == MeaningOf(members[i].value)
    {
      FieldAt(members, i);
    }
  }

  lemma MemberWithKey(members: seq<Member>, key: string) returns (i: nat)
    requires key in KeysOf(members)
    ensures i < |members| && members[i].key == key
  {
    var m :| m in members && m.key == key;
    i :| 0 <= i < |members| && members[i] == m;
  }

  function SortedValue(engine: Engine, m: Member): Member {
    Member(m.key, SortJson(engine, m.value))
  }

  function SortValues(engine: Engine, members: seq<Member>): seq<Member> {
    seq(|members|, i requires 0 <= i < |members| => SortedValue(engine, members[i]))
  }

  lemma SortObject(engine: Engine, members: seq<Member>)
    requires DistinctKeys(members)
    ensures SortJson(engine, JObject(members)) == JObject(SortMembers(engine, SortValues(engine, members)))
    ensures DistinctKeys(SortMembers(engine, SortValues(engine, members)))
    ensures Elements(SortMembers(engine, SortValues(engine, members))) == Elements(SortValues(engine, members))
  {
    assert SortValues(engine, members)
        == seq(|members|, i requires 0 <= i < |members| => Member(members[i].key, SortJson(engine, members[i].value)));
    SortMembersKeeps(engine, SortValues(engine, members));
  }

  /** Sorting keeps the meaning. */
  lemma {:induction false} SortKeepsMeaning(engine: Engine, v: Json)
    requires Lawful(engine) && WellFormed(engine, v)
    ensures MeaningOf(SortJson(engine, v)) == MeaningOf(v)
  {
    match v
    case JArray(items) =>
      var sorted := SortJson(engine, v).items;
      forall i | 0 <= i < |items| ensures MeaningOf(sorted[i]) == MeaningOf(items[i]) {
        SortKeepsMeaning(engine, items[i]);
      }
    case JObject(members) =>
      var values := SortValues(engine, members);
      var sorted := SortMembers(engine, values);
      SortObject(engine, members);
      forall i | 0 <= i < |members| ensures MeaningOf(values[i].value) == MeaningOf(members[i].value) {
        SortKeepsMeaning(engine, members[i].value);
      }
      FieldsByElements(sorted, values);
      FieldsByValue(values, members);
    case _ =>
  }

  /** The map of an object depends on its set of members only. */
  lemma FieldsByElements(a: seq<Member>, b: seq<Member>)
    requires DistinctKeys(a) && DistinctKeys(b) && Elements(a) == Elements(b)
    ensures FieldsOf(a) == FieldsOf(b)
  {
    FieldsHold(a);
    FieldsHold(b);
    assert forall m :: m in a <==> m in Elements(a);
    assert forall m :: m in b <==> m in Elements(b);
    forall key | key in KeysOf(a) ensures FieldsOf(a)[key] == FieldsOf(b)[key] {
      var i := MemberWithKey(a, key);
      assert a[i] in b;
      var j :| 0 <= j < |b| && b[j] == a[i];
    }
  }

  lemma {:induction false} FieldsByValue(a: seq<Member>, b: seq<Member>)
    requires |a| == |b| && forall i :: 0 <= i < |a| ==>
      a[i].key == b[i].key && MeaningOf(a[i].value) == MeaningOf(b[i].value)
    ensures FieldsOf(a) == FieldsOf(b)
  {
    if a != [] {
      FieldsByValue(a[..|a| - 1], b[..|b| - 1]);
    }
  }

  /** And the meaning determines the sorted value. */
  lemma {:induction false} MeaningDeterminesSorted(engine: Engine, a: Json, b: Json)
    requires Lawful(engine) && WellFormed(engine, a) && WellFormed(engine, b) && MeaningOf(a) == MeaningOf(b)
    ensures SortJson(engine, a) == SortJson(engine, b)
    decreases a
  {
    match a
    case JArray(items) =>
      forall i | 0 <= i < |items| ensures SortJson(engine, items[i]) == SortJson(engine, b.items[i]) {
        assert MeaningOf(a).items[i] == MeaningOf(b).items[i];
        MeaningDeterminesSorted(engine, items[i], b.items[i]);
      }
    case JObject(members) =>
      SortObject(engine, members);
      SortObject(engine, b.members);
      SameMeaningByKey(members, b.members);
      forall i, j | 0 <= i < |members| && 0 <= j < |b.members| && members[i].key == b.members[j].key
        ensures SortJson(engine, members[i].value) == SortJson(engine, b.members[j].value)
      {
        MeaningDeterminesSorted(engine, members[i].value, b.members[j].value);
      }
      SortedObjectsEqual(engine, members, b.members);
    case _ =>
  }

  lemma SameMeaningByKey(a: seq<Member>, b: seq<Member>)
    requires DistinctKeys(a) && DistinctKeys(b) && FieldsOf(a) == FieldsOf(b)
    ensures KeysOf(a) == KeysOf(b)
    ensures forall i, j :: 0 <= i < |a| && 0 <= j < |b| && a[i].key == b[j].key ==>
      MeaningOf(a[i].value) == MeaningOf(b[j].value)
  {
    FieldsHold(a);
    FieldsHold(b);
  }

  lemma SortedObjectsEqual(engine: Engine, a: seq<Member>, b: seq<Member>)
    requires Lawful(engine) && DistinctKeys(a) && DistinctKeys(b) && OrderedKeys(engine, a) && OrderedKeys(engine, b)
    requires KeysOf(a) == KeysOf(b)
    requires forall i, j :: 0 <= i < |a| && 0 <= j < |b| && a[i].key == b[j].key ==>
      SortJson(engine, a[i].value) == SortJson(engine, b[j].value)
    ensures SortMembers(engine, SortValues(engine, a)) == SortMembers(engine, SortValues(engine, b))
  {
    EqualByKey(a, b, SortValues(engine, a), SortValues(engine, b));
    SortedByElements(engine, SortValues(engine, a), SortValues(engine, b));
  }

  lemma EqualByKey(a: seq<Member>, b: seq<Member>, va: seq<Member>, vb: seq<Member>)
    requires |va| == |a| && |vb| == |b| && KeysOf(a) == KeysOf(b)
    requires forall i, j :: 0 <= i < |a| && 0 <= j < |b| && a[i].key == b[j].key ==> va[i] == vb[j]
    ensures Elements(va) == Elements(vb)
  {
    forall m | m in Elements(va) ensures m in Elements(vb) {
      var i :| 0 <= i < |va| && va[i] == m;
      assert a[i].key in KeysOf(b);
      var j := MemberWithKey(b, a[i].key);
      assert vb[j] == m;
    }
    forall m | m in Elements(vb) ensures m in Elements(va) {
      var j :| 0 <= j < |vb| && vb[j] == m;
      assert b[j].key in KeysOf(a);
      var i := MemberWithKey(a, b[j].key);
      assert va[i] == m;
    }
  }

  /** Sorting is a canonical form: two values sort to the same one exactly when they mean the same. */
  lemma SortJsonCanonical(engine: Engine, a: Json, b: Json)
    requires Lawful(engine) && WellFormed(engine, a) && WellFormed(engine, b)
    ensures SortJson(engine, a) == SortJson(engine, b) <==> MeaningOf(a) == MeaningOf(b)
  {
    SortKeepsMeaning(engine, a);
    SortKeepsMeaning(engine, b);
    if MeaningOf(a) == MeaningOf(b) {
      MeaningDeterminesSorted(engine, a, b);
    }
  }

  /** The keys of every object are in order. */
  ghost predicate IsSortedJson(engine: Engine, v: Json) {
    match v
    case JArray(items) => forall i :: 0 <= i < |items| ==> IsSortedJson(engine, items[i])
    case JObject(members) =>
      && (forall i, j :: 0 <= i < j < |members| ==> engine.leq(members[i].key, members[j].key))
      && forall i :: 0 <= i < |members| ==> IsSortedJson(engine, members[i].value)
    case _ => true
  }

  lemma {:induction false} SortJsonSorts(engine: Engine, v: Json)
    requires Lawful(engine) && WellFormed(engine, v)
    ensures IsSortedJson(engine, SortJson(engine, v))
  {
    match v
    case JArray(items) =>
      forall i | 0 <= i < |items| ensures IsSortedJson(engine, SortJson(engine, items[i])) {
        SortJsonSorts(engine, items[i]);
      }
    case JObject(members) =>
      var values := SortValues(engine, members);
      SortObject(engine, members);
      LawfulBetween(engine, values);
      Sorting.SortSorts(values, ByKey(engine), MemberIn(Elements(values)));
      forall m | m in values ensures IsSortedJson(engine, m.value) {
        var i :| 0 <= i < |values| && values[i] == m;
        SortJsonSorts(engine, members[i].value);
      }
      SortedMembers(engine, values, SortMembers(engine, values));
    case _ =>
  }

  lemma SortedMembers(engine: Engine, values: seq<Member>, sorted: seq<Member>)
    requires Elements(sorted) == Elements(values) && Sorting.IsSorted(sorted, ByKey(engine))
    requires forall m :: m in values ==> IsSortedJson(engine, m.value)
    ensures IsSortedJson(engine, JObject(sorted))
  {
    forall i, j | 0 <= i < j < |sorted| ensures engine.leq(sorted[i].key, sorted[j].key) {
      assert ByKey(engine)(sorted[i], sorted[j]);
    }
    forall i | 0 <= i < |sorted| ensures IsSortedJson(engine, sorted[i].value) {
      assert sorted[i] in Elements(sorted);
    }
  }

  // ---- The source document

  datatype Instruction =
    | Run(command: string, startLine: nat, endLine: nat)
    | Env(values: seq<(string, string)>, startLine: nat, endLine: nat)

  datatype BuildIdentity = BuildIdentity(baseTemplateRef: string, baseVersion: string, compilerVersion: string)

  datatype Source = Source(
    name: Option<string>, dockerfile: string, smokeCommands: seq<seq<string>>,
    instructions: seq<Instruction>, buildIdentity: Option<BuildIdentity>)

  function Strings(ss: seq<string>): Json {
    JArray(seq(|ss|, i requires 0 <= i < |ss| => JString(ss[i])))
  }

  function Commands(commands: seq<seq<string>>): Json {
    JArray(seq(|commands|, i requires 0 <= i < |commands| => Strings(commands[i])))
  }

  function EnvMembers(values: seq<(string, string)>): seq<Member> {
    seq(|values|, i requires 0 <= i < |values| => Member(values[i].0, JString(values[i].1)))
  }

  function EnvJson(engine: Engine, values: seq<(string, string)>): Json {
    JObject(SortMembers(engine, EnvMembers(values)))
  }

  function NormalizeInstruction(engine: Engine, e: Instruction): Json {
    match e
    case Run(command, _, _) => JObject([Member("kind", JString("run")), Member("command", JString(command))])
    case Env(values, _, _) =>
      JObject([Member("kind", JString("env")), Member("values", EnvJson(engine, values))])
  }

  function NormalizeInstructions(engine: Engine, es: seq<Instruction>): Json {
    JArray(seq(|es|, i requires 0 <= i < |es| => NormalizeInstruction(engine, es[i])))
  }

  function ManifestJson(s: Source): Json {
    JObject([
      Member("version", JNumber(1)),
      Member("name", if s.name.Some? then JString(s.name.value) else JNull),
      Member("layerDockerfile", JString(s.dockerfile)),
      Member("smokeCommands", Commands(s.smokeCommands))])
  }

  function IdentityJson(b: Option<BuildIdentity>): Json {
    if b.None? then JNull
    else JObject([
      Member("baseTemplateRef", JString(b.value.baseTemplateRef)),
      Member("baseVersion", JString(b.value.baseVersion)),
      Member("compilerVersion", JString(b.value.compilerVersion))])
  }

  function Document(engine: Engine, s: Source): Json {
    JObject([
      Member("schemaVersion", JNumber(1)),
      Member("manifest", ManifestJson(s)),
      Member("layer", NormalizeInstructions(engine, s.instructions)),
      Member("buildIdentity", IdentityJson(s.buildIdentity))])
  }

  function SortedDocument(engine: Engine, s: Source): Json {
    SortJson(engine, Document(engine, s))
  }

  function CanonicalText(engine: Engine, s: Source): string {
    engine.stringify(SortedDocument(engine, s))
  }

  /** The printer gives different texts for different documents of parsed sources; nothing is asked of
      it elsewhere. */
  ghost predicate PrintsApart(engine: Engine) {
    forall a, b :: Parsed(a) && Parsed(b) && CanonicalText(engine, a) == CanonicalText(engine, b) ==>
      SortedDocument(engine, a) == SortedDocument(engine, b)
  }

  // ---- When two sources have the same canonical text

  function Assignments(values: seq<(string, string)>): set<(string, string)> { set v | v in values }

  ghost predicate DistinctNames(values: seq<(string, string)>) {
    forall i, j :: 0 <= i < j < |values| ==> values[i].0 != values[j].0
  }

  predicate ValidNames(values: seq<(string, string)>) {
    forall i :: 0 <= i < |values| ==> SandboxEnv.IsEnvKey(values[i].0)
  }

  /** What the parser gives: the variables of an instruction have distinct, valid names. */
  ghost predicate Parsed(s: Source) {
    forall i :: 0 <= i < |s.instructions| && s.instructions[i].Env? ==>
      DistinctNames(s.instructions[i].values) && ValidNames(s.instructions[i].values)
  }

  /** Same kind, and the same command or the same variables with the same values; the lines an
      instruction came from and the order of its variables do not matter. */
  predicate SameInstruction(a: Instruction, b: Instruction) {
    match a
    case Run(command, _, _) => b.Run? && command == b.command
    case Env(values, _, _) => b.Env? && Assignments(values) == Assignments(b.values)
  }

  predicate SameSource(a: Source, b: Source) {
    && a.name == b.name && a.dockerfile == b.dockerfile && a.smokeCommands == b.smokeCommands
    && a.buildIdentity == b.buildIdentity
    && |a.instructions| == |b.instructions|
    && forall i :: 0 <= i < |a.instructions| ==> SameInstruction(a.instructions[i], b.instructions[i])
  }

  lemma SameStrings(a: seq<string>, b: seq<string>)
    ensures MeaningOf(Strings(a)) == MeaningOf(Strings(b)) <==> a == b
  {
    var x, y := MeaningOf(Strings(a)).items, MeaningOf(Strings(b)).items;
    forall i | 0 <= i < |a| && i < |b| ensures x[i] == y[i] <==> a[i] == b[i] {
      assert x[i] == MeaningOf(Strings(a).items[i]) && y[i] == MeaningOf(Strings(b).items[i]);
      assert MeaningOf(JString(a[i])) == Leaf(JString(a[i])) && MeaningOf(JString(b[i])) == Leaf(JString(b[i]));
    }
    if x == y {
      assert forall i :: 0 <= i < |a| ==> x[i] == y[i];
    }
  }

  lemma SameCommands(a: seq<seq<string>>, b: seq<seq<string>>)
    ensures MeaningOf(Commands(a)) == MeaningOf(Commands(b)) <==> a == b
  {
    var x, y := MeaningOf(Commands(a)).items, MeaningOf(Commands(b)).items;
    assert forall i :: 0 <= i < |a| ==> x[i] == MeaningOf(Strings(a[i]));
    assert forall i :: 0 <= i < |b| ==> y[i] == MeaningOf(Strings(b[i]));
    if x == y {
      forall i | 0 <= i < |a| ensures a[i] == b[i] {
        SameStrings(a[i], b[i]);
      }
    }
  }

  /** Objects written with the same distinct keys mean the same member by member. */
  lemma SameRecord(a: seq<Member>, b: seq<Member>)
    requires DistinctKeys(a) && |a| == |b| && forall i :: 0 <= i < |a| ==> a[i].key == b[i].key
    ensures MeaningOf(JObject(a)) == MeaningOf(JObject(b))
       <==> forall i :: 0 <= i < |a| ==> MeaningOf(a[i].value) == MeaningOf(b[i].value)
  {
    FieldsHold(a);
    FieldsHold(b);
    if forall i :: 0 <= i < |a| ==> MeaningOf(a[i].value) == MeaningOf(b[i].value) {
      FieldsByValue(a, b);
    }
  }

  lemma SameManifest(a: Source, b: Source)
    ensures MeaningOf(ManifestJson(a)) == MeaningOf(ManifestJson(b))
       <==> a.name == b.name && a.dockerfile == b.dockerfile && a.smokeCommands == b.smokeCommands
  {
    var ma, mb := ManifestJson(a).members, ManifestJson(b).members;
    SameRecord(ma, mb);
    SameCommands(a.smokeCommands, b.smokeCommands);
    assert ma[0].value == mb[0].value;
    assert MeaningOf(ma[1].value) == MeaningOf(mb[1].value) <==> a.name == b.name;
    assert MeaningOf(ma[2].value) == MeaningOf(mb[2].value) <==> a.dockerfile == b.dockerfile;
    assert MeaningOf(ma[3].value) == MeaningOf(mb[3].value) <==> a.smokeCommands == b.smokeCommands;
  }

  lemma SameIdentity(a: Option<BuildIdentity>, b: Option<BuildIdentity>)
    ensures MeaningOf(IdentityJson(a)) == MeaningOf(IdentityJson(b)) <==> a == b
  {
    if a.Some? && b.Some? {
      var ma, mb := IdentityJson(a).members, IdentityJson(b).members;
      SameRecord(ma, mb);
      assert MeaningOf(ma[0].value) == MeaningOf(mb[0].value) <==> a.value.baseTemplateRef == b.value.baseTemplateRef;
      assert MeaningOf(ma[1].value) == MeaningOf(mb[1].value) <==> a.value.baseVersion == b.value.baseVersion;
      assert MeaningOf(ma[2].value) == MeaningOf(mb[2].value) <==> a.value.compilerVersion == b.value.compilerVersion;
    }
  }

  /** The members of an environment mean the same exactly when the sets of assignments are equal. */
  lemma SameEnv(engine: Engine, a: seq<(string, string)>, b: seq<(string, string)>)
    requires DistinctNames(a) && DistinctNames(b)
    ensures MeaningOf(EnvJson(engine, a)) == MeaningOf(EnvJson(engine, b)) <==> Assignments(a) == Assignments(b)
  {
    var ma, mb := EnvMembers(a), EnvMembers(b);
    SortMembersKeeps(engine, ma);
    SortMembersKeeps(engine, mb);
    FieldsByElements(SortMembers(engine, ma), ma);
    FieldsByElements(SortMembers(engine, mb), mb);
    if FieldsOf(ma) == FieldsOf(mb) {
      SameFieldsSameAssignments(a, b);
      SameFieldsSameAssignments(b, a);
      assert Assignments(a) == Assignments(b);
    }
    if Assignments(a) == Assignments(b) {
      SameAssignmentsSameMembers(a, b);
      SameAssignmentsSameMembers(b, a);
      FieldsByElements(ma, mb);
    }
  }

  lemma SameFieldsSameAssignments(a: seq<(string, string)>, b: seq<(string, string)>)
    requires DistinctNames(a) && DistinctNames(b) && FieldsOf(EnvMembers(a)) == FieldsOf(EnvMembers(b))
    ensures forall v :: v in a ==> v in b
  {
    var ma, mb := EnvMembers(a), EnvMembers(b);
    SameMeaningByKey(ma, mb);
    forall v | v in a ensures v in b {
      var i :| 0 <= i < |a| && a[i] == v;
      assert ma[i] == Member(v.0, JString(v.1)) && ma[i].key in KeysOf(ma);
      var j := MemberWithKey(mb, ma[i].key);
      assert b[j] == v;
    }
  }

  lemma SameAssignmentsSameMembers(a: seq<(string, string)>, b: seq<(string, string)>)
    requires Assignments(a) == Assignments(b)
    ensures forall m :: m in Elements(EnvMembers(a)) ==> m in Elements(EnvMembers(b))
  {
    forall m | m in Elements(EnvMembers(a)) ensures m in Elements(EnvMembers(b)) {
      var i :| 0 <= i < |a| && EnvMembers(a)[i] == m;
      assert a[i] in Assignments(a);
      assert a[i] in Assignments(b);
      var j :| 0 <= j < |b| && b[j] == a[i];
      assert EnvMembers(b)[j] == m;
    }
  }

  lemma SameRun(engine: Engine, a: Instruction, b: Instruction)
    requires a.Run? && b.Run?
    ensures MeaningOf(NormalizeInstruction(engine, a)) == MeaningOf(NormalizeInstruction(engine, b))
      <==> SameInstruction(a, b)
  {
    var ma, mb := NormalizeInstruction(engine, a).members, NormalizeInstruction(engine, b).members;
    SameRecord(ma, mb);
    assert ma[0].value == mb[0].value;
    assert MeaningOf(ma[1].value) == MeaningOf(mb[1].value) <==> a.command == b.command;
  }

  lemma SameEnvInstruction(engine: Engine, a: Instruction, b: Instruction)
    requires a.Env? && b.Env? && DistinctNames(a.values) && DistinctNames(b.values)
    ensures MeaningOf(NormalizeInstruction(engine, a)) == MeaningOf(NormalizeInstruction(engine, b))
      <==> SameInstruction(a, b)
  {
    var ma, mb := NormalizeInstruction(engine, a).members, NormalizeInstruction(engine, b).members;
    SameRecord(ma, mb);
    SameEnv(engine, a.values, b.values);
    assert ma[0].value == mb[0].value;
    assert ma[1].value == EnvJson(engine, a.values) && mb[1].value == EnvJson(engine, b.values);
  }

  lemma KindsDiffer(engine: Engine, a: Instruction, b: Instruction)
    requires a.Run? && b.Env?
    ensures MeaningOf(NormalizeInstruction(engine, a)) != MeaningOf(NormalizeInstruction(engine, b))
  {
    var ma, mb := NormalizeInstruction(engine, a).members, NormalizeInstruction(engine, b).members;
    SameRecordFirst(ma, mb);
    assert "run"[0] != "env"[0];
    assert MeaningOf(ma[0].value) == Leaf(JString("run")) && MeaningOf(mb[0].value) == Leaf(JString("env"));
  }

  lemma SameRecordFirst(a: seq<Member>, b: seq<Member>)
    requires DistinctKeys(a) && DistinctKeys(b) && a != [] && b != [] && a[0].key == b[0].key
    requires MeaningOf(a[0].value) != MeaningOf(b[0].value)
    ensures MeaningOf(JObject(a)) != MeaningOf(JObject(b))
  {
    FieldsHold(a);
    FieldsHold(b);
  }

  lemma SameNormalized(engine: Engine, a: Instruction, b: Instruction)
    requires (a.Env? ==> DistinctNames(a.values)) && (b.Env? ==> DistinctNames(b.values))
    ensures MeaningOf(NormalizeInstruction(engine, a)) == MeaningOf(NormalizeInstruction(engine, b))
      <==> SameInstruction(a, b)
  {
    if a.Run? && b.Run? {
      SameRun(engine, a, b);
    } else if a.Env? && b.Env? {
      SameEnvInstruction(engine, a, b);
    } else if a.Run? {
      KindsDiffer(engine, a, b);
    } else {
      KindsDiffer(engine, b, a);
    }
  }

  lemma SameLayer(engine: Engine, a: seq<Instruction>, b: seq<Instruction>)
    requires forall i :: 0 <= i < |a| && a[i].Env? ==> DistinctNames(a[i].values)
    requires forall i :: 0 <= i < |b| && b[i].Env? ==> DistinctNames(b[i].values)
    ensures MeaningOf(NormalizeInstructions(engine, a)) == MeaningOf(NormalizeInstructions(engine, b))
       <==> |a| == |b| && forall i :: 0 <= i < |a| ==> SameInstruction(a[i], b[i])
  {
    var x, y := MeaningOf(NormalizeInstructions(engine, a)).items, MeaningOf(NormalizeInstructions(engine, b)).items;
    forall i | 0 <= i < |a| && i < |b| ensures x[i] == y[i] <==> SameInstruction(a[i], b[i]) {
      SameNormalized(engine, a[i], b[i]);
    }
    assert x == y <==> |x| == |y| && forall i :: 0 <= i < |x| ==> x[i] == y[i];
  }

  lemma InstructionWellFormed(engine: Engine, e: Instruction)
    requires Orders(engine) && (e.Env? ==> DistinctNames(e.values) && ValidNames(e.values))
    ensures WellFormed(engine, NormalizeInstruction(engine, e))
  {
    if e.Env? {
      var members := EnvMembers(e.values);
      var sorted := SortMembers(engine, members);
      SortMembersKeeps(engine, members);
      forall k | 0 <= k < |sorted| ensures WellFormed(engine, sorted[k].value) && engine.ordered(sorted[k].key) {
        assert sorted[k] in Elements(sorted);
        assert sorted[k] in members;
        var i :| 0 <= i < |members| && members[i] == sorted[k];
        assert IsKey(e.values[i].0);
      }
      assert WellFormed(engine, EnvJson(engine, e.values));
    }
  }

  lemma ManifestWellFormed(engine: Engine, s: Source)
    requires Orders(engine)
    ensures WellFormed(engine, ManifestJson(s))
  {
    forall i | 0 <= i < |s.smokeCommands| ensures WellFormed(engine, Commands(s.smokeCommands).items[i]) {
      assert WellFormed(engine, Strings(s.smokeCommands[i]));
    }
    assert WellFormed(engine, Commands(s.smokeCommands));
  }

  lemma DocumentWellFormed(engine: Engine, s: Source)
    requires Orders(engine) && Parsed(s)
    ensures WellFormed(engine, Document(engine, s))
  {
    forall i | 0 <= i < |s.instructions| ensures WellFormed(engine, NormalizeInstruction(engine, s.instructions[i])) {
      InstructionWellFormed(engine, s.instructions[i]);
    }
    assert WellFormed(engine, NormalizeInstructions(engine, s.instructions));
    ManifestWellFormed(engine, s);
    assert WellFormed(engine, IdentityJson(s.buildIdentity));
  }

  /** Two parsed sources have the same canonical text, and so the same source hash, exactly when
      their manifests and build identities are equal and their instructions agree in kind, order,
      command and variables.  Line positions and the order of variables never show. */
  lemma CanonicalTextIdentifiesSource(engine: Engine, a: Source, b: Source)
    requires Orders(engine) && PrintsApart(engine) && Parsed(a) && Parsed(b)
    ensures CanonicalText(engine, a) == CanonicalText(engine, b) <==> SameSource(a, b)
  {
    DocumentWellFormed(engine, a);
    DocumentWellFormed(engine, b);
    SortJsonCanonical(engine, Document(engine, a), Document(engine, b));
    SameDocument(engine, a, b);
  }

  lemma SameDocument(engine: Engine, a: Source, b: Source)
    requires Parsed(a) && Parsed(b)
    ensures MeaningOf(Document(engine, a)) == MeaningOf(Document(engine, b)) <==> SameSource(a, b)
  {
    SameParts(engine, a, b);
    SameManifest(a, b);
    SameLayer(engine, a.instructions, b.instructions);
    SameIdentity(a.buildIdentity, b.buildIdentity);
  }

  lemma SameParts(engine: Engine, a: Source, b: Source)
    ensures MeaningOf(Document(engine, a)) == MeaningOf(Document(engine, b))
      <==> && MeaningOf(ManifestJson(a)) == MeaningOf(ManifestJson(b))
           && MeaningOf(NormalizeInstructions(engine, a.instructions))
             == MeaningOf(NormalizeInstructions(engine, b.instructions))
           && MeaningOf(IdentityJson(a.buildIdentity)) == MeaningOf(IdentityJson(b.buildIdentity))
  {
    var ma, mb := Document(engine, a).members, Document(engine, b).members;
    SameFour(ma, mb);
    assert ma[0].value == mb[0].value;
    assert ma[1].value == ManifestJson(a) && mb[1].value == ManifestJson(b);
    assert ma[2].value == NormalizeInstructions(engine, a.instructions);
    assert mb[2].value == NormalizeInstructions(engine, b.instructions);
    assert ma[3].value == IdentityJson(a.buildIdentity) && mb[3].value == IdentityJson(b.buildIdentity);
  }

  lemma SameFour(a: seq<Member>, b: seq<Member>)
    requires |a| == |b| == 4 && DistinctKeys(a) && forall i :: 0 <= i < 4 ==> a[i].key == b[i].key
    ensures MeaningOf(JObject(a)) == MeaningOf(JObject(b))
      <==> MeaningOf(a[0].value) == MeaningOf(b[0].value) && MeaningOf(a[1].value) == MeaningOf(b[1].value)
           && MeaningOf(a[2].value) == MeaningOf(b[2].value) && MeaningOf(a[3].value) == MeaningOf(b[3].value)
  {
    SameRecord(a, b);
  }

  // ---- What the canonical text is printed from

  function Word(s: string): Meaning { Leaf(JString(s)) }

  function Words(ss: seq<string>): Meaning {
    Items(seq(|ss|, i requires 0 <= i < |ss| => Word(ss[i])))
  }

  /** An instruction without its lines; variables as a map. */
  ghost predicate Tells(e: Instruction, m: Meaning) {
    match e
    case Run(command, _, _) => m == Fields(map["kind" := Word("run"), "command" := Word(command)])
    case Env(values, _, _) =>
      exists vars :: HoldsVariables(values, vars) && m == Fields(map["kind" := Word("env"), "values" := Fields(vars)])
  }

  ghost predicate HoldsVariables(values: seq<(string, string)>, vars: map<string, Meaning>) {
    && (forall v :: v in values ==> v.0 in vars && vars[v.0] == Word(v.1))
    && (forall k :: k in vars ==> exists v :: v in values && v.0 == k)
  }

  function ManifestMeaning(s: Source): Meaning {
    Fields(map[
      "version" := Leaf(JNumber(1)),
      "name" := if s.name.Some? then Word(s.name.value) else Leaf(JNull),
      "layerDockerfile" := Word(s.dockerfile),
      "smokeCommands" :=
        Items(seq(|s.smokeCommands|, i requires 0 <= i < |s.smokeCommands| => Words(s.smokeCommands[i])))])
  }

  function IdentityMeaning(b: Option<BuildIdentity>): Meaning {
    if b.None? then Leaf(JNull)
    else Fields(map["baseTemplateRef" := Word(b.value.baseTemplateRef), "baseVersion" := Word(b.value.baseVersion),
                    "compilerVersion" := Word(b.value.compilerVersion)])
  }

  lemma ManifestMeans(s: Source)
    ensures MeaningOf(ManifestJson(s)) == ManifestMeaning(s)
  {
    var members := ManifestJson(s).members;
    FourFields(members);
    forall i | 0 <= i < |s.smokeCommands| ensures MeaningOf(Strings(s.smokeCommands[i])) == Words(s.smokeCommands[i]) {
    }
    assert MeaningOf(members[3].value) == ManifestMeaning(s).fields["smokeCommands"];
  }

  lemma FourFields(members: seq<Member>)
    requires |members| == 4
    ensures MeaningOf(JObject(members)) == Fields(map[
      members[0].key := MeaningOf(members[0].value), members[1].key := MeaningOf(members[1].value),
      members[2].key := MeaningOf(members[2].value), members[3].key := MeaningOf(members[3].value)])
  {
    ThreeFields(members[..3]);
  }

  lemma ThreeFields(members: seq<Member>)
    requires |members| == 3
    ensures MeaningOf(JObject(members)) == Fields(map[
      members[0].key := MeaningOf(members[0].value), members[1].key := MeaningOf(members[1].value),
      members[2].key := MeaningOf(members[2].value)])
  {
    TwoFields(members[..2]);
  }

  lemma TwoFields(members: seq<Member>)
    requires |members| == 2
    ensures MeaningOf(JObject(members)) == Fields(map[
      members[0].key := MeaningOf(members[0].value), members[1].key := MeaningOf(members[1].value)])
  {
    assert FieldsOf(members[..1][..0]) == map[];
    assert FieldsOf(members[..1]) == map[members[0].key := MeaningOf(members[0].value)];
  }

  lemma IdentityMeans(b: Option<BuildIdentity>)
    ensures MeaningOf(IdentityJson(b)) == IdentityMeaning(b)
  {
    if b.Some? {
      ThreeFields(IdentityJson(b).members);
    }
  }

  lemma InstructionMeans(engine: Engine, e: Instruction)
    requires e.Env? ==> DistinctNames(e.values)
    ensures Tells(e, MeaningOf(NormalizeInstruction(engine, e)))
  {
    TwoFields(NormalizeInstruction(engine, e).members);
    if e.Env? {
      var members := EnvMembers(e.values);
      SortMembersKeeps(engine, members);
      FieldsByElements(SortMembers(engine, members), members);
      VariablesMean(e.values);
      assert MeaningOf(EnvJson(engine, e.values)) == Fields(FieldsOf(members));
    }
  }

  lemma VariablesMean(values: seq<(string, string)>)
    requires DistinctNames(values)
    ensures HoldsVariables(values, FieldsOf(EnvMembers(values)))
  {
    var members := EnvMembers(values);
    FieldsHold(members);
    forall v | v in values ensures v.0 in FieldsOf(members) && FieldsOf(members)[v.0] == Word(v.1) {
      var i :| 0 <= i < |values| && values[i] == v;
      assert members[i].key == v.0;
    }
    forall k | k in FieldsOf(members) ensures exists v :: v in values && v.0 == k {
      var i := MemberWithKey(members, k);
      assert values[i] in values;
    }
  }

  /** The canonical text is printed from a document with sorted keys that says exactly this. */
  lemma DocumentMeans(engine: Engine, s: Source)
    requires Orders(engine) && Parsed(s)
    ensures CanonicalText(engine, s) == engine.stringify(SortedDocument(engine, s))
    ensures IsSortedJson(engine, SortedDocument(engine, s))
    ensures exists layer: seq<Meaning> ::
      |layer| == |s.instructions| && (forall i :: 0 <= i < |layer| ==> Tells(s.instructions[i], layer[i]))
      && MeaningOf(SortedDocument(engine, s)) == Fields(map[
        "schemaVersion" := Leaf(JNumber(1)), "manifest" := ManifestMeaning(s), "layer" := Items(layer),
        "buildIdentity" := IdentityMeaning(s.buildIdentity)])
  {
    DocumentWellFormed(engine, s);
    SortJsonSorts(engine, Document(engine, s));
    SortKeepsMeaning(engine, Document(engine, s));
    FourFields(Document(engine, s).members);
    ManifestMeans(s);
    IdentityMeans(s.buildIdentity);
    var layer := MeaningOf(NormalizeInstructions(engine, s.instructions)).items;
    forall i | 0 <= i < |layer| ensures Tells(s.instructions[i], layer[i]) {
      InstructionMeans(engine, s.instructions[i]);
    }
  }
}
