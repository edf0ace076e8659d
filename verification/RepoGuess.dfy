/** Guessing the repository a request is about: explicit mentions, names, a classifier's answer and the
    product metadata, always within an allowed list. */
module RepoGuess {
  import opened Options
  import opened JsText

  const DEFAULT_THRESHOLD := 0.85
  const PRODUCT_CONFIDENCE := 0.91
  const MAX_AMBIGUOUS := 100
  const MAX_SUGGESTED := 5

  /** An absent, null or (after normalization) blank text is none. */
  datatype Candidate = Candidate(owner: string, name: string, description: Option<string>,
                                 url: Option<string>, isPrivate: Option<bool>, branch: Option<string>)

  datatype Allowed = Allowed(key: string, repo: Candidate)

  datatype OwnerName = OwnerName(owner: string, name: string)

  datatype Context = Context(trigger: string, channel: Option<string>, hints: seq<string>, thread: Option<string>,
                             previous: Option<string>, canonicalProductRepo: Option<string>,
                               productRepoSignals: Option<string>)

  /** What the classifier returned; a field of another type than expected is absent, and a confidence
      that is not finite is too. */
  datatype Answer =
    | NotARecord
    | Record(status: Option<string>, confidence: Option<real>, owner: Option<string>, name: Option<string>,
             reason: Option<string>, candidates: seq<Suggestion>)

  datatype Suggestion = NoSuggestion | Suggestion(owner: Option<string>, name: Option<string>)

  datatype Reason =
    | NothingAllowed | Mentioned | ManyMentioned | ManyNamed | ChannelName | ManyChannelNames | HintName | ManyHintNames
    | NothingFound | InvalidAnswer | OutsideTheList | LowConfidence
    | FromModel(text: Option<string>) | ProductSignal(signal: string)

  datatype Guess =
    | Matched(owner: string, name: string, confidence: real, reason: Reason)
    | Unknown(confidence: real, reason: Reason, candidates: Option<seq<Candidate>>)

  /** Case folding, the pattern that recognises owner/name pairs and links in a text, and the three
      text normalizers. */
  datatype TextTools = TextTools(lower: string -> string, repoMatches: string -> seq<OwnerName>,
                                 comparable: string -> string, signalText: string -> string,
                                 splitSignals: string -> seq<string>)

  // ---- Keys and normalization

  function RepoKey(owner: string, name: string, t: TextTools): Option<string> {
    if Trim(owner) == "" || Trim(name) == "" then None else Some(t.lower(Trim(owner)) + "/" + t.lower(Trim(name)))
  }

  function KeyOf(c: Candidate, t: TextTools): Option<string> {
    RepoKey(c.owner, c.name, t)
  }

  function NonBlank(text: Option<string>): Option<string> {
    if text.None? || Trim(text.value) == "" then None else Some(Trim(text.value))
  }

  function Normal(c: Candidate): Candidate {
    Candidate(Trim(c.owner), Trim(c.name), NonBlank(c.description), NonBlank(c.url), c.isPrivate, NonBlank(c.branch))
  }

  lemma NormalIsIdempotent(c: Candidate, t: TextTools)
    ensures Normal(Normal(c)) == Normal(c)
    ensures KeyOf(Normal(c), t) == KeyOf(c, t)
  {
    TrimTwice(c.owner);
    TrimTwice(c.name);
    NonBlankTwice(c.description);
    NonBlankTwice(c.url);
    NonBlankTwice(c.branch);
  }

  lemma TrimTwice(s: string)
    ensures Trim(Trim(s)) == Trim(s)
  {
    TrimIsTight(s);
    TrimTight(Trim(s));
  }

  lemma NonBlankTwice(s: Option<string>)
    ensures NonBlank(NonBlank(s)) == NonBlank(s)
  {
    if s.Some? {
      TrimTwice(s.value);
    }
  }

  /** The allowed repositories by key: the first candidate of each key, normalized. */
  function Kept(candidates: seq<Candidate>, t: TextTools): map<string, Candidate> {
    if candidates == [] then map[]
    else
      var before, last := Kept(candidates[..|candidates| - 1], t), candidates[|candidates| - 1];
      var key := KeyOf(last, t);
      if key.None? || key.value in before then before else before[key.value := Normal(last)]
  }

  predicate DistinctKeys(list: seq<Allowed>) {
    forall i, j :: 0 <= i < j < |list| ==> list[i].key != list[j].key
  }

  /** The same repositories in the order of their first candidates. */
  function KeptList(candidates: seq<Candidate>, t: TextTools): seq<Allowed> {
    if candidates == [] then []
    else
      var front, last := candidates[..|candidates| - 1], candidates[|candidates| - 1];
      var key := KeyOf(last, t);
      if key.None? || key.value in Kept(front, t) then KeptList(front, t)
      else KeptList(front, t) + [Allowed(key.value, Normal(last))]
  }

  lemma {:induction false} KeptListLists(candidates: seq<Candidate>, t: TextTools)
    ensures Lists(KeptList(candidates, t), Kept(candidates, t))
  {
    if candidates != [] {
      var front, last := candidates[..|candidates| - 1], candidates[|candidates| - 1];
      KeptListLists(front, t);
      var key := KeyOf(last, t);
      if key.Some? && key.value !in Kept(front, t) {
        ListsOneMore(KeptList(front, t), Kept(front, t), key.value, Normal(last));
      }
    }
  }

  /** The list holds the entries of the map, each once. */
  ghost predicate Lists(list: seq<Allowed>, byKey: map<string, Candidate>) {
    && (forall i :: 0 <= i < |list| ==> list[i].key in byKey && byKey[list[i].key] == list[i].repo)
    && DistinctKeys(list)
    && (forall k :: k in byKey ==> exists i :: 0 <= i < |list| && list[i].key == k)
  }

  function Keys(list: seq<Allowed>): set<string> {
    set i | 0 <= i < |list| :: list[i].key
  }

  lemma {:induction false} DistinctKeysCount(list: seq<Allowed>)
    requires DistinctKeys(list)
    ensures |Keys(list)| == |list|
  {
    if list != [] {
      var n := |list| - 1;
      DistinctKeysCount(list[..n]);
      assert Keys(list) == Keys(list[..n]) + {list[n].key};
      assert list[n].key !in Keys(list[..n]);
    }
  }

  lemma ListsCount(list: seq<Allowed>, byKey: map<string, Candidate>)
    requires Lists(list, byKey)
    ensures |list| == |byKey|
  {
    DistinctKeysCount(list);
    assert Keys(list) == byKey.Keys;
    assert |byKey.Keys| == |byKey|;
  }

  method NormalizeRepoCandidates(candidates: seq<Candidate>, t: TextTools) returns (normalized: seq<Allowed>)
    ensures normalized == KeptList(candidates, t) && Lists(normalized, Kept(candidates, t))
  {
    normalized := [];
    var seen: set<string> := {};
    for i := 0 to |candidates|
      invariant seen == Kept(candidates[..i], t).Keys
      invariant normalized == KeptList(candidates[..i], t)
    {
      assert candidates[..i + 1][..i] == candidates[..i];
      var key := KeyOf(candidates[i], t);
      if key.Some? && key.value !in seen {
        seen := seen + {key.value};
        normalized := normalized + [Allowed(key.value, Normal(candidates[i]))];
      }
    }
    assert candidates[..|candidates|] == candidates;
    KeptListLists(candidates, t);
  }

  lemma ListsOneMore(list: seq<Allowed>, byKey: map<string, Candidate>, key: string, repo: Candidate)
    requires Lists(list, byKey) && key !in byKey
    ensures Lists(list + [Allowed(key, repo)], byKey[key := repo])
  {
    var longer := list + [Allowed(key, repo)];
    assert longer[|list|].key == key;
    forall k | k in byKey ensures exists i :: 0 <= i < |longer| && longer[i].key == k {
      var i :| 0 <= i < |list| && list[i].key == k;
      assert longer[i].key == k;
    }
  }

  // ---- What the list of candidates decides

  /** Candidates with the same key are the same candidate, spelling of blanks aside. */
  ghost predicate Consistent(candidates: seq<Candidate>, t: TextTools) {
    forall i, j :: 0 <= i < |candidates| && 0 <= j < |candidates|
      && KeyOf(candidates[i], t).Some? && KeyOf(candidates[i], t) == KeyOf(candidates[j], t)
      ==> Normal(candidates[i]) == Normal(candidates[j])
  }

  /** Every allowed repository comes from a candidate, and is its normal form. */
  lemma {:induction false} KeptIsFromCandidate(candidates: seq<Candidate>, t: TextTools, k: string) returns (i: nat)
    requires k in Kept(candidates, t)
    ensures i < |candidates| && KeyOf(candidates[i], t) == Some(k) && Kept(candidates, t)[k] == Normal(candidates[i])
  {
    var n := |candidates| - 1;
    if k in Kept(candidates[..n], t) {
      i := KeptIsFromCandidate(candidates[..n], t, k);
    } else {
      i := n;
    }
  }

  lemma {:induction false} KeptHasEveryKey(candidates: seq<Candidate>, t: TextTools, i: nat)
    requires i < |candidates| && KeyOf(candidates[i], t).Some?
    ensures KeyOf(candidates[i], t).value in Kept(candidates, t)
  {
    var n := |candidates| - 1;
    if i < n {
      assert candidates[..n][i] == candidates[i];
      KeptHasEveryKey(candidates[..n], t, i);
    }
  }

  /** Order and repetition of consistent candidates do not matter: the allowed repositories depend on
      the set of candidates only. */
  lemma OrderAndRepetitionDoNotMatter(candidates: seq<Candidate>, others: seq<Candidate>, t: TextTools)
    requires Consistent(candidates, t)
    requires forall c :: c in candidates <==> c in others
    ensures Kept(candidates, t) == Kept(others, t)
  {
    forall k | k in Kept(candidates, t) || k in Kept(others, t)
      ensures k in Kept(candidates, t) && k in Kept(others, t) && Kept(candidates, t)[k] == Kept(others, t)[k]
    {
      if k in Kept(candidates, t) {
        var i := KeptIsFromCandidate(candidates, t, k);
        assert candidates[i] in others;
        var j: nat :| j < |others| && others[j] == candidates[i];
        KeptHasEveryKey(others, t, j);
      }
      var j := KeptIsFromCandidate(others, t, k);
      assert others[j] in candidates;
      var i: nat :| i < |candidates| && candidates[i] == others[j];
      KeptHasEveryKey(candidates, t, i);
      var i' := KeptIsFromCandidate(candidates, t, k);
      assert Normal(candidates[i]) == Normal(candidates[i']);
    }
  }

  /** A list already normalized keeps exactly its entries when normalized again. */
  ghost predicate Settled(byKey: map<string, Candidate>, t: TextTools) {
    forall k :: k in byKey ==> KeyOf(byKey[k], t) == Some(k) && Normal(byKey[k]) == byKey[k]
  }

  lemma KeptIsSettled(candidates: seq<Candidate>, t: TextTools)
    ensures Settled(Kept(candidates, t), t)
  {
    forall k | k in Kept(candidates, t)
      ensures KeyOf(Kept(candidates, t)[k], t) == Some(k) && Normal(Kept(candidates, t)[k]) == Kept(candidates, t)[k] {
      var i := KeptIsFromCandidate(candidates, t, k);
      NormalIsIdempotent(candidates[i], t);
    }
  }

  function Repos(list: seq<Allowed>): (repos: seq<Candidate>)
    ensures |repos| == |list| && forall i :: 0 <= i < |list| ==> repos[i] == list[i].repo
  {
    seq(|list|, i requires 0 <= i < |list| => list[i].repo)
  }

  lemma KeptAgain(list: seq<Allowed>, byKey: map<string, Candidate>, t: TextTools)
    requires Lists(list, byKey) && Settled(byKey, t)
    ensures Kept(Repos(list), t) == byKey
  {
    var again := Kept(Repos(list), t);
    forall k | k in again ensures k in byKey && again[k] == byKey[k] {
      var i := KeptIsFromCandidate(Repos(list), t, k);
      assert KeyOf(list[i].repo, t) == Some(list[i].key);
    }
    forall k | k in byKey ensures k in again {
      var i: nat :| i < |list| && list[i].key == k;
      KeptHasEveryKey(Repos(list), t, i);
    }
  }

  // ---- The verdict as a function of the allowed repositories

  /** The candidates an ambiguous verdict offers; ListOrder stands for the order of the allowed list. */
  datatype Offer = NoOffer | InOrder(repos: seq<Candidate>) | ListOrder(repoOf: map<string, Candidate>)

  datatype Verdict =
    | Match(key: string, repo: Candidate, confidence: real, reason: Reason)
    | NoMatch(confidence: real, reason: Reason, offer: Offer)

  function Select(byKey: map<string, Candidate>, keep: Allowed -> bool): map<string, Candidate> {
    map k | k in byKey && keep(Allowed(k, byKey[k])) :: byKey[k]
  }

  ghost function OnlyKey(m: map<string, Candidate>): (k: string)
    requires |m| == 1
    ensures k in m
  {
    assert m.Keys != {};
    var k :| k in m.Keys;
    k
  }

  lemma OnlyKeyIs(m: map<string, Candidate>, k: string)
    requires |m| == 1 && k in m
    ensures OnlyKey(m) == k
  {
    var others := m.Keys - {OnlyKey(m)};
    assert |others| == 0;
    assert k !in others;
  }

  function OrBlank(text: Option<string>): string {
    if text.None? then "" else text.value
  }

  function WithoutBlank(texts: seq<string>): seq<string> {
    if texts == [] then [] else (if Trim(texts[0]) != "" then [texts[0]] else []) + WithoutBlank(texts[1..])
  }

  function UserTexts(c: Context): seq<string> {
    WithoutBlank([c.trigger, OrBlank(c.channel)] + c.hints + [OrBlank(c.thread), OrBlank(c.previous)])
  }

  function ProductTexts(c: Context): seq<string> {
    WithoutBlank([c.trigger, OrBlank(c.thread), OrBlank(c.previous)])
  }

  function AddMentions(found: seq<string>, matches: seq<OwnerName>, keys: set<string>, t: TextTools): seq<string>
    decreases |matches|
  {
    if matches == [] then found
    else
      var key := RepoKey(matches[0].owner, matches[0].name, t);
      AddMentions(if key.Some? && key.value in keys && key.value !in found then found + [key.value]
        else found, matches[1..], keys, t)
  }

  function AddTexts(found: seq<string>, texts: seq<string>, keys: set<string>, t: TextTools): seq<string>
    decreases |texts|
  {
    if texts == [] then found else AddTexts(AddMentions(found, t.repoMatches(texts[0]), keys, t), texts[1..], keys, t)
  }

  /** The allowed keys the context mentions, in order of first mention. */
  function MentionedKeys(c: Context, keys: set<string>, t: TextTools): seq<string> {
    AddTexts([], UserTexts(c), keys, t)
  }

  predicate Mentions(matches: seq<OwnerName>, key: string, t: TextTools) {
    exists i :: 0 <= i < |matches| && RepoKey(matches[i].owner, matches[i].name, t) == Some(key)
  }

  predicate NoRepeats(s: seq<string>) {
    forall i, j :: 0 <= i < j < |s| ==> s[i] != s[j]
  }

  lemma {:induction false} AddMentionsAddsThem(found: seq<string>, matches: seq<OwnerName>, keys: set<string>,
                                               t: TextTools)
    requires NoRepeats(found)
    ensures NoRepeats(AddMentions(found, matches, keys, t))
    ensures forall k ::
      k in AddMentions(found, matches, keys, t) <==> k in found || (k in keys && Mentions(matches, k, t))
    decreases |matches|
  {
    if matches != [] {
      var key := RepoKey(matches[0].owner, matches[0].name, t);
      var next := if key.Some? && key.value in keys && key.value !in found then found + [key.value] else found;
      AddMentionsAddsThem(next, matches[1..], keys, t);
      forall k ensures Mentions(matches, k, t) <==> key == Some(k) || Mentions(matches[1..], k, t) {
        assert matches == [matches[0]] + matches[1..];
        if i :| 0 <= i < |matches[1..]| && RepoKey(matches[1..][i].owner, matches[1..][i].name, t) == Some(k) {
          assert RepoKey(matches[i + 1].owner, matches[i + 1].name, t) == Some(k);
        }
      }
    }
  }

  predicate SomeTextMentions(texts: seq<string>, key: string, t: TextTools) {
    exists i :: 0 <= i < |texts| && Mentions(t.repoMatches(texts[i]), key, t)
  }

  lemma {:induction false} AddTextsAddsThem(found: seq<string>, texts: seq<string>, keys: set<string>, t: TextTools)
    requires NoRepeats(found)
    ensures NoRepeats(AddTexts(found, texts, keys, t))
    ensures forall k ::
      k in AddTexts(found, texts, keys, t) <==> k in found || (k in keys && SomeTextMentions(texts, k, t))
    decreases |texts|
  {
    if texts != [] {
      AddMentionsAddsThem(found, t.repoMatches(texts[0]), keys, t);
      AddTextsAddsThem(AddMentions(found, t.repoMatches(texts[0]), keys, t), texts[1..], keys, t);
      forall k ensures SomeTextMentions(texts, k, t)
        <==> Mentions(t.repoMatches(texts[0]), k, t) || SomeTextMentions(texts[1..], k, t) {
        assert texts == [texts[0]] + texts[1..];
        if i :| 0 <= i < |texts[1..]| && Mentions(t.repoMatches(texts[1..][i]), k, t) {
          assert Mentions(t.repoMatches(texts[i + 1]), k, t);
        }
      }
    }
  }

  /** The mentioned keys are the allowed keys that some text of the user mentions, each once. */
  lemma MentionedExactly(c: Context, keys: set<string>, t: TextTools)
    ensures NoRepeats(MentionedKeys(c, keys, t))
    ensures forall k :: k in MentionedKeys(c, keys, t) <==> k in keys && SomeTextMentions(UserTexts(c), k, t)
  {
    AddTextsAddsThem([], UserTexts(c), keys, t);
  }

  function ReposAt(keys: seq<string>, byKey: map<string, Candidate>): (repos: seq<Candidate>)
    requires forall k :: k in keys ==> k in byKey
    ensures |repos| == |keys| && forall i :: 0 <= i < |keys| ==> repos[i] == byKey[keys[i]]
  {
    seq(|keys|, i requires 0 <= i < |keys| => byKey[keys[i]])
  }

  function FirstFew<T>(s: seq<T>, most: nat): seq<T> {
    if |s| <= most then s else s[..most]
  }

  predicate Includes(text: string, part: string) {
    exists i :: 0 <= i <= |text| && part <= text[i..]
  }

  function SplitAtSlash(s: string): (parts: seq<string>)
    ensures |parts| >= 1
  {
    if s == "" then [""]
    else
      var rest := SplitAtSlash(s[1..]);
      if s[0] == '/' then [""] + rest else [[s[0]] + rest[0]] + rest[1..]
  }

  /** The key the name check skips: the first two parts of the product repository. */
  function SkippedKey(c: Context, t: TextTools): Option<string> {
    var product := NonBlank(c.canonicalProductRepo);
    if product.None? then None
    else
      var parts := SplitAtSlash(product.value);
      RepoKey(parts[0], if |parts| > 1 then parts[1] else "", t)
  }

  predicate SomeTextNames(texts: seq<string>, name: string, t: TextTools) {
    exists i :: 0 <= i < |texts| && t.signalText(texts[i]) != ""
      && Includes(" " + t.signalText(texts[i]) + " ", " " + name + " ")
  }

  function NamedInText(c: Context, t: TextTools): Allowed -> bool {
    (a: Allowed) =>
      SkippedKey(c, t) != Some(a.key) && t.signalText(a.repo.name) != ""
        && SomeTextNames(ProductTexts(c), t.signalText(a.repo.name), t)
  }

  function HasName(name: string, t: TextTools): Allowed -> bool {
    (a: Allowed) => t.comparable(a.repo.name) == name
  }

  predicate SomeHintNames(hints: seq<string>, name: string, t: TextTools) {
    exists i :: 0 <= i < |hints| && t.comparable(hints[i]) != "" && name == t.comparable(hints[i])
  }

  function NamedByHint(hints: seq<string>, t: TextTools): Allowed -> bool {
    (a: Allowed) => SomeHintNames(hints, t.comparable(a.repo.name), t)
  }

  ghost function OnlyOne(hits: map<string, Candidate>, confidence: real, reason: Reason): Verdict
    requires |hits| == 1
  {
    Match(OnlyKey(hits), hits[OnlyKey(hits)], confidence, reason)
  }

  ghost function Deterministic(byKey: map<string, Candidate>, c: Context, t: TextTools): Verdict {
    MentionedExactly(c, byKey.Keys, t);
    var mentioned := MentionedKeys(c, byKey.Keys, t);
    if |mentioned| == 1 then Match(mentioned[0], byKey[mentioned[0]], 1.0, Mentioned)
    else if |mentioned| > 1
      then NoMatch(0.5, ManyMentioned, InOrder(FirstFew(ReposAt(mentioned, byKey), MAX_AMBIGUOUS)))
    else
      var named := Select(byKey, NamedInText(c, t));
      if |named| > 1 then NoMatch(0.5, ManyNamed, ListOrder(named))
      else ByName(byKey, c, t)
  }

  ghost function ByName(byKey: map<string, Candidate>, c: Context, t: TextTools): Verdict {
    var channel := t.comparable(OrBlank(c.channel));
    var inChannel := Select(byKey, HasName(channel, t));
    var hinted := Select(byKey, NamedByHint(c.hints, t));
    if channel != "" && |inChannel| == 1 then OnlyOne(inChannel, 0.95, ChannelName)
    else if channel != "" && |inChannel| > 1 then NoMatch(0.5, ManyChannelNames, NoOffer)
    else if |hinted| == 1 then OnlyOne(hinted, 0.95, HintName)
    else if |hinted| > 1 then NoMatch(0.5, ManyHintNames, NoOffer)
    else NoMatch(0.0, NothingFound, NoOffer)
  }

  function Confidence(answer: Answer): real
    requires answer.Record?
  {
    if answer.confidence.None? || answer.confidence.value < 0.0 then 0.0
    else if answer.confidence.value > 1.0 then 1.0 else answer.confidence.value
  }

  function SuggestionKey(s: Suggestion, t: TextTools): Option<string> {
    if s.NoSuggestion? then None else RepoKey(OrBlank(s.owner), OrBlank(s.name), t)
  }

  function AddSuggestions(found: seq<string>, items: seq<Suggestion>, keys: set<string>,
                          t: TextTools): (all: seq<string>)
    requires forall k :: k in found ==> k in keys
    ensures forall k :: k in all ==> k in keys
    decreases |items|
  {
    if items == [] then found
    else
      var key := SuggestionKey(items[0], t);
      AddSuggestions(if key.Some? && key.value in keys && key.value !in found then found + [key.value]
        else found, items[1..], keys, t)
  }

  function SuggestedRepos(items: seq<Suggestion>, byKey: map<string, Candidate>, t: TextTools): seq<Candidate> {
    FirstFew(ReposAt(AddSuggestions([], items, byKey.Keys, t), byKey), MAX_SUGGESTED)
  }

  function Classified(answer: Answer, byKey: map<string, Candidate>, threshold: real, t: TextTools): Verdict {
    if answer.NotARecord? then NoMatch(0.0, InvalidAnswer, NoOffer)
    else if answer.status != Some("matched") then
      NoMatch(Confidence(answer), FromModel(answer.reason), InOrder(SuggestedRepos(answer.candidates, byKey, t)))
    else
      var key := RepoKey(OrBlank(answer.owner), OrBlank(answer.name), t);
      if key.None? || key.value !in byKey then NoMatch(Confidence(answer), OutsideTheList, NoOffer)
      else if Confidence(answer) < threshold then NoMatch(Confidence(answer), LowConfidence, NoOffer)
      else Match(key.value, byKey[key.value], Confidence(answer), FromModel(answer.reason))
  }

  function FirstSignal(signals: seq<string>, text: string, t: TextTools): Option<string> {
    if signals == [] then None
    else if t.signalText(signals[0]) != "" && Includes(text, t.signalText(signals[0])) then Some(signals[0])
    else FirstSignal(signals[1..], text, t)
  }

  function ProductKey(c: Context, t: TextTools): Option<string> {
    var product := NonBlank(c.canonicalProductRepo);
    if product.None? || |SplitAtSlash(product.value)| != 2 then None
    else RepoKey(SplitAtSlash(product.value)[0], SplitAtSlash(product.value)[1], t)
  }

  function MatchingSignal(c: Context, t: TextTools): Option<string> {
    var signals := if NonBlank(c.productRepoSignals).None? then []
      else t.splitSignals(NonBlank(c.productRepoSignals).value);
    FirstSignal(signals, t.signalText(Join(ProductTexts(c), "\n")), t)
  }

  function Competes(productKey: string, signal: string, t: TextTools): Allowed -> bool {
    (a: Allowed) =>
      a.key != productKey && t.signalText(signal) != "" &&
      Includes(t.signalText(Join([a.repo.owner, a.repo.name, OrBlank(a.repo.description), OrBlank(a.repo.url),
                                  OrBlank(a.repo.branch)], " ")),
               t.signalText(signal))
  }

  predicate OffersAnother(repos: seq<Candidate>, productKey: string, t: TextTools) {
    exists i :: 0 <= i < |repos| && KeyOf(repos[i], t) != Some(productKey)
  }

  function ByProduct(byKey: map<string, Candidate>, c: Context, offered: seq<Candidate>, threshold: real,
                     t: TextTools): Option<Verdict> {
    var key, signal := ProductKey(c, t), MatchingSignal(c, t);
    if PRODUCT_CONFIDENCE < threshold || key.None? || key.value !in byKey || signal.None? then None
    else if OffersAnother(offered, key.value, t) || Select(byKey, Competes(key.value, signal.value, t)) != map[]
      then None
    else Some(Match(key.value, byKey[key.value], PRODUCT_CONFIDENCE, ProductSignal(signal.value)))
  }

  /** The verdict for the allowed repositories, the context and the classifier's answer, if there is a
      classifier. */
  ghost function VerdictFor(byKey: map<string, Candidate>, c: Context, answer: Option<Answer>, threshold: real,
                            t: TextTools): Verdict {
    if byKey == map[] then NoMatch(0.0, NothingAllowed, NoOffer)
    else OrAnswer(byKey, c, Deterministic(byKey, c, t), answer, threshold, t)
  }

  /** The classifier is asked only when the text itself says nothing. */
  ghost function OrAnswer(byKey: map<string, Candidate>, c: Context, first: Verdict, answer: Option<Answer>,
                          threshold: real, t: TextTools): Verdict {
    if first.Match? || first.confidence > 0.0 || answer.None? then first
    else FromAnswer(byKey, c, answer.value, threshold, t)
  }

  /** The classifier's choice, or failing that the product repository. */
  function FromAnswer(byKey: map<string, Candidate>, c: Context, answer: Answer, threshold: real,
                      t: TextTools): Verdict {
    OrProduct(byKey, c, Classified(answer, byKey, threshold, t), threshold, t)
  }

  function OrProduct(byKey: map<string, Candidate>, c: Context, classified: Verdict, threshold: real,
                     t: TextTools): Verdict {
    if classified.Match? then classified
    else
      var product :=
        ByProduct(byKey, c, if classified.offer.InOrder? then classified.offer.repos else [], threshold, t);
      if product.Some? then product.value else classified
  }

  /** The guess states the verdict on the listed repositories. */
  predicate States(g: Guess, v: Verdict, list: seq<Allowed>) {
    match v
    case Match(_, repo, confidence, reason) => g == Matched(repo.owner, repo.name, confidence, reason)
    case NoMatch(confidence, reason, NoOffer) => g == Unknown(confidence, reason, None)
    case NoMatch(confidence, reason, InOrder(repos)) => g == Unknown(confidence, reason, Some(repos))
    case NoMatch(confidence, reason, ListOrder(repoOf)) => g == Unknown(confidence, reason, Some(Offered(list, repoOf)))
  }

  function KeyIn(keys: set<string>): Allowed -> bool {
    (a: Allowed) => a.key in keys
  }

  /** The repositories of the map in the order of the list, the first hundred of them. */
  function Offered(list: seq<Allowed>, repoOf: map<string, Candidate>): seq<Candidate> {
    FirstFew(Repos(Filter(list, KeyIn(repoOf.Keys))), MAX_AMBIGUOUS)
  }

  // ---- The program

  method CandidatesByKey(list: seq<Allowed>, ghost byKey: map<string, Candidate>) returns (m: map<string, Candidate>)
    requires Lists(list, byKey)
    ensures m == byKey
  {
    m := map[];
    for i := 0 to |list|
      invariant forall k :: k in m <==> exists j :: 0 <= j < i && list[j].key == k
      invariant forall k :: k in m ==> k in byKey && m[k] == byKey[k]
    {
      m := m[list[i].key := list[i].repo];
    }
  }

  function Filter(list: seq<Allowed>, keep: Allowed -> bool): seq<Allowed> {
    if list == [] then []
    else
      var n := |list| - 1;
      Filter(list[..n], keep) + if keep(list[n]) then [list[n]] else []
  }

  lemma {:induction false} FilterHas(list: seq<Allowed>, keep: Allowed -> bool)
    ensures forall a :: a in Filter(list, keep) <==> a in list && keep(a)
  {
    if list != [] {
      var n := |list| - 1;
      FilterHas(list[..n], keep);
      assert list == list[..n] + [list[n]];
    }
  }

  lemma {:induction false} FilterDistinct(list: seq<Allowed>, keep: Allowed -> bool)
    requires DistinctKeys(list)
    ensures DistinctKeys(Filter(list, keep))
  {
    if list != [] {
      var n := |list| - 1;
      FilterDistinct(list[..n], keep);
      FilterHas(list[..n], keep);
      var front := Filter(list[..n], keep);
      forall i | 0 <= i < |front| ensures front[i].key != list[n].key {
        assert front[i] in list[..n];
        var j :| 0 <= j < n && list[..n][j] == front[i];
        assert list[j].key != list[n].key;
      }
      assert Filter(list, keep) == front || Filter(list, keep) == front + [list[n]];
    }
  }

  /** Filtering a listing lists the selected entries. */
  lemma FilterLists(list: seq<Allowed>, byKey: map<string, Candidate>, keep: Allowed -> bool)
    requires Lists(list, byKey)
    ensures Lists(Filter(list, keep), Select(byKey, keep))
  {
    var kept := Filter(list, keep);
    FilterHas(list, keep);
    FilterDistinct(list, keep);
    forall i | 0 <= i < |kept| ensures kept[i].key in Select(byKey, keep) && byKey[kept[i].key] == kept[i].repo {
      assert kept[i] in list;
      assert kept[i] == Allowed(kept[i].key, byKey[kept[i].key]);
    }
    forall k | k in Select(byKey, keep) ensures exists i :: 0 <= i < |kept| && kept[i].key == k {
      var i :| 0 <= i < |list| && list[i].key == k;
      assert list[i] in kept;
    }
  }

  method FilterCandidates(list: seq<Allowed>, keep: Allowed -> bool, ghost byKey: map<string, Candidate>)
      returns (kept: seq<Allowed>)
    requires Lists(list, byKey)
    ensures kept == Filter(list, keep) && Lists(kept, Select(byKey, keep)) && |kept| == |Select(byKey, keep)|
  {
    kept := [];
    for i := 0 to |list|
      invariant kept == Filter(list[..i], keep)
    {
      assert list[..i + 1][..i] == list[..i];
      if keep(list[i]) {
        kept := kept + [list[i]];
      }
    }
    assert list[..|list|] == list;
    FilterLists(list, byKey, keep);
    ListsCount(kept, Select(byKey, keep));
  }

  lemma {:induction false} FilterAlike(list: seq<Allowed>, keep: Allowed -> bool, keep': Allowed -> bool)
    requires forall i :: 0 <= i < |list| ==> keep(list[i]) == keep'(list[i])
    ensures Filter(list, keep) == Filter(list, keep')
  {
    if list != [] {
      FilterAlike(list[..|list| - 1], keep, keep');
    }
  }

  /** Filtering a listing is taking the entries with the selected keys. */
  lemma SelectedByKey(list: seq<Allowed>, byKey: map<string, Candidate>, keep: Allowed -> bool)
    requires Lists(list, byKey)
    ensures Filter(list, keep) == Filter(list, KeyIn(Select(byKey, keep).Keys))
  {
    forall i | 0 <= i < |list| ensures keep(list[i]) == KeyIn(Select(byKey, keep).Keys)(list[i]) {
      assert list[i] == Allowed(list[i].key, byKey[list[i].key]);
    }
    FilterAlike(list, keep, KeyIn(Select(byKey, keep).Keys));
  }

  method CollectMentions(c: Context, candidateByKey: map<string, Candidate>, t: TextTools) returns (found: seq<string>)
    ensures found == MentionedKeys(c, candidateByKey.Keys, t)
  {
    var texts := UserTexts(c);
    found := [];
    for i := 0 to |texts|
      invariant AddTexts(found, texts[i..], candidateByKey.Keys, t) == MentionedKeys(c, candidateByKey.Keys, t)
    {
      var matches := t.repoMatches(texts[i]);
      ghost var start := found;
      for j := 0 to |matches|
        invariant AddMentions(found, matches[j..], candidateByKey.Keys, t)
          == AddMentions(start, matches, candidateByKey.Keys, t)
      {
        var key := RepoKey(matches[j].owner, matches[j].name, t);
        if key.Some? && key.value in candidateByKey && key.value !in found {
          found := found + [key.value];
        }
        assert matches[j..][1..] == matches[j + 1..];
      }
      assert texts[i..][1..] == texts[i + 1..];
    }
  }

  method FindHintMatches(hints: seq<string>, list: seq<Allowed>, ghost byKey: map<string, Candidate>, t: TextTools)
    returns (matches: map<string, Candidate>)
    requires Lists(list, byKey)
    ensures matches == Select(byKey, NamedByHint(hints, t))
  {
    matches := map[];
    forall k | k in byKey ensures !NamedByHint(hints[..0], t)(Allowed(k, byKey[k])) {
      assert !SomeHintNames(hints[..0], t.comparable(byKey[k].name), t);
    }
    for i := 0 to |hints|
      invariant matches == Select(byKey, NamedByHint(hints[..i], t))
    {
      var hint := t.comparable(hints[i]);
      if hint != "" {
        matches := AddHintMatches(hint, list, matches, byKey, t);
      }
      HintAdds(hints, i, byKey, t);
    }
    assert hints[..|hints|] == hints;
  }

  /** The inner loop: every candidate with this name is added. */
  method AddHintMatches(hint: string, list: seq<Allowed>, before: map<string, Candidate>,
                        ghost byKey: map<string, Candidate>, t: TextTools)
    returns (matches: map<string, Candidate>)
    requires Lists(list, byKey) && forall k :: k in before ==> k in byKey && before[k] == byKey[k]
    ensures forall k :: k in matches ==> k in byKey && matches[k] == byKey[k]
    ensures forall k :: k in matches <==> k in before || (k in byKey && t.comparable(byKey[k].name) == hint)
  {
    matches := before;
    for j := 0 to |list|
      invariant forall k :: k in matches ==> k in byKey && matches[k] == byKey[k]
      invariant forall k ::
        k in matches <==>
        k in before || exists l :: 0 <= l < j && list[l].key == k && t.comparable(list[l].repo.name) == hint
    {
      if t.comparable(list[j].repo.name) == hint {
        matches := matches[list[j].key := list[j].repo];
      }
    }
    forall k | k in byKey && t.comparable(byKey[k].name) == hint ensures k in matches {
      var l :| 0 <= l < |list| && list[l].key == k;
    }
  }

  lemma HintAdds(hints: seq<string>, i: nat, byKey: map<string, Candidate>, t: TextTools)
    requires i < |hints|
    ensures forall k :: k in Select(byKey, NamedByHint(hints[..i + 1], t)) <==>
      k in Select(byKey, NamedByHint(hints[..i], t)) || (k in byKey && t.comparable(hints[i]) != ""
        && t.comparable(byKey[k].name) == t.comparable(hints[i]))
  {
    forall name ensures SomeHintNames(hints[..i + 1], name, t) <==>
      SomeHintNames(hints[..i], name, t) || (t.comparable(hints[i]) != "" && name == t.comparable(hints[i])) {
      assert hints[..i + 1] == hints[..i] + [hints[i]];
      if j :| 0 <= j < i && t.comparable(hints[..i][j]) != "" && name == t.comparable(hints[..i][j]) {
        assert hints[..i + 1][j] == hints[j];
      }
      assert hints[..i + 1][i] == hints[i];
    }
    forall k | k in byKey
      ensures k in Select(byKey, NamedByHint(hints[..i + 1], t))
        <==> SomeHintNames(hints[..i + 1], t.comparable(byKey[k].name), t)
      ensures k in Select(byKey, NamedByHint(hints[..i], t))
        <==> SomeHintNames(hints[..i], t.comparable(byKey[k].name), t)
    {
      assert NamedByHint(hints[..i + 1], t)(Allowed(k, byKey[k]))
        == SomeHintNames(hints[..i + 1], t.comparable(byKey[k].name), t);
      assert NamedByHint(hints[..i], t)(Allowed(k, byKey[k]))
        == SomeHintNames(hints[..i], t.comparable(byKey[k].name), t);
    }
  }

  method DeterministicGuessRepo(c: Context, list: seq<Allowed>, ghost byKey: map<string, Candidate>, t: TextTools)
      returns (g: Guess)
    requires Lists(list, byKey)
    ensures States(g, Deterministic(byKey, c, t), list)
  {
    var candidateByKey := CandidatesByKey(list, byKey);
    var mentioned := CollectMentions(c, candidateByKey, t);
    MentionedExactly(c, byKey.Keys, t);
    if |mentioned| == 1 {
      var candidate := candidateByKey[mentioned[0]];
      return Matched(candidate.owner, candidate.name, 1.0, Mentioned);
    }
    if |mentioned| > 1 {
      return Unknown(0.5, ManyMentioned, Some(FirstFew(ReposAt(mentioned, candidateByKey), MAX_AMBIGUOUS)));
    }
    var named := FilterCandidates(list, NamedInText(c, t), byKey);
    if |named| > 1 {
      SelectedByKey(list, byKey, NamedInText(c, t));
      g := Unknown(0.5, ManyNamed, Some(FirstFew(Repos(named), MAX_AMBIGUOUS)));
      return;
    }
    g := GuessByName(c, list, byKey, t);
  }

  method GuessByName(c: Context, list: seq<Allowed>, ghost byKey: map<string, Candidate>, t: TextTools)
      returns (g: Guess)
    requires Lists(list, byKey)
    ensures States(g, ByName(byKey, c, t), list)
  {
    var channel := t.comparable(OrBlank(c.channel));
    if channel != "" {
      var inChannel := FilterCandidates(list, HasName(channel, t), byKey);
      if |inChannel| == 1 {
        OnlyKeyIs(Select(byKey, HasName(channel, t)), inChannel[0].key);
        return Matched(inChannel[0].repo.owner, inChannel[0].repo.name, 0.95, ChannelName);
      }
      if |inChannel| > 1 {
        return Unknown(0.5, ManyChannelNames, None);
      }
    }
    var hinted := FindHintMatches(c.hints, list, byKey, t);
    if |hinted| == 1 {
      assert hinted.Keys != {};
      var key :| key in hinted.Keys;
      OnlyKeyIs(hinted, key);
      return Matched(hinted[key].owner, hinted[key].name, 0.95, HintName);
    }
    if |hinted| > 1 {
      return Unknown(0.5, ManyHintNames, None);
    }
    g := Unknown(0.0, NothingFound, None);
  }

  method ParseAllowedSuggestions(items: seq<Suggestion>, candidateByKey: map<string, Candidate>, t: TextTools)
      returns (repos: seq<Candidate>)
    ensures repos == SuggestedRepos(items, candidateByKey, t)
  {
    var found: seq<string> := [];
    repos := [];
    for i := 0 to |items|
      invariant forall k :: k in found ==> k in candidateByKey
      invariant repos == ReposAt(found, candidateByKey)
      invariant AddSuggestions(found, items[i..], candidateByKey.Keys, t)
        == AddSuggestions([], items, candidateByKey.Keys, t)
    {
      var key := SuggestionKey(items[i], t);
      if key.Some? && key.value !in found && key.value in candidateByKey {
        found := found + [key.value];
        repos := repos + [candidateByKey[key.value]];
      }
      assert items[i..][1..] == items[i + 1..];
    }
    repos := FirstFew(repos, MAX_SUGGESTED);
  }

  method ValidateRepoClassification(answer: Answer, candidates: seq<Candidate>, threshold: real, t: TextTools)
      returns (g: Guess)
    ensures States(g, Classified(answer, Kept(candidates, t), threshold, t), KeptList(candidates, t))
  {
    var normalized := NormalizeRepoCandidates(candidates, t);
    var candidateByKey := CandidatesByKey(normalized, Kept(candidates, t));
    if answer.NotARecord? {
      return Unknown(0.0, InvalidAnswer, None);
    }
    var confidence := Confidence(answer);
    if answer.status != Some("matched") {
      var suggested := ParseAllowedSuggestions(answer.candidates, candidateByKey, t);
      return Unknown(confidence, FromModel(answer.reason), Some(suggested));
    }
    var key := RepoKey(OrBlank(answer.owner), OrBlank(answer.name), t);
    if key.None? || key.value !in candidateByKey {
      return Unknown(confidence, OutsideTheList, None);
    }
    if confidence < threshold {
      return Unknown(confidence, LowConfidence, None);
    }
    var matched := candidateByKey[key.value];
    g := Matched(matched.owner, matched.name, confidence, FromModel(answer.reason));
  }

  method FindByKey(list: seq<Allowed>, key: string, ghost byKey: map<string, Candidate>)
      returns (found: Option<Candidate>)
    requires Lists(list, byKey)
    ensures found == if key in byKey then Some(byKey[key]) else None
  {
    for i := 0 to |list|
      invariant forall j :: 0 <= j < i ==> list[j].key != key
    {
      if list[i].key == key {
        return Some(list[i].repo);
      }
    }
    found := None;
  }

  method HasCompetingProductSignalCandidate(list: seq<Allowed>, productKey: string, signal: string,
                                            ghost byKey: map<string, Candidate>, t: TextTools) returns (competing: bool)
    requires Lists(list, byKey)
    ensures competing <==> Select(byKey, Competes(productKey, signal, t)) != map[]
  {
    var kept := FilterCandidates(list, Competes(productKey, signal, t), byKey);
    competing := |kept| > 0;
  }

  method ProductMetadataGuessRepo(c: Context, list: seq<Allowed>, offered: seq<Candidate>, threshold: real,
                                  ghost byKey: map<string, Candidate>, t: TextTools) returns (g: Option<Guess>)
    requires Lists(list, byKey)
    ensures var v := ByProduct(byKey, c, offered, threshold, t);
      g.Some? == v.Some? && (g.Some? ==> States(g.value, v.value, list))
  {
    if PRODUCT_CONFIDENCE < threshold {
      return None;
    }
    var key := ProductKey(c, t);
    if key.None? {
      return None;
    }
    var candidate := FindByKey(list, key.value, byKey);
    if candidate.None? {
      return None;
    }
    var signal := MatchingSignal(c, t);
    if signal.None? || OffersAnother(offered, key.value, t) {
      return None;
    }
    var competing := HasCompetingProductSignalCandidate(list, key.value, signal.value, byKey, t);
    if competing {
      return None;
    }
    g := Some(Matched(candidate.value.owner, candidate.value.name, PRODUCT_CONFIDENCE, ProductSignal(signal.value)));
  }

  method GuessFromAnswer(c: Context, list: seq<Allowed>, answer: Answer, threshold: real,
                         ghost byKey: map<string, Candidate>, t: TextTools)
    returns (g: Guess)
    requires Lists(list, byKey) && Settled(byKey, t)
    ensures States(g, FromAnswer(byKey, c, answer, threshold, t), list)
  {
    KeptAgain(list, byKey, t);
    var modelResult := ValidateRepoClassification(answer, Repos(list), threshold, t);
    ClassifiedOffersInOrder(answer, byKey, threshold, t);
    g := GuessOrProduct(c, list, modelResult, Classified(answer, byKey, threshold, t), threshold, byKey, t);
  }

  lemma ClassifiedOffersInOrder(answer: Answer, byKey: map<string, Candidate>, threshold: real, t: TextTools)
    ensures var v := Classified(answer, byKey, threshold, t); v.NoMatch? ==> !v.offer.ListOrder?
  {
  }

  /** The classifier's result, or the product repository when that is no match. */
  method GuessOrProduct(c: Context, list: seq<Allowed>, modelResult: Guess, ghost classified: Verdict, threshold: real,
                        ghost byKey: map<string, Candidate>, t: TextTools) returns (g: Guess)
    requires Lists(list, byKey) && States(modelResult, classified, list)
      && (classified.NoMatch? ==> !classified.offer.ListOrder?)
    ensures States(g, OrProduct(byKey, c, classified, threshold, t), list)
  {
    if modelResult.Matched? {
      return modelResult;
    }
    var offered := if modelResult.candidates.Some? then modelResult.candidates.value else [];
    var product := ProductMetadataGuessRepo(c, list, offered, threshold, byKey, t);
    g := if product.Some? then product.value else modelResult;
  }

  /** The guess for a list of candidates depends on them only through the allowed repositories. */
  method GuessRepoFromTextContext(c: Context, candidates: seq<Candidate>, answer: Option<Answer>,
                                  confidenceThreshold: Option<real>, t: TextTools)
    returns (g: Guess)
    ensures States(g, VerdictFor(Kept(candidates, t), c, answer, Threshold(confidenceThreshold), t),
                   KeptList(candidates, t))
    ensures IsGuessFor(g, c, candidates, answer, confidenceThreshold, t)
  {
    var list := NormalizeRepoCandidates(candidates, t);
    KeptAreAllowed(candidates, t);
    KeptIsSettled(candidates, t);
    g := GuessFromList(c, list, answer, Threshold(confidenceThreshold), Kept(candidates, t), t);
    VerdictIsGuess(g, c, Kept(candidates, t), answer, Threshold(confidenceThreshold), list, t);
  }

  method GuessFromList(c: Context, list: seq<Allowed>, answer: Option<Answer>, threshold: real,
                       ghost byKey: map<string, Candidate>, t: TextTools) returns (g: Guess)
    requires Lists(list, byKey) && Settled(byKey, t)
    ensures States(g, VerdictFor(byKey, c, answer, threshold, t), list)
  {
    ListsCount(list, byKey);
    if |list| == 0 {
      return Unknown(0.0, NothingAllowed, None);
    }
    g := DeterministicGuessRepo(c, list, byKey, t);
    g := GuessOrAnswer(c, list, g, Deterministic(byKey, c, t), answer, threshold, byKey, t);
  }

  method GuessOrAnswer(c: Context, list: seq<Allowed>, guess: Guess, ghost first: Verdict, answer: Option<Answer>,
                       threshold: real, ghost byKey: map<string, Candidate>, t: TextTools) returns (g: Guess)
    requires Lists(list, byKey) && Settled(byKey, t) && States(guess, first, list)
    ensures States(g, OrAnswer(byKey, c, first, answer, threshold, t), list)
  {
    StatedAlike(guess, first, list);
    if guess.Matched? || guess.confidence > 0.0 || answer.None? {
      return guess;
    }
    g := GuessFromAnswer(c, list, answer.value, threshold, byKey, t);
  }

  lemma StatedAlike(g: Guess, v: Verdict, list: seq<Allowed>)
    requires States(g, v, list)
    ensures g.Matched? == v.Match? && g.confidence == v.confidence && g.reason == v.reason
  {
  }

  function Threshold(confidenceThreshold: Option<real>): real {
    if confidenceThreshold.Some? then confidenceThreshold.value else DEFAULT_THRESHOLD
  }

  // ---- What the verdict promises

  /** Whatever the classifier answers, a match is one of the candidates, under its own key. */
  lemma MatchIsACandidate(candidates: seq<Candidate>, c: Context, answer: Option<Answer>, threshold: real, t: TextTools)
    ensures var v := VerdictFor(Kept(candidates, t), c, answer, threshold, t);
      v.Match? ==> exists i ::
        0 <= i < |candidates| && KeyOf(candidates[i], t) == Some(v.key) && v.repo == Normal(candidates[i])
  {
    var byKey := Kept(candidates, t);
    var v := VerdictFor(byKey, c, answer, threshold, t);
    if v.Match? {
      MatchIsAllowed(byKey, c, answer, threshold, t);
      var i := KeptIsFromCandidate(candidates, t, v.key);
    }
  }

  lemma MatchIsAllowed(byKey: map<string, Candidate>, c: Context, answer: Option<Answer>, threshold: real, t: TextTools)
    ensures var v := VerdictFor(byKey, c, answer, threshold, t); v.Match? ==> v.key in byKey && v.repo == byKey[v.key]
  {
    DeterministicIsAllowed(byKey, c, t);
    if answer.Some? {
      FromAnswerIsAllowed(byKey, c, answer.value, threshold, t);
    }
  }

  lemma DeterministicIsAllowed(byKey: map<string, Candidate>, c: Context, t: TextTools)
    ensures var v := Deterministic(byKey, c, t);
      (v.Match? ==> v.key in byKey && v.repo == byKey[v.key])
        && (v.NoMatch? && v.offer.ListOrder? ==> v.reason == ManyNamed)
  {
    MentionedExactly(c, byKey.Keys, t);
    ByNameIsAllowed(byKey, c, t);
  }

  lemma ByNameIsAllowed(byKey: map<string, Candidate>, c: Context, t: TextTools)
    ensures var v := ByName(byKey, c, t);
      (v.Match? ==> v.key in byKey && v.repo == byKey[v.key]) && (v.NoMatch? ==> !v.offer.ListOrder?)
  {
  }

  lemma FromAnswerIsAllowed(byKey: map<string, Candidate>, c: Context, answer: Answer, threshold: real, t: TextTools)
    ensures var v := FromAnswer(byKey, c, answer, threshold, t);
      (v.Match? ==> v.key in byKey && v.repo == byKey[v.key]) && (v.NoMatch? ==> !v.offer.ListOrder?)
  {
  }

  /** Two different allowed repositories mentioned by the user are never resolved by guessing. */
  lemma TwoMentionsAreNeverResolved(byKey: map<string, Candidate>, c: Context, k: string, k': string,
                                    answer: Option<Answer>, threshold: real, t: TextTools)
    requires k != k' && k in byKey && k' in byKey
    requires SomeTextMentions(UserTexts(c), k, t) && SomeTextMentions(UserTexts(c), k', t)
    ensures VerdictFor(byKey, c, answer, threshold, t).NoMatch?
  {
    MentionedExactly(c, byKey.Keys, t);
    TwoElements(MentionedKeys(c, byKey.Keys, t), k, k');
    SeveralMentionsDecide(byKey, c, answer, threshold, t);
  }

  lemma TwoElements<T>(s: seq<T>, x: T, y: T)
    requires x != y && x in s && y in s
    ensures |s| > 1
  {
  }

  lemma SeveralMentionsDecide(byKey: map<string, Candidate>, c: Context, answer: Option<Answer>, threshold: real,
                              t: TextTools)
    requires |MentionedKeys(c, byKey.Keys, t)| > 1
    ensures VerdictFor(byKey, c, answer, threshold, t).NoMatch?
  {
  }

  ghost predicate SameCandidates(candidates: seq<Candidate>, others: seq<Candidate>) {
    forall c :: c in candidates <==> c in others
  }

  /** Guesses for two orders of the same candidates, repeated or not, with the same answer, are equal;
      only where the text names several repositories may the offered ones come in another order. */
  lemma SameCandidatesSameGuess(candidates: seq<Candidate>, others: seq<Candidate>, c: Context, answer: Option<Answer>,
                                threshold: real, t: TextTools, g: Guess, h: Guess)
    requires Consistent(candidates, t) && SameCandidates(candidates, others)
    requires States(g, VerdictFor(Kept(candidates, t), c, answer, threshold, t), KeptList(candidates, t))
    requires States(h, VerdictFor(Kept(others, t), c, answer, threshold, t), KeptList(others, t))
    ensures var v := VerdictFor(Kept(candidates, t), c, answer, threshold, t);
      if v.NoMatch? && v.offer.ListOrder? then
        && v.reason == ManyNamed
        && g == Unknown(v.confidence, ManyNamed, Some(Offered(KeptList(candidates, t), v.offer.repoOf)))
        && h == Unknown(v.confidence, ManyNamed, Some(Offered(KeptList(others, t), v.offer.repoOf)))
      else g == h
  {
    OrderAndRepetitionDoNotMatter(candidates, others, t);
    DeterministicIsAllowed(Kept(candidates, t), c, t);
    if answer.Some? {
      FromAnswerIsAllowed(Kept(candidates, t), c, answer.value, threshold, t);
    }
  }

  // ---- When the offered repositories are the same ones

  /** In every order the same repositories are offered. */
  ghost predicate StableOffer(candidates: seq<Candidate>, repoOf: map<string, Candidate>, t: TextTools) {
    forall others :: SameCandidates(candidates, others) ==>
      Elements(Offered(KeptList(others, t), repoOf)) == Elements(Offered(KeptList(candidates, t), repoOf))
  }

  function Elements(repos: seq<Candidate>): set<Candidate> { set repo | repo in repos }

  ghost predicate Among(repoOf: map<string, Candidate>, byKey: map<string, Candidate>) {
    forall k :: k in repoOf ==> k in byKey && repoOf[k] == byKey[k]
  }

  /** What ambiguous names offer is the same set of repositories in every order of the candidates,
      exactly when there are no more than a hundred of them. */
  lemma StableOfferIff(candidates: seq<Candidate>, repoOf: map<string, Candidate>, t: TextTools)
    requires Consistent(candidates, t) && Among(repoOf, Kept(candidates, t))
    ensures StableOffer(candidates, repoOf, t) <==> |repoOf| <= MAX_AMBIGUOUS
  {
    if |repoOf| <= MAX_AMBIGUOUS {
      forall others | SameCandidates(candidates, others)
        ensures Elements(Offered(KeptList(others, t), repoOf)) == Elements(Offered(KeptList(candidates, t), repoOf))
      {
        OrderAndRepetitionDoNotMatter(candidates, others, t);
        OffersAll(candidates, repoOf, t);
        OffersAll(others, repoOf, t);
      }
    } else {
      var others, repo := FirstOfferedMovedToEnd(candidates, repoOf, t);
      assert repo in Elements(Offered(KeptList(candidates, t), repoOf));
    }
  }

  /** The listed entries with the keys of the map list the map. */
  lemma NamedLists(candidates: seq<Candidate>, repoOf: map<string, Candidate>, t: TextTools)
    requires Among(repoOf, Kept(candidates, t))
    ensures var named := Filter(KeptList(candidates, t), KeyIn(repoOf.Keys));
      Lists(named, repoOf) && |named| == |repoOf|
  {
    KeptListLists(candidates, t);
    FilterLists(KeptList(candidates, t), Kept(candidates, t), KeyIn(repoOf.Keys));
    assert Select(Kept(candidates, t), KeyIn(repoOf.Keys)) == repoOf;
    ListsCount(Filter(KeptList(candidates, t), KeyIn(repoOf.Keys)), repoOf);
  }

  lemma OffersAll(candidates: seq<Candidate>, repoOf: map<string, Candidate>, t: TextTools)
    requires Among(repoOf, Kept(candidates, t)) && |repoOf| <= MAX_AMBIGUOUS
    ensures Elements(Offered(KeptList(candidates, t), repoOf)) == repoOf.Values
  {
    var named := Filter(KeptList(candidates, t), KeyIn(repoOf.Keys));
    NamedLists(candidates, repoOf, t);
    ListedElements(named, repoOf);
  }

  lemma ListedElements(list: seq<Allowed>, repoOf: map<string, Candidate>)
    requires Lists(list, repoOf)
    ensures Elements(Repos(list)) == repoOf.Values
  {
    forall repo | repo in repoOf.Values ensures repo in Elements(Repos(list)) {
      var k :| k in repoOf && repoOf[k] == repo;
      var i :| 0 <= i < |list| && list[i].key == k;
      assert Repos(list)[i] == repo;
    }
    forall repo | repo in Elements(Repos(list)) ensures repo in repoOf.Values {
      var i :| 0 <= i < |list| && Repos(list)[i] == repo;
      assert repoOf[list[i].key] == repo;
    }
  }

  function WithKey(candidates: seq<Candidate>, key: string, t: TextTools): seq<Candidate> {
    if candidates == [] then []
    else (if KeyOf(candidates[0], t) == Some(key) then [candidates[0]] else []) + WithKey(candidates[1..], key, t)
  }

  function WithoutKey(candidates: seq<Candidate>, key: string, t: TextTools): seq<Candidate> {
    if candidates == [] then []
    else (if KeyOf(candidates[0], t) == Some(key) then [] else [candidates[0]]) + WithoutKey(candidates[1..], key, t)
  }

  lemma {:induction false} SeparatedByKey(candidates: seq<Candidate>, key: string, t: TextTools)
    ensures forall c :: c in WithKey(candidates, key, t) <==> c in candidates && KeyOf(c, t) == Some(key)
    ensures forall c :: c in WithoutKey(candidates, key, t) <==> c in candidates && KeyOf(c, t) != Some(key)
  {
    if candidates != [] {
      SeparatedByKey(candidates[1..], key, t);
      assert forall c :: c in candidates <==> c == candidates[0] || c in candidates[1..];
    }
  }

  /** Candidates of one new key behind others add one entry at the end. */
  lemma {:induction false} OneKeyAtEnd(before: seq<Candidate>, same: seq<Candidate>, key: string, t: TextTools)
    requires same != [] && forall i :: 0 <= i < |same| ==> KeyOf(same[i], t) == Some(key)
    requires key !in Kept(before, t)
    ensures key in Kept(before + same, t)
    ensures KeptList(before + same, t) == KeptList(before, t) + [Allowed(key, Normal(same[0]))]
  {
    var n := |same| - 1;
    assert (before + same)[..|before + same| - 1] == before + same[..n];
    if n == 0 {
      assert before + same[..n] == before;
    } else {
      OneKeyAtEnd(before, same[..n], key, t);
    }
  }

  /** With more than a hundred names, moving the candidates of the first offered repository to the end
      leaves it out. */
  lemma FirstOfferedMovedToEnd(candidates: seq<Candidate>, repoOf: map<string, Candidate>, t: TextTools)
    returns (others: seq<Candidate>, repo: Candidate)
    requires Consistent(candidates, t) && Among(repoOf, Kept(candidates, t)) && |repoOf| > MAX_AMBIGUOUS
    ensures SameCandidates(candidates, others)
    ensures repo in Offered(KeptList(candidates, t), repoOf) && repo !in Offered(KeptList(others, t), repoOf)
  {
    NamedLists(candidates, repoOf, t);
    var first := Filter(KeptList(candidates, t), KeyIn(repoOf.Keys))[0];
    var before, same := WithoutKey(candidates, first.key, t), WithKey(candidates, first.key, t);
    others, repo := before + same, first.repo;
    SeparatedByKey(candidates, first.key, t);
    assert SameCandidates(candidates, others);
    assert repo == Offered(KeptList(candidates, t), repoOf)[0];
    OrderAndRepetitionDoNotMatter(candidates, others, t);
    LastIsLeftOut(before, same, first.key, repoOf, t);
  }

  lemma LastIsLeftOut(before: seq<Candidate>, same: seq<Candidate>, key: string, repoOf: map<string, Candidate>,
                      t: TextTools)
    requires key in repoOf && Among(repoOf, Kept(before + same, t)) && |repoOf| > MAX_AMBIGUOUS
    requires forall c :: c in same ==> KeyOf(c, t) == Some(key)
    requires forall c :: c in before ==> KeyOf(c, t) != Some(key)
    ensures repoOf[key] !in Offered(KeptList(before + same, t), repoOf)
  {
    KeyComesFromSame(before, same, key, t);
    OneKeyAtEnd(before, same, key, t);
    var list := KeptList(before + same, t);
    var named := Filter(list, KeyIn(repoOf.Keys));
    NamedLists(before + same, repoOf, t);
    assert list[..|list| - 1] == KeptList(before, t);
    assert named == Filter(KeptList(before, t), KeyIn(repoOf.Keys)) + [list[|list| - 1]];
    KeptIsSettled(before + same, t);
    forall i | 0 <= i < MAX_AMBIGUOUS ensures Repos(named)[i] != repoOf[key] {
      assert named[i].key != named[|named| - 1].key == key;
      assert KeyOf(named[i].repo, t) == Some(named[i].key) && KeyOf(repoOf[key], t) == Some(key);
    }
  }

  lemma KeyComesFromSame(before: seq<Candidate>, same: seq<Candidate>, key: string, t: TextTools)
    requires key in Kept(before + same, t)
    requires forall c :: c in before ==> KeyOf(c, t) != Some(key)
    ensures same != [] && key !in Kept(before, t)
  {
    assert forall i :: 0 <= i < |before| ==> before[i] in before && (before + same)[i] == before[i];
    var i := KeptIsFromCandidate(before + same, t, key);
    if key in Kept(before, t) {
      var j := KeptIsFromCandidate(before, t, key);
    }
  }

  // ---- The guess, in terms of the candidates, the texts and the answer

  /** Owner and name, neither blank, give this key. */
  predicate IsKeyOf(owner: string, name: string, key: string, t: TextTools) {
    !AllSpace(owner) && !AllSpace(name) && key == t.lower(Trim(owner)) + "/" + t.lower(Trim(name))
  }

  predicate IsTrimmed(text: Option<string>, trimmed: Option<string>) {
    if text.None? || AllSpace(text.value) then trimmed == None else trimmed == Some(Trim(text.value))
  }

  predicate IsNormalOf(c: Candidate, repo: Candidate) {
    && repo.owner == Trim(c.owner) && repo.name == Trim(c.name) && repo.isPrivate == c.isPrivate
    && IsTrimmed(c.description, repo.description) && IsTrimmed(c.url, repo.url) && IsTrimmed(c.branch, repo.branch)
  }

  /** The first candidate with the key is repo, normalized. */
  ghost predicate Allows(candidates: seq<Candidate>, key: string, repo: Candidate, t: TextTools) {
    exists i :: 0 <= i < |candidates| && IsFirstWithKey(candidates, key, i, t) && IsNormalOf(candidates[i], repo)
  }

  ghost predicate IsFirstWithKey(candidates: seq<Candidate>, key: string, i: nat, t: TextTools)
    requires i < |candidates|
  {
    && IsKeyOf(candidates[i].owner, candidates[i].name, key, t)
    && forall j :: 0 <= j < i ==> !IsKeyOf(candidates[j].owner, candidates[j].name, key, t)
  }

  /** The allowed repositories of a list of candidates. */
  ghost predicate AreAllowed(candidates: seq<Candidate>, byKey: map<string, Candidate>, t: TextTools) {
    forall key, repo :: (key in byKey && byKey[key] == repo) <==> Allows(candidates, key, repo, t)
  }

  lemma KeyIff(owner: string, name: string, key: string, t: TextTools)
    ensures RepoKey(owner, name, t) == Some(key) <==> IsKeyOf(owner, name, key, t)
  {
    TrimsToNothing(owner);
    TrimsToNothing(name);
  }

  lemma TrimmedIff(text: Option<string>, trimmed: Option<string>)
    ensures NonBlank(text) == trimmed <==> IsTrimmed(text, trimmed)
  {
    if text.Some? {
      TrimsToNothing(text.value);
    }
  }

  lemma NormalIff(c: Candidate, repo: Candidate)
    ensures Normal(c) == repo <==> IsNormalOf(c, repo)
  {
    TrimmedIff(c.description, repo.description);
    TrimmedIff(c.url, repo.url);
    TrimmedIff(c.branch, repo.branch);
  }

  lemma {:induction false} KeptAt(candidates: seq<Candidate>, t: TextTools, key: string) returns (i: nat)
    requires key in Kept(candidates, t)
    ensures i < |candidates| && IsFirstWithKey(candidates, key, i, t)
    ensures Kept(candidates, t)[key] == Normal(candidates[i])
  {
    var n := |candidates| - 1;
    forall j | 0 <= j < |candidates|
      ensures KeyOf(candidates[j], t) == Some(key) <==> IsKeyOf(candidates[j].owner, candidates[j].name, key, t)
    {
      KeyIff(candidates[j].owner, candidates[j].name, key, t);
    }
    if key in Kept(candidates[..n], t) {
      i := KeptAt(candidates[..n], t, key);
      assert forall j :: 0 <= j < n ==> candidates[..n][j] == candidates[j];
    } else {
      i := n;
      forall j | 0 <= j < n ensures !IsKeyOf(candidates[j].owner, candidates[j].name, key, t) {
        if KeyOf(candidates[j], t) == Some(key) {
          KeptHasEveryKey(candidates[..n], t, j);
        }
      }
    }
  }

  lemma KeptAreAllowed(candidates: seq<Candidate>, t: TextTools)
    ensures AreAllowed(candidates, Kept(candidates, t), t)
  {
    var byKey := Kept(candidates, t);
    forall key, repo ensures (key in byKey && byKey[key] == repo) <==> Allows(candidates, key, repo, t) {
      if key in byKey {
        var i := KeptAt(candidates, t, key);
        NormalIff(candidates[i], repo);
      }
      if Allows(candidates, key, repo, t) {
        var i :| 0 <= i < |candidates| && IsFirstWithKey(candidates, key, i, t) && IsNormalOf(candidates[i], repo);
        KeyIff(candidates[i].owner, candidates[i].name, key, t);
        KeptHasEveryKey(candidates, t, i);
        var j := KeptAt(candidates, t, key);
        NormalIff(candidates[i], repo);
      }
    }
  }

  // ---- What the texts say

  predicate IsUserText(c: Context, text: string) {
    && !AllSpace(text)
    && (text == c.trigger || c.channel == Some(text) || text in c.hints || c.thread == Some(text)
        || c.previous == Some(text))
  }

  predicate IsProductText(c: Context, text: string) {
    !AllSpace(text) && (text == c.trigger || c.thread == Some(text) || c.previous == Some(text))
  }

  ghost predicate IsMentioned(c: Context, key: string, t: TextTools) {
    exists text :: IsUserText(c, text) && IsAmong(t.repoMatches(text), key, t)
  }

  predicate IsAmong(matches: seq<OwnerName>, key: string, t: TextTools) {
    exists m :: m in matches && IsKeyOf(m.owner, m.name, key, t)
  }

  predicate OccursAt(part: string, text: string, i: nat) {
    i + |part| <= |text| && text[i..i + |part|] == part
  }

  ghost predicate Occurs(part: string, text: string) {
    exists i :: OccursAt(part, text, i)
  }

  predicate IsSlashed(text: string, before: string, behind: string) {
    '/' !in before && text == before + "/" + behind
  }

  /** Owner and name in a text: what the first slash divides, up to the second. */
  ghost predicate AreProductParts(text: string, owner: string, name: string) {
    && '/' !in name
    && exists rest :: IsSlashed(text, owner, rest) && (name == rest || exists more :: IsSlashed(rest, name, more))
  }

  /** The key is that of the product repository. */
  ghost predicate IsProductKey(c: Context, key: string, t: TextTools) {
    && c.canonicalProductRepo.Some?
    && exists owner, name ::
         AreProductParts(Trim(c.canonicalProductRepo.value), owner, name) && IsKeyOf(owner, name, key, t)
  }

  /** Some text of the user names the repository as a word, and it is not the product. */
  ghost predicate IsNamed(c: Context, key: string, repo: Candidate, t: TextTools) {
    && !IsProductKey(c, key, t) && t.signalText(repo.name) != ""
    && exists text :: IsProductText(c, text) && t.signalText(text) != ""
         && Occurs(" " + t.signalText(repo.name) + " ", " " + t.signalText(text) + " ")
  }

  predicate IsTheChannel(c: Context, repo: Candidate, t: TextTools) {
    var channel := t.comparable(if c.channel.Some? then c.channel.value else "");
    channel != "" && t.comparable(repo.name) == channel
  }

  predicate IsHinted(c: Context, repo: Candidate, t: TextTools) {
    exists i :: 0 <= i < |c.hints| && t.comparable(c.hints[i]) != ""
      && t.comparable(repo.name) == t.comparable(c.hints[i])
  }

  ghost function MentionedSet(c: Context, byKey: map<string, Candidate>, t: TextTools): set<string> {
    set k | k in byKey && IsMentioned(c, k, t)
  }

  ghost function NamedSet(c: Context, byKey: map<string, Candidate>, t: TextTools): set<string> {
    set k | k in byKey && IsNamed(c, k, byKey[k], t)
  }

  function ChannelSet(c: Context, byKey: map<string, Candidate>, t: TextTools): set<string> {
    set k | k in byKey && IsTheChannel(c, byKey[k], t)
  }

  function HintedSet(c: Context, byKey: map<string, Candidate>, t: TextTools): set<string> {
    set k | k in byKey && IsHinted(c, byKey[k], t)
  }

  /** The guess is the one repository of the set. */
  ghost predicate Picks(g: Guess, keys: set<string>, byKey: map<string, Candidate>, confidence: real, reason: Reason)
    requires keys <= byKey.Keys
  {
    |keys| == 1 && forall k :: k in keys ==> g == Matched(byKey[k].owner, byKey[k].name, confidence, reason)
  }

  /** The guess is none, and it offers repositories of the set, different ones and as many as there are up
      to a hundred. */
  ghost predicate OffersOf(g: Guess, keys: set<string>, byKey: map<string, Candidate>, reason: Reason)
    requires keys <= byKey.Keys
  {
    exists ks: seq<string> ::
      && NoRepeats(ks) && (forall k :: k in ks ==> k in keys) && |ks| == (if |keys| <= 100 then |keys| else 100)
      && g.Unknown? && g.confidence == 0.5 && g.reason == reason && g.candidates.Some?
      && |g.candidates.value| == |ks|
      && forall i :: 0 <= i < |ks| ==> ks[i] in byKey && g.candidates.value[i] == byKey[ks[i]]
  }

  /** What the texts alone say: a single mention, then several; several names; the channel's name; a
      hint; or nothing. */
  ghost predicate TextSays(g: Guess, c: Context, byKey: map<string, Candidate>, t: TextTools) {
    var mentioned, named := MentionedSet(c, byKey, t), NamedSet(c, byKey, t);
    var channel, hinted := ChannelSet(c, byKey, t), HintedSet(c, byKey, t);
    if |mentioned| == 1 then Picks(g, mentioned, byKey, 1.0, Mentioned)
    else if |mentioned| > 1 then OffersOf(g, mentioned, byKey, ManyMentioned)
    else if |named| > 1 then OffersOf(g, named, byKey, ManyNamed)
    else if |channel| == 1 then Picks(g, channel, byKey, 0.95, ChannelName)
    else if |channel| > 1 then g == Unknown(0.5, ManyChannelNames, None)
    else if |hinted| == 1 then Picks(g, hinted, byKey, 0.95, HintName)
    else if |hinted| > 1 then g == Unknown(0.5, ManyHintNames, None)
    else g == Unknown(0.0, NothingFound, None)
  }

  // ---- What the classifier says

  function Clamped(confidence: Option<real>): real {
    if confidence.None? then 0.0
    else if confidence.value < 0.0 then 0.0
    else if 1.0 < confidence.value then 1.0
    else confidence.value
  }

  predicate IsSuggested(s: Suggestion, key: string, t: TextTools) {
    s.Suggestion? && s.owner.Some? && s.name.Some? && IsKeyOf(s.owner.value, s.name.value, key, t)
  }

  /** Position i is the first at which the key is suggested. */
  ghost predicate IsFirstSuggestion(items: seq<Suggestion>, key: string, i: nat, t: TextTools) {
    i < |items| && IsSuggested(items[i], key, t) && forall j :: 0 <= j < i ==> !IsSuggested(items[j], key, t)
  }

  /** The allowed keys that are suggested, in the order they are first. */
  ghost predicate AreSuggested(items: seq<Suggestion>, keys: set<string>, ks: seq<string>, t: TextTools) {
    && (forall k :: k in ks <==> k in keys && exists i :: 0 <= i < |items| && IsSuggested(items[i], k, t))
    && forall m, n, i, j :: 0 <= m < n < |ks| ==>
         IsFirstSuggestion(items, ks[m], i, t) && IsFirstSuggestion(items, ks[n], j, t) ==> i < j
  }

  ghost predicate ClassifierSays(g: Guess, answer: Answer, byKey: map<string, Candidate>, threshold: real,
                                 t: TextTools) {
    if answer.NotARecord? then g == Unknown(0.0, InvalidAnswer, None)
    else if answer.status != Some("matched") then
      exists ks ::
        && AreSuggested(answer.candidates, byKey.Keys, ks, t) && (forall k :: k in ks ==> k in byKey)
        && g.Unknown? && g.confidence == Clamped(answer.confidence) && g.reason == FromModel(answer.reason)
        && g.candidates.Some? && |g.candidates.value| == (if |ks| <= 5 then |ks| else 5)
        && forall i :: 0 <= i < |g.candidates.value| ==> g.candidates.value[i] == byKey[ks[i]]
    else
      var owner := if answer.owner.Some? then answer.owner.value else "";
      var name := if answer.name.Some? then answer.name.value else "";
      if !exists k :: k in byKey && IsKeyOf(owner, name, k, t)
        then g == Unknown(Clamped(answer.confidence), OutsideTheList, None)
      else if Clamped(answer.confidence) < threshold then g == Unknown(Clamped(answer.confidence), LowConfidence, None)
      else forall k :: k in byKey && IsKeyOf(owner, name, k, t) ==>
        g == Matched(byKey[k].owner, byKey[k].name, Clamped(answer.confidence), FromModel(answer.reason))
  }

  // ---- What the product's metadata says

  function JoinedTexts(c: Context): string {
    Join((if AllSpace(c.trigger) then [] else [c.trigger])
         + (if c.thread.None? || AllSpace(c.thread.value) then [] else [c.thread.value])
         + (if c.previous.None? || AllSpace(c.previous.value) then [] else [c.previous.value]), "\n")
  }

  ghost predicate IsSignalled(signal: string, text: string, t: TextTools) {
    t.signalText(signal) != "" && Occurs(t.signalText(signal), text)
  }

  /** The first signal of the list that the text contains. */
  ghost predicate IsFirstSignal(signals: seq<string>, signal: string, text: string, t: TextTools) {
    exists i :: IsFirstSignalAt(signals, signal, text, i, t)
  }

  ghost predicate IsFirstSignalAt(signals: seq<string>, signal: string, text: string, i: nat, t: TextTools) {
    && i < |signals| && signals[i] == signal && IsSignalled(signal, text, t)
    && forall j :: 0 <= j < i ==> !IsSignalled(signals[j], text, t)
  }

  function MetadataOf(repo: Candidate): string {
    repo.owner + " " + repo.name + " " + (if repo.description.Some? then repo.description.value else "")
    + " " + (if repo.url.Some? then repo.url.value else "")
    + " " + (if repo.branch.Some? then repo.branch.value else "")
  }

  /** The product repository is allowed, a signal for it is in the text, and neither an offered repository
      nor the metadata of an allowed one speaks for another. */
  ghost predicate ProductSays(c: Context, byKey: map<string, Candidate>, offered: seq<Candidate>, threshold: real,
                              t: TextTools, key: string, signal: string) {
    && threshold <= 0.91 && key in byKey && c.canonicalProductRepo.Some? && c.productRepoSignals.Some?
    && (exists owner, name :: IsSlashed(Trim(c.canonicalProductRepo.value), owner, name) && '/' !in name
                              && IsKeyOf(owner, name, key, t))
    && !AllSpace(c.productRepoSignals.value)
    && IsFirstSignal(t.splitSignals(Trim(c.productRepoSignals.value)), signal, t.signalText(JoinedTexts(c)), t)
    && (forall repo :: repo in offered ==> IsKeyOf(repo.owner, repo.name, key, t))
    && (forall k :: k in byKey && k != key ==> !Occurs(t.signalText(signal), t.signalText(MetadataOf(byKey[k]))))
  }

  /** The guess, all in all: what the texts say; if that is nothing, what the classifier says; and if that
      is no match, what the product's metadata says, or else still the classifier. */
  ghost predicate IsGuess(g: Guess, c: Context, byKey: map<string, Candidate>, answer: Option<Answer>, threshold: real,
                          t: TextTools) {
    if byKey == map[] then g == Unknown(0.0, NothingAllowed, None)
    else exists first ::
      && TextSays(first, c, byKey, t)
      && if first.Matched? || first.confidence > 0.0 || answer.None? then g == first
         else IsAnswered(g, c, byKey, answer.value, threshold, t)
  }

  /** The same for a list of candidates and a threshold that need not be given. */
  ghost predicate IsGuessFor(g: Guess, c: Context, candidates: seq<Candidate>, answer: Option<Answer>,
                             confidenceThreshold: Option<real>, t: TextTools) {
    exists byKey :: AreAllowed(candidates, byKey, t)
      && IsGuess(g, c, byKey, answer, if confidenceThreshold.Some? then confidenceThreshold.value else 0.85, t)
  }

  ghost predicate IsAnswered(g: Guess, c: Context, byKey: map<string, Candidate>, answer: Answer, threshold: real,
                             t: TextTools) {
    exists said ::
      && ClassifierSays(said, answer, byKey, threshold, t)
      && if said.Matched? then g == said
         else IsSettledBy(g, said, c, byKey, if said.candidates.Some? then said.candidates.value else [], threshold, t)
  }

  ghost predicate IsSettledBy(g: Guess, said: Guess, c: Context, byKey: map<string, Candidate>, offered: seq<Candidate>,
                              threshold: real, t: TextTools) {
    && (forall key, signal :: ProductSays(c, byKey, offered, threshold, t, key, signal) ==>
          g == Matched(byKey[key].owner, byKey[key].name, 0.91, ProductSignal(signal)))
    && ((forall key, signal :: !ProductSays(c, byKey, offered, threshold, t, key, signal)) ==> g == said)
  }

  // ---- The verdict is that

  lemma {:induction false} WithoutBlankHas(texts: seq<string>, text: string)
    ensures text in WithoutBlank(texts) <==> text in texts && !AllSpace(text)
  {
    if texts != [] {
      WithoutBlankHas(texts[1..], text);
      TrimsToNothing(texts[0]);
      assert texts == [texts[0]] + texts[1..];
    }
  }

  lemma UserTextsAre(c: Context, text: string)
    ensures text in UserTexts(c) <==> IsUserText(c, text)
  {
    WithoutBlankHas([c.trigger, OrBlank(c.channel)] + c.hints + [OrBlank(c.thread), OrBlank(c.previous)], text);
  }

  lemma ProductTextsAre(c: Context, text: string)
    ensures text in ProductTexts(c) <==> IsProductText(c, text)
  {
    WithoutBlankHas([c.trigger, OrBlank(c.thread), OrBlank(c.previous)], text);
  }

  lemma MentionedIff(c: Context, key: string, t: TextTools)
    ensures SomeTextMentions(UserTexts(c), key, t) <==> IsMentioned(c, key, t)
  {
    if text :| IsUserText(c, text) && IsAmong(t.repoMatches(text), key, t) {
      UserTextsAre(c, text);
      AmongIff(t.repoMatches(text), key, t);
      MentionedIn(UserTexts(c), text, key, t);
    }
    if i :| 0 <= i < |UserTexts(c)| && Mentions(t.repoMatches(UserTexts(c)[i]), key, t) {
      UserTextsAre(c, UserTexts(c)[i]);
      AmongIff(t.repoMatches(UserTexts(c)[i]), key, t);
    }
  }

  lemma MentionedIn(texts: seq<string>, text: string, key: string, t: TextTools)
    requires text in texts && Mentions(t.repoMatches(text), key, t)
    ensures SomeTextMentions(texts, key, t)
  {
    var i :| 0 <= i < |texts| && texts[i] == text;
    assert Mentions(t.repoMatches(texts[i]), key, t);
  }

  lemma AmongIff(matches: seq<OwnerName>, key: string, t: TextTools)
    ensures Mentions(matches, key, t) <==> IsAmong(matches, key, t)
  {
    if m :| m in matches && IsKeyOf(m.owner, m.name, key, t) {
      var i :| 0 <= i < |matches| && matches[i] == m;
      KeyIff(m.owner, m.name, key, t);
    }
    if i :| 0 <= i < |matches| && RepoKey(matches[i].owner, matches[i].name, t) == Some(key) {
      KeyIff(matches[i].owner, matches[i].name, key, t);
    }
  }

  lemma OccursIff(part: string, text: string)
    ensures Includes(text, part) <==> Occurs(part, text)
  {
    if i :| 0 <= i <= |text| && part <= text[i..] {
      assert text[i..i + |part|] == text[i..][..|part|];
      assert OccursAt(part, text, i);
    }
    if i: nat :| OccursAt(part, text, i) {
      assert text[i..][..|part|] == text[i..i + |part|];
      assert part <= text[i..];
    }
  }

  lemma {:induction false} SlashedParts(text: string)
    ensures '/' !in text ==> SplitAtSlash(text) == [text]
    ensures forall before, behind :: IsSlashed(text, before, behind) ==>
      SplitAtSlash(text) == [before] + SplitAtSlash(behind)
  {
    if text != "" {
      SlashedParts(text[1..]);
      assert text == [text[0]] + text[1..];
      forall before, behind | IsSlashed(text, before, behind)
        ensures SplitAtSlash(text) == [before] + SplitAtSlash(behind) {
        SlashedStep(text, before, behind);
      }
    }
  }

  lemma SlashedStep(text: string, before: string, behind: string)
    requires IsSlashed(text, before, behind) && text != ""
    requires forall b, r :: IsSlashed(text[1..], b, r) ==> SplitAtSlash(text[1..]) == [b] + SplitAtSlash(r)
    ensures SplitAtSlash(text) == [before] + SplitAtSlash(behind)
  {
    if before == "" {
      assert text[0] == '/' && text[1..] == behind;
    } else {
      assert text[0] == before[0] && text[1..] == before[1..] + "/" + behind;
      assert IsSlashed(text[1..], before[1..], behind);
      assert before == [before[0]] + before[1..];
    }
  }

  /** The first slash of a text, if there is one. */
  lemma FirstSlash(text: string) returns (before: string, behind: string)
    requires '/' in text
    ensures IsSlashed(text, before, behind)
  {
    var i := IndexOf(text, '/');
    before, behind := text[..i], text[i + 1..];
    assert text == before + [text[i]] + behind;
  }

  lemma SlashedOnce(text: string, before: string, behind: string, before': string, behind': string)
    requires IsSlashed(text, before, behind) && IsSlashed(text, before', behind')
    ensures before == before' && behind == behind'
  {
    assert text[|before|] == '/' && text[|before'|] == '/';
    assert |before'| <= |before| by {
      assert forall k :: 0 <= k < |before'| ==> text[k] == before'[k];
    }
    assert |before| <= |before'| by {
      assert forall k :: 0 <= k < |before| ==> text[k] == before[k];
    }
    assert text[..|before|] == before && text[|before| + 1..] == behind;
    assert text[..|before'|] == before' && text[|before'| + 1..] == behind';
  }

  lemma ProductPartsAre(text: string, owner: string, name: string)
    requires AreProductParts(text, owner, name)
    ensures |SplitAtSlash(text)| >= 2 && SplitAtSlash(text)[0] == owner && SplitAtSlash(text)[1] == name
    ensures |SplitAtSlash(text)| == 2 <==> IsSlashed(text, owner, name)
  {
    var rest :| IsSlashed(text, owner, rest) && (name == rest || exists more :: IsSlashed(rest, name, more));
    SlashedParts(text);
    SlashedParts(rest);
    if IsSlashed(text, owner, name) {
      SlashedOnce(text, owner, rest, owner, name);
    }
    if name != rest {
      var more :| IsSlashed(rest, name, more);
    }
  }

  lemma ProductPartsExist(text: string) returns (owner: string, name: string)
    requires '/' in text
    ensures AreProductParts(text, owner, name)
  {
    var rest;
    owner, rest := FirstSlash(text);
    if '/' in rest {
      var more;
      name, more := FirstSlash(rest);
    } else {
      name := rest;
    }
  }

  lemma SkippedIff(c: Context, key: string, t: TextTools)
    ensures SkippedKey(c, t) == Some(key) <==> IsProductKey(c, key, t)
  {
    if c.canonicalProductRepo.Some? {
      var text := Trim(c.canonicalProductRepo.value);
      TrimsToNothing(c.canonicalProductRepo.value);
      SlashedParts(text);
      if '/' in text {
        var owner, name := ProductPartsExist(text);
        ProductPartsAre(text, owner, name);
        KeyIff(owner, name, key, t);
        OnlyProductParts(text, owner, name);
      } else {
        KeyIff(text, "", key, t);
      }
    }
  }

  lemma OnlyProductParts(text: string, owner: string, name: string)
    requires AreProductParts(text, owner, name)
    ensures forall o, n :: AreProductParts(text, o, n) ==> o == owner && n == name
  {
    forall o, n | AreProductParts(text, o, n) ensures o == owner && n == name {
      ProductPartsAre(text, o, n);
      ProductPartsAre(text, owner, name);
    }
  }

  lemma ProductKeyIff(c: Context, key: string, t: TextTools)
    ensures ProductKey(c, t) == Some(key) <==>
      c.canonicalProductRepo.Some? && exists owner, name ::
        IsSlashed(Trim(c.canonicalProductRepo.value), owner, name) && '/' !in name && IsKeyOf(owner, name, key, t)
  {
    if c.canonicalProductRepo.Some? {
      var text := Trim(c.canonicalProductRepo.value);
      TrimsToNothing(c.canonicalProductRepo.value);
      SlashedParts(text);
      if '/' in text {
        var owner, name := ProductPartsExist(text);
        ProductPartsAre(text, owner, name);
        KeyIff(owner, name, key, t);
        OnlyProductParts(text, owner, name);
        forall o, n | IsSlashed(text, o, n) && '/' !in n ensures o == owner && n == name {
          assert AreProductParts(text, o, n);
        }
      }
    }
  }

  lemma NamedIff(c: Context, key: string, repo: Candidate, t: TextTools)
    ensures NamedInText(c, t)(Allowed(key, repo)) <==> IsNamed(c, key, repo, t)
  {
    var texts, word := ProductTexts(c), " " + t.signalText(repo.name) + " ";
    SkippedIff(c, key, t);
    forall text
      ensures text in texts <==> IsProductText(c, text)
      ensures Includes(" " + t.signalText(text) + " ", word) <==> Occurs(word, " " + t.signalText(text) + " ")
    {
      ProductTextsAre(c, text);
      OccursIff(word, " " + t.signalText(text) + " ");
    }
    if text :| IsProductText(c, text) && t.signalText(text) != "" && Occurs(word, " " + t.signalText(text) + " ") {
      var i :| 0 <= i < |texts| && texts[i] == text;
      assert SomeTextNames(texts, t.signalText(repo.name), t);
    }
    if SomeTextNames(texts, t.signalText(repo.name), t) {
      var i :| 0 <= i < |texts| && t.signalText(texts[i]) != "" && Includes(" " + t.signalText(texts[i]) + " ", word);
      assert IsProductText(c, texts[i]);
    }
  }

  /** A list without repetitions is as long as its set is large. */
  lemma {:induction false} ListSize(ks: seq<string>, keys: set<string>)
    requires NoRepeats(ks) && forall k :: k in ks <==> k in keys
    ensures |ks| == |keys|
  {
    if ks == [] {
      assert keys == {};
    } else {
      var n := |ks| - 1;
      assert ks == ks[..n] + [ks[n]];
      ListSize(ks[..n], keys - {ks[n]});
    }
  }

  lemma MentionedSetIs(c: Context, byKey: map<string, Candidate>, t: TextTools)
    ensures NoRepeats(MentionedKeys(c, byKey.Keys, t))
    ensures forall k :: k in MentionedKeys(c, byKey.Keys, t) <==> k in MentionedSet(c, byKey, t)
    ensures |MentionedKeys(c, byKey.Keys, t)| == |MentionedSet(c, byKey, t)|
  {
    MentionedExactly(c, byKey.Keys, t);
    forall k ensures k in MentionedKeys(c, byKey.Keys, t) <==> k in MentionedSet(c, byKey, t) {
      MentionedIff(c, k, t);
    }
    ListSize(MentionedKeys(c, byKey.Keys, t), MentionedSet(c, byKey, t));
  }

  lemma SelectedSet(byKey: map<string, Candidate>, keep: Allowed -> bool, keys: set<string>)
    requires forall k :: k in keys <==> k in byKey && keep(Allowed(k, byKey[k]))
    ensures Select(byKey, keep).Keys == keys && |Select(byKey, keep)| == |keys|
  {
    assert Select(byKey, keep).Keys == keys;
    assert |Select(byKey, keep).Keys| == |Select(byKey, keep)|;
  }

  lemma NamedSetIs(c: Context, byKey: map<string, Candidate>, t: TextTools)
    ensures Select(byKey, NamedInText(c, t)).Keys == NamedSet(c, byKey, t)
    ensures |Select(byKey, NamedInText(c, t))| == |NamedSet(c, byKey, t)|
  {
    forall k | k in byKey ensures NamedInText(c, t)(Allowed(k, byKey[k])) <==> IsNamed(c, k, byKey[k], t) {
      NamedIff(c, k, byKey[k], t);
    }
    SelectedSet(byKey, NamedInText(c, t), NamedSet(c, byKey, t));
  }

  lemma ChannelSetIs(c: Context, byKey: map<string, Candidate>, t: TextTools)
    ensures var channel := t.comparable(OrBlank(c.channel));
      if channel == "" then ChannelSet(c, byKey, t) == {}
      else Select(byKey, HasName(channel, t)).Keys == ChannelSet(c, byKey, t)
           && |Select(byKey, HasName(channel, t))| == |ChannelSet(c, byKey, t)|
  {
    var channel := t.comparable(OrBlank(c.channel));
    if channel != "" {
      SelectedSet(byKey, HasName(channel, t), ChannelSet(c, byKey, t));
    }
  }

  lemma HintedSetIs(c: Context, byKey: map<string, Candidate>, t: TextTools)
    ensures Select(byKey, NamedByHint(c.hints, t)).Keys == HintedSet(c, byKey, t)
    ensures |Select(byKey, NamedByHint(c.hints, t))| == |HintedSet(c, byKey, t)|
  {
    forall k | k in byKey ensures NamedByHint(c.hints, t)(Allowed(k, byKey[k])) <==> IsHinted(c, byKey[k], t) {
      assert NamedByHint(c.hints, t)(Allowed(k, byKey[k])) <==> SomeHintNames(c.hints, t.comparable(byKey[k].name), t);
    }
    SelectedSet(byKey, NamedByHint(c.hints, t), HintedSet(c, byKey, t));
  }

  lemma OnlyOnePicks(g: Guess, hits: map<string, Candidate>, byKey: map<string, Candidate>, confidence: real,
                     reason: Reason, list: seq<Allowed>)
    requires |hits| == 1 && |hits.Keys| == 1 && hits.Keys <= byKey.Keys
    requires forall k :: k in hits ==> hits[k] == byKey[k]
    requires States(g, OnlyOne(hits, confidence, reason), list)
    ensures Picks(g, hits.Keys, byKey, confidence, reason)
  {
    forall k | k in hits.Keys ensures g == Matched(byKey[k].owner, byKey[k].name, confidence, reason) {
      OnlyKeyIs(hits, k);
    }
  }

  lemma MentionsOffered(g: Guess, c: Context, byKey: map<string, Candidate>, t: TextTools)
    requires |MentionedSet(c, byKey, t)| > 1 && forall k :: k in MentionedKeys(c, byKey.Keys, t) ==> k in byKey
    requires g == Unknown(0.5, ManyMentioned,
                          Some(FirstFew(ReposAt(MentionedKeys(c, byKey.Keys, t), byKey), MAX_AMBIGUOUS)))
    ensures OffersOf(g, MentionedSet(c, byKey, t), byKey, ManyMentioned)
  {
    MentionedSetIs(c, byKey, t);
    FirstFewOffered(g, MentionedKeys(c, byKey.Keys, t), MentionedSet(c, byKey, t), byKey, ManyMentioned);
  }

  lemma FirstFewOffered(g: Guess, all: seq<string>, keys: set<string>, byKey: map<string, Candidate>, reason: Reason)
    requires NoRepeats(all) && (forall k :: k in all <==> k in keys) && |all| == |keys| && keys <= byKey.Keys
    requires g.Unknown? && g.confidence == 0.5 && g.reason == reason && g.candidates.Some?
    requires |g.candidates.value| == (if |all| <= 100 then |all| else 100)
    requires forall i :: 0 <= i < |g.candidates.value| ==> all[i] in byKey && g.candidates.value[i] == byKey[all[i]]
    ensures OffersOf(g, keys, byKey, reason)
  {
    var ks := if |all| <= 100 then all else all[..100];
    assert forall k :: k in ks ==> k in all;
    assert forall i :: 0 <= i < |ks| ==> ks[i] == all[i];
    assert NoRepeats(ks);
  }

  lemma NamesOffered(g: Guess, list: seq<Allowed>, byKey: map<string, Candidate>, named: map<string, Candidate>)
    requires Lists(list, byKey) && Among(named, byKey)
    requires g == Unknown(0.5, ManyNamed, Some(Offered(list, named)))
    ensures OffersOf(g, named.Keys, byKey, ManyNamed)
  {
    var kept := Filter(list, KeyIn(named.Keys));
    FilterHas(list, KeyIn(named.Keys));
    FilterDistinct(list, KeyIn(named.Keys));
    var all := seq(|kept|, i requires 0 <= i < |kept| => kept[i].key);
    forall k ensures k in all <==> k in named.Keys {
      if k in named {
        var i :| 0 <= i < |list| && list[i].key == k;
        assert list[i] in kept;
        var j :| 0 <= j < |kept| && kept[j] == list[i];
        assert all[j] == k;
      }
      if k in all {
        var j :| 0 <= j < |all| && all[j] == k;
        assert kept[j] in kept;
      }
    }
    ListSize(all, named.Keys);
    forall i | 0 <= i < |g.candidates.value| ensures all[i] in byKey && g.candidates.value[i] == byKey[all[i]] {
      assert kept[i] in kept;
      assert kept[i] in list;
    }
    FirstFewOffered(g, all, named.Keys, byKey, ManyNamed);
  }

  // ---- What the texts say is the deterministic verdict

  lemma TextsDecide(g: Guess, c: Context, byKey: map<string, Candidate>, list: seq<Allowed>, t: TextTools)
    requires Lists(list, byKey) && States(g, Deterministic(byKey, c, t), list)
    ensures TextSays(g, c, byKey, t)
  {
    MentionedSetIs(c, byKey, t);
    MentionedExactly(c, byKey.Keys, t);
    NamedSetIs(c, byKey, t);
    if |MentionedSet(c, byKey, t)| == 1 {
      MentionPicked(g, c, byKey, t);
    } else if |MentionedSet(c, byKey, t)| > 1 {
      MentionsOffered(g, c, byKey, t);
    } else if |NamedSet(c, byKey, t)| > 1 {
      NamesOffered(g, list, byKey, Select(byKey, NamedInText(c, t)));
    } else {
      NameDecides(g, c, byKey, list, t);
    }
  }

  lemma MentionPicked(g: Guess, c: Context, byKey: map<string, Candidate>, t: TextTools)
    requires |MentionedSet(c, byKey, t)| == 1 && |MentionedKeys(c, byKey.Keys, t)| == 1
    requires var k := MentionedKeys(c, byKey.Keys, t)[0];
      k in byKey && g == Matched(byKey[k].owner, byKey[k].name, 1.0, Mentioned)
    ensures Picks(g, MentionedSet(c, byKey, t), byKey, 1.0, Mentioned)
  {
    MentionedSetIs(c, byKey, t);
  }

  lemma NameDecides(g: Guess, c: Context, byKey: map<string, Candidate>, list: seq<Allowed>, t: TextTools)
    requires |MentionedSet(c, byKey, t)| == 0 && |NamedSet(c, byKey, t)| <= 1
    requires States(g, ByName(byKey, c, t), list)
    ensures TextSays(g, c, byKey, t)
  {
    var channel := t.comparable(OrBlank(c.channel));
    var inChannel, hinted := Select(byKey, HasName(channel, t)), Select(byKey, NamedByHint(c.hints, t));
    ChannelSetIs(c, byKey, t);
    HintedSetIs(c, byKey, t);
    if |ChannelSet(c, byKey, t)| == 1 {
      OnlyOnePicks(g, inChannel, byKey, 0.95, ChannelName, list);
    } else if |ChannelSet(c, byKey, t)| == 0 && |HintedSet(c, byKey, t)| == 1 {
      OnlyOnePicks(g, hinted, byKey, 0.95, HintName, list);
    }
  }

  // ---- What the classifier says is the verdict on its answer

  lemma SuggestedIff(s: Suggestion, key: string, t: TextTools)
    ensures SuggestionKey(s, t) == Some(key) <==> IsSuggested(s, key, t)
  {
    if s.Suggestion? {
      KeyIff(OrBlank(s.owner), OrBlank(s.name), key, t);
      assert Trim("") == "";
    }
  }

  function AddSuggestion(found: seq<string>, item: Suggestion, keys: set<string>, t: TextTools): seq<string> {
    var key := SuggestionKey(item, t);
    if key.Some? && key.value in keys && key.value !in found then found + [key.value] else found
  }

  lemma {:induction false} AddedAreSuggested(found: seq<string>, before: seq<Suggestion>, items: seq<Suggestion>,
                                             keys: set<string>, t: TextTools)
    requires AreSuggested(before, keys, found, t) && forall k :: k in found ==> k in keys
    ensures AreSuggested(before + items, keys, AddSuggestions(found, items, keys, t), t)
    decreases |items|
  {
    if items == [] {
      assert before + items == before;
    } else {
      var next := AddSuggestion(found, items[0], keys, t);
      OneMoreSuggested(found, before, items[0], keys, t);
      AddedAreSuggested(next, before + [items[0]], items[1..], keys, t);
      FirstMoved(before, items);
    }
  }

  lemma FirstMoved(before: seq<Suggestion>, items: seq<Suggestion>)
    requires items != []
    ensures before + [items[0]] + items[1..] == before + items
  {
  }

  lemma OneMoreSuggested(found: seq<string>, before: seq<Suggestion>, item: Suggestion, keys: set<string>, t: TextTools)
    requires AreSuggested(before, keys, found, t)
    ensures AreSuggested(before + [item], keys, AddSuggestion(found, item, keys, t), t)
  {
    var items, next := before + [item], AddSuggestion(found, item, keys, t);
    forall k ensures k in next <==> k in keys && exists i :: 0 <= i < |items| && IsSuggested(items[i], k, t) {
      StillSuggested(before, item, k, t);
    }
    forall m, n, i: nat, j: nat | 0 <= m < n < |next| && IsFirstSuggestion(items, next[m], i, t)
                                  && IsFirstSuggestion(items, next[n], j, t) ensures i < j {
      assert next[m] == found[m] && next[m] in found;
      FirstStays(before, item, next[m], i, t);
      FirstStays(before, item, next[n], j, t);
    }
  }

  lemma StillSuggested(before: seq<Suggestion>, item: Suggestion, key: string, t: TextTools)
    ensures var items := before + [item];
      (exists i :: 0 <= i < |items| && IsSuggested(items[i], key, t))
      <==> SuggestionKey(item, t) == Some(key) || exists i :: 0 <= i < |before| && IsSuggested(before[i], key, t)
  {
    var items := before + [item];
    SuggestedIff(item, key, t);
    assert items[|before|] == item;
    assert forall i :: 0 <= i < |before| ==> items[i] == before[i];
  }

  lemma FirstStays(before: seq<Suggestion>, item: Suggestion, key: string, i: nat, t: TextTools)
    requires IsFirstSuggestion(before + [item], key, i, t)
    ensures i < |before| ==> IsFirstSuggestion(before, key, i, t)
    ensures i >= |before| ==> forall j :: 0 <= j < |before| ==> !IsSuggested(before[j], key, t)
  {
    assert forall j :: 0 <= j < |before| ==> (before + [item])[j] == before[j];
  }

  lemma AnswerDecides(g: Guess, answer: Answer, byKey: map<string, Candidate>, threshold: real, list: seq<Allowed>,
                      t: TextTools)
    requires States(g, Classified(answer, byKey, threshold, t), list)
    ensures ClassifierSays(g, answer, byKey, threshold, t)
  {
    if answer.Record? {
      if answer.status == Some("matched") {
        MatchDecides(g, answer, byKey, threshold, list, t);
      } else {
        SuggestionsDecide(g, answer, byKey, threshold, t);
      }
    }
  }

  lemma SuggestionsDecide(g: Guess, answer: Answer, byKey: map<string, Candidate>, threshold: real, t: TextTools)
    requires answer.Record? && answer.status != Some("matched")
    requires g == Unknown(Confidence(answer), FromModel(answer.reason),
                          Some(SuggestedRepos(answer.candidates, byKey, t)))
    ensures ClassifierSays(g, answer, byKey, threshold, t)
  {
    AddedAreSuggested([], [], answer.candidates, byKey.Keys, t);
    assert [] + answer.candidates == answer.candidates;
    var ks := AddSuggestions([], answer.candidates, byKey.Keys, t);
    assert AreSuggested(answer.candidates, byKey.Keys, ks, t);
  }

  lemma MatchDecides(g: Guess, answer: Answer, byKey: map<string, Candidate>, threshold: real, list: seq<Allowed>,
                     t: TextTools)
    requires answer.Record? && answer.status == Some("matched")
    requires States(g, Classified(answer, byKey, threshold, t), list)
    ensures ClassifierSays(g, answer, byKey, threshold, t)
  {
    var owner, name := OrBlank(answer.owner), OrBlank(answer.name);
    forall k ensures IsKeyOf(owner, name, k, t) <==> RepoKey(owner, name, t) == Some(k) {
      KeyIff(owner, name, k, t);
    }
  }

  // ---- What the product's metadata says is the fallback

  lemma JoinedTextsAre(c: Context)
    ensures Join(ProductTexts(c), "\n") == JoinedTexts(c)
  {
    TrimsToNothing(c.trigger);
    TrimsToNothing(OrBlank(c.thread));
    TrimsToNothing(OrBlank(c.previous));
    var texts := [c.trigger, OrBlank(c.thread), OrBlank(c.previous)];
    assert WithoutBlank(texts[1..][1..]) == if AllSpace(OrBlank(c.previous)) then [] else [c.previous.value];
    assert WithoutBlank(texts[1..])
      == (if AllSpace(OrBlank(c.thread)) then [] else [c.thread.value]) + WithoutBlank(texts[1..][1..]);
    assert ProductTexts(c) == (if AllSpace(c.trigger) then [] else [c.trigger])
      + (if c.thread.None? || AllSpace(c.thread.value) then [] else [c.thread.value])
      + (if c.previous.None? || AllSpace(c.previous.value) then [] else [c.previous.value]);
  }

  lemma MetadataIs(repo: Candidate)
    ensures Join([repo.owner, repo.name, OrBlank(repo.description), OrBlank(repo.url), OrBlank(repo.branch)], " ")
      == MetadataOf(repo)
  {
    var d, u, b := OrBlank(repo.description), OrBlank(repo.url), OrBlank(repo.branch);
    JoinSnoc([repo.owner], repo.name, " ");
    JoinSnoc([repo.owner, repo.name], d, " ");
    JoinSnoc([repo.owner, repo.name, d], u, " ");
    JoinSnoc([repo.owner, repo.name, d, u], b, " ");
    assert [repo.owner] + [repo.name] == [repo.owner, repo.name];
    assert [repo.owner, repo.name] + [d] == [repo.owner, repo.name, d];
    assert [repo.owner, repo.name, d] + [u] == [repo.owner, repo.name, d, u];
    assert [repo.owner, repo.name, d, u] + [b] == [repo.owner, repo.name, d, u, b];
  }

  lemma {:induction false} FirstSignalIs(signals: seq<string>, text: string, t: TextTools)
    ensures FirstSignal(signals, text, t).Some? ==> IsFirstSignal(signals, FirstSignal(signals, text, t).value, text, t)
    ensures FirstSignal(signals, text, t).None? ==>
      forall i :: 0 <= i < |signals| ==> !IsSignalled(signals[i], text, t)
  {
    if signals != [] {
      OccursIff(t.signalText(signals[0]), text);
      FirstSignalIs(signals[1..], text, t);
      if !IsSignalled(signals[0], text, t) && FirstSignal(signals, text, t).Some? {
        var signal := FirstSignal(signals, text, t).value;
        var i: nat :| IsFirstSignalAt(signals[1..], signal, text, i, t);
        assert signals[i + 1] == signals[1..][i];
        assert forall j :: 0 <= j < |signals[1..]| ==> signals[1..][j] == signals[j + 1];
        assert forall j :: 0 <= j < i + 1 ==> j == 0 || signals[j] == signals[1..][j - 1];
        assert IsFirstSignalAt(signals, signal, text, i + 1, t);
      } else if IsSignalled(signals[0], text, t) {
        assert IsFirstSignalAt(signals, signals[0], text, 0, t);
      }
    }
  }

  lemma SignalIff(c: Context, signal: string, t: TextTools)
    ensures MatchingSignal(c, t) == Some(signal) <==>
      c.productRepoSignals.Some? && !AllSpace(c.productRepoSignals.value)
      && IsFirstSignal(t.splitSignals(Trim(c.productRepoSignals.value)), signal, t.signalText(JoinedTexts(c)), t)
  {
    JoinedTextsAre(c);
    if c.productRepoSignals.Some? {
      TrimsToNothing(c.productRepoSignals.value);
      var signals, text := t.splitSignals(Trim(c.productRepoSignals.value)), t.signalText(JoinedTexts(c));
      FirstSignalIs(signals, text, t);
      OneFirstSignal(signals, text, t);
    }
  }

  lemma OneFirstSignal(signals: seq<string>, text: string, t: TextTools)
    ensures forall s, s' :: IsFirstSignal(signals, s, text, t) && IsFirstSignal(signals, s', text, t) ==> s == s'
  {
    forall s, s' | IsFirstSignal(signals, s, text, t) && IsFirstSignal(signals, s', text, t) ensures s == s' {
      var i: nat :| IsFirstSignalAt(signals, s, text, i, t);
      var j: nat :| IsFirstSignalAt(signals, s', text, j, t);
    }
  }

  lemma OffersAnotherIff(offered: seq<Candidate>, key: string, t: TextTools)
    ensures !OffersAnother(offered, key, t)
      <==> forall repo :: repo in offered ==> IsKeyOf(repo.owner, repo.name, key, t)
  {
    forall repo: Candidate ensures KeyOf(repo, t) == Some(key) <==> IsKeyOf(repo.owner, repo.name, key, t) {
      KeyIff(repo.owner, repo.name, key, t);
    }
    if repo :| repo in offered && !IsKeyOf(repo.owner, repo.name, key, t) {
      var i :| 0 <= i < |offered| && offered[i] == repo;
      assert KeyOf(offered[i], t) != Some(key);
    }
  }

  lemma CompetesIff(byKey: map<string, Candidate>, key: string, signal: string, t: TextTools)
    requires t.signalText(signal) != ""
    ensures Select(byKey, Competes(key, signal, t)) == map[] <==>
      forall k :: k in byKey && k != key ==> !Occurs(t.signalText(signal), t.signalText(MetadataOf(byKey[k])))
  {
    var hits := Select(byKey, Competes(key, signal, t));
    forall k | k in byKey ensures k in hits
      <==> k != key && Occurs(t.signalText(signal), t.signalText(MetadataOf(byKey[k]))) {
      MetadataIs(byKey[k]);
      OccursIff(t.signalText(signal), t.signalText(MetadataOf(byKey[k])));
    }
    if hits != map[] {
      assert hits.Keys != {};
      var k :| k in hits;
    }
  }

  lemma ProductIff(c: Context, byKey: map<string, Candidate>, offered: seq<Candidate>, threshold: real, t: TextTools,
                   key: string, signal: string)
    ensures ProductSays(c, byKey, offered, threshold, t, key, signal)
      <==> (key in byKey
        && ByProduct(byKey, c, offered, threshold, t) == Some(Match(key, byKey[key], 0.91, ProductSignal(signal))))
  {
    ProductKeyIff(c, key, t);
    SignalIff(c, signal, t);
    OffersAnotherIff(offered, key, t);
    if MatchingSignal(c, t) == Some(signal) {
      CompetesIff(byKey, key, signal, t);
    }
  }

  // ---- The guess

  lemma Stating(v: Verdict, list: seq<Allowed>) returns (g: Guess)
    ensures States(g, v, list)
  {
    g := match v
      case Match(_, repo, confidence, reason) => Matched(repo.owner, repo.name, confidence, reason)
      case NoMatch(confidence, reason, NoOffer) => Unknown(confidence, reason, None)
      case NoMatch(confidence, reason, InOrder(repos)) => Unknown(confidence, reason, Some(repos))
      case NoMatch(confidence, reason, ListOrder(repoOf)) => Unknown(confidence, reason, Some(Offered(list, repoOf)));
  }

  lemma ProductSettles(g: Guess, said: Guess, c: Context, byKey: map<string, Candidate>, classified: Verdict,
                       threshold: real, list: seq<Allowed>, t: TextTools)
    requires States(said, classified, list) && classified.NoMatch? && !classified.offer.ListOrder?
    requires States(g, OrProduct(byKey, c, classified, threshold, t), list)
    ensures IsSettledBy(g, said, c, byKey, if said.candidates.Some? then said.candidates.value else [], threshold, t)
  {
    var offered := if said.candidates.Some? then said.candidates.value else [];
    ProductOrSaid(g, said, byKey, ByProduct(byKey, c, offered, threshold, t), classified, list);
    forall key, signal
      ensures ProductSays(c, byKey, offered, threshold, t, key, signal)
        ==> (key in byKey && g == Matched(byKey[key].owner, byKey[key].name, 0.91, ProductSignal(signal)))
    {
      ProductIff(c, byKey, offered, threshold, t, key, signal);
    }
    if ByProduct(byKey, c, offered, threshold, t).Some? {
      var v := ByProduct(byKey, c, offered, threshold, t).value;
      ProductIff(c, byKey, offered, threshold, t, v.key, v.reason.signal);
    }
  }

  lemma ProductOrSaid(g: Guess, said: Guess, byKey: map<string, Candidate>, product: Option<Verdict>,
                      classified: Verdict, list: seq<Allowed>)
    requires States(said, classified, list)
    requires States(g, if product.Some? then product.value else classified, list)
    ensures product.None? ==> g == said
    ensures forall key, signal ::
      (key in byKey && product == Some(Match(key, byKey[key], 0.91, ProductSignal(signal))))
      ==> g == Matched(byKey[key].owner, byKey[key].name, 0.91, ProductSignal(signal))
  {
  }

  lemma AnswerIsAnswered(g: Guess, c: Context, byKey: map<string, Candidate>, answer: Answer, threshold: real,
                         list: seq<Allowed>, t: TextTools)
    requires States(g, FromAnswer(byKey, c, answer, threshold, t), list)
    ensures IsAnswered(g, c, byKey, answer, threshold, t)
  {
    var classified := Classified(answer, byKey, threshold, t);
    var said := Stating(classified, list);
    StatedAlike(said, classified, list);
    AnswerDecides(said, answer, byKey, threshold, list, t);
    ClassifiedOffersInOrder(answer, byKey, threshold, t);
    if classified.NoMatch? {
      ProductSettles(g, said, c, byKey, classified, threshold, list, t);
    }
  }

  lemma VerdictIsGuess(g: Guess, c: Context, byKey: map<string, Candidate>, answer: Option<Answer>, threshold: real,
                       list: seq<Allowed>, t: TextTools)
    requires Lists(list, byKey) && States(g, VerdictFor(byKey, c, answer, threshold, t), list)
    ensures IsGuess(g, c, byKey, answer, threshold, t)
  {
    if byKey != map[] {
      var first := Stating(Deterministic(byKey, c, t), list);
      StatedAlike(first, Deterministic(byKey, c, t), list);
      TextsDecide(first, c, byKey, list, t);
      if first.Unknown? && first.confidence <= 0.0 && answer.Some? {
        AnswerIsAnswered(g, c, byKey, answer.value, threshold, list, t);
      }
    }
  }
}
