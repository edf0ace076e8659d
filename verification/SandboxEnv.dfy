/** The body of an ENV instruction: tokens split at white space outside quotes, each a KEY=value. */
module SandboxEnv {
  import opened Options
  import opened JsText
  import opened Quotes

  const MAX_ENV_VARS := 50
  const MAX_ENV_KEY_CHARS := 80
  const MAX_ENV_VALUE_BYTES := 2 * 1024

  datatype Problem =
    | UnterminatedQuote | TooManyVariables | NotKeyValue | InvalidKey | InvalidValue | SecretMaterial | NothingSet

  datatype Result<+T> = Ok(value: T) | Err(problem: Problem)

  datatype Assignment = Assignment(key: string, value: string)

  /** The pattern that recognises secret material. */
  type Secret = string -> bool

  predicate IsQuote(c: char) { c == '\'' || c == '"' }

  // ---- Tokens

  /** The quote that is open after one more character. */
  function Next(quote: Option<char>, c: char): Option<char> {
    if quote.Some? then (if c == quote.value then None else quote)
    else if IsQuote(c) then Some(c) else None
  }

  /** White space outside quotes ends a token. */
  predicate Ends(quote: Option<char>, c: char) {
    quote.None? && IsSpace(c)
  }

  function Flush(current: string): seq<string> {
    if current == "" then [] else [current]
  }

  function Before(tokens: seq<string>, rest: Option<seq<string>>): Option<seq<string>> {
    if rest.None? then None else Some(tokens + rest.value)
  }

  /** The tokens of the text still to be read, the first of them begun by current; none when a quote
      stays open. */
  function Tokens(current: string, quote: Option<char>, rest: string): Option<seq<string>>
    decreases |rest|
  {
    if rest == "" then (if quote.Some? then None else Some(Flush(current)))
    else if Ends(quote, rest[0]) then Before(Flush(current), Tokens("", None, rest[1..]))
    else Tokens(current + [rest[0]], Next(quote, rest[0]), rest[1..])
  }

  method SplitEnvTokens(body: string) returns (result: Result<seq<string>>)
    ensures var tokens := Tokens("", None, body);
      result == if tokens.Some? then Ok(tokens.value) else Err(UnterminatedQuote)
  {
    var tokens: seq<string> := [];
    var current, quote := "", None;
    assert body[0..] == body;
    BeforeNothing(Tokens("", None, body));
    for i := 0 to |body|
      invariant Before(tokens, Tokens(current, quote, body[i..])) == Tokens("", None, body)
    {
      var c := body[i];
      assert body[i..][0] == c && body[i..][1..] == body[i + 1..];
      if Ends(quote, c) {
        BeforeTwice(tokens, Flush(current), Tokens("", None, body[i + 1..]));
        tokens := tokens + Flush(current);
        current := "";
      } else {
        current := current + [c];
        quote := Next(quote, c);
      }
    }
    if quote.Some? {
      return Err(UnterminatedQuote);
    }
    result := Ok(tokens + Flush(current));
  }

  lemma BeforeNothing(rest: Option<seq<string>>)
    ensures Before([], rest) == rest
  {
    if rest.Some? {
      assert [] + rest.value == rest.value;
    }
  }

  lemma BeforeTwice(a: seq<string>, b: seq<string>, rest: Option<seq<string>>)
    ensures Before(a, Before(b, rest)) == Before(a + b, rest)
  {
    if rest.Some? {
      assert a + (b + rest.value) == (a + b) + rest.value;
    }
  }

  // ---- Assignments

  predicate IsEnvKey(key: string) {
    && 1 <= |key| <= MAX_ENV_KEY_CHARS && ('A' <= key[0] <= 'Z' || key[0] == '_')
    && forall i :: 0 <= i < |key| ==> 'A' <= key[i] <= 'Z' || '0' <= key[i] <= '9' || key[i] == '_'
  }

  predicate Wrapped(value: string, q: char) {
    value != "" && value[0] == q && value[|value| - 1] == q
  }

  /** The value without its quotes; a lone quote character, which is its own first and last, goes
      too. */
  function Unquote(value: string): string {
    if Wrapped(value, '"') || Wrapped(value, '\'') then (if |value| == 1 then "" else value[1..|value| - 1]) else value
  }

  predicate IsEnvValue(value: string) {
    value != "" && '\0' !in value && '\r' !in value && '\n' !in value && Utf8Bytes(value) <= MAX_ENV_VALUE_BYTES
  }

  function ReadAssignment(token: string, secret: Secret): Result<Assignment> {
    var separator := IndexOf(token, '=');
    if separator <= 0 then Err(NotKeyValue)
    else
      var key, value := token[..separator], Unquote(token[separator + 1..]);
      if !IsEnvKey(key) then Err(InvalidKey)
      else if !IsEnvValue(value) then Err(InvalidValue)
      else if secret(value) then Err(SecretMaterial)
      else Ok(Assignment(key, value))
  }

  /** The variables after a list of tokens; a later assignment replaces an earlier one. */
  function Assign(values: map<string, string>, tokens: seq<string>, secret: Secret): Result<map<string, string>>
    decreases |tokens|
  {
    if tokens == [] then Ok(values)
    else
      var a := ReadAssignment(tokens[0], secret);
      if a.Err? then Err(a.problem) else Assign(values[a.value.key := a.value.value], tokens[1..], secret)
  }

  function Values(body: string, secret: Secret): Result<map<string, string>> {
    var tokens := Tokens("", None, body);
    if tokens.None? then Err(UnterminatedQuote)
    else if |tokens.value| > MAX_ENV_VARS then Err(TooManyVariables)
    else
      var values := Assign(map[], tokens.value, secret);
      if values.Ok? && values.value == map[] then Err(NothingSet) else values
  }

  method ParseEnvValues(body: string, secret: Secret) returns (result: Result<map<string, string>>)
    ensures result == Values(body, secret)
  {
    var split := SplitEnvTokens(body);
    if split.Err? {
      return Err(split.problem);
    }
    var tokens := split.value;
    if |tokens| > MAX_ENV_VARS {
      return Err(TooManyVariables);
    }
    result := AssignAll(tokens, secret);
    if result.Ok? && result.value == map[] {
      result := Err(NothingSet);
    }
  }

  method AssignAll(tokens: seq<string>, secret: Secret) returns (result: Result<map<string, string>>)
    ensures result == Assign(map[], tokens, secret)
  {
    var values: map<string, string> := map[];
    for i := 0 to |tokens|
      invariant Assign(values, tokens[i..], secret) == Assign(map[], tokens, secret)
    {
      var a := ReadAssignment(tokens[i], secret);
      AssignNext(values, tokens, i, secret);
      if a.Err? {
        return Err(a.problem);
      }
      values := values[a.value.key := a.value.value];
    }
    result := Ok(values);
  }

  lemma AssignNext(values: map<string, string>, tokens: seq<string>, i: nat, secret: Secret)
    requires i < |tokens|
    ensures var a := ReadAssignment(tokens[i], secret);
      Assign(values, tokens[i..], secret)
      == if a.Err? then Err(a.problem) else Assign(values[a.value.key := a.value.value], tokens[i + 1..], secret)
  {
    assert tokens[i..][0] == tokens[i] && tokens[i..][1..] == tokens[i + 1..];
  }

  // ---- What a token is

  function After(quote: Option<char>, s: string): Option<char>
    decreases |s|
  {
    if s == "" then quote else After(Next(quote, s[0]), s[1..])
  }

  /** No white space outside quotes. */
  predicate Unbroken(quote: Option<char>, s: string)
    decreases |s|
  {
    s == "" || (!Ends(quote, s[0]) && Unbroken(Next(quote, s[0]), s[1..]))
  }

  /** Something with all its quotes closed and no white space outside them. */
  predicate IsToken(s: string) {
    s != "" && Unbroken(None, s) && After(None, s) == None
  }

  lemma {:induction false} Extend(quote: Option<char>, s: string, c: char)
    ensures After(quote, s + [c]) == Next(After(quote, s), c)
    ensures Unbroken(quote, s + [c]) <==> Unbroken(quote, s) && !Ends(After(quote, s), c)
    decreases |s|
  {
    if s == "" {
      assert s + [c] == [c];
    } else {
      assert (s + [c])[1..] == s[1..] + [c];
      Extend(Next(quote, s[0]), s[1..], c);
    }
  }

  /** The splitter only returns tokens. */
  lemma {:induction false} TokensAreTokens(current: string, quote: Option<char>, rest: string)
    requires Unbroken(None, current) && After(None, current) == quote
    requires Tokens(current, quote, rest).Some?
    ensures forall t :: t in Tokens(current, quote, rest).value ==> IsToken(t)
    decreases |rest|
  {
    if rest == "" {
    } else if Ends(quote, rest[0]) {
      TokensAreTokens("", None, rest[1..]);
    } else {
      Extend(None, current, rest[0]);
      TokensAreTokens(current + [rest[0]], Next(quote, rest[0]), rest[1..]);
    }
  }

  /** A token in front of a text is copied into the current one. */
  lemma {:induction false} TokenIsRead(current: string, quote: Option<char>, s: string, rest: string)
    requires Unbroken(quote, s)
    ensures Tokens(current, quote, s + rest) == Tokens(current + s, After(quote, s), rest)
    decreases |s|
  {
    if s == "" {
      assert s + rest == rest && current + s == current;
    } else {
      assert (s + rest)[1..] == s[1..] + rest && (s + rest)[0] == s[0];
      TokenIsRead(current + [s[0]], Next(quote, s[0]), s[1..], rest);
      assert current + [s[0]] + s[1..] == current + s;
    }
  }

  /** Tokens joined by spaces are split into the same tokens. */
  lemma {:induction false} JoinSplits(tokens: seq<string>)
    requires forall i :: 0 <= i < |tokens| ==> IsToken(tokens[i])
    ensures Tokens("", None, Join(tokens, " ")) == Some(tokens)
  {
    if |tokens| == 1 {
      TokenIsRead("", None, tokens[0], "");
      assert tokens[0] + "" == tokens[0] && "" + tokens[0] == tokens[0];
      assert tokens == [tokens[0]];
    } else if |tokens| > 1 {
      var rest := Join(tokens[1..], " ");
      JoinSplits(tokens[1..]);
      TokenIsRead("", None, tokens[0], " " + rest);
      assert tokens[0] + " " + rest == tokens[0] + (" " + rest);
      assert "" + tokens[0] == tokens[0];
      assert (" " + rest)[0] == ' ' && (" " + rest)[1..] == rest && Ends(None, ' ');
      assert tokens == [tokens[0]] + tokens[1..];
    }
  }

  /** For any body that splits, joining its tokens and splitting again changes nothing: the amount and
      kind of white space between them do not matter. */
  lemma SplitIsAFixpoint(body: string)
    requires Tokens("", None, body).Some?
    ensures Tokens("", None, Join(Tokens("", None, body).value, " ")) == Tokens("", None, body)
  {
    TokensAreTokens("", None, body);
    JoinSplits(Tokens("", None, body).value);
  }

  // ---- Writing assignments

  /** All quotes are closed and no white space stands outside them. */
  predicate Closed(s: string) {
    Unbroken(None, s) && After(None, s) == None
  }

  function InQuotes(value: string, q: char): string {
    [q] + value + [q]
  }

  /** Some text behind the equals sign stands for the value: in double quotes, in single quotes or
      bare. */
  predicate Writable(value: string) {
    || Closed(InQuotes(value, '"')) || Closed(InQuotes(value, '\''))
    || (Closed(value) && Unquote(value) == value)
  }

  function Form(value: string): string {
    if Closed(InQuotes(value, '"')) then InQuotes(value, '"')
    else if Closed(InQuotes(value, '\'')) then InQuotes(value, '\'')
    else value
  }

  lemma FormIsRead(value: string)
    requires Writable(value)
    ensures Closed(Form(value)) && Unquote(Form(value)) == value
  {
    UnquoteQuoted(value, '"');
    UnquoteQuoted(value, '\'');
  }

  lemma UnquoteQuoted(value: string, q: char)
    requires IsQuote(q)
    ensures Unquote(InQuotes(value, q)) == value
  {
    var raw := InQuotes(value, q);
    assert raw[0] == q && raw[|raw| - 1] == q && raw[1..|raw| - 1] == value;
  }

  /** A wrapped text is its value in quotes. */
  lemma WrappedIsQuoted(raw: string, q: char)
    requires |raw| >= 2 && Wrapped(raw, q)
    ensures raw == InQuotes(raw[1..|raw| - 1], q)
  {
  }

  /** Those are all the values that any text stands for. */
  lemma WritableIff(value: string)
    requires value != ""
    ensures Writable(value) <==> exists raw :: Closed(raw) && Unquote(raw) == value
  {
    if Writable(value) {
      FormIsRead(value);
    }
    if raw :| Closed(raw) && Unquote(raw) == value {
      if Wrapped(raw, '"') {
        WrappedIsQuoted(raw, '"');
      } else if Wrapped(raw, '\'') {
        WrappedIsQuoted(raw, '\'');
      }
    }
  }

  function Print(a: Assignment): string {
    a.key + "=" + Form(a.value)
  }

  predicate Printable(a: Assignment, secret: Secret) {
    IsKeyText(a.key) && IsValueText(a.value) && !secret(a.value) && Writable(a.value)
  }

  /** 1 to 80 capital letters, digits and underscores, no digit in front. */
  predicate IsKeyText(key: string) {
    && 1 <= |key| <= 80 && !('0' <= key[0] <= '9')
    && forall i :: 0 <= i < |key| ==> key[i] == '_' || '0' <= key[i] <= '9' || 'A' <= key[i] <= 'Z'
  }

  /** 1 to 2048 bytes without NUL and line breaks. */
  predicate IsValueText(value: string) {
    && 1 <= |value| && Utf8Bytes(value) <= 2048
    && forall i :: 0 <= i < |value| ==> value[i] != '\0' && value[i] != '\n' && value[i] != '\r'
  }

  lemma KeyIff(key: string)
    ensures IsEnvKey(key) <==> IsKeyText(key)
  {
  }

  lemma ValueIff(value: string)
    ensures IsEnvValue(value) <==> IsValueText(value)
  {
  }

  /** The text behind the equals sign stands for the value: in quotes of one kind, as a quotation mark
      alone, or bare. */
  predicate StandsFor(raw: string, value: string) {
    if |raw| >= 2 && ((raw[0] == '"' && raw[|raw| - 1] == '"') || (raw[0] == '\'' && raw[|raw| - 1] == '\''))
      then raw == [raw[0]] + value + [raw[0]]
    else if raw == "\"" || raw == "'" then value == ""
    else raw == value
  }

  lemma UnquoteIff(raw: string, value: string)
    ensures Unquote(raw) == value <==> StandsFor(raw, value)
  {
    if |raw| >= 2 && (Wrapped(raw, '"') || Wrapped(raw, '\'')) {
      WrappedIsQuoted(raw, raw[0]);
      var quoted := [raw[0]] + value + [raw[0]];
      assert raw == quoted ==> raw[1..|raw| - 1] == value by {
        assert quoted[1..|quoted| - 1] == value;
      }
    } else if |raw| == 1 {
      assert raw == [raw[0]];
    }
  }

  /** What a token is read as: its key ends at the first equals sign. */
  lemma TokenMeans(key: string, raw: string, value: string, secret: Secret)
    requires '=' !in key && StandsFor(raw, value)
    ensures ReadAssignment(key, secret) == Err(NotKeyValue)
    ensures ReadAssignment(key + "=" + raw, secret)
      == if key == "" then Err(NotKeyValue) else if !IsKeyText(key) then Err(InvalidKey)
        else if !IsValueText(value) then Err(InvalidValue) else if secret(value) then Err(SecretMaterial)
        else Ok(Assignment(key, value))
  {
    KeyIff(key);
    ValueIff(value);
    UnquoteIff(raw, value);
    IndexOfFirst(key, '=', raw);
    var token := key + "=" + raw;
    assert token == key + ['='] + raw;
    assert token[..|key|] == key && token[|key| + 1..] == raw;
  }

  lemma {:induction false} KeyIsUnbroken(s: string)
    requires forall i :: 0 <= i < |s| ==> !IsQuote(s[i]) && !IsSpace(s[i])
    ensures Unbroken(None, s) && After(None, s) == None
  {
    if s != "" {
      KeyIsUnbroken(s[1..]);
    }
  }

  lemma {:induction false} Concatenate(quote: Option<char>, s: string, t: string)
    ensures After(quote, s + t) == After(After(quote, s), t)
    ensures Unbroken(quote, s + t) <==> Unbroken(quote, s) && Unbroken(After(quote, s), t)
    decreases |s|
  {
    if s == "" {
      assert s + t == t;
    } else {
      assert (s + t)[1..] == s[1..] + t;
      Concatenate(Next(quote, s[0]), s[1..], t);
    }
  }

  lemma KeyIsClosed(key: string)
    requires IsEnvKey(key)
    ensures Closed(key + "=")
  {
    assert !IsSpace('=') && !IsQuote('=');
    forall i | 0 <= i < |key| + 1 ensures !IsQuote((key + "=")[i]) && !IsSpace((key + "=")[i]) {
      assert i < |key| ==> (key + "=")[i] == key[i];
    }
    KeyIsUnbroken(key + "=");
  }

  lemma SplitAtEquals(key: string, raw: string)
    requires IsEnvKey(key)
    ensures var token := key + "=" + raw;
      IndexOf(token, '=') == |key| && token[..|key|] == key && token[|key| + 1..] == raw
  {
    assert '=' !in key;
    IndexOfFirst(key, '=', raw);
    assert key + "=" + raw == key + ['='] + raw;
  }

  lemma PrintedIsRead(a: Assignment, secret: Secret)
    requires Printable(a, secret)
    ensures IsToken(Print(a)) && ReadAssignment(Print(a), secret) == Ok(a)
  {
    KeyIff(a.key);
    ValueIff(a.value);
    KeyIsClosed(a.key);
    FormIsRead(a.value);
    Concatenate(None, a.key + "=", Form(a.value));
    SplitAtEquals(a.key, Form(a.value));
  }

  /** What is read from a token can be written. */
  lemma ReadIsPrintable(token: string, secret: Secret)
    requires IsToken(token) && ReadAssignment(token, secret).Ok?
    ensures Printable(ReadAssignment(token, secret).value, secret)
  {
    var a, separator := ReadAssignment(token, secret).value, IndexOf(token, '=');
    var raw := token[separator + 1..];
    assert token == (a.key + "=") + raw;
    KeyIsClosed(a.key);
    Concatenate(None, a.key + "=", raw);
    WritableIff(a.value);
    KeyIff(a.key);
    ValueIff(a.value);
  }

  function PrintAll(assignments: seq<Assignment>): (tokens: seq<string>)
    ensures |tokens| == |assignments| && forall i :: 0 <= i < |assignments| ==> tokens[i] == Print(assignments[i])
  {
    seq(|assignments|, i requires 0 <= i < |assignments| => Print(assignments[i]))
  }

  /** The values after all assignments. */
  function LastOfEach(values: map<string, string>, assignments: seq<Assignment>): map<string, string>
    decreases |assignments|
  {
    if assignments == [] then values
    else LastOfEach(values[assignments[0].key := assignments[0].value], assignments[1..])
  }

  lemma {:induction false} PrintedAreAssigned(values: map<string, string>, assignments: seq<Assignment>, secret: Secret)
    requires forall i :: 0 <= i < |assignments| ==> Printable(assignments[i], secret)
    ensures Assign(values, PrintAll(assignments), secret) == Ok(LastOfEach(values, assignments))
    decreases |assignments|
  {
    if assignments != [] {
      PrintedIsRead(assignments[0], secret);
      assert PrintAll(assignments)[1..] == PrintAll(assignments[1..]);
      PrintedAreAssigned(values[assignments[0].key := assignments[0].value], assignments[1..], secret);
    }
  }

  lemma {:induction false} LastOfEachKeeps(values: map<string, string>, assignments: seq<Assignment>)
    ensures LastOfEach(values, assignments).Keys == values.Keys + set i | 0 <= i < |assignments| :: assignments[i].key
    decreases |assignments|
  {
    if assignments != [] {
      var a := assignments[0];
      LastOfEachKeeps(values[a.key := a.value], assignments[1..]);
      assert assignments == [a] + assignments[1..];
      assert (set i | 0 <= i < |assignments| :: assignments[i].key)
        == {a.key} + set i | 0 <= i < |assignments[1..]| :: assignments[1..][i].key by {
        forall i | 0 <= i < |assignments[1..]| ensures assignments[1..][i] == assignments[i + 1] {
        }
        forall i | 0 < i < |assignments| ensures assignments[i] == assignments[1..][i - 1] {
        }
      }
    }
  }

  /** The value of a key is that of its last assignment. */
  lemma {:induction false} LastOfEachIsLast(values: map<string, string>, assignments: seq<Assignment>, i: nat)
    requires i < |assignments| && forall j :: i < j < |assignments| ==> assignments[j].key != assignments[i].key
    ensures var result := LastOfEach(values, assignments);
      assignments[i].key in result && result[assignments[i].key] == assignments[i].value
    decreases |assignments|
  {
    var a, rest := assignments[0], assignments[1..];
    assert forall j :: 0 <= j < |rest| ==> rest[j] == assignments[j + 1];
    if i == 0 {
      OtherKeysKeep(values[a.key := a.value], rest, a.key);
    } else {
      LastOfEachIsLast(values[a.key := a.value], rest, i - 1);
    }
  }

  lemma {:induction false} OtherKeysKeep(values: map<string, string>, assignments: seq<Assignment>, key: string)
    requires key in values && forall j :: 0 <= j < |assignments| ==> assignments[j].key != key
    ensures key in LastOfEach(values, assignments) && LastOfEach(values, assignments)[key] == values[key]
    decreases |assignments|
  {
    if assignments != [] {
      OtherKeysKeep(values[assignments[0].key := assignments[0].value], assignments[1..], key);
    }
  }

  /** Written assignments are read back; the last one of each key counts. */
  lemma RoundTrip(assignments: seq<Assignment>, secret: Secret)
    requires 1 <= |assignments| <= 50
    requires forall i :: 0 <= i < |assignments| ==> Printable(assignments[i], secret)
    ensures Values(Join(PrintAll(assignments), " "), secret) == Ok(LastOfEach(map[], assignments))
  {
    forall i | 0 <= i < |assignments| ensures IsToken(PrintAll(assignments)[i]) {
      PrintedIsRead(assignments[i], secret);
    }
    JoinSplits(PrintAll(assignments));
    PrintedAreAssigned(map[], assignments, secret);
    LastOfEachKeeps(map[], assignments);
    assert assignments[0].key in LastOfEach(map[], assignments).Keys;
  }

  // ---- What is accepted

  ghost predicate Sane(values: map<string, string>, secret: Secret) {
    forall key :: key in values ==> IsKeyText(key) && IsValueText(values[key]) && !secret(values[key])
  }

  lemma {:induction false} AssignKeepsSane(values: map<string, string>, tokens: seq<string>, secret: Secret)
    requires Sane(values, secret) && Assign(values, tokens, secret).Ok?
    ensures Sane(Assign(values, tokens, secret).value, secret)
    ensures |Assign(values, tokens, secret).value| <= |values| + |tokens|
    decreases |tokens|
  {
    if tokens != [] {
      var a := ReadAssignment(tokens[0], secret).value;
      KeyIff(a.key);
      ValueIff(a.value);
      OneMoreAtMost(values, a.key, a.value);
      AssignKeepsSane(values[a.key := a.value], tokens[1..], secret);
    }
  }

  lemma OneMoreAtMost(values: map<string, string>, key: string, value: string)
    ensures |values[key := value]| <= |values| + 1
  {
    assert values[key := value].Keys == values.Keys + {key};
    assert |values.Keys + {key}| <= |values.Keys| + 1;
  }

  /** Whatever the body, accepted variables are 1 to 50, with valid keys and non-empty one-line values
      in which no secret is recognised. */
  lemma AcceptedIsSane(body: string, secret: Secret)
    requires Values(body, secret).Ok?
    ensures Sane(Values(body, secret).value, secret) && 1 <= |Values(body, secret).value| <= 50
  {
    AssignKeepsSane(map[], Tokens("", None, body).value, secret);
  }

  // ---- What can be written

  function ReadAll(tokens: seq<string>, secret: Secret): (assignments: seq<Assignment>)
    requires forall i :: 0 <= i < |tokens| ==> ReadAssignment(tokens[i], secret).Ok?
    ensures |assignments| == |tokens| && forall i :: 0 <= i < |tokens| ==>
      Ok(assignments[i]) == ReadAssignment(tokens[i], secret)
  {
    seq(|tokens|, i requires 0 <= i < |tokens| => ReadAssignment(tokens[i], secret).value)
  }

  lemma {:induction false} AssignedAreRead(values: map<string, string>, tokens: seq<string>, secret: Secret)
    requires Assign(values, tokens, secret).Ok?
    ensures forall i :: 0 <= i < |tokens| ==> ReadAssignment(tokens[i], secret).Ok?
    ensures Assign(values, tokens, secret) == Ok(LastOfEach(values, ReadAll(tokens, secret)))
    decreases |tokens|
  {
    if tokens != [] {
      var a := ReadAssignment(tokens[0], secret).value;
      AssignedAreRead(values[a.key := a.value], tokens[1..], secret);
      forall i | 0 <= i < |tokens| ensures ReadAssignment(tokens[i], secret).Ok? {
        assert i > 0 ==> tokens[i] == tokens[1..][i - 1];
      }
      ReadAllTail(tokens, secret);
      assert LastOfEach(values, ReadAll(tokens, secret))
        == LastOfEach(values[a.key := a.value], ReadAll(tokens[1..], secret));
    }
  }

  lemma ReadAllTail(tokens: seq<string>, secret: Secret)
    requires tokens != [] && forall i :: 0 <= i < |tokens| ==> ReadAssignment(tokens[i], secret).Ok?
    ensures ReadAll(tokens, secret)[0] == ReadAssignment(tokens[0], secret).value
    ensures ReadAll(tokens, secret)[1..] == ReadAll(tokens[1..], secret)
  {
  }

  /** Every accepted body has a written form: assignments that, written and read, give the same
      variables. */
  lemma AcceptedHasForm(body: string, secret: Secret) returns (assignments: seq<Assignment>)
    requires Values(body, secret).Ok?
    ensures 1 <= |assignments| <= 50
    ensures forall i :: 0 <= i < |assignments| ==> Printable(assignments[i], secret)
    ensures LastOfEach(map[], assignments) == Values(body, secret).value
    ensures Values(Join(PrintAll(assignments), " "), secret) == Values(body, secret)
  {
    var tokens := Tokens("", None, body).value;
    AssignedAreRead(map[], tokens, secret);
    assignments := ReadAll(tokens, secret);
    TokensAreTokens("", None, body);
    forall i | 0 <= i < |assignments| ensures Printable(assignments[i], secret) {
      ReadIsPrintable(tokens[i], secret);
    }
    RoundTrip(assignments, secret);
  }

  ghost predicate SetsOnly(body: string, a: Assignment, secret: Secret) {
    Values(body, secret) == Ok(map[a.key := a.value])
  }

  /** A variable can be set to a value by some body exactly when it is printable. */
  lemma SettableIffPrintable(a: Assignment, secret: Secret)
    ensures (exists body :: SetsOnly(body, a, secret)) <==> Printable(a, secret)
  {
    if Printable(a, secret) {
      RoundTrip([a], secret);
      LastOfEachIsLast(map[], [a], 0);
      LastOfEachKeeps(map[], [a]);
      assert LastOfEach(map[], [a]) == map[a.key := a.value];
      assert SetsOnly(Join(PrintAll([a]), " "), a, secret);
    }
    if body :| SetsOnly(body, a, secret) {
      var assignments := AcceptedHasForm(body, secret);
      var n := |assignments| - 1;
      LastOfEachIsLast(map[], assignments, n);
      LastOfEachKeeps(map[], assignments);
      assert assignments[n].key in LastOfEach(map[], assignments).Keys;
      assert assignments[n] == a;
    }
  }

  // ---- Open quotes

  lemma {:induction false} OpenQuoteHasNoTokens(current: string, quote: Option<char>, rest: string)
    ensures Tokens(current, quote, rest).None? <==> After(quote, rest).Some?
    decreases |rest|
  {
    if rest != "" {
      if Ends(quote, rest[0]) {
        assert !IsQuote(rest[0]);
        OpenQuoteHasNoTokens("", None, rest[1..]);
      } else {
        OpenQuoteHasNoTokens(current + [rest[0]], Next(quote, rest[0]), rest[1..]);
      }
    }
  }

  // ---- Tokens by positions

  /** The quote that is open at a position. */
  lemma {:induction false} QuoteAt(s: string, i: nat)
    requires i <= |s|
    ensures After(None, s[..i]) == None <==> !Quoted(s, i)
    ensures forall p: nat :: Opens(s, i, p) ==> After(None, s[..i]) == Some(s[p])
  {
    if i > 0 {
      var n := i - 1;
      QuoteAt(s, n);
      assert s[..i] == s[..n] + [s[n]];
      Extend(None, s[..n], s[n]);
      forall p: nat
        ensures Opens(s, i, p) <==>
          if p == n then (s[n] == '\'' || s[n] == '"') && !Quoted(s, n) else Opens(s, n, p) && s[n] != s[p]
      {
        OpensOneMore(s, n, p);
      }
      if Quoted(s, n) {
        var p: nat :| Opens(s, n, p);
        forall q: nat | Opens(s, n, q) ensures q == p {
          OneOpener(s, n, p, q);
        }
        assert Opens(s, i, p) <==> s[n] != s[p];
      } else {
        assert Opens(s, i, n) <==> s[n] == '\'' || s[n] == '"';
      }
    }
  }

  /** White space outside quotations. */
  ghost predicate IsGap(s: string, i: nat)
    requires i < |s|
  {
    IsSpace(s[i]) && !Quoted(s, i)
  }

  /** The longest stretches without a gap from position b on, in order. */
  ghost predicate AreStretches(s: string, b: nat, spans: seq<(nat, nat)>) {
    && (forall k :: 0 <= k < |spans| ==> b <= spans[k].0 < spans[k].1 <= |s|)
    && (forall k, l :: 0 <= k < l < |spans| ==> spans[k].1 < spans[l].0)
    && (forall k, i :: 0 <= k < |spans| && spans[k].0 <= i < spans[k].1 ==> !IsGap(s, i))
    && (forall i :: b <= i < |s| && !IsGap(s, i) ==> exists k :: 0 <= k < |spans| && spans[k].0 <= i < spans[k].1)
  }

  ghost predicate AreTexts(s: string, spans: seq<(nat, nat)>, tokens: seq<string>) {
    && |tokens| == |spans|
    && forall k :: 0 <= k < |spans| ==> spans[k].0 <= spans[k].1 <= |s| && tokens[k] == s[spans[k].0..spans[k].1]
  }

  /** The tokens of a body are its longest stretches without white space outside quotations. */
  ghost predicate AreTokens(body: string, tokens: seq<string>) {
    exists spans :: AreStretches(body, 0, spans) && AreTexts(body, spans, tokens)
  }

  /** Reading on at position i with a token begun at b. */
  function ReadOn(s: string, b: nat, i: nat): Option<seq<string>>
    requires b <= i <= |s|
  {
    Tokens(s[b..i], After(None, s[..i]), s[i..])
  }

  lemma ReadOnNext(s: string, b: nat, i: nat)
    requires b <= i < |s|
    ensures ReadOn(s, b, i) ==
      if IsGap(s, i) then Before(Flush(s[b..i]), ReadOn(s, i + 1, i + 1)) else ReadOn(s, b, i + 1)
  {
    QuoteAt(s, i);
    assert s[..i + 1] == s[..i] + [s[i]] && s[b..i + 1] == s[b..i] + [s[i]];
    assert s[i..][0] == s[i] && s[i..][1..] == s[i + 1..] && s[i + 1..i + 1] == "";
    Extend(None, s[..i], s[i]);
    assert IsSpace(s[i]) ==> !IsQuote(s[i]);
  }

  lemma {:induction false} ReadOnStretches(s: string, b: nat, i: nat) returns (spans: seq<(nat, nat)>)
    requires b <= i <= |s| && (forall j :: b <= j < i ==> !IsGap(s, j)) && ReadOn(s, b, i).Some?
    ensures AreStretches(s, b, spans) && AreTexts(s, spans, ReadOn(s, b, i).value)
    decreases |s| - i
  {
    if i == |s| {
      spans := if b < i then [(b, i)] else [];
      assert s[i..] == "" && s[..i] == s;
    } else {
      ReadOnNext(s, b, i);
      if IsGap(s, i) {
        var rest := ReadOnStretches(s, i + 1, i + 1);
        if b < i {
          OneMoreStretch(s, b, i, rest);
          OneMoreText(s, b, i, rest, ReadOn(s, i + 1, i + 1).value);
          spans := [(b, i)] + rest;
        } else {
          SkipGap(s, i, rest, ReadOn(s, i + 1, i + 1).value);
          spans := rest;
        }
      } else {
        spans := ReadOnStretches(s, b, i + 1);
      }
    }
  }

  lemma SkipGap(s: string, i: nat, rest: seq<(nat, nat)>, tokens: seq<string>)
    requires i < |s| && IsGap(s, i) && AreStretches(s, i + 1, rest)
    ensures AreStretches(s, i, rest) && Flush(s[i..i]) + tokens == tokens
  {
  }

  lemma OneMoreStretch(s: string, b: nat, i: nat, rest: seq<(nat, nat)>)
    requires b < i < |s| && IsGap(s, i) && forall j :: b <= j < i ==> !IsGap(s, j)
    requires AreStretches(s, i + 1, rest)
    ensures AreStretches(s, b, [(b, i)] + rest)
  {
    var spans := [(b, i)] + rest;
    assert spans[0] == (b, i) && forall k :: 0 < k < |spans| ==> spans[k] == rest[k - 1];
    forall j | b <= j < |s| && !IsGap(s, j) ensures exists k :: 0 <= k < |spans| && spans[k].0 <= j < spans[k].1 {
      if j > i {
        var k :| 0 <= k < |rest| && rest[k].0 <= j < rest[k].1;
        assert spans[k + 1] == rest[k];
      }
    }
  }

  lemma OneMoreText(s: string, b: nat, i: nat, rest: seq<(nat, nat)>, tokens: seq<string>)
    requires b < i <= |s| && AreTexts(s, rest, tokens)
    ensures AreTexts(s, [(b, i)] + rest, Flush(s[b..i]) + tokens)
  {
  }

  /** So a body splits into its longest stretches, unless a quotation is open at its end. */
  lemma TokensAreStretches(body: string)
    ensures Tokens("", None, body).None? <==> Quoted(body, |body|)
    ensures Tokens("", None, body).Some? ==> AreTokens(body, Tokens("", None, body).value)
  {
    OpenQuoteHasNoTokens("", None, body);
    QuoteAt(body, |body|);
    assert body[..|body|] == body && body[0..] == body && body[0..0] == "" && body[..0] == "";
    if Tokens("", None, body).Some? {
      assert ReadOn(body, 0, 0) == Tokens("", None, body);
      var spans := ReadOnStretches(body, 0, 0);
    }
  }
}
