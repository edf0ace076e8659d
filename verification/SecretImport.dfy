/** The KEY=VALUE secret import format: one secret a line, quoted values with escapes, inline notes. */
module SecretImport {
  import opened Options
  import opened JsText

  const MAX_BYTES := 2 * 1024 * 1024
  const MAX_ENTRIES := 200
  const MAX_USAGE_NOTE_CHARS := 500

  datatype Entry = Entry(key: string, value: string, usageNote: Option<string>, lineNumber: nat)

  datatype Problem =
    | TooLarge | InvalidCharacter | NotAnAssignment | BadKey | DuplicateKey(key: string, firstLine: nat)
    | NoteTooLong | Unclosed | Multiline | EmptyValue(key: string) | NothingToImport | TooMany

  datatype ParseError = ParseError(lineNumber: nat, problem: Problem)

  datatype Result = Ok(entries: seq<Entry>) | Err(errors: seq<ParseError>)

  predicate IsKeyStart(c: char) { 'A' <= c <= 'Z' || 'a' <= c <= 'z' || c == '_' }

  predicate IsKeyChar(c: char) { IsKeyStart(c) || '0' <= c <= '9' }

  predicate IsKey(s: string) {
    s != "" && IsKeyStart(s[0]) && forall i :: 0 <= i < |s| ==> IsKeyChar(s[i])
  }

  // ---- Lines

  function DropCarriageReturn(line: string): string {
    if line != "" && line[|line| - 1] == '\r' then line[..|line| - 1] else line
  }

  /** Splitting at line feeds, each with the carriage return before it. */
  function SplitLines(text: string): seq<string>
    decreases |text|
  {
    var i := IndexOf(text, '\n');
    if i < 0 then [text] else [DropCarriageReturn(text[..i])] + SplitLines(text[i + 1..])
  }

  // ---- Values

  /** Double-quote escapes: a backslash counts only before a backslash, a quote, `r` or `t`. */
  function Unescape(s: string): string {
    if |s| >= 2 && s[0] == '\\' && (s[1] == '\\' || s[1] == 'r' || s[1] == 't' || s[1] == '"') then
      [if s[1] == 'r' then '\r' else if s[1] == 't' then '\t' else s[1]] + Unescape(s[2..])
    else if s == "" then ""
    else [s[0]] + Unescape(s[1..])
  }

  function DecodeQuotedValue(rawValue: string): Option<string> {
    var value := Trim(rawValue);
    if value == "" then Some("")
    else if value[0] != '\'' && value[0] != '"' then Some(value)
    else if |value| < 2 || value[|value| - 1] != value[0] then None
    else if value[0] == '\'' then Some(value[1..|value| - 1])
    else Some(Unescape(value[1..|value| - 1]))
  }

  /** Position of the quote that closes a value, or -1. */
  function ScanClose(rhs: string, i: nat, quote: char): (r: int)
    ensures -1 <= r < |rhs|
    decreases |rhs| - i
  {
    if i >= |rhs| then -1
    else if quote == '"' && rhs[i] == '\\' then ScanClose(rhs, i + 2, quote)
    else if rhs[i] == quote then i
    else ScanClose(rhs, i + 1, quote)
  }

  function NonEmpty(note: string): Option<string> {
    if note == "" then None else Some(note)
  }

  /** Behind a closing quote there may be a note, and nothing else but white space. */
  function AfterClose(rhs: string, close: nat): (string, Option<string>)
    requires close < |rhs|
  {
    var rest := rhs[close + 1..];
    var hash := IndexOf(rest, '#');
    if hash < 0 then (Trim(rhs[..close + 1]), None)
    else if Trim(rest[..hash]) != "" then (Trim(rhs), None)
    else (Trim(rhs[..close + 1]), NonEmpty(Trim(rest[hash + 1..])))
  }

  /** The value part and the note of a right-hand side. */
  function NoteSplit(raw: string): (string, Option<string>) {
    var rhs := TrimEnd(raw);
    if rhs == "" then ("", None)
    else if rhs[0] == '"' || rhs[0] == '\'' then
      var close := ScanClose(rhs, 1, rhs[0]);
      if close < 0 then (Trim(rhs), None) else AfterClose(rhs, close)
    else
      var hash := IndexOf(rhs, '#');
      if hash < 0 then (Trim(rhs), None)
      else (TrimEnd(rhs[..hash]), NonEmpty(Trim(rhs[hash + 1..])))
  }

  method SplitInlineUsageNote(raw: string) returns (valuePart: string, usageNote: Option<string>)
    ensures (valuePart, usageNote) == NoteSplit(raw)
  {
    var rhs := TrimEnd(raw);
    if rhs == "" {
      return "", None;
    }
    var first := rhs[0];
    if first == '"' || first == '\'' {
      var i := 1;
      while i < |rhs|
        invariant 1 <= i
        invariant ScanClose(rhs, 1, first) == ScanClose(rhs, i, first)
        decreases |rhs| - i
      {
        var ch := rhs[i];
        if first == '"' && ch == '\\' {
          i := i + 2;
          continue;
        }
        if ch == first {
          var parts := AfterClose(rhs, i);
          return parts.0, parts.1;
        }
        i := i + 1;
      }
      return Trim(rhs), None;
    }
    var hashIndex := IndexOf(rhs, '#');
    if hashIndex < 0 {
      return Trim(rhs), None;
    }
    return TrimEnd(rhs[..hashIndex]), NonEmpty(Trim(rhs[hashIndex + 1..]));
  }

  // ---- One line

  datatype Line = Skipped | Bad(problem: Problem) | Good(key: string, value: string, usageNote: Option<string>)

  const EXPORT := "export "

  function Assignment(trimmed: string): string {
    if EXPORT <= trimmed then TrimStart(trimmed[|EXPORT|..]) else trimmed
  }

  function ReadValue(key: string, raw: string): Line {
    var (valuePart, usageNote) := NoteSplit(raw);
    if usageNote.Some? && Utf16Length(usageNote.value) > MAX_USAGE_NOTE_CHARS then Bad(NoteTooLong)
    else
      var decoded := DecodeQuotedValue(valuePart);
      if decoded.None? then Bad(Unclosed)
      else if '\0' in decoded.value || '\n' in decoded.value || '\r' in decoded.value then Bad(Multiline)
      else if Trim(decoded.value) == "" then Bad(EmptyValue(key))
      else Good(key, decoded.value, usageNote)
  }

  function ReadAssignment(assignment: string, seen: map<string, nat>): Line {
    var eq := IndexOf(assignment, '=');
    if eq <= 0 then Bad(NotAnAssignment) else ReadKeyed(Trim(assignment[..eq]), assignment[eq + 1..], seen)
  }

  function ReadKeyed(key: string, right: string, seen: map<string, nat>): Line {
    if !IsKey(key) then Bad(BadKey)
    else if key in seen then Bad(DuplicateKey(key, seen[key]))
    else ReadValue(key, right)
  }

  function ReadLine(rawLine: string, seen: map<string, nat>): Line {
    if '\0' in rawLine then Bad(InvalidCharacter)
    else
      var trimmed := Trim(rawLine);
      if trimmed == "" || trimmed[0] == '#' then Skipped
      else ReadAssignment(Assignment(trimmed), seen)
  }

  // ---- The whole text

  datatype Progress = Progress(errors: seq<ParseError>, entries: seq<Entry>, seen: map<string, nat>)

  type Reader = (string, map<string, nat>) -> Line

  function LineReader(): Reader {
    (rawLine, seen) => ReadLine(rawLine, seen)
  }

  /** The fold over the first n lines, for any way to read one. */
  function ReadLines(read: Reader, lines: seq<string>, n: nat): Progress
    requires n <= |lines|
  {
    if n == 0 then Progress([], [], map[])
    else
      var p := ReadLines(read, lines, n - 1);
      Note(p, read(lines[n - 1], p.seen), n)
  }

  function Note(p: Progress, line: Line, n: nat): Progress {
    match line
    case Skipped => p
    case Bad(problem) => p.(errors := p.errors + [ParseError(n, problem)])
    case Good(key, value, note) => p.(entries := p.entries + [Entry(key, value, note, n)], seen := p.seen[key := n])
  }

  function Parse(text: string): Result {
    if Utf8Bytes(text) > MAX_BYTES then Err([ParseError(0, TooLarge)])
    else
      var lines := SplitLines(text);
      var p := ReadLines(LineReader(), lines, |lines|);
      if p.errors != [] then Err(p.errors)
      else if p.entries == [] then Err([ParseError(0, NothingToImport)])
      else if |p.entries| > MAX_ENTRIES then Err([ParseError(0, TooMany)])
      else Ok(p.entries)
  }

  method ReadOneLine(rawLine: string, seen: map<string, nat>) returns (line: Line)
    ensures line == ReadLine(rawLine, seen)
  {
    if '\0' in rawLine {
      return Bad(InvalidCharacter);
    }
    var trimmed := Trim(rawLine);
    if trimmed == "" || trimmed[0] == '#' {
      return Skipped;
    }
    var assignment := Assignment(trimmed);
    var equalsIndex := IndexOf(assignment, '=');
    if equalsIndex <= 0 {
      return Bad(NotAnAssignment);
    }
    var key := Trim(assignment[..equalsIndex]);
    if !IsKey(key) {
      return Bad(BadKey);
    }
    if key in seen {
      return Bad(DuplicateKey(key, seen[key]));
    }
    var valuePart, usageNote := SplitInlineUsageNote(assignment[equalsIndex + 1..]);
    if usageNote.Some? && Utf16Length(usageNote.value) > MAX_USAGE_NOTE_CHARS {
      return Bad(NoteTooLong);
    }
    var decoded := DecodeQuotedValue(valuePart);
    if decoded.None? {
      return Bad(Unclosed);
    }
    var value := decoded.value;
    if '\0' in value || '\n' in value || '\r' in value {
      return Bad(Multiline);
    }
    if Trim(value) == "" {
      return Bad(EmptyValue(key));
    }
    return Good(key, value, usageNote);
  }

  method ParseSecretImportText(rawText: string) returns (result: Result)
    ensures result == Parse(rawText) && IsOutcome(rawText, result)
  {
    ParseIsOutcome(rawText);
    if Utf8Bytes(rawText) > MAX_BYTES {
      return Err([ParseError(0, TooLarge)]);
    }
    var errors: seq<ParseError> := [];
    var entries: seq<Entry> := [];
    var seen: map<string, nat> := map[];
    var lines := SplitLines(rawText);
    for index := 0 to |lines|
      invariant ReadLines(LineReader(), lines, index) == Progress(errors, entries, seen)
    {
      var lineNumber := index + 1;
      var line := ReadOneLine(lines[index], seen);
      match line {
        case Skipped =>
        case Bad(problem) =>
          errors := errors + [ParseError(lineNumber, problem)];
        case Good(key, value, usageNote) =>
          seen := seen[key := lineNumber];
          entries := entries + [Entry(key, value, usageNote, lineNumber)];
      }
    }
    if errors != [] {
      return Err(errors);
    }
    if entries == [] {
      return Err([ParseError(0, NothingToImport)]);
    }
    if |entries| > MAX_ENTRIES {
      return Err([ParseError(0, TooMany)]);
    }
    return Ok(entries);
  }

  // ---- Printing

  function Escape(value: string): string {
    if value == "" then ""
    else (if value[0] == '\\' || value[0] == '"' then ['\\', value[0]] else [value[0]]) + Escape(value[1..])
  }

  function PrintTail(usageNote: Option<string>): string {
    if usageNote.None? then "" else " # " + usageNote.value
  }

  function PrintValue(value: string, usageNote: Option<string>): string {
    "\"" + Escape(value) + "\"" + PrintTail(usageNote)
  }

  function PrintEntry(e: Entry): string { e.key + "=" + PrintValue(e.value, e.usageNote) }

  function PrintLines(es: seq<Entry>): seq<string> {
    seq(|es|, i requires 0 <= i < |es| => PrintEntry(es[i]))
  }

  function Print(es: seq<Entry>): string { Join(PrintLines(es), "\n") }

  /** What the format can carry. */
  predicate IsValue(value: string) {
    Trim(value) != "" && '\0' !in value && '\n' !in value && '\r' !in value
  }

  predicate IsNote(note: string) {
    note != "" && Tight(note) && '\0' !in note && '\n' !in note && Utf16Length(note) <= MAX_USAGE_NOTE_CHARS
  }

  predicate IsEntry(e: Entry) {
    IsKey(e.key) && IsValue(e.value) && (e.usageNote.Some? ==> IsNote(e.usageNote.value))
  }

  predicate Importable(es: seq<Entry>) {
    && 1 <= |es| <= MAX_ENTRIES
    && (forall i :: 0 <= i < |es| ==> IsEntry(es[i]))
    && (forall i, j :: 0 <= i < j < |es| ==> es[i].key != es[j].key && es[i].lineNumber < es[j].lineNumber)
  }

  // ---- Escapes and the closing quote

  lemma {:induction false} UnescapeEscape(value: string)
    ensures Unescape(Escape(value)) == value
  {
    if value != "" {
      UnescapeEscape(value[1..]);
      UnescapeOne(value[0], Escape(value[1..]));
      assert value == [value[0]] + value[1..];
    }
  }

  lemma UnescapeOne(c: char, tail: string)
    ensures Unescape((if c == '\\' || c == '"' then ['\\', c] else [c]) + tail) == [c] + Unescape(tail)
  {
    assert (['\\', c] + tail)[2..] == tail;
    assert ([c] + tail)[1..] == tail;
  }

  /** The scan for the closing quote skips exactly the escaped text. */
  lemma {:induction false} ScanCloseEscaped(pre: string, value: string, rest: string)
    ensures ScanClose(pre + Escape(value) + "\"" + rest, |pre|, '"') == |pre| + |Escape(value)|
    decreases |value|
  {
    var s := pre + Escape(value) + "\"" + rest;
    if value == "" {
      assert s[|pre|] == '"';
    } else {
      var n := if value[0] == '\\' || value[0] == '"' then 2 else 1;
      var head := Escape(value)[..n];
      assert Escape(value) == head + Escape(value[1..]);
      assert s == (pre + head) + Escape(value[1..]) + "\"" + rest;
      ScanCloseEscaped(pre + head, value[1..], rest);
      assert s[|pre|] == head[0];
    }
  }

  lemma {:induction false} ScanCloseFinds(rhs: string, i: nat, quote: char)
    requires ScanClose(rhs, i, quote) >= 0
    ensures i <= ScanClose(rhs, i, quote) && rhs[ScanClose(rhs, i, quote)] == quote
    decreases |rhs| - i
  {
    if quote == '"' && rhs[i] == '\\' {
      ScanCloseFinds(rhs, i + 2, quote);
    } else if rhs[i] != quote {
      ScanCloseFinds(rhs, i + 1, quote);
    }
  }

  // ---- Where scan and decoder agree

  predicate IsQuote(c: char) { c == '"' || c == '\'' }

  function Decoded(inner: string, quote: char): string {
    if quote == '"' then Unescape(inner) else inner
  }

  /** What the closing quote delimits; none when the scan finds no closing quote. */
  function Scanned(rhs: string): Option<string>
    requires rhs != ""
  {
    var close := ScanClose(rhs, 1, rhs[0]);
    if close < 1 then None else Some(Decoded(rhs[1..close], rhs[0]))
  }

  /** No hash stands behind the closing quote, or nothing but white space before the first one. */
  predicate OnlyNoteBehind(rest: string) {
    var hash := IndexOf(rest, '#');
    hash < 0 || Trim(rest[..hash]) == ""
  }

  predicate EndsInQuote(rhs: string) {
    |rhs| >= 2 && rhs[|rhs| - 1] == rhs[0]
  }

  lemma DecodeWhole(rhs: string)
    requires rhs != "" && IsQuote(rhs[0]) && !IsSpace(rhs[|rhs| - 1])
    ensures Trim(rhs) == rhs
    ensures DecodeQuotedValue(rhs) == if EndsInQuote(rhs) then Some(Decoded(rhs[1..|rhs| - 1], rhs[0])) else None
  {
    TrimTight(rhs);
  }

  /** A text cut behind its closing quote decodes to what the quote delimits. */
  lemma CutValueDecodes(rhs: string, close: nat)
    requires rhs != "" && IsQuote(rhs[0]) && 1 <= close < |rhs| && rhs[close] == rhs[0]
    ensures DecodeQuotedValue(Trim(rhs[..close + 1])) == Some(Decoded(rhs[1..close], rhs[0]))
  {
    var v := rhs[..close + 1];
    DecodeWhole(v);
    assert v[1..|v| - 1] == rhs[1..close];
  }

  /** No backslash is left without the character behind it. */
  predicate Complete(s: string) {
    s == "" || if s[0] == '\\' then |s| >= 2 && Complete(s[2..]) else Complete(s[1..])
  }

  /** Decoding never reads across a pair that the scan skips. */
  lemma PairUnescaped(c: char, tail: string)
    ensures Unescape(['\\', c] + tail) == Unescape(['\\', c]) + Unescape(tail)
  {
    if c == '\\' || c == 'r' || c == 't' || c == '"' {
      assert (['\\', c] + tail)[2..] == tail && ['\\', c][2..] == "";
    } else {
      assert (['\\', c] + tail)[1..] == [c] + tail && ['\\', c][1..] == [c] == [c] + "";
      UnescapeOne(c, tail);
      UnescapeOne(c, "");
    }
  }

  lemma PlainUnescapes(c: char, tail: string)
    requires c != '\\'
    ensures Unescape([c] + tail) == [c] + Unescape(tail)
  {
    assert ([c] + tail)[1..] == tail;
  }

  lemma FirstPair(s: string)
    requires |s| >= 2 && s[0] == '\\'
    ensures Unescape(s) == Unescape(['\\', s[1]]) + Unescape(s[2..])
  {
    PairUnescaped(s[1], s[2..]);
    assert s == ['\\', s[1]] + s[2..];
  }

  lemma {:induction false} UnescapeConcat(a: string, b: string)
    requires Complete(a)
    ensures Unescape(a + b) == Unescape(a) + Unescape(b)
    decreases |a|
  {
    if a == "" {
      assert a + b == b;
    } else if a[0] == '\\' {
      UnescapeConcat(a[2..], b);
      PairInFront(a, b);
    } else {
      UnescapeConcat(a[1..], b);
      PlainInFront(a, b);
    }
  }

  lemma PlainInFront(a: string, b: string)
    requires a != "" && a[0] != '\\' && Unescape(a[1..] + b) == Unescape(a[1..]) + Unescape(b)
    ensures Unescape(a + b) == Unescape(a) + Unescape(b)
  {
    assert (a + b)[1..] == a[1..] + b && (a + b)[0] == a[0];
    Reassociate([a[0]], Unescape(a[1..]), Unescape(b));
  }

  lemma PairInFront(a: string, b: string)
    requires |a| >= 2 && a[0] == '\\' && Unescape(a[2..] + b) == Unescape(a[2..]) + Unescape(b)
    ensures Unescape(a + b) == Unescape(a) + Unescape(b)
  {
    FirstPair(a);
    TailOfConcat(a, b);
    FirstPair(a + b);
    Reassociate(Unescape(['\\', a[1]]), Unescape(a[2..]), Unescape(b));
  }

  lemma Reassociate(a: string, b: string, c: string)
    ensures (a + b) + c == a + (b + c)
  {
  }

  lemma TailOfConcat(a: string, b: string)
    requires |a| >= 2
    ensures (a + b)[2..] == a[2..] + b && (a + b)[0] == a[0] && (a + b)[1] == a[1]
  {
  }

  /** What stands before the closing quote is complete. */
  lemma {:induction false} ScannedIsComplete(rhs: string, i: nat, close: nat)
    requires i <= close < |rhs| && ScanClose(rhs, i, '"') == close
    ensures Complete(rhs[i..close])
    decreases |rhs| - i
  {
    if rhs[i] == '\\' {
      ScanCloseFinds(rhs, i + 2, '"');
      ScannedIsComplete(rhs, i + 2, close);
      assert rhs[i..close][2..] == rhs[i + 2..close];
    } else if i < close {
      ScanCloseFinds(rhs, i + 1, '"');
      ScannedIsComplete(rhs, i + 1, close);
      assert rhs[i..close][1..] == rhs[i + 1..close];
    }
  }

  /** The escapes before the closing quote and behind it decode separately. */
  lemma UnescapeSplits(rhs: string, close: nat, n: nat)
    requires 1 <= close <= n <= |rhs| && close < |rhs| && ScanClose(rhs, 1, '"') == close
    ensures Unescape(rhs[1..n]) == Unescape(rhs[1..close]) + Unescape(rhs[close..n])
  {
    ScannedIsComplete(rhs, 1, close);
    UnescapeConcat(rhs[1..close], rhs[close..n]);
    SliceInTwo(rhs, 1, close, n);
  }

  lemma SliceInTwo(s: string, i: nat, j: nat, k: nat)
    requires i <= j <= k <= |s|
    ensures s[i..k] == s[i..j] + s[j..k]
  {
  }

  lemma StartsPlain(s: string)
    requires s != "" && s[0] != '\\'
    ensures |Unescape(s)| > 0
  {
  }

  /** Decoding a longer text gives more than what the closing quote delimits. */
  lemma WholeIsLonger(rhs: string, close: nat)
    requires rhs != "" && IsQuote(rhs[0]) && 1 <= close < |rhs| - 1
    requires ScanClose(rhs, 1, rhs[0]) == close && rhs[close] == rhs[0]
    ensures |Decoded(rhs[1..|rhs| - 1], rhs[0])| > |Decoded(rhs[1..close], rhs[0])|
  {
    if rhs[0] == '"' {
      LongerUnescapes(rhs, close, |rhs| - 1);
    }
  }

  lemma LongerUnescapes(rhs: string, close: nat, n: nat)
    requires 1 <= close < n < |rhs| && ScanClose(rhs, 1, '"') == close && rhs[close] == '"'
    ensures |Unescape(rhs[1..n])| > |Unescape(rhs[1..close])|
  {
    UnescapeSplits(rhs, close, n);
    StartsPlain(rhs[close..n]);
  }

  /** With a closing quote: nothing but a note behind it.  Without one: no quote at the end that the
      decoder could take for it, which would be an escaped one. */
  predicate ScanDecides(rhs: string)
    requires rhs != ""
  {
    var close := ScanClose(rhs, 1, rhs[0]);
    if close >= 0 then OnlyNoteBehind(rhs[close + 1..]) else !EndsInQuote(rhs)
  }

  /** The decoder accepts exactly what the closing quote delimits, and refuses a text without one, if
      and only if the condition holds; otherwise it is given the whole text. */
  lemma ScanAndDecoderAgreeIff(raw: string)
    requires TrimEnd(raw) != "" && IsQuote(TrimEnd(raw)[0])
    ensures DecodeQuotedValue(NoteSplit(raw).0) == Scanned(TrimEnd(raw)) <==> ScanDecides(TrimEnd(raw))
  {
    var rhs := TrimEnd(raw);
    var _ := TrimEndParts(raw);
    if ScanClose(rhs, 1, rhs[0]) < 0 {
      UnclosedAgreesIff(raw, rhs);
    } else {
      ScanCloseFinds(rhs, 1, rhs[0]);
      ClosedAgreesIff(raw, rhs, ScanClose(rhs, 1, rhs[0]));
    }
  }

  lemma ClosedAgreesIff(raw: string, rhs: string, close: nat)
    requires TrimEnd(raw) == rhs != "" && IsQuote(rhs[0]) && !IsSpace(rhs[|rhs| - 1])
    requires 1 <= close < |rhs| && ScanClose(rhs, 1, rhs[0]) == close && rhs[close] == rhs[0]
    ensures DecodeQuotedValue(NoteSplit(raw).0) == Some(Decoded(rhs[1..close], rhs[0]))
      <==> OnlyNoteBehind(rhs[close + 1..])
  {
    NoteSplitQuoted(raw, rhs, close);
    AfterCloseValue(rhs, close);
    ClosedDecodesIff(rhs, close);
  }

  lemma AfterCloseValue(rhs: string, close: nat)
    requires close < |rhs|
    ensures AfterClose(rhs, close).0 == if OnlyNoteBehind(rhs[close + 1..]) then Trim(rhs[..close + 1]) else Trim(rhs)
  {
  }

  lemma ClosedDecodesIff(rhs: string, close: nat)
    requires rhs != "" && IsQuote(rhs[0]) && !IsSpace(rhs[|rhs| - 1])
    requires 1 <= close < |rhs| && ScanClose(rhs, 1, rhs[0]) == close && rhs[close] == rhs[0]
    ensures var part := if OnlyNoteBehind(rhs[close + 1..]) then Trim(rhs[..close + 1]) else Trim(rhs);
      DecodeQuotedValue(part) == Some(Decoded(rhs[1..close], rhs[0])) <==> OnlyNoteBehind(rhs[close + 1..])
  {
    if OnlyNoteBehind(rhs[close + 1..]) {
      CutValueDecodes(rhs, close);
    } else {
      JunkIsNotEmpty(rhs[close + 1..]);
      DecodeWhole(rhs);
      WholeIsLonger(rhs, close);
    }
  }

  lemma JunkIsNotEmpty(rest: string)
    requires !OnlyNoteBehind(rest)
    ensures rest != ""
  {
  }

  lemma UnclosedAgreesIff(raw: string, rhs: string)
    requires TrimEnd(raw) == rhs != "" && IsQuote(rhs[0]) && !IsSpace(rhs[|rhs| - 1])
    requires ScanClose(rhs, 1, rhs[0]) < 0
    ensures DecodeQuotedValue(NoteSplit(raw).0) == None <==> !EndsInQuote(rhs)
  {
    UnclosedSplit(rhs, raw);
    DecodeWhole(rhs);
  }

  lemma UnclosedSplit(rhs: string, raw: string)
    requires TrimEnd(raw) == rhs != "" && IsQuote(rhs[0]) && ScanClose(rhs, 1, rhs[0]) < 0
    ensures NoteSplit(raw) == (Trim(rhs), None)
  {
  }

  /** Text between the closing quote and a hash: the value is refused unless the line happens to end
      in a quote, and then all that follows the closing quote becomes part of it. */
  lemma JunkBecomesValue(right: string, close: nat)
    requires TrimEnd(right) == right != "" && right[0] == '"'
    requires 1 <= close < |right| && ScanClose(right, 1, '"') == close && !OnlyNoteBehind(right[close + 1..])
    ensures NoteSplit(right) == (right, None)
    ensures DecodeQuotedValue(right)
        == if EndsInQuote(right) then Some(Unescape(right[1..close]) + Unescape(right[close..|right| - 1])) else None
  {
    JunkIsKept(right, close);
    DecodeWhole(right);
    UnescapeSplits(right, close, |right| - 1);
  }

  lemma JunkIsKept(right: string, close: nat)
    requires TrimEnd(right) == right != "" && IsQuote(right[0])
    requires close < |right| && ScanClose(right, 1, right[0]) == close && !OnlyNoteBehind(right[close + 1..])
    ensures NoteSplit(right) == (right, None) && !IsSpace(right[|right| - 1])
  {
    var _ := TrimEndParts(right);
    TrimTight(right);
    NoteSplitQuoted(right, right, close);
  }

  lemma JunkBehind(rest: string, junk: string, behind: string)
    requires rest == junk + ['#'] + behind && '#' !in junk && exists i :: 0 <= i < |junk| && !IsSpace(junk[i])
    ensures !OnlyNoteBehind(rest)
  {
    IndexOfFirst(junk, '#', behind);
    assert rest[..|junk|] == junk;
    NotBlank(junk);
  }

  lemma NotBlank(s: string)
    requires exists i :: 0 <= i < |s| && !IsSpace(s[i])
    ensures Trim(s) != ""
  {
    var pre, post := TrimParts(s);
    var i :| 0 <= i < |s| && !IsSpace(s[i]);
    assert s[i] == (pre + Trim(s) + post)[i];
  }

  lemma {:induction false} PlainUnescaped(s: string)
    requires '\\' !in s
    ensures Unescape(s) == s
  {
    if s != "" {
      assert s == [s[0]] + s[1..];
      PlainUnescaped(s[1..]);
    }
  }

  /** Two such lines. */
  lemma JunkIsRefused(right: string, key: string, seen: map<string, nat>)
    requires right == "\"a\" x # n" && IsKey(key) && key !in seen
    ensures ReadLine(key + "=" + right, seen) == Bad(Unclosed)
  {
    LineRead(key, right, seen);
    JunkAt2(right, " n");
    JunkBecomesValue(right, 2);
  }

  lemma JunkIsSwallowed(value: string, key: string, seen: map<string, nat>)
    requires value == "a\" x # " && IsKey(key) && key !in seen
    ensures ReadLine(key + "=" + ("\"" + value + "\""), seen) == Good(key, value, None)
  {
    var right := "\"" + value + "\"";
    SwallowedDecodes(right, value);
    SwallowedIsValue(value);
    LineRead(key, right, seen);
    PartIsRead(key, right, right, value);
  }

  lemma SwallowedIsValue(value: string)
    requires value == "a\" x # "
    ensures IsValue(value)
  {
    assert !IsSpace(value[0]);
    NotBlank(value);
  }

  lemma SwallowedDecodes(right: string, value: string)
    requires value == "a\" x # " && right == "\"" + value + "\""
    ensures NoteSplit(right) == (right, None) && DecodeQuotedValue(right) == Some(value)
  {
    JunkAt2(right, " \"");
    JunkIsKept(right, 2);
    QuotedPlainDecodes(right, value);
  }

  lemma QuotedPlainDecodes(right: string, value: string)
    requires right == "\"" + value + "\"" && '\\' !in value
    ensures DecodeQuotedValue(right) == Some(value)
  {
    DecodeWhole(right);
    assert right[1..|right| - 1] == value;
    PlainUnescaped(value);
  }

  lemma PartIsRead(key: string, right: string, part: string, value: string)
    requires NoteSplit(right) == (part, None) && DecodeQuotedValue(part) == Some(value) && IsValue(value)
    ensures ReadValue(key, right) == Good(key, value, None)
  {
  }

  lemma JunkAt2(right: string, behind: string)
    requires right == "\"a\" x #" + behind && behind != "" && !IsSpace(behind[|behind| - 1])
    ensures TrimEnd(right) == right && ScanClose(right, 1, '"') == 2 && !OnlyNoteBehind(right[3..])
  {
    assert right + "" == right;
    TrimEndUnique(right, "");
    QuotedA(right, " x ", behind);
  }

  lemma QuotedA(right: string, junk: string, behind: string)
    requires right == "\"a\"" + junk + "#" + behind && junk == " x "
    ensures ScanClose(right, 1, '"') == 2 && !OnlyNoteBehind(right[3..])
  {
    assert right[1] == 'a' && right[2] == '"' && junk[1] == 'x';
    assert right[3..] == junk + ['#'] + behind;
    JunkBehind(right[3..], junk, behind);
  }

  lemma EscapedEnd(right: string, inner: string)
    requires |inner| == 2 && inner[0] != '\\' && inner[0] != '"' && inner[1] == '\\'
    requires right == "\"" + inner + "\""
    ensures ScanClose(right, 1, '"') == -1 && NoteSplit(right) == (right, None)
    ensures DecodeQuotedValue(right) == Some(inner)
  {
    assert right + "" == right && right[1..3] == inner && right[0] == '"' && right[3] == '"';
    TrimEndUnique(right, "");
    assert ScanClose(right, 2, '"') == ScanClose(right, 4, '"') == -1;
    DecodeWhole(right);
    UnclosedSplit(right, right);
    PlainUnescapes(inner[0], [inner[1]]);
    PlainEnd(inner[1]);
    assert inner == [inner[0]] + [inner[1]];
  }

  lemma PlainEnd(c: char)
    ensures Unescape([c]) == [c]
  {
    assert [c][1..] == "";
  }

  /** An escaped quote at the end closes nothing for the scan, and is the closing one for the decoder. */
  lemma EscapedQuoteCloses(inner: string, key: string, seen: map<string, nat>)
    requires inner == "a\\" && IsKey(key) && key !in seen
    ensures var right := "\"" + inner + "\"";
      ScanClose(right, 1, '"') == -1 && ReadLine(key + "=" + right, seen) == Good(key, inner, None)
  {
    var right := "\"" + inner + "\"";
    EscapedEnd(right, inner);
    EscapedIsValue(inner);
    LineRead(key, right, seen);
    PartIsRead(key, right, right, inner);
  }

  lemma EscapedIsValue(inner: string)
    requires inner == "a\\"
    ensures IsValue(inner)
  {
    assert !IsSpace(inner[0]);
    NotBlank(inner);
  }

  lemma AssignmentRead(key: string, right: string, seen: map<string, nat>)
    requires IsKey(key) && key !in seen
    ensures ReadAssignment(key + "=" + right, seen) == ReadValue(key, right)
  {
    var line := key + "=" + right;
    KeyTight(key);
    assert line == key + ['='] + right;
    IndexOfFirst(key, '=', right);
    assert line[..|key|] == key && line[|key| + 1..] == right;
  }

  lemma NotExported(key: string, right: string)
    requires IsKey(key)
    ensures !(EXPORT <= key + "=" + right)
  {
    var line, n := key + "=" + right, |key|;
    assert line[n] == '=' && forall i :: 0 <= i < n ==> line[i] == key[i];
    if n < |EXPORT| {
      assert EXPORT[n] != '=';
    } else {
      assert line[6] == key[6] && IsKeyChar(key[6]) && EXPORT[6] == ' ';
    }
  }

  lemma LineIsTight(key: string, right: string)
    requires IsKey(key) && right != "" && !IsSpace(right[|right| - 1])
    ensures var line := key + "=" + right; Trim(line) == line && IsKeyStart(line[0])
  {
    var line := key + "=" + right;
    assert line[0] == key[0] && line[|line| - 1] == right[|right| - 1];
    TrimTight(line);
  }

  lemma LineRead(key: string, right: string, seen: map<string, nat>)
    requires IsKey(key) && key !in seen && right != "" && !IsSpace(right[|right| - 1]) && '\0' !in right
    ensures ReadLine(key + "=" + right, seen) == ReadValue(key, right)
  {
    LineIsTight(key, right);
    NotExported(key, right);
    KeyTight(key);
    AssignmentRead(key, right, seen);
  }

  // ---- Reading back one line

  lemma PrintedValueTight(value: string, usageNote: Option<string>)
    requires usageNote.Some? ==> IsNote(usageNote.value)
    ensures var s := PrintValue(value, usageNote); s[0] == '"' && !IsSpace(s[|s| - 1])
  {
  }

  lemma NoteSplitPrinted(value: string, usageNote: Option<string>)
    requires usageNote.Some? ==> IsNote(usageNote.value)
    ensures NoteSplit(PrintValue(value, usageNote)) == ("\"" + Escape(value) + "\"", usageNote)
  {
    var s, quoted := PrintValue(value, usageNote), "\"" + Escape(value) + "\"";
    var close := |Escape(value)| + 1;
    PrintedValueTight(value, usageNote);
    assert s + "" == s;
    TrimEndUnique(s, "");
    assert "\"" + Escape(value) + "\"" + PrintTail(usageNote) == s;
    ScanCloseEscaped("\"", value, PrintTail(usageNote));
    assert s[..close + 1] == quoted && s[close + 1..] == PrintTail(usageNote);
    AfterClosePrinted(s, close, quoted, usageNote);
    NoteSplitQuoted(s, s, close);
  }

  lemma NoteSplitQuoted(raw: string, rhs: string, close: nat)
    requires TrimEnd(raw) == rhs != "" && IsQuote(rhs[0]) && close < |rhs| && ScanClose(rhs, 1, rhs[0]) == close
    ensures NoteSplit(raw) == AfterClose(rhs, close)
  {
  }

  lemma AfterClosePrinted(s: string, close: nat, quoted: string, usageNote: Option<string>)
    requires close < |s| && s[..close + 1] == quoted && s[close + 1..] == PrintTail(usageNote) && Tight(quoted)
    requires usageNote.Some? ==> IsNote(usageNote.value)
    ensures AfterClose(s, close) == (quoted, usageNote)
  {
    TrimTight(quoted);
    if usageNote.Some? {
      TailRead(usageNote.value);
    }
  }

  lemma TailRead(note: string)
    requires IsNote(note)
    ensures var rest := " # " + note; var hash := IndexOf(rest, '#');
      hash == 1 && Trim(rest[..hash]) == "" && NonEmpty(Trim(rest[hash + 1..])) == Some(note)
  {
    var rest := " # " + note;
    assert rest == " " + ['#'] + (" " + note);
    IndexOfFirst(" ", '#', " " + note);
    assert rest[..1] == "" + "" + " " && rest[2..] == " " + note + "";
    TrimUnique("", "", " ");
    TrimUnique(" ", note, "");
  }

  lemma ReadValuePrinted(key: string, value: string, usageNote: Option<string>)
    requires IsValue(value) && (usageNote.Some? ==> IsNote(usageNote.value))
    ensures ReadValue(key, PrintValue(value, usageNote)) == Good(key, value, usageNote)
  {
    NoteSplitPrinted(value, usageNote);
    QuotedDecodes(value, "\"" + Escape(value) + "\"");
  }

  lemma {:induction false} EscapeKeeps(value: string, c: char)
    requires c !in value && c != '\\' && c != '"'
    ensures c !in Escape(value)
  {
    if value != "" {
      EscapeKeeps(value[1..], c);
    }
  }

  lemma KeyTight(key: string)
    requires IsKey(key)
    ensures Tight(key) && Trim(key) == key && '=' !in key && '\0' !in key && '\n' !in key
  {
    TrimTight(key);
  }

  lemma PrintedLineClean(e: Entry)
    requires IsEntry(e)
    ensures var line := PrintEntry(e);
      '\0' !in line && '\n' !in line && Tight(line) && line != "" && IsKeyStart(line[0])
  {
    KeyTight(e.key);
    EscapeKeeps(e.value, '\0');
    EscapeKeeps(e.value, '\n');
    PrintedValueTight(e.value, e.usageNote);
  }

  lemma ReadLinePrinted(e: Entry, seen: map<string, nat>)
    requires IsEntry(e) && e.key !in seen
    ensures ReadLine(PrintEntry(e), seen) == Good(e.key, e.value, e.usageNote)
  {
    PrintedLineClean(e);
    PrintedValueTight(e.value, e.usageNote);
    LineRead(e.key, PrintValue(e.value, e.usageNote), seen);
    ReadValuePrinted(e.key, e.value, e.usageNote);
  }

  /** The line is not skipped and has no `export` of its own. */
  predicate IsPlainAssignment(line: string) {
    Trim(line) != "" && Trim(line)[0] != '#' && !(EXPORT <= Trim(line))
  }

  /** An `export` in front of any such line, with white space before and behind it, changes nothing:
      the line gives the same entry, or is refused for the same reason. */
  lemma ExportIsIgnored(lead: string, spaces: string, line: string, seen: map<string, nat>)
    requires AllSpace(lead) && AllSpace(spaces) && IsPlainAssignment(line)
    ensures ReadLine(lead + EXPORT + spaces + line, seen) == ReadLine(line, seen)
  {
    var pre, post := TrimParts(line);
    var t, s := Trim(line), lead + EXPORT + spaces + line;
    ExportedTrimmed(lead, spaces + pre, t, post);
    assert s == lead + (EXPORT + (spaces + pre) + t) + post;
    assert (EXPORT + (spaces + pre) + t)[|EXPORT|..] == (spaces + pre) + t;
    TrimStartUnique(spaces + pre, t);
    NoNulInSpace(lead);
    NoNulInSpace(spaces);
    assert '\0' in s <==> '\0' in line;
  }

  lemma ExportedTrimmed(lead: string, spaces: string, t: string, post: string)
    requires AllSpace(lead) && AllSpace(spaces) && AllSpace(post) && Tight(t) && t != ""
    ensures var trimmed := EXPORT + spaces + t;
      Trim(lead + trimmed + post) == trimmed && trimmed[0] == 'e' && EXPORT <= trimmed
  {
    var trimmed := EXPORT + spaces + t;
    assert trimmed[0] == 'e' && trimmed[|trimmed| - 1] == t[|t| - 1];
    TrimUnique(lead, trimmed, post);
  }

  lemma NoNulInSpace(spaces: string)
    requires AllSpace(spaces)
    ensures '\0' !in spaces
  {
    assert !IsSpace('\0');
  }

  // ---- Reading back the whole text

  predicate IsLine(line: string) {
    '\n' !in line && (line == "" || line[|line| - 1] != '\r')
  }

  lemma {:induction false} SplitJoinLines(lines: seq<string>)
    requires lines != [] && forall i :: 0 <= i < |lines| ==> IsLine(lines[i])
    ensures SplitLines(Join(lines, "\n")) == lines
  {
    var line := lines[0];
    if |lines| == 1 {
      assert lines == [line];
    } else {
      var rest := Join(lines[1..], "\n");
      SplitJoinLines(lines[1..]);
      SplitFirstLine(line, rest);
      assert lines == [line] + lines[1..];
    }
  }

  lemma SplitFirstLine(line: string, rest: string)
    requires IsLine(line)
    ensures SplitLines(line + "\n" + rest) == [line] + SplitLines(rest)
  {
    IndexOfFirst(line, '\n', rest);
    SplitAt(line + "\n" + rest, |line|);
    assert (line + "\n" + rest)[..|line|] == line && (line + "\n" + rest)[|line| + 1..] == rest;
  }

  lemma SplitAt(text: string, i: nat)
    requires IndexOf(text, '\n') == i
    ensures SplitLines(text) == [DropCarriageReturn(text[..i])] + SplitLines(text[i + 1..])
  {
  }

  function Renumber(es: seq<Entry>): seq<Entry> {
    seq(|es|, i requires 0 <= i < |es| => es[i].(lineNumber := i + 1))
  }

  function KeysOf(es: seq<Entry>): set<string> { set e | e in es :: e.key }

  ghost predicate HasRead(p: Progress, entries: seq<Entry>, keys: set<string>) {
    p.errors == [] && p.entries == entries && p.seen.Keys == keys
  }

  lemma HasReadOneMore(p: Progress, p': Progress, entries: seq<Entry>, keys: set<string>, e: Entry)
    requires HasRead(p, entries, keys) && GrewBy(p, p', e)
    ensures HasRead(p', entries + [e], keys + {e.key})
  {
  }

  lemma ReadLinesGood(read: Reader, lines: seq<string>, n: nat, e: Entry)
    requires n < |lines|
    requires read(lines[n], ReadLines(read, lines, n).seen) == Good(e.key, e.value, e.usageNote)
    ensures GrewBy(ReadLines(read, lines, n), ReadLines(read, lines, n + 1), e.(lineNumber := n + 1))
  {
  }

  predicate GrewBy(p: Progress, p': Progress, e: Entry) {
    p'.errors == p.errors && p'.entries == p.entries + [e] && p'.seen.Keys == p.seen.Keys + {e.key}
  }

  predicate DistinctEntryKeys(es: seq<Entry>) {
    forall i, j :: 0 <= i < j < |es| ==> es[i].key != es[j].key
  }

  /** The i-th line reads as the i-th entry, as long as its key is new. */
  ghost predicate ReadsAs(read: Reader, lines: seq<string>, es: seq<Entry>) {
    && |lines| == |es|
    && forall i, seen {:trigger read(lines[i], seen)} :: 0 <= i < |es| && es[i].key !in seen ==>
         read(lines[i], seen) == Good(es[i].key, es[i].value, es[i].usageNote)
  }

  lemma {:induction false} ReadLinesAre(read: Reader, lines: seq<string>, es: seq<Entry>, n: nat)
    requires ReadsAs(read, lines, es) && DistinctEntryKeys(es) && n <= |es|
    ensures HasRead(ReadLines(read, lines, n), Renumber(es)[..n], KeysOf(es[..n]))
  {
    if n > 0 {
      var e := es[n - 1];
      ReadLinesAre(read, lines, es, n - 1);
      NewKey(es, n - 1);
      RenumberOneMore(es, n);
      NextLineIsGood(read, lines, es, n - 1, ReadLines(read, lines, n - 1).seen);
      ReadLinesGood(read, lines, n - 1, e);
      HasReadOneMore(ReadLines(read, lines, n - 1), ReadLines(read, lines, n), Renumber(es)[..n - 1],
                     KeysOf(es[..n - 1]), e.(lineNumber := n));
    }
  }

  lemma NextLineIsGood(read: Reader, lines: seq<string>, es: seq<Entry>, n: nat, seen: map<string, nat>)
    requires ReadsAs(read, lines, es) && n < |es| && es[n].key !in seen
    ensures read(lines[n], seen) == Good(es[n].key, es[n].value, es[n].usageNote)
  {
  }

  lemma RenumberOneMore(es: seq<Entry>, n: nat)
    requires 0 < n <= |es|
    ensures Renumber(es)[..n] == Renumber(es)[..n - 1] + [es[n - 1].(lineNumber := n)]
  {
  }

  lemma NewKey(es: seq<Entry>, n: nat)
    requires DistinctEntryKeys(es) && n < |es|
    ensures es[n].key !in KeysOf(es[..n]) && KeysOf(es[..n + 1]) == KeysOf(es[..n]) + {es[n].key}
  {
    assert es[..n + 1] == es[..n] + [es[n]];
  }

  lemma PrintedLinesRead(es: seq<Entry>)
    requires Importable(es)
    ensures ReadsAs(LineReader(), PrintLines(es), es)
  {
    forall i: nat, seen: map<string, nat> | i < |es| && es[i].key !in seen
      ensures LineReader()(PrintLines(es)[i], seen) == Good(es[i].key, es[i].value, es[i].usageNote)
    {
      ReadLinePrinted(es[i], seen);
    }
  }

  /** Printing then parsing gives back the same keys, values and notes, on lines 1, 2, 3 and so on,
      exactly when the printed text is within the byte limit. */
  lemma RoundTrip(es: seq<Entry>)
    requires Importable(es)
    ensures Parse(Print(es)) == Ok(Renumber(es)) <==> Utf8Bytes(Print(es)) <= MAX_BYTES
  {
    var lines := PrintLines(es);
    forall i | 0 <= i < |lines| ensures IsLine(lines[i]) {
      assert IsEntry(es[i]);
      PrintedLineClean(es[i]);
    }
    SplitJoinLines(lines);
    PrintedLinesRead(es);
    ReadLinesAre(LineReader(), lines, es, |es|);
    assert Renumber(es)[..|es|] == Renumber(es);
  }

  // ---- What the parser lets through

  lemma TrimSubset(s: string, c: char)
    requires c !in s
    ensures c !in Trim(s) && c !in TrimEnd(s) && c !in TrimStart(s)
  {
    var pre, post := TrimParts(s);
    var tail := TrimEndParts(s);
    var head := TrimStartParts(s);
    assert forall x :: x in Trim(s) ==> x in pre + Trim(s) + post;
    assert forall x :: x in TrimEnd(s) ==> x in TrimEnd(s) + tail;
    assert forall x :: x in TrimStart(s) ==> x in head + TrimStart(s);
  }

  lemma NoteTextWithin(note: string, c: char)
    requires c !in note && NonEmpty(Trim(note)).Some?
    ensures var value := NonEmpty(Trim(note)).value; c !in value && Tight(value) && value != ""
  {
    TrimSubset(note, c);
    TrimIsTight(note);
  }

  lemma AfterCloseWithin(rhs: string, close: nat, c: char)
    requires close < |rhs| && c !in rhs && AfterClose(rhs, close).1.Some?
    ensures var value := AfterClose(rhs, close).1.value; c !in value && Tight(value) && value != ""
  {
    var rest := rhs[close + 1..];
    NoteTextWithin(rest[IndexOf(rest, '#') + 1..], c);
  }

  lemma NoteWithin(raw: string, c: char)
    requires c !in raw && NoteSplit(raw).1.Some?
    ensures c !in NoteSplit(raw).1.value && Tight(NoteSplit(raw).1.value) && NoteSplit(raw).1.value != ""
  {
    var rhs := TrimEnd(raw);
    TrimSubset(raw, c);
    if rhs[0] == '"' || rhs[0] == '\'' {
      AfterCloseWithin(rhs, ScanClose(rhs, 1, rhs[0]), c);
    } else {
      NoteTextWithin(rhs[IndexOf(rhs, '#') + 1..], c);
    }
  }

  lemma GoodValueIsEntry(key: string, raw: string, n: nat)
    requires IsKey(key) && '\0' !in raw && '\n' !in raw && ReadValue(key, raw).Good?
    ensures var line := ReadValue(key, raw); line.key == key && IsEntry(Entry(key, line.value, line.usageNote, n))
  {
    if NoteSplit(raw).1.Some? {
      NoteWithin(raw, '\0');
      NoteWithin(raw, '\n');
    }
  }

  lemma AssignmentWithin(rawLine: string, c: char)
    requires c !in rawLine
    ensures c !in Assignment(Trim(rawLine))
  {
    var trimmed := Trim(rawLine);
    TrimSubset(rawLine, c);
    if EXPORT <= trimmed {
      TrimSubset(trimmed[|EXPORT|..], c);
    }
  }

  lemma GoodLineIsEntry(rawLine: string, seen: map<string, nat>, n: nat)
    requires '\n' !in rawLine && ReadLine(rawLine, seen).Good?
    ensures var line := ReadLine(rawLine, seen);
      line.key !in seen && IsEntry(Entry(line.key, line.value, line.usageNote, n))
  {
    AssignmentWithin(rawLine, '\0');
    AssignmentWithin(rawLine, '\n');
    var assignment := Assignment(Trim(rawLine));
    var eq := IndexOf(assignment, '=');
    GoodValueIsEntry(Trim(assignment[..eq]), assignment[eq + 1..], n);
  }

  // ---- What an accepted line consists of

  function NoteIn(comment: string): Option<string> {
    if comment == "" then None else NonEmpty(Trim(comment[1..]))
  }

  /** White space, the text that the value is decoded from, whatever stands behind it, and the note
      with its hash. */
  ghost predicate Consists(right: string, read: (string, Option<string>), lead: string, behind: string, comment: string)
  {
    && right == lead + Trim(read.0) + behind + comment && read.1 == NoteIn(comment)
    && AllSpace(lead) && (comment == "" || comment[0] == '#')
  }

  ghost predicate HasParts(right: string, read: (string, Option<string>)) {
    exists lead, behind, comment :: Consists(right, read, lead, behind, comment)
  }

  /** All that is read as neither value nor note is white space. */
  ghost predicate LosesNothing(right: string, read: (string, Option<string>)) {
    exists lead, behind, comment :: Consists(right, read, lead, behind, comment) && AllSpace(behind)
  }

  lemma PlainParts(read: (string, Option<string>), front: string, post: string) returns (lead: string, behind: string)
    requires AllSpace(post) && Trim(read.0) == Trim(front) && read.1 == None
    ensures Consists(front + post, read, lead, behind, "") && AllSpace(behind)
  {
    lead, behind := TrimParts(front);
    behind := behind + post;
    assert front + post == lead + Trim(front) + behind + "";
  }

  lemma CommentParts(read: (string, Option<string>), front: string, text: string, post: string)
      returns (lead: string, behind: string)
    requires AllSpace(post) && Trim(read.0) == Trim(front) && read.1 == NonEmpty(Trim(text))
    ensures Consists(front + (['#'] + text) + post, read, lead, behind, ['#'] + (text + post)) && AllSpace(behind)
  {
    lead, behind := TrimParts(front);
    TrimIgnoresTrailing(text, post);
    NoteBehindHash(text + post);
    MovePost(lead + Trim(front) + behind, ['#'], text, post);
  }

  lemma NoteBehindHash(text: string)
    ensures NoteIn(['#'] + text) == NonEmpty(Trim(text))
  {
    assert (['#'] + text)[1..] == text;
  }

  lemma MovePost(a: string, b: string, c: string, d: string)
    ensures a + (b + c) + d == a + (b + (c + d))
  {
  }

  /** Text behind a closing quote without a hash. */
  predicate DropsText(rhs: string) {
    && rhs != "" && IsQuote(rhs[0])
    && var close := ScanClose(rhs, 1, rhs[0]);
      close >= 0 && '#' !in rhs[close + 1..] && Trim(rhs[close + 1..]) != ""
  }

  /** The whole text and no note, or the text in front of a hash and the note behind it. */
  predicate ReadsAsCut(read: (string, Option<string>), rhs: string, n: nat) {
    if n >= |rhs| then Trim(read.0) == Trim(rhs) && read.1 == None
    else rhs[n] == '#' && Trim(read.0) == Trim(rhs[..n]) && read.1 == NonEmpty(Trim(rhs[n + 1..]))
  }

  lemma ConsistsIfCut(read: (string, Option<string>), rhs: string, post: string, n: nat)
    requires ReadsAsCut(read, rhs, n) && AllSpace(post)
    ensures HasParts(rhs + post, read) && LosesNothing(rhs + post, read)
  {
    if n >= |rhs| {
      var lead, behind := PlainParts(read, rhs, post);
    } else {
      var lead, behind := CommentParts(read, rhs[..n], rhs[n + 1..], post);
      assert rhs == rhs[..n] + (['#'] + rhs[n + 1..]);
    }
  }

  lemma UnquotedIsCut(rhs: string) returns (n: nat)
    requires TrimEnd(rhs) == rhs && (rhs == "" || !IsQuote(rhs[0]))
    ensures ReadsAsCut(NoteSplit(rhs), rhs, n)
  {
    var hash := IndexOf(rhs, '#');
    UnquotedSplit(rhs, hash);
    if hash < 0 {
      n := |rhs|;
      TrimAgain(rhs);
    } else {
      n := hash;
      TrimAgain(rhs[..hash]);
    }
  }

  lemma UnquotedSplit(rhs: string, hash: int)
    requires TrimEnd(rhs) == rhs && (rhs == "" || !IsQuote(rhs[0])) && hash == IndexOf(rhs, '#')
    ensures NoteSplit(rhs)
      == if hash < 0 then (Trim(rhs), None) else (TrimEnd(rhs[..hash]), NonEmpty(Trim(rhs[hash + 1..])))
  {
  }

  lemma QuotedIsCut(rhs: string) returns (n: nat)
    requires TrimEnd(rhs) == rhs != "" && IsQuote(rhs[0]) && !DropsText(rhs)
    ensures ReadsAsCut(NoteSplit(rhs), rhs, n)
  {
    var close := ScanClose(rhs, 1, rhs[0]);
    TrimAgain(rhs);
    if close < 0 {
      UnclosedSplit(rhs, rhs);
      n := |rhs|;
    } else {
      NoteSplitQuoted(rhs, rhs, close);
      if OnlyNoteBehind(rhs[close + 1..]) {
        n := AfterCloseIsCut(rhs, close);
      } else {
        n := |rhs|;
      }
    }
  }

  lemma AfterCloseIsCut(rhs: string, close: nat) returns (n: nat)
    requires close < |rhs| && OnlyNoteBehind(rhs[close + 1..])
    requires '#' in rhs[close + 1..] || Trim(rhs[close + 1..]) == ""
    ensures ReadsAsCut(AfterClose(rhs, close), rhs, n)
  {
    var hash := IndexOf(rhs[close + 1..], '#');
    n := if hash < 0 then |rhs| else close + 1 + hash;
    AfterCloseRead(rhs, close, hash);
    CutBehind(AfterClose(rhs, close), rhs, close + 1, hash);
  }

  lemma AfterCloseRead(rhs: string, close: nat, hash: int)
    requires close < |rhs| && OnlyNoteBehind(rhs[close + 1..]) && hash == IndexOf(rhs[close + 1..], '#')
    requires '#' in rhs[close + 1..] || Trim(rhs[close + 1..]) == ""
    ensures IsReadUpTo(AfterClose(rhs, close), rhs, close + 1, hash)
  {
  }

  /** The value part ends before position k, and behind that come white space and perhaps a hash with the
      note. */
  predicate IsReadUpTo(read: (string, Option<string>), rhs: string, k: nat, hash: int) {
    && k <= |rhs| && hash < |rhs| - k && read.0 == Trim(rhs[..k])
    && (hash < 0 ==> Trim(rhs[k..]) == "" && read.1 == None)
    && (hash >= 0 ==> rhs[k..][hash] == '#' && Trim(rhs[k..][..hash]) == ""
                      && read.1 == NonEmpty(Trim(rhs[k..][hash + 1..])))
  }

  lemma CutBehind(read: (string, Option<string>), rhs: string, k: nat, hash: int)
    requires IsReadUpTo(read, rhs, k, hash)
    ensures ReadsAsCut(read, rhs, if hash < 0 then |rhs| else k + hash)
  {
    if hash < 0 {
      CutAtEnd(rhs, k);
    } else {
      CutAtHash(rhs, k, hash);
    }
  }

  lemma CutAtEnd(rhs: string, k: nat)
    requires k <= |rhs| && Trim(rhs[k..]) == ""
    ensures ReadsAsCut((Trim(rhs[..k]), None), rhs, |rhs|)
  {
    TrimAgain(rhs[..k]);
    assert rhs[k..|rhs|] == rhs[k..];
    SpaceBehind(rhs, k, |rhs|);
  }

  lemma CutAtHash(rhs: string, k: nat, hash: nat)
    requires k <= |rhs| && hash < |rhs| - k && rhs[k..][hash] == '#' && Trim(rhs[k..][..hash]) == ""
    ensures ReadsAsCut((Trim(rhs[..k]), NonEmpty(Trim(rhs[k..][hash + 1..]))), rhs, k + hash)
  {
    TrimAgain(rhs[..k]);
    assert rhs[k..][..hash] == rhs[k..k + hash] && rhs[k..][hash + 1..] == rhs[k + hash + 1..];
    SpaceBehind(rhs, k, k + hash);
  }

  lemma SpaceBehind(s: string, k: nat, n: nat)
    requires k <= n <= |s| && Trim(s[k..n]) == ""
    ensures Trim(s[..n]) == Trim(s[..k]) && (n == |s| ==> Trim(s) == Trim(s[..k]))
  {
    TrimsToNothing(s[k..n]);
    TrimIgnoresTrailing(s[..k], s[k..n]);
    assert s[..n] == s[..k] + s[k..n];
    assert n == |s| ==> s[..n] == s;
  }

  /** Text that is dropped stands behind the value. */
  lemma DropSplits(rhs: string, close: nat)
    requires TrimEnd(rhs) == rhs && DropsText(rhs) && ScanClose(rhs, 1, rhs[0]) == close
    ensures NoteSplit(rhs) == (rhs[..close + 1], None) && Tight(rhs[..close + 1]) && !AllSpace(rhs[close + 1..])
  {
    ScanCloseFinds(rhs, 1, rhs[0]);
    NoteSplitQuoted(rhs, rhs, close);
    TrimTight(rhs[..close + 1]);
    TrimsToNothing(rhs[close + 1..]);
  }

  lemma DroppedIsBehind(value: string, rest: string, lead: string, behind: string, comment: string)
    requires value != "" && Tight(value) && '#' !in rest
    requires Consists(value + rest, (value, None), lead, behind, comment)
    ensures behind == rest
  {
    var right := value + rest;
    TrimTight(value);
    assert right == lead + value + (behind + comment);
    assert right[0] == value[0];
    assert lead == "";
    assert rest == right[|value|..] == behind + comment;
    assert comment <= comment && '#' !in comment;
  }

  lemma NoHash(rest: string, post: string)
    requires '#' !in rest && AllSpace(post)
    ensures '#' !in rest + post
  {
    assert !IsSpace('#');
  }

  lemma DroppedConsists(value: string, rest: string, post: string)
    requires value != "" && Tight(value) && '#' !in rest && AllSpace(post) && !AllSpace(rest)
    ensures HasParts(value + (rest + post), (value, None)) && !LosesNothing(value + (rest + post), (value, None))
  {
    TrimTight(value);
    assert value + (rest + post) == "" + value + (rest + post) + "";
    assert Consists(value + (rest + post), (value, None), "", rest + post, "");
    NoHash(rest, post);
    var i :| 0 <= i < |rest| && !IsSpace(rest[i]);
    assert (rest + post)[i] == rest[i];
    forall lead, behind, comment | Consists(value + (rest + post), (value, None), lead, behind, comment)
      ensures !AllSpace(behind)
    {
      DroppedIsBehind(value, rest + post, lead, behind, comment);
    }
  }

  lemma SplitIgnoresTrailing(rhs: string, post: string)
    requires AllSpace(post)
    ensures NoteSplit(rhs + post) == NoteSplit(rhs)
  {
    TrimIgnoresTrailing(rhs, post);
    SplitOfTrimmed(rhs + post, rhs);
  }

  lemma SplitOfTrimmed(a: string, b: string)
    requires TrimEnd(a) == TrimEnd(b)
    ensures NoteSplit(a) == NoteSplit(b)
  {
  }

  /** Every right-hand side consists of these parts, and nothing of it is lost exactly when no text
      stands behind a closing quote without a hash. */
  lemma NothingIsLostIff(right: string)
    ensures HasParts(right, NoteSplit(right))
    ensures LosesNothing(right, NoteSplit(right)) <==> !DropsText(TrimEnd(right))
  {
    var rhs := TrimEnd(right);
    var post := TrimEndParts(right);
    TrimEndAgain(right);
    SplitIgnoresTrailing(rhs, post);
    if DropsText(rhs) {
      SomethingIsDropped(rhs, post);
    } else {
      NothingIsDropped(rhs, post);
    }
  }

  lemma SomethingIsDropped(rhs: string, post: string)
    requires TrimEnd(rhs) == rhs && AllSpace(post) && DropsText(rhs)
    ensures HasParts(rhs + post, NoteSplit(rhs)) && !LosesNothing(rhs + post, NoteSplit(rhs))
  {
    var close := ScanClose(rhs, 1, rhs[0]);
    DropSplits(rhs, close);
    DroppedConsists(rhs[..close + 1], rhs[close + 1..], post);
    CutAt(rhs, close + 1, post);
  }

  lemma CutAt(s: string, k: nat, post: string)
    requires k <= |s|
    ensures s + post == s[..k] + (s[k..] + post)
  {
  }

  lemma NothingIsDropped(rhs: string, post: string)
    requires TrimEnd(rhs) == rhs && AllSpace(post) && !DropsText(rhs)
    ensures HasParts(rhs + post, NoteSplit(rhs)) && LosesNothing(rhs + post, NoteSplit(rhs))
  {
    var n;
    if rhs == "" || !IsQuote(rhs[0]) {
      n := UnquotedIsCut(rhs);
    } else {
      n := QuotedIsCut(rhs);
    }
    ConsistsIfCut(NoteSplit(rhs), rhs, post, n);
  }

  /** An accepted line is white space, perhaps an `export`, the key, an equals sign and a right-hand
      side that gives the value and the note. */
  lemma AcceptedLineConsists(line: string, seen: map<string, nat>)
      returns (lead: string, exported: string, name: string, right: string)
    requires ReadLine(line, seen).Good?
    ensures line == lead + exported + name + "=" + right && AllSpace(lead)
    ensures exported == "" || (EXPORT <= exported && AllSpace(exported[|EXPORT|..]))
    ensures Trim(name) == ReadLine(line, seen).key && '=' !in name
    ensures DecodeQuotedValue(NoteSplit(right).0) == Some(ReadLine(line, seen).value)
    ensures NoteSplit(right).1 == ReadLine(line, seen).usageNote
  {
    var post, assignment;
    lead, exported, assignment, post := AssignmentParts(line);
    var eq := IndexOf(assignment, '=');
    GoodIsAssigned(assignment, eq, post, seen);
    name, right := assignment[..eq], assignment[eq + 1..] + post;
    EqualsBetween(assignment, eq, post, lead + exported);
  }

  lemma EqualsBetween(assignment: string, eq: nat, post: string, front: string)
    requires eq < |assignment| && assignment[eq] == '='
    ensures front + assignment + post == front + assignment[..eq] + "=" + (assignment[eq + 1..] + post)
  {
    assert assignment == assignment[..eq] + ['='] + assignment[eq + 1..];
  }

  lemma AssignmentParts(line: string) returns (lead: string, exported: string, assignment: string, post: string)
    ensures assignment == Assignment(Trim(line)) && line == lead + exported + assignment + post
    ensures AllSpace(lead) && AllSpace(post)
    ensures exported == "" || (EXPORT <= exported && AllSpace(exported[|EXPORT|..]))
  {
    lead, post := TrimParts(line);
    assignment := Assignment(Trim(line));
    exported := "";
    if EXPORT <= Trim(line) {
      exported := ExportedParts(Trim(line), EXPORT);
    } else {
      assert exported + assignment == assignment;
    }
    Reassociate(lead, exported, assignment);
  }

  lemma ExportedParts(trimmed: string, word: string) returns (exported: string)
    requires word <= trimmed
    ensures trimmed == exported + TrimStart(trimmed[|word|..])
    ensures word <= exported && AllSpace(exported[|word|..])
  {
    var rest := trimmed[|word|..];
    var spaces := TrimStartParts(rest);
    exported := word + spaces;
    assert exported[|word|..] == spaces && trimmed == word + rest;
    Reassociate(word, spaces, TrimStart(rest));
  }

  lemma GoodIsAssigned(assignment: string, eq: nat, post: string, seen: map<string, nat>)
    requires ReadAssignment(assignment, seen).Good? && AllSpace(post) && IndexOf(assignment, '=') == eq
    ensures var line, right := ReadAssignment(assignment, seen), assignment[eq + 1..] + post;
      && Trim(assignment[..eq]) == line.key
      && DecodeQuotedValue(NoteSplit(right).0) == Some(line.value) && NoteSplit(right).1 == line.usageNote
  {
    var right := assignment[eq + 1..];
    AssignmentIsValue(assignment, eq, seen);
    GoodIsRead(Trim(assignment[..eq]), right);
    SplitIgnoresTrailing(right, post);
  }

  lemma AssignmentIsValue(assignment: string, eq: nat, seen: map<string, nat>)
    requires ReadAssignment(assignment, seen).Good? && IndexOf(assignment, '=') == eq
    ensures ReadAssignment(assignment, seen) == ReadValue(Trim(assignment[..eq]), assignment[eq + 1..])
  {
    KeyedIsValue(Trim(assignment[..eq]), assignment[eq + 1..], seen);
  }

  lemma KeyedIsValue(key: string, right: string, seen: map<string, nat>)
    ensures ReadKeyed(key, right, seen).Good? ==> ReadKeyed(key, right, seen) == ReadValue(key, right)
  {
  }

  lemma GoodIsRead(key: string, right: string)
    requires ReadValue(key, right).Good?
    ensures var line := ReadValue(key, right);
      line.key == key && DecodeQuotedValue(NoteSplit(right).0) == Some(line.value)
      && NoteSplit(right).1 == line.usageNote
  {
  }

  /** Whatever stands behind the closing quote, without a hash, is gone: the line gives the value alone. */
  lemma DroppedTextIsRead(key: string, value: string, text: string, seen: map<string, nat>)
    requires IsKey(key) && key !in seen && IsValue(value)
    requires text != "" && !IsSpace(text[|text| - 1]) && '#' !in text && '\0' !in text
    ensures var right := "\"" + Escape(value) + "\"" + text;
      DropsText(TrimEnd(right)) && ReadLine(key + "=" + right, seen) == Good(key, value, None)
  {
    var quoted := "\"" + Escape(value) + "\"";
    EscapeKeeps(value, '\0');
    DroppedTextSplits(value, text, quoted + text);
    QuotedDecodes(value, quoted);
    LineRead(key, quoted + text, seen);
    PartIsRead(key, quoted + text, quoted, value);
  }

  lemma DroppedTextSplits(value: string, text: string, right: string)
    requires right == "\"" + Escape(value) + "\"" + text
    requires text != "" && !IsSpace(text[|text| - 1]) && '#' !in text
    ensures TrimEnd(right) == right && DropsText(right) && NoteSplit(right) == ("\"" + Escape(value) + "\"", None)
  {
    var close := |Escape(value)| + 1;
    assert right + "" == right && right[|right| - 1] == text[|text| - 1];
    TrimEndUnique(right, "");
    ScanCloseEscaped("\"", value, text);
    assert right[close + 1..] == text && right[..close + 1] == "\"" + Escape(value) + "\"";
    TrimsToNothing(text);
    DropSplits(right, close);
  }

  lemma QuotedDecodes(value: string, quoted: string)
    requires quoted == "\"" + Escape(value) + "\""
    ensures DecodeQuotedValue(quoted) == Some(value)
  {
    DecodeWhole(quoted);
    assert quoted[1..|quoted| - 1] == Escape(value);
    UnescapeEscape(value);
  }

  lemma {:induction false} LinesHaveNoLineFeed(text: string)
    ensures forall i :: 0 <= i < |SplitLines(text)| ==> '\n' !in SplitLines(text)[i]
    decreases |text|
  {
    var i := IndexOf(text, '\n');
    if i >= 0 {
      LinesHaveNoLineFeed(text[i + 1..]);
    }
  }

  /** Entries read from the first n lines. */
  ghost predicate Sound(es: seq<Entry>, seen: map<string, nat>, n: nat) {
    && (forall i :: 0 <= i < |es| ==> IsEntry(es[i]))
    && (forall i :: 0 <= i < |es| ==> 1 <= es[i].lineNumber <= n && es[i].key in seen)
    && (forall i, j :: 0 <= i < j < |es| ==> es[i].key != es[j].key && es[i].lineNumber < es[j].lineNumber)
  }

  lemma SoundSnoc(es: seq<Entry>, seen: map<string, nat>, e: Entry)
    requires e.lineNumber >= 1 && Sound(es, seen, e.lineNumber - 1) && IsEntry(e) && e.key !in seen
    ensures Sound(es + [e], seen[e.key := e.lineNumber], e.lineNumber)
  {
  }

  /** What the reader calls good is an entry with a new key. */
  ghost predicate ReadsSoundly(read: Reader) {
    forall rawLine, seen {:trigger read(rawLine, seen)} :: '\n' !in rawLine && read(rawLine, seen).Good? ==>
      var line := read(rawLine, seen);
        line.key !in seen && forall n :: IsEntry(Entry(line.key, line.value, line.usageNote, n))
  }

  lemma {:induction false} ReadLinesSound(read: Reader, lines: seq<string>, n: nat)
    requires n <= |lines| && ReadsSoundly(read) && forall i :: 0 <= i < |lines| ==> '\n' !in lines[i]
    ensures Sound(ReadLines(read, lines, n).entries, ReadLines(read, lines, n).seen, n)
  {
    if n > 0 {
      ReadLinesSound(read, lines, n - 1);
      var p := ReadLines(read, lines, n - 1);
      NoteKeepsSound(p, read(lines[n - 1], p.seen), n);
    }
  }

  lemma NoteKeepsSound(p: Progress, line: Line, n: nat)
    requires n >= 1 && Sound(p.entries, p.seen, n - 1)
    requires line.Good? ==> line.key !in p.seen && IsEntry(Entry(line.key, line.value, line.usageNote, n))
    ensures Sound(Note(p, line, n).entries, Note(p, line, n).seen, n)
  {
    if line.Good? {
      SoundSnoc(p.entries, p.seen, Entry(line.key, line.value, line.usageNote, n));
    }
  }

  /** Whatever the input, accepted entries are ones the format can carry: valid and distinct keys,
      non-blank one-line values, tight notes, rising line numbers, 1 to 200 of them. */
  lemma AcceptedIsImportable(text: string)
    requires Parse(text).Ok?
    ensures Importable(Parse(text).entries)
    ensures forall e :: e in Parse(text).entries ==> 1 <= e.lineNumber <= |SplitLines(text)|
  {
    var lines := SplitLines(text);
    LinesHaveNoLineFeed(text);
    forall rawLine, seen | '\n' !in rawLine && LineReader()(rawLine, seen).Good?
      ensures var line := LineReader()(rawLine, seen);
        line.key !in seen && forall n :: IsEntry(Entry(line.key, line.value, line.usageNote, n))
    {
      forall n ensures IsEntry(Entry(ReadLine(rawLine, seen).key, ReadLine(rawLine, seen).value,
                                     ReadLine(rawLine, seen).usageNote, n)) {
        GoodLineIsEntry(rawLine, seen, n);
      }
      GoodLineIsEntry(rawLine, seen, 0);
    }
    ReadLinesSound(LineReader(), lines, |lines|);
  }

  /** So an accepted text has a printed form that imports the same secrets, exactly when that form is
      within the byte limit: escaping can make it longer than the text. */
  lemma CanonicalFormImportsTheSame(text: string)
    requires Parse(text).Ok?
    ensures Parse(Print(Parse(text).entries)) == Ok(Renumber(Parse(text).entries))
      <==> Utf8Bytes(Print(Parse(text).entries)) <= MAX_BYTES
  {
    AcceptedIsImportable(text);
    RoundTrip(Parse(text).entries);
  }

  // ---- A text whose printed form is too long

  function Quotes(n: nat): (quotes: string)
    ensures |quotes| == n && forall i :: 0 <= i < n ==> quotes[i] == '"'
  {
    if n == 0 then "" else "\"" + Quotes(n - 1)
  }

  lemma {:induction false} QuotesBytes(n: nat)
    ensures Utf8Bytes(Quotes(n)) == n && Utf8Bytes(Escape(Quotes(n))) == 2 * n
  {
    if n > 0 {
      QuotesBytes(n - 1);
      assert Quotes(n)[1..] == Quotes(n - 1);
      BytesAdd("\\\"", Escape(Quotes(n - 1)));
      assert Utf8Bytes("\\\"") == 2;
    }
  }

  lemma {:induction false} BytesAdd(a: string, b: string)
    ensures Utf8Bytes(a + b) == Utf8Bytes(a) + Utf8Bytes(b)
  {
    if a == "" {
      assert a + b == b;
    } else {
      assert (a + b)[1..] == a[1..] + b;
      BytesAdd(a[1..], b);
    }
  }

  /** A value that needs no quotes. */
  predicate IsBare(value: string) {
    value != "" && Tight(value) && value[0] != '"' && value[0] != '\'' && '#' !in value
    && '\0' !in value && '\n' !in value && '\r' !in value
  }

  lemma BareValueRead(key: string, value: string)
    requires IsBare(value)
    ensures ReadValue(key, value) == Good(key, value, None)
  {
    TrimTight(value);
    assert value + "" == value;
    TrimEndUnique(value, "");
  }

  /** One bare value of n quotation marks behind a letter is accepted while its printed form, with
      every mark escaped, exceeds the limit. */
  lemma EscapingCanExceedTheLimit(n: nat)
    requires n + 3 <= MAX_BYTES < 2 * n + 5
    ensures var value := "a" + Quotes(n);
      Parse("K" + "=" + value) == Ok([Entry("K", value, None, 1)])
        && Utf8Bytes(Print([Entry("K", value, None, 1)])) > MAX_BYTES
  {
    var value := "a" + Quotes(n);
    BareQuotesBytes(n);
    BareLineParsed("K", value);
    PrintedQuotesBytes(n, Entry("K", value, None, 1));
  }

  lemma BareLineParsed(key: string, value: string)
    requires IsKey(key) && IsBare(value) && Utf8Bytes(key + "=" + value) <= MAX_BYTES
    ensures Parse(key + "=" + value) == Ok([Entry(key, value, None, 1)])
  {
    KeyTight(key);
    LineRead(key, value, map[]);
    BareValueRead(key, value);
    OneLineParsed(key + "=" + value, Entry(key, value, None, 1));
  }

  lemma BareQuotesBytes(n: nat)
    ensures Utf8Bytes("K" + "=" + ("a" + Quotes(n))) == n + 3
  {
    assert "K" + "=" + ("a" + Quotes(n)) == "K=a" + Quotes(n);
    BytesAdd("K=a", Quotes(n));
    QuotesBytes(n);
    assert Utf8Bytes("K=a") == 3;
  }

  lemma OneLineParsed(text: string, e: Entry)
    requires '\n' !in text && Utf8Bytes(text) <= MAX_BYTES && e.lineNumber == 1
    requires ReadLine(text, map[]) == Good(e.key, e.value, e.usageNote)
    ensures Parse(text) == Ok([e])
  {
    var lines := SplitLines(text);
    assert lines == [text];
    assert LineReader()(lines[0], map[]) == Good(e.key, e.value, e.usageNote);
    ReadLinesGood(LineReader(), lines, 0, e);
    assert [] + [e] == [e];
  }

  lemma PrintedQuotesBytes(n: nat, e: Entry)
    requires e == Entry("K", "a" + Quotes(n), None, 1)
    ensures Utf8Bytes(Print([e])) == 2 * n + 5
  {
    assert e.value[1..] == Quotes(n);
    assert Escape(e.value) == "a" + Escape(Quotes(n));
    QuotesBytes(n);
    assert PrintEntry(e) == "K=\"a" + Escape(Quotes(n)) + "\"";
    BytesAdd("K=\"a" + Escape(Quotes(n)), "\"");
    BytesAdd("K=\"a", Escape(Quotes(n)));
    assert Utf8Bytes("K=\"a") == 4 && Utf8Bytes("\"") == 1;
    assert PrintLines([e]) == [PrintEntry(e)];
  }

  // ---- What every escape stands for

  /** Text decodes piece by piece: `\r`, `\t`, `\\` and `\"` stand for one character each, a backslash
      before anything else stands for itself, and so does every other character. */
  lemma EscapesMean(a: string, b: string, c: char)
    requires Complete(a)
    ensures Unescape(a + b) == Unescape(a) + Unescape(b) && Unescape("") == ""
    ensures Unescape(['\\', 'r']) == ['\r'] && Unescape(['\\', 't']) == ['\t']
    ensures Unescape(['\\', '\\']) == ['\\'] && Unescape(['\\', '"']) == ['"']
    ensures c !in {'r', 't', '\\', '"'} ==> Unescape(['\\', c]) == ['\\', c]
    ensures Unescape([c]) == [c]
  {
    UnescapeConcat(a, b);
    PlainEnd(c);
    assert ['\\', c][1..] == [c] && forall d: char :: ['\\', d][2..] == "";
    EscapeMeans('r');
    EscapeMeans('t');
    EscapeMeans('\\');
    EscapeMeans('"');
  }

  lemma EscapeMeans(c: char)
    requires c == 'r' || c == 't' || c == '\\' || c == '"'
    ensures Unescape(['\\', c]) == [if c == 'r' then '\r' else if c == 't' then '\t' else c]
  {
    assert ['\\', c][2..] == "";
  }

  // ---- Every way to write a line

  /** Every quote in it is escaped, and nothing is left to escape at its end. */
  predicate IsEscaped(inner: string) {
    inner == "" || if inner[0] == '\\' then |inner| >= 2 && IsEscaped(inner[2..])
      else inner[0] != '"' && IsEscaped(inner[1..])
  }

  /** It can stand between two of the quotes. */
  predicate FitsQuotes(inner: string, quote: char) {
    if quote == '"' then IsEscaped(inner) else quote == '\'' && quote !in inner
  }

  /** What follows the value: white space, and perhaps a hash and a note. */
  ghost predicate IsTail(tail: string, note: Option<string>) {
    (note.None? && AllSpace(tail)) || exists pad, text :: IsNoted(tail, note, pad, text)
  }

  predicate IsNoted(tail: string, note: Option<string>, pad: string, text: string) {
    AllSpace(pad) && tail == pad + ['#'] + text && note == if AllSpace(text) then None else Some(Trim(text))
  }

  lemma {:induction false} ScanFindsClose(pre: string, inner: string, quote: char, rest: string)
    requires FitsQuotes(inner, quote)
    ensures ScanClose(pre + inner + [quote] + rest, |pre|, quote) == |pre| + |inner|
    decreases |inner|
  {
    var s := pre + inner + [quote] + rest;
    if inner == "" {
      assert s[|pre|] == quote;
    } else if quote == '"' && inner[0] == '\\' {
      assert s == (pre + inner[..2]) + inner[2..] + [quote] + rest && s[|pre|] == inner[0];
      ScanFindsClose(pre + inner[..2], inner[2..], quote, rest);
    } else {
      assert s == (pre + inner[..1]) + inner[1..] + [quote] + rest && s[|pre|] == inner[0];
      ScanFindsClose(pre + inner[..1], inner[1..], quote, rest);
    }
  }

  lemma TailIsRead(tail: string, note: Option<string>)
    requires IsTail(tail, note)
    ensures var hash := IndexOf(tail, '#');
      if hash < 0 then note == None && Trim(tail) == ""
      else Trim(tail[..hash]) == "" && NonEmpty(Trim(tail[hash + 1..])) == note
  {
    if note.None? && AllSpace(tail) {
      TrimsToNothing(tail);
      NoHash("", tail);
      assert "" + tail == tail;
    } else {
      var pad, text :| IsNoted(tail, note, pad, text);
      NotedTailIsRead(tail, note, pad, text);
    }
  }

  lemma NotedTailIsRead(tail: string, note: Option<string>, pad: string, text: string)
    requires IsNoted(tail, note, pad, text)
    ensures IndexOf(tail, '#') == |pad| && tail[..|pad|] == pad && tail[|pad| + 1..] == text
    ensures Trim(pad) == "" && NonEmpty(Trim(text)) == note
  {
    NoHash("", pad);
    assert "" + pad == pad;
    IndexOfFirst(pad, '#', text);
    TrimsToNothing(pad);
    TrimsToNothing(text);
  }

  /** White space at the very end makes no difference. */
  lemma TailTrimmed(front: string, tail: string, note: Option<string>) returns (tail': string)
    requires front != "" && !IsSpace(front[|front| - 1]) && IsTail(tail, note)
    ensures TrimEnd(front + tail) == front + tail' && IsTail(tail', note)
  {
    var post := TrimEndParts(tail);
    tail' := TrimEnd(tail);
    assert front + tail == (front + tail') + post;
    assert forall i :: 0 <= i < |tail'| ==> tail'[i] == tail[i];
    TrimEndUnique(front + tail', post);
    if !(note.None? && AllSpace(tail)) {
      var pad, text :| IsNoted(tail, note, pad, text);
      ShorterTail(pad, text, tail', post, note);
    }
  }

  lemma ShorterTail(pad: string, text: string, tail': string, post: string, note: Option<string>)
    requires AllSpace(pad) && AllSpace(post) && pad + ['#'] + text == tail' + post
    requires note == if AllSpace(text) then None else Some(Trim(text))
    ensures IsTail(tail', note)
  {
    var n := |pad|;
    assert (tail' + post)[n] == '#' && !IsSpace('#');
    assert n < |tail'|;
    var text' := tail'[n + 1..];
    assert tail' == pad + ['#'] + text' by {
      assert tail'[..n] == (tail' + post)[..n] == pad;
    }
    assert text == text' + post by {
      assert (tail' + post)[n + 1..] == text' + post && (pad + ['#'] + text)[n + 1..] == text;
    }
    TrimIgnoresTrailing(text', post);
    TrimsToNothing(text);
    TrimsToNothing(text');
    assert IsNoted(tail', note, pad, text');
  }

  /** What becomes of a value and a note that have been found. */
  function Checked(key: string, value: string, note: Option<string>): Line {
    if note.Some? && Utf16Length(note.value) > 500 then Bad(NoteTooLong)
    else if '\0' in value || '\n' in value || '\r' in value then Bad(Multiline)
    else if AllSpace(value) then Bad(EmptyValue(key))
    else Good(key, value, note)
  }

  lemma ReadIsChecked(key: string, right: string, value: string, note: Option<string>)
    requires NoteSplit(right).1 == note && DecodeQuotedValue(NoteSplit(right).0) == Some(value)
    ensures ReadValue(key, right) == Checked(key, value, note)
  {
    TrimsToNothing(value);
  }

  /** A value in quotes, with or without a note behind it. */
  lemma QuotedIsRead(key: string, quote: char, inner: string, tail: string, note: Option<string>)
    requires IsQuote(quote) && FitsQuotes(inner, quote) && IsTail(tail, note)
    ensures ReadValue(key, [quote] + inner + [quote] + tail) == Checked(key, Decoded(inner, quote), note)
  {
    QuotedIsSplit(quote, inner, tail, note);
    QuotedIsDecoded(quote, inner);
    ReadIsChecked(key, [quote] + inner + [quote] + tail, Decoded(inner, quote), note);
  }

  lemma QuotedIsSplit(quote: char, inner: string, tail: string, note: Option<string>)
    requires IsQuote(quote) && FitsQuotes(inner, quote) && IsTail(tail, note)
    ensures NoteSplit([quote] + inner + [quote] + tail) == ([quote] + inner + [quote], note)
  {
    var quoted := [quote] + inner + [quote];
    var tail' := TailTrimmed(quoted, tail, note);
    ScanFindsClose([quote], inner, quote, tail');
    NoteSplitQuoted(quoted + tail, quoted + tail', |inner| + 1);
    ClosedAndNoted(quoted, tail', |inner| + 1, note);
  }

  lemma ClosedAndNoted(quoted: string, tail: string, close: nat, note: Option<string>)
    requires |quoted| == close + 1 && Tight(quoted) && IsTail(tail, note)
    ensures AfterClose(quoted + tail, close) == (quoted, note)
  {
    QuotedCutOff(quoted, tail, close);
    TailIsRead(tail, note);
    TrimTight(quoted);
  }

  lemma QuotedCutOff(quoted: string, tail: string, close: nat)
    requires |quoted| == close + 1
    ensures (quoted + tail)[close + 1..] == tail && (quoted + tail)[..close + 1] == quoted
  {
  }

  lemma QuotedIsDecoded(quote: char, inner: string)
    requires IsQuote(quote)
    ensures DecodeQuotedValue([quote] + inner + [quote]) == Some(Decoded(inner, quote))
  {
    var quoted := [quote] + inner + [quote];
    DecodeWhole(quoted);
    assert quoted[1..|quoted| - 1] == inner;
  }

  /** A value without quotes, white space on both sides of it. */
  lemma BareIsRead(key: string, lead: string, value: string, tail: string, note: Option<string>)
    requires AllSpace(lead) && Tight(value) && '#' !in value && (value == "" || !IsQuote(value[0]))
    requires IsTail(tail, note)
    ensures ReadValue(key, lead + value + tail) == Checked(key, value, note)
  {
    UnquotedParts(lead, value, tail, note);
    DecodeTrimmed(NoteSplit(lead + value + tail).0);
    ReadIsChecked(key, lead + value + tail, value, note);
  }

  lemma DecodeTrimmed(part: string)
    ensures DecodeQuotedValue(part) == DecodeQuotedValue(Trim(part))
  {
    TrimAgain(part);
  }

  /** Behind white space a value in quotes is read up to the first hash, wherever that stands. */
  lemma SpacedQuotedIsRead(key: string, lead: string, quote: char, inner: string, tail: string, note: Option<string>)
    requires AllSpace(lead) && lead != "" && IsQuote(quote) && '#' !in inner && IsTail(tail, note)
    ensures ReadValue(key, lead + ([quote] + inner + [quote]) + tail) == Checked(key, Decoded(inner, quote), note)
  {
    var value := [quote] + inner + [quote];
    UnquotedParts(lead, value, tail, note);
    DecodeTrimmed(NoteSplit(lead + value + tail).0);
    QuotedIsDecoded(quote, inner);
    ReadIsChecked(key, lead + value + tail, Decoded(inner, quote), note);
  }

  lemma UnquotedParts(lead: string, value: string, tail: string, note: Option<string>)
    requires AllSpace(lead) && Tight(value) && '#' !in value && IsTail(tail, note)
    requires lead != "" || value == "" || !IsQuote(value[0])
    ensures Trim(NoteSplit(lead + value + tail).0) == value && NoteSplit(lead + value + tail).1 == note
  {
    if note.None? && AllSpace(tail) {
      UnnotedParts(lead, value, tail);
    } else {
      var pad, text :| IsNoted(tail, note, pad, text);
      NotedParts(lead, value, pad, text);
      TrimsToNothing(text);
      Regrouped(lead + value, pad, text, tail);
    }
  }

  lemma Regrouped(front: string, pad: string, text: string, tail: string)
    requires tail == pad + ['#'] + text
    ensures front + tail == front + pad + ['#'] + text
  {
  }

  lemma UnnotedParts(lead: string, value: string, tail: string)
    requires AllSpace(lead) && AllSpace(tail) && Tight(value) && '#' !in value
    requires lead != "" || value == "" || !IsQuote(value[0])
    ensures Trim(NoteSplit(lead + value + tail).0) == value && NoteSplit(lead + value + tail).1 == None
  {
    var right := lead + value + tail;
    TrimUnique(lead, value, tail);
    var post := TrimEndParts(right);
    TrimEndAgain(right);
    var rhs := TrimEnd(right);
    assert forall i :: 0 <= i < |rhs| ==> rhs[i] == right[i];
    NoHashAnywhere(lead, value, tail);
    UnquotedSplit(rhs, -1);
    SplitOfTrimmed(right, rhs);
    TrimAgain(right);
    TrimAgain(rhs);
  }

  lemma NoHashAnywhere(lead: string, value: string, tail: string)
    requires AllSpace(lead) && AllSpace(tail) && '#' !in value
    ensures '#' !in lead + value + tail
  {
    NoHash("", lead);
    assert "" + lead == lead;
    NoHash(value, tail);
    assert lead + value + tail == lead + (value + tail);
  }

  lemma NotedParts(lead: string, value: string, pad: string, text: string)
    requires AllSpace(lead) && AllSpace(pad) && Tight(value) && '#' !in value
    requires lead != "" || value == "" || !IsQuote(value[0])
    ensures var right := lead + value + pad + ['#'] + text;
      Trim(NoteSplit(right).0) == value && NoteSplit(right).1 == NonEmpty(Trim(text))
  {
    var front, right := lead + value + pad, lead + value + pad + ['#'] + text;
    var post := TrimEndParts(text);
    var text' := TrimEnd(text);
    var rhs := front + ['#'] + text';
    NoHashAnywhere(lead, value, pad);
    assert right == rhs + post;
    assert rhs[|rhs| - 1] == if text' == "" then '#' else text'[|text'| - 1];
    TrimEndUnique(rhs, post);
    SplitAtHash(front, text', right);
    TrimUnique(lead, value, pad);
    TrimAgain(front);
    TrimIgnoresTrailing(text', post);
  }

  lemma SplitAtHash(front: string, text: string, right: string)
    requires '#' !in front && (front == "" || !IsQuote(front[0]))
    requires TrimEnd(right) == front + ['#'] + text
    ensures NoteSplit(right) == (TrimEnd(front), NonEmpty(Trim(text)))
  {
    var rhs := front + ['#'] + text;
    IndexOfFirst(front, '#', text);
    TrimEndAgain(right);
    UnquotedSplit(rhs, |front|);
    SplitOfTrimmed(right, rhs);
    assert rhs[..|front|] == front && rhs[|front| + 1..] == text;
  }

  /** A line is read by its key and what stands behind its equals sign: white space around, a leading
      `export` and white space around the key make no difference. */
  lemma LineIsRead(lead: string, exported: string, name: string, right: string, seen: map<string, nat>)
    requires AllSpace(lead) && name != "" && !IsSpace(name[0]) && '=' !in name
    requires if exported == "" then name[0] != '#' && !(EXPORT <= name + "=" + right) else IsExport(exported)
    requires '\0' !in name && '\0' !in right
    ensures ReadLine(lead + exported + name + "=" + right, seen) == ReadKeyed(Trim(name), right, seen)
  {
    var post := TrimEndParts(right);
    var right' := TrimEnd(right);
    var tight := name + ['='] + right';
    WholeLine(lead, exported, name, right, right', post);
    NulFree(lead, exported, name, right);
    assert tight[|tight| - 1] == if right' == "" then '=' else right'[|right'| - 1];
    LineTrimmed(lead, exported, tight, post);
    AssignmentOf(exported, tight, tight + post);
    KeyedAssignment(name, right', seen);
    ValueIgnoresTrailing(name, right', post, seen);
  }

  lemma KeyedAssignment(name: string, right: string, seen: map<string, nat>)
    requires name != "" && '=' !in name
    ensures ReadAssignment(name + ['='] + right, seen) == ReadKeyed(Trim(name), right, seen)
  {
    var tight := name + ['='] + right;
    IndexOfFirst(name, '=', right);
    assert tight[..|name|] == name && tight[|name| + 1..] == right;
  }

  lemma ValueIgnoresTrailing(name: string, right: string, post: string, seen: map<string, nat>)
    requires AllSpace(post)
    ensures ReadKeyed(Trim(name), right + post, seen) == ReadKeyed(Trim(name), right, seen)
  {
    SplitIgnoresTrailing(right, post);
    ReadBySplit(Trim(name), right + post, right);
    KeyedByValue(Trim(name), right + post, right, seen);
  }

  lemma ReadBySplit(key: string, right: string, right': string)
    requires NoteSplit(right) == NoteSplit(right')
    ensures ReadValue(key, right) == ReadValue(key, right')
  {
  }

  lemma KeyedByValue(key: string, right: string, right': string, seen: map<string, nat>)
    requires ReadValue(key, right) == ReadValue(key, right')
    ensures ReadKeyed(key, right, seen) == ReadKeyed(key, right', seen)
  {
  }

  lemma WholeLine(lead: string, exported: string, name: string, right: string, right': string, post: string)
    requires right == right' + post
    ensures lead + exported + name + "=" + right == lead + (exported + (name + ['='] + right')) + post
    ensures name + "=" + right == name + ['='] + right' + post
  {
  }

  lemma LineTrimmed(lead: string, exported: string, tight: string, post: string)
    requires AllSpace(lead) && AllSpace(post) && tight != "" && Tight(tight)
    requires if exported == "" then tight[0] != '#' else IsExport(exported)
    ensures Trim(lead + (exported + tight) + post) == exported + tight
    ensures exported + tight != "" && (exported + tight)[0] != '#'
  {
    var all := exported + tight;
    assert all[|all| - 1] == tight[|tight| - 1];
    assert exported != "" ==> all[0] == EXPORT[0];
    TrimUnique(lead, all, post);
  }

  predicate IsExport(exported: string) {
    EXPORT <= exported && AllSpace(exported[|EXPORT|..])
  }

  lemma NulFree(lead: string, exported: string, name: string, right: string)
    requires AllSpace(lead) && (exported == "" || IsExport(exported)) && '\0' !in name && '\0' !in right
    ensures '\0' !in lead + exported + name + "=" + right
  {
    NoNulInSpace(lead);
    if exported != "" {
      NoNulInSpace(exported[|EXPORT|..]);
      assert exported == EXPORT + exported[|EXPORT|..];
    }
  }

  lemma AssignmentOf(exported: string, tight: string, whole: string)
    requires tight != "" && !IsSpace(tight[0]) && tight <= whole
    requires if exported == "" then !(EXPORT <= whole) else IsExport(exported)
    ensures Assignment(exported + tight) == tight
  {
    if exported == "" {
      assert exported + tight == tight;
      assert EXPORT <= tight ==> EXPORT <= whole;
    } else {
      var spaces := exported[|EXPORT|..];
      assert exported == EXPORT + spaces && (exported + tight)[|EXPORT|..] == spaces + tight;
      TrimStartUnique(spaces, tight);
    }
  }

  // ---- What the whole text gives

  /** The lines of a text: cut at every line feed, a carriage return before it going with it. */
  lemma LinesAreCut(line: string, rest: string)
    requires '\n' !in line
    ensures SplitLines(line) == [line]
    ensures line == "" || line[|line| - 1] != '\r' ==> SplitLines(line + "\n" + rest) == [line] + SplitLines(rest)
    ensures SplitLines(line + "\r\n" + rest) == [line] + SplitLines(rest)
  {
    if line == "" || line[|line| - 1] != '\r' {
      SplitFirstLine(line, rest);
    }
    SplitReturned(line, rest);
  }

  lemma SplitReturned(line: string, rest: string)
    requires '\n' !in line
    ensures SplitLines(line + "\r\n" + rest) == [line] + SplitLines(rest)
  {
    var cut := line + "\r";
    IndexOfFirst(cut, '\n', rest);
    assert line + "\r\n" + rest == cut + ['\n'] + rest;
    SplitAt(line + "\r\n" + rest, |cut|);
    FirstLineIs(cut, rest);
    assert DropCarriageReturn(cut) == line;
  }

  lemma FirstLineIs(cut: string, rest: string)
    ensures (cut + ['\n'] + rest)[..|cut|] == cut && (cut + ['\n'] + rest)[|cut| + 1..] == rest
  {
  }

  /** The keys of the entries up to line n, each with its line. */
  ghost predicate Knows(entries: seq<Entry>, n: nat, seen: map<string, nat>) {
    && (forall e :: e in entries && e.lineNumber <= n ==> e.key in seen && seen[e.key] == e.lineNumber)
    && (forall k :: k in seen ==> exists e :: e in entries && e.lineNumber <= n && e.key == k)
  }

  /** Line k + 1 has left what its reading says, the keys of the entries before it being known. */
  ghost predicate IsAccounted(read: Reader, lines: seq<string>, k: nat, p: Progress)
    requires k < |lines|
  {
    exists seen :: Knows(p.entries, k, seen) && Leaves(read(lines[k], seen), k + 1, p)
  }

  ghost predicate Leaves(line: Line, n: nat, p: Progress) {
    match line
    case Skipped =>
      (forall e :: e in p.entries ==> e.lineNumber != n) && (forall e :: e in p.errors ==> e.lineNumber != n)
    case Bad(problem) => ParseError(n, problem) in p.errors && forall e :: e in p.entries ==> e.lineNumber != n
    case Good(key, value, note) =>
      Entry(key, value, note, n) in p.entries && forall e :: e in p.errors ==> e.lineNumber != n
  }

  /** Entries and errors come in the order of their lines, one at most for each, and every line is
      accounted for. */
  ghost predicate Tracks(read: Reader, lines: seq<string>, n: nat, p: Progress)
    requires n <= |lines|
  {
    AreInOrder(p, n) && forall k :: 0 <= k < n ==> IsAccounted(read, lines, k, p)
  }

  ghost predicate AreInOrder(p: Progress, n: nat) {
    && (forall i, j :: 0 <= i < j < |p.entries| ==> p.entries[i].lineNumber < p.entries[j].lineNumber)
    && (forall i, j :: 0 <= i < j < |p.errors| ==> p.errors[i].lineNumber < p.errors[j].lineNumber)
    && (forall e :: e in p.entries ==> 1 <= e.lineNumber <= n)
    && (forall e :: e in p.errors ==> 1 <= e.lineNumber <= n)
  }

  ghost predicate GivesNewKeys(read: Reader) {
    forall rawLine, seen {:trigger read(rawLine, seen)} ::
      read(rawLine, seen).Good? ==> read(rawLine, seen).key !in seen
  }

  lemma {:induction false} ReadLinesTrack(read: Reader, lines: seq<string>, n: nat)
    requires n <= |lines| && GivesNewKeys(read)
    ensures Tracks(read, lines, n, ReadLines(read, lines, n))
    ensures Knows(ReadLines(read, lines, n).entries, n, ReadLines(read, lines, n).seen)
  {
    if n > 0 {
      var p := ReadLines(read, lines, n - 1);
      ReadLinesTrack(read, lines, n - 1);
      var line := read(lines[n - 1], p.seen);
      NoteLeaves(p, line, n);
      NoteTracks(read, lines, n, p, line);
    }
  }

  lemma NoteLeaves(p: Progress, line: Line, n: nat)
    requires n >= 1 && Knows(p.entries, n - 1, p.seen) && (line.Good? ==> line.key !in p.seen)
    requires (forall e :: e in p.entries ==> e.lineNumber < n) && (forall e :: e in p.errors ==> e.lineNumber < n)
    ensures Leaves(line, n, Note(p, line, n)) && Knows(Note(p, line, n).entries, n, Note(p, line, n).seen)
    ensures Knows(Note(p, line, n).entries, n - 1, p.seen)
  {
    var q := Note(p, line, n);
    match line
    case Skipped =>
    case Bad(problem) => assert q.errors[|p.errors|] == ParseError(n, problem);
    case Good(key, value, note) =>
      var e := Entry(key, value, note, n);
      assert q.entries[|p.entries|] == e && forall x :: x in q.entries <==> x in p.entries || x == e;
  }

  /** Of q: what p has, and otherwise line n only. */
  ghost predicate Extends(p: Progress, q: Progress, n: nat) {
    && (forall e :: e in p.entries ==> e in q.entries) && (forall e :: e in p.errors ==> e in q.errors)
    && (forall e :: e in q.entries ==> e in p.entries || e.lineNumber == n)
    && (forall e :: e in q.errors ==> e in p.errors || e.lineNumber == n)
  }

  lemma NoteExtends(p: Progress, line: Line, n: nat)
    ensures Extends(p, Note(p, line, n), n)
  {
  }

  lemma NoteTracks(read: Reader, lines: seq<string>, n: nat, p: Progress, line: Line)
    requires 1 <= n <= |lines| && Tracks(read, lines, n - 1, p) && line == read(lines[n - 1], p.seen)
    requires Leaves(line, n, Note(p, line, n)) && Knows(Note(p, line, n).entries, n - 1, p.seen)
    ensures Tracks(read, lines, n, Note(p, line, n))
  {
    NoteInOrder(p, line, n);
    forall k | 0 <= k < n ensures IsAccounted(read, lines, k, Note(p, line, n)) {
      if k < n - 1 {
        NoteExtends(p, line, n);
        StillAccounted(read, lines, k, p, Note(p, line, n), n);
      }
    }
  }

  lemma NoteInOrder(p: Progress, line: Line, n: nat)
    requires n >= 1 && AreInOrder(p, n - 1)
    ensures AreInOrder(Note(p, line, n), n)
  {
    assert forall i :: 0 <= i < |p.entries| ==> p.entries[i] in p.entries;
    assert forall i :: 0 <= i < |p.errors| ==> p.errors[i] in p.errors;
  }

  lemma StillAccounted(read: Reader, lines: seq<string>, k: nat, p: Progress, q: Progress, n: nat)
    requires k + 1 < n <= |lines| && IsAccounted(read, lines, k, p) && Extends(p, q, n)
    ensures IsAccounted(read, lines, k, q)
  {
    var seen :| Knows(p.entries, k, seen) && Leaves(read(lines[k], seen), k + 1, p);
    LeavesStill(read(lines[k], seen), k, seen, p, q, n);
  }

  lemma LeavesStill(line: Line, k: nat, seen: map<string, nat>, p: Progress, q: Progress, n: nat)
    requires k + 1 < n && Knows(p.entries, k, seen) && Leaves(line, k + 1, p)
    requires Extends(p, q, n)
    ensures Knows(q.entries, k, seen) && Leaves(line, k + 1, q)
  {
    forall key | key in seen ensures exists e :: e in q.entries && e.lineNumber <= k && e.key == key {
      var e :| e in p.entries && e.lineNumber <= k && e.key == key;
      assert e in q.entries;
    }
  }

  /** The outcome for a text: all errors of its lines, or else its entries, of which there must be some
      but not too many; a text that is too large is not looked at. */
  ghost predicate IsOutcome(text: string, result: Result) {
    if Utf8Bytes(text) > 2097152 then result == Err([ParseError(0, TooLarge)])
    else
      var lines := SplitLines(text);
      exists p :: Tracks(LineReader(), lines, |lines|, p) && Concludes(p, result)
  }

  predicate Concludes(p: Progress, result: Result) {
    if p.errors != [] then result == Err(p.errors)
    else if p.entries == [] then result == Err([ParseError(0, NothingToImport)])
    else if |p.entries| > 200 then result == Err([ParseError(0, TooMany)])
    else result == Ok(p.entries)
  }

  lemma ParseIsOutcome(text: string)
    ensures IsOutcome(text, Parse(text))
  {
    var lines := SplitLines(text);
    forall rawLine, seen | LineReader()(rawLine, seen).Good? ensures LineReader()(rawLine, seen).key !in seen {
      GoodKeyIsNew(rawLine, seen);
    }
    ReadLinesTrack(LineReader(), lines, |lines|);
    assert Concludes(ReadLines(LineReader(), lines, |lines|), Parse(text)) || Utf8Bytes(text) > 2097152;
  }

  lemma GoodKeyIsNew(rawLine: string, seen: map<string, nat>)
    requires ReadLine(rawLine, seen).Good?
    ensures ReadLine(rawLine, seen).key !in seen
  {
    var assignment := Assignment(Trim(rawLine));
    AssignmentIsValue(assignment, IndexOf(assignment, '='), seen);
  }
}
