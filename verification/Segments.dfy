/** The quote-aware command splitter shared by the check classifier and the transcript projector. */
module Segments {
  import opened JsText
  import opened Quotes

  datatype Mode = Plain | InSingle | InDouble

  /** The scanner's quoting state after one more character. */
  function Next(mode: Mode, ch: char): Mode {
    match mode
    case InSingle => if ch == '\'' then Plain else InSingle
    case InDouble => if ch == '"' then Plain else InDouble
    case Plain => if ch == '\'' then InSingle else if ch == '"' then InDouble else Plain
  }

  function After(mode: Mode, s: string): Mode
    decreases |s|
  {
    if s == "" then mode else After(Next(mode, s[0]), s[1..])
  }

  /** How many characters the separator at the head of rest takes; 0 when there is none. */
  function SeparatorLength(mode: Mode, rest: string): (n: nat)
    requires rest != ""
    ensures n <= |rest|
  {
    if mode != Plain then 0
    else if (rest[0] == '&' || rest[0] == '|') && |rest| > 1 && rest[1] == rest[0] then 2
    else if rest[0] == '|' || rest[0] == ';' then 1
    else 0
  }

  /** The untrimmed segments of the text still to be read, the first of them begun by current. */
  function Scan(current: string, mode: Mode, rest: string): (raw: seq<string>)
    ensures |raw| >= 1
    decreases |rest|
  {
    if rest == "" then [current]
    else
      var n := SeparatorLength(mode, rest);
      if n > 0 then [current] + Scan("", Plain, rest[n..])
      else Scan(current + [rest[0]], Next(mode, rest[0]), rest[1..])
  }

  function Clean(raw: seq<string>): seq<string> {
    if raw == [] then []
    else (if Trim(raw[0]) == "" then [] else [Trim(raw[0])]) + Clean(raw[1..])
  }

  function Split(command: string): seq<string> {
    Clean(Scan("", Plain, command))
  }

  method SplitTopLevelSegments(command: string) returns (cleaned: seq<string>)
    ensures cleaned == Split(command) && IsSplit(command, cleaned)
  {
    var segments: seq<string> := [];
    var current := "";
    var inSingle, inDouble := false, false;
    var i := 0;
    while i < |command|
      invariant 0 <= i <= |command| && !(inSingle && inDouble)
      invariant Scan("", Plain, command) == segments + Scan(current, ModeOf(inSingle, inDouble), command[i..])
    {
      ScanUnfold(command, i, ModeOf(inSingle, inDouble), current, segments);
      var n := SeparatorAt(command, i, inSingle, inDouble);
      if n > 0 {
        segments := segments + [current];
        current := "";
        i := i + n;
      } else {
        current := current + [command[i]];
        inSingle, inDouble := Toggle(inSingle, inDouble, command[i]);
        i := i + 1;
      }
    }
    segments := segments + [current];
    cleaned := Clean(segments);
    SplitIsCut(command);
  }

  /** Operators count outside quotations only, two characters first. */
  method SeparatorAt(command: string, i: nat, inSingle: bool, inDouble: bool) returns (n: nat)
    requires i < |command|
    ensures n == SeparatorLength(ModeOf(inSingle, inDouble), command[i..])
  {
    var ch := command[i];
    if inSingle || inDouble || ch == '\'' || ch == '"' {
      return 0;
    }
    if (ch == '&' || ch == '|') && i + 1 < |command| && command[i + 1] == ch {
      return 2;
    }
    return if ch == '|' || ch == ';' then 1 else 0;
  }

  /** A quotation mark opens a quotation outside of any, and closes its own. */
  method Toggle(inSingle: bool, inDouble: bool, ch: char) returns (inSingle': bool, inDouble': bool)
    requires !(inSingle && inDouble)
    ensures !(inSingle' && inDouble') && ModeOf(inSingle', inDouble') == Next(ModeOf(inSingle, inDouble), ch)
  {
    inSingle', inDouble' := inSingle, inDouble;
    if inSingle {
      inSingle' := ch != '\'';
    } else if inDouble {
      inDouble' := ch != '"';
    } else if ch == '\'' {
      inSingle' := true;
    } else if ch == '"' {
      inDouble' := true;
    }
  }

  function ModeOf(inSingle: bool, inDouble: bool): Mode {
    if inSingle then InSingle else if inDouble then InDouble else Plain
  }

  /** One turn of the loop, in terms of positions. */
  lemma ScanUnfold(command: string, i: nat, mode: Mode, current: string, done: seq<string>)
    requires i < |command|
    ensures var n := SeparatorLength(mode, command[i..]);
      && i + n <= |command|
      && done + Scan(current, mode, command[i..])
         == if n > 0 then (done + [current]) + Scan("", Plain, command[i + n..])
            else done + Scan(current + [command[i]], Next(mode, command[i]), command[i + 1..])
  {
    var rest := command[i..];
    var n := SeparatorLength(mode, rest);
    assert rest[n..] == command[i + n..] && rest[1..] == command[i + 1..];
    if n > 0 {
      assert done + ([current] + Scan("", Plain, rest[n..])) == (done + [current]) + Scan("", Plain, rest[n..]);
    }
  }

  // ---- Scanning one segment

  /** No separator is met in s when the scan starts in the given mode. */
  ghost predicate Atomic(mode: Mode, s: string) {
    Scan("", mode, s) == [s]
  }

  /** s ends in an ampersand the scanner would pair with a following one. */
  predicate Dangling(mode: Mode, s: string) {
    s != "" && s[|s| - 1] == '&' && After(mode, s) == Plain
  }

  predicate Pairs(mode: Mode, a: string, b: string) {
    Dangling(mode, a) && b != "" && b[0] == '&'
  }

  function Prepend(head: string, raw: seq<string>): seq<string>
    requires |raw| >= 1
  {
    [head + raw[0]] + raw[1..]
  }

  lemma {:induction false} ScanPrepend(current: string, mode: Mode, rest: string)
    ensures Scan(current, mode, rest) == Prepend(current, Scan("", mode, rest))
    decreases |rest|
  {
    if rest == "" {
      assert current + "" == current;
    } else if SeparatorLength(mode, rest) > 0 {
      assert current + "" == current;
    } else {
      ScanPrepend(current + [rest[0]], Next(mode, rest[0]), rest[1..]);
      ScanPrepend([rest[0]], Next(mode, rest[0]), rest[1..]);
      assert "" + [rest[0]] == [rest[0]];
      var h := Scan("", Next(mode, rest[0]), rest[1..])[0];
      assert current + [rest[0]] + h == current + ([rest[0]] + h);
    }
  }

  /** One ordinary character at the head of the text. */
  lemma ScanOrdinary(mode: Mode, rest: string)
    requires rest != "" && SeparatorLength(mode, rest) == 0
    ensures Scan("", mode, rest) == Prepend([rest[0]], Scan("", Next(mode, rest[0]), rest[1..]))
  {
    ScanPrepend([rest[0]], Next(mode, rest[0]), rest[1..]);
    assert "" + [rest[0]] == [rest[0]];
  }

  lemma {:induction false} AfterConcat(mode: Mode, a: string, b: string)
    ensures After(mode, a + b) == After(After(mode, a), b)
    decreases |a|
  {
    if a == "" {
      assert a + b == b;
    } else {
      assert (a + b)[1..] == a[1..] + b;
      AfterConcat(Next(mode, a[0]), a[1..], b);
    }
  }

  /** An atomic text has no separator at its head and stays atomic after its first character. */
  lemma AtomicTail(mode: Mode, s: string)
    requires s != "" && Atomic(mode, s)
    ensures SeparatorLength(mode, s) == 0 && Atomic(Next(mode, s[0]), s[1..])
  {
    var n := SeparatorLength(mode, s);
    assert n > 0 ==> |Scan("", mode, s)| == 1 + |Scan("", Plain, s[n..])|;
    ScanOrdinary(mode, s);
    var tail := Scan("", Next(mode, s[0]), s[1..]);
    assert Prepend([s[0]], tail)[0] == s;
    assert tail[0] == s[1..];
  }

  /** The compositional reading of the scanner: an atomic prefix becomes the head of the first
      segment of what follows, unless two ampersands meet at the seam. */
  lemma {:induction false} ScanAtomicPrefix(mode: Mode, a: string, b: string)
    requires Atomic(mode, a) && !Pairs(mode, a, b)
    ensures Scan("", mode, a + b) == Prepend(a, Scan("", After(mode, a), b))
    decreases |a|
  {
    if a == "" {
      assert a + b == b;
      assert a + Scan("", mode, b)[0] == Scan("", mode, b)[0];
    } else {
      AtomicTail(mode, a);
      var m, s := Next(mode, a[0]), a + b;
      assert s[1..] == a[1..] + b;
      ScanAtomicPrefix(m, a[1..], b);
      NoSeparatorAtSeam(mode, a, b);
      ScanOrdinary(mode, s);
      PrependTwice(a, Scan("", After(mode, a), b));
    }
  }

  lemma PrependTwice(a: string, raw: seq<string>)
    requires a != "" && raw != []
    ensures Prepend([a[0]], Prepend(a[1..], raw)) == Prepend(a, raw)
  {
    assert [a[0]] + (a[1..] + raw[0]) == a + raw[0];
  }

  lemma NoSeparatorAtSeam(mode: Mode, a: string, b: string)
    requires a != "" && Atomic(mode, a) && !Pairs(mode, a, b)
    ensures SeparatorLength(mode, a + b) == 0
  {
    AtomicTail(mode, a);
    if |a| == 1 && mode == Plain && a[0] == '&' {
      assert a == [a[0]] && After(mode, a) == After(Plain, a[1..]);
    }
  }

  lemma AtomicSnoc(mode: Mode, s: string, ch: char)
    requires Atomic(mode, s) && !Pairs(mode, s, [ch]) && SeparatorLength(After(mode, s), [ch]) == 0
    ensures Atomic(mode, s + [ch]) && After(mode, s + [ch]) == Next(After(mode, s), ch)
  {
    ScanAtomicPrefix(mode, s, [ch]);
    ScanOrdinary(After(mode, s), [ch]);
    assert [ch][1..] == "" && [ch] + "" == [ch];
    assert Scan("", After(mode, s), [ch]) == [[ch]];
    AfterConcat(mode, s, [ch]);
    assert Next(After(mode, s), ch) == After(Next(After(mode, s), ch), [ch][1..]);
  }

  lemma {:induction false} AtomicPrefix(mode: Mode, a: string, b: string)
    requires Atomic(mode, a + b)
    ensures Atomic(mode, a)
    decreases |a|
  {
    if a != "" {
      var s := a + b;
      AtomicTail(mode, s);
      assert s[1..] == a[1..] + b;
      AtomicPrefix(Next(mode, a[0]), a[1..], b);
      assert |a| > 1 ==> s[1] == a[1];
      ScanOrdinary(mode, a);
      assert [a[0]] + a[1..] == a;
    }
  }

  lemma {:induction false} AtomicDropSpaces(pre: string, s: string)
    requires AllSpace(pre) && Atomic(Plain, pre + s)
    ensures Atomic(Plain, s) && After(Plain, s) == After(Plain, pre + s)
  {
    if pre == "" {
      assert pre + s == s;
    } else {
      AtomicTail(Plain, pre + s);
      assert (pre + s)[1..] == pre[1..] + s;
      AtomicDropSpaces(pre[1..], s);
    }
  }

  lemma {:induction false} SpacesKeepMode(mode: Mode, spaces: string)
    requires AllSpace(spaces)
    ensures After(mode, spaces) == mode
  {
    if spaces != "" {
      SpacesKeepMode(mode, spaces[1..]);
    }
  }

  lemma AtomicMiddle(pre: string, s: string, post: string)
    requires AllSpace(pre) && AllSpace(post) && Atomic(Plain, pre + (s + post))
    ensures Atomic(Plain, s) && After(Plain, s) == After(Plain, pre + (s + post))
  {
    AtomicDropSpaces(pre, s + post);
    AtomicPrefix(Plain, s, post);
    AfterConcat(Plain, s, post);
    SpacesKeepMode(After(Plain, s), post);
  }

  lemma AtomicTrim(s: string)
    requires Atomic(Plain, s)
    ensures Atomic(Plain, Trim(s)) && After(Plain, Trim(s)) == After(Plain, s)
  {
    var pre, post := TrimParts(s);
    assert s == pre + (Trim(s) + post);
    AtomicMiddle(pre, Trim(s), post);
  }

  // ---- What the splitter returns

  /** Every part splits no further, and only the last may end inside a quotation. */
  ghost predicate WellSplit(parts: seq<string>) {
    parts == [] || (Atomic(Plain, parts[0]) && (|parts| > 1 ==>
      After(Plain, parts[0]) == Plain) && WellSplit(parts[1..]))
  }

  ghost predicate Trimmed(parts: seq<string>) {
    parts == [] || (parts[0] != "" && Tight(parts[0]) && Trimmed(parts[1..]))
  }

  lemma {:induction false} ScanWellSplit(current: string, mode: Mode, rest: string)
    requires Atomic(Plain, current) && After(Plain, current) == mode && !Pairs(Plain, current, rest)
    ensures WellSplit(Scan(current, mode, rest))
    decreases |rest|
  {
    if rest != "" {
      var n := SeparatorLength(mode, rest);
      if n > 0 {
        ScanWellSplit("", Plain, rest[n..]);
      } else {
        AtomicSnoc(Plain, current, rest[0]);
        ScanWellSplit(current + [rest[0]], Next(mode, rest[0]), rest[1..]);
      }
    }
  }

  lemma {:induction false} CleanWellSplit(raw: seq<string>)
    requires WellSplit(raw)
    ensures WellSplit(Clean(raw)) && Trimmed(Clean(raw))
    ensures |raw| <= 1 ==> |Clean(raw)| <= 1
  {
    if raw != [] {
      AtomicTrim(raw[0]);
      TrimIsTight(raw[0]);
      var rest := Clean(raw[1..]);
      CleanWellSplit(raw[1..]);
      assert |raw| == 1 ==> rest == [];
      var t := Trim(raw[0]);
      if t != "" {
        assert ([t] + rest)[1..] == rest;
      } else {
        assert [] + rest == rest;
      }
    }
  }

  lemma CleanOne(part: string)
    ensures Clean([part]) == if Trim(part) == "" then [] else [Trim(part)]
  {
    assert [part][1..] == [];
    assert Clean([part][1..]) == [];
  }

  lemma SplitWellSplit(command: string)
    ensures WellSplit(Split(command)) && Trimmed(Split(command))
  {
    ScanWellSplit("", Plain, command);
    CleanWellSplit(Scan("", Plain, command));
  }

  lemma {:induction false} PartAt(parts: seq<string>, k: nat)
    requires WellSplit(parts) && Trimmed(parts) && k < |parts|
    ensures Atomic(Plain, parts[k]) && parts[k] != "" && Tight(parts[k])
    ensures k < |parts| - 1 ==> After(Plain, parts[k]) == Plain
  {
    if k > 0 {
      PartAt(parts[1..], k - 1);
    }
  }

  /** Each segment of a command is a command of one segment, itself, and all segments but the last
      have their quotations closed. */
  lemma SegmentSplitsToItself(command: string, k: nat)
    requires k < |Split(command)|
    ensures var part := Split(command)[k];
      part != "" && Trim(part) == part && Split(part) == [part]
        && (k < |Split(command)| - 1 ==> After(Plain, part) == Plain)
  {
    var part := Split(command)[k];
    SplitWellSplit(command);
    PartAt(Split(command), k);
    TrimTight(part);
    CleanOne(part);
  }

  /** The raw segments with the separators put back between them. */
  function Interleave(raw: seq<string>, separators: seq<string>): string
    requires |raw| == |separators| + 1
  {
    if separators == [] then raw[0] else raw[0] + separators[0] + Interleave(raw[1..], separators[1..])
  }

  lemma InterleaveCons(first: string, separator: string, raw: seq<string>, tail: seq<string>)
    requires |raw| == |tail| + 1
    ensures Interleave([first] + raw, [separator] + tail) == first + separator + Interleave(raw, tail)
  {
    assert ([first] + raw)[1..] == raw && ([separator] + tail)[1..] == tail;
  }

  predicate IsOperator(s: string) {
    s == "&&" || s == "||" || s == ";" || s == "|"
  }

  lemma SeparatorText(mode: Mode, rest: string)
    requires rest != "" && SeparatorLength(mode, rest) > 0
    ensures IsOperator(rest[..SeparatorLength(mode, rest)])
  {
    var n := SeparatorLength(mode, rest);
    assert n == 2 ==> rest[..n] == [rest[0], rest[0]];
    assert n == 1 ==> rest[..n] == [rest[0]];
  }

  /** Cutting loses nothing: the command is its raw segments with one operator, `&&`, `||`, `;` or
      `|`, between each two.  Together with ScanWellSplit: it is cut at every operator outside
      quotations and nowhere else. */
  lemma {:induction false} ScanConserves(current: string, mode: Mode, rest: string) returns (separators: seq<string>)
    ensures |Scan(current, mode, rest)| == |separators| + 1
    ensures Interleave(Scan(current, mode, rest), separators) == current + rest
    ensures forall s :: s in separators ==> IsOperator(s)
    decreases |rest|
  {
    if rest == "" {
      separators := [];
      assert current + rest == current;
    } else {
      var n := SeparatorLength(mode, rest);
      if n > 0 {
        var tail := ScanConserves("", Plain, rest[n..]);
        separators := [rest[..n]] + tail;
        SeparatorText(mode, rest);
        InterleaveCons(current, rest[..n], Scan("", Plain, rest[n..]), tail);
        Regroup(current, rest, n);
      } else {
        separators := ScanConserves(current + [rest[0]], Next(mode, rest[0]), rest[1..]);
        assert current + [rest[0]] + rest[1..] == current + rest;
      }
    }
  }

  lemma Regroup(current: string, rest: string, n: nat)
    requires n <= |rest|
    ensures current + rest[..n] + ("" + rest[n..]) == current + rest
  {
  }

  lemma CleanPrependSpaces(spaces: string, raw: seq<string>)
    requires |raw| >= 1 && AllSpace(spaces)
    ensures Clean(Prepend(spaces, raw)) == Clean(raw)
  {
    TrimIgnoresLeading(spaces, raw[0]);
    assert Prepend(spaces, raw)[1..] == raw[1..];
  }

  const SEPARATOR := " ; "

  lemma {:induction false} SplitJoin(parts: seq<string>)
    requires WellSplit(parts) && Trimmed(parts)
    ensures Split(Join(parts, SEPARATOR)) == parts
  {
    if |parts| == 0 {
      assert Trim("") == "";
    } else {
      var part := parts[0];
      TrimTight(part);
      if |parts| == 1 {
        CleanOne(part);
        assert parts == [part];
      } else {
        SplitJoin(parts[1..]);
        SplitOnePart(part, Join(parts[1..], SEPARATOR));
        assert parts == [part] + parts[1..];
      }
    }
  }

  lemma SplitOnePart(part: string, rest: string)
    requires Atomic(Plain, part) && After(Plain, part) == Plain && Tight(part) && part != ""
    ensures Split(part + SEPARATOR + rest) == [part] + Split(rest)
  {
    ScanPart(part, rest);
    CleanPrependSpaces(" ", Scan("", Plain, rest));
    TrimUnique("", part, " ");
    assert "" + part + " " == part + " ";
    CleanCons(part + " ", Prepend(" ", Scan("", Plain, rest)));
  }

  lemma CleanCons(first: string, raw: seq<string>)
    ensures Clean([first] + raw) == (if Trim(first) == "" then [] else [Trim(first)]) + Clean(raw)
  {
    assert ([first] + raw)[1..] == raw;
  }

  lemma ScanPart(part: string, rest: string)
    requires Atomic(Plain, part) && After(Plain, part) == Plain
    ensures Scan("", Plain, part + SEPARATOR + rest) == [part + " "] + Prepend(" ", Scan("", Plain, rest))
  {
    AtomicSnoc(Plain, part, ' ');
    var head, tail := part + [' '], "; " + rest;
    assert part + SEPARATOR + rest == head + tail;
    ScanAtomicPrefix(Plain, head, tail);
    ScanSemicolon(rest);
    assert head + "" == part + " ";
  }

  lemma ScanSemicolon(rest: string)
    ensures Scan("", Plain, "; " + rest) == [""] + Prepend(" ", Scan("", Plain, rest))
  {
    var tail, spaced := "; " + rest, " " + rest;
    assert tail[1..] == spaced && spaced[1..] == rest;
    assert Scan("", Plain, tail) == [""] + Scan("", Plain, spaced);
    ScanOrdinary(Plain, spaced);
  }

  /** Joining the segments of any command with semicolons and splitting again changes nothing. */
  lemma SplitIsAFixpoint(command: string)
    ensures Split(Join(Split(command), SEPARATOR)) == Split(command)
  {
    SplitWellSplit(command);
    SplitJoin(Split(command));
  }

  // ---- Quoted regions

  /** A quotation: q, any text without q, q. */
  ghost predicate IsQuotation(w: string) {
    && |w| >= 2 && (w[0] == '\'' || w[0] == '"')
    && w[|w| - 1] == w[0] && w[0] !in w[1..|w| - 1]
  }

  lemma {:induction false} InsideQuotation(mode: Mode, q: char, x: string)
    requires (mode == InSingle && q == '\'') || (mode == InDouble && q == '"')
    requires q !in x
    ensures Atomic(mode, x + [q]) && After(mode, x + [q]) == Plain
  {
    if x == "" {
      ScanOrdinary(mode, [q]);
      assert "" + [q] == [q] && [q][1..] == "" && [q] + "" == [q];
    } else {
      var s := x + [q];
      assert s[1..] == x[1..] + [q];
      InsideQuotation(mode, q, x[1..]);
      ScanOrdinary(mode, s);
      assert [s[0]] + s[1..] == s;
    }
  }

  lemma QuotationAtomic(w: string)
    requires IsQuotation(w)
    ensures Atomic(Plain, w) && After(Plain, w) == Plain
  {
    var q, x := w[0], w[1..|w| - 1];
    assert w[1..] == x + [q];
    InsideQuotation(Next(Plain, q), q, x);
    ScanOrdinary(Plain, w);
    assert [w[0]] + w[1..] == w;
  }

  /** w glued between the last segment of before and the first of after. */
  function Glue(before: seq<string>, w: string, after: seq<string>): seq<string>
    requires |before| >= 1 && |after| >= 1
  {
    before[..|before| - 1] + [before[|before| - 1] + w + after[0]] + after[1..]
  }

  lemma GluePrepend(head: string, before: seq<string>, w: string, after: seq<string>)
    requires |before| >= 1 && |after| >= 1
    ensures Prepend(head, Glue(before, w, after)) == Glue(Prepend(head, before), w, after)
  {
    if |before| == 1 {
      assert head + (before[0] + w + after[0]) == (head + before[0]) + w + after[0];
    }
  }

  lemma GlueCons(first: string, before: seq<string>, w: string, after: seq<string>)
    requires |before| >= 1 && |after| >= 1
    ensures [first] + Glue(before, w, after) == Glue([first] + before, w, after)
  {
    assert ([first] + before)[..|before|] == [first] + before[..|before| - 1];
  }

  /** Scanning past a quotation that opens outside any other: what precedes it is scanned as if the
      text ended there, what follows as if the text began there. */
  lemma {:induction false} ScanAroundQuotation(mode: Mode, a: string, w: string, b: string)
    requires IsQuotation(w) && After(mode, a) == Plain
    ensures Scan("", mode, a + (w + b)) == Glue(Scan("", mode, a), w, Scan("", Plain, b))
    decreases |a|
  {
    var after := Scan("", Plain, b);
    var s := a + (w + b);
    if a == "" {
      assert s == w + b;
      QuotationAtomic(w);
      ScanAtomicPrefix(Plain, w, b);
      assert "" + w + after[0] == w + after[0];
    } else {
      var n := SeparatorLength(mode, a);
      SeparatorKept(mode, a, w, b);
      if n > 0 {
        AfterSeparator(mode, a);
        ScanAroundQuotation(Plain, a[n..], w, b);
        SeparatorInFront(mode, a, w, b);
      } else {
        var m := Next(mode, a[0]);
        ScanAroundQuotation(m, a[1..], w, b);
        ScanOrdinary(mode, a);
        ScanOrdinary(mode, s);
        GluePrepend([a[0]], Scan("", m, a[1..]), w, after);
      }
    }
  }

  lemma SeparatorInFront(mode: Mode, a: string, w: string, b: string)
    requires a != "" && IsQuotation(w) && SeparatorLength(mode, a) > 0
    requires var rest := a[SeparatorLength(mode, a)..];
      Scan("", Plain, rest + (w + b)) == Glue(Scan("", Plain, rest), w, Scan("", Plain, b))
    ensures Scan("", mode, a + (w + b)) == Glue(Scan("", mode, a), w, Scan("", Plain, b))
  {
    SeparatorKept(mode, a, w, b);
    GlueCons("", Scan("", Plain, a[SeparatorLength(mode, a)..]), w, Scan("", Plain, b));
    ScanSeparator(mode, a);
    ScanSeparator(mode, a + (w + b));
  }

  lemma ScanSeparator(mode: Mode, rest: string)
    requires rest != "" && SeparatorLength(mode, rest) > 0
    ensures Scan("", mode, rest) == [""] + Scan("", Plain, rest[SeparatorLength(mode, rest)..])
  {
  }

  /** A quotation behind a text does not change what the text begins with. */
  lemma SeparatorKept(mode: Mode, a: string, w: string, b: string)
    requires a != "" && IsQuotation(w)
    ensures var s, n := a + (w + b), SeparatorLength(mode, a);
      SeparatorLength(mode, s) == n && s[0] == a[0] && s[n..] == a[n..] + (w + b) && s[1..] == a[1..] + (w + b)
  {
  }

  lemma AfterSeparator(mode: Mode, a: string)
    requires a != "" && SeparatorLength(mode, a) > 0
    ensures After(mode, a) == After(Plain, a[SeparatorLength(mode, a)..])
  {
    if SeparatorLength(mode, a) == 2 {
      assert a[1..][1..] == a[2..];
    }
  }

  lemma {:induction false} CleanConcat(x: seq<string>, y: seq<string>)
    ensures Clean(x + y) == Clean(x) + Clean(y)
  {
    if x == [] {
      assert x + y == y;
    } else {
      assert (x + y)[1..] == x[1..] + y;
      CleanConcat(x[1..], y);
    }
  }

  lemma TightAround(p: string, w: string, e: string)
    requires |w| >= 1 && Tight(w)
    requires (p == "" || !IsSpace(p[0])) && (e == "" || !IsSpace(e[|e| - 1]))
    ensures Tight(p + w + e)
  {
    var s := p + w + e;
    assert s[0] == (if p == "" then w[0] else p[0]);
    assert s[|s| - 1] == (if e == "" then w[|w| - 1] else e[|e| - 1]);
  }

  lemma TrimAroundQuotation(pre: string, w: string, post: string)
    requires IsQuotation(w)
    ensures Trim(pre + w + post) == TrimStart(pre) + w + TrimEnd(post) != ""
  {
    var spaces := TrimStartParts(pre);
    var trail := TrimEndParts(post);
    TightAround(TrimStart(pre), w, TrimEnd(post));
    TrimAround(spaces, TrimStart(pre), w, TrimEnd(post), trail);
  }

  lemma TrimAround(spaces: string, p: string, w: string, e: string, trail: string)
    requires AllSpace(spaces) && AllSpace(trail) && Tight(p + w + e)
    ensures Trim((spaces + p) + w + (e + trail)) == p + w + e
  {
    assert (spaces + p) + w + (e + trail) == spaces + (p + w + e) + trail;
    TrimUnique(spaces, p + w + e, trail);
  }

  lemma CleanMiddle(init: seq<string>, mid: string, rest: seq<string>)
    requires Trim(mid) != ""
    ensures Clean(init + [mid] + rest) == Clean(init) + [Trim(mid)] + Clean(rest)
  {
    CleanConcat(init + [mid], rest);
    CleanConcat(init, [mid]);
    CleanOne(mid);
  }

  /** The segments of a command with a closed quotation w, in terms of what stands before and after
      it only: the quotation's content is copied into one segment and decides nothing else. */
  lemma SplitAroundQuotation(a: string, w: string, b: string)
    requires IsQuotation(w) && After(Plain, a) == Plain
    ensures var before, after := Scan("", Plain, a), Scan("", Plain, b);
      Split(a + w + b)
      == Clean(before[..|before| - 1])
       + [TrimStart(before[|before| - 1]) + w + TrimEnd(after[0])]
       + Clean(after[1..])
  {
    var before, after := Scan("", Plain, a), Scan("", Plain, b);
    assert a + w + b == a + (w + b);
    ScanAroundQuotation(Plain, a, w, b);
    TrimAroundQuotation(before[|before| - 1], w, after[0]);
    CleanMiddle(before[..|before| - 1], before[|before| - 1] + w + after[0], after[1..]);
  }

  /** Replacing the content of a closed quotation changes the segment it lies in, by that
      replacement, and no other; in particular the number of segments stays. */
  lemma QuotedTextNeverSplits(a: string, w: string, w': string, b: string)
    requires IsQuotation(w) && IsQuotation(w') && After(Plain, a) == Plain
    ensures var parts, parts' := Split(a + w + b), Split(a + w' + b);
      |parts| == |parts'| &&
      exists k, p, r :: 0 <= k < |parts| && parts[k] == p + w + r && parts' == parts[k := p + w' + r]
  {
    SplitAroundQuotation(a, w, b);
    SplitAroundQuotation(a, w', b);
    var before, after := Scan("", Plain, a), Scan("", Plain, b);
    var p, r := TrimStart(before[|before| - 1]), TrimEnd(after[0]);
    OneReplaced(Clean(before[..|before| - 1]), p + w + r, p + w' + r, Clean(after[1..]));
  }

  lemma OneReplaced(init: seq<string>, mid: string, mid': string, rest: seq<string>)
    ensures var parts, parts', k := init + [mid] + rest, init + [mid'] + rest, |init|;
      |parts| == |parts'| && k < |parts| && parts[k] == mid && parts' == parts[k := mid']
  {
  }

  // ---- Where a command is cut, by positions

  /** Length of the operator written at position i. */
  function OperatorAt(s: string, i: nat): nat
    requires i < |s|
  {
    if i + 1 < |s| && (s[i..i + 2] == "&&" || s[i..i + 2] == "||") then 2
    else if s[i..i + 1] == ";" || s[i..i + 1] == "|" then 1
    else 0
  }

  /** An operator outside quotations, unless it is the second half of the one before. */
  ghost predicate IsCut(s: string, i: nat)
    requires i < |s|
  {
    && !Quoted(s, i) && OperatorAt(s, i) > 0
    && !(i > 0 && IsCut(s, i - 1) && OperatorAt(s, i - 1) == 2)
  }

  /** All cuts from position i on, in order. */
  ghost predicate AreCuts(s: string, i: nat, cuts: seq<nat>) {
    && (forall k :: 0 <= k < |cuts| ==> i <= cuts[k] < |s|)
    && (forall k, l :: 0 <= k < l < |cuts| ==> cuts[k] < cuts[l])
    && (forall j :: i <= j < |s| ==> (j in cuts <==> IsCut(s, j)))
  }

  /** The k-th piece between the cuts. */
  function Piece(s: string, cuts: seq<nat>, k: nat): string
    requires k <= |cuts| && forall j :: 0 <= j < |cuts| ==> cuts[j] < |s|
  {
    var start := if k == 0 then 0 else cuts[k - 1] + OperatorAt(s, cuts[k - 1]);
    var end := if k == |cuts| then |s| else cuts[k];
    if start <= end then s[start..end] else ""
  }

  /** The pieces that are not blank, trimmed and in order. */
  ghost predicate IsSplit(command: string, segments: seq<string>) {
    exists cuts, kept :: IsSplitAt(command, segments, cuts, kept)
  }

  ghost predicate IsSplitAt(command: string, segments: seq<string>, cuts: seq<nat>, kept: seq<nat>) {
    && AreCuts(command, 0, cuts) && |segments| == |kept|
    && (forall m, n :: 0 <= m < n < |kept| ==> kept[m] < kept[n])
    && (forall m :: 0 <= m < |kept| ==> kept[m] <= |cuts| && segments[m] == Trim(Piece(command, cuts, kept[m])))
    && (forall k :: 0 <= k <= |cuts| ==> (k in kept <==> !AllSpace(Piece(command, cuts, k))))
  }

  predicate IsMode(mode: Mode, q: char) {
    (mode == InSingle && q == '\'') || (mode == InDouble && q == '"')
  }

  lemma AfterSnoc(mode: Mode, s: string, ch: char)
    ensures After(mode, s + [ch]) == Next(After(mode, s), ch)
  {
    AfterConcat(mode, s, [ch]);
    assert After(After(mode, s), [ch]) == After(Next(After(mode, s), ch), [ch][1..]);
  }

  /** The scanner's mode at a position. */
  lemma {:induction false} ModeAt(s: string, i: nat)
    requires i <= |s|
    ensures After(Plain, s[..i]) == Plain <==> !Quoted(s, i)
    ensures forall p: nat :: Opens(s, i, p) ==> IsMode(After(Plain, s[..i]), s[p])
  {
    if i > 0 {
      var n := i - 1;
      ModeAt(s, n);
      assert s[..i] == s[..n] + [s[n]];
      AfterSnoc(Plain, s[..n], s[n]);
      forall p: nat
        ensures Opens(s, i, p) <==>
          if p == n then (s[n] == '\'' || s[n] == '"') && !Quoted(s, n) else Opens(s, n, p) && s[n] != s[p]
      {
        OpensOneMore(s, n, p);
      }
      if Quoted(s, n) {
        var p: nat :| Opens(s, n, p);
        forall q: nat | Opens(s, n, q) ensures q == p {
          OneOpener(s, n, p, q);
        }
        assert Opens(s, i, p) <==> s[n] != s[p];
      } else {
        assert Opens(s, i, n) <==> s[n] == '\'' || s[n] == '"';
      }
    }
  }

  /** The scanner finds the operator at a position exactly outside quotations. */
  lemma SeparatorIsOperator(s: string, i: nat)
    requires i < |s|
    ensures SeparatorLength(After(Plain, s[..i]), s[i..]) == if Quoted(s, i) then 0 else OperatorAt(s, i)
  {
    ModeAt(s, i);
    TwoAt(s, i);
  }

  lemma TwoAt(s: string, i: nat)
    requires i < |s|
    ensures s[i..i + 1] == [s[i]] && (i + 1 < |s| ==> s[i..i + 2] == [s[i], s[i + 1]] && s[i..][1] == s[i + 1])
  {
  }

  /** No quotation is opened by an operator. */
  lemma OperatorKeepsMode(s: string, i: nat)
    requires i < |s| && IsCut(s, i)
    ensures i + OperatorAt(s, i) <= |s| && After(Plain, s[..i + OperatorAt(s, i)]) == Plain
  {
    ModeAt(s, i);
    TwoAt(s, i);
    assert s[..i + 1] == s[..i] + [s[i]];
    AfterSnoc(Plain, s[..i], s[i]);
    if OperatorAt(s, i) == 2 {
      assert s[..i + 2] == s[..i + 1] + [s[i + 1]];
      AfterSnoc(Plain, s[..i + 1], s[i + 1]);
    }
  }

  /** Cuts behind a position, one behind the other, each within the text. */
  predicate Fit(s: string, start: nat, cuts: seq<nat>) {
    && start <= |s| && (forall j :: 0 <= j < |cuts| ==> start <= cuts[j] < |s|)
    && (forall j, l :: 0 <= j < l < |cuts| ==> cuts[j] + OperatorAt(s, cuts[j]) <= cuts[l])
    && (forall j :: 0 <= j < |cuts| ==> cuts[j] + OperatorAt(s, cuts[j]) <= |s|)
  }

  function PieceFrom(s: string, start: nat, cuts: seq<nat>, k: nat): string
    requires Fit(s, start, cuts) && k <= |cuts|
  {
    s[if k == 0 then start else cuts[k - 1] + OperatorAt(s, cuts[k - 1])..if k == |cuts| then |s| else cuts[k]]
  }

  function PiecesFrom(s: string, start: nat, cuts: seq<nat>): (pieces: seq<string>)
    requires Fit(s, start, cuts)
    ensures |pieces| == |cuts| + 1
    ensures forall k :: 0 <= k <= |cuts| ==> pieces[k] == PieceFrom(s, start, cuts, k)
  {
    seq(|cuts| + 1, k requires 0 <= k <= |cuts| => PieceFrom(s, start, cuts, k))
  }

  lemma PieceBehind(s: string, start: nat, i: nat, rest: seq<nat>, k: nat)
    requires start <= i < |s| && Fit(s, start, [i] + rest) && Fit(s, i + OperatorAt(s, i), rest) && k <= |rest|
    ensures PieceFrom(s, start, [i] + rest, k + 1) == PieceFrom(s, i + OperatorAt(s, i), rest, k)
  {
    var cuts := [i] + rest;
    assert cuts[k] == if k == 0 then i else rest[k - 1];
    assert k < |rest| ==> cuts[k + 1] == rest[k];
  }

  lemma FirstAndOthers<T>(all: seq<T>, first: T, others: seq<T>)
    requires |all| == |others| + 1 && all[0] == first && forall k :: 0 <= k < |others| ==> all[k + 1] == others[k]
    ensures all == [first] + others
  {
  }

  lemma PiecesCons(s: string, start: nat, i: nat, rest: seq<nat>)
    requires start <= i < |s| && Fit(s, start, [i] + rest) && Fit(s, i + OperatorAt(s, i), rest)
    ensures PiecesFrom(s, start, [i] + rest) == [s[start..i]] + PiecesFrom(s, i + OperatorAt(s, i), rest)
  {
    var all, others := PiecesFrom(s, start, [i] + rest), PiecesFrom(s, i + OperatorAt(s, i), rest);
    forall k | 0 <= k < |others| ensures all[k + 1] == others[k] {
      PieceBehind(s, start, i, rest, k);
    }
    FirstAndOthers(all, PieceFrom(s, start, [i] + rest, 0), others);
  }

  /** Cuts do not overlap. */
  lemma CutsFit(s: string, i: nat, cuts: seq<nat>)
    requires i <= |s| && AreCuts(s, i, cuts)
    ensures Fit(s, i, cuts)
  {
    forall j, l | 0 <= j < l < |cuts| ensures cuts[j] + OperatorAt(s, cuts[j]) <= cuts[l] {
      assert cuts[j] in cuts && cuts[l] in cuts;
      assert IsCut(s, cuts[j]) && IsCut(s, cuts[l]);
      assert cuts[l] == cuts[j] + 1 ==> IsCut(s, cuts[l] - 1);
    }
    forall j | 0 <= j < |cuts| ensures cuts[j] + OperatorAt(s, cuts[j]) <= |s| {
      assert cuts[j] in cuts;
      OperatorKeepsMode(s, cuts[j]);
    }
  }

  lemma FitFrom(s: string, b: nat, i: nat, cuts: seq<nat>)
    requires b <= i && Fit(s, i, cuts)
    ensures Fit(s, b, cuts)
  {
  }

  /** Scanning on from position i in a segment begun at b gives the pieces between the cuts. */
  ghost predicate Yields(s: string, b: nat, i: nat, cuts: seq<nat>)
    requires b <= i <= |s|
  {
    && AreCuts(s, i, cuts) && Fit(s, b, cuts)
    && Scan(s[b..i], After(Plain, s[..i]), s[i..]) == PiecesFrom(s, b, cuts)
  }

  /** The position is not the second of an operator. */
  ghost predicate IsFree(s: string, i: nat)
    requires i <= |s|
  {
    !(i > 0 && IsCut(s, i - 1) && OperatorAt(s, i - 1) == 2)
  }

  /** What holds at the end, and at a position if it holds where the next turn leaves off, holds at
      every position a turn can begin at. */
  lemma {:induction false} FromTheEnd(n: nat, free: nat -> bool, turn: (nat, nat) -> (nat, nat),
                                      holds: (nat, nat) -> bool, b: nat, i: nat)
    requires b <= i <= n && free(i)
    requires forall b: nat, i: nat :: b <= i < n && free(i) ==>
      var (b', i') := turn(b, i); b' <= i' && i < i' <= n && free(i') && (holds(b', i') ==> holds(b, i))
    requires forall b: nat :: b <= n ==> holds(b, n)
    ensures holds(b, i)
    decreases n - i
  {
    if i < n {
      var (b', i') := turn(b, i);
      FromTheEnd(n, free, turn, holds, b', i');
    }
  }

  ghost function Turn(s: string, b: nat, i: nat): (nat, nat)
    requires i < |s|
  {
    if IsCut(s, i) then (i + OperatorAt(s, i), i + OperatorAt(s, i)) else (b, i + 1)
  }

  lemma TurnYields(s: string, b: nat, i: nat)
    requires b <= i < |s| && IsFree(s, i)
    ensures var (b', i') := Turn(s, b, i);
      && b' <= i' && i < i' <= |s| && IsFree(s, i')
      && ((exists cuts :: Yields(s, b', i', cuts)) ==> exists cuts :: Yields(s, b, i, cuts))
  {
    var (b', i') := Turn(s, b, i);
    if IsCut(s, i) {
      SecondIsNoCut(s, i);
      if rest :| Yields(s, b', i', rest) {
        YieldsAtCut(s, b, i, rest);
      }
    } else if cuts :| Yields(s, b', i', cuts) {
      YieldsBefore(s, b, i, cuts);
    }
  }

  lemma ScanCuts(s: string) returns (cuts: seq<nat>)
    ensures Yields(s, 0, 0, cuts)
  {
    var free := (i: nat) => i <= |s| && IsFree(s, i);
    var turn := (b: nat, i: nat) => if i < |s| then Turn(s, b, i) else (b, i);
    var holds := (b: nat, i: nat) => b <= i <= |s| && exists cuts :: Yields(s, b, i, cuts);
    forall b: nat, i: nat | b <= i < |s| && free(i)
      ensures var (b', i') := turn(b, i);
        b' <= i' && i < i' <= |s| && free(i') && (holds(b', i') ==> holds(b, i))
    {
      TurnYields(s, b, i);
    }
    forall b: nat | b <= |s| ensures holds(b, |s|) {
      YieldsAtEnd(s, b);
    }
    FromTheEnd(|s|, free, turn, holds, 0, 0);
    cuts :| Yields(s, 0, 0, cuts);
  }

  lemma YieldsAtEnd(s: string, b: nat)
    requires b <= |s|
    ensures Yields(s, b, |s|, [])
  {
    assert s[b..|s|] == s[b..];
  }

  lemma YieldsAtCut(s: string, b: nat, i: nat, rest: seq<nat>)
    requires b <= i < |s| && IsFree(s, i) && IsCut(s, i) && i + OperatorAt(s, i) <= |s|
    requires Yields(s, i + OperatorAt(s, i), i + OperatorAt(s, i), rest)
    ensures Yields(s, b, i, [i] + rest)
  {
    var n, cuts := OperatorAt(s, i), [i] + rest;
    SeparatorIsOperator(s, i);
    OperatorKeepsMode(s, i);
    CutFirst(s, i, n, rest);
    CutsFit(s, i, cuts);
    FitFrom(s, b, i, cuts);
    ScanAtCut(s, b, i, n);
    PiecesCons(s, b, i, rest);
  }

  lemma YieldsBefore(s: string, b: nat, i: nat, cuts: seq<nat>)
    requires b <= i < |s| && IsFree(s, i) && !IsCut(s, i) && Yields(s, b, i + 1, cuts)
    ensures Yields(s, b, i, cuts)
  {
    SeparatorIsOperator(s, i);
    ScanPastOrdinary(s, b, i);
    NoCutAt(s, i, cuts);
  }

  lemma SecondIsNoCut(s: string, i: nat)
    requires i < |s| && IsCut(s, i)
    ensures i < i + OperatorAt(s, i) <= |s| && IsFree(s, i + OperatorAt(s, i))
  {
    OperatorKeepsMode(s, i);
  }

  lemma NoCutAt(s: string, i: nat, cuts: seq<nat>)
    requires i < |s| && !IsCut(s, i) && AreCuts(s, i + 1, cuts)
    ensures AreCuts(s, i, cuts)
  {
  }

  lemma ScanAtCut(s: string, b: nat, i: nat, n: nat)
    requires b <= i < |s| && n > 0 && n == SeparatorLength(After(Plain, s[..i]), s[i..]) && i + n <= |s|
    requires After(Plain, s[..i + n]) == Plain
    ensures Scan(s[b..i], After(Plain, s[..i]), s[i..])
      == [s[b..i]] + Scan(s[i + n..i + n], After(Plain, s[..i + n]), s[i + n..])
  {
    assert s[i..][n..] == s[i + n..] && s[i + n..i + n] == "";
  }

  lemma ScanPastOrdinary(s: string, b: nat, i: nat)
    requires b <= i < |s| && SeparatorLength(After(Plain, s[..i]), s[i..]) == 0
    ensures Scan(s[b..i], After(Plain, s[..i]), s[i..]) == Scan(s[b..i + 1], After(Plain, s[..i + 1]), s[i + 1..])
  {
    assert s[i..][1..] == s[i + 1..] && s[b..i] + [s[i]] == s[b..i + 1] && s[..i + 1] == s[..i] + [s[i]];
    AfterSnoc(Plain, s[..i], s[i]);
  }

  lemma CutFirst(s: string, i: nat, n: nat, rest: seq<nat>)
    requires i < |s| && IsCut(s, i) && n == OperatorAt(s, i) && i + n <= |s| && AreCuts(s, i + n, rest)
    ensures AreCuts(s, i, [i] + rest)
  {
    var cuts := [i] + rest;
    assert cuts[0] == i && forall k :: 0 < k < |cuts| ==> cuts[k] == rest[k - 1];
    forall j | i <= j < |s| ensures j in cuts <==> IsCut(s, j) {
      assert j == i + 1 && n == 2 ==> !IsCut(s, j);
      assert j in rest ==> j in cuts;
    }
  }

  /** The places of the texts that are not blank. */
  ghost predicate AreKept(raw: seq<string>, kept: seq<nat>) {
    && (forall m, n :: 0 <= m < n < |kept| ==> kept[m] < kept[n])
    && (forall m :: 0 <= m < |kept| ==> kept[m] < |raw|)
    && (forall k :: 0 <= k < |raw| ==> (k in kept <==> !AllSpace(raw[k])))
  }

  lemma {:induction false} CleanSnoc(raw: seq<string>, last: string)
    ensures Clean(raw + [last]) == Clean(raw) + if Trim(last) == "" then [] else [Trim(last)]
  {
    if raw == [] {
      CleanOne(last);
      assert [] + [last] == [last];
    } else {
      assert (raw + [last])[1..] == raw[1..] + [last];
      CleanSnoc(raw[1..], last);
    }
  }

  /** The texts that are left are those at the places that are kept. */
  ghost predicate Cleaned(raw: seq<string>, kept: seq<nat>, cleaned: seq<string>) {
    && AreKept(raw, kept) && |cleaned| == |kept|
    && forall m :: 0 <= m < |kept| ==> cleaned[m] == Trim(raw[kept[m]])
  }

  lemma {:induction false} CleanKeeps(raw: seq<string>) returns (kept: seq<nat>)
    ensures Cleaned(raw, kept, Clean(raw))
  {
    if raw == [] {
      kept := [];
    } else {
      var front, last := raw[..|raw| - 1], raw[|raw| - 1];
      assert raw == front + [last];
      var before := CleanKeeps(front);
      CleanedWith(front, before, last);
      kept := if AllSpace(last) then before else before + [|front|];
    }
  }

  lemma CleanedWith(raw: seq<string>, kept: seq<nat>, last: string)
    requires Cleaned(raw, kept, Clean(raw))
    ensures Cleaned(raw + [last], if AllSpace(last) then kept else kept + [|raw|], Clean(raw + [last]))
  {
    CleanSnoc(raw, last);
    TrimsToNothing(last);
    CleanedOneMore(raw, kept, Clean(raw), last);
  }

  lemma CleanedOneMore(raw: seq<string>, kept: seq<nat>, cleaned: seq<string>, last: string)
    requires Cleaned(raw, kept, cleaned)
    ensures AllSpace(last) ==> Cleaned(raw + [last], kept, cleaned)
    ensures !AllSpace(last) ==> Cleaned(raw + [last], kept + [|raw|], cleaned + [Trim(last)])
  {
    KeptOneMore(raw, kept, last);
    var more, places, texts := raw + [last], kept + [|raw|], cleaned + [Trim(last)];
    assert forall m :: 0 <= m < |kept| ==>
      places[m] == kept[m] && texts[m] == cleaned[m] && more[kept[m]] == raw[kept[m]];
    assert more[places[|kept|]] == last && texts[|kept|] == Trim(last);
  }

  lemma KeptOneMore(raw: seq<string>, kept: seq<nat>, last: string)
    requires AreKept(raw, kept)
    ensures AllSpace(last) ==> AreKept(raw + [last], kept)
    ensures !AllSpace(last) ==> AreKept(raw + [last], kept + [|raw|])
  {
    var more := kept + [|raw|];
    assert more[|kept|] == |raw| && forall m :: 0 <= m < |kept| ==> more[m] == kept[m] && kept[m] in more;
  }

  /** The segments of a command are what stands between its operators outside quotations. */
  lemma SplitIsCut(command: string)
    ensures IsSplit(command, Split(command))
  {
    var cuts := ScanCuts(command);
    assert command[0..0] == "" && command[..0] == "" && command[0..] == command;
    var raw := PiecesFrom(command, 0, cuts);
    var kept := CleanKeeps(raw);
    assert forall k :: 0 <= k <= |cuts| ==> raw[k] == PieceFrom(command, 0, cuts, k) == Piece(command, cuts, k);
    assert IsSplitAt(command, Split(command), cuts, kept);
  }
}
