/** Splitting a sandbox layer file into logical instructions across continuation lines. */
module SandboxLines {
  import opened JsText

  const MAX_LAYER_BYTES := 128 * 1024

  datatype Instruction = Instruction(text: string, startLine: nat, endLine: nat)

  datatype Problem =
    | NulByte | FileTooLarge | SecretLike | SyntaxDirective | Heredoc | InstructionTooLarge | Unterminated

  datatype Outcome = Ok(instructions: seq<Instruction>) | Err(problem: Problem, line: nat)

  /** The token patterns. */
  datatype Patterns = Patterns(secret: string -> bool, syntaxDirective: string -> bool, heredoc: string -> bool)

  // ---- Lines

  function NormalizeLineEnds(text: string): string {
    if text == "" then ""
    else if |text| >= 2 && text[0] == '\r' && text[1] == '\n' then "\n" + NormalizeLineEnds(text[2..])
    else [text[0]] + NormalizeLineEnds(text[1..])
  }

  function SplitAtLineFeeds(text: string): (lines: seq<string>)
    ensures lines != []
    decreases |text|
  {
    var i := IndexOf(text, '\n');
    if i < 0 then [text] else [text[..i]] + SplitAtLineFeeds(text[i + 1..])
  }

  function RawLines(text: string): seq<string> {
    var lines := SplitAtLineFeeds(NormalizeLineEnds(text));
    if lines[|lines| - 1] == "" then lines[..|lines| - 1] else lines
  }

  predicate Continued(line: string) {
    var t := TrimEnd(line);
    t != "" && t[|t| - 1] == '\\'
  }

  /** The text a line contributes: without its continuation backslash, trimmed. */
  function Piece(line: string): string {
    if Continued(line) then Trim(TrimEnd(line)[..|TrimEnd(line)| - 1]) else Trim(line)
  }

  predicate BlankOrComment(line: string) {
    Trim(line) == "" || Trim(line)[0] == '#'
  }

  /** A line with what the scan looks at. */
  datatype Line = Line(raw: string, blankOrComment: bool, continued: bool, piece: string)

  function Examine(raw: string): Line { Line(raw, BlankOrComment(raw), Continued(raw), Piece(raw)) }

  /** A line that is neither blank nor a comment but contributes nothing is a lone backslash. */
  predicate Sound(line: Line) { line.piece == "" && !line.blankOrComment ==> line.continued }

  lemma ExamineSound(raw: string)
    ensures Sound(Examine(raw))
  {
  }

  function Lines(text: string): seq<Line> {
    var raw := RawLines(text);
    seq(|raw|, i requires 0 <= i < |raw| => Examine(raw[i]))
  }

  /** A line that may lie outside every instruction. */
  predicate Skippable(line: Line) {
    line.blankOrComment || (line.continued && line.piece == "")
  }

  // ---- The scan

  datatype Scan = Scan(done: seq<Instruction>, current: string, startLine: nat) | Stopped(problem: Problem, line: nat)

  function Extend(current: string, piece: string): string {
    current + (if current == "" then "" else " ") + piece
  }

  function ReadLine(patterns: Patterns, s: Scan, line: Line, lineNumber: nat): Scan
    requires s.Scan?
  {
    if s.current == "" && line.blankOrComment then
      if patterns.syntaxDirective(Trim(line.raw)) then Stopped(SyntaxDirective, lineNumber) else s
    else if patterns.heredoc(line.raw) then Stopped(Heredoc, lineNumber)
    else
      var startLine := if s.current == "" then lineNumber else s.startLine;
      var current := Extend(s.current, line.piece);
      if Utf8Bytes(current) > MAX_LAYER_BYTES then Stopped(InstructionTooLarge, startLine)
      else if line.continued then Scan(s.done, current, startLine)
      else Scan(s.done + [Instruction(Trim(current), startLine, lineNumber)], "", 0)
  }

  function ScanLines(patterns: Patterns, lines: seq<Line>, n: nat): Scan
    requires n <= |lines|
  {
    if n == 0 then Scan([], "", 0)
    else
      var s := ScanLines(patterns, lines, n - 1);
      if s.Stopped? then s else ReadLine(patterns, s, lines[n - 1], n)
  }

  function Split(patterns: Patterns, text: string): Outcome {
    if '\0' in text then Err(NulByte, 0)
    else if Utf8Bytes(text) > MAX_LAYER_BYTES then Err(FileTooLarge, 0)
    else if patterns.secret(text) then Err(SecretLike, 0)
    else
      var lines := Lines(text);
      match ScanLines(patterns, lines, |lines|)
      case Stopped(problem, line) => Err(problem, line)
      case Scan(done, current, startLine) => if current == "" then Ok(done) else Err(Unterminated, startLine)
  }

  lemma {:induction false} StoppedForGood(patterns: Patterns, lines: seq<Line>, n: nat, m: nat)
    requires n <= m <= |lines| && ScanLines(patterns, lines, n).Stopped?
    ensures ScanLines(patterns, lines, m) == ScanLines(patterns, lines, n)
  {
    if n < m {
      StoppedForGood(patterns, lines, n, m - 1);
    }
  }

  method SplitLogicalInstructions(patterns: Patterns, text: string) returns (outcome: Outcome)
    ensures outcome == Split(patterns, text)
    ensures IsOutcome(patterns, text, outcome)
  {
    SplitIsOutcome(patterns, text);
    if '\0' in text {
      return Err(NulByte, 0);
    }
    if Utf8Bytes(text) > MAX_LAYER_BYTES {
      return Err(FileTooLarge, 0);
    }
    if patterns.secret(text) {
      return Err(SecretLike, 0);
    }
    var rawLines := RawLines(text);
    ghost var lines := Lines(text);
    var s := Scan([], "", 0);
    for index := 0 to |rawLines|
      invariant s.Scan? && ScanLines(patterns, lines, index) == s
    {
      var next := ReadOneLine(patterns, s, rawLines[index], index + 1);
      assert lines[index] == Examine(rawLines[index]);
      assert next == ScanLines(patterns, lines, index + 1);
      if next.Stopped? {
        StoppedForGood(patterns, lines, index + 1, |lines|);
        return Err(next.problem, next.line);
      }
      s := next;
    }
    if s.current != "" {
      return Err(Unterminated, s.startLine);
    }
    return Ok(s.done);
  }

  /** One turn of the loop. */
  method ReadOneLine(patterns: Patterns, s: Scan, rawLine: string, lineNumber: nat) returns (next: Scan)
    requires s.Scan?
    ensures next == ReadLine(patterns, s, Examine(rawLine), lineNumber)
  {
    var result, current, startLine := s.done, s.current, s.startLine;
    if current == "" && BlankOrComment(rawLine) {
      if patterns.syntaxDirective(Trim(rawLine)) {
        return Stopped(SyntaxDirective, lineNumber);
      }
      return s;
    }
    if patterns.heredoc(rawLine) {
      return Stopped(Heredoc, lineNumber);
    }
    if current == "" {
      startLine := lineNumber;
    }
    current := Extend(current, Piece(rawLine));
    if Utf8Bytes(current) > MAX_LAYER_BYTES {
      return Stopped(InstructionTooLarge, startLine);
    }
    if !Continued(rawLine) {
      result := result + [Instruction(Trim(current), startLine, lineNumber)];
      current := "";
      startLine := 0;
    }
    next := Scan(result, current, startLine);
  }

  // ---- What the instructions cover

  function Pieces(lines: seq<Line>, from: nat, to: nat): seq<string>
    requires from <= to <= |lines|
  {
    seq(to - from, i requires 0 <= i < to - from => lines[from + i].piece)
  }

  /** Lines from..to carry the joined text, open with some, and each is continued. */
  ghost predicate Opened(lines: seq<Line>, from: nat, to: nat, text: string) {
    && from < to <= |lines|
    && !lines[from].blankOrComment && lines[from].piece != ""
    && text == Join(Pieces(lines, from, to), " ")
    && forall i :: from <= i < to - 1 ==> lines[i].continued
  }

  /** The instruction is exactly what its lines say: it opens with text, goes on through continued
      lines, ends with the first line that is not continued, and its text is the trimmed join of the
      pieces with single spaces. */
  ghost predicate Faithful(lines: seq<Line>, e: Instruction) {
    && 1 <= e.startLine <= e.endLine <= |lines|
    && (exists text :: Opened(lines, e.startLine - 1, e.endLine, text) && e.text == Trim(text))
    && !lines[e.endLine - 1].continued
  }

  predicate Covers(e: Instruction, i: nat) { e.startLine - 1 <= i < e.endLine }

  ghost predicate Covered(es: seq<Instruction>, i: nat) {
    exists k :: 0 <= k < |es| && Covers(es[k], i)
  }

  /** File order, with no line shared; limit bounds the last line used. */
  ghost predicate Ordered(es: seq<Instruction>, limit: nat) {
    && (forall k :: 0 <= k < |es| ==> es[k].endLine <= limit)
    && forall j, k :: 0 <= j < k < |es| ==> es[j].endLine < es[k].startLine
  }

  ghost predicate Accounted(lines: seq<Line>, n: nat, es: seq<Instruction>)
    requires n <= |lines|
  {
    forall i :: 0 <= i < n ==> Covered(es, i) || Skippable(lines[i])
  }

  /** The closed instructions account for the first m lines. */
  ghost predicate DoneInv(lines: seq<Line>, m: nat, done: seq<Instruction>)
    requires m <= |lines|
  {
    Ordered(done, m) && Accounted(lines, m, done) && forall k :: 0 <= k < |done| ==> Faithful(lines, done[k])
  }

  /** All lines before the open instruction, or all lines read, are accounted for. */
  ghost predicate ScanInv(lines: seq<Line>, n: nat, s: Scan)
    requires n <= |lines| && s.Scan?
  {
    var m := if s.current == "" then n else s.startLine - 1;
    && 0 <= m <= n
    && DoneInv(lines, m, s.done)
    && (s.current != "" ==> Opened(lines, m, n, s.current) && lines[n - 1].continued)
  }

  lemma OpenedGrows(lines: seq<Line>, from: nat, to: nat, text: string)
    requires Opened(lines, from, to, text) && text != "" && to < |lines| && lines[to - 1].continued
    ensures Opened(lines, from, to + 1, Extend(text, lines[to].piece)) && Extend(text, lines[to].piece) != ""
  {
    MoreText(lines, from, to);
  }

  lemma OpenedStarts(lines: seq<Line>, n: nat)
    requires n < |lines| && !lines[n].blankOrComment && lines[n].piece != ""
    ensures Opened(lines, n, n + 1, Extend("", lines[n].piece)) && Extend("", lines[n].piece) != ""
  {
    FirstText(lines, n);
  }

  lemma CoverMore(lines: seq<Line>, from: nat, to: nat, es: seq<Instruction>, e: Instruction)
    requires from < to <= |lines| && Ordered(es, from) && Accounted(lines, from, es)
    requires e.startLine == from + 1 && e.endLine == to
    ensures Ordered(es + [e], to) && Accounted(lines, to, es + [e])
  {
    var es' := es + [e];
    forall i | 0 <= i < to ensures Covered(es', i) || Skippable(lines[i]) {
      if i >= from {
        assert Covers(es'[|es|], i);
      } else if Covered(es, i) {
        var k :| 0 <= k < |es| && Covers(es[k], i);
        assert Covers(es'[k], i);
      }
    }
  }

  /** The scan after a line that joins the open instruction or opens one. */
  function Joined(s: Scan, line: Line, n: nat): Scan
    requires s.Scan?
  {
    var startLine, text := if s.current == "" then n else s.startLine, Extend(s.current, line.piece);
    if line.continued then Scan(s.done, text, startLine)
      else Scan(s.done + [Instruction(Trim(text), startLine, n)], "", 0)
  }

  lemma CloseKeepsInv(lines: seq<Line>, from: nat, n: nat, done: seq<Instruction>, text: string, e: Instruction)
    requires from < n <= |lines| && Opened(lines, from, n, text) && !lines[n - 1].continued
    requires e.text == Trim(text) && e.startLine == from + 1 && e.endLine == n
    requires DoneInv(lines, from, done)
    ensures ScanInv(lines, n, Scan(done + [e], "", 0))
  {
    CoverMore(lines, from, n, done, e);
    assert Opened(lines, e.startLine - 1, e.endLine, text);
    assert Faithful(lines, e);
  }

  lemma ContinueKeepsInv(lines: seq<Line>, from: nat, n: nat, done: seq<Instruction>, text: string)
    requires from < n <= |lines| && Opened(lines, from, n, text) && text != "" && lines[n - 1].continued
    requires DoneInv(lines, from, done)
    ensures ScanInv(lines, n, Scan(done, text, from + 1))
  {
  }

  /** Where the open instruction starts, if there is one; otherwise the number of lines read. */
  function OpenFrom(n: nat, s: Scan): int
    requires s.Scan?
  {
    if s.current == "" then n else s.startLine - 1
  }

  lemma JoinKeepsInv(lines: seq<Line>, n: nat, s: Scan)
    requires 1 <= n <= |lines| && s.Scan? && ScanInv(lines, n - 1, s)
    requires s.current == "" ==> !lines[n - 1].blankOrComment && lines[n - 1].piece != ""
    ensures ScanInv(lines, n, Joined(s, lines[n - 1], n))
  {
    var from, text := OpenFrom(n - 1, s), Extend(s.current, lines[n - 1].piece);
    var e := Instruction(Trim(text), from + 1, n);
    JoinOpens(lines, n, s);
    FinishJoin(lines, from, n, s.done, text, e);
    JoinedIs(s, lines[n - 1], n, e);
  }

  lemma JoinedIs(s: Scan, line: Line, n: nat, e: Instruction)
    requires n >= 1 && s.Scan? && OpenFrom(n - 1, s) >= 0
    requires e == Instruction(Trim(Extend(s.current, line.piece)), OpenFrom(n - 1, s) + 1, n)
    ensures Joined(s, line, n)
      == if line.continued then Scan(s.done, Extend(s.current, line.piece), OpenFrom(n - 1, s) + 1)
        else Scan(s.done + [e], "", 0)
  {
  }

  lemma FinishJoin(lines: seq<Line>, from: nat, n: nat, done: seq<Instruction>, text: string, e: Instruction)
    requires from < n <= |lines| && text != "" && Opened(lines, from, n, text) && DoneInv(lines, from, done)
    requires e.text == Trim(text) && e.startLine == from + 1 && e.endLine == n
    ensures ScanInv(lines, n, if lines[n - 1].continued then Scan(done, text, from + 1) else Scan(done + [e], "", 0))
  {
    if lines[n - 1].continued {
      ContinueKeepsInv(lines, from, n, done, text);
    } else {
      CloseKeepsInv(lines, from, n, done, text, e);
    }
  }

  /** With one more line the open text is still the join of its lines. */
  lemma JoinOpens(lines: seq<Line>, n: nat, s: Scan)
    requires 1 <= n <= |lines| && s.Scan? && ScanInv(lines, n - 1, s)
    requires s.current == "" ==> !lines[n - 1].blankOrComment && lines[n - 1].piece != ""
    ensures var text := Extend(s.current, lines[n - 1].piece);
      text != "" && OpenFrom(n - 1, s) >= 0 && Opened(lines, OpenFrom(n - 1, s), n, text)
        && DoneInv(lines, OpenFrom(n - 1, s), s.done)
  {
    if s.current == "" {
      OpenedStarts(lines, n - 1);
    } else {
      OpenedGrows(lines, s.startLine - 1, n - 1, s.current);
    }
  }

  lemma SkipKeepsInv(lines: seq<Line>, n: nat, s: Scan, startLine: nat)
    requires 1 <= n <= |lines| && s.Scan? && s.current == "" && ScanInv(lines, n - 1, s) && Skippable(lines[n - 1])
    ensures ScanInv(lines, n, Scan(s.done, "", startLine))
  {
  }

  lemma {:induction false} ScanKeepsInv(patterns: Patterns, lines: seq<Line>, n: nat)
    requires n <= |lines| && (forall i :: 0 <= i < |lines| ==> Sound(lines[i]))
    requires ScanLines(patterns, lines, n).Scan?
    ensures ScanInv(lines, n, ScanLines(patterns, lines, n))
  {
    if n > 0 {
      var s, line := ScanLines(patterns, lines, n - 1), lines[n - 1];
      ScanKeepsInv(patterns, lines, n - 1);
      if s.current == "" && (line.blankOrComment || line.piece == "") {
        assert Sound(line) && Extend("", "") == "";
        SkipKeepsInv(lines, n, s, ScanLines(patterns, lines, n).startLine);
      } else {
        JoinKeepsInv(lines, n, s);
        assert ScanLines(patterns, lines, n) == Joined(s, line, n);
      }
    }
  }

  /** The instructions are faithful to their lines, their line ranges are non-empty, disjoint and in file
      order, and every line outside them is blank, a comment or a lone continuation backslash. */
  ghost predicate Partition(lines: seq<Line>, es: seq<Instruction>) {
    Ordered(es, |lines|) && Accounted(lines, |lines|, es) && forall k :: 0 <= k < |es| ==> Faithful(lines, es[k])
  }

  /** When splitting succeeds the instructions are such a partition. */
  lemma InstructionsPartitionTheFile(patterns: Patterns, text: string)
    requires Split(patterns, text).Ok?
    ensures Partition(Lines(text), Split(patterns, text).instructions)
  {
    var lines, raw := Lines(text), RawLines(text);
    forall i | 0 <= i < |lines| ensures Sound(lines[i]) {
      ExamineSound(raw[i]);
    }
    ScanKeepsInv(patterns, lines, |lines|);
  }

  // ---- What the lines of a file are

  lemma {:induction false} NormalConcat(line: string, rest: string)
    requires '\n' !in line && (line == "" || line[|line| - 1] != '\r')
    ensures NormalizeLineEnds(line + rest) == line + NormalizeLineEnds(rest)
  {
    if line == "" {
      assert line + rest == rest;
    } else {
      NormalConcat(line[1..], rest);
      OneUnit(line[0], line[1..] + rest);
      assert line + rest == [line[0]] + (line[1..] + rest);
    }
  }

  lemma {:induction false} NormalLine(line: string)
    requires '\n' !in line
    ensures NormalizeLineEnds(line) == line
  {
    if line != "" {
      NormalLine(line[1..]);
      OneUnit(line[0], line[1..]);
      assert line == [line[0]] + line[1..];
    }
  }

  lemma {:induction false} NormalReturn(line: string, rest: string)
    requires '\n' !in line
    ensures NormalizeLineEnds(line + "\r\n" + rest) == line + "\n" + NormalizeLineEnds(rest)
  {
    if line == "" {
      assert ("\r\n" + rest)[2..] == rest && line + "\r\n" + rest == "\r\n" + rest;
    } else {
      var behind := line[1..] + "\r\n" + rest;
      NormalReturn(line[1..], rest);
      assert line[0] == '\r' ==> behind[0] != '\n';
      OneUnit(line[0], behind);
      assert line + "\r\n" + rest == [line[0]] + behind;
      assert line == [line[0]] + line[1..];
    }
  }

  lemma OneUnit(c: char, rest: string)
    ensures !(c == '\r' && rest != "" && rest[0] == '\n') ==>
      NormalizeLineEnds([c] + rest) == [c] + NormalizeLineEnds(rest)
  {
    assert ([c] + rest)[1..] == rest;
  }

  lemma SplitFirst(line: string, rest: string)
    requires '\n' !in line
    ensures SplitAtLineFeeds(line + "\n" + rest) == [line] + SplitAtLineFeeds(rest)
  {
    IndexOfFirst(line, '\n', rest);
    var text := line + "\n" + rest;
    assert text == line + ['\n'] + rest;
    assert text[..|line|] == line && text[|line| + 1..] == rest;
  }

  function DropLastBlank(lines: seq<string>): seq<string>
    requires lines != []
  {
    if lines[|lines| - 1] == "" then lines[..|lines| - 1] else lines
  }

  lemma DropBehind(line: string, lines: seq<string>)
    requires lines != []
    ensures DropLastBlank([line] + lines) == [line] + DropLastBlank(lines)
  {
  }

  /** The lines of a file: cut at every line feed, a carriage return before it going with it; the last one
      only if it is not empty. */
  lemma LinesAreCut(line: string, rest: string)
    requires '\n' !in line
    ensures RawLines(line) == if line == "" then [] else [line]
    ensures line == "" || line[|line| - 1] != '\r' ==> RawLines(line + "\n" + rest) == [line] + RawLines(rest)
    ensures RawLines(line + "\r\n" + rest) == [line] + RawLines(rest)
  {
    NormalLine(line);
    NormalReturn(line, rest);
    FirstIsCut(line + "\r\n" + rest, line, rest);
    if line == "" || line[|line| - 1] != '\r' {
      NormalFeed(line, rest);
      FirstIsCut(line + "\n" + rest, line, rest);
    }
  }

  lemma NormalFeed(line: string, rest: string)
    requires '\n' !in line && (line == "" || line[|line| - 1] != '\r')
    ensures NormalizeLineEnds(line + "\n" + rest) == line + "\n" + NormalizeLineEnds(rest)
  {
    NormalConcat(line, "\n" + rest);
    OneUnit('\n', rest);
    assert line + "\n" + rest == line + ("\n" + rest);
    assert line + ("\n" + NormalizeLineEnds(rest)) == line + "\n" + NormalizeLineEnds(rest);
  }

  lemma FirstIsCut(text: string, line: string, rest: string)
    requires '\n' !in line && NormalizeLineEnds(text) == line + "\n" + NormalizeLineEnds(rest)
    ensures RawLines(text) == [line] + RawLines(rest)
  {
    SplitFirst(line, NormalizeLineEnds(rest));
    DropBehind(line, SplitAtLineFeeds(NormalizeLineEnds(rest)));
  }

  /** A line goes on exactly when a backslash stands at its end, white space aside. */
  lemma ContinuedIff(raw: string)
    ensures Continued(raw) <==> exists front, spaces :: raw == front + "\\" + spaces && AllSpace(spaces)
  {
    if Continued(raw) {
      var spaces := TrimEndParts(raw);
      var t := TrimEnd(raw);
      assert raw == t[..|t| - 1] + "\\" + spaces;
    }
    if front, spaces :| raw == front + "\\" + spaces && AllSpace(spaces) {
      TrimEndUnique(front + "\\", spaces);
    }
  }

  /** What a line contributes: the text in front of the backslash, or all of it, trimmed. */
  lemma PieceIs(raw: string, front: string, spaces: string)
    requires AllSpace(spaces)
    ensures raw == front + "\\" + spaces ==> Piece(raw) == Trim(front)
    ensures !Continued(raw) ==> Piece(raw) == Trim(raw)
  {
    if raw == front + "\\" + spaces {
      TrimEndUnique(front + "\\", spaces);
      assert (front + "\\")[..|front|] == front;
    }
  }

  lemma BlankOrCommentIff(raw: string)
    ensures BlankOrComment(raw) <==>
      AllSpace(raw) || exists spaces, comment :: raw == spaces + "#" + comment && AllSpace(spaces)
  {
    TrimsToNothing(raw);
    var pre, post := TrimParts(raw);
    var t := Trim(raw);
    if t != "" && t[0] == '#' {
      assert raw == pre + "#" + (t[1..] + post);
    }
    if spaces, comment :| raw == spaces + "#" + comment && AllSpace(spaces) {
      CommentStarts(raw, spaces, comment);
    }
  }

  lemma CommentStarts(raw: string, spaces: string, comment: string)
    requires raw == spaces + "#" + comment && AllSpace(spaces)
    ensures Trim(raw) != "" && Trim(raw)[0] == '#'
  {
    var post := TrimEndParts("#" + comment);
    var front := TrimEnd("#" + comment);
    assert raw == spaces + ("#" + comment) && "#" + comment == front + post;
    assert !AllSpace("#" + comment) by {
      assert ("#" + comment)[0] == '#' && !IsSpace('#');
    }
    assert front == "" ==> "#" + comment == post;
    assert front[0] == (front + post)[0] == '#';
    assert raw == spaces + front + post;
    TrimUnique(spaces, front, post);
  }

  // ---- The outcome, line by line

  /** An instruction is open before line i + 1. */
  predicate IsOpen(lines: seq<Line>, i: nat)
    requires i <= |lines|
  {
    i > 0 && if IsOpen(lines, i - 1) then lines[i - 1].continued
             else !lines[i - 1].blankOrComment && lines[i - 1].continued && lines[i - 1].piece != ""
  }

  /** How many lines stand before the open instruction, or before line i + 1 when there is none. */
  function Begin(lines: seq<Line>, i: nat): (from: nat)
    requires i <= |lines|
    ensures from <= i
  {
    if IsOpen(lines, i) then Begin(lines, i - 1) else i
  }

  /** Line i + 1 is where reading stops, with this problem and line number. */
  ghost predicate StopsAt(patterns: Patterns, lines: seq<Line>, i: nat, problem: Problem, line: nat)
    requires i < |lines|
  {
    if !IsOpen(lines, i) && lines[i].blankOrComment then
      patterns.syntaxDirective(Trim(lines[i].raw)) && problem == SyntaxDirective && line == i + 1
    else if patterns.heredoc(lines[i].raw) then problem == Heredoc && line == i + 1
    else
      && Utf8Bytes(Join(Pieces(lines, Begin(lines, i), i + 1), " ")) > 131072
      && problem == InstructionTooLarge && line == Begin(lines, i) + 1
  }

  ghost predicate Passes(patterns: Patterns, lines: seq<Line>, i: nat)
    requires i < |lines|
  {
    forall problem, line :: !StopsAt(patterns, lines, i, problem, line)
  }

  ghost predicate AllPass(patterns: Patterns, lines: seq<Line>, n: nat)
    requires n <= |lines|
  {
    forall i :: 0 <= i < n ==> Passes(patterns, lines, i)
  }

  /** The first line that stops the reading decides; without one an instruction still open at the end does. */
  ghost predicate IsOutcome(patterns: Patterns, text: string, outcome: Outcome) {
    if '\0' in text then outcome == Err(NulByte, 0)
    else if Utf8Bytes(text) > 131072 then outcome == Err(FileTooLarge, 0)
    else if patterns.secret(text) then outcome == Err(SecretLike, 0)
    else
      var lines := Lines(text);
      match outcome
      case Ok(es) =>
        Partition(lines, es) && !IsOpen(lines, |lines|) && AllPass(patterns, lines, |lines|)
      case Err(problem, line) =>
        || (exists n ::
              0 <= n < |lines| && StopsAt(patterns, lines, n, problem, line) && AllPass(patterns, lines, n))
        || (problem == Unterminated && IsOpen(lines, |lines|) && line == Begin(lines, |lines|) + 1
            && AllPass(patterns, lines, |lines|))
  }

  /** The scan's variables say which instruction is open and what it says so far. */
  ghost predicate Tells(lines: seq<Line>, n: nat, s: Scan)
    requires n <= |lines| && s.Scan?
  {
    && (s.current != "" <==> IsOpen(lines, n))
    && (IsOpen(lines, n) ==>
          s.startLine == Begin(lines, n) + 1 && s.current == Join(Pieces(lines, Begin(lines, n), n), " "))
  }

  /** The open text with one more line. */
  lemma JoinedText(lines: seq<Line>, n: nat, s: Scan)
    requires n < |lines| && s.Scan? && Tells(lines, n, s)
    ensures Extend(s.current, lines[n].piece) == Join(Pieces(lines, Begin(lines, n), n + 1), " ")
  {
    if IsOpen(lines, n) {
      MoreText(lines, Begin(lines, n), n);
    } else {
      FirstText(lines, n);
    }
  }

  lemma MoreText(lines: seq<Line>, from: nat, n: nat)
    requires from < n < |lines|
    ensures Join(Pieces(lines, from, n + 1), " ") == Join(Pieces(lines, from, n), " ") + " " + lines[n].piece
  {
    JoinSnoc(Pieces(lines, from, n), lines[n].piece, " ");
    assert Pieces(lines, from, n + 1) == Pieces(lines, from, n) + [lines[n].piece];
  }

  lemma FirstText(lines: seq<Line>, n: nat)
    requires n < |lines|
    ensures Join(Pieces(lines, n, n + 1), " ") == lines[n].piece == Extend("", lines[n].piece)
  {
    assert Pieces(lines, n, n + 1) == [lines[n].piece];
    assert "" + "" + lines[n].piece == lines[n].piece;
  }

  lemma NextTells(patterns: Patterns, lines: seq<Line>, n: nat, s: Scan)
    requires n < |lines| && s.Scan? && Tells(lines, n, s) && Sound(lines[n])
    ensures ReadLine(patterns, s, lines[n], n + 1).Scan? ==> Tells(lines, n + 1, ReadLine(patterns, s, lines[n], n + 1))
    ensures forall problem, line ::
      ReadLine(patterns, s, lines[n], n + 1) == Stopped(problem, line) <==> StopsAt(patterns, lines, n, problem, line)
  {
    JoinedText(lines, n, s);
  }

  lemma NextPasses(patterns: Patterns, lines: seq<Line>, n: nat, s: Scan)
    requires n < |lines| && s.Scan? && Tells(lines, n, s) && Sound(lines[n])
    requires ReadLine(patterns, s, lines[n], n + 1).Scan?
    ensures Tells(lines, n + 1, ReadLine(patterns, s, lines[n], n + 1)) && Passes(patterns, lines, n)
  {
    NextTells(patterns, lines, n, s);
  }

  predicate AllSound(lines: seq<Line>) {
    forall i :: 0 <= i < |lines| ==> Sound(lines[i])
  }

  /** What holds at the start and is kept by every line holds as long as the scan goes on. */
  lemma {:induction false} ScanKeeps(patterns: Patterns, lines: seq<Line>, n: nat, holds: (nat, Scan) -> bool)
    requires n <= |lines| && holds(0, Scan([], "", 0)) && ScanLines(patterns, lines, n).Scan?
    requires forall i: nat, s: Scan ::
      i < |lines| && s.Scan? && holds(i, s) && ReadLine(patterns, s, lines[i], i + 1).Scan?
      ==> holds(i + 1, ReadLine(patterns, s, lines[i], i + 1))
    ensures holds(n, ScanLines(patterns, lines, n))
  {
    if n > 0 {
      ScanKeeps(patterns, lines, n - 1, holds);
    }
  }

  ghost predicate TellsAll(patterns: Patterns, lines: seq<Line>, n: nat, s: Scan) {
    n <= |lines| && s.Scan? && Tells(lines, n, s) && AllPass(patterns, lines, n)
  }

  lemma NextTellsAll(patterns: Patterns, lines: seq<Line>, n: nat, s: Scan)
    requires n < |lines| && AllSound(lines) && TellsAll(patterns, lines, n, s)
    requires ReadLine(patterns, s, lines[n], n + 1).Scan?
    ensures TellsAll(patterns, lines, n + 1, ReadLine(patterns, s, lines[n], n + 1))
  {
    assert Sound(lines[n]);
    NextPasses(patterns, lines, n, s);
  }

  lemma ScanTells(patterns: Patterns, lines: seq<Line>, n: nat)
    requires n <= |lines| && AllSound(lines) && ScanLines(patterns, lines, n).Scan?
    ensures Tells(lines, n, ScanLines(patterns, lines, n)) && AllPass(patterns, lines, n)
  {
    var holds := (i: nat, s: Scan) => TellsAll(patterns, lines, i, s);
    forall i: nat, s: Scan |
      i < |lines| && s.Scan? && holds(i, s) && ReadLine(patterns, s, lines[i], i + 1).Scan?
      ensures holds(i + 1, ReadLine(patterns, s, lines[i], i + 1))
    {
      NextTellsAll(patterns, lines, i, s);
    }
    ScanKeeps(patterns, lines, n, holds);
  }

  /** A scan that has stopped did so at a first line. */
  lemma {:induction false} StoppedAt(patterns: Patterns, lines: seq<Line>, m: nat) returns (n: nat)
    requires m <= |lines| && AllSound(lines)
    requires ScanLines(patterns, lines, m).Stopped?
    ensures n < m && AllPass(patterns, lines, n)
    ensures var s := ScanLines(patterns, lines, m); StopsAt(patterns, lines, n, s.problem, s.line)
  {
    var s := ScanLines(patterns, lines, m - 1);
    if s.Stopped? {
      n := StoppedAt(patterns, lines, m - 1);
    } else {
      n := m - 1;
      ScanTells(patterns, lines, n);
      NextTells(patterns, lines, n, s);
    }
  }

  lemma SplitIsOutcome(patterns: Patterns, text: string)
    ensures IsOutcome(patterns, text, Split(patterns, text))
  {
    if '\0' !in text && Utf8Bytes(text) <= 131072 && !patterns.secret(text) {
      var lines, raw := Lines(text), RawLines(text);
      forall i | 0 <= i < |lines| ensures Sound(lines[i]) {
        ExamineSound(raw[i]);
      }
      var s := ScanLines(patterns, lines, |lines|);
      if s.Stopped? {
        var n := StoppedAt(patterns, lines, |lines|);
      } else {
        ScanTells(patterns, lines, |lines|);
        if s.current == "" {
          InstructionsPartitionTheFile(patterns, text);
        }
      }
    }
  }
}
