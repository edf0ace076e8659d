/** The slash commands at the front of a prompt that name the skills to load. */
module SkillCommands {
  import opened JsText

  const MAX_NAME_CHARS := 80

  predicate IsAlphanumeric(c: char) {
    'A' <= c <= 'Z' || 'a' <= c <= 'z' || '0' <= c <= '9'
  }

  predicate IsNameChar(c: char) {
    IsAlphanumeric(c) || c == '_' || c == '.' || c == ':' || c == '-'
  }

  predicate IsName(name: string) {
    1 <= |name| <= MAX_NAME_CHARS && IsAlphanumeric(name[0]) && forall i :: 0 <= i < |name| ==> IsNameChar(name[i])
  }

  /** How many name characters the text begins with. */
  function NameRun(text: string): (n: nat)
    ensures n <= |text|
  {
    if text == "" || !IsNameChar(text[0]) then 0 else 1 + NameRun(text[1..])
  }

  /** The length of the name in the command at the front of the text; 0 when there is none.  A command
      is followed by white space or the end. */
  function CommandName(text: string): (n: nat)
    ensures n < |text| || n == 0
    ensures n > 0 ==> text[0] == '/'
  {
    if text == "" || text[0] != '/' then 0
    else
      var n := NameRun(text[1..]);
      if n == 0 || n > MAX_NAME_CHARS || !IsAlphanumeric(text[1]) then 0
      else if n + 1 < |text| && !IsSpace(text[n + 1]) then 0
      else n
  }

  function Add(skills: seq<string>, name: string): seq<string> {
    if name in skills then skills else skills + [name]
  }

  datatype Parsed = Parsed(skills: seq<string>, prompt: string)

  lemma {:induction false} TrimStartShortens(s: string)
    ensures |TrimStart(s)| <= |s|
  {
    if s != "" && IsSpace(s[0]) {
      TrimStartShortens(s[1..]);
    }
  }

  function Read(rest: string, skills: seq<string>): Parsed
    decreases |rest|
  {
    var n := CommandName(rest);
    if n == 0 then Parsed(skills, rest)
    else
      TrimStartShortens(rest[n + 1..]);
      Read(TrimStart(rest[n + 1..]), Add(skills, rest[1..n + 1]))
  }

  function Parse(input: string): Parsed {
    Read(TrimStart(input), [])
  }

  method SkipSpace(input: string, from: nat) returns (cursor: nat)
    requires from <= |input|
    ensures from <= cursor <= |input| && input[cursor..] == TrimStart(input[from..])
    ensures cursor < |input| ==> !IsSpace(input[cursor])
  {
    cursor := from;
    while cursor < |input| && IsSpace(input[cursor])
      invariant from <= cursor <= |input|
      invariant TrimStart(input[cursor..]) == TrimStart(input[from..])
    {
      assert input[cursor..][1..] == input[cursor + 1..];
      cursor := cursor + 1;
    }
  }

  /** The command at the cursor, if there is one, and the position behind the space after it. */
  method ReadCommand(input: string, cursor: nat, ghost rest: string) returns (found: bool, name: string, cursor': nat)
    requires cursor < |input| && rest == input[cursor..]
    ensures found <==> CommandName(rest) > 0
    ensures found ==> cursor < cursor' <= |input| && (cursor' < |input| ==> !IsSpace(input[cursor']))
    ensures found ==>
      name == rest[1..CommandName(rest) + 1] && input[cursor'..] == TrimStart(rest[CommandName(rest) + 1..])
  {
    var n := CommandName(input[cursor..]);
    found, name, cursor' := n > 0, "", cursor;
    if found {
      name := input[cursor..][1..n + 1];
      TailOfTail(input, cursor, n + 1);
      cursor' := SkipSpace(input, cursor + n + 1);
    }
  }

  method ParseLeadingSkillCommands(input: string) returns (result: Parsed)
    ensures result == Parse(input)
  {
    var cursor := SkipSpace(input, 0);
    ghost var rest := TrimStart(input);
    assert input[0..] == input;
    var skills: seq<string> := [];
    var more := true;
    while more && cursor < |input| && input[cursor] == '/'
      invariant cursor <= |input| && rest == input[cursor..] && (cursor < |input| ==> !IsSpace(input[cursor]))
      invariant Read(rest, skills) == Parse(input)
      invariant !more ==> CommandName(rest) == 0
      decreases |input| - cursor, more
    {
      var name, next;
      more, name, next := ReadCommand(input, cursor, rest);
      if more {
        ReadNext(rest, name, input[next..], skills);
        cursor, rest, skills := next, input[next..], Add(skills, name);
      }
    }
    ReadStops(rest, skills);
    result := Parsed(skills, TrimStart(input[cursor..]));
  }

  lemma ReadStops(rest: string, skills: seq<string>)
    requires (rest == "" || !IsSpace(rest[0])) && (rest == "" || rest[0] != '/' || CommandName(rest) == 0)
    ensures Read(rest, skills) == Parsed(skills, TrimStart(rest))
  {
  }

  lemma TailOfTail(s: string, i: nat, j: nat)
    requires i + j <= |s|
    ensures s[i..][j..] == s[i + j..]
  {
  }

  lemma ReadNext(rest: string, name: string, next: string, skills: seq<string>)
    requires CommandName(rest) > 0 && name == rest[1..CommandName(rest) + 1]
    requires next == TrimStart(rest[CommandName(rest) + 1..])
    ensures Read(rest, skills) == Read(next, Add(skills, name))
  {
  }

  // ---- Writing commands

  function Commands(names: seq<string>, gaps: seq<string>, prompt: string): string
    requires |names| == |gaps|
  {
    if names == [] then prompt else "/" + names[0] + gaps[0] + Commands(names[1..], gaps[1..], prompt)
  }

  predicate Distinct(names: seq<string>) {
    forall i, j :: 0 <= i < j < |names| ==> names[i] != names[j]
  }

  predicate AllNames(names: seq<string>) {
    forall i :: 0 <= i < |names| ==> IsName(names[i])
  }

  /** White space only, and some of it, except perhaps behind the last command when nothing follows. */
  predicate Separate(gaps: seq<string>, prompt: string) {
    forall i :: 0 <= i < |gaps| ==> AllSpace(gaps[i]) && (gaps[i] == "" ==> i == |gaps| - 1 && prompt == "")
  }

  /** What remains when the commands are taken off. */
  predicate IsRest(prompt: string) {
    (prompt == "" || !IsSpace(prompt[0])) && CommandName(prompt) == 0
  }

  function AddAll(skills: seq<string>, names: seq<string>): seq<string>
    decreases |names|
  {
    if names == [] then skills else AddAll(Add(skills, names[0]), names[1..])
  }

  lemma {:induction false} NameRunOf(name: string, rest: string)
    requires forall i :: 0 <= i < |name| ==> IsNameChar(name[i])
    requires rest == "" || !IsNameChar(rest[0])
    ensures NameRun(name + rest) == |name|
  {
    if name == "" {
      assert name + rest == rest;
    } else {
      assert (name + rest)[1..] == name[1..] + rest;
      NameRunOf(name[1..], rest);
    }
  }

  lemma {:induction false} NameRunIs(text: string)
    ensures forall i :: 0 <= i < NameRun(text) ==> IsNameChar(text[i])
  {
    if text != "" && IsNameChar(text[0]) {
      NameRunIs(text[1..]);
    }
  }

  /** A command in front of a gap, or of the end, is read whole. */
  lemma CommandIsRead(name: string, rest: string)
    requires IsName(name) && (rest == "" || IsSpace(rest[0]))
    ensures CommandName("/" + name + rest) == |name|
    ensures ("/" + name + rest)[1..|name| + 1] == name && ("/" + name + rest)[|name| + 1..] == rest
  {
    var text := "/" + name + rest;
    assert text[1..] == name + rest;
    assert rest != "" ==> !IsNameChar(rest[0]);
    NameRunOf(name, rest);
  }

  lemma GapIsSkipped(gap: string, rest: string)
    requires AllSpace(gap) && (rest == "" || !IsSpace(rest[0]))
    ensures TrimStart(gap + rest) == rest
  {
    TrimStartUnique(gap, rest);
  }

  lemma CommandsStart(names: seq<string>, gaps: seq<string>, prompt: string)
    requires |names| == |gaps| && IsRest(prompt)
    ensures var text := Commands(names, gaps, prompt); text == "" || !IsSpace(text[0])
  {
    assert !IsSpace('/');
  }

  /** Any written commands are read back, each skill once, in order of first appearance. */
  lemma {:induction false} CommandsAreRead(names: seq<string>, gaps: seq<string>, prompt: string, skills: seq<string>)
    requires |names| == |gaps| && AllNames(names) && Separate(gaps, prompt) && IsRest(prompt)
    ensures Read(Commands(names, gaps, prompt), skills) == Parsed(AddAll(skills, names), prompt)
    decreases |names|
  {
    if names != [] {
      var rest := Commands(names[1..], gaps[1..], prompt);
      assert Commands(names, gaps, prompt) == "/" + names[0] + (gaps[0] + rest);
      assert gaps[0] + rest == "" || IsSpace((gaps[0] + rest)[0]);
      CommandIsRead(names[0], gaps[0] + rest);
      CommandsStart(names[1..], gaps[1..], prompt);
      GapIsSkipped(gaps[0], rest);
      assert forall i :: 0 <= i < |gaps[1..]| ==> gaps[1..][i] == gaps[i + 1];
      CommandsAreRead(names[1..], gaps[1..], prompt, Add(skills, names[0]));
    }
  }

  /** Every text is, in one way or another, commands with gaps in front of a rest. */
  lemma {:induction false} TextIsCommands(text: string) returns (names: seq<string>, gaps: seq<string>, prompt: string)
    requires text == "" || !IsSpace(text[0])
    ensures |names| == |gaps| && AllNames(names) && Separate(gaps, prompt) && IsRest(prompt)
    ensures text == Commands(names, gaps, prompt)
    decreases |text|
  {
    var n := CommandName(text);
    if n == 0 {
      names, gaps, prompt := [], [], text;
    } else {
      var name, gap, rest := FirstCommand(text);
      var names', gaps', prompt' := TextIsCommands(rest);
      names, gaps, prompt := [name] + names', [gap] + gaps', prompt';
      assert names[1..] == names' && gaps[1..] == gaps';
      assert rest == "" ==> names' == [] && prompt == "";
    }
  }

  /** A command, the gap behind it and what follows. */
  lemma FirstCommand(text: string) returns (name: string, gap: string, rest: string)
    requires CommandName(text) > 0
    ensures text == "/" + name + gap + rest && IsName(name) && AllSpace(gap)
    ensures (gap == "" ==> rest == "") && (rest == "" || !IsSpace(rest[0]))
  {
    var n := CommandName(text);
    NameRunIs(text[1..]);
    name := text[1..n + 1];
    var tail := text[n + 1..];
    gap := TrimStartParts(tail);
    rest := TrimStart(tail);
    assert tail != "" ==> IsSpace(tail[0]);
    assert gap == "" ==> tail == rest;
    assert text == "/" + name + tail;
  }

  /** Up to eighty letters, digits, underscores, dots, colons and hyphens, the first of them a letter or
      a digit. */
  predicate IsSkill(name: string) {
    && 1 <= |name| <= 80
    && ('0' <= name[0] <= '9' || 'A' <= name[0] <= 'Z' || 'a' <= name[0] <= 'z')
    && forall i :: 0 <= i < |name| ==>
         '0' <= name[i] <= '9' || 'A' <= name[i] <= 'Z' || 'a' <= name[i] <= 'z' || name[i] in "_.:-"
  }

  /** The text is a slash, a name, and behind it the end or white space. */
  predicate HasCommand(text: string, name: string, behind: string) {
    IsSkill(name) && text == "/" + name + behind && (behind == "" || IsSpace(behind[0]))
  }

  lemma NameIff(name: string)
    ensures IsName(name) <==> IsSkill(name)
  {
    forall c: char ensures c in "_.:-" <==> c == '_' || c == '.' || c == ':' || c == '-' {
      assert "_.:-"[0] == '_' && "_.:-"[1] == '.' && "_.:-"[2] == ':' && "_.:-"[3] == '-';
    }
  }

  /** What remains begins with no command, and with no white space. */
  lemma RestIff(prompt: string)
    ensures IsRest(prompt) <==>
      (prompt == "" || !IsSpace(prompt[0])) && forall name, behind :: !HasCommand(prompt, name, behind)
  {
    if CommandName(prompt) > 0 {
      var name, gap, rest := FirstCommand(prompt);
      NameIff(name);
      assert prompt == "/" + name + (gap + rest);
      assert HasCommand(prompt, name, gap + rest);
    }
    if name, behind :| HasCommand(prompt, name, behind) {
      NameIff(name);
      CommandIsRead(name, behind);
    }
  }

  /** So the parser finds all leading commands and nothing else: its input is white space, the commands
      it read, and a rest with no command in front. */
  lemma ParseDecomposes(input: string) returns (space: string, names: seq<string>, gaps: seq<string>)
    ensures |names| == |gaps| && AllSpace(space) && AllNames(names) && Separate(gaps, Parse(input).prompt)
    ensures input == space + Commands(names, gaps, Parse(input).prompt)
    ensures Parse(input).skills == AddAll([], names) && IsRest(Parse(input).prompt)
  {
    space := TrimStartParts(input);
    var names', gaps', prompt := TextIsCommands(TrimStart(input));
    names, gaps := names', gaps';
    CommandsAreRead(names, gaps, prompt, []);
  }

  lemma {:induction false} AddAllIsDistinct(skills: seq<string>, names: seq<string>)
    requires Distinct(skills)
    ensures Distinct(AddAll(skills, names))
    ensures forall name :: name in AddAll(skills, names) <==> name in skills || name in names
    decreases |names|
  {
    if names != [] {
      AddAllIsDistinct(Add(skills, names[0]), names[1..]);
      assert forall name :: name in names <==> name == names[0] || name in names[1..];
    }
  }

  lemma NextIsNew(skills: seq<string>, names: seq<string>)
    requires names != [] && Distinct(skills + names)
    ensures names[0] !in skills
  {
    var all := skills + names;
    forall i | 0 <= i < |skills| ensures skills[i] != names[0] {
      assert all[i] == skills[i] && all[|skills|] == names[0] && all[i] != all[|skills|];
    }
  }

  lemma {:induction false} AddAllKeepsDistinct(skills: seq<string>, names: seq<string>)
    requires Distinct(skills + names)
    ensures AddAll(skills, names) == skills + names
    decreases |names|
  {
    if names == [] {
      assert skills + names == skills;
    } else {
      assert (skills + names)[|skills|] == names[0];
      NextIsNew(skills, names);
      assert skills + [names[0]] + names[1..] == skills + names;
      AddAllKeepsDistinct(skills + [names[0]], names[1..]);
    }
  }

  /** The position of the first appearance. */
  function FirstAt(names: seq<string>, name: string): (i: nat)
    requires name in names
    ensures i < |names| && names[i] == name && forall j :: 0 <= j < i ==> names[j] != name
  {
    if names[0] == name then 0 else 1 + FirstAt(names[1..], name)
  }

  lemma {:induction false} AddAllSnoc(skills: seq<string>, names: seq<string>, last: string)
    ensures AddAll(skills, names + [last]) == Add(AddAll(skills, names), last)
    decreases |names|
  {
    if names == [] {
      assert names + [last] == [last];
      assert AddAll(Add(skills, last), [last][1..]) == Add(skills, last);
    } else {
      assert (names + [last])[1..] == names[1..] + [last];
      AddAllSnoc(Add(skills, names[0]), names[1..], last);
    }
  }

  lemma FirstAtStays(names: seq<string>, last: string, name: string)
    requires name in names
    ensures name in names + [last] && FirstAt(names + [last], name) == FirstAt(names, name)
  {
    var more := names + [last];
    assert forall i :: 0 <= i < |names| ==> more[i] == names[i];
  }

  lemma {:induction false} SkillsInOrder(names: seq<string>)
    ensures var skills := AddAll([], names);
      && (forall name :: name in skills ==> name in names)
      && (forall i, j :: 0 <= i < j < |skills| ==> FirstAt(names, skills[i]) < FirstAt(names, skills[j]))
    decreases |names|
  {
    if names != [] {
      var n := |names| - 1;
      SkillsInOrder(names[..n]);
      AddAllSnoc([], names[..n], names[n]);
      OneMoreInOrder(names[..n], names[n], AddAll([], names[..n]));
      assert names == names[..n] + [names[n]];
    }
  }

  lemma OneMoreInOrder(front: seq<string>, last: string, skills: seq<string>)
    requires forall name :: name in skills ==> name in front
    requires skills == AddAll([], front)
    requires forall i, j :: 0 <= i < j < |skills| ==> FirstAt(front, skills[i]) < FirstAt(front, skills[j])
    ensures var names, more := front + [last], Add(skills, last);
      && (forall name :: name in more ==> name in names)
      && (forall i, j :: 0 <= i < j < |more| ==> FirstAt(names, more[i]) < FirstAt(names, more[j]))
  {
    AddAllIsDistinct([], front);
    LastComesLast(front, last, skills);
  }

  lemma LastComesLast(front: seq<string>, last: string, before: seq<string>)
    requires forall name :: name in before ==> name in front
    ensures forall i :: 0 <= i < |before| ==>
      before[i] in front + [last] && FirstAt(front + [last], before[i]) == FirstAt(front, before[i]) < |front|
    ensures last !in front ==> FirstAt(front + [last], last) == |front|
  {
    forall i | 0 <= i < |before|
      ensures before[i] in front + [last] && FirstAt(front + [last], before[i]) == FirstAt(front, before[i]) < |front|
    {
      FirstAtStays(front, last, before[i]);
    }
  }

  /** The skills are the names, each once, in the order of their first appearances. */
  lemma SkillsByFirstAppearance(names: seq<string>)
    ensures forall name :: name in AddAll([], names) <==> name in names
    ensures var skills := AddAll([], names);
      forall i, j :: 0 <= i < j < |skills| ==> FirstAt(names, skills[i]) < FirstAt(names, skills[j])
  {
    AddAllIsDistinct([], names);
    SkillsInOrder(names);
  }

  function Spaces(n: nat): (gaps: seq<string>)
    ensures |gaps| == n && forall i :: 0 <= i < n ==> gaps[i] == " "
  {
    seq(n, i => " ")
  }

  /** One command for each skill, a space behind each. */
  function Render(p: Parsed): string {
    Commands(p.skills, Spaces(|p.skills|), p.prompt)
  }

  /** Distinct skills and a rest without a leading command survive being written and read. */
  lemma RoundTrip(p: Parsed)
    requires AllNames(p.skills) && Distinct(p.skills) && IsRest(p.prompt)
    ensures Parse(Render(p)) == p
  {
    CommandsStart(p.skills, Spaces(|p.skills|), p.prompt);
    GapIsSkipped("", Render(p));
    assert "" + Render(p) == Render(p);
    CommandsAreRead(p.skills, Spaces(|p.skills|), p.prompt, []);
    assert [] + p.skills == p.skills;
    AddAllKeepsDistinct([], p.skills);
  }

  /** Every input has the canonical form its result is written as. */
  lemma CanonicalForm(input: string)
    ensures Parse(Render(Parse(input))) == Parse(input)
  {
    var _, names, gaps := ParseDecomposes(input);
    AddAllIsDistinct([], names);
    forall i | 0 <= i < |Parse(input).skills| ensures IsName(Parse(input).skills[i]) {
      assert Parse(input).skills[i] in names;
    }
    RoundTrip(Parse(input));
  }
}
