/** The string primitives the repository's scanners lean on, with the laws the proofs use.
    A string is a sequence of Unicode scalar values. */
module JsText {
  /** The white space and line terminators that `trim` and `\s` recognise. */
  predicate IsSpace(c: char) {
    || c == '\t' || c == '\n' || c == '\U{000B}' || c == '\U{000C}' || c == '\r' || c == ' '
    || c == '\U{00A0}' || c == '\U{1680}' || '\U{2000}' <= c <= '\U{200A}'
    || c == '\U{2028}' || c == '\U{2029}' || c == '\U{202F}' || c == '\U{205F}' || c == '\U{3000}' || c == '\U{FEFF}'
  }

  predicate AllSpace(s: string) {
    forall i :: 0 <= i < |s| ==> IsSpace(s[i])
  }

  /** Neither end is white space; the empty string qualifies. */
  predicate Tight(s: string) {
    s == [] || (!IsSpace(s[0]) && !IsSpace(s[|s| - 1]))
  }

  function TrimStart(s: string): string {
    if s == [] || !IsSpace(s[0]) then s else TrimStart(s[1..])
  }

  function TrimEnd(s: string): string {
    if s == [] || !IsSpace(s[|s| - 1]) then s else TrimEnd(s[..|s| - 1])
  }

  function Trim(s: string): string {
    TrimStart(TrimEnd(s))
  }

  lemma {:induction false} TrimStartParts(s: string) returns (pre: string)
    ensures s == pre + TrimStart(s) && AllSpace(pre)
    ensures TrimStart(s) == [] || !IsSpace(TrimStart(s)[0])
  {
    if s == [] || !IsSpace(s[0]) {
      pre := [];
    } else {
      var rest := TrimStartParts(s[1..]);
      pre := [s[0]] + rest;
      FirstAndRest(s, rest, TrimStart(s));
    }
  }

  lemma FirstAndRest(s: string, a: string, b: string)
    requires s != "" && s[1..] == a + b
    ensures s == ([s[0]] + a) + b
  {
  }

  lemma {:induction false} TrimEndParts(s: string) returns (post: string)
    ensures s == TrimEnd(s) + post && AllSpace(post)
    ensures TrimEnd(s) == [] || !IsSpace(TrimEnd(s)[|TrimEnd(s)| - 1])
  {
    if s == [] || !IsSpace(s[|s| - 1]) {
      post := [];
    } else {
      var front := s[..|s| - 1];
      post := TrimEndParts(front);
      assert s == front + [s[|s| - 1]] == TrimEnd(s) + (post + [s[|s| - 1]]);
      post := post + [s[|s| - 1]];
    }
  }

  /** What Trim cuts off at the two ends. */
  lemma TrimParts(s: string) returns (pre: string, post: string)
    ensures s == pre + Trim(s) + post && AllSpace(pre) && AllSpace(post)
    ensures Tight(Trim(s))
  {
    post := TrimEndParts(s);
    pre := TrimStartParts(TrimEnd(s));
    var t := Trim(s);
    if t != [] {
      assert TrimEnd(s)[|TrimEnd(s)| - 1] == t[|t| - 1];
    }
  }

  lemma {:induction false} TrimEndUnique(s: string, post: string)
    requires AllSpace(post) && (s == [] || !IsSpace(s[|s| - 1]))
    ensures TrimEnd(s + post) == s
  {
    if post == [] {
      assert s + post == s;
    } else {
      var front := post[..|post| - 1];
      assert (s + post)[..|s + post| - 1] == s + front;
      TrimEndUnique(s, front);
    }
  }

  lemma {:induction false} TrimStartUnique(pre: string, s: string)
    requires AllSpace(pre) && (s == [] || !IsSpace(s[0]))
    ensures TrimStart(pre + s) == s
  {
    if pre == [] {
      assert pre + s == s;
    } else {
      assert (pre + s)[1..] == pre[1..] + s;
      TrimStartUnique(pre[1..], s);
    }
  }

  /** Trimming finds the only tight middle there is. */
  lemma TrimUnique(pre: string, s: string, post: string)
    requires AllSpace(pre) && AllSpace(post) && Tight(s)
    ensures Trim(pre + s + post) == s
  {
    if s == [] {
      assert pre + s + post == [] + (pre + post);
      TrimEndUnique([], pre + post);
    } else {
      TrimEndUnique(pre + s, post);
      TrimStartUnique(pre, s);
    }
  }

  lemma TrimTight(s: string)
    requires Tight(s)
    ensures Trim(s) == s
  {
    TrimUnique([], s, []);
    assert [] + s + [] == s;
  }

  lemma TrimIsTight(s: string)
    ensures Tight(Trim(s))
  {
    var _, _ := TrimParts(s);
  }

  lemma TrimIgnoresTrailing(s: string, spaces: string)
    requires AllSpace(spaces)
    ensures Trim(s + spaces) == Trim(s) && TrimEnd(s + spaces) == TrimEnd(s)
  {
    var post := TrimEndParts(s);
    assert s + spaces == TrimEnd(s) + (post + spaces);
    TrimEndUnique(TrimEnd(s), post + spaces);
  }

  lemma TrimsToNothing(s: string)
    ensures Trim(s) == "" <==> AllSpace(s)
  {
    var pre, post := TrimParts(s);
    if AllSpace(s) {
      TrimUnique(s, "", "");
      assert s + "" + "" == s;
    } else {
      assert Trim(s) == "" ==> s == pre + post;
    }
  }

  lemma TrimEndAgain(s: string)
    ensures TrimEnd(TrimEnd(s)) == TrimEnd(s)
  {
    var post := TrimEndParts(s);
    TrimIgnoresTrailing(TrimEnd(s), post);
  }

  lemma TrimAgain(s: string)
    ensures Trim(Trim(s)) == Trim(s) && Trim(TrimEnd(s)) == Trim(s)
  {
    TrimIsTight(s);
    TrimTight(Trim(s));
    var post := TrimEndParts(s);
    TrimIgnoresTrailing(TrimEnd(s), post);
  }

  lemma TrimIgnoresLeading(spaces: string, s: string)
    requires AllSpace(spaces)
    ensures Trim(spaces + s) == Trim(s)
  {
    var pre, post := TrimParts(s);
    assert spaces + s == (spaces + pre) + Trim(s) + post;
    TrimUnique(spaces + pre, Trim(s), post);
  }

  /** Position of the first c, or -1. */
  function IndexOf(s: string, c: char): (i: int)
    ensures -1 <= i < |s|
    ensures i >= 0 ==> s[i] == c && c !in s[..i]
    ensures i == -1 <==> c !in s
  {
    if s == [] then -1
    else if s[0] == c then 0
    else
      var rest := IndexOf(s[1..], c);
      assert s == [s[0]] + s[1..];
      if rest == -1 then -1 else
        assert s[..rest + 1] == [s[0]] + s[1..][..rest];
        rest + 1
  }

  lemma IndexOfFirst(a: string, c: char, b: string)
    requires c !in a
    ensures IndexOf(a + [c] + b, c) == |a|
  {
    var s := a + [c] + b;
    assert s[|a|] == c;
    assert forall k :: 0 <= k < |a| ==> s[k] == a[k];
    assert forall i :: |a| < i <= |s| ==> s[..i][|a|] == c;
  }

  /** `length` of the string in UTF-16 code units. */
  function Utf16Length(s: string): nat {
    if s == "" then 0 else (if s[0] < '\U{10000}' then 1 else 2) + Utf16Length(s[1..])
  }

  /** Length of the UTF-8 encoding. */
  function Utf8Bytes(s: string): nat {
    if s == "" then 0
    else
      (if s[0] < '\U{80}' then 1 else if s[0] < '\U{800}' then 2 else if s[0] < '\U{10000}' then 3 else 4)
      + Utf8Bytes(s[1..])
  }

  function Join(parts: seq<string>, sep: string): string {
    if parts == [] then ""
    else if |parts| == 1 then parts[0]
    else parts[0] + sep + Join(parts[1..], sep)
  }

  lemma {:induction false} JoinSnoc(parts: seq<string>, last: string, sep: string)
    requires parts != []
    ensures Join(parts + [last], sep) == Join(parts, sep) + sep + last
  {
    if |parts| == 1 {
      assert (parts + [last])[1..] == [last];
    } else {
      assert (parts + [last])[1..] == parts[1..] + [last];
      JoinSnoc(parts[1..], last, sep);
      assert parts[0] + sep + (Join(parts[1..], sep) + sep + last)
        == (parts[0] + sep + Join(parts[1..], sep)) + sep + last;
    }
  }

  function Digit(d: nat): (c: char)
    requires d < 10
    ensures '0' <= c <= '9' && !IsSpace(c)
  {
    '0' + d as char
  }

  /** Decimal notation of a natural number. */
  function Decimal(n: nat): (s: string)
    ensures |s| >= 1
  {
    if n < 10 then [Digit(n)] else Decimal(n / 10) + [Digit(n % 10)]
  }
}
