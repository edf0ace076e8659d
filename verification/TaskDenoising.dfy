/** The stable task fingerprint: a multiplicative hash over UTF-16 code units, printed in hex. */
module Fingerprint {
  import opened Utf16

  const TWO_TO_THE_32 := 0x1_0000_0000
  const OFFSET_BASIS := 0x811c9dc5
  const PRIME := 0x01000193
  /** The inverse of PRIME modulo 2^32. */
  const PRIME_INVERSE := 899433627

  type Word = n: nat | n < TWO_TO_THE_32

  function PowerOfTwo(bits: nat): nat { if bits == 0 then 1 else 2 * PowerOfTwo(bits - 1) }

  /** Exclusive or, bit by bit. */
  function Xor(a: nat, b: nat, bits: nat): nat {
    if bits == 0 then 0 else (if a % 2 == b % 2 then 0 else 1) + 2 * Xor(a / 2, b / 2, bits - 1)
  }

  lemma {:induction false} XorBound(a: nat, b: nat, bits: nat)
    ensures Xor(a, b, bits) < PowerOfTwo(bits)
  {
    if bits > 0 {
      XorBound(a / 2, b / 2, bits - 1);
    }
  }

  function XorWord(a: Word, b: Word): Word {
    XorBound(a, b, 32);
    assert PowerOfTwo(32) == TWO_TO_THE_32 by { PowerOfTwo32(); }
    Xor(a, b, 32)
  }

  lemma PowerOfTwo32()
    ensures PowerOfTwo(32) == TWO_TO_THE_32
  {
    assert PowerOfTwo(8) == 256;
    assert PowerOfTwo(16) == 65536;
    assert PowerOfTwo(24) == 16777216;
  }

  /** 32-bit multiplication by the prime, as `Math.imul` does it. */
  function Multiply(x: Word): Word { (x * PRIME) % TWO_TO_THE_32 }

  function Mix(hash: Word, unit: CodeUnit): Word { Multiply(XorWord(hash, unit)) }

  function Hash(hash: Word, units: seq<CodeUnit>): Word
    decreases |units|
  {
    if units == [] then hash else Hash(Mix(hash, units[0]), units[1..])
  }

  function HexDigit(d: nat): char
    requires d < 16
  {
    "0123456789abcdef"[d]
  }

  /** Shortest lower-case hexadecimal notation. */
  function Hex(n: nat): string {
    if n < 16 then [HexDigit(n)] else Hex(n / 16) + [HexDigit(n % 16)]
  }

  function PadStart(s: string, width: nat): string
    decreases width - |s|
  {
    if |s| >= width then s else PadStart("0" + s, width)
  }

  function Fingerprint(units: seq<CodeUnit>): string {
    PadStart(Hex(Hash(OFFSET_BASIS, units)), 8)
  }

  method StableFingerprint(units: seq<CodeUnit>) returns (text: string)
    ensures text == Fingerprint(units)
    ensures IsFingerprint(units, text)
  {
    FingerprintIs(units);
    var hash: Word := OFFSET_BASIS;
    for index := 0 to |units|
      invariant Hash(OFFSET_BASIS, units) == Hash(hash, units[index..])
    {
      assert units[index..][1..] == units[index + 1..];
      hash := XorWord(hash, units[index]);
      hash := Multiply(hash);
    }
    text := PadStart(Hex(hash), 8);
  }

  // ---- What the fingerprint is, bit by bit and digit by digit

  function Bit(n: nat, k: nat): nat { if k == 0 then n % 2 else Bit(n / 2, k - 1) }

  /** The next state: exclusive or with the code unit, times the prime, in 32 bits. */
  ghost predicate IsStep(hash: nat, unit: CodeUnit, next: nat) {
    exists x: nat :: IsXorOf(hash, unit, x) && next == (x * 16777619) % 4294967296
  }

  ghost predicate IsXorOf(a: nat, b: nat, x: nat) {
    x < 4294967296 && forall k :: 0 <= k < 32 ==> Bit(x, k) == if Bit(a, k) == Bit(b, k) then 0 else 1
  }

  predicate IsHexDigit(c: char) { '0' <= c <= '9' || 'a' <= c <= 'f' }

  /** Eight hexadecimal digits for the last of the states, the first of which is 2166136261. */
  ghost predicate IsFingerprint(units: seq<CodeUnit>, text: string) {
    exists states: seq<nat> ::
      && |states| == |units| + 1 && states[0] == 2166136261
      && (forall i :: 0 <= i < |units| ==> IsStep(states[i], units[i], states[i + 1]))
      && |text| == 8 && HexValue(text) == states[|units|] && forall i :: 0 <= i < 8 ==> IsHexDigit(text[i])
  }

  lemma {:induction false} XorBits(a: nat, b: nat, bits: nat, k: nat)
    requires k < bits
    ensures Bit(Xor(a, b, bits), k) == if Bit(a, k) == Bit(b, k) then 0 else 1
  {
    assert Xor(a, b, bits) / 2 == Xor(a / 2, b / 2, bits - 1);
    if k > 0 {
      XorBits(a / 2, b / 2, bits - 1, k - 1);
    }
  }

  lemma MixIsStep(hash: Word, unit: CodeUnit)
    ensures IsStep(hash, unit, Mix(hash, unit))
  {
    forall k | 0 <= k < 32 ensures Bit(XorWord(hash, unit), k) == if Bit(hash, k) == Bit(unit, k) then 0 else 1 {
      XorBits(hash, unit, 32, k);
    }
    assert IsXorOf(hash, unit, XorWord(hash, unit));
  }

  function States(hash: Word, units: seq<CodeUnit>): (states: seq<Word>)
    ensures |states| == |units| + 1 && states[0] == hash
    decreases |units|
  {
    if units == [] then [hash] else [hash] + States(Mix(hash, units[0]), units[1..])
  }

  lemma {:induction false} StatesAreSteps(hash: Word, units: seq<CodeUnit>)
    ensures var states := States(hash, units);
      && (forall i :: 0 <= i < |units| ==> IsStep(states[i], units[i], states[i + 1]))
      && states[|units|] == Hash(hash, units)
    decreases |units|
  {
    if units != [] {
      MixIsStep(hash, units[0]);
      StatesAreSteps(Mix(hash, units[0]), units[1..]);
    }
  }

  lemma {:induction false} HexFits(n: nat, width: nat)
    requires width >= 1 && n < PowerOfTwo(4 * width)
    ensures |Hex(n)| <= width && forall i :: 0 <= i < |Hex(n)| ==> IsHexDigit(Hex(n)[i])
  {
    assert forall d :: 0 <= d < 16 ==> IsHexDigit(HexDigit(d));
    SixteenTimes(4 * (width - 1));
    if n >= 16 {
      HexFits(n / 16, width - 1);
    }
  }

  lemma SixteenTimes(bits: nat)
    ensures PowerOfTwo(bits + 4) == 16 * PowerOfTwo(bits)
  {
    assert PowerOfTwo(bits + 4) == 2 * PowerOfTwo(bits + 3);
    assert PowerOfTwo(bits + 3) == 2 * PowerOfTwo(bits + 2);
    assert PowerOfTwo(bits + 2) == 2 * PowerOfTwo(bits + 1);
  }

  lemma {:induction false} PadFills(s: string, width: nat)
    requires |s| <= width && forall i :: 0 <= i < |s| ==> IsHexDigit(s[i])
    ensures |PadStart(s, width)| == width
    ensures forall i :: 0 <= i < width ==> IsHexDigit(PadStart(s, width)[i])
    decreases width - |s|
  {
    if |s| < width {
      PadFills("0" + s, width);
    }
  }

  lemma FingerprintIs(units: seq<CodeUnit>)
    ensures IsFingerprint(units, Fingerprint(units))
  {
    var hash := Hash(OFFSET_BASIS, units);
    StatesAreSteps(OFFSET_BASIS, units);
    PowerOfTwo32();
    HexFits(hash, 8);
    PadFills(Hex(hash), 8);
    PaddingKeepsValue(Hex(hash), 8);
    HexRoundTrip(hash);
    ghost var states: seq<nat> := States(OFFSET_BASIS, units);
    assert states[0] == 2166136261;
  }

  // ---- Every step is a bijection

  lemma {:induction false} XorInjective(a: nat, a': nat, b: nat, b': nat, bits: nat)
    requires a < PowerOfTwo(bits) && a' < PowerOfTwo(bits) && b < PowerOfTwo(bits) && b' < PowerOfTwo(bits)
    requires Xor(a, b, bits) == Xor(a', b', bits)
    ensures a == a' <==> b == b'
  {
    if bits > 0 {
      XorInjective(a / 2, a' / 2, b / 2, b' / 2, bits - 1);
    }
  }

  lemma MultiplyInjective(x: Word, y: Word)
    requires Multiply(x) == Multiply(y)
    ensures x == y
  {
    var q := (x * PRIME) / TWO_TO_THE_32 - (y * PRIME) / TWO_TO_THE_32;
    assert (x - y) * PRIME == q * TWO_TO_THE_32;
    assert PRIME * PRIME_INVERSE == 1 + 3513497 * TWO_TO_THE_32;
    assert x - y == TWO_TO_THE_32 * (q * PRIME_INVERSE - 3513497 * (x - y));
  }

  /** A step never merges two states, nor two code units. */
  lemma MixInjective(h: Word, h': Word, unit: CodeUnit, unit': CodeUnit)
    requires Mix(h, unit) == Mix(h', unit')
    ensures h == h' <==> unit == unit'
  {
    MultiplyInjective(XorWord(h, unit), XorWord(h', unit'));
    PowerOfTwo32();
    XorInjective(h, h', unit, unit', 32);
  }

  lemma {:induction false} HashInjective(h: Word, h': Word, units: seq<CodeUnit>)
    requires Hash(h, units) == Hash(h', units)
    ensures h == h'
    decreases |units|
  {
    if units != [] {
      HashInjective(Mix(h, units[0]), Mix(h', units[0]), units[1..]);
      MixInjective(h, h', units[0], units[0]);
    }
  }

  lemma {:induction false} HashConcat(h: Word, a: seq<CodeUnit>, b: seq<CodeUnit>)
    ensures Hash(h, a + b) == Hash(Hash(h, a), b)
    decreases |a|
  {
    if a == [] {
      assert a + b == b;
    } else {
      assert (a + b)[1..] == a[1..] + b;
      HashConcat(Mix(h, a[0]), a[1..], b);
    }
  }

  // ---- The notation is injective

  function DigitValue(c: char): nat {
    if '0' <= c <= '9' then (c - '0') as nat else if 'a' <= c <= 'f' then (c - 'a') as nat + 10 else 0
  }

  function HexValue(s: string): nat {
    if s == "" then 0 else 16 * HexValue(s[..|s| - 1]) + DigitValue(s[|s| - 1])
  }

  lemma LastDigit(s: string, d: nat)
    requires d < 16
    ensures HexValue(s + [HexDigit(d)]) == 16 * HexValue(s) + d
  {
    assert (s + [HexDigit(d)])[..|s|] == s;
    DigitRoundTrip(d);
  }

  lemma DigitRoundTrip(d: nat)
    requires d < 16
    ensures DigitValue(HexDigit(d)) == d
  {
  }

  lemma {:induction false} HexRoundTrip(n: nat)
    ensures HexValue(Hex(n)) == n
  {
    if n < 16 {
      LastDigit("", n);
      assert "" + [HexDigit(n)] == [HexDigit(n)];
    } else {
      HexRoundTrip(n / 16);
      LastDigit(Hex(n / 16), n % 16);
    }
  }

  lemma {:induction false} LeadingZero(s: string)
    ensures HexValue("0" + s) == HexValue(s)
  {
    if s == "" {
      assert ("0" + s)[..0] == "";
    } else {
      assert ("0" + s)[..|s|] == "0" + s[..|s| - 1];
      LeadingZero(s[..|s| - 1]);
    }
  }

  lemma {:induction false} PaddingKeepsValue(s: string, width: nat)
    ensures HexValue(PadStart(s, width)) == HexValue(s)
    decreases width - |s|
  {
    if |s| < width {
      PaddingKeepsValue("0" + s, width);
      LeadingZero(s);
    }
  }

  lemma NotationInjective(x: nat, y: nat)
    requires PadStart(Hex(x), 8) == PadStart(Hex(y), 8)
    ensures x == y
  {
    PaddingKeepsValue(Hex(x), 8);
    PaddingKeepsValue(Hex(y), 8);
    HexRoundTrip(x);
    HexRoundTrip(y);
  }

  // ---- One changed code unit always shows

  lemma HashAround(a: seq<CodeUnit>, unit: CodeUnit, b: seq<CodeUnit>)
    ensures Hash(OFFSET_BASIS, a + [unit] + b) == Hash(Mix(Hash(OFFSET_BASIS, a), unit), b)
  {
    HashConcat(OFFSET_BASIS, a + [unit], b);
    HashConcat(OFFSET_BASIS, a, [unit]);
    assert [unit][1..] == [];
  }

  /** In any context, the fingerprint tells any two code units apart. */
  lemma ChangedUnitShows(a: seq<CodeUnit>, unit: CodeUnit, unit': CodeUnit, b: seq<CodeUnit>)
    ensures Fingerprint(a + [unit] + b) == Fingerprint(a + [unit'] + b) <==> unit == unit'
  {
    if Fingerprint(a + [unit] + b) == Fingerprint(a + [unit'] + b) {
      var h := Hash(OFFSET_BASIS, a);
      NotationInjective(Hash(OFFSET_BASIS, a + [unit] + b), Hash(OFFSET_BASIS, a + [unit'] + b));
      HashAround(a, unit, b);
      HashAround(a, unit', b);
      HashInjective(Mix(h, unit), Mix(h, unit'), b);
      MixInjective(h, h, unit, unit');
    }
  }

  /** Two texts of equal length that differ at exactly one position have different fingerprints. */
  lemma OneDifferenceShows(s: seq<CodeUnit>, t: seq<CodeUnit>, k: nat)
    requires |s| == |t| && k < |s| && s[k] != t[k]
    requires forall i :: 0 <= i < |s| && i != k ==> s[i] == t[i]
    ensures Fingerprint(s) != Fingerprint(t)
  {
    assert s == s[..k] + [s[k]] + s[k + 1..];
    assert t == s[..k] + [t[k]] + s[k + 1..];
    ChangedUnitShows(s[..k], s[k], t[k], s[k + 1..]);
  }
}

/** Peeling injected context blocks off the front of a task text. */
module InjectedContext {
  datatype Markers = Markers(header: string, footer: string, separator: string)

  const COMPANY_MEMORY := Markers("<cycloid:company_memory readonly>", "</cycloid:company_memory>", "\n\n---\n\n")

  predicate OccursAt(s: string, i: nat, sub: string) {
    i + |sub| <= |s| && s[i..i + |sub|] == sub
  }

  /** First position from `from` on at which sub occurs, or -1. */
  function IndexOfText(s: string, from: nat, sub: string): (r: int)
    ensures r < 0 || (from <= r && OccursAt(s, r, sub))
    decreases |s| - from
  {
    if from + |sub| > |s| then -1
    else if s[from..from + |sub|] == sub then from
    else IndexOfText(s, from + 1, sub)
  }

  lemma {:induction false} IndexOfTextIsFirst(s: string, from: nat, sub: string)
    ensures var r := IndexOfText(s, from, sub);
      forall i :: from <= i && (r < 0 || i < r) ==> !OccursAt(s, i, sub)
    decreases |s| - from
  {
    if from + |sub| <= |s| && s[from..from + |sub|] != sub {
      IndexOfTextIsFirst(s, from + 1, sub);
    }
  }

  /** Length of the complete block at the front, with its separator; 0 when there is none. */
  function BlockLength(m: Markers, rest: string): (n: nat)
    ensures n <= |rest|
  {
    if !(m.header <= rest) then 0
    else
      var footer := IndexOfText(rest, 0, m.footer);
      if footer < 0 then 0
      else
        var blockEnd := footer + |m.footer|;
        if m.separator <= rest[blockEnd..] then blockEnd + |m.separator| else 0
  }

  /** The text left when no complete block is at the front, and how many were removed. */
  function Peel(m: Markers, rest: string): (string, nat)
    decreases |rest|
  {
    var n := BlockLength(m, rest);
    if n == 0 then (rest, 0)
    else
      var (inner, count) := Peel(m, rest[n..]);
      (inner, count + 1)
  }

  method FindBlock(m: Markers, rest: string) returns (n: nat)
    ensures n == BlockLength(m, rest)
  {
    if !(m.header <= rest) {
      return 0;
    }
    var footerIndex := IndexOfText(rest, 0, m.footer);
    if footerIndex < 0 {
      return 0;
    }
    var blockEnd := footerIndex + |m.footer|;
    if !(m.separator <= rest[blockEnd..]) {
      return 0;
    }
    return blockEnd + |m.separator|;
  }

  method StripLeadingInjectedContext(m: Markers, rawText: string) returns (text: string, removed: nat)
    ensures (text, removed) == Peel(m, rawText)
  {
    var offset: nat := 0;
    removed := 0;
    ghost var whole, rest := Peel(m, rawText), rawText;
    assert rawText[0..] == rawText;
    var n := FindBlock(m, rawText);
    while n > 0
      invariant offset + n <= |rawText| && rest == rawText[offset..] && n == BlockLength(m, rest)
      invariant PeeledFrom(whole, Peel(m, rest), removed)
      decreases |rawText| - offset
    {
      PeelAdvances(m, rest, n, whole, removed);
      TailOfTail(rawText, offset, n);
      removed := removed + 1;
      offset := offset + n;
      rest := rest[n..];
      n := FindBlock(m, rawText[offset..]);
    }
    text := rawText[offset..];
  }

  /** The answer for the whole text, given the rest and how many blocks have been removed from it. */
  predicate PeeledFrom(whole: (string, nat), rest: (string, nat), removed: nat) {
    whole.0 == rest.0 && whole.1 == rest.1 + removed
  }

  lemma PeelAdvances(m: Markers, rest: string, n: nat, whole: (string, nat), removed: nat)
    requires 0 < n == BlockLength(m, rest) && PeeledFrom(whole, Peel(m, rest), removed)
    ensures PeeledFrom(whole, Peel(m, rest[n..]), removed + 1)
  {
    PeelStep(m, rest);
  }

  lemma TailOfTail(s: string, i: nat, j: nat)
    requires i + j <= |s|
    ensures s[i..][j..] == s[i + j..]
  {
  }

  lemma PeelStep(m: Markers, rest: string)
    ensures var n := BlockLength(m, rest);
      Peel(m, rest) == if n == 0 then (rest, 0) else (Peel(m, rest[n..]).0, Peel(m, rest[n..]).1 + 1)
  {
  }

  // ---- Peeling undoes wrapping

  function Wrap(m: Markers, body: string, text: string): string { m.header + body + m.footer + m.separator + text }

  function WrapAll(m: Markers, bodies: seq<string>, text: string): string {
    if bodies == [] then text else Wrap(m, bodies[0], WrapAll(m, bodies[1..], text))
  }

  ghost predicate NoFooter(m: Markers, body: string) {
    forall i :: 0 <= i ==> !OccursAt(body, i, m.footer)
  }

  /** The footer's first character occurs in footer and header at the front only, and their second
      characters differ: no footer can begin inside a header or inside another footer. */
  predicate Unambiguous(m: Markers) {
    && |m.header| >= 2 && |m.footer| >= 2 && |m.separator| >= 1
    && m.header[1] != m.footer[1]
    && (forall i :: 1 <= i < |m.header| ==> m.header[i] != m.footer[0])
    && (forall i :: 1 <= i < |m.footer| ==> m.footer[i] != m.footer[0])
  }

  lemma CompanyMemoryUnambiguous()
    ensures Unambiguous(COMPANY_MEMORY)
  {
    HeaderOpensOnce(COMPANY_MEMORY.header);
    FooterOpensOnce(COMPANY_MEMORY.footer);
  }

  lemma HeaderOpensOnce(header: string)
    requires header == "<cycloid:company_memory readonly>"
    ensures |header| >= 2 && header[1] == 'c' && forall i :: 1 <= i < |header| ==> header[i] != '<'
  {
  }

  lemma FooterOpensOnce(footer: string)
    requires footer == "</cycloid:company_memory>"
    ensures |footer| >= 2 && footer[0] == '<' && footer[1] == '/' && forall i :: 1 <= i < |footer| ==> footer[i] != '<'
  {
  }

  lemma NotInHeader(m: Markers, s: string, i: nat)
    requires Unambiguous(m) && m.header <= s && OccursAt(s, i, m.footer)
    ensures i >= |m.header|
  {
    assert s[i] == s[i..i + |m.footer|][0] && s[i + 1] == s[i..i + |m.footer|][1];
    assert forall k :: 0 <= k < |m.header| ==> s[k] == m.header[k];
  }

  lemma NoFooterBefore(m: Markers, body: string, tail: string, i: nat)
    requires Unambiguous(m) && NoFooter(m, body) && |m.header| <= i < |m.header| + |body|
    ensures !OccursAt(m.header + body + m.footer + tail, i, m.footer)
  {
    var s, end, n := m.header + body + m.footer + tail, |m.header| + |body|, |m.footer|;
    assert s[end] == m.footer[0];
    if i + n <= end {
      var k := i - |m.header|;
      assert s[i..i + n] == body[k..k + n];
      assert !OccursAt(body, k, m.footer);
    } else {
      assert s[i..i + n][end - i] == s[end];
      assert m.footer[end - i] != m.footer[0];
    }
  }

  /** The first footer after a header is the one that ends the body. */
  lemma FooterPosition(m: Markers, body: string, tail: string)
    requires Unambiguous(m) && NoFooter(m, body)
    ensures IndexOfText(m.header + body + m.footer + tail, 0, m.footer) == |m.header| + |body|
  {
    var s, end := m.header + body + m.footer + tail, |m.header| + |body|;
    assert OccursAt(s, end, m.footer);
    IndexOfTextIsFirst(s, 0, m.footer);
    var i := IndexOfText(s, 0, m.footer);
    assert m.header <= s;
    NotInHeader(m, s, i);
    if i < end {
      NoFooterBefore(m, body, tail, i);
    }
  }

  lemma WrappedBlockLength(m: Markers, body: string, text: string)
    requires Unambiguous(m) && NoFooter(m, body)
    ensures BlockLength(m, Wrap(m, body, text)) == |m.header| + |body| + |m.footer| + |m.separator|
    ensures Wrap(m, body, text)[BlockLength(m, Wrap(m, body, text))..] == text
  {
    var s := Wrap(m, body, text);
    assert s == m.header + body + m.footer + (m.separator + text);
    FooterPosition(m, body, m.separator + text);
    assert s[|m.header| + |body| + |m.footer|..] == m.separator + text;
  }

  lemma PeelOneWrapped(m: Markers, body: string, text: string)
    requires Unambiguous(m) && NoFooter(m, body)
    ensures Peel(m, Wrap(m, body, text)).0 == Peel(m, text).0 && Peel(m, Wrap(m, body, text)).1 == Peel(m, text).1 + 1
  {
    WrappedBlockLength(m, body, text);
    PeelStep(m, Wrap(m, body, text));
  }

  /** Putting blocks in front of a text and peeling is the same as peeling the text; the number of
      removed sections grows by the number of blocks. */
  lemma {:induction false} PeelUndoesWrapping(m: Markers, bodies: seq<string>, text: string)
    requires Unambiguous(m) && forall k :: 0 <= k < |bodies| ==> NoFooter(m, bodies[k])
    ensures Peel(m, WrapAll(m, bodies, text)) == (Peel(m, text).0, Peel(m, text).1 + |bodies|)
  {
    if bodies != [] {
      PeelUndoesWrapping(m, bodies[1..], text);
      PeelOneWrapped(m, bodies[0], WrapAll(m, bodies[1..], text));
    }
  }

  /** A block found at the front is a wrapped body. */
  lemma BlockIsWrapped(m: Markers, rest: string) returns (body: string)
    requires Unambiguous(m) && BlockLength(m, rest) > 0
    ensures NoFooter(m, body) && rest == Wrap(m, body, rest[BlockLength(m, rest)..])
  {
    var footer := IndexOfText(rest, 0, m.footer);
    IndexOfTextIsFirst(rest, 0, m.footer);
    NotInHeader(m, rest, footer);
    body := rest[|m.header|..footer];
    forall i | 0 <= i ensures !OccursAt(body, i, m.footer) {
      if OccursAt(body, i, m.footer) {
        assert rest[|m.header| + i..|m.header| + i + |m.footer|] == body[i..i + |m.footer|];
        assert OccursAt(rest, |m.header| + i, m.footer);
      }
    }
    Reassemble(m, rest, footer, body);
  }

  lemma Reassemble(m: Markers, rest: string, footer: nat, body: string)
    requires m.header <= rest && |m.header| <= footer && OccursAt(rest, footer, m.footer)
    requires m.separator <= rest[footer + |m.footer|..] && body == rest[|m.header|..footer]
    ensures rest == Wrap(m, body, rest[footer + |m.footer| + |m.separator|..])
  {
    var tail := rest[footer + |m.footer|..];
    assert tail == m.separator + tail[|m.separator|..];
    TailOfTail(rest, footer + |m.footer|, |m.separator|);
    InFour(rest, |m.header|, footer, footer + |m.footer|);
    Regroup(m.header + body + m.footer, m.separator, tail[|m.separator|..]);
  }

  lemma InFour(s: string, i: nat, j: nat, k: nat)
    requires i <= j <= k <= |s|
    ensures s == s[..i] + s[i..j] + s[j..k] + s[k..]
  {
  }

  lemma Regroup(a: string, b: string, c: string)
    ensures a + (b + c) == a + b + c
  {
  }

  /** Peeling takes a text apart as wrapped blocks and a rest with no complete block at its front. */
  lemma {:induction false} PeelDecomposes(m: Markers, raw: string) returns (bodies: seq<string>)
    requires Unambiguous(m)
    ensures |bodies| == Peel(m, raw).1 && forall k :: 0 <= k < |bodies| ==> NoFooter(m, bodies[k])
    ensures raw == WrapAll(m, bodies, Peel(m, raw).0) && BlockLength(m, Peel(m, raw).0) == 0
    decreases |raw|
  {
    var n := BlockLength(m, raw);
    PeelStep(m, raw);
    if n == 0 {
      bodies := [];
    } else {
      var rest := PeelDecomposes(m, raw[n..]);
      var body := BlockIsWrapped(m, raw);
      bodies := [body] + rest;
      WrapOneMore(m, body, rest, Peel(m, raw[n..]).0);
      NoFooterOneMore(m, body, rest);
    }
  }

  lemma NoFooterOneMore(m: Markers, body: string, bodies: seq<string>)
    requires NoFooter(m, body) && forall k :: 0 <= k < |bodies| ==> NoFooter(m, bodies[k])
    ensures forall k :: 0 <= k < |bodies| + 1 ==> NoFooter(m, ([body] + bodies)[k])
  {
  }

  lemma WrapOneMore(m: Markers, body: string, bodies: seq<string>, text: string)
    ensures WrapAll(m, [body] + bodies, text) == Wrap(m, body, WrapAll(m, bodies, text))
  {
    assert ([body] + bodies)[1..] == bodies;
  }

  /** Two ways to take a text apart so are the same: equal bodies in front of equal rests. */
  lemma {:induction false} DecompositionIsUnique(m: Markers, bodies: seq<string>, text: string, bodies': seq<string>,
                                                 text': string)
    requires Unambiguous(m)
    requires (forall k :: 0 <= k < |bodies| ==> NoFooter(m, bodies[k])) && BlockLength(m, text) == 0
    requires (forall k :: 0 <= k < |bodies'| ==> NoFooter(m, bodies'[k])) && BlockLength(m, text') == 0
    requires WrapAll(m, bodies, text) == WrapAll(m, bodies', text')
    ensures bodies == bodies' && text == text'
  {
    if bodies != [] {
      WrappedBlockLength(m, bodies[0], WrapAll(m, bodies[1..], text));
    }
    if bodies' != [] {
      WrappedBlockLength(m, bodies'[0], WrapAll(m, bodies'[1..], text'));
    }
    if bodies != [] && bodies' != [] {
      SameFirstBlock(m, bodies[0], WrapAll(m, bodies[1..], text), bodies'[0], WrapAll(m, bodies'[1..], text'));
      DecompositionIsUnique(m, bodies[1..], text, bodies'[1..], text');
      assert bodies == [bodies[0]] + bodies[1..] && bodies' == [bodies'[0]] + bodies'[1..];
    }
  }

  lemma SameFirstBlock(m: Markers, body: string, rest: string, body': string, rest': string)
    requires Unambiguous(m) && NoFooter(m, body) && NoFooter(m, body')
    requires Wrap(m, body, rest) == Wrap(m, body', rest')
    ensures body == body' && rest == rest'
  {
    WrappedBlockLength(m, body, rest);
    WrappedBlockLength(m, body', rest');
    WrappedBody(m, body, rest);
    WrappedBody(m, body', rest');
  }

  lemma WrappedBody(m: Markers, body: string, rest: string)
    ensures Wrap(m, body, rest)[|m.header|..|m.header| + |body|] == body
  {
  }
}
