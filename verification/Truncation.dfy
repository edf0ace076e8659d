/** Two truncations that keep the head and the tail of a text around a marker saying how much is
    missing.  The marker's own length depends on the number it prints. */
module Truncation {
  import opened Options
  import opened JsText
  import opened Utf16

  /** The fixed text on both sides of the number. */
  datatype Frame = Frame(before: Text, after: Text)

  function DiffFrame(): Frame { Frame(Ascii("\n[... omitted "), Ascii(" chars ...]\n")) }

  function TraceFrame(): Frame { Frame(Ascii("\n... ["), Ascii(" chars truncated] ...\n")) }

  function Marker(f: Frame, n: nat): (marker: Text)
    ensures |marker| == |f.before| + |Decimal(n)| + |f.after|
  {
    DecimalIsAscii(n);
    f.before + Ascii(Decimal(n)) + f.after
  }

  lemma {:induction false} DecimalIsAscii(n: nat)
    ensures IsAscii(Decimal(n))
  {
    if n >= 10 {
      DecimalIsAscii(n / 10);
    }
  }

  function Clamp(n: int): nat { if n < 0 then 0 else n }

  // ---- The pull-request diff excerpt

  /** Room for text once a marker for the smallest possible omission is set aside. */
  function Available(f: Frame, length: nat, max: nat): (a: nat)
    requires length > max
    ensures a <= max < length
  {
    Clamp(max - |Marker(f, length - max)|)
  }

  /** Head, marker and tail before the final cut to max code units. */
  function Assembled(f: Frame, text: Text, available: nat, head: nat): Text
    requires head <= available < |text|
  {
    text[..head] + Marker(f, |text| - available) + text[|text| - (available - head)..]
  }

  /** The excerpt for a given division of the available room; the source gives the head three fifths,
      rounded up in floating point. */
  function Excerpt(f: Frame, text: Option<Text>, max: int, head: nat -> nat): Text
    requires forall a :: head(a) <= a
  {
    if text.None? || text.value == [] || max <= 0 then []
    else if |text.value| <= max then text.value
    else
      var available := Available(f, |text.value|, max);
      var assembled := Assembled(f, text.value, available, head(available));
      if |assembled| <= max then assembled else assembled[..max]
  }

  // ---- The trace truncator

  function TraceBudget(f: Frame, length: nat, limit: int): (b: nat)
    requires length > limit
    ensures b == 0 || b < length
  {
    Clamp(limit - |Marker(f, length)|)
  }

  function TruncateOutput(f: Frame, text: Text, limit: int, head: nat -> nat): Text
    requires forall a :: head(a) <= a
  {
    if |text| <= limit then text
    else
      var budget := TraceBudget(f, |text|, limit);
      var headLength := head(budget);
      var tailLength := budget - headLength;
      text[..headLength] + Marker(f, |text| - budget) + text[|text| - tailLength..]
  }

  // ---- How long a number is

  function PowerOfTen(k: nat): nat { if k == 0 then 1 else 10 * PowerOfTen(k - 1) }

  lemma {:induction false} DigitsBelowPower(n: nat, k: nat)
    requires k >= 1
    ensures |Decimal(n)| <= k <==> n < PowerOfTen(k)
  {
    if n >= 10 {
      if k == 1 {
        assert PowerOfTen(1) == 10 * PowerOfTen(0);
      } else {
        DigitsBelowPower(n / 10, k - 1);
        assert n / 10 < PowerOfTen(k - 1) <==> n < 10 * PowerOfTen(k - 1);
      }
    } else {
      PowersGrow(k);
    }
  }

  lemma {:induction false} PowersGrow(k: nat)
    requires k >= 1
    ensures PowerOfTen(k) >= 10 && 9 * PowerOfTen(k) >= 89 + k
  {
    if k > 1 {
      PowersGrow(k - 1);
    } else {
      assert PowerOfTen(1) == 10 * PowerOfTen(0);
    }
  }

  lemma DigitsMonotone(m: nat, n: nat)
    requires m <= n
    ensures |Decimal(m)| <= |Decimal(n)|
  {
    DigitsBelowPower(n, |Decimal(n)|);
    DigitsBelowPower(m, |Decimal(n)|);
  }

  /** Printing the marker's own length on top of the omission costs at most one more digit. */
  lemma OneMoreDigit(f: Frame, n: nat)
    requires |f.before| + |f.after| <= 89
    ensures |Decimal(n)| <= |Decimal(n + |Marker(f, n)|)| <= |Decimal(n)| + 1
  {
    var k := |Decimal(n)|;
    DigitsMonotone(n, n + |Marker(f, n)|);
    DigitsBelowPower(n, k);
    PowersGrow(k);
    assert n + |Marker(f, n)| < PowerOfTen(k + 1);
    DigitsBelowPower(n + |Marker(f, n)|, k + 1);
  }

  // ---- What the excerpt is

  /** An over-long text always gives exactly max code units.  When a marker fits at all, the head, the
      tail and the printed number account for every unit of the text, and the final cut takes
      off one unit if the printed number is a digit longer than the one room was made for, and
      nothing otherwise.  When it does not fit, the excerpt is the beginning of the marker alone. */
  lemma ExcerptIsExact(f: Frame, text: Text, max: nat, head: nat -> nat)
    requires forall a :: head(a) <= a
    requires 0 < max < |text| && |f.before| + |f.after| <= 89
    ensures |Excerpt(f, Some(text), max, head)| == max
    ensures |Marker(f, |text| - max)| <= max ==> AccountsForAll(f, text, max, head)
    ensures |Marker(f, |text| - max)| > max ==>
      |Marker(f, |text|)| > max && Excerpt(f, Some(text), max, head) == Marker(f, |text|)[..max]
  {
    if |Marker(f, |text| - max)| <= max {
      MarkerFitsExcerpt(f, text, max, head);
    } else {
      MarkerAlone(f, text, max, head);
    }
  }

  /** Head, tail and printed number make up the text, and the excerpt is that, cut by one unit when the
      printed number has one digit more. */
  ghost predicate AccountsForAll(f: Frame, text: Text, max: nat, head: nat -> nat)
    requires forall a :: head(a) <= a
    requires 0 < max < |text|
  {
    var available := Available(f, |text|, max);
    var h, t := head(available), available - head(available);
    var assembled := text[..h] + Marker(f, |text| - h - t) + text[|text| - t..];
    && |assembled| == max + |Decimal(|text| - h - t)| - |Decimal(|text| - max)|
    && max <= |assembled| <= max + 1
    && Excerpt(f, Some(text), max, head) == assembled[..max]
  }

  lemma MarkerFitsExcerpt(f: Frame, text: Text, max: nat, head: nat -> nat)
    requires forall a :: head(a) <= a
    requires 0 < max < |text| && |f.before| + |f.after| <= 89 && |Marker(f, |text| - max)| <= max
    ensures |Excerpt(f, Some(text), max, head)| == max && AccountsForAll(f, text, max, head)
  {
    var available := Available(f, |text|, max);
    MarkerFits(f, |text|, max);
    var assembled := Assembled(f, text, available, head(available));
    AssembledLength(f, text, available, head(available));
    assert |assembled| == max ==> assembled[..max] == assembled;
  }

  lemma MarkerAlone(f: Frame, text: Text, max: nat, head: nat -> nat)
    requires forall a :: head(a) <= a
    requires 0 < max < |text| && |Marker(f, |text| - max)| > max
    ensures |Marker(f, |text|)| > max && Excerpt(f, Some(text), max, head) == Marker(f, |text|)[..max]
    ensures |Excerpt(f, Some(text), max, head)| == max
  {
    DigitsMonotone(|text| - max, |text|);
    NothingAvailable(f, text);
  }

  /** In particular for the frame in use. */
  lemma DiffExcerptIsExact(text: Text, max: nat, head: nat -> nat)
    requires forall a :: head(a) <= a
    requires 0 < max < |text|
    ensures |Excerpt(DiffFrame(), Some(text), max, head)| == max
    ensures |Marker(DiffFrame(), |text| - max)| <= max ==> AccountsForAll(DiffFrame(), text, max, head)
  {
    FramesAreShort();
    ExcerptIsExact(DiffFrame(), text, max, head);
  }

  lemma MarkerFits(f: Frame, length: nat, max: nat)
    requires 0 < max < length && |f.before| + |f.after| <= 89 && |Marker(f, length - max)| <= max
    ensures var available := Available(f, length, max);
      available + |Marker(f, length - max)| == max
      && 0 <= |Marker(f, length - available)| - |Marker(f, length - max)|
        == |Decimal(length - available)| - |Decimal(length - max)| <= 1
  {
    OneMoreDigit(f, length - max);
    assert length - Available(f, length, max) == length - max + |Marker(f, length - max)|;
  }

  lemma AssembledLength(f: Frame, text: Text, available: nat, head: nat)
    requires head <= available < |text|
    ensures |Assembled(f, text, available, head)| == available + |Marker(f, |text| - available)|
  {
  }

  lemma NothingAvailable(f: Frame, text: Text)
    requires text != []
    ensures Assembled(f, text, 0, 0) == Marker(f, |text|)
  {
  }

  /** Both frames are short enough for the claims above. */
  lemma FramesAreShort()
    ensures |DiffFrame().before| + |DiffFrame().after| == 26 && |TraceFrame().before| + |TraceFrame().after| == 28
  {
  }

  // ---- What the trace truncator gives

  /** The result is within the limit whenever the limit has room for the marker of the whole length,
      and is never longer than that marker otherwise; it begins and ends with the text's own ends and
      the number printed between them is the number of code units left out. */
  lemma TruncationBound(f: Frame, text: Text, limit: int, head: nat -> nat)
    requires forall a :: head(a) <= a
    requires |text| > limit
    ensures var out, budget := TruncateOutput(f, text, limit, head), TraceBudget(f, |text|, limit);
      var h, t := head(budget), budget - head(budget);
      && |out| <= (if limit >= |Marker(f, |text|)| then limit else |Marker(f, |text|)|)
      && h + t + (|text| - budget) == |text|
      && out == text[..h] + Marker(f, |text| - h - t) + text[|text| - t..]
  {
    DigitsMonotone(|text| - TraceBudget(f, |text|, limit), |text|);
  }

  /** Truncating twice is truncating once exactly when the text is short enough, the limit has room for
      the marker of the whole length, or the text is as long as that marker. */
  lemma TruncationIsIdempotentIff(f: Frame, text: Text, limit: int, head: nat -> nat)
    requires forall a :: head(a) <= a
    ensures TruncateOutput(f, TruncateOutput(f, text, limit, head), limit, head)
        == TruncateOutput(f, text, limit, head)
      <==> |text| <= limit || |Marker(f, |text|)| <= limit || |Marker(f, |text|)| == |text|
  {
    if |text| > limit {
      TruncationBound(f, text, limit, head);
      if |Marker(f, |text|)| > limit {
        assert TruncateOutput(f, text, limit, head) == Marker(f, |text|);
        MarkerTruncated(f, |text|, limit, head);
      }
    }
  }

  /** Truncating a marker that is over the limit gives the same marker only when it tells its own
      length. */
  lemma MarkerTruncated(f: Frame, n: nat, limit: int, head: nat -> nat)
    requires (forall a :: head(a) <= a) && |Marker(f, n)| > limit
    ensures TruncateOutput(f, Marker(f, n), limit, head) == Marker(f, n) <==> |Marker(f, n)| == n
  {
    var marker := Marker(f, n);
    var budget := TraceBudget(f, |marker|, limit);
    if budget > 0 {
      TruncationBound(f, marker, limit, head);
    } else {
      assert TruncateOutput(f, marker, limit, head) == Marker(f, |marker|);
      MarkersDiffer(f, |marker|, n);
    }
  }

  lemma MarkersDiffer(f: Frame, m: nat, n: nat)
    ensures Marker(f, m) == Marker(f, n) <==> m == n
  {
    DecimalIsAscii(m);
    DecimalIsAscii(n);
    if Marker(f, m) == Marker(f, n) {
      var k, d := |f.before|, |Decimal(m)|;
      assert Marker(f, m)[k..k + d] == Ascii(Decimal(m)) && Marker(f, n)[k..k + d] == Ascii(Decimal(n));
      assert forall i :: 0 <= i < d ==> Decimal(m)[i] as int == Ascii(Decimal(m))[i] == Ascii(Decimal(n))[i];
      DecimalTellsApart(m, n);
    }
  }

  lemma {:induction false} DecimalTellsApart(m: nat, n: nat)
    requires Decimal(m) == Decimal(n)
    ensures m == n
  {
    var s := Decimal(m);
    if m >= 10 && n >= 10 {
      assert s[..|s| - 1] == Decimal(m / 10) == Decimal(n / 10);
      DecimalTellsApart(m / 10, n / 10);
      assert s[|s| - 1] == Digit(m % 10) == Digit(n % 10);
    }
  }

  /** An instance: a million units with a limit of nothing. */
  lemma TruncatingTwiceCanDiffer(text: Text, head: nat -> nat)
    requires (forall a :: head(a) <= a) && |text| == 1000000
    ensures TruncateOutput(TraceFrame(), TruncateOutput(TraceFrame(), text, 0, head), 0, head)
        != TruncateOutput(TraceFrame(), text, 0, head)
  {
    FramesAreShort();
    DigitsBelowPower(1000000, 7);
    TruncationIsIdempotentIff(TraceFrame(), text, 0, head);
  }
}
