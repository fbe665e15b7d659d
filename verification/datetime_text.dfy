/**
  The textual form of date-times: the fixed pattern `%Y-%m-%d %H:%M:%S`
  read by Python's `datetime.strptime` and printed by `str(datetime)`, and
  the `split(".")[0]` that drops a fractional second.
 */
module DateTimeText {
  import opened Optional
  import opened Calendar

  predicate IsDigit(c: char) {
    '0' <= c <= '9'
  }

  function DigitChar(d: int): (c: char)
    requires 0 <= d <= 9
    ensures IsDigit(c)
  {
    ('0' as int + d) as char
  }

  function DigitValue(c: char): int
    requires IsDigit(c)
  {
    c as int - '0' as int
  }

  /** Positions `i` .. `j-1` of `text` hold decimal digits. */
  predicate DigitsAt(text: string, i: nat, j: nat) {
    j <= |text| && forall k :: i <= k < j ==> IsDigit(text[k])
  }

  /** The value of the decimal digits at positions `i` .. `j-1`, most significant first. */
  function NumberAt(text: string, i: nat, j: nat): nat
    requires i <= j && DigitsAt(text, i, j)
    decreases j - i
  {
    if j == i then 0 else 10 * NumberAt(text, i, j - 1) + DigitValue(text[j - 1])
  }

  function Pow10(width: nat): (p: nat)
    ensures p >= 1
  {
    if width == 0 then 1 else 10 * Pow10(width - 1)
  }

  /** `%0<width>d`: the last `width` decimal digits of `n`, zero-padded on the left. */
  function Pad(n: nat, width: nat): (text: string)
    ensures |text| == width && DigitsAt(text, 0, width)
  {
    if width == 0 then [] else Pad(n / 10, width - 1) + [DigitChar(n % 10)]
  }

  /** Equal digits give equal numbers, wherever they stand. */
  lemma {:induction false} NumberAtMoved(a: string, i: nat, b: string, m: nat, len: nat)
    requires DigitsAt(a, i, i + len) && DigitsAt(b, m, m + len)
    requires forall k :: i <= k < i + len ==> a[k] == b[k - i + m]
    ensures NumberAt(a, i, i + len) == NumberAt(b, m, m + len)
  {
    if len > 0 {
      NumberAtMoved(a, i, b, m, len - 1);
      assert a[i + (len - 1)] == b[m + (len - 1)];
    }
  }

  /** Reading a padded number back gives the number when it fits the width. */
  lemma {:induction false} NumberOfPad(n: nat, width: nat)
    requires n < Pow10(width)
    ensures NumberAt(Pad(n, width), 0, width) == n
  {
    if width > 0 {
      var text, shorter := Pad(n, width), Pad(n / 10, width - 1);
      NumberAtMoved(text, 0, shorter, 0, width - 1);
      assert n / 10 < Pow10(width - 1);
      NumberOfPad(n / 10, width - 1);
      assert n == 10 * (n / 10) + n % 10;
    }
  }

  /** Padding the value of some digits to their own count gives the digits back. */
  lemma {:induction false} PadOfNumberAt(text: string, i: nat, j: nat)
    requires i <= j && DigitsAt(text, i, j)
    ensures Pad(NumberAt(text, i, j), j - i) == text[i..j]
    decreases j - i
  {
    if j > i {
      var d := DigitValue(text[j - 1]);
      DivUnique(10 * NumberAt(text, i, j - 1) + d, 10, NumberAt(text, i, j - 1), d);
      PadOfNumberAt(text, i, j - 1);
      assert text[i..j] == text[i..j - 1] + [text[j - 1]];
    }
  }

  /**
    `str()` of a Python datetime with no microseconds:
    `%04d-%02d-%02d %02d:%02d:%02d`.
   */
  function Format(dt: DateTime): (text: string)
    requires Valid(dt)
    ensures |text| == 19
  {
    Pad(dt.year, 4) + "-" + Pad(dt.month, 2) + "-" + Pad(dt.day, 2) + " " +
    Pad(dt.hour, 2) + ":" + Pad(dt.minute, 2) + ":" + Pad(dt.second, 2)
  }

  /**
    The layout `YYYY-MM-DD HH:MM:SS` that `strptime` demands here, position
    by position: `D` marks a digit, any other character stands for itself.
   */
  const LayoutLength: nat := 19

  function LayoutAt(i: nat): char {
    if i == 4 || i == 7 then '-'
    else if i == 10 then ' '
    else if i == 13 || i == 16 then ':'
    else 'D'
  }

  predicate Fits(c: char, pattern: char) {
    if pattern == 'D' then IsDigit(c) else c == pattern
  }

  /** Positions `i` onwards of `text` follow the layout. */
  predicate FitsFrom(text: string, i: nat)
    requires |text| == LayoutLength
    decreases LayoutLength - i
  {
    i >= LayoutLength || (Fits(text[i], LayoutAt(i)) && FitsFrom(text, i + 1))
  }

  /** `text` follows the layout. */
  predicate Shaped(text: string) {
    |text| == LayoutLength && FitsFrom(text, 0)
  }

  /** The layout spelled out: four digits, then two-digit fields joined by the separators. */
  predicate Laid(text: string) {
    && |text| == 19
    && DigitsAt(text, 0, 4) && text[4] == '-' && DigitsAt(text, 5, 7) && text[7] == '-'
    && DigitsAt(text, 8, 10) && text[10] == ' ' && DigitsAt(text, 11, 13) && text[13] == ':'
    && DigitsAt(text, 14, 16) && text[16] == ':' && DigitsAt(text, 17, 19)
  }

  lemma {:induction false} FitsFromAt(text: string, i: nat, k: nat)
    requires |text| == LayoutLength && FitsFrom(text, i) && i <= k < LayoutLength
    ensures Fits(text[k], LayoutAt(k))
    decreases k - i
  {
    if i < k {
      FitsFromAt(text, i + 1, k);
    }
  }

  lemma {:induction false} FitsFromAll(text: string, i: nat)
    requires |text| == LayoutLength && i <= LayoutLength
    requires forall k :: i <= k < LayoutLength ==> Fits(text[k], LayoutAt(k))
    ensures FitsFrom(text, i)
    decreases LayoutLength - i
  {
    if i < LayoutLength {
      FitsFromAll(text, i + 1);
    }
  }

  /** Following the layout position by position is having its fields and separators in place. */
  lemma ShapedIsLaid(text: string)
    ensures Shaped(text) <==> Laid(text)
  {
    if |text| == LayoutLength {
      if Shaped(text) {
        forall k | 0 <= k < LayoutLength
          ensures Fits(text[k], LayoutAt(k))
        {
          FitsFromAt(text, 0, k);
        }
      }
      if Laid(text) {
        forall k | 0 <= k < LayoutLength
          ensures Fits(text[k], LayoutAt(k))
        {
          assert k in {0, 1, 2, 3, 4, 5, 6, 7, 8, 9, 10, 11, 12, 13, 14, 15, 16, 17, 18};
        }
        FitsFromAll(text, 0);
      }
    }
  }

  /** The fields of a shaped text, read as numbers. */
  function Fields(text: string): DateTime
    requires Shaped(text)
  {
    ShapedIsLaid(text);
    DateTime(NumberAt(text, 0, 4), NumberAt(text, 5, 7), NumberAt(text, 8, 10),
             NumberAt(text, 11, 13), NumberAt(text, 14, 16), NumberAt(text, 17, 19))
  }

  /**
    `datetime.strptime(text, "%Y-%m-%d %H:%M:%S")` on the zero-padded form:
    None where Python raises ValueError (wrong layout, or a field out of range).
   */
  function Parse(text: string): (r: Option<DateTime>)
    ensures r.Some? ==> Valid(r.value)
  {
    if Shaped(text) && Valid(Fields(text)) then Some(Fields(text)) else None
  }

  /** The printed form cut back into its padded fields and separators. */
  lemma FormatPieces(dt: DateTime)
    requires Valid(dt)
    ensures var t := Format(dt);
      && t[0..4] == Pad(dt.year, 4) && t[4] == '-' && t[5..7] == Pad(dt.month, 2) && t[7] == '-'
      && t[8..10] == Pad(dt.day, 2) && t[10] == ' ' && t[11..13] == Pad(dt.hour, 2) && t[13] == ':'
      && t[14..16] == Pad(dt.minute, 2) && t[16] == ':' && t[17..19] == Pad(dt.second, 2)
  {
  }

  /** A field of the printed form reads back as the number padded into it. */
  lemma FieldOfPad(t: string, i: nat, n: nat, width: nat)
    requires n < Pow10(width) && i + width <= |t| && t[i..i + width] == Pad(n, width)
    ensures DigitsAt(t, i, i + width) && NumberAt(t, i, i + width) == n
  {
    var p := Pad(n, width);
    forall k | i <= k < i + width
      ensures t[k] == p[k - i] && IsDigit(t[k])
    {
      assert t[i..i + width][k - i] == t[k];
    }
    NumberAtMoved(t, i, p, 0, width);
    NumberOfPad(n, width);
  }

  /** A shaped text is its fields and separators joined back together. */
  lemma ShapedPieces(text: string)
    requires Laid(text)
    ensures text == text[0..4] + "-" + text[5..7] + "-" + text[8..10] + " " +
                    text[11..13] + ":" + text[14..16] + ":" + text[17..19]
  {
  }

  /** The printed form never contains a `.`, so `split(".")[0]` keeps it whole. */
  lemma FormatHasNoDot(dt: DateTime)
    requires Valid(dt)
    ensures '.' !in Format(dt)
    ensures BeforeFirstDot(Format(dt)) == Format(dt)
  {
    assert '.' !in Pad(dt.year, 4) && '.' !in Pad(dt.month, 2) && '.' !in Pad(dt.day, 2);
    assert '.' !in Pad(dt.hour, 2) && '.' !in Pad(dt.minute, 2) && '.' !in Pad(dt.second, 2);
    BeforeFirstDotNoDot(Format(dt));
  }

  /** Every printed date-time parses back to itself. */
  lemma ParseFormat(dt: DateTime)
    requires Valid(dt)
    ensures Parse(Format(dt)) == Some(dt)
  {
    var t := Format(dt);
    FormatPieces(dt);
    FieldOfPad(t, 0, dt.year, 4);
    FieldOfPad(t, 5, dt.month, 2);
    FieldOfPad(t, 8, dt.day, 2);
    FieldOfPad(t, 11, dt.hour, 2);
    FieldOfPad(t, 14, dt.minute, 2);
    FieldOfPad(t, 17, dt.second, 2);
    assert Laid(t);
    ShapedIsLaid(t);
  }

  /** The printed form, cut at its first `.` and parsed, is the date-time printed. */
  lemma ParseFormatWhole(dt: DateTime)
    requires Valid(dt)
    ensures Parse(BeforeFirstDot(Format(dt))) == Some(dt)
  {
    FormatHasNoDot(dt);
    ParseFormat(dt);
  }

  /** Text that parses is exactly the printed form of what it parses to. */
  lemma FormatParse(text: string)
    requires Parse(text).Some?
    ensures Format(Parse(text).value) == text
  {
    ShapedIsLaid(text);
    ShapedPieces(text);
    PadOfNumberAt(text, 0, 4);
    PadOfNumberAt(text, 5, 7);
    PadOfNumberAt(text, 8, 10);
    PadOfNumberAt(text, 11, 13);
    PadOfNumberAt(text, 14, 16);
    PadOfNumberAt(text, 17, 19);
  }

  /** Python's `text.split(".")[0]`: everything before the first `.`. */
  function BeforeFirstDot(text: string): string {
    if |text| == 0 || text[0] == '.' then [] else [text[0]] + BeforeFirstDot(text[1..])
  }

  /** The part kept is a prefix free of `.`, ending at the end of the text or at its first `.`. */
  lemma {:induction false} BeforeFirstDotPrefix(text: string)
    ensures var r := BeforeFirstDot(text);
      r <= text && '.' !in r && (r == text || text[|r|] == '.')
  {
    if |text| > 0 && text[0] != '.' {
      BeforeFirstDotPrefix(text[1..]);
    }
  }

  /** A `.` and whatever follows it, appended to any text, are discarded. */
  lemma {:induction false} BeforeFirstDotFraction(text: string, fraction: string)
    ensures BeforeFirstDot(text + "." + fraction) == BeforeFirstDot(text)
  {
    if |text| == 0 {
      assert (text + "." + fraction)[0] == '.';
    } else if text[0] == '.' {
      assert (text + "." + fraction)[0] == '.';
    } else {
      assert (text + "." + fraction)[1..] == text[1..] + "." + fraction;
      BeforeFirstDotFraction(text[1..], fraction);
    }
  }

  /** Text without a `.` is kept whole. */
  lemma {:induction false} BeforeFirstDotNoDot(text: string)
    requires '.' !in text
    ensures BeforeFirstDot(text) == text
  {
    if |text| > 0 {
      BeforeFirstDotNoDot(text[1..]);
    }
  }
}
