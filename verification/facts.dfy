/** The number formatting of the landing page's statistics panel: the counter
    text (FormatNumber) and the invisible placeholder laid under it in the same
    grid cell to reserve its width (GetFigureSpacer, and FigureSpacer, the
    placeholder as it was evidently meant to be for every number). */
module Facts {
  import opened JsText

  /** The typographic apostrophe U+2019 that replaces the en-US comma. */
  const Apostrophe: char := '’'

  /** The placeholder scheme: fifteen nines grouped with ASCII apostrophes. */
  const Scheme: string := "999'999'999'999'999"

  /** `formatNumber(x)` on a natural number: en-US grouping (no fraction
      digits), then every comma replaced by U+2019. */
  function FormatNumber(n: nat): string {
    ReplaceChar(GroupThousands(DecimalString(n), ','), ',', Apostrophe)
  }

  /** `getFigureSpacer(value)` as written: count the digits, add one apostrophe
      per full group of three after the first, and take that many characters
      from the end of Scheme with `slice`. */
  function GetFigureSpacer(n: nat): string {
    var digitCount := |DecimalString(n)|;
    var withApostrophes := digitCount + (digitCount - 1) / 3;
    Slice(Scheme, |Scheme| - withApostrophes)
  }

  /** d nines. */
  function Nines(d: nat): (s: string)
    ensures |s| == d && forall i :: 0 <= i < d ==> s[i] == '9'
  {
    seq(d, _ => '9')
  }

  /** The placeholder as intended for every natural number: as many nines as
      the number has digits, grouped like the number itself. */
  function FigureSpacer(n: nat): string {
    GroupThousands(Nines(|DecimalString(n)|), '\'')
  }

  /** The counter text has no comma left; U+2019 stands exactly at every fourth
      position from the right; deleting it gives back `n.toString()`, whose
      value is n; the width is that of the grouped digits. */
  lemma FormatNumberShape(n: nat)
    ensures var r := FormatNumber(n);
      && |r| == GroupedWidth(|DecimalString(n)|)
      && Lacks(r, ',')
      && (forall i :: 0 <= i < |r| ==> (r[i] == Apostrophe <==> (|r| - i) % 4 == 0))
      && Strip(r, Apostrophe) == DecimalString(n)
      && ParseDecimal(Strip(r, Apostrophe)) == n
  {
    var digits := DecimalString(n);
    var g := GroupThousands(digits, ',');
    assert Lacks(digits, ',');
    GroupThousandsShape(digits, ',');
    forall i | 0 <= i < |g| && g[i] != ','
      ensures g[i] != Apostrophe
    {
      assert g[i] in digits;
    }
    StripReplaceChar(g, ',', Apostrophe);
    StripGroupThousands(digits, ',');
    ParseDecimalString(n);
  }

  /** The grouped nines are fixed by their width: an apostrophe at every fourth
      position from the right, a nine everywhere else. */
  lemma GroupedNinesAt(d: nat)
    requires d >= 1
    ensures var g := GroupThousands(Nines(d), '\'');
      && |g| == GroupedWidth(d)
      && forall i :: 0 <= i < |g| ==> g[i] == (if (|g| - i) % 4 == 0 then '\'' else '9')
  {
    var g := GroupThousands(Nines(d), '\'');
    GroupThousandsShape(Nines(d), '\'');
    forall i | 0 <= i < |g| && g[i] != '\''
      ensures g[i] == '9'
    {
      assert g[i] in Nines(d);
    }
  }

  /** No grouped width is a multiple of four, so grouped text never begins
      with a separator. */
  lemma GroupedWidthNotMultipleOf4(d: nat)
    requires d >= 1
    ensures GroupedWidth(d) % 4 != 0
  {
    var q := (d - 1) / 3;
    assert d - 1 == 3 * q + (d - 1) % 3;
  }

  /** Scheme is the grouping of fifteen nines. */
  lemma SchemeIsGroupedNines()
    ensures Scheme == GroupThousands(Nines(15), '\'')
  {
    GroupedNinesAt(15);
    var g := GroupThousands(Nines(15), '\'');
    assert |g| == 19;
    forall i | 0 <= i < 19
      ensures Scheme[i] == g[i]
    {
      if i % 4 == 3 {
        assert (19 - i) % 4 == 0;
      }
    }
  }

  /** Up to fifteen digits, the placeholder as written is the intended one. */
  lemma {:induction false} GetFigureSpacerIsFigureSpacer(n: nat)
    requires n < Pow10(15)
    ensures GetFigureSpacer(n) == FigureSpacer(n)
  {
    var d := |DecimalString(n)|;
    DecimalStringLength(n, 14);
    var w := GroupedWidth(d);
    assert w <= 19;
    var r := GetFigureSpacer(n);
    assert |r| == w;
    SchemeIsGroupedNines();
    GroupedNinesAt(15);
    GroupedNinesAt(d);
    var f := FigureSpacer(n);
    forall j | 0 <= j < w
      ensures r[j] == f[j]
    {
      assert r[j] == Scheme[19 - w + j];
      assert 19 - (19 - w + j) == w - j;
    }
  }

  /** A worked value: seven digits print with two U+2019 separators. */
  lemma FormatNumberExample()
    ensures FormatNumber(1234567) == "1’234’567"
  {
    GroupSevenDigits();
    ReplaceInSevenDigits();
  }

  lemma GroupSevenDigits()
    ensures GroupThousands(DecimalString(1234567), ',') == "1,234,567"
  {
    assert DecimalString(1234567) == "1234567";
    assert "1234567"[..4] == "1234" && "1234567"[4..] == "567";
    assert "1234"[..1] == "1" && "1234"[1..] == "234";
  }

  lemma ReplaceInSevenDigits()
    ensures ReplaceChar("1,234,567", ',', Apostrophe) == "1’234’567"
  {
    var r := ReplaceChar("1,234,567", ',', Apostrophe);
    forall i | 0 <= i < 9
      ensures r[i] == "1’234’567"[i]
    {
    }
  }

  /** A worked value: the placeholder of a four-digit number is the five
      characters "9'999", as wide as "1’234". */
  lemma GetFigureSpacerExample()
    ensures GetFigureSpacer(1234) == "9'999"
  {
    assert DecimalString(1234) == "1234";
  }

  /** For every natural number the intended placeholder is exactly as wide as
      the counter text, holds one nine per digit and does not begin with an
      apostrophe. */
  lemma FigureSpacerMatchesFormatNumber(n: nat)
    ensures |FigureSpacer(n)| == |FormatNumber(n)|
    ensures Strip(FigureSpacer(n), '\'') == Nines(|DecimalString(n)|)
    ensures FigureSpacer(n)[0] != '\''
  {
    var d := |DecimalString(n)|;
    FormatNumberShape(n);
    GroupedNinesAt(d);
    GroupedWidthNotMultipleOf4(d);
    StripGroupThousands(Nines(d), '\'');
  }

  /** Below 10^15 the placeholder as written is as wide as the counter text,
      ends Scheme, holds one nine per digit and does not begin with an
      apostrophe. */
  lemma GetFigureSpacerBelowLimit(n: nat)
    requires n < Pow10(15)
    ensures var r := GetFigureSpacer(n);
      && |r| == GroupedWidth(|DecimalString(n)|) == |FormatNumber(n)|
      && r == Scheme[|Scheme| - |r|..]
      && Strip(r, '\'') == Nines(|DecimalString(n)|)
      && r[0] != '\''
  {
    GetFigureSpacerIsFigureSpacer(n);
    FigureSpacerMatchesFormatNumber(n);
    FormatNumberShape(n);
  }

  /** From 10^15 on (sixteen digits or more) the grouped width exceeds the 19
      characters of Scheme, `slice` receives a negative start and keeps only
      the last `width - 19` characters (all 19 once the width reaches 38):
      the placeholder is narrower than the counter text. */
  lemma GetFigureSpacerTooNarrow(n: nat)
    requires n >= Pow10(15)
    ensures var w := GroupedWidth(|DecimalString(n)|);
      && w > 19
      && |GetFigureSpacer(n)| == (if w <= 38 then w - 19 else 19)
      && |GetFigureSpacer(n)| < |FormatNumber(n)|
  {
    DecimalStringLength(n, 14);
    FormatNumberShape(n);
  }

  /** Every sixteen-digit number, the smallest 10^15 among them, gets the
      placeholder "99" for a 21-character counter text. */
  lemma {:induction false} SixteenDigitSpacer(n: nat)
    requires |DecimalString(n)| == 16
    ensures GetFigureSpacer(n) == "99"
    ensures |FormatNumber(n)| == 21
  {
    FormatNumberShape(n);
    assert GetFigureSpacer(n) == Scheme[17..];
  }

  /** The smallest number the placeholder fails: 10^15, whose counter text
      "1’000’000’000’000’000" is 21 characters wide while the placeholder is
      "99". */
  lemma GetFigureSpacerCounterexample()
    ensures GetFigureSpacer(Pow10(15)) == "99"
    ensures |FormatNumber(Pow10(15))| == 21
  {
    var n := Pow10(15);
    DecimalStringLength(n, 14);
    DecimalStringLength(n, 15);
    assert Pow10(16) == 10 * n;
    SixteenDigitSpacer(n);
  }
}
