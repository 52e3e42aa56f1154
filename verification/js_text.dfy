/** The few JavaScript string and number built-ins that the landing page's
    formatting helpers rely on, modelled on natural numbers and `seq<char>`:
    - `Number.prototype.toString()` of a non-negative integer (DecimalString),
    - the digit grouping of `toLocaleString("en-US", { maximumFractionDigits: 0 })`
      on a non-negative integer (GroupThousands),
    - `String.prototype.slice(start)` (Slice),
    - `String.prototype.replace(/c/g, d)` for a one-character pattern (ReplaceChar),
    and, to state what they produce, the inverse of DecimalString (ParseDecimal)
    and the deletion of one character (Strip). */
module JsText {

  predicate IsDigit(c: char) {
    '0' <= c <= '9'
  }

  predicate AllDigits(s: string) {
    forall i :: 0 <= i < |s| ==> IsDigit(s[i])
  }

  /** True when `c` does not occur in `s`. */
  predicate Lacks(s: string, c: char) {
    forall i :: 0 <= i < |s| ==> s[i] != c
  }

  function DigitValue(c: char): (k: nat)
    requires IsDigit(c)
    ensures k < 10
  {
    c as int - '0' as int
  }

  function DigitChar(k: nat): (c: char)
    requires k < 10
    ensures IsDigit(c) && DigitValue(c) == k
  {
    ('0' as int + k) as char
  }

  function Pow10(k: nat): (r: nat)
    ensures r >= 1
  {
    if k == 0 then 1 else 10 * Pow10(k - 1)
  }

  /** `n.toString()` for a natural number: its decimal digits, most significant
      first, with no leading zero (JavaScript switches to exponent notation
      only from 10^21 on, which this model does not cover). */
  function DecimalString(n: nat): (s: string)
    ensures |s| >= 1 && AllDigits(s)
    ensures s[0] == '0' <==> n == 0
    decreases n
  {
    if n < 10 then [DigitChar(n)] else DecimalString(n / 10) + [DigitChar(n % 10)]
  }

  /** The value of a string of decimal digits. */
  function ParseDecimal(s: string): nat
    requires AllDigits(s)
  {
    if s == [] then 0 else 10 * ParseDecimal(s[..|s| - 1]) + DigitValue(s[|s| - 1])
  }

  /** Reading the digits back gives the number: DecimalString loses nothing. */
  lemma {:induction false} ParseDecimalString(n: nat)
    ensures ParseDecimal(DecimalString(n)) == n
  {
    if n >= 10 {
      var s := DecimalString(n);
      assert s[..|s| - 1] == DecimalString(n / 10);
      ParseDecimalString(n / 10);
    }
  }

  /** A natural number has at most k + 1 digits exactly when it is below 10^(k+1). */
  lemma {:induction false} DecimalStringLength(n: nat, k: nat)
    ensures |DecimalString(n)| <= k + 1 <==> n < Pow10(k + 1)
    decreases n
  {
    if n >= 10 {
      if k == 0 {
        assert Pow10(1) == 10;
      } else {
        DecimalStringLength(n / 10, k - 1);
        assert Pow10(k + 1) == 10 * Pow10(k);
      }
    } else {
      assert Pow10(k + 1) >= 10 by {
        assert Pow10(k + 1) == 10 * Pow10(k);
      }
    }
  }

  /** The digit grouping of `toLocaleString("en-US")` on an integer: the digits
      split in groups of three from the right, the groups joined by `sep`. */
  function GroupThousands(s: string, sep: char): string
    decreases |s|
  {
    if |s| <= 3 then s else GroupThousands(s[..|s| - 3], sep) + [sep] + s[|s| - 3..]
  }

  /** The width of `d` digits once grouped: one separator per full group of
      three after the first. */
  function GroupedWidth(d: nat): nat {
    if d == 0 then 0 else d + (d - 1) / 3
  }

  /** `sep` stands at exactly every fourth position counted from the right end of `r`. */
  predicate SeparatorEveryFourth(r: string, sep: char) {
    forall i :: 0 <= i < |r| ==> (r[i] == sep <==> (|r| - i) % 4 == 0)
  }

  /** Every character of `r` other than `sep` occurs in `s`. */
  predicate DrawnFrom(r: string, s: string, sep: char) {
    forall i :: 0 <= i < |r| && r[i] != sep ==> r[i] in s
  }

  /** What grouping produces: the grouped width, a separator at exactly every
      fourth position counted from the right end, and elsewhere only characters
      taken from the digits. */
  lemma {:induction false} GroupThousandsShape(s: string, sep: char)
    requires |s| >= 1 && Lacks(s, sep)
    ensures |GroupThousands(s, sep)| == GroupedWidth(|s|)
    ensures SeparatorEveryFourth(GroupThousands(s, sep), sep)
    ensures DrawnFrom(GroupThousands(s, sep), s, sep)
    decreases |s|
  {
    if |s| > 3 {
      var p, t := s[..|s| - 3], s[|s| - 3..];
      GroupThousandsShape(p, sep);
      AppendGroup(GroupThousands(p, sep), p, t, sep);
      assert s == p + t;
    }
  }

  /** One grouping step keeps the shape: a grouped prefix, a separator, then
      three more characters. */
  lemma AppendGroup(g: string, p: string, t: string, sep: char)
    requires |t| == 3 && Lacks(t, sep)
    requires SeparatorEveryFourth(g, sep) && DrawnFrom(g, p, sep)
    ensures SeparatorEveryFourth(g + [sep] + t, sep)
    ensures DrawnFrom(g + [sep] + t, p + t, sep)
  {
    var r := g + [sep] + t;
    forall i | 0 <= i < |r|
      ensures (r[i] == sep <==> (|r| - i) % 4 == 0) && (r[i] != sep ==> r[i] in p + t)
    {
      if i < |g| {
        assert r[i] == g[i] && |r| - i == (|g| - i) + 4;
        if g[i] != sep {
          assert g[i] in p;
        }
      } else if i > |g| {
        assert r[i] == t[i - |g| - 1];
      }
    }
  }

  /** `s` with every occurrence of `c` deleted. */
  function Strip(s: string, c: char): (r: string)
    ensures Lacks(r, c)
  {
    if s == [] then [] else (if s[0] == c then [] else [s[0]]) + Strip(s[1..], c)
  }

  lemma {:induction false} StripAppend(a: string, b: string, c: char)
    ensures Strip(a + b, c) == Strip(a, c) + Strip(b, c)
  {
    if a == [] {
      assert a + b == b;
    } else {
      assert (a + b)[1..] == a[1..] + b;
      StripAppend(a[1..], b, c);
    }
  }

  lemma {:induction false} StripAbsent(s: string, c: char)
    requires Lacks(s, c)
    ensures Strip(s, c) == s
  {
    if s != [] {
      StripAbsent(s[1..], c);
    }
  }

  /** Deleting the separators undoes the grouping. */
  lemma {:induction false} StripGroupThousands(s: string, sep: char)
    requires Lacks(s, sep)
    ensures Strip(GroupThousands(s, sep), sep) == s
    decreases |s|
  {
    if |s| <= 3 {
      StripAbsent(s, sep);
    } else {
      var p, t := s[..|s| - 3], s[|s| - 3..];
      assert s == p + t;
      StripGroupThousands(p, sep);
      StripAppend(GroupThousands(p, sep), [sep], sep);
      StripAppend(GroupThousands(p, sep) + [sep], t, sep);
      StripAbsent(t, sep);
      assert Strip([sep], sep) == [];
    }
  }

  /** `s.replace(/from/g, to)`: every `from` becomes `to`; nothing else moves. */
  function ReplaceChar(s: string, from: char, to: char): (r: string)
    ensures |r| == |s|
    ensures forall i :: 0 <= i < |s| ==> r[i] == (if s[i] == from then to else s[i])
  {
    if s == [] then [] else [if s[0] == from then to else s[0]] + ReplaceChar(s[1..], from, to)
  }

  /** Deleting the new character after a replacement is deleting the old one before it. */
  lemma {:induction false} StripReplaceChar(s: string, from: char, to: char)
    requires Lacks(s, to)
    ensures Strip(ReplaceChar(s, from, to), to) == Strip(s, from)
  {
    if s != [] {
      StripReplaceChar(s[1..], from, to);
      assert ReplaceChar(s, from, to)[1..] == ReplaceChar(s[1..], from, to);
    }
  }

  /** `s.slice(start)`: a negative start counts from the end and is clamped at
      the beginning, a start past the end gives the empty string. */
  function Slice(s: string, start: int): (r: string)
    ensures |r| <= |s| && r == s[|s| - |r|..]
    ensures start >= 0 ==> |r| == (if start <= |s| then |s| - start else 0)
    ensures start < 0 ==> |r| == (if -start <= |s| then -start else |s|)
  {
    var from :=
      if start < 0 then (if |s| + start > 0 then |s| + start else 0)
      else (if start < |s| then start else |s|);
    s[from..]
  }
}
