# Landing-page statistics: number formatting, width placeholder and rate jitter

The statistics section of the landing page shows live network figures (blocks
processed, transactions per second) as animated counters. Three small helpers
in `src/components/LandingPage/PreHero/Facts.tsx` carry its logic, and this
project models them in Dafny:

- `formatNumber` prints a number with en-US digit grouping. It then replaces
  every comma with the typographic apostrophe U+2019. It is modelled on
  natural numbers as `Facts.FormatNumber`.
- `getFigureSpacer` builds an invisible placeholder. The placeholder sits in
  the same grid cell as a counter, so that the cell keeps the counter's final
  width. It counts the digits of the number, adds one apostrophe per full
  group of three after the first, and takes that many characters from the end
  of the fixed scheme `999'999'999'999'999`. It is modelled as
  `Facts.GetFigureSpacer`.
- `transactionRateWithJitter` and `updateRateWithJitter` keep the counters
  moving between backend updates. Each wrapper keeps one module-level cell
  holding the last raw rate it saw. If a fetch returns that same rate again,
  it shows `max(0, rate + u)`, where `u` is a random offset in [-20, 20) or
  [-2, 2). Otherwise it stores the new rate and shows it unchanged. Each
  wrapper is an object of the class `Jitter.RateJitter`: the cell is its
  field `last`, and its method `Next` is the wrapper's continuation.
  `Jitter.Step` is the pure specification of one call.

The JavaScript built-ins these helpers use are modelled in `JsText`:
`Number.prototype.toString` on natural numbers, the en-US grouping of
`toLocaleString`, `String.prototype.slice` with its rules for negative and
too-large starts, and `String.prototype.replace` with a global one-character
pattern.

Files: `js_text.dfy` (module `JsText`), `facts.dfy` (module `Facts`),
`jitter.dfy` (module `Jitter`).

## Model

| member | source | states |
|---|---|---|
| JsText.DecimalString | src/components/LandingPage/PreHero/Facts.tsx:62 | `value.toString()` of a natural number is a non-empty string of decimal digits, and it starts with `0` only for zero |
| JsText.ParseDecimalString | src/components/LandingPage/PreHero/Facts.tsx:62 | reading the digits back gives the number, so the digit string loses nothing |
| JsText.DecimalStringLength | src/components/LandingPage/PreHero/Facts.tsx:62 | a number has at most k+1 digits exactly when it is below 10^(k+1) |
| JsText.GroupThousandsShape | src/components/LandingPage/PreHero/Facts.tsx:25-27 | grouping d digits in threes from the right gives width d + (d-1)/3, puts the separator at exactly every fourth position from the right end, and puts only digits everywhere else |
| JsText.StripGroupThousands | src/components/LandingPage/PreHero/Facts.tsx:25-27 | deleting the separators from the grouped text gives back the digits |
| JsText.ReplaceChar | src/components/LandingPage/PreHero/Facts.tsx:28 | the global replace changes every occurrence of the pattern character, keeps every other character in place and keeps the length |
| JsText.StripReplaceChar | src/components/LandingPage/PreHero/Facts.tsx:28 | deleting the new character after the replace is the same as deleting the old character before it |
| JsText.Slice | src/components/LandingPage/PreHero/Facts.tsx:66 | `slice(start)` returns a suffix; a start of 0 or more keeps length−start characters (none if start is past the end); a negative start keeps the last −start characters, capped at the whole string |
| Facts.FormatNumberShape | src/components/LandingPage/PreHero/Facts.tsx:23-29 | `formatNumber(n)` holds no comma; U+2019 stands at exactly every fourth position from the right; deleting it gives `n.toString()`, whose value is n; the width is d + (d-1)/3 |
| Facts.FormatNumberExample | src/components/LandingPage/PreHero/Facts.tsx:23-29 | `formatNumber(1234567)` is `1’234’567` |
| Facts.GroupedWidthNotMultipleOf4 | src/components/LandingPage/PreHero/Facts.tsx:63-64 | the width d + (d-1)/3 is never a multiple of 4, so grouped text never starts with a separator |
| Facts.SchemeIsGroupedNines | src/components/LandingPage/PreHero/Facts.tsx:65 | the scheme is exactly fifteen nines grouped with ASCII apostrophes |
| Facts.GetFigureSpacerIsFigureSpacer | src/components/LandingPage/PreHero/Facts.tsx:61-67 | below 10^15 the spacer as written equals d nines grouped like the number (the corrected spacer) |
| Facts.GetFigureSpacerBelowLimit | src/components/LandingPage/PreHero/Facts.tsx:61-67 | below 10^15 the spacer is a suffix of the scheme, has width d + (d-1)/3, is as wide as `formatNumber(n)`, holds exactly d nines and does not start with an apostrophe |
| Facts.GetFigureSpacerExample | src/components/LandingPage/PreHero/Facts.tsx:61-67 | the spacer of 1234 is `9'999`, five characters like `1’234` |
| Facts.GetFigureSpacerTooNarrow | src/components/LandingPage/PreHero/Facts.tsx:66 | from 10^15 on the width exceeds 19; `slice` then keeps width−19 characters (19 once the width reaches 38), which is narrower than `formatNumber(n)` |
| Facts.SixteenDigitSpacer | src/components/LandingPage/PreHero/Facts.tsx:61-66 | every sixteen-digit number gets the spacer `99` for a 21-character counter text |
| Facts.GetFigureSpacerCounterexample | src/components/LandingPage/PreHero/Facts.tsx:66 | the spacer of 10^15 is `99` while its counter text is 21 characters wide |
| Facts.FigureSpacerMatchesFormatNumber | src/components/LandingPage/PreHero/Facts.tsx:83-84 | the corrected spacer is as wide as `formatNumber(n)` for every natural n, holds one nine per digit and does not start with an apostrophe |
| Jitter.ClampAtZero | src/components/LandingPage/PreHero/Facts.tsx:43 | `Math.max(0, x)` is at least 0 and at least x, and is one of the two |
| Jitter.Offset | src/components/LandingPage/PreHero/Facts.tsx:54 | `Math.random() * 4 - 2` (or `* 40 - 20`) lies in [-h, h) |
| Jitter.Step | src/components/LandingPage/PreHero/Facts.tsx:40-58 | after one call the cell holds the fetched rate; a rate that differs from the cell is shown unchanged; a repeated rate is shown jittered, never negative, no lower than rate−h and, for a non-negative rate, below rate+h |
| Jitter.ReplayEndsOnLastRate | src/components/LandingPage/PreHero/Facts.tsx:39-59 | over any sequence of polls the cell ends on the last rate fetched, so repeated identical fetches never move it |
| Jitter.ReplayJittersRepeats | src/components/LandingPage/PreHero/Facts.tsx:42-46 | in a sequence of polls the i-th value shown is `max(0, rate + u)` exactly when the i-th rate equals the one fetched just before it (the initial 0 for the first poll), and is the raw rate otherwise |
| Jitter.RateJitter.ForTransactionRate | src/components/LandingPage/PreHero/Facts.tsx:39 | the transaction-rate wrapper starts with its cell at 0 and offsets in [-20, 20) |
| Jitter.RateJitter.ForUpdateRate | src/components/LandingPage/PreHero/Facts.tsx:50 | the update-rate wrapper starts with its cell at 0 and offsets in [-2, 2) |
| Jitter.RateJitter.Next | src/components/LandingPage/PreHero/Facts.tsx:41-46 | the wrapper's call does what `Step` says: the cell ends on the fetched rate, a changed rate is shown raw, and a repeated rate is shown jittered within [rate−h, rate+h) and never negative |

## Findings

| source | as written | input that shows it | evidently intended | confidence | as-written member | corrected member |
|---|---|---|---|---|---|---|
| src/components/LandingPage/PreHero/Facts.tsx:65-66 | the scheme has only 19 characters, so from 16 digits on `slice` gets a negative start and returns a short suffix | 10^15 (`1000000000000000`): spacer `99`, counter text `1’000’000’000’000’000` (21 characters) | a placeholder as wide as the counter text for every number | medium: real counts are far below 10^15; not executed | Facts.GetFigureSpacerCounterexample | Facts.FigureSpacerMatchesFormatNumber |

The corrected spacer `Facts.FigureSpacer` groups as many nines as the number
has digits. `Facts.GetFigureSpacerIsFigureSpacer` shows that it agrees with
the code as written on every number below 10^15.

## Left out

- The React components (`TotalBlocks`, `ParallelSubnets`, `BlockThroughput`, `EthEquivalentTxRate`, `ICPTransactionRate`, `Facts`) are layout and rendering, not logic.
- The `useQuery` polling, its refetch intervals and the promise plumbing around the fetches are asynchronous library behaviour. `Jitter.Replay` stands for the sequence of polls, and the fetched rate is a parameter.
- The network-stats client (`getBlockCount`, `getTransactionRate`, `getTransactionRateV3`, …) is an external service. `src/utils/network-stats` is not part of this model.
- `ConstantRateCounter`, `SpringCounter` and the gauge rotation (`useMotionValue`, `useTransform`) are per-frame animations with floating-point interpolation. `./Counters` is not part of this model.
- `formatStateSize`, `toFixed(1)`, the `* 80` scaling and the rounding that `toLocaleString` applies to fractional inputs are floating-point formatting. `formatNumber` is modelled on natural numbers only.
- The injected `xdr-price` value is read but never used.
- `Math.random()` is replaced by a parameter in [0, 1).
- Rates are modelled as exact reals. Double rounding in `rate + Math.random() * 40 - 20`, and NaN (which never equals itself under `===`), are not modelled.
- JsText.DecimalString: models `toString` as plain digits. JavaScript prints numbers from 10^21 on in exponent notation, and doubles above 2^53 are not exact integers; neither is modelled.
- The two module-level cells are two separate `RateJitter` objects. The model does not capture two panels of the same kind sharing one cell.
