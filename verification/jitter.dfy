/** The two jittering wrappers around the transaction-rate fetches. Each keeps
    one module-level cell holding the last raw rate it saw. When a fetch returns
    that same rate again, the panel shows `max(0, rate + offset)` with a random
    offset in [-h, h) (h = 20 for the transaction rate, 2 for the update rate)
    and leaves the cell alone; otherwise it stores the new rate and shows it
    unchanged. `Math.random()` is the parameter `random`, in [0, 1). */
module Jitter {

  /** Half the width of the offset range of the transaction-rate wrapper. */
  const TxHalfWidth: real := 20.0

  /** Half the width of the offset range of the update-rate wrapper. */
  const UpdateHalfWidth: real := 2.0

  /** `Math.max(0, x)`. */
  function ClampAtZero(x: real): (r: real)
    ensures r >= 0.0 && r >= x && (r == x || r == 0.0)
  {
    if x < 0.0 then 0.0 else x
  }

  /** `Math.random() * 2h - h`: uniform over [-h, h) when random is over [0, 1). */
  function Offset(random: real, halfWidth: real): (u: real)
    requires 0.0 <= random < 1.0 && halfWidth > 0.0
    ensures -halfWidth <= u < halfWidth
  {
    random * (2.0 * halfWidth) - halfWidth
  }

  /** What one poll shows, and what the cell holds afterwards. */
  datatype Poll = Poll(shown: real, last: real)

  /** One call of a wrapper, given the cell's content `last`, the fetched
      `rate` and the random draw. */
  function Step(last: real, rate: real, random: real, halfWidth: real): (p: Poll)
    requires 0.0 <= random < 1.0 && halfWidth > 0.0
    ensures p.last == rate
    ensures last != rate ==> p.shown == rate
    ensures last == rate ==> p.shown >= 0.0 && p.shown >= rate - halfWidth
    ensures last == rate && rate >= 0.0 ==> p.shown < rate + halfWidth
  {
    if last == rate then
      Poll(ClampAtZero(rate + Offset(random, halfWidth)), last)
    else
      Poll(rate, rate)
  }

  /** What a panel shows, poll after poll, and the cell at the end. */
  datatype Run = Run(shown: seq<real>, last: real)

  /** The polling loop of a panel: the wrapper called once per fetched rate,
      the cell threaded from each call to the next. */
  function Replay(last: real, rates: seq<real>, randoms: seq<real>, halfWidth: real): (r: Run)
    requires |randoms| == |rates|
    requires forall i :: 0 <= i < |randoms| ==> 0.0 <= randoms[i] < 1.0
    requires halfWidth > 0.0
    ensures |r.shown| == |rates|
    decreases |rates|
  {
    if rates == [] then Run([], last)
    else
      var p := Step(last, rates[0], randoms[0], halfWidth);
      var rest := Replay(p.last, rates[1..], randoms[1..], halfWidth);
      Run([p.shown] + rest.shown, rest.last)
  }

  /** The cell never drifts: after any run it holds the last rate fetched. */
  lemma {:induction false} ReplayEndsOnLastRate(last: real, rates: seq<real>, randoms: seq<real>, halfWidth: real)
    requires |randoms| == |rates|
    requires forall i :: 0 <= i < |randoms| ==> 0.0 <= randoms[i] < 1.0
    requires halfWidth > 0.0
    ensures Replay(last, rates, randoms, halfWidth).last == if rates == [] then last else rates[|rates| - 1]
    decreases |rates|
  {
    if rates != [] {
      var p := Step(last, rates[0], randoms[0], halfWidth);
      ReplayEndsOnLastRate(p.last, rates[1..], randoms[1..], halfWidth);
    }
  }

  /** The i-th value shown is jittered exactly when the i-th fetched rate
      equals the one fetched just before it (the initial cell content for the
      first poll), and is the raw rate otherwise. */
  lemma {:induction false} ReplayJittersRepeats(last: real, rates: seq<real>, randoms: seq<real>, halfWidth: real, i: nat)
    requires |randoms| == |rates| && i < |rates|
    requires forall k :: 0 <= k < |randoms| ==> 0.0 <= randoms[k] < 1.0
    requires halfWidth > 0.0
    ensures Replay(last, rates, randoms, halfWidth).shown[i] ==
      if (if i == 0 then last else rates[i - 1]) == rates[i]
      then ClampAtZero(rates[i] + Offset(randoms[i], halfWidth))
      else rates[i]
    decreases i
  {
    if i > 0 {
      var p := Step(last, rates[0], randoms[0], halfWidth);
      ReplayJittersRepeats(p.last, rates[1..], randoms[1..], halfWidth, i - 1);
      assert rates[1..][i - 1] == rates[i];
    }
  }

  /** One wrapper together with its module-level cell (`lastTxRate` or
      `lastUpdateTxRate`). */
  class RateJitter {
    const halfWidth: real
    var last: real

    ghost predicate Valid() {
      halfWidth > 0.0
    }

    /** `transactionRateWithJitter` with `lastTxRate = 0`. */
    constructor ForTransactionRate()
      ensures Valid() && halfWidth == TxHalfWidth && last == 0.0
    {
      halfWidth := TxHalfWidth;
      last := 0.0;
    }

    /** `updateRateWithJitter` with `lastUpdateTxRate = 0`. */
    constructor ForUpdateRate()
      ensures Valid() && halfWidth == UpdateHalfWidth && last == 0.0
    {
      halfWidth := UpdateHalfWidth;
      last := 0.0;
    }

    /** The wrapper's continuation on a fetched `rate`. */
    method Next(rate: real, random: real) returns (shown: real)
      requires Valid() && 0.0 <= random < 1.0
      modifies this
      ensures Poll(shown, last) == Step(old(last), rate, random, halfWidth)
      ensures last == rate
      ensures old(last) != rate ==> shown == rate
      ensures old(last) == rate && rate >= 0.0 ==> 0.0 <= shown && rate - halfWidth <= shown < rate + halfWidth
    {
      if last == rate {
        shown := ClampAtZero(rate + Offset(random, halfWidth));
      } else {
        last := rate;
        shown := rate;
      }
    }
  }
}
