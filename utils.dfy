/** The client helpers of src/utils/index.ts: `formatTime`, which shows a duration in
    seconds as `m:ss`, and `calculateCost`, the one-number cost the pages show. */
module Utils {
  import opened Text
  import TokenCalculator

  /** JavaScript's `seconds % 60`: the remainder of a division truncated toward zero,
      so it takes the sign of `seconds`. */
  function JsRemainder60(seconds: int): (r: int)
    ensures -60 < r < 60
    ensures seconds >= 0 ==> r >= 0
    ensures seconds <= 0 ==> r <= 0
    ensures (seconds - r) % 60 == 0
  {
    if seconds >= 0 then seconds % 60 else -((-seconds) % 60)
  }

  /** `formatTime(seconds)`: `Math.floor(seconds / 60)`, a colon, and the remainder
      left-padded with '0' to two characters. Dafny's `/` by a positive divisor is
      `Math.floor` of the quotient. */
  function FormatTime(seconds: int): string {
    IntToString(seconds / 60) + ":" + PadStart(IntToString(JsRemainder60(seconds)), 2, '0')
  }

  /** A number below 60 written in two digits, as the padding produces it. */
  lemma TwoDigits(n: nat)
    requires n < 60
    ensures var t := PadStart(IntToString(n), 2, '0');
      |t| == 2 && IsDigit(t[0]) && IsDigit(t[1]) && DigitsValue(t) == n
  {
    var d := NatToString(n);
    var t := PadStart(d, 2, '0');
    NatToStringValue(n);
    if n < 10 {
      assert t == ['0'] + d;
      assert t[..1] == "0";
      assert DigitsValue(t[..1]) == 10 * DigitsValue("") + 0;
    }
  }

  /** For a non-negative duration the result is `m:ss`: digits for the minutes, a
      colon, exactly two digits for the seconds, which lie in 0..59, and the two read
      back as the duration. */
  lemma {:induction false} FormatTimeReadsBack(seconds: nat)
    ensures var r := FormatTime(seconds);
      && |r| >= 4 && r[|r| - 3] == ':'
      && (forall k :: 0 <= k < |r| - 3 ==> IsDigit(r[k]))
      && IsDigit(r[|r| - 2]) && IsDigit(r[|r| - 1])
      && DigitsValue(r[|r| - 2..]) <= 59
      && 60 * DigitsValue(r[..|r| - 3]) + DigitsValue(r[|r| - 2..]) == seconds
  {
    var m := NatToString(seconds / 60);
    var t := PadStart(IntToString(JsRemainder60(seconds)), 2, '0');
    TwoDigits(seconds % 60);
    NatToStringValue(seconds / 60);
    var r := FormatTime(seconds);
    assert r == m + ":" + t;
    assert r[..|r| - 3] == m;
    assert r[|r| - 2..] == t;
  }

  /** A negative duration keeps JavaScript's signs: the floor quotient and the
      truncated remainder are both negative, and the padding leaves "-5" alone. */
  lemma NegativeDuration()
    ensures FormatTime(-5) == "-1:-5"
  {
    assert -5 / 60 == -1;
    assert IntToString(-1) == "-1";
    assert IntToString(-5) == "-5";
  }

  /** `calculateCost(inputTokens, outputTokens)`: both parts at 0.3 per million tokens,
      added unrounded, then rounded to four decimals. */
  function CalculateCost(inputTokens: int, outputTokens: int): (cost: real)
    ensures inputTokens >= 0 && outputTokens >= 0 ==> cost >= 0.0
    ensures TokenCalculator.IsCentiCent(cost)
    ensures -0.00005 < cost - (inputTokens + outputTokens) as real * 0.0000003 <= 0.00005
  {
    var inputCostPerMillion := 0.3;
    var outputCostPerMillion := 0.3;
    var inputCost := inputTokens as real / 1000000.0 * inputCostPerMillion;
    var outputCost := outputTokens as real / 1000000.0 * outputCostPerMillion;
    TokenCalculator.Round4(inputCost + outputCost)
  }

  /** The client's cost is the server's total. */
  lemma CalculateCostIsTotal(inputTokens: int, outputTokens: int)
    ensures CalculateCost(inputTokens, outputTokens) == TokenCalculator.CalculateCost(inputTokens, outputTokens).totalCost
  {
  }

  lemma CalculateCostSymmetric(a: int, b: int)
    ensures CalculateCost(a, b) == CalculateCost(b, a)
  {
  }

  lemma CalculateCostOfNothing()
    ensures CalculateCost(0, 0) == 0.0
  {
  }
}
