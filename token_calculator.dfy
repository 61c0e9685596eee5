/** `TokenCalculator` (src/infrastructure/utils/tokenCalculator.ts): token estimates
    from text length and audio size, and the dollar cost of a token count.

    Costs are exact `real`s: the model has no binary floating point, so
    `Math.round(x * 10000) / 10000` is the exact nearest multiple of 0.0001
    (ties upward). */
module TokenCalculator {
  import opened Text

  datatype TokenUsage = TokenUsage(inputTokens: nat, outputTokens: nat)

  /** Adds the usage of two model calls componentwise. */
  function Add(a: TokenUsage, b: TokenUsage): TokenUsage {
    TokenUsage(a.inputTokens + b.inputTokens, a.outputTokens + b.outputTokens)
  }

  const NoUsage: TokenUsage := TokenUsage(0, 0)

  /** Usages add up as a commutative monoid with no usage as its unit: the order in
      which the calls of a video are summed does not change the total. */
  lemma AddIsMonoid(a: TokenUsage, b: TokenUsage, c: TokenUsage)
    ensures Add(a, NoUsage) == a && Add(NoUsage, a) == a
    ensures Add(a, b) == Add(b, a)
    ensures Add(Add(a, b), c) == Add(a, Add(b, c))
  {
  }

  /** `estimateTokens`: one token per four UTF-16 code units of `text.length`,
      rounded up. */
  function EstimateTokens(text: string): (r: nat)
    ensures 4 * r >= Utf16Length(text) && 4 * (r - 1) < Utf16Length(text)
  {
    (Utf16Length(text) + 3) / 4
  }

  /** Five characters outside the Basic Multilingual Plane are ten code units, so three
      tokens. */
  lemma AstralCharactersCountTwice()
    ensures EstimateTokens("\U{1F600}\U{1F600}\U{1F600}\U{1F600}\U{1F600}") == 3
  {
    var c := '\U{1F600}';
    assert CodeUnits(c) == 2;
    assert Utf16Length([c]) == 2 by { assert [c][..0] == []; }
    assert Utf16Length([c, c]) == 4 by { assert [c, c][..1] == [c]; }
    assert Utf16Length([c, c, c]) == 6 by { assert [c, c, c][..2] == [c, c]; }
    assert Utf16Length([c, c, c, c]) == 8 by { assert [c, c, c, c][..3] == [c, c, c]; }
    assert Utf16Length([c, c, c, c, c]) == 10 by { assert [c, c, c, c, c][..4] == [c, c, c, c]; }
  }

  /** `estimateAudioTokens`: one token per thousand bytes, rounded up. */
  function EstimateAudioTokens(audioSizeBytes: nat): (r: nat)
    ensures 1000 * r >= audioSizeBytes && 1000 * (r - 1) < audioSizeBytes
  {
    (audioSizeBytes + 999) / 1000
  }

  lemma EmptyTextHasNoTokens()
    ensures EstimateTokens("") == 0 && EstimateAudioTokens(0) == 0
  {
  }

  /** A longer text never has a smaller estimate. */
  lemma EstimateTokensMonotone(s: string, t: string)
    requires Utf16Length(s) <= Utf16Length(t)
    ensures EstimateTokens(s) <= EstimateTokens(t)
  {
  }

  /** The estimate of a concatenation is within one token of the sum of the estimates. */
  lemma EstimateTokensConcat(s: string, t: string)
    ensures EstimateTokens(s + t) <= EstimateTokens(s) + EstimateTokens(t)
    ensures EstimateTokens(s) + EstimateTokens(t) <= EstimateTokens(s + t) + 1
  {
    Utf16LengthConcat(s, t);
  }

  const InputCostPerMillion: real := 0.3
  const OutputCostPerMillion: real := 0.3

  /** `Math.round(x * 10000) / 10000`: `Math.round` rounds to the nearest integer, ties
      toward +infinity. The result is the multiple of 0.0001 nearest to `x`. */
  function Round4(x: real): (r: real)
    ensures (r * 10000.0).Floor as real == r * 10000.0
    ensures x - 0.00005 < r <= x + 0.00005
  {
    (x * 10000.0 + 0.5).Floor as real / 10000.0
  }

  /** `tokens / 1000000 * ratePerMillion` before rounding. */
  function UnroundedCost(tokens: int, ratePerMillion: real): real {
    tokens as real / 1000000.0 * ratePerMillion
  }

  datatype CostBreakdown = CostBreakdown(inputCost: real, outputCost: real, totalCost: real)

  /** `calculateCost`. The total is rounded from the sum of the unrounded parts. */
  function CalculateCost(inputTokens: int, outputTokens: int): (c: CostBreakdown)
    ensures inputTokens >= 0 && outputTokens >= 0 ==>
      c.inputCost >= 0.0 && c.outputCost >= 0.0 && c.totalCost >= 0.0
    ensures IsCentiCent(c.inputCost) && IsCentiCent(c.outputCost) && IsCentiCent(c.totalCost)
    ensures -0.00005 < c.inputCost - inputTokens as real * 0.0000003 <= 0.00005
    ensures -0.00005 < c.outputCost - outputTokens as real * 0.0000003 <= 0.00005
    ensures -0.00005 < c.totalCost - (inputTokens + outputTokens) as real * 0.0000003 <= 0.00005
  {
    var inputCost := UnroundedCost(inputTokens, InputCostPerMillion);
    var outputCost := UnroundedCost(outputTokens, OutputCostPerMillion);
    var totalCost := inputCost + outputCost;
    CostBreakdown(Round4(inputCost), Round4(outputCost), Round4(totalCost))
  }

  /** `x` is a whole number of ten-thousandths of a dollar. */
  predicate IsCentiCent(x: real) {
    (x * 10000.0).Floor as real == x * 10000.0
  }

  lemma CostOfNothing()
    ensures CalculateCost(0, 0) == CostBreakdown(0.0, 0.0, 0.0)
  {
  }

  lemma CostOfOneMillionInputTokens()
    ensures CalculateCost(1000000, 0) == CostBreakdown(0.3, 0.0, 0.3)
  {
  }

  /** Input and output tokens are priced alike. */
  lemma CostRatesAgree(a: int, b: int)
    ensures CalculateCost(a, b).inputCost == CalculateCost(b, a).outputCost
    ensures CalculateCost(a, b).totalCost == CalculateCost(b, a).totalCost
  {
  }

  /** The total is not the sum of the rounded components: 200 tokens each way cost
      0.00006 apiece, which rounds to 0.0001, while the 0.00012 total rounds to 0.0001
      too, not to 0.0002. None of the three is a tie, so binary floating point
      rounds them the same way. */
  lemma TotalIsRoundedOnce()
    ensures CalculateCost(200, 200) == CostBreakdown(0.0001, 0.0001, 0.0001)
    ensures CalculateCost(200, 200).totalCost != CalculateCost(200, 200).inputCost + CalculateCost(200, 200).outputCost
  {
    assert (0.00006 * 10000.0 + 0.5).Floor == 1;
    assert (0.00012 * 10000.0 + 0.5).Floor == 1;
  }

  /** More tokens never cost less. */
  lemma TotalCostMonotone(a: int, b: int, a': int, b': int)
    requires a <= a' && b <= b'
    ensures CalculateCost(a, b).totalCost <= CalculateCost(a', b').totalCost
  {
    var x := UnroundedCost(a, InputCostPerMillion) + UnroundedCost(b, OutputCostPerMillion);
    var y := UnroundedCost(a', InputCostPerMillion) + UnroundedCost(b', OutputCostPerMillion);
    FloorMonotone(x * 10000.0 + 0.5, y * 10000.0 + 0.5);
  }

  lemma FloorMonotone(x: real, y: real)
    requires x <= y
    ensures x.Floor <= y.Floor
  {
  }
}
