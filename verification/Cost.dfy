/** What a model call costs and the budget of one analysis, in integers of 64 bits that saturate. */
module Cost {
  import opened Basics

  const PER_MTOK: int := 1_000_000

  /** The most one component can come to: what is left of `i64::MAX` after the division. */
  const COMPONENT_CAP: int := 9_223_372_036_854

  type Tokens = t: int | 0 <= t < 0x1_0000_0000

  type Amount = a: int | I64_MIN <= a <= I64_MAX

  /** Micro-öre per million tokens, by direction. */
  datatype ModelPrice = ModelPrice(input: Amount, output: Amount, cacheRead: Amount, cacheWrite: Amount)

  datatype TokenUsage = TokenUsage(input: Tokens, output: Tokens, cacheRead: Tokens, cacheWrite: Tokens)

  // ---- Saturating arithmetic ---------------------------------------------------------------

  function Clamp(n: int): (a: Amount) {
    if n > I64_MAX then I64_MAX else if n < I64_MIN then I64_MIN else n
  }

  function SatAdd(a: Amount, b: Amount): (c: Amount) {
    Clamp(a + b)
  }

  function SatMul(a: Amount, b: Amount): (c: Amount) {
    Clamp(a * b)
  }

  /** Division that truncates towards zero. */
  function TruncDiv(a: Amount, d: int): (q: Amount)
    requires d > 1
  {
    var n: int := a;
    if n >= 0 then n / d else -((-n) / d)
  }

  /** The quotient is the whole part of the exact one, whichever its sign. */
  lemma TowardsZero(a: Amount, d: int)
    requires d > 1
    ensures a >= 0 ==> d * TruncDiv(a, d) <= a < d * TruncDiv(a, d) + d
    ensures a <= 0 ==> d * TruncDiv(a, d) - d < a <= d * TruncDiv(a, d)
  {
    var whole: int := a;
    var n: int := if whole >= 0 then whole else -whole;
    var q := n / d;
    assert n == d * q + n % d;
    assert d * -q == -(d * q);
  }

  // ---- Prices ------------------------------------------------------------------------------

  function Component(tokens: Tokens, price: Amount): (cost: Amount) {
    TruncDiv(SatAdd(SatMul(tokens, price), PER_MTOK - 1), PER_MTOK)
  }

  function CostOf(p: ModelPrice, u: TokenUsage): (cost: Amount) {
    SatAdd(SatAdd(SatAdd(Component(u.input, p.input), Component(u.output, p.output)),
                  Component(u.cacheRead, p.cacheRead)),
           Component(u.cacheWrite, p.cacheWrite))
  }

  /** The worst a call can cost: its input as estimated, its output allowance in full. */
  function WorstCase(p: ModelPrice, input: Tokens, maxOutput: Tokens): (cost: Amount) {
    CostOf(p, TokenUsage(input, maxOutput, 0, 0))
  }

  /** Prices read from configuration are not negative. */
  predicate NonNegative(p: ModelPrice) {
    p.input >= 0 && p.output >= 0 && p.cacheRead >= 0 && p.cacheWrite >= 0
  }

  function CeilDiv(n: nat, d: nat): (q: nat)
    requires d > 0
  {
    (n + d - 1) / d
  }

  /** A component is the exact cost rounded up, until it saturates. */
  lemma ComponentIs(tokens: Tokens, price: Amount)
    requires price >= 0
    ensures var exact := tokens * price;
            exact >= 0 && Component(tokens, price) == if CeilDiv(exact, PER_MTOK) < COMPONENT_CAP then CeilDiv(exact, PER_MTOK) else COMPONENT_CAP
  {
    hide SatAdd, TruncDiv, CeilDiv;
    assert tokens * price >= 0;
    RoundedUp(tokens * price);
  }

  lemma RoundedUp(exact: nat)
    ensures TruncDiv(SatAdd(Clamp(exact), PER_MTOK - 1), PER_MTOK)
         == if CeilDiv(exact, PER_MTOK) < COMPONENT_CAP then CeilDiv(exact, PER_MTOK) else COMPONENT_CAP
  {
  }

  lemma CeilBounds(n: nat)
    ensures n <= PER_MTOK * CeilDiv(n, PER_MTOK) < n + PER_MTOK
  {
  }

  /** The charge covers the exact cost exactly when that cost is within the cap, and never exceeds
      it by a whole unit. */
  lemma ComponentCovers(tokens: Tokens, price: Amount)
    requires price >= 0
    ensures PER_MTOK * Component(tokens, price) >= tokens * price <==> tokens * price <= PER_MTOK * COMPONENT_CAP
    ensures PER_MTOK * Component(tokens, price) < tokens * price + PER_MTOK
    ensures 0 <= Component(tokens, price) <= COMPONENT_CAP
  {
    hide Component;
    ComponentIs(tokens, price);
    CeilBounds(tokens * price);
  }

  function ExactCost(p: ModelPrice, u: TokenUsage): int {
    u.input * p.input + u.output * p.output + u.cacheRead * p.cacheRead + u.cacheWrite * p.cacheWrite
  }

  predicate WithinCap(p: ModelPrice, u: TokenUsage) {
    && u.input * p.input <= PER_MTOK * COMPONENT_CAP
    && u.output * p.output <= PER_MTOK * COMPONENT_CAP
    && u.cacheRead * p.cacheRead <= PER_MTOK * COMPONENT_CAP
    && u.cacheWrite * p.cacheWrite <= PER_MTOK * COMPONENT_CAP
  }

  lemma CostIsSum(p: ModelPrice, u: TokenUsage)
    requires NonNegative(p)
    ensures CostOf(p, u) == Component(u.input, p.input) + Component(u.output, p.output)
                            + Component(u.cacheRead, p.cacheRead) + Component(u.cacheWrite, p.cacheWrite)
    ensures CostOf(p, u) >= 0
  {
    hide Component;
    ComponentCovers(u.input, p.input);
    ComponentCovers(u.output, p.output);
    ComponentCovers(u.cacheRead, p.cacheRead);
    ComponentCovers(u.cacheWrite, p.cacheWrite);
  }

  /** Below saturation a call is never charged less than it costs, and less than four units more. */
  lemma NeverUnderReports(p: ModelPrice, u: TokenUsage)
    requires NonNegative(p) && WithinCap(p, u)
    ensures ExactCost(p, u) <= PER_MTOK * CostOf(p, u) < ExactCost(p, u) + 4 * PER_MTOK
  {
    hide Component, CostOf;
    CostIsSum(p, u);
    ComponentCovers(u.input, p.input);
    ComponentCovers(u.output, p.output);
    ComponentCovers(u.cacheRead, p.cacheRead);
    ComponentCovers(u.cacheWrite, p.cacheWrite);
  }

  /** The worst case is the cost of the whole input and the whole output allowance. */
  lemma WorstCaseIs(p: ModelPrice, input: Tokens, maxOutput: Tokens)
    requires NonNegative(p)
    ensures input * p.input <= PER_MTOK * COMPONENT_CAP && maxOutput * p.output <= PER_MTOK * COMPONENT_CAP ==>
              var exact := input * p.input + maxOutput * p.output;
              exact <= PER_MTOK * WorstCase(p, input, maxOutput) < exact + 4 * PER_MTOK
  {
    hide CostOf;
    var usage := TokenUsage(input, maxOutput, 0, 0);
    if WithinCap(p, usage) {
      NeverUnderReports(p, usage);
    }
  }

  lemma CeilMonotone(m: nat, n: nat)
    requires m <= n
    ensures CeilDiv(m, PER_MTOK) <= CeilDiv(n, PER_MTOK)
  {
  }

  lemma CeilSubadditive(m: nat, n: nat)
    ensures CeilDiv(m + n, PER_MTOK) <= CeilDiv(m, PER_MTOK) + CeilDiv(n, PER_MTOK)
  {
  }

  lemma ComponentMonotone(s: Tokens, t: Tokens, price: Amount)
    requires price >= 0 && s <= t
    ensures Component(s, price) <= Component(t, price)
  {
    hide Component, CeilDiv;
    ComponentIs(s, price);
    ComponentIs(t, price);
    assert s * price <= t * price;
    CeilMonotone(s * price, t * price);
  }

  lemma ComponentSubadditive(s: Tokens, t: Tokens, price: Amount)
    requires price >= 0 && s + t < 0x1_0000_0000
    ensures Component(s + t, price) <= Component(s, price) + Component(t, price)
  {
    hide Component, CeilDiv;
    ComponentIs(s, price);
    ComponentIs(t, price);
    ComponentIs(s + t, price);
    assert (s + t) * price == s * price + t * price;
    CeilSubadditive(s * price, t * price);
  }

  predicate AtMost(u: TokenUsage, v: TokenUsage) {
    u.input <= v.input && u.output <= v.output && u.cacheRead <= v.cacheRead && u.cacheWrite <= v.cacheWrite
  }

  /** More tokens of any kind never cost less. */
  lemma CostMonotone(p: ModelPrice, u: TokenUsage, v: TokenUsage)
    requires NonNegative(p) && AtMost(u, v)
    ensures CostOf(p, u) <= CostOf(p, v)
  {
    hide Component, CostOf;
    CostIsSum(p, u);
    CostIsSum(p, v);
    ComponentMonotone(u.input, v.input, p.input);
    ComponentMonotone(u.output, v.output, p.output);
    ComponentMonotone(u.cacheRead, v.cacheRead, p.cacheRead);
    ComponentMonotone(u.cacheWrite, v.cacheWrite, p.cacheWrite);
  }

  predicate Splits(u: TokenUsage, v: TokenUsage, w: TokenUsage) {
    && u.input + v.input == w.input && u.output + v.output == w.output
    && u.cacheRead + v.cacheRead == w.cacheRead && u.cacheWrite + v.cacheWrite == w.cacheWrite
  }

  /** Splitting a call's usage over two calls never costs less, saturated or not. */
  lemma SplittingSavesNothing(p: ModelPrice, u: TokenUsage, v: TokenUsage, w: TokenUsage)
    requires NonNegative(p) && Splits(u, v, w)
    ensures CostOf(p, w) <= CostOf(p, u) + CostOf(p, v)
  {
    hide Component, CostOf;
    CostIsSum(p, u);
    CostIsSum(p, v);
    CostIsSum(p, w);
    ComponentSubadditive(u.input, v.input, p.input);
    ComponentSubadditive(u.output, v.output, p.output);
    ComponentSubadditive(u.cacheRead, v.cacheRead, p.cacheRead);
    ComponentSubadditive(u.cacheWrite, v.cacheWrite, p.cacheWrite);
  }

  // ---- The budget --------------------------------------------------------------------------

  datatype BudgetError = Exhausted | TooManyCalls

  /** The counters of a budget as they are stored between attempts. */
  datatype Counters = Counters(limit: Amount, spent: Amount, calls: Tokens, maxCalls: Tokens)

  predicate Sound(b: Counters) {
    b.limit >= 1 && b.spent >= 0 && b.maxCalls >= 1
  }

  function CheckCall(b: Counters, worst: Amount): (refusal: Option<BudgetError>) {
    if b.calls >= b.maxCalls then Some(TooManyCalls)
    else if SatAdd(b.spent, worst) > b.limit then Some(Exhausted)
    else None
  }

  /** The call counter is a 32-bit sum. */
  function Charged(b: Counters, cost: Amount): (after: Counters) {
    b.(spent := SatAdd(b.spent, if cost > 0 then cost else 0), calls := (b.calls + 1) % 0x1_0000_0000)
  }

  class Budget {
    const limit: Amount
    var spent: Amount
    var calls: Tokens
    const maxCalls: Tokens

    ghost function Value(): (b: Counters)
      reads this
    {
      Counters(limit, spent, calls, maxCalls)
    }

    constructor (limit: Amount, maxCalls: Tokens)
      ensures Value() == Counters(if limit > 1 then limit else 1, 0, 0, if maxCalls > 1 then maxCalls else 1)
    {
      this.limit := if limit > 1 then limit else 1;
      this.spent, this.calls := 0, 0;
      this.maxCalls := if maxCalls > 1 then maxCalls else 1;
    }

    /** A retried analysis goes on against what it has already spent. */
    constructor Resumed(limit: Amount, spent: Amount, calls: Tokens, maxCalls: Tokens)
      ensures Sound(Value()) && Value().calls == calls
      ensures limit >= 1 && spent >= 0 && maxCalls >= 1 ==> Value() == Counters(limit, spent, calls, maxCalls)
    {
      this.limit := if limit > 1 then limit else 1;
      this.spent := if spent > 0 then spent else 0;
      this.calls := calls;
      this.maxCalls := if maxCalls > 1 then maxCalls else 1;
    }

    method Check(worst: Amount) returns (refusal: Option<BudgetError>)
      ensures refusal == CheckCall(Value(), worst)
      ensures refusal.None? ==> calls < maxCalls
    {
      if calls >= maxCalls {
        return Some(TooManyCalls);
      }
      if SatAdd(spent, worst) > limit {
        return Some(Exhausted);
      }
      return None;
    }

    method Charge(cost: Amount)
      modifies this
      ensures Value() == Charged(old(Value()), cost)
    {
      spent := SatAdd(spent, if cost > 0 then cost else 0);
      calls := (calls + 1) % 0x1_0000_0000;
    }

    /** A failed call bills its input and counts as a call. */
    method ChargeFailed(cost: Amount)
      modifies this
      ensures Value() == Charged(old(Value()), cost)
    {
      Charge(cost);
    }
  }
}
