/** The model gateway: price, check, call, charge. The provider is whatever answer it gives. */
module Gateway {
  import opened Basics
  import opened Cost
  import opened Substrings
  import opened Texts
  import Fence

  const FENCE_WORD: string := "SKATTJAKT_DOCUMENT_DATA"

  datatype Request = Request(system: string, content: string, maxTokens: Tokens)

  datatype Config = Config(prices: map<string, ModelPrice>, model: string, allowFallback: bool)

  datatype Answer = ProviderFailed | Answered(model: string, usage: TokenUsage)

  datatype GatewayError =
    | UnwrappedDocumentContent
    | Unpriced
    | OverBudget(reason: BudgetError)
    | ProviderError
    | FallbackRefused

  datatype Result = Ok(cost: Amount, wasFallback: bool) | Err(error: GatewayError)

  /** A third of the bytes and one more, in 32 bits. */
  function EstimateTokens(text: string): (t: Tokens) {
    var estimate := ByteLength(text) / 3 + 1;
    if estimate < 0xFFFF_FFFF then estimate else 0xFFFF_FFFF
  }

  /** The estimate of a whole request: a 32-bit sum. */
  function EstimatedInput(r: Request): (t: Tokens) {
    (EstimateTokens(r.system) + EstimateTokens(r.content)) % 0x1_0000_0000
  }

  predicate FenceIntact(content: string) {
    Matches(FENCE_WORD, content) == 0 || Fence.HasIntactSingleBlock(content)
  }

  function Ceiling(c: Config, r: Request): (worst: Amount)
    requires c.model in c.prices
  {
    WorstCase(c.prices[c.model], EstimatedInput(r), r.maxTokens)
  }

  /** Why a request does not reach the provider, if it does not. */
  function Refusal(c: Config, r: Request, b: Counters): (error: Option<GatewayError>) {
    if !FenceIntact(r.content) then Some(UnwrappedDocumentContent)
    else if c.model !in c.prices then Some(Unpriced)
    else
      match CheckCall(b, Ceiling(c, r))
      case Some(reason) => Some(OverBudget(reason))
      case None => None
  }

  /** What the provider's answer costs. */
  function AnswerCost(c: Config, r: Request, answer: Answer): (cost: Amount)
    requires c.model in c.prices
  {
    var price := c.prices[c.model];
    match answer
    case ProviderFailed => WorstCase(price, EstimatedInput(r), 0)
    case Answered(model, usage) =>
      if model in c.prices then CostOf(c.prices[model], usage)
      else if model != c.model && !c.allowFallback then WorstCase(price, EstimatedInput(r), 0)
      else CostOf(price, usage)
  }

  /** The budget after one request. */
  function After(c: Config, r: Request, answer: Answer, b: Counters): (after: Counters) {
    if Refusal(c, r, b).Some? then b else Charged(b, AnswerCost(c, r, answer))
  }

  function Outcome(c: Config, r: Request, answer: Answer, b: Counters): (result: Result) {
    match Refusal(c, r, b)
    case Some(error) => Err(error)
    case None =>
      if answer.ProviderFailed? then Err(ProviderError)
      else if answer.model != c.model && !c.allowFallback then Err(FallbackRefused)
      else Ok(AnswerCost(c, r, answer), answer.model != c.model)
  }

  // ---- What one request comes to -----------------------------------------------------------

  /** The request reaches the provider: its documents are in their one intact block, its model has a
      price, a call is left, and the worst it can cost still fits the limit. */
  ghost predicate Admitted(c: Config, r: Request, b: Counters) {
    && (Matches("SKATTJAKT_DOCUMENT_DATA", r.content) > 0 ==>
          Matches(Fence.OPEN, r.content) == 1 && Matches(Fence.CLOSE, r.content) == 1)
    && c.model in c.prices
    && b.calls < b.maxCalls
    && (b.spent + Ceiling(c, r) <= b.limit || b.limit == I64_MAX)
  }

  /** Every error, by what causes it: the fence before the price, the price before the number of
      calls, that before the money, and only then what the provider answers. */
  lemma ErrorsExactly(c: Config, r: Request, answer: Answer, b: Counters)
    ensures Outcome(c, r, answer, b) == Err(UnwrappedDocumentContent)
       <==> (&& Matches("SKATTJAKT_DOCUMENT_DATA", r.content) > 0
             && !(Matches(Fence.OPEN, r.content) == 1 && Matches(Fence.CLOSE, r.content) == 1))
    ensures Outcome(c, r, answer, b) == Err(Unpriced)
       <==> (Matches("SKATTJAKT_DOCUMENT_DATA", r.content) > 0 ==>
               Matches(Fence.OPEN, r.content) == 1 && Matches(Fence.CLOSE, r.content) == 1)
            && c.model !in c.prices
    ensures Outcome(c, r, answer, b) == Err(OverBudget(TooManyCalls))
       <==> (Matches("SKATTJAKT_DOCUMENT_DATA", r.content) > 0 ==>
               Matches(Fence.OPEN, r.content) == 1 && Matches(Fence.CLOSE, r.content) == 1)
            && c.model in c.prices && b.calls >= b.maxCalls
    ensures Outcome(c, r, answer, b) == Err(OverBudget(Exhausted))
       <==> (Matches("SKATTJAKT_DOCUMENT_DATA", r.content) > 0 ==>
               Matches(Fence.OPEN, r.content) == 1 && Matches(Fence.CLOSE, r.content) == 1)
            && c.model in c.prices && b.calls < b.maxCalls
            && b.spent + Ceiling(c, r) > b.limit && b.limit < I64_MAX
    ensures Outcome(c, r, answer, b) == Err(ProviderError) <==> Admitted(c, r, b) && answer == ProviderFailed
    ensures Outcome(c, r, answer, b) == Err(FallbackRefused)
       <==> Admitted(c, r, b) && answer.Answered? && answer.model != c.model && !c.allowFallback
  {
    hide Matches, Ceiling;
    SameWord();
  }

  /** A request succeeds exactly when it is admitted and the asked model answers, or another one that
      may stand in for it; the result says which, and what was charged. */
  lemma SuccessExactly(c: Config, r: Request, answer: Answer, b: Counters)
    ensures Outcome(c, r, answer, b).Ok?
       <==> Admitted(c, r, b) && answer.Answered? && (answer.model == c.model || c.allowFallback)
    ensures Outcome(c, r, answer, b).Ok? ==>
              var result := Outcome(c, r, answer, b);
              && (result.wasFallback <==> answer.model != c.model)
              && result.cost == CostOf(c.prices[if answer.model in c.prices then answer.model else c.model], answer.usage)
              && After(c, r, answer, b).spent == SatAdd(b.spent, if result.cost > 0 then result.cost else 0)
  {
    hide Matches, Ceiling, CostOf, SatAdd;
    ErrorsExactly(c, r, answer, b);
  }

  /** A request that is not admitted leaves the budget as it is; one that is counts as a call. */
  lemma BudgetMoves(c: Config, r: Request, answer: Answer, b: Counters)
    ensures !Admitted(c, r, b) ==> After(c, r, answer, b) == b
    ensures Admitted(c, r, b) ==>
              var after := After(c, r, answer, b);
              after.calls == b.calls + 1 && after.limit == b.limit && after.maxCalls == b.maxCalls
  {
    hide Matches, Ceiling, CostOf;
    SameWord();
  }

  lemma SameWord()
    ensures FENCE_WORD == "SKATTJAKT_DOCUMENT_DATA"
  {
  }

  class ModelGateway {
    const config: Config

    constructor (config: Config)
      ensures this.config == config
    {
      this.config := config;
    }

    /** Runs one request; `answer` is what the provider says if it is asked. */
    method Run(request: Request, budget: Budget, answer: Answer) returns (result: Result)
      modifies budget
      ensures budget.Value() == After(config, request, answer, old(budget.Value()))
      ensures result == Outcome(config, request, answer, old(budget.Value()))
      ensures result.Ok? <==> Admitted(config, request, old(budget.Value()))
                              && answer.Answered? && (answer.model == config.model || config.allowFallback)
      ensures result == Err(UnwrappedDocumentContent)
         <==> (&& Matches(FENCE_WORD, request.content) > 0
               && !(Matches(Fence.OPEN, request.content) == 1 && Matches(Fence.CLOSE, request.content) == 1))
      ensures !Admitted(config, request, old(budget.Value())) ==> budget.Value() == old(budget.Value())
    {
      hide CostOf, SatAdd, Matches, Fence.HasIntactSingleBlock, Admitted;
      ErrorsExactly(config, request, answer, budget.Value());
      SuccessExactly(config, request, answer, budget.Value());
      BudgetMoves(config, request, answer, budget.Value());
      if Matches(FENCE_WORD, request.content) > 0 && !Fence.HasIntactSingleBlock(request.content) {
        return Err(UnwrappedDocumentContent);
      }
      if config.model !in config.prices {
        return Err(Unpriced);
      }
      var price := config.prices[config.model];
      var estimatedInput := EstimatedInput(request);
      var ceiling := WorstCase(price, estimatedInput, request.maxTokens);
      var refusal := budget.Check(ceiling);
      if refusal.Some? {
        return Err(OverBudget(refusal.value));
      }

      match answer {
        case ProviderFailed =>
          budget.ChargeFailed(WorstCase(price, estimatedInput, 0));
          return Err(ProviderError);
        case Answered(model, usage) =>
          var wasFallback := model != config.model;
          if wasFallback {
            if !config.allowFallback {
              var spent := if model in config.prices then CostOf(config.prices[model], usage) else WorstCase(price, estimatedInput, 0);
              budget.ChargeFailed(spent);
              return Err(FallbackRefused);
            }
          }
          var cost := if model in config.prices then CostOf(config.prices[model], usage) else CostOf(price, usage);
          budget.Charge(cost);
          return Ok(cost, wasFallback);
      }
    }
  }

  // ---- The ceiling over whole runs ---------------------------------------------------------

  datatype Call = Call(request: Request, answer: Answer)

  function RunAll(c: Config, b: Counters, calls: seq<Call>): (after: Counters) {
    if calls == [] then b
    else
      var before := RunAll(c, b, calls[..|calls| - 1]);
      var last := calls[|calls| - 1];
      After(c, last.request, last.answer, before)
  }

  /** How many of the requests reach the provider. */
  function Reached(c: Config, b: Counters, calls: seq<Call>): (n: nat) {
    if calls == [] then 0
    else
      var before := RunAll(c, b, calls[..|calls| - 1]);
      Reached(c, b, calls[..|calls| - 1])
      + if Refusal(c, calls[|calls| - 1].request, before).None? then 1 else 0
  }

  /** The position of the last request that reaches the provider, or -1. */
  function LastReached(c: Config, b: Counters, calls: seq<Call>): (k: int)
    ensures -1 <= k < |calls|
    ensures k == -1 <==> Reached(c, b, calls) == 0
  {
    if calls == [] then -1
    else if Refusal(c, calls[|calls| - 1].request, RunAll(c, b, calls[..|calls| - 1])).None? then |calls| - 1
    else LastReached(c, b, calls[..|calls| - 1])
  }

  predicate PricesNonNegative(c: Config) {
    forall m :: m in c.prices ==> NonNegative(c.prices[m])
  }

  /** How far a call's cost exceeds what was allowed for it before it was made. */
  function Overrun(c: Config, call: Call): (n: int)
    requires c.model in c.prices
    ensures n >= 0
  {
    var over := AnswerCost(c, call.request, call.answer) - Ceiling(c, call.request);
    if over > 0 then over else 0
  }

  /** Usage within the estimate: as many input tokens as estimated, output within the allowance, no
      cache tokens, served by the model that was asked. */
  predicate WithinEstimate(c: Config, call: Call) {
    call.answer.Answered? ==>
      && call.answer.model == c.model
      && call.answer.usage.input <= EstimatedInput(call.request) && call.answer.usage.output <= call.request.maxTokens
      && call.answer.usage.cacheRead == 0 && call.answer.usage.cacheWrite == 0
  }

  lemma WithinEstimateNoOverrun(c: Config, call: Call)
    requires c.model in c.prices && PricesNonNegative(c)
    requires call.answer.Answered? ==>
               && call.answer.model == c.model
               && call.answer.usage.input <= EstimatedInput(call.request) && call.answer.usage.output <= call.request.maxTokens
               && call.answer.usage.cacheRead == 0 && call.answer.usage.cacheWrite == 0
    ensures Overrun(c, call) == 0
  {
    hide CostOf;
    var price, r := c.prices[c.model], call.request;
    var allowed := TokenUsage(EstimatedInput(r), r.maxTokens, 0, 0);
    CostMonotone(price, TokenUsage(EstimatedInput(r), 0, 0, 0), allowed);
    if call.answer.Answered? {
      CostMonotone(price, call.answer.usage, allowed);
    }
  }

  /** One request: refused and nothing changes, or one more call and the limit exceeded by no more
      than the call's overrun. */
  lemma OneCall(c: Config, call: Call, b: Counters)
    requires Sound(b) && PricesNonNegative(c)
    ensures var after := After(c, call.request, call.answer, b);
            && Sound(after) && after.limit == b.limit && after.maxCalls == b.maxCalls && after.spent >= b.spent
            && (if Refusal(c, call.request, b).Some? then after == b
                else c.model in c.prices
                     && after.calls == b.calls + 1 <= b.maxCalls
                     && after.spent <= b.limit + Overrun(c, call))
  {
    hide CostOf, FenceIntact;
    if Refusal(c, call.request, b).None? {
      CostIsSum(c.prices[c.model], TokenUsage(EstimatedInput(call.request), call.request.maxTokens, 0, 0));
    }
  }

  /** Over any run, from a new or a resumed budget: every call that reaches the provider is counted,
      the call ceiling is never passed by calling, and the spending exceeds the limit by at most the
      overrun of the last call that was made. */
  lemma {:induction false} CeilingHolds(c: Config, b: Counters, calls: seq<Call>)
    requires Sound(b) && PricesNonNegative(c)
    ensures var t := RunAll(c, b, calls);
            && Sound(t) && t.limit == b.limit && t.maxCalls == b.maxCalls
            && t.spent >= b.spent
            && t.calls == b.calls + Reached(c, b, calls)
            && (Reached(c, b, calls) > 0 ==> t.calls <= b.maxCalls)
            && (Reached(c, b, calls) == 0 ==> t.spent == b.spent)
            && (Reached(c, b, calls) > 0 ==>
                  c.model in c.prices
                  && t.spent <= b.limit + Overrun(c, calls[LastReached(c, b, calls)]))
  {
    hide After, Refusal, Overrun;
    if calls != [] {
      var front, last := calls[..|calls| - 1], calls[|calls| - 1];
      CeilingHolds(c, b, front);
      OneCall(c, last, RunAll(c, b, front));
    }
  }

  /** When every answer stays within its estimate, spending never passes the limit by calling. */
  lemma SpendingWithinLimit(c: Config, b: Counters, calls: seq<Call>)
    requires Sound(b) && PricesNonNegative(c)
    requires forall k :: 0 <= k < |calls| ==> WithinEstimate(c, calls[k])
    ensures RunAll(c, b, calls).spent <= if b.spent > b.limit then b.spent else b.limit
  {
    hide Overrun, RunAll, Reached;
    CeilingHolds(c, b, calls);
    if Reached(c, b, calls) > 0 {
      WithinEstimateNoOverrun(c, calls[LastReached(c, b, calls)]);
    }
  }

  /** Stopping anywhere and resuming from the stored counters is the same as going on. */
  lemma {:induction false} ResumeIsContinuation(c: Config, b: Counters, first: seq<Call>, second: seq<Call>)
    ensures RunAll(c, b, first + second) == RunAll(c, RunAll(c, b, first), second)
  {
    hide After;
    if second == [] {
      assert first + second == first;
    } else {
      var front := second[..|second| - 1];
      assert (first + second)[..|first + second| - 1] == first + front;
      ResumeIsContinuation(c, b, first, front);
    }
  }

  /** An answer is charged at the price of the model that served it, whichever was asked and even if
      the fallback is then refused: never less than the usage costs there, unless the counter is full. */
  lemma ServedModelCharged(c: Config, r: Request, model: string, usage: TokenUsage, b: Counters)
    requires Sound(b) && PricesNonNegative(c) && model in c.prices
    ensures Refusal(c, r, b).None? && WithinCap(c.prices[model], usage) ==>
              var spent, exact := After(c, r, Answered(model, usage), b).spent, ExactCost(c.prices[model], usage);
              spent == I64_MAX || exact <= PER_MTOK * (spent - b.spent) < exact + 4 * PER_MTOK
  {
    hide CostOf, ExactCost, Refusal, WithinCap;
    CostIsSum(c.prices[model], usage);
    if WithinCap(c.prices[model], usage) {
      NeverUnderReports(c.prices[model], usage);
    }
  }

  /** The estimate of a text is more than a third of its bytes, and no more than that by one token,
      until it fills 32 bits. */
  lemma EstimateErrsHigh(text: string)
    ensures ByteLength(text) < 3 * EstimateTokens(text) || EstimateTokens(text) == 0xFFFF_FFFF
    ensures 3 * EstimateTokens(text) <= ByteLength(text) + 3
  {
  }

  /** The estimate of a request is that of its two texts exactly while their sum fits 32 bits; then it
      is more than a third of their bytes, unless a text alone fills them. */
  lemma InputEstimateExactly(r: Request)
    ensures EstimatedInput(r) == EstimateTokens(r.system) + EstimateTokens(r.content)
       <==> EstimateTokens(r.system) + EstimateTokens(r.content) < 0x1_0000_0000
    ensures EstimateTokens(r.system) + EstimateTokens(r.content) < 0xFFFF_FFFF ==>
              3 * EstimatedInput(r) > ByteLength(r.system) + ByteLength(r.content)
  {
    hide EstimateTokens;
    EstimateErrsHigh(r.system);
    EstimateErrsHigh(r.content);
    AtLeastOne(r.system);
    AtLeastOne(r.content);
  }

  lemma AtLeastOne(text: string)
    ensures EstimateTokens(text) >= 1
  {
  }

  /** A call that failed is counted, and charged its estimated input. */
  lemma FailureCharged(c: Config, r: Request, b: Counters)
    requires Sound(b) && PricesNonNegative(c) && c.model in c.prices
    ensures Refusal(c, r, b).None? ==>
              var after, exact := After(c, r, ProviderFailed, b), EstimatedInput(r) * c.prices[c.model].input;
              && after.calls == b.calls + 1
              && (exact <= PER_MTOK * COMPONENT_CAP ==>
                    after.spent == I64_MAX || exact <= PER_MTOK * (after.spent - b.spent) < exact + 4 * PER_MTOK)
  {
    hide CostOf, EstimatedInput, FenceIntact;
    var usage := TokenUsage(EstimatedInput(r), 0, 0, 0);
    CostIsSum(c.prices[c.model], usage);
    if WithinCap(c.prices[c.model], usage) {
      NeverUnderReports(c.prices[c.model], usage);
    }
  }

  /** A stand-in that is refused and has no price is charged like a call that failed. */
  lemma RefusedStandInCharged(c: Config, r: Request, model: string, usage: TokenUsage, b: Counters)
    requires model !in c.prices && model != c.model && !c.allowFallback
    ensures After(c, r, Answered(model, usage), b) == After(c, r, ProviderFailed, b)
  {
  }

  // ---- The fence at the boundary -----------------------------------------------------------

  /** A prompt with a wrapped document leaves the gateway's fence check exactly when what stands
      in front of the document holds no marker. */
  lemma WrappedDocumentPasses(preamble: string, framing: string, caption: string, text: string, isAlphanumeric: char -> bool)
    requires Fence.FramingText(framing) && Fence.AlphanumericTable(isAlphanumeric)
    ensures FenceIntact(preamble + Fence.WrapDocument(framing, caption, text, isAlphanumeric))
       <==> Absent(Fence.OPEN, preamble) && Absent(Fence.CLOSE, preamble)
  {
    hide Matches, Absent, Fence.WrapDocument, Fence.HasIntactSingleBlock;
    var wrapped := Fence.WrapDocument(framing, caption, text, isAlphanumeric);
    Fence.PreambleMustBeFree(preamble, framing, caption, text, isAlphanumeric);
    HoldsFenceWord(framing, caption, text, isAlphanumeric, preamble);
  }

  lemma HoldsFenceWord(framing: string, caption: string, text: string, isAlphanumeric: char -> bool, preamble: string)
    ensures Matches(FENCE_WORD, preamble + Fence.WrapDocument(framing, caption, text, isAlphanumeric)) != 0
  {
    hide Matches, Fence.SourceLine, Fence.Fenced;
    var start := framing + ("\n" + ("" + "\n"));
    var tail := "\n" + (Fence.SourceLine(caption, isAlphanumeric) + ("\n" + (Fence.Fenced(text) + ("\n" + Fence.CLOSE))));
    var wrapped := Fence.WrapDocument(framing, caption, text, isAlphanumeric);
    assert wrapped == start + (Fence.OPEN + tail);
    OpenHoldsFenceWord();
    OccursInWhole(FENCE_WORD, Fence.OPEN, tail, 3);
    OccursInWhole(FENCE_WORD, start, Fence.OPEN + tail, 3);
    OccursInWhole(FENCE_WORD, preamble, wrapped, |start| + 3);
    MatchesNone(FENCE_WORD, preamble + wrapped);
  }

  lemma OpenHoldsFenceWord()
    ensures OccursAt(FENCE_WORD, Fence.OPEN, 3)
  {
    var open, word := Fence.OPEN, FENCE_WORD;
    assert |open| == 29 && |word| == 23;
    assert forall k :: 0 <= k < 23 ==> open[3 + k] == word[k];
  }
}
