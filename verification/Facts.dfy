/** The canonical vocabulary of financial quantities and the set of readings a report rests on. */
module Facts {
  import opened Basics

  datatype FactKind =
    | Revenue | OtherOperatingIncome | ExternalCosts | PersonnelCosts | Depreciation
    | OperatingProfit | InterestIncome | InterestExpense | ProfitBeforeTax | TaxExpense
    | NetProfit | IntangibleAssets | FixedAssets | Equipment | Inventory | Receivables | Cash
    | Equity | UntaxedReserves | Provisions | LongTermLiabilities | CurrentLiabilities
    | TotalAssets | TotalEquityAndLiabilities | TaxAllocationReserve
    | TaxAllocationReserveThisYear | ExcessDepreciation | CarriedForwardLoss | TaxableResult
    | NonDeductibleCosts | NonTaxableIncome | GroupContribution | InputVat | OutputVat
    | VatPayable | PayrollTax | PensionCosts | Wages | Other(text: string)

  /** The key a kind is stored and grouped under: its serialised name, or a labelled prefix. */
  function Key(kind: FactKind): (key: string) {
    match kind
    case Revenue => "revenue"
    case OtherOperatingIncome => "other_operating_income"
    case ExternalCosts => "external_costs"
    case PersonnelCosts => "personnel_costs"
    case Depreciation => "depreciation"
    case OperatingProfit => "operating_profit"
    case InterestIncome => "interest_income"
    case InterestExpense => "interest_expense"
    case ProfitBeforeTax => "profit_before_tax"
    case TaxExpense => "tax_expense"
    case NetProfit => "net_profit"
    case IntangibleAssets => "intangible_assets"
    case FixedAssets => "fixed_assets"
    case Equipment => "equipment"
    case Inventory => "inventory"
    case Receivables => "receivables"
    case Cash => "cash"
    case Equity => "equity"
    case UntaxedReserves => "untaxed_reserves"
    case Provisions => "provisions"
    case LongTermLiabilities => "long_term_liabilities"
    case CurrentLiabilities => "current_liabilities"
    case TotalAssets => "total_assets"
    case TotalEquityAndLiabilities => "total_equity_and_liabilities"
    case TaxAllocationReserve => "tax_allocation_reserve"
    case TaxAllocationReserveThisYear => "tax_allocation_reserve_this_year"
    case ExcessDepreciation => "excess_depreciation"
    case CarriedForwardLoss => "carried_forward_loss"
    case TaxableResult => "taxable_result"
    case NonDeductibleCosts => "non_deductible_costs"
    case NonTaxableIncome => "non_taxable_income"
    case GroupContribution => "group_contribution"
    case InputVat => "input_vat"
    case OutputVat => "output_vat"
    case VatPayable => "vat_payable"
    case PayrollTax => "payroll_tax"
    case PensionCosts => "pension_costs"
    case Wages => "wages"
    case Other(text) => "other:" + text
  }

  // ---- The kind a key stands for -----------------------------------------------------------

  /** The named kind whose key has this length, this first and this third character. */
  function Named(length: nat, first: char, third: char): (kind: FactKind) {
    match length
    case 4 => Cash
    case 5 => Wages
    case 6 => Equity
    case 7 => Revenue
    case 9 => if first == 'e' then Equipment else if third == 'v' then Inventory else InputVat
    case 10 => if first == 'n' then NetProfit else if first == 'p' then Provisions else OutputVat
    case 11 =>
      if first == 't' then TaxExpense else if first == 'r' then Receivables
      else if first == 'v' then VatPayable else PayrollTax
    case 12 => if first == 'd' then Depreciation else if first == 'f' then FixedAssets else TotalAssets
    case 13 => PensionCosts
    case 14 => if first == 'e' then ExternalCosts else TaxableResult
    case 15 => if first == 'p' then PersonnelCosts else InterestIncome
    case 16 => if first == 'o' then OperatingProfit else if first == 'i' then InterestExpense else UntaxedReserves
    case 17 => if first == 'p' then ProfitBeforeTax else IntangibleAssets
    case 18 => if first == 'n' then NonTaxableIncome else GroupContribution
    case 19 => if first == 'c' then CurrentLiabilities else ExcessDepreciation
    case 20 => if first == 'c' then CarriedForwardLoss else NonDeductibleCosts
    case 21 => LongTermLiabilities
    case 22 => if first == 'o' then OtherOperatingIncome else TaxAllocationReserve
    case 28 => TotalEquityAndLiabilities
    case _ => TaxAllocationReserveThisYear
  }

  /** The only kind that can have this key. */
  function Candidate(key: string): (kind: FactKind) {
    if |key| > 5 && key[5] == ':' then Other(key[6..])
    else if |key| > 2 then Named(|key|, key[0], key[2])
    else Cash
  }

  /** Reads a key back. */
  function KindOfKey(key: string): (kind: Option<FactKind>) {
    if Key(Candidate(key)) == key then Some(Candidate(key)) else None
  }

  /** How a named key shows its kind: no colon where `Other` has one, and enough to tell it apart. */
  ghost predicate KeyReads(kind: FactKind) {
    && |Key(kind)| > 2
    && (|Key(kind)| > 5 ==> Key(kind)[5] != ':')
    && Named(|Key(kind)|, Key(kind)[0], Key(kind)[2]) == kind
  }

  lemma ShortKeys(kind: FactKind)
    requires kind in {Cash, Wages, Equity, Revenue, Equipment, Inventory, InputVat, NetProfit, Provisions, OutputVat}
    ensures KeyReads(kind)
  {
  }

  lemma ElevenToThirteen(kind: FactKind)
    requires kind in {TaxExpense, Receivables, VatPayable, PayrollTax, Depreciation, FixedAssets, TotalAssets, PensionCosts}
    ensures KeyReads(kind)
  {
  }

  lemma FourteenToSixteen(kind: FactKind)
    requires kind in {ExternalCosts, TaxableResult, PersonnelCosts, InterestIncome, OperatingProfit, InterestExpense, UntaxedReserves}
    ensures KeyReads(kind)
  {
  }

  lemma SeventeenToNineteen(kind: FactKind)
    requires kind in {ProfitBeforeTax, IntangibleAssets, NonTaxableIncome, GroupContribution, CurrentLiabilities, ExcessDepreciation}
    ensures KeyReads(kind)
  {
  }

  lemma LongKeys(kind: FactKind)
    requires kind in {CarriedForwardLoss, NonDeductibleCosts, LongTermLiabilities, OtherOperatingIncome, TaxAllocationReserve}
    ensures KeyReads(kind)
  {
  }

  lemma LongestKeys(kind: FactKind)
    requires kind in {TotalEquityAndLiabilities, TaxAllocationReserveThisYear}
    ensures KeyReads(kind)
  {
  }

  lemma NamedKey(kind: FactKind)
    requires !kind.Other?
    ensures KeyReads(kind)
  {
    hide Key, Named, KeyReads;
    if kind in {Cash, Wages, Equity, Revenue, Equipment, Inventory, InputVat, NetProfit, Provisions, OutputVat} {
      ShortKeys(kind);
    } else if kind in {TaxExpense, Receivables, VatPayable, PayrollTax, Depreciation, FixedAssets, TotalAssets, PensionCosts} {
      ElevenToThirteen(kind);
    } else if kind in {ExternalCosts, TaxableResult, PersonnelCosts, InterestIncome, OperatingProfit, InterestExpense, UntaxedReserves} {
      FourteenToSixteen(kind);
    } else if kind in {ProfitBeforeTax, IntangibleAssets, NonTaxableIncome, GroupContribution, CurrentLiabilities, ExcessDepreciation} {
      SeventeenToNineteen(kind);
    } else if kind in {CarriedForwardLoss, NonDeductibleCosts, LongTermLiabilities, OtherOperatingIncome, TaxAllocationReserve} {
      LongKeys(kind);
    } else {
      LongestKeys(kind);
    }
  }

  lemma OtherKey(kind: FactKind)
    requires kind.Other?
    ensures Candidate(Key(kind)) == kind
  {
    assert Key(kind)[6..] == kind.text;
  }

  /** A key reads back as a kind exactly when it is that kind's key. */
  lemma KeyReadsBack(key: string, kind: FactKind)
    ensures KindOfKey(key) == Some(kind) <==> key == Key(kind)
  {
    hide Key, Named;
    if kind.Other? {
      OtherKey(kind);
    } else {
      NamedKey(kind);
    }
  }

  /** No two kinds share a key. */
  lemma KeyInjective(a: FactKind, b: FactKind)
    ensures Key(a) == Key(b) <==> a == b
  {
    hide Key, KindOfKey;
    KeyReadsBack(Key(a), a);
    KeyReadsBack(Key(a), b);
  }
}
