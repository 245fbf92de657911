/** The credit-limit gate on sale orders (ytv_credit_limit): a partner
    carries a credit limit in a currency of its choice; confirming an order
    is refused when the commercial partner's receivable plus the order's
    untaxed amount would exceed that limit, unless the user is a credit
    approver. Currency conversion, the partner's receivable and the user's
    groups are given as inputs; amounts are integers in minor units. */
module CreditLimit {
  import opened Wrappers

  type PartnerId = int
  type Currency = int
  type Company = int
  type Date = int

  /** `from._convert(amount, to, company, date)` */
  type Converter = (int, Currency, Currency, Company, Date) -> int

  /** `partner.with_company(company).credit`: the receivable of a partner in a company */
  type Receivable = (PartnerId, Company) -> int

  /** A partner: its commercial entity, its credit limit (0 when unset) and
      the currency of the limit */
  datatype Partner = Partner(id: PartnerId, commercial: PartnerId, creditLimit: int, limitCurrency: Option<Currency>)

  /** The fields of a sale order the gate reads */
  datatype Order = Order(partner: PartnerId, currency: Currency, amountUntaxed: int,
                         company: Company, companyCurrency: Currency, date: Option<Date>)

  /** `order.partner_id.commercial_partner_id`; None stands for the empty
      record, whose fields read as unset */
  function Commercial(partners: map<PartnerId, Partner>, id: PartnerId): Option<Partner>
  {
    if id in partners && partners[id].commercial in partners then Some(partners[partners[id].commercial])
    else None
  }

  /** The date amounts are converted at: the order date, or today */
  function RateDate(order: Order, today: Date): Date
  {
    order.date.GetOr(today)
  }

  /** What `_compute_credit_info` shows on an order: the receivable and the
      limit, both in the company currency */
  datatype CreditInfo = CreditInfo(receivable: int, limit: int)

  /** `_compute_credit_info`: the limit defaults to 0 and its currency to the
      company currency */
  function ComputeCreditInfo(partners: map<PartnerId, Partner>, order: Order, credit: Receivable,
                             convert: Converter, today: Date): (r: CreditInfo)
  {
    var p := Commercial(partners, order.partner);
    var limit := if p.Some? then p.value.creditLimit else 0;
    var limitCurrency := if p.Some? && p.value.limitCurrency.Some? then p.value.limitCurrency.value else order.companyCurrency;
    CreditInfo(if p.Some? then credit(p.value.id, order.company) else 0,
               convert(limit, limitCurrency, order.companyCurrency, order.company, RateDate(order, today)))
  }

  /** The order's untaxed amount in the company currency */
  function OrderAmount(order: Order, convert: Converter, today: Date): int
  {
    convert(order.amountUntaxed, order.currency, order.companyCurrency, order.company, RateDate(order, today))
  }

  /** The outcome of `_check_credit_before_confirm`: it returns, or raises
      the credit-limit error reporting the overage */
  datatype Gate = Pass | Blocked(overage: int)

  /** `_check_credit_before_confirm` for one order. It agrees with the
      credit info shown on the order: without a limit nothing is checked;
      with one, the order is blocked exactly when the shown receivable plus
      the converted order amount exceeds the shown limit and the user is no
      approver, and the error reports that excess; an overage of exactly 0
      passes, and an approver always passes */
  function CheckCredit(partners: map<PartnerId, Partner>, order: Order, credit: Receivable,
                       convert: Converter, today: Date, approver: bool): (r: Gate)
    ensures approver ==> r == Pass
    ensures var p := Commercial(partners, order.partner);
      var info := ComputeCreditInfo(partners, order, credit, convert, today);
      var excess := info.receivable + OrderAmount(order, convert, today) - info.limit;
      (p.None? || p.value.creditLimit == 0 ==> r == Pass) &&
      (p.Some? && p.value.creditLimit != 0 ==>
        (r.Blocked? <==> excess > 0 && !approver) && (r.Blocked? ==> r.overage == excess))
  {
    var p := Commercial(partners, order.partner);
    if p.None? || p.value.creditLimit == 0 then Pass
    else
      var date := RateDate(order, today);
      var orderAmount := convert(order.amountUntaxed, order.currency, order.companyCurrency, order.company, date);
      var limitCurrency := p.value.limitCurrency.GetOr(order.companyCurrency);
      var limit := convert(p.value.creditLimit, limitCurrency, order.companyCurrency, order.company, date);
      var overage := credit(p.value.id, order.company) + orderAmount - limit;
      if overage > 0 && !approver then Blocked(overage) else Pass
  }

  /** Only the commercial partner matters: the contact's own limit and
      currency are never read */
  lemma CommercialOnly(partners: map<PartnerId, Partner>, others: map<PartnerId, Partner>, order: Order,
                       credit: Receivable, convert: Converter, today: Date, approver: bool)
    requires Commercial(partners, order.partner) == Commercial(others, order.partner)
    ensures CheckCredit(partners, order, credit, convert, today, approver) ==
            CheckCredit(others, order, credit, convert, today, approver)
    ensures ComputeCreditInfo(partners, order, credit, convert, today) ==
            ComputeCreditInfo(others, order, credit, convert, today)
  {
  }

  /** The outcome of `action_confirm` on a batch of orders: every order is
      checked before any is confirmed, so the first blocked order refuses
      the whole batch */
  datatype Confirmation = Confirmed | Refused(index: nat, overage: int)

  /** Every order of the batch passes the gate */
  predicate AllPass(partners: map<PartnerId, Partner>, orders: seq<Order>, credit: Receivable,
                    convert: Converter, today: Date, approver: bool)
  {
    forall i :: 0 <= i < |orders| ==> CheckCredit(partners, orders[i], credit, convert, today, approver) == Pass
  }

  /** `action_confirm`: checks the orders in turn and stops at the first
      error */
  method ActionConfirm(partners: map<PartnerId, Partner>, orders: seq<Order>, credit: Receivable,
                       convert: Converter, today: Date, approver: bool) returns (r: Confirmation)
    ensures r == Confirmed <==> AllPass(partners, orders, credit, convert, today, approver)
    ensures r.Refused? ==>
      r.index < |orders| &&
      CheckCredit(partners, orders[r.index], credit, convert, today, approver) == Blocked(r.overage) &&
      AllPass(partners, orders[..r.index], credit, convert, today, approver)
  {
    var i := 0;
    while i < |orders|
      invariant 0 <= i <= |orders|
      invariant AllPass(partners, orders[..i], credit, convert, today, approver)
    {
      var gate := CheckCredit(partners, orders[i], credit, convert, today, approver);
      if gate.Blocked? {
        return Refused(i, gate.overage);
      }
      assert orders[..i + 1] == orders[..i] + [orders[i]];
      i := i + 1;
    }
    assert orders[..i] == orders;
    return Confirmed;
  }

  /** `_check_credit_limit_non_negative` on one partner: a set limit must not
      be negative (0 is falsy and passes) */
  predicate LimitAccepted(p: Partner)
  {
    !(p.creditLimit != 0 && p.creditLimit < 0)
  }

  /** `_check_credit_limit_non_negative` on a batch: the first negative limit
      raises, rejecting the whole batch */
  method CheckCreditLimitNonNegative(ps: seq<Partner>) returns (ok: bool)
    ensures ok <==> forall i :: 0 <= i < |ps| ==> ps[i].creditLimit >= 0
  {
    var i := 0;
    while i < |ps|
      invariant 0 <= i <= |ps|
      invariant forall j :: 0 <= j < i ==> ps[j].creditLimit >= 0
    {
      if !LimitAccepted(ps[i]) {
        return false;
      }
      i := i + 1;
    }
    return true;
  }

  /** The values a new partner is created with; an absent currency takes
      the field default */
  datatype PartnerValues = PartnerValues(id: PartnerId, commercial: PartnerId, creditLimit: int, limitCurrency: Option<Currency>)

  /** Creating a partner: the limit currency defaults to the current
      company's currency */
  function CreatePartner(v: PartnerValues, companyCurrency: Currency): Partner
  {
    Partner(v.id, v.commercial, v.creditLimit, Some(v.limitCurrency.GetOr(companyCurrency)))
  }

  /** A converter that leaves amounts in the same currency alone */
  ghost predicate KeepsSameCurrency(convert: Converter)
  {
    forall a, c, company, d :: convert(a, c, c, company, d) == a
  }

  /** For a partner created without a limit currency in the order's company
      currency, the shown limit is the limit itself */
  lemma DefaultCurrencyLimit(v: PartnerValues, order: Order, credit: Receivable, convert: Converter, today: Date)
    requires v.limitCurrency.None? && v.id == v.commercial
    requires KeepsSameCurrency(convert)
    ensures var p := CreatePartner(v, order.companyCurrency);
      var partners := map[order.partner := Partner(order.partner, p.id, 0, None), p.id := p];
      order.partner != p.id ==>
        ComputeCreditInfo(partners, order, credit, convert, today).limit == v.creditLimit
  {
  }
}
