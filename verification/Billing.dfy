/**
 * The billing tables as one value: checkout, settlement, redelivery, and the
 * ledger invariant over every run.
 *
 * A plan's generated id and its unique code name the same row, so plans are
 * keyed by code; payments are keyed by their unique order id and subscriptions
 * by the organization of their unique constraint.
 */
module Billing {
  import opened Common

  datatype Plan = Plan(monthly: real, yearly: real)

  datatype InvoiceStatus = Pending | Paid
  datatype Invoice = Invoice(
    number: string, org: nat, plan: string, amount: real, status: InvoiceStatus, cycle: string, paidAt: Option<int>)

  datatype PaymentStatus = Awaiting | Settlement
  datatype Payment = Payment(
    invoice: nat, org: nat, amount: real, status: PaymentStatus, paymentType: Option<string>, paidAt: Option<int>)

  datatype Subscription = Subscription(plan: string, cycle: string, start: int, end: int)

  datatype Organization = Organization(tier: string, active: bool)

  datatype Ledger = Ledger(
    plans: map<string, Plan>,
    invoices: map<nat, Invoice>,
    payments: map<string, Payment>,
    subs: map<nat, Subscription>,
    orgs: map<nat, Organization>)

  // ---------------------------------------------------------------- checkout

  const FALLBACK_PLAN: string := "PRO"

  function CycleOf(requested: string): string {
    if requested == "" then "MONTHLY" else requested
  }

  function PriceOf(p: Plan, cycle: string): real {
    if cycle == "YEARLY" then p.yearly else p.monthly
  }

  function PlanFor(l: Ledger, requested: string): Option<string> {
    if requested in l.plans then Some(requested)
    else if FALLBACK_PLAN in l.plans then Some(FALLBACK_PLAN)
    else None
  }

  /** Keys generated on the way: invoice row, invoice number, order id. */
  datatype Keys = Keys(invoice: nat, number: string, order: string)

  predicate InvoiceInserts(l: Ledger, org: nat, keys: Keys) {
    org in l.orgs && keys.invoice !in l.invoices
    && forall i | i in l.invoices :: l.invoices[i].number != keys.number
  }

  datatype CheckoutResult = Accepted(order: string, gross: real) | Rejected

  /** The invoice and the payment are two separate writes: the second may fail alone. */
  function Checkout(l: Ledger, org: nat, requested: string, cycle: string, keys: Keys): (Ledger, CheckoutResult) {
    var plan := PlanFor(l, requested);
    if plan.None? || !InvoiceInserts(l, org, keys) then (l, Rejected)
    else
      var amount := PriceOf(l.plans[plan.value], CycleOf(cycle));
      var inv := Invoice(keys.number, org, plan.value, amount, Pending, CycleOf(cycle), None);
      var l1 := l.(invoices := l.invoices[keys.invoice := inv]);
      if keys.order in l.payments then (l1, Rejected)
      else
        var pay := Payment(keys.invoice, org, amount, Awaiting, None, None);
        (l1.(payments := l1.payments[keys.order := pay]), Accepted(keys.order, amount))
  }

  // ---------------------------------------------------------------- settlement

  function Duration(cycle: string): int {
    if cycle == "YEARLY" then 365 * DAY else 30 * DAY
  }

  /** `now` is the application's clock, `dbNow` the transaction's. */
  datatype Delivery = Delivery(order: string, paymentType: string, now: int, dbNow: int)

  predicate Settles(l: Ledger, order: string) {
    order in l.payments
    && l.payments[order].invoice in l.invoices
    && l.payments[order].org in l.orgs
    && l.invoices[l.payments[order].invoice].plan in l.plans
  }

  function PaidBy(pay: Payment, d: Delivery): Payment {
    pay.(status := Settlement, paymentType := Some(d.paymentType), paidAt := Some(d.now))
  }

  function Settled(l: Ledger, d: Delivery): Ledger
    requires Settles(l, d.order)
  {
    var pay := l.payments[d.order];
    var inv := l.invoices[pay.invoice];
    l.(payments := l.payments[d.order := PaidBy(pay, d)],
       invoices := l.invoices[pay.invoice := inv.(status := Paid, paidAt := Some(d.now))],
       subs := l.subs[pay.org := Subscription(inv.plan, inv.cycle, d.dbNow, d.dbNow + Duration(inv.cycle))],
       orgs := if inv.plan != "" then l.orgs[pay.org := Organization(inv.plan, true)] else l.orgs)
  }

  /** One database transaction: it commits entirely or not at all. */
  function Settle(l: Ledger, d: Delivery, fault: bool): (Ledger, bool) {
    if Settles(l, d.order) && !fault then (Settled(l, d), true) else (l, false)
  }

  // ---------------------------------------------------------------- the trial on first use

  function Usage(l: Ledger, org: nat, dbNow: int, tierWritten: bool): Ledger {
    if org in l.subs && l.subs[org].plan in l.plans then l
    else if FALLBACK_PLAN !in l.plans || org !in l.orgs then l
    else
      l.(subs := l.subs[org := Subscription(FALLBACK_PLAN, "MONTHLY", dbNow, dbNow + 30 * DAY)],
         orgs := if tierWritten then l.orgs[org := Organization(FALLBACK_PLAN, true)] else l.orgs)
  }

  // ---------------------------------------------------------------- runs

  datatype Event =
    | CheckoutEvent(org: nat, requested: string, cycle: string, keys: Keys)
    | Webhook(delivery: Delivery, success: bool, fault: bool)
    | UsageEvent(org: nat, dbNow: int, tierWritten: bool)
    | PlanUpsert(code: string, plan: Plan)

  function Step(l: Ledger, e: Event): Ledger {
    match e
    case CheckoutEvent(org, requested, cycle, keys) => Checkout(l, org, requested, cycle, keys).0
    case Webhook(d, success, fault) => if success then Settle(l, d, fault).0 else l
    case UsageEvent(org, dbNow, tierWritten) => Usage(l, org, dbNow, tierWritten)
    case PlanUpsert(code, plan) => l.(plans := l.plans[code := plan])
  }

  function Run(l: Ledger, es: seq<Event>): Ledger {
    if es == [] then l else Step(Run(l, es[..|es| - 1]), es[|es| - 1])
  }

  /** Payments and invoices agree one to one, and what is settled is subscribed. */
  ghost predicate Balanced(l: Ledger) {
    PaymentsMatched(l) && OneToOne(l) && PaidArePaidFor(l) && InvoicesSound(l) && SubsSound(l)
  }

  ghost predicate PaymentsMatched(l: Ledger) {
    forall o :: o in l.payments ==> Matched(l, o)
  }

  ghost predicate Matched(l: Ledger, o: string)
    requires o in l.payments
  {
    var pay := l.payments[o];
    && pay.invoice in l.invoices
    && l.invoices[pay.invoice].org == pay.org
    && l.invoices[pay.invoice].amount == pay.amount
    && (pay.status == Settlement <==> l.invoices[pay.invoice].status == Paid)
    && (pay.status == Settlement ==> pay.org in l.subs)
  }

  ghost predicate OneToOne(l: Ledger) {
    forall o, o' :: o in l.payments && o' in l.payments && l.payments[o].invoice == l.payments[o'].invoice ==> o == o'
  }

  ghost predicate HasPayment(l: Ledger, i: nat) {
    exists o :: o in l.payments && l.payments[o].invoice == i
  }

  ghost predicate PaidArePaidFor(l: Ledger) {
    forall i :: i in l.invoices && l.invoices[i].status == Paid ==> HasPayment(l, i)
  }

  ghost predicate InvoicesSound(l: Ledger) {
    && (forall i :: i in l.invoices ==> l.invoices[i].org in l.orgs && l.invoices[i].plan in l.plans)
    && (forall i, j :: i in l.invoices && j in l.invoices && l.invoices[i].number == l.invoices[j].number ==> i == j)
  }

  ghost predicate SubsSound(l: Ledger) {
    forall org :: org in l.subs ==>
      && org in l.orgs && l.subs[org].plan in l.plans
      && l.subs[org].end - l.subs[org].start == Duration(l.subs[org].cycle)
  }

  lemma {:induction false} SettleKeepsMatching(l: Ledger, d: Delivery)
    requires PaymentsMatched(l) && OneToOne(l) && Settles(l, d.order)
    ensures PaymentsMatched(Settled(l, d)) && OneToOne(Settled(l, d))
  {
    var l' := Settled(l, d);
    forall o | o in l'.payments ensures Matched(l', o) {
      assert Matched(l, o);
    }
  }

  /** An invoice keeps its payment when payments are added or keep theirs. */
  lemma {:induction false} PaymentStays(l: Ledger, l': Ledger, i: nat)
    requires HasPayment(l, i)
    requires forall o :: o in l.payments ==> o in l'.payments && l'.payments[o].invoice == l.payments[o].invoice
    ensures HasPayment(l', i)
  {
    var o :| o in l.payments && l.payments[o].invoice == i;
    assert l'.payments[o].invoice == i;
  }

  lemma {:induction false} SettleKeepsPaidFor(l: Ledger, d: Delivery)
    requires PaidArePaidFor(l) && Settles(l, d.order)
    ensures PaidArePaidFor(Settled(l, d))
  {
    var l' := Settled(l, d);
    forall i | i in l'.invoices && l'.invoices[i].status == Paid ensures HasPayment(l', i) {
      if i == l.payments[d.order].invoice {
        assert l'.payments[d.order].invoice == i;
      } else {
        PaymentStays(l, l', i);
      }
    }
  }

  lemma {:induction false} SettleKeepsSound(l: Ledger, d: Delivery)
    requires InvoicesSound(l) && SubsSound(l) && Settles(l, d.order)
    ensures InvoicesSound(Settled(l, d)) && SubsSound(Settled(l, d))
  {
  }

  lemma {:induction false} SettleKeepsBalance(l: Ledger, d: Delivery)
    requires Balanced(l) && Settles(l, d.order)
    ensures Balanced(Settled(l, d))
  {
    SettleKeepsMatching(l, d);
    SettleKeepsPaidFor(l, d);
    SettleKeepsSound(l, d);
  }

  lemma {:induction false} InvoiceInsertKeepsBalance(l: Ledger, id: nat, inv: Invoice)
    requires Balanced(l) && id !in l.invoices && inv.status == Pending && inv.org in l.orgs && inv.plan in l.plans
    requires forall i :: i in l.invoices ==> l.invoices[i].number != inv.number
    ensures Balanced(l.(invoices := l.invoices[id := inv]))
  {
    var l' := l.(invoices := l.invoices[id := inv]);
    assert PaymentsMatched(l') by {
      forall o | o in l'.payments ensures Matched(l', o) { assert Matched(l, o); }
    }
    assert PaidArePaidFor(l') by {
      forall i | i in l'.invoices && l'.invoices[i].status == Paid ensures HasPayment(l', i) { PaymentStays(l, l', i); }
    }
  }

  lemma {:induction false} PaymentInsertKeepsMatching(l: Ledger, order: string, pay: Payment)
    requires PaymentsMatched(l) && OneToOne(l)
    requires order !in l.payments && pay.status == Awaiting && pay.invoice in l.invoices
    requires var inv := l.invoices[pay.invoice]; inv.status == Pending && inv.org == pay.org && inv.amount == pay.amount
    requires forall o :: o in l.payments ==> l.payments[o].invoice != pay.invoice
    ensures PaymentsMatched(l.(payments := l.payments[order := pay]))
    ensures OneToOne(l.(payments := l.payments[order := pay]))
  {
    var l' := l.(payments := l.payments[order := pay]);
    forall o | o in l'.payments ensures Matched(l', o) {
      if o in l.payments { assert Matched(l, o); }
    }
  }

  lemma {:induction false} PaymentInsertKeepsBalance(l: Ledger, order: string, pay: Payment)
    requires Balanced(l) && order !in l.payments && pay.status == Awaiting && pay.invoice in l.invoices
    requires var inv := l.invoices[pay.invoice]; inv.status == Pending && inv.org == pay.org && inv.amount == pay.amount
    requires forall o :: o in l.payments ==> l.payments[o].invoice != pay.invoice
    ensures Balanced(l.(payments := l.payments[order := pay]))
  {
    PaymentInsertKeepsMatching(l, order, pay);
    var l' := l.(payments := l.payments[order := pay]);
    forall i | i in l'.invoices && l'.invoices[i].status == Paid ensures HasPayment(l', i) {
      PaymentStays(l, l', i);
    }
  }

  lemma {:induction false} CheckoutKeepsBalance(l: Ledger, org: nat, requested: string, cycle: string, keys: Keys)
    requires Balanced(l)
    ensures Balanced(Checkout(l, org, requested, cycle, keys).0)
  {
    var plan := PlanFor(l, requested);
    if plan.Some? && InvoiceInserts(l, org, keys) {
      var amount := PriceOf(l.plans[plan.value], CycleOf(cycle));
      var inv := Invoice(keys.number, org, plan.value, amount, Pending, CycleOf(cycle), None);
      InvoiceInsertKeepsBalance(l, keys.invoice, inv);
      if keys.order !in l.payments {
        forall o | o in l.payments ensures l.payments[o].invoice != keys.invoice { assert Matched(l, o); }
        PaymentInsertKeepsBalance(l.(invoices := l.invoices[keys.invoice := inv]), keys.order,
                                  Payment(keys.invoice, org, amount, Awaiting, None, None));
      }
    }
  }

  /** A step that leaves invoices and payments alone and removes no other row. */
  lemma {:induction false} UntouchedKeepsBalance(l: Ledger, l': Ledger)
    requires Balanced(l) && SubsSound(l') && l'.payments == l.payments && l'.invoices == l.invoices
    requires l.orgs.Keys <= l'.orgs.Keys && l.plans.Keys <= l'.plans.Keys && l.subs.Keys <= l'.subs.Keys
    ensures Balanced(l')
  {
    assert PaymentsMatched(l') by {
      forall o | o in l'.payments ensures Matched(l', o) { assert Matched(l, o); }
    }
    assert PaidArePaidFor(l') by {
      forall i | i in l'.invoices && l'.invoices[i].status == Paid ensures HasPayment(l', i) { PaymentStays(l, l', i); }
    }
  }

  lemma {:induction false} StepKeepsBalance(l: Ledger, e: Event)
    requires Balanced(l)
    ensures Balanced(Step(l, e))
  {
    match e {
      case CheckoutEvent(org, requested, cycle, keys) => CheckoutKeepsBalance(l, org, requested, cycle, keys);
      case Webhook(d, success, fault) => if Settles(l, d.order) { SettleKeepsBalance(l, d); }
      case _ => UntouchedKeepsBalance(l, Step(l, e));
    }
  }

  /** The ledger stays balanced over every run of checkouts, webhooks,
      redeliveries, failed settlements, trials and price changes. */
  lemma {:induction false} LedgerStaysBalanced(l: Ledger, es: seq<Event>)
    requires Balanced(l)
    ensures Balanced(Run(l, es))
  {
    if es != [] {
      LedgerStaysBalanced(l, es[..|es| - 1]);
      StepKeepsBalance(Run(l, es[..|es| - 1]), es[|es| - 1]);
    }
  }

  lemma {:induction false} EmptyLedgerIsBalanced(plans: map<string, Plan>, orgs: map<nat, Organization>, es: seq<Event>)
    ensures Balanced(Run(Ledger(plans, map[], map[], map[], orgs), es))
  {
    LedgerStaysBalanced(Ledger(plans, map[], map[], map[], orgs), es);
  }

  // ---------------------------------------------------------------- price and duration

  /** An order keeps what checkout wrote: the parties, the amount, the plan and the cycle. */
  ghost predicate Kept(before: Ledger, after: Ledger, o: string) {
    && o in before.payments && before.payments[o].invoice in before.invoices
    && o in after.payments && after.payments[o].invoice in after.invoices
    && var p, p' := before.payments[o], after.payments[o];
    && p'.invoice == p.invoice && p'.org == p.org && p'.amount == p.amount
    && after.invoices[p.invoice].org == before.invoices[p.invoice].org
    && after.invoices[p.invoice].plan == before.invoices[p.invoice].plan
    && after.invoices[p.invoice].amount == before.invoices[p.invoice].amount
    && after.invoices[p.invoice].cycle == before.invoices[p.invoice].cycle
  }

  lemma {:induction false} OrdersAreKept(l: Ledger, es: seq<Event>, o: string)
    requires Balanced(l) && o in l.payments
    ensures Kept(l, Run(l, es), o)
  {
    assert Matched(l, o);
    if es != [] {
      var l' := Run(l, es[..|es| - 1]);
      OrdersAreKept(l, es[..|es| - 1], o);
      LedgerStaysBalanced(l, es[..|es| - 1]);
      OrderSurvivesStep(l', es[|es| - 1], o);
    }
  }

  lemma {:induction false} OrderSurvivesStep(l: Ledger, e: Event, o: string)
    requires Balanced(l) && o in l.payments
    ensures Kept(l, Step(l, e), o)
  {
    assert Matched(l, o);
    match e {
      case CheckoutEvent(org, requested, cycle, keys) => OrderSurvivesCheckout(l, org, requested, cycle, keys, o);
      case Webhook(d, success, fault) => if Settles(l, d.order) { OrderSurvivesSettlement(l, d, o); }
      case _ =>
    }
  }

  lemma {:induction false} OrderSurvivesCheckout(l: Ledger, org: nat, requested: string, cycle: string,
                                                 keys: Keys, o: string)
    requires Kept(l, l, o)
    ensures Kept(l, Checkout(l, org, requested, cycle, keys).0, o)
  {
  }

  lemma {:induction false} OrderSurvivesSettlement(l: Ledger, d: Delivery, o: string)
    requires Kept(l, l, o) && Settles(l, d.order)
    ensures Kept(l, Settled(l, d), o)
  {
  }

  /** End to end: an order checked out at one price list and settled after any
      run pays for exactly what it gets. */
  lemma {:induction false} PriceAndDurationAgree(l: Ledger, org: nat, requested: string, cycle: string,
                                                 keys: Keys, es: seq<Event>, d: Delivery)
    requires Balanced(l) && Checkout(l, org, requested, cycle, keys).1.Accepted?
    requires d.order == keys.order
    ensures
      var plan := PlanFor(l, requested).value;
      var l1 := Checkout(l, org, requested, cycle, keys).0;
      var l2 := Run(l1, es);
      var (l3, ok) := Settle(l2, d, false);
      && ok && org in l3.subs && org in l3.orgs && keys.order in l3.payments && keys.invoice in l3.invoices
      && l3.subs[org].plan == plan && (plan != "" ==> l3.orgs[org].tier == plan)
      && l3.payments[keys.order].amount == PriceOf(l.plans[plan], CycleOf(cycle))
      && l3.invoices[keys.invoice].status == Paid
      && (Length(l3.subs[org]) == 365 * DAY || Length(l3.subs[org]) == 30 * DAY)
      && (l.plans[plan].monthly != l.plans[plan].yearly ==>
            (Length(l3.subs[org]) == 365 * DAY <==> l3.payments[keys.order].amount == l.plans[plan].yearly))
  {
    CheckoutKeepsBalance(l, org, requested, cycle, keys);
    var l1 := Checkout(l, org, requested, cycle, keys).0;
    OrdersAreKept(l1, es, keys.order);
    LedgerStaysBalanced(l1, es);
    assert Matched(Run(l1, es), keys.order);
  }

  function Length(sub: Subscription): int { sub.end - sub.start }

  // ---------------------------------------------------------------- redelivery

  /** Delivering a settled order again touches only payment, update and period
      times; the period end moves by exactly the time between the deliveries. */
  lemma {:induction false} RedeliveryOnlyMovesTimes(l: Ledger, d: Delivery, d': Delivery)
    requires Settles(l, d.order) && d'.order == d.order && d.dbNow <= d'.dbNow
    ensures
      var l1 := Settled(l, d);
      && Settles(l1, d'.order)
      && var l2 := Settled(l1, d');
      && var pay, sub := l1.payments[d.order], l1.subs[l.payments[d.order].org];
      && l2.plans == l1.plans && l2.orgs == l1.orgs
      && l2.payments == l1.payments[d.order := pay.(paymentType := Some(d'.paymentType), paidAt := Some(d'.now))]
      && l2.invoices == l1.invoices[pay.invoice := l1.invoices[pay.invoice].(paidAt := Some(d'.now))]
      && l2.subs == l1.subs[pay.org := sub.(start := d'.dbNow, end := l2.subs[pay.org].end)]
      && l2.subs[pay.org].end == sub.end + (d'.dbNow - d.dbNow)
  {
  }

  /** Settlement is idempotent only for a delivery identical in type and times. */
  lemma {:induction false} RedeliveryIsIdempotentIff(l: Ledger, d: Delivery, d': Delivery)
    requires Settles(l, d.order) && d'.order == d.order
    ensures Settles(Settled(l, d), d'.order)
    ensures Settled(Settled(l, d), d') == Settled(l, d) <==> d' == d
  {
    var l1 := Settled(l, d);
    var l2 := Settled(l1, d');
    var pay := l1.payments[d.order];
    if l2 == l1 {
      assert l2.payments[d.order].paymentType == Some(d'.paymentType) && l2.payments[d.order].paidAt == Some(d'.now);
      assert l2.subs[pay.org].start == d'.dbNow;
    }
    if d' == d {
      assert l2.payments == l1.payments && l2.invoices == l1.invoices && l2.subs == l1.subs && l2.orgs == l1.orgs;
    }
  }

  /** The ledger without what a redelivery may move: payment type, payment times,
      and where the period lies. How long it is stays. */
  function Timeless(l: Ledger): Ledger {
    l.(payments := map o | o in l.payments :: l.payments[o].(paymentType := None, paidAt := None),
       invoices := map i | i in l.invoices :: l.invoices[i].(paidAt := None),
       subs := map org | org in l.subs :: l.subs[org].(start := 0, end := Length(l.subs[org])))
  }

  /** Deliveries of one order, successful or not. */
  ghost predicate DeliveriesOf(es: seq<Event>, order: string) {
    forall i :: 0 <= i < |es| ==> es[i].Webhook? && es[i].delivery.order == order
  }

  /** The order has been settled, its period starts at `start`. */
  ghost predicate IsSettled(l: Ledger, order: string, start: int) {
    && Settles(l, order)
    && var pay := l.payments[order];
    && var inv := l.invoices[pay.invoice];
    && pay.status == Settlement && inv.status == Paid && pay.org in l.subs
    && l.subs[pay.org] == Subscription(inv.plan, inv.cycle, start, start + Duration(inv.cycle))
    && (inv.plan != "" ==> l.orgs[pay.org] == Organization(inv.plan, true))
  }

  lemma {:induction false} SettledAgain(l: Ledger, d: Delivery, start: int)
    requires IsSettled(l, d.order, start)
    ensures IsSettled(Settled(l, d), d.order, d.dbNow)
    ensures Timeless(Settled(l, d)) == Timeless(l)
    ensures Settled(l, d).payments[d.order].org == l.payments[d.order].org
  {
    var a, b := Timeless(Settled(l, d)), Timeless(l);
    assert a.payments == b.payments;
    assert a.invoices == b.invoices;
    assert a.subs == b.subs;
    assert a.orgs == b.orgs;
  }

  /** However often a settled order is delivered again in succession, nothing but
      payment type and times ever changes, and the period never ends earlier. */
  lemma {:induction false} RedeliveriesKeepTheLedger(l: Ledger, d: Delivery, es: seq<Event>)
    requires Settles(l, d.order) && DeliveriesOf(es, d.order)
    requires forall i :: 0 <= i < |es| ==> d.dbNow <= es[i].delivery.dbNow
    ensures Timeless(Run(Settled(l, d), es)) == Timeless(Settled(l, d))
    ensures exists start :: d.dbNow <= start && IsSettled(Run(Settled(l, d), es), d.order, start)
    ensures var org := l.payments[d.order].org;
      org in Run(Settled(l, d), es).subs && Settled(l, d).subs[org].end <= Run(Settled(l, d), es).subs[org].end
  {
    var org := l.payments[d.order].org;
    assert IsSettled(Settled(l, d), d.order, d.dbNow);
    if es != [] {
      var before, e := es[..|es| - 1], es[|es| - 1];
      RedeliveriesKeepTheLedger(l, d, before);
      var l' := Run(Settled(l, d), before);
      var start :| d.dbNow <= start && IsSettled(l', d.order, start);
      if e.success && !e.fault {
        SettledAgain(l', e.delivery, start);
        assert IsSettled(Run(Settled(l, d), es), d.order, e.delivery.dbNow);
      } else {
        assert Run(Settled(l, d), es) == l';
      }
      TimelessLength(Run(Settled(l, d), es), Settled(l, d), org);
    }
  }

  lemma {:induction false} TimelessLength(a: Ledger, b: Ledger, org: nat)
    requires Timeless(a) == Timeless(b) && org in b.subs
    ensures org in a.subs && Length(a.subs[org]) == Length(b.subs[org])
  {
    assert org in Timeless(b).subs;
    assert Timeless(a).subs[org] == Timeless(b).subs[org];
  }

  /** Two orders of one organization, settled one after the other: the period
      end falls exactly when a yearly settlement is followed within 335 days by
      one that is not yearly. A redelivered old order is enough. */
  lemma {:induction false} LaterSettlementShortensIff(l: Ledger, d: Delivery, d': Delivery)
    requires Balanced(l) && d.order in l.payments && d'.order in l.payments && d.dbNow <= d'.dbNow
    requires l.payments[d.order].org == l.payments[d'.order].org
    ensures Settles(l, d.order) && Settles(Settled(l, d), d'.order)
    ensures
      var org := l.payments[d.order].org;
      var l1 := Settled(l, d);
      var l2 := Settled(l1, d');
      l2.subs[org].end < l1.subs[org].end <==>
        && l.invoices[l.payments[d.order].invoice].cycle == "YEARLY"
        && l.invoices[l.payments[d'.order].invoice].cycle != "YEARLY"
        && d'.dbNow - d.dbNow < 335 * DAY
  {
    assert Matched(l, d.order) && Matched(l, d'.order);
    SettleKeepsBalance(l, d);
    assert Matched(Settled(l, d), d'.order);
  }

  /** A yearly and a monthly order of one organization, both pending. */
  function TwoOrders(): Ledger {
    var l := Ledger(map["PRO" := Plan(1.0, 10.0)], map[], map[], map[], map[0 := Organization("", true)]);
    var l1 := Checkout(l, 0, "PRO", "YEARLY", Keys(1, "INV-1", "Y")).0;
    Checkout(l1, 0, "PRO", "MONTHLY", Keys(2, "INV-2", "M")).0
  }

  /** Settled at one moment, the monthly order cuts the paid year short. */
  lemma {:induction false} MonthlyCutsYearShort(now: int)
    ensures var l, yearly, monthly := TwoOrders(), Delivery("Y", "qris", now, now), Delivery("M", "qris", now, now);
      && Settles(l, "Y") && Settles(Settled(l, yearly), "M")
      && Settled(l, yearly).subs[0].end == now + 365 * DAY
      && Settled(Settled(l, yearly), monthly).subs[0].end == now + 30 * DAY
  {
    var l := TwoOrders();
    assert l.payments == map["Y" := Payment(1, 0, 10.0, Awaiting, None, None),
                             "M" := Payment(2, 0, 1.0, Awaiting, None, None)];
    assert l.invoices[1].cycle == "YEARLY" && l.invoices[2].cycle == "MONTHLY";
  }

  // ---------------------------------------------------------------- what a checkout charges

  /** The plan that is bought: the requested one, or PRO when it is unknown. */
  function Bought(l: Ledger, requested: string): string {
    if requested in l.plans then requested else "PRO"
  }

  /** A checkout goes through exactly when a plan is there, its organization is,
      and the generated keys are new; it then charges the yearly price for a
      yearly cycle and the monthly price otherwise, and leaves everything pending. */
  lemma {:induction false} CheckoutCharges(l: Ledger, org: nat, requested: string, cycle: string, keys: Keys)
    ensures var (l', r) := Checkout(l, org, requested, cycle, keys);
      && (r.Accepted? <==>
            && Bought(l, requested) in l.plans && org in l.orgs && keys.order !in l.payments
            && keys.invoice !in l.invoices && forall i :: i in l.invoices ==> l.invoices[i].number != keys.number)
      && (r.Accepted? ==>
            var plan := l.plans[Bought(l, requested)];
            var amount := if cycle == "YEARLY" then plan.yearly else plan.monthly;
            && r == Accepted(keys.order, amount)
            && l'.payments == l.payments[keys.order := Payment(keys.invoice, org, amount, Awaiting, None, None)]
            && l'.invoices == l.invoices[keys.invoice :=
                 Invoice(keys.number, org, Bought(l, requested), amount, Pending,
                         if cycle == "" then "MONTHLY" else cycle, None)])
      && (r.Rejected? ==> l'.payments == l.payments)
      && l'.plans == l.plans && l'.subs == l.subs && l'.orgs == l.orgs
  {
  }

  /** A settlement reports success exactly when it is committed, and touches only
      its own payment and invoice and its own organization. */
  lemma {:induction false} SettlementTouchesItsOrder(l: Ledger, d: Delivery, fault: bool)
    requires Balanced(l)
    ensures var (l', ok) := Settle(l, d, fault);
      && (ok <==> d.order in l.payments && !fault)
      && (!ok ==> l' == l)
      && (ok ==>
            var pay := l.payments[d.order];
            && l'.payments - {d.order} == l.payments - {d.order}
            && l'.invoices - {pay.invoice} == l.invoices - {pay.invoice}
            && l'.subs - {pay.org} == l.subs - {pay.org} && l'.orgs - {pay.org} == l.orgs - {pay.org}
            && l'.plans == l.plans
            && l'.payments[d.order].paidAt == Some(d.now) && l'.payments[d.order].paymentType == Some(d.paymentType)
            && l'.orgs[pay.org].active == (l.invoices[pay.invoice].plan != "" || l.orgs[pay.org].active))
  {
    if d.order in l.payments { assert Matched(l, d.order); }
  }

  // ---------------------------------------------------------------- subscriptions between settlements

  /** An organization without a subscription gets thirty days of PRO by looking;
      one that has a subscription keeps it as it is. */
  lemma {:induction false} LookingStartsTrialOnce(l: Ledger, org: nat, dbNow: int, tierWritten: bool)
    requires Balanced(l)
    ensures var l' := Usage(l, org, dbNow, tierWritten);
      && (org in l.subs ==> l' == l)
      && (org !in l.subs && "PRO" in l.plans && org in l.orgs ==>
            && l'.subs == l.subs[org := Subscription("PRO", "MONTHLY", dbNow, dbNow + 30 * 86_400 * 1_000_000_000)]
            && l'.orgs == (if tierWritten then l.orgs[org := Organization("PRO", true)] else l.orgs))
      && (org !in l.subs && !("PRO" in l.plans && org in l.orgs) ==> l' == l)
      && l'.plans == l.plans && l'.payments == l.payments && l'.invoices == l.invoices
  {
  }

  /** No event of the run settles an order of the organization. */
  ghost predicate NoneSettles(l: Ledger, es: seq<Event>, org: nat) {
    forall i :: 0 <= i < |es| ==> !SettlesFor(Run(l, es[..i]), es[i], org)
  }

  predicate SettlesFor(l: Ledger, e: Event, org: nat) {
    e.Webhook? && e.success && !e.fault && e.delivery.order in l.payments && l.payments[e.delivery.order].org == org
  }

  /** A subscription changes by a settlement of its own organization only: over
      every run without one it stays as it is, whoever looks, buys or pays. */
  lemma {:induction false} SubscriptionLastsUntilSettlement(l: Ledger, es: seq<Event>, org: nat)
    requires Balanced(l) && org in l.subs && NoneSettles(l, es, org)
    ensures org in Run(l, es).subs && Run(l, es).subs[org] == l.subs[org]
    ensures org in l.orgs && org in Run(l, es).orgs && Run(l, es).orgs[org] == l.orgs[org]
  {
    if es != [] {
      var n := |es| - 1;
      assert forall i :: 0 <= i < n ==> es[..n][..i] == es[..i] && es[..n][i] == es[i];
      SubscriptionLastsUntilSettlement(l, es[..n], org);
      LedgerStaysBalanced(l, es[..n]);
      StepKeepsSubscription(Run(l, es[..n]), es[n], org);
    }
  }

  lemma {:induction false} StepKeepsSubscription(l: Ledger, e: Event, org: nat)
    requires Balanced(l) && org in l.subs && !SettlesFor(l, e, org)
    ensures org in Step(l, e).subs && Step(l, e).subs[org] == l.subs[org]
    ensures org in l.orgs && org in Step(l, e).orgs && Step(l, e).orgs[org] == l.orgs[org]
  {
    match e {
      case CheckoutEvent(o, requested, cycle, keys) => CheckoutCharges(l, o, requested, cycle, keys);
      case Webhook(d, success, fault) =>
      case UsageEvent(o, dbNow, tierWritten) => LookingStartsTrialOnce(l, o, dbNow, tierWritten);
      case PlanUpsert(_, _) =>
    }
  }
}
