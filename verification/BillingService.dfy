/** The billing tables and their service methods, statement by statement. */
module BillingService {
  import opened Common
  import opened Billing

  datatype HookStatus = Received | Processed | Failed
  datatype Hook = Hook(source: string, order: string, status: HookStatus)

  /** How a gateway notification classifies itself. */
  datatype Notice = Success | Failure | Undecided

  class SubscriptionService {
    var plans: map<string, Plan>
    var invoices: map<nat, Invoice>
    var payments: map<string, Payment>
    var subs: map<nat, Subscription>
    var orgs: map<nat, Organization>
    var hooks: seq<Hook>

    constructor (plans: map<string, Plan>, orgs: map<nat, Organization>)
      ensures View() == Ledger(plans, map[], map[], map[], orgs) && hooks == []
    {
      this.plans, this.orgs := plans, orgs;
      invoices, payments, subs, hooks := map[], map[], map[], [];
    }

    function View(): Ledger
      reads this
    {
      Ledger(plans, invoices, payments, subs, orgs)
    }

    /** The insert fails on a duplicate key or number, or without its organization or plan. */
    method CreateInvoice(id: nat, inv: Invoice) returns (ok: bool)
      modifies this`invoices
      ensures ok <==>
        && inv.org in orgs && inv.plan in plans && id !in old(invoices)
        && forall i :: i in old(invoices) ==> old(invoices)[i].number != inv.number
      ensures invoices == if ok then old(invoices)[id := inv] else old(invoices)
    {
      if inv.org !in orgs || inv.plan !in plans || id in invoices
         || exists i | i in invoices :: invoices[i].number == inv.number {
        return false;
      }
      invoices := invoices[id := inv];
      ok := true;
    }

    /** The insert fails on a duplicate order id, or without its invoice or organization. */
    method CreatePaymentTransaction(order: string, pay: Payment) returns (ok: bool)
      modifies this`payments
      ensures ok <==> order !in old(payments) && pay.invoice in invoices && pay.org in orgs
      ensures payments == if ok then old(payments)[order := pay] else old(payments)
    {
      if order in payments || pay.invoice !in invoices || pay.org !in orgs {
        return false;
      }
      payments := payments[order := pay];
      ok := true;
    }

    method Checkout(org: nat, planID: string, billingCycle: string, keys: Keys) returns (r: CheckoutResult)
      modifies this
      ensures (View(), r) == Billing.Checkout(old(View()), org, planID, billingCycle, keys)
      ensures hooks == old(hooks)
    {
      var cycle := billingCycle;
      if cycle == "" {
        cycle := "MONTHLY";
      }
      var plan := planID;
      if plan !in plans {
        plan := FALLBACK_PLAN;
        if plan !in plans {
          return Rejected;
        }
      }
      var amount := plans[plan].monthly;
      if cycle == "YEARLY" {
        amount := plans[plan].yearly;
      }
      var ok := CreateInvoice(keys.invoice, Invoice(keys.number, org, plan, amount, Pending, cycle, None));
      if !ok {
        return Rejected;
      }
      ok := CreatePaymentTransaction(keys.order, Payment(keys.invoice, org, amount, Awaiting, None, None));
      if !ok {
        return Rejected;
      }
      r := Accepted(keys.order, amount);
    }

    /** Statement `faultAt` of the transaction, if it is one of 1 to 4, fails in
        the database; the deferred rollback then undoes the earlier ones. */
    method SettlePaymentAndActivateSubscription(d: Delivery, faultAt: nat) returns (ok: bool)
      modifies this`payments, this`invoices, this`subs, this`orgs
      ensures (View(), ok) == Settle(old(View()), d, 1 <= faultAt <= 4)
    {
      var begun := View();
      ok := SettlementStatements(d, faultAt);
      if !ok {
        payments, invoices, subs, orgs := begun.payments, begun.invoices, begun.subs, begun.orgs;
      }
    }

    method SettlementStatements(d: Delivery, faultAt: nat) returns (ok: bool)
      modifies this`payments, this`invoices, this`subs, this`orgs
      ensures ok <==> Settles(old(View()), d.order) && !(1 <= faultAt <= 4)
      ensures ok ==> View() == Settled(old(View()), d)
    {
      // 1. the payment of the order
      if d.order !in payments || faultAt == 1 {
        return false;
      }
      var pay := payments[d.order];
      payments := payments[d.order := pay.(status := Settlement, paymentType := Some(d.paymentType),
                                           paidAt := Some(d.now))];

      // 2. its invoice, which names the plan and the cycle
      if pay.invoice !in invoices || faultAt == 2 {
        return false;
      }
      var inv := invoices[pay.invoice];
      invoices := invoices[pay.invoice := inv.(status := Paid, paidAt := Some(d.now))];
      var durationDays := 30;
      if inv.cycle == "YEARLY" {
        durationDays := 365;
      }

      // 3. the organization's subscription, inserted or replaced
      if pay.org !in orgs || inv.plan !in plans || faultAt == 3 {
        return false;
      }
      subs := subs[pay.org := Subscription(inv.plan, inv.cycle, d.dbNow, d.dbNow + durationDays * DAY)];

      // 4. the organization's tier, and the commit
      if faultAt == 4 {
        return false;
      }
      if inv.plan != "" {
        orgs := orgs[pay.org := Organization(inv.plan, true)];
      }
      ok := true;
    }

    /** INSERT of a log line; `inserted` says whether it reaches the database. */
    method LogWebhookInbound(source: string, order: string, inserted: bool) returns (logID: Option<nat>)
      modifies this`hooks
      ensures logID == if inserted then Some(|old(hooks)|) else None
      ensures hooks == old(hooks) + if inserted then [Hook(source, order, Received)] else []
    {
      if !inserted {
        return None;
      }
      logID := Some(|hooks|);
      hooks := hooks + [Hook(source, order, Received)];
    }

    /** UPDATE of a log line; its error is ignored, so the line may stay as received. */
    method UpdateWebhookStatus(logID: nat, status: HookStatus, written: bool)
      requires logID < |hooks|
      modifies this`hooks
      ensures hooks == if written then old(hooks)[logID := old(hooks)[logID].(status := status)] else old(hooks)
    {
      if written {
        hooks := hooks[logID := hooks[logID].(status := status)];
      }
    }

    /** Every logged delivery leaves one line; only an authentic, logged success settles. */
    method ProcessMidtransWebhook(d: Delivery, authentic: bool, notice: Notice, faultAt: nat, inserted: bool,
                                  written: bool)
      returns (ok: bool)
      modifies this
      ensures View() == if inserted && authentic && notice == Success then Settle(old(View()), d, 1 <= faultAt <= 4).0
                        else old(View())
      ensures ok <==> inserted && authentic && (notice == Success ==> Settle(old(View()), d, 1 <= faultAt <= 4).1)
      ensures hooks == old(hooks) + if inserted then
          [Hook("midtrans", d.order,
                if !written then Received else if ok && notice != Failure then Processed else Failed)]
        else []
    {
      var logID := LogWebhookInbound("midtrans", d.order, inserted);
      if logID.None? {
        return false;
      }
      if !authentic {
        UpdateWebhookStatus(logID.value, Failed, written);
        return false;
      }
      match notice {
        case Success =>
          ok := SettlePaymentAndActivateSubscription(d, faultAt);
          UpdateWebhookStatus(logID.value, if ok then Processed else Failed, written);
        case Failure =>
          UpdateWebhookStatus(logID.value, Failed, written);
          ok := true;
        case Undecided =>
          UpdateWebhookStatus(logID.value, Processed, written);
          ok := true;
      }
    }

    method ProcessFaspayWebhook(d: Delivery, faultAt: nat, inserted: bool, written: bool) returns (ok: bool)
      modifies this
      ensures (View(), ok) == if inserted then Settle(old(View()), d, 1 <= faultAt <= 4) else (old(View()), false)
      ensures hooks == old(hooks) + if inserted then
          [Hook("faspay", d.order, if !written then Received else if ok then Processed else Failed)]
        else []
    {
      var logID := LogWebhookInbound("faspay", d.order, inserted);
      if logID.None? {
        return false;
      }
      ok := SettlePaymentAndActivateSubscription(d, faultAt);
      UpdateWebhookStatus(logID.value, if ok then Processed else Failed, written);
    }

    /** Outside any transaction: the tier update may be lost (`tierWritten`). */
    method UpsertTenantSubscription(org: nat, plan: string, cycle: string, durationDays: int, dbNow: int,
                                    tierWritten: bool)
      returns (ok: bool)
      modifies this`subs, this`orgs
      ensures ok <==> org in old(orgs) && plan in plans
      ensures subs == if ok then old(subs)[org := Subscription(plan, cycle, dbNow, dbNow + durationDays * DAY)]
                      else old(subs)
      ensures ok ==> subs[org].end - subs[org].start == durationDays * 86_400 * 1_000_000_000
      ensures orgs == if ok && tierWritten then old(orgs)[org := Organization(plan, true)] else old(orgs)
    {
      if org !in orgs || plan !in plans {
        return false;
      }
      subs := subs[org := Subscription(plan, cycle, dbNow, dbNow + durationDays * DAY)];
      if tierWritten {
        orgs := orgs[org := Organization(plan, true)];
      }
      ok := true;
    }

    /** Looking at a missing subscription starts a monthly one on the fallback plan. */
    method GetTenantSubscription(org: nat, dbNow: int, tierWritten: bool) returns (sub: Option<Subscription>)
      modifies this`subs, this`orgs
      ensures View() == Usage(old(View()), org, dbNow, tierWritten)
      ensures sub.Some? <==> org in subs && subs[org].plan in plans
      ensures sub.Some? ==> sub.value == subs[org]
      ensures org in old(subs) && old(subs)[org].plan in plans ==> View() == old(View()) && sub == Some(old(subs)[org])
      ensures !(org in old(subs) && old(subs)[org].plan in plans) && "PRO" in plans && org in old(orgs) ==>
        sub == Some(Subscription("PRO", "MONTHLY", dbNow, dbNow + 30 * 86_400 * 1_000_000_000))
    {
      if org in subs && subs[org].plan in plans {
        return Some(subs[org]);
      }
      if FALLBACK_PLAN !in plans {
        return None;
      }
      var ok := UpsertTenantSubscription(org, FALLBACK_PLAN, "MONTHLY", 30, dbNow, tierWritten);
      sub := if ok then Some(subs[org]) else None;
    }
  }
}
