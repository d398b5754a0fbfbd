/** The event reconciler of the Stripe webhook: the effect of each event kind on the
    `deposits` table (payment-intent id to status) and the `virtual_balances` table
    (user id to balance row), stated as functions from the old tables to the new.
    Amounts are integer cents; a balance of `n` cents is `n / 100` dollars. */
module Reconciler {
  import opened Wrappers

  datatype DepositStatus = Pending | Succeeded | Failed | Disputed

  /** A `virtual_balances` row without its key and its `updated_at` stamp. */
  datatype Balance = Balance(currency: string, available: int, pending: int)

  datatype Tables = Tables(deposits: map<string, DepositStatus>, balances: map<string, Balance>)

  /** `event.data.object`: a payment intent (`id`, `amount` in cents, `metadata`) or a
      dispute (`payment_intent`). A missing `metadata` is the empty map. */
  datatype EventObject = EventObject(id: string, amount: int, metadata: map<string, string>, paymentIntent: string)

  datatype Event = Event(kind: string, data: EventObject)

  const PaymentIntentSucceeded := "payment_intent.succeeded"
  const PaymentIntentFailed := "payment_intent.payment_failed"
  const ChargeDisputeCreated := "charge.dispute.created"

  /** The currency of a balance row the handler creates. */
  const Usd := "USD"

  /** `paymentIntent.metadata?.<key>`, "" when absent. */
  function MetadataField(intent: EventObject, key: string): string {
    if key in intent.metadata then intent.metadata[key] else ""
  }

  function UserId(intent: EventObject): string {
    MetadataField(intent, "user_id")
  }

  /** Both `metadata.user_id` and `metadata.alpaca_account_id` are truthy. */
  predicate HasMetadata(intent: EventObject) {
    UserId(intent) != "" && MetadataField(intent, "alpaca_account_id") != ""
  }

  /** The available cents of a user, 0 when the user has no row. */
  function Available(t: Tables, user: string): int {
    if user in t.balances then t.balances[user].available else 0
  }

  /** `update({status}).eq('stripe_payment_intent', intentId)`: every row keyed by the
      intent gets the status, no row is inserted or removed; a failed write changes nothing. */
  function SetStatus(deposits: map<string, DepositStatus>, intentId: string, status: DepositStatus, writeOk: bool)
    : (updated: map<string, DepositStatus>)
    ensures updated.Keys == deposits.Keys
    ensures forall id :: id in deposits ==>
      updated[id] == if id == intentId && writeOk then status else deposits[id]
  {
    if writeOk && intentId in deposits then deposits[intentId := status] else deposits
  }

  /** Read the user's row, then either add to `available` or insert a fresh USD row. */
  function Credit(balances: map<string, Balance>, user: string, amount: int): (credited: map<string, Balance>)
    ensures credited.Keys == balances.Keys + {user}
    ensures credited[user].available == (if user in balances then balances[user].available else 0) + amount
    ensures user in balances ==> credited[user].currency == balances[user].currency
                                 && credited[user].pending == balances[user].pending
    ensures user !in balances ==> credited[user].currency == Usd && credited[user].pending == 0
    ensures forall u :: u in balances && u != user ==> credited[u] == balances[u]
  {
    if user in balances then
      var row := balances[user];
      balances[user := row.(available := row.available + amount)]
    else
      balances[user := Balance(Usd, amount, 0)]
  }

  /** `handlePaymentIntentSucceeded`. */
  function PaymentSucceeded(t: Tables, intent: EventObject, depositWriteOk: bool): (r: Tables)
    ensures !HasMetadata(intent) ==> r == t
    ensures HasMetadata(intent) ==>
      && r.deposits == SetStatus(t.deposits, intent.id, Succeeded, depositWriteOk)
      && r.balances == Credit(t.balances, UserId(intent), intent.amount)
  {
    if !HasMetadata(intent) then t
    else
      Tables(SetStatus(t.deposits, intent.id, Succeeded, depositWriteOk),
             Credit(t.balances, UserId(intent), intent.amount))
  }

  /** `handlePaymentIntentFailed`. */
  function PaymentFailed(t: Tables, intent: EventObject, depositWriteOk: bool): (r: Tables)
    ensures r.balances == t.balances
    ensures r.deposits == SetStatus(t.deposits, intent.id, Failed, depositWriteOk)
  {
    t.(deposits := SetStatus(t.deposits, intent.id, Failed, depositWriteOk))
  }

  /** `handleDisputeCreated`: the deposit is found through `dispute.payment_intent`. */
  function DisputeCreated(t: Tables, intent: EventObject, depositWriteOk: bool): (r: Tables)
    ensures r.balances == t.balances
    ensures r.deposits == SetStatus(t.deposits, intent.paymentIntent, Disputed, depositWriteOk)
  {
    t.(deposits := SetStatus(t.deposits, intent.paymentIntent, Disputed, depositWriteOk))
  }

  predicate IsHandled(kind: string) {
    kind == PaymentIntentSucceeded || kind == PaymentIntentFailed || kind == ChargeDisputeCreated
  }

  /** `switch (event.type)`. */
  function Dispatch(t: Tables, event: Event, depositWriteOk: bool): (r: Tables)
    ensures !IsHandled(event.kind) ==> r == t
    ensures r.deposits.Keys == t.deposits.Keys
    ensures t.balances.Keys <= r.balances.Keys
    ensures event.kind != PaymentIntentSucceeded ==> r.balances == t.balances
  {
    if event.kind == PaymentIntentSucceeded then PaymentSucceeded(t, event.data, depositWriteOk)
    else if event.kind == PaymentIntentFailed then PaymentFailed(t, event.data, depositWriteOk)
    else if event.kind == ChargeDisputeCreated then DisputeCreated(t, event.data, depositWriteOk)
    else t
  }

  // ---------------------------------------------------------------------------
  // Runs of events

  /** One delivery of an event, with the outcome of its deposit status write. */
  datatype Delivery = Delivery(event: Event, depositWriteOk: bool)

  /** The tables after the deliveries are handled one after another. */
  function ApplyAll(t: Tables, run: seq<Delivery>): (r: Tables)
    ensures r.deposits.Keys == t.deposits.Keys
    ensures t.balances.Keys <= r.balances.Keys
  {
    if |run| == 0 then t
    else
      var last := run[|run| - 1];
      Dispatch(ApplyAll(t, run[..|run| - 1]), last.event, last.depositWriteOk)
  }

  /** The cents a single event credits to `user`. */
  function CreditOf(event: Event, user: string): int {
    if event.kind == PaymentIntentSucceeded && HasMetadata(event.data) && UserId(event.data) == user
    then event.data.amount else 0
  }

  /** The cents the deliveries credit to `user`, counting every one of them. */
  function Credited(run: seq<Delivery>, user: string): int {
    if |run| == 0 then 0
    else Credited(run[..|run| - 1], user) + CreditOf(run[|run| - 1].event, user)
  }

  /** The deposit status an event writes, and for which payment intent. */
  function StatusWrite(event: Event): Option<(string, DepositStatus)> {
    if event.kind == PaymentIntentSucceeded && HasMetadata(event.data) then Some((event.data.id, Succeeded))
    else if event.kind == PaymentIntentFailed then Some((event.data.id, Failed))
    else if event.kind == ChargeDisputeCreated then Some((event.data.paymentIntent, Disputed))
    else None
  }

  /** The status of the last delivery whose write for `id` succeeded, or `initial`
      when there is none. */
  function LastStatus(run: seq<Delivery>, id: string, initial: DepositStatus): DepositStatus {
    if |run| == 0 then initial
    else
      var last := run[|run| - 1];
      var w := StatusWrite(last.event);
      if last.depositWriteOk && w.Some? && w.value.0 == id then w.value.1
      else LastStatus(run[..|run| - 1], id, initial)
  }

  /** The ledger is the sum of the deliveries: every `payment_intent.succeeded` with
      metadata adds its amount to its user, however often it is delivered and whether
      or not its status write succeeded, and nothing else moves `available`. */
  lemma {:induction false} AvailableAfterAll(t: Tables, run: seq<Delivery>, user: string)
    ensures Available(ApplyAll(t, run), user) == Available(t, user) + Credited(run, user)
  {
    if |run| > 0 {
      var before := ApplyAll(t, run[..|run| - 1]);
      AvailableAfterAll(t, run[..|run| - 1], user);
      var last := run[|run| - 1];
      var e := last.event;
      if e.kind == PaymentIntentSucceeded && HasMetadata(e.data) && UserId(e.data) != user {
        assert Available(Dispatch(before, e, last.depositWriteOk), user) == Available(before, user);
      }
    }
  }

  /** Status writes are last-write-wins: no transition is refused, so a deposit ends with
      the status of the last delivery naming it whose write succeeded. */
  lemma {:induction false} StatusAfterAll(t: Tables, run: seq<Delivery>, id: string)
    requires id in t.deposits
    ensures ApplyAll(t, run).deposits[id] == LastStatus(run, id, t.deposits[id])
  {
    if |run| > 0 {
      StatusAfterAll(t, run[..|run| - 1], id);
    }
  }

  // ---------------------------------------------------------------------------
  // Single events, related to one another

  /** No idempotency: delivering the same `payment_intent.succeeded` twice credits its
      amount twice, although the first delivery already marked the deposit succeeded. */
  lemma ReplayCreditsTwice(t: Tables, intent: EventObject, depositWriteOk: bool)
    requires HasMetadata(intent)
    requires intent.id in t.deposits && depositWriteOk
    ensures PaymentSucceeded(t, intent, depositWriteOk).deposits[intent.id] == Succeeded
    ensures Available(PaymentSucceeded(PaymentSucceeded(t, intent, depositWriteOk), intent, depositWriteOk), UserId(intent))
         == Available(t, UserId(intent)) + 2 * intent.amount
  {
  }

  /** A `payment_intent.succeeded` whose metadata lacks a truthy `user_id` or
      `alpaca_account_id` is logged and ignored: no table changes. */
  lemma MissingMetadataIgnored(t: Tables, event: Event, depositWriteOk: bool)
    requires event.kind == PaymentIntentSucceeded
    requires "user_id" !in event.data.metadata || event.data.metadata["user_id"] == ""
             || "alpaca_account_id" !in event.data.metadata || event.data.metadata["alpaca_account_id"] == ""
    ensures Dispatch(t, event, depositWriteOk) == t
  {
  }

  /** The credit never consults the deposits table nor the outcome of the status write:
      two states with the same balances get the same balances back. */
  lemma CreditIgnoresDeposits(t1: Tables, t2: Tables, intent: EventObject, writeOk1: bool, writeOk2: bool)
    requires t1.balances == t2.balances
    ensures PaymentSucceeded(t1, intent, writeOk1).balances == PaymentSucceeded(t2, intent, writeOk2).balances
  {
  }

  /** `payment_intent.payment_failed` after `payment_intent.succeeded` marks the deposit
      failed and keeps the credit. */
  lemma FailedOverwritesSucceeded(t: Tables, intent: EventObject)
    requires HasMetadata(intent) && intent.id in t.deposits
    ensures var after := PaymentFailed(PaymentSucceeded(t, intent, true), intent, true);
      && after.deposits[intent.id] == Failed
      && Available(after, UserId(intent)) == Available(t, UserId(intent)) + intent.amount
  {
  }

  /** A dispute on a deposit still pending (as the deposit request inserts it) marks it
      disputed: `disputed` does not have to follow `succeeded`. */
  lemma DisputeOfPendingDeposit(t: Tables, dispute: EventObject)
    requires dispute.paymentIntent in t.deposits && t.deposits[dispute.paymentIntent] == Pending
    ensures DisputeCreated(t, dispute, true).deposits[dispute.paymentIntent] == Disputed
    ensures DisputeCreated(t, dispute, true).balances == t.balances
  {
  }

  /** A first credit of 50.00 creates the row, a second of 25.00 for another intent of
      the same user accumulates: 75.00 available, nothing pending. */
  lemma CreateThenAccumulate(t: Tables, first: EventObject, second: EventObject)
    requires HasMetadata(first) && HasMetadata(second) && UserId(first) == UserId(second)
    requires UserId(first) !in t.balances
    requires first.amount == 5000 && second.amount == 2500 && first.id != second.id
    ensures var user := UserId(first);
      && PaymentSucceeded(t, first, true).balances[user] == Balance(Usd, 5000, 0)
      && PaymentSucceeded(PaymentSucceeded(t, first, true), second, true).balances[user] == Balance(Usd, 7500, 0)
  {
  }
}
