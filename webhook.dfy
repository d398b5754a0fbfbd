/** The webhook endpoint: the request gate in front of the reconciler, first as a
    decision (reply and new tables), then as the class that holds the two tables and
    updates them in place the way the handlers do. The shared secret is configuration
    read once from the environment; it is a parameter here. */
module Webhook {
  import opened Wrappers
  import opened Signature
  import opened Reconciler

  /** The replies of the endpoint; the JSON body of each is fixed by its kind. */
  datatype Reply = MissingSignatureHeader | InvalidSignature | InvalidPayload | Received {
    function Status(): int {
      if Received? then 200 else 400
    }
  }

  /** The request as a decision. `signature` is the `stripe-signature` header (`None`
      when absent), `parsed` what `JSON.parse(body)` gives (`None` when it throws). */
  function Gate(t: Tables, body: string, signature: Option<string>, secret: string, hmac: Hmac,
                parsed: Option<Event>, depositWriteOk: bool): (r: (Reply, Tables))
    // only an acknowledged request touches the tables, and then exactly by dispatch
    ensures r.0 != Received ==> r.1 == t
    ensures r.0 == Received ==> parsed.Some? && r.1 == Dispatch(t, parsed.value, depositWriteOk)
    // a missing or empty header is refused before anything else
    ensures signature.None? || signature == Some("") ==> r.0 == MissingSignatureHeader
    // with a secret configured, a header that does not verify is refused
    ensures signature.Some? && signature.value != "" && secret != ""
            ==> (r.0 == InvalidSignature <==> !Verified(body, signature.value, secret, hmac))
    // without a secret, any present header lets a parsable event through
    ensures signature.Some? && signature.value != "" && secret == "" && parsed.Some? ==> r.0 == Received
    // a verified, parsable event is acknowledged with 200 whatever its kind
    ensures signature.Some? && secret != "" && Verified(body, signature.value, secret, hmac) && parsed.Some?
            ==> r.0.Status() == 200
    // a body that passes the header checks but does not parse is refused
    ensures && signature.Some? && signature.value != ""
            && (secret == "" || Verified(body, signature.value, secret, hmac))
            && parsed.None?
            ==> r.0 == InvalidPayload
  {
    if signature.None? || signature.value == "" then (MissingSignatureHeader, t)
    else if secret != "" && !Verified(body, signature.value, secret, hmac) then (InvalidSignature, t)
    else if parsed.None? then (InvalidPayload, t)
    else (Received, Dispatch(t, parsed.value, depositWriteOk))
  }

  /** Without a secret the header's contents and the digest function are never looked at. */
  lemma NoSecretSkipsVerification(t: Tables, body: string, header1: string, header2: string,
                                  hmac1: Hmac, hmac2: Hmac, parsed: Option<Event>, depositWriteOk: bool)
    requires header1 != "" && header2 != ""
    ensures Gate(t, body, Some(header1), "", hmac1, parsed, depositWriteOk)
         == Gate(t, body, Some(header2), "", hmac2, parsed, depositWriteOk)
  {
  }

  /** An event of any other kind is acknowledged and changes nothing. */
  lemma UnknownKindAcknowledged(t: Tables, body: string, signature: string, secret: string, hmac: Hmac,
                                event: Event, depositWriteOk: bool)
    requires signature != "" && !IsHandled(event.kind)
    requires secret != "" ==> Verified(body, signature, secret, hmac)
    ensures Gate(t, body, Some(signature), secret, hmac, Some(event), depositWriteOk) == (Received, t)
  {
  }

  /** The two tables of the database, updated in place by the handlers. */
  class WebhookStore {
    var deposits: map<string, DepositStatus>
    var balances: map<string, Balance>

    function State(): Tables
      reads this
    {
      Tables(deposits, balances)
    }

    constructor (initial: Tables)
      ensures State() == initial
    {
      deposits := initial.deposits;
      balances := initial.balances;
    }

    /** `supabase.from('deposits').update({status}).eq('stripe_payment_intent', intentId)`. */
    method UpdateDepositStatus(intentId: string, status: DepositStatus, writeOk: bool)
      modifies this
      ensures deposits.Keys == old(deposits).Keys
      ensures forall id :: id in deposits ==>
        deposits[id] == if id == intentId && writeOk then status else old(deposits)[id]
      ensures balances == old(balances)
    {
      if writeOk && intentId in deposits {
        deposits := deposits[intentId := status];
      }
    }

    /** `handlePaymentIntentSucceeded`: check the metadata, mark the deposit, then read the
        user's balance and either add to it or insert a new row. */
    method HandlePaymentIntentSucceeded(intent: EventObject, depositWriteOk: bool)
      modifies this
      ensures State() == PaymentSucceeded(old(State()), intent, depositWriteOk)
    {
      var userId := MetadataField(intent, "user_id");
      var alpacaAccountId := MetadataField(intent, "alpaca_account_id");
      if userId == "" || alpacaAccountId == "" {
        return;
      }
      // a failed status write is only logged; the balance step runs regardless
      UpdateDepositStatus(intent.id, Succeeded, depositWriteOk);
      if userId in balances {
        var balance := balances[userId];
        balances := balances[userId := balance.(available := balance.available + intent.amount)];
      } else {
        balances := balances[userId := Balance(Usd, intent.amount, 0)];
      }
    }

    /** `handlePaymentIntentFailed`. */
    method HandlePaymentIntentFailed(intent: EventObject, depositWriteOk: bool)
      modifies this
      ensures State() == PaymentFailed(old(State()), intent, depositWriteOk)
    {
      UpdateDepositStatus(intent.id, Failed, depositWriteOk);
    }

    /** `handleDisputeCreated`. */
    method HandleDisputeCreated(dispute: EventObject, depositWriteOk: bool)
      modifies this
      ensures State() == DisputeCreated(old(State()), dispute, depositWriteOk)
    {
      UpdateDepositStatus(dispute.paymentIntent, Disputed, depositWriteOk);
    }

    /** The `serve` callback at clock `now`: header check, signature check when a secret
        is configured, parse, dispatch, acknowledge. */
    method Serve(body: string, signature: Option<string>, secret: string, hmac: Hmac, now: int,
                 parsed: Option<Event>, depositWriteOk: bool) returns (reply: Reply)
      modifies this
      ensures (reply, State()) == Gate(old(State()), body, signature, secret, hmac, parsed, depositWriteOk)
    {
      if signature.None? || signature.value == "" {
        return MissingSignatureHeader;
      }
      if secret != "" {
        var isValid, staleWarning := Verify(body, signature.value, secret, hmac, now);
        if !isValid {
          return InvalidSignature;
        }
      }
      if parsed.None? {
        return InvalidPayload;
      }
      var event := parsed.value;
      if event.kind == PaymentIntentSucceeded {
        HandlePaymentIntentSucceeded(event.data, depositWriteOk);
      } else if event.kind == PaymentIntentFailed {
        HandlePaymentIntentFailed(event.data, depositWriteOk);
      } else if event.kind == ChargeDisputeCreated {
        HandleDisputeCreated(event.data, depositWriteOk);
      }
      reply := Received;
    }
  }
}
