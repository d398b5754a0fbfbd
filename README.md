# Stripe webhook handler: signature check and ledger reconciliation

This project models the Stripe webhook endpoint of a brokerage backend built on
Supabase edge functions, and proves properties of the model in Dafny. The endpoint
does two things:

- It checks the `stripe-signature` header (`t=<timestamp>,v1=<hex digest>`) against
  the HMAC-SHA256 of `<timestamp>.<body>` under the shared webhook secret. The digests
  are compared over their full length, with no early exit.
- It applies the event to two tables. `deposits` maps a payment-intent id to a status.
  `virtual_balances` maps a user id to a row (currency, available, pending).
  - `payment_intent.succeeded` marks the deposit succeeded and credits the user,
    creating a USD row on the first credit.
  - `payment_intent.payment_failed` marks the deposit failed.
  - `charge.dispute.created` marks the deposit disputed.
  - Every other event kind is acknowledged and ignored.

Files:

- `wrappers.dfy`: the `Option` type, standing for JavaScript's `undefined`/`null`.
- `text.dfy`: JavaScript's `split` with a one-character separator and its inverse
  `join`, and the decimal part of `parseInt`.
- `signature.dfy`: `verifyStripeSignature`. The specification predicate `Verified` is
  what the verifier returns, and lemmas state its fail-closed cases and round trips.
  Three methods carry the imperative parts: `ParseSignatureHeader` (the loop filling
  the header record) is proved to build `Record`, `DigestsMatch` (the comparison
  loop) is proved to decide sequence equality, and `Verify` (the whole verifier) is
  proved to return `Verified`.
- `reconciler.dfy`: each handler as a function from the old tables to the new.
  It also covers runs of deliveries, each with the outcome of its own status write,
  and their lemmas: the ledger is the sum of the deliveries, and deposit status is
  last-write-wins.
- `webhook.dfy`: the request gate as a decision function `Gate` (a reply and the new
  tables). The class `WebhookStore` holds the two tables as maps. Its handler
  methods update them in place and are proved equal to the functions.

Conventions:

- Amounts are integer cents. A row with `available == n` holds `n / 100` dollars.
  Crediting `amount` cents is the source's `amount / 100` in this fixed-point sense.
- HMAC-SHA256 is the parameter `hmac: (key, message) -> Option<hex>`. `None` means
  the WebCrypto call threw. The verifier's `catch` block turns that into `false`.
- The clock (`now`), the parsed JSON body (`parsed`) and the outcome of the deposit
  status write (`depositWriteOk`) are parameters. The webhook secret is a parameter too.
- Some functions are specifications with no contract of their own; lemmas state what
  they mean. `Signature.Verified` (index.ts:18-92) is characterised by `FailClosed`,
  `EmptyFieldRejected`, `MissingFieldRejected`, `SignThenVerify` and
  `TamperedDigestRejected`, and `Verify` is proved to return it. `Signature.Record`
  (index.ts:30-35) is characterised by `RecordLookup`, and `Signature.KeyOf` and
  `Signature.ValueOf` (index.ts:33) by `KeyValueOf`. `Signature.TooOld`
  (index.ts:80-82) is characterised by `TooOldOfDigits`. `Reconciler.HasMetadata`
  (index.ts:182) is characterised by `MissingMetadataIgnored` and `PaymentSucceeded`.
  `Text.ParseInt` (index.ts:81) is characterised by `ParseIntOfDigits` and
  `ParseIntSigned`. `Text.LeadingValue`, `Text.LeadingValueOf`, `Signature.Field` and
  `Signature.HeaderField` are helpers.

Properties a reader of a webhook handler might expect, and what the code does instead:

- One might expect a header with its keys swapped, or with a key twice, to be
  rejected. The code reads the header into a record (index.ts:32-35), so `v1=…,t=…`
  verifies like `t=…,v1=…` (`SwappedKeysAccepted`). A repeated key keeps its last
  value (`RepeatedTimestampLastWins`).
- One might expect `disputed` to follow only `succeeded`. Each handler writes its
  status unconditionally (index.ts:187-193, 237-243, 253-259). A dispute on a pending
  deposit makes it disputed (`DisputeOfPendingDeposit`). A failure after a success
  makes it failed (`FailedOverwritesSucceeded`).
- One might expect the balance to be found by user and currency. The code looks it up
  by `user_id` alone (index.ts:201-205), so the model keys balances by user.
- One might expect a failed storage write to fail the request. The code only logs the
  deposit update's error (index.ts:195-197) and ignores the balance writes' results,
  and the request is still answered 200 (`Gate`, `depositWriteOk`).
- One might expect a redelivered event to be ignored. Nothing checks whether the
  deposit already succeeded, so a second delivery credits again (`ReplayCreditsTwice`).

## Model

| member | source | states |
|---|---|---|
| `Text.Split` | supabase/functions/stripe-webhook/index.ts:29 | `split` on a one-character separator always yields at least one piece |
| `Text.JoinSplit` | supabase/functions/stripe-webhook/index.ts:29 | joining the pieces of a split gives back the string, and no piece contains the separator |
| `Text.SplitJoin` | supabase/functions/stripe-webhook/index.ts:29 | splitting a join of separator-free pieces gives back exactly those pieces |
| `Text.ParseIntOfDigits` | supabase/functions/stripe-webhook/index.ts:81 | `parseInt` of decimal digits followed by a non-digit (or nothing) is the value of those digits |
| `Text.ParseIntSigned` | supabase/functions/stripe-webhook/index.ts:81 | a leading `+` or `-` is read off: the result is the value of the digits after it, negated for `-`, and `NaN` when no digit follows |
| `Signature.KeyValueOf` | supabase/functions/stripe-webhook/index.ts:33 | the key (`KeyOf`) of an element is the text before its first `=`, or the whole element when it has no `=`; the value (`ValueOf`) is `undefined` exactly when the element has no `=`, and otherwise the text after the first `=` up to the next `=` or the end |
| `Signature.RecordLookup` | supabase/functions/stripe-webhook/index.ts:32-35 | a key is in the parsed record iff some element carries it, and its value is that of the last element carrying it |
| `Signature.HeaderFieldLastWins` | supabase/functions/stripe-webhook/index.ts:29-38 | `t`/`v1` read from a header is the value of the last element with that key, and "" when no element has it |
| `Signature.FailClosed` | supabase/functions/stripe-webhook/index.ts:23-25 | an empty signature or secret, a digest that cannot be computed (the `catch` at 88-91), or a digest whose length differs from `v1` (68-70) is rejected |
| `Signature.EmptyFieldRejected` | supabase/functions/stripe-webhook/index.ts:32-42 | when the last element with key `t` (or `v1`) has no `=` or nothing after it, the header is rejected whatever earlier elements held |
| `Signature.MissingFieldRejected` | supabase/functions/stripe-webhook/index.ts:37-42 | a header with no `t` element, or no `v1` element, is rejected whatever else it holds |
| `Signature.HeaderFields` | supabase/functions/stripe-webhook/index.ts:29-38 | parsing `t=<ts>,v1=<digest>` recovers exactly the timestamp and the digest, for any two values without `,` or `=` |
| `Signature.TooOldOfDigits` | supabase/functions/stripe-webhook/index.ts:80-82 | a decimal timestamp is too old exactly when it lies more than 300 seconds before or after `now` |
| `Signature.SignThenVerify` | supabase/functions/stripe-webhook/index.ts:44-87 | round trip: a header built from the HMAC of `<ts>.<payload>` under the secret verifies |
| `Signature.TamperedDigestRejected` | supabase/functions/stripe-webhook/index.ts:68-87 | a header whose digest differs from the computed one (in a single character, or not hex at all) is rejected, for any timestamp and digest without `,` or `=` |
| `Signature.SwappedKeysAccepted` | supabase/functions/stripe-webhook/index.ts:32-38 | key order does not matter: `v1=…,t=…` verifies exactly when `t=…,v1=…` does |
| `Signature.RepeatedTimestampLastWins` | supabase/functions/stripe-webhook/index.ts:32-38 | with two `t` elements the later one overwrites the earlier, and it is the one that must be signed |
| `Signature.ParseSignatureHeader` | supabase/functions/stripe-webhook/index.ts:29-35 | the loop filling `sigHeader` yields the record of the split header (loop invariant: the record of the elements seen so far) |
| `Signature.DigestsMatch` | supabase/functions/stripe-webhook/index.ts:72-77 | on equal lengths the flag ends true iff the two digests are equal, and the loop scans all positions with no early exit |
| `Signature.Verify` | supabase/functions/stripe-webhook/index.ts:18-92 | the verifier returns `Verified`, which does not depend on the clock; the freshness check at most raises a warning, exactly when the run reaches it and the timestamp is more than 300 s from `now` |
| `Reconciler.SetStatus` | supabase/functions/stripe-webhook/index.ts:187-193 | a status update rewrites the rows keyed by the intent id only, never inserts or deletes, and a failed write changes nothing |
| `Reconciler.Credit` | supabase/functions/stripe-webhook/index.ts:199-226 | the user's available grows by the amount; an existing row keeps its currency and pending, a missing row is created as USD with pending 0; other users' rows are unchanged |
| `Reconciler.PaymentSucceeded` | supabase/functions/stripe-webhook/index.ts:176-226 | missing `user_id` or `alpaca_account_id` changes nothing; otherwise the deposit is marked succeeded and the user credited, even when the status write failed |
| `Reconciler.PaymentFailed` | supabase/functions/stripe-webhook/index.ts:235-247 | the deposit is marked failed and no balance changes |
| `Reconciler.DisputeCreated` | supabase/functions/stripe-webhook/index.ts:249-262 | the deposit named by `payment_intent` is marked disputed and no balance changes |
| `Reconciler.Dispatch` | supabase/functions/stripe-webhook/index.ts:140-155 | an unknown kind changes nothing; no event adds or removes a deposit or removes a balance row; only `payment_intent.succeeded` touches balances |
| `Reconciler.ApplyAll` | supabase/functions/stripe-webhook/index.ts:140-155 | over any run of deliveries the set of deposits is unchanged and balance rows are only added |
| `Reconciler.AvailableAfterAll` | supabase/functions/stripe-webhook/index.ts:187-226 | after any run of deliveries a user's available is the initial one plus the amounts of every delivery of a succeeded event with metadata for that user, whatever became of its status write |
| `Reconciler.StatusAfterAll` | supabase/functions/stripe-webhook/index.ts:187-259 | after any run of deliveries a deposit carries the status of the last delivery naming it whose write succeeded (last write wins, no transition refused), or its old status when there is none |
| `Reconciler.MissingMetadataIgnored` | supabase/functions/stripe-webhook/index.ts:178-185 | a succeeded event whose metadata lacks a non-empty `user_id` or `alpaca_account_id` changes no table |
| `Reconciler.ReplayCreditsTwice` | supabase/functions/stripe-webhook/index.ts:187-226 | no idempotency: the same succeeded event delivered twice credits twice, although the first delivery already marked the deposit succeeded |
| `Reconciler.CreditIgnoresDeposits` | supabase/functions/stripe-webhook/index.ts:187-226 | the credit depends neither on the deposits table nor on whether the status write succeeded |
| `Reconciler.FailedOverwritesSucceeded` | supabase/functions/stripe-webhook/index.ts:235-247 | a failure after a success leaves the deposit failed and the credit in place |
| `Reconciler.DisputeOfPendingDeposit` | supabase/functions/deposits/index.ts:141 | a dispute on a deposit still pending, as the deposit request inserts it, marks it disputed and leaves balances alone |
| `Reconciler.CreateThenAccumulate` | supabase/functions/stripe-webhook/index.ts:207-225 | 50.00 on a user without a row creates `USD, 50.00, 0`; a further 25.00 gives `USD, 75.00, 0` |
| `Webhook.Gate` | supabase/functions/stripe-webhook/index.ts:94-163 | a missing or empty header gives `MissingSignatureHeader` (400); with a secret, `InvalidSignature` (400) exactly when verification fails; an unparsable body that passes gives `InvalidPayload` (400); without a secret any header passes; a refused request changes no table; an acknowledged one (200) changes them by dispatch alone |
| `Webhook.NoSecretSkipsVerification` | supabase/functions/stripe-webhook/index.ts:110-122 | without a secret the outcome depends neither on the header's contents nor on the digest function |
| `Webhook.UnknownKindAcknowledged` | supabase/functions/stripe-webhook/index.ts:140-163 | an event of another kind that passes the gate gets 200 `{received: true}` and no table changes |
| `Webhook.WebhookStore.UpdateDepositStatus` | supabase/functions/stripe-webhook/index.ts:188-193 | the in-place status update rewrites only the rows of the intent, and only when the write succeeds |
| `Webhook.WebhookStore.HandlePaymentIntentSucceeded` | supabase/functions/stripe-webhook/index.ts:176-226 | the read-then-write on the tables leaves them as `PaymentSucceeded` of the old tables |
| `Webhook.WebhookStore.HandlePaymentIntentFailed` | supabase/functions/stripe-webhook/index.ts:235-247 | leaves the tables as `PaymentFailed` of the old tables |
| `Webhook.WebhookStore.HandleDisputeCreated` | supabase/functions/stripe-webhook/index.ts:249-262 | leaves the tables as `DisputeCreated` of the old tables |
| `Webhook.WebhookStore.Serve` | supabase/functions/stripe-webhook/index.ts:94-163 | the request handler's reply and the new tables are those of `Gate` on the old tables, whatever the clock |

## Left out

- HMAC-SHA256 and the `TextEncoder` encoding (WebCrypto) are the parameter `hmac`. So a
  changed payload cannot be proved to be rejected: that needs collision resistance.
- `Date.now()` is the parameter `now`. The freshness check is modelled only as the
  warning flag `Verify` returns.
- `parseInt` is modelled for an optional sign followed by decimal digits. Leading
  whitespace and the `0x` prefix are not modelled; they only affect the warning.
- `JSON.parse` is the parameter `parsed`. A parse failure gives the 400 reply `InvalidPayload`.
- The 500 reply is left out. It arises only when the event lacks `data.object` or a
  field has the wrong JSON type, and the model's events are typed.
- Logging (`console.*`), `Response` construction, `serve` and the Supabase client
  are I/O and are not modelled.
- Storage failures are modelled only for the deposit status write. The balance read,
  update and insert are assumed to succeed; the source ignores their errors.
- Webhook.WebhookStore.HandlePaymentIntentSucceeded: `(balance.available || 0)` is not
  modelled. Rows here always hold a number, so a row whose `available` is null is
  not represented.
- Reconciler.Credit: `.single()` fails when a user has more than one balance row
  and then a new row is inserted. This is not modelled, because the map holds one
  row per user. The `updated_at` stamp written with each credit is not modelled either.
- Deposits are one row per payment-intent id. Several rows with the same id would
  all be updated the same way.
- Float arithmetic in `amount / 100` is not modelled; amounts are integer cents.
- Signature.ValueOf: an element whose key is `__proto__` is stored in the model's
  record. In JavaScript, assigning `sigHeader['__proto__']` goes to the prototype
  setter and is ignored. That key never reads as `t` or `v1`, so the verdict is the same.
- Signature.Verify: JavaScript's `.length` counts UTF-16 code units, while `|s|` counts
  characters. Outside the Basic Multilingual Plane the two differ. This can only
  change whether the freshness warning is reached: a digest of another length
  never equals `v1`.
- Concurrent deliveries and redelivery races are outside a sequential model. Only
  the sequential double credit is stated.
- The Alpaca funding step is only a TODO comment in the source and does nothing.
- The account-creation, deposit-request, order-placement and order-listing functions
  are not part of this model. Each is an auth check, a proxy call and one database
  write. Only the `pending` status a deposit is inserted with is used, as a precondition.
