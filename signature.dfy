/** The Stripe webhook signature check of `verifyStripeSignature`: parse the
    `t=<timestamp>,v1=<hex digest>` header into a record, rebuild the signed
    message `<timestamp>.<payload>`, and compare the expected HMAC-SHA256 digest
    with the one in the header over its full length.

    HMAC-SHA256 (RFC 2104 over FIPS 180-4 SHA-256) is computed by WebCrypto,
    which this model cannot see: it is a parameter `hmac`, a function from
    (key, message) to the lowercase hex digest, `None` when the call throws. */
module Signature {
  import opened Wrappers
  import opened Text

  type Hmac = (string, string) -> Option<string>

  /** The record the header is parsed into: key to value, `None` where JavaScript
      stores `undefined` (an element with no `=`). */
  type HeaderRecord = map<string, Option<string>>

  /** Tolerance of the freshness check, in seconds. */
  const ToleranceSeconds := 300

  /** `const [key, value] = element.split('=')`: the text before the first `=` ... */
  function KeyOf(element: string): string {
    Split(element, '=')[0]
  }

  /** ... and the text between the first and the second `=`, if there is a first. */
  function ValueOf(element: string): Option<string> {
    var parts := Split(element, '=');
    if |parts| > 1 then Some(parts[1]) else None
  }

  /** The key of an element is the text before its first `=`, or the whole element
      when it has none. The value is `undefined` exactly when there is no `=`, and
      otherwise the text after the first `=` up to the next `=` or the end. */
  lemma KeyValueOf(element: string)
    ensures var key := KeyOf(element);
      && '=' !in key && |key| <= |element| && element[..|key|] == key
      && (|key| < |element| <==> '=' in element)
      && (|key| < |element| ==> element[|key|] == '=')
    ensures ValueOf(element).None? <==> '=' !in element
    ensures var key, value := KeyOf(element), ValueOf(element);
      value.Some? ==> && '=' !in value.value
                      && |key| + 1 + |value.value| <= |element|
                      && element[|key| + 1..][..|value.value|] == value.value
                      && (|key| + 1 + |value.value| < |element| ==> element[|key| + 1 + |value.value|] == '=')
  {
    SplitFirstPiece(element, '=');
    var parts := Split(element, '=');
    if |parts| > 1 {
      SplitFirstPiece(element[|parts[0]| + 1..], '=');
    }
  }

  /** The record after `sigHeader[key] = value` for every element in order. */
  function Record(elements: seq<string>): HeaderRecord
  {
    if |elements| == 0 then map[]
    else
      var last := elements[|elements| - 1];
      Record(elements[..|elements| - 1])[KeyOf(last) := ValueOf(last)]
  }

  /** Reading a field of the record with JavaScript's truthiness: a missing key,
      `undefined` and the empty string all read as "". */
  function Field(record: HeaderRecord, key: string): string {
    if key in record then record[key].GetOr("") else ""
  }

  /** The field `key` of a whole signature header. */
  function HeaderField(signature: string, key: string): string {
    Field(Record(Split(signature, ',')), key)
  }

  /** The message the digest is computed over. */
  function SignedPayload(timestamp: string, payload: string): string {
    timestamp + "." + payload
  }

  /** What `verifyStripeSignature` returns: the digest of the signed message under
      the secret, when it can be computed, equals the header's `v1`. */
  predicate Verified(payload: string, signature: string, secret: string, hmac: Hmac) {
    if signature == "" || secret == "" then false
    else
      var timestamp := HeaderField(signature, "t");
      var expected := HeaderField(signature, "v1");
      if timestamp == "" || expected == "" then false
      else hmac(secret, SignedPayload(timestamp, payload)) == Some(expected)
  }

  /** The run gets as far as the freshness check: everything is present, the digest
      was computed and has the length of `v1`. */
  predicate ReachesFreshnessCheck(payload: string, signature: string, secret: string, hmac: Hmac) {
    && signature != "" && secret != ""
    && HeaderField(signature, "t") != "" && HeaderField(signature, "v1") != ""
    && var digest := hmac(secret, SignedPayload(HeaderField(signature, "t"), payload));
       digest.Some? && |digest.value| == |HeaderField(signature, "v1")|
  }

  /** `Math.abs(currentTime - parseInt(timestamp)) > 300`; false for `NaN`. */
  predicate TooOld(timestamp: string, now: int) {
    var eventTime := ParseInt(timestamp);
    eventTime.Some? && (if now >= eventTime.value then now - eventTime.value else eventTime.value - now) > ToleranceSeconds
  }

  // ---------------------------------------------------------------------------
  // The header record: later keys overwrite earlier ones, order is otherwise free

  /** A key is in the record iff some element has it. */
  lemma {:induction false} RecordKeys(elements: seq<string>, key: string)
    ensures key in Record(elements) <==> exists i :: 0 <= i < |elements| && KeyOf(elements[i]) == key
  {
    var n := |elements|;
    if n > 0 {
      var init := elements[..n - 1];
      RecordKeys(init, key);
      if KeyOf(elements[n - 1]) != key {
        if key in Record(elements) {
          var i :| 0 <= i < n - 1 && KeyOf(init[i]) == key;
          assert KeyOf(elements[i]) == key;
        }
        if exists i :: 0 <= i < n && KeyOf(elements[i]) == key {
          var i :| 0 <= i < n && KeyOf(elements[i]) == key;
          assert KeyOf(init[i]) == key;
        }
      }
    }
  }

  /** The value of a key is that of the LAST element carrying it. */
  lemma {:induction false} RecordLastValue(elements: seq<string>, key: string, j: nat)
    requires j < |elements| && KeyOf(elements[j]) == key
    requires forall i :: j < i < |elements| ==> KeyOf(elements[i]) != key
    ensures key in Record(elements) && Record(elements)[key] == ValueOf(elements[j])
  {
    var n := |elements|;
    if j < n - 1 {
      var init := elements[..n - 1];
      assert KeyOf(elements[n - 1]) != key;
      assert forall i :: j < i < n - 1 ==> KeyOf(init[i]) != key by {
        forall i | j < i < n - 1 ensures KeyOf(init[i]) != key {
          assert init[i] == elements[i];
        }
      }
      RecordLastValue(init, key, j);
    }
  }

  /** A key is in the record iff some element has it, and its value is that of the
      LAST element with that key. */
  lemma RecordLookup(elements: seq<string>, key: string)
    ensures key in Record(elements) <==> exists i :: 0 <= i < |elements| && KeyOf(elements[i]) == key
    ensures forall j :: 0 <= j < |elements| && KeyOf(elements[j]) == key
                        && (forall i :: j < i < |elements| ==> KeyOf(elements[i]) != key)
                        ==> key in Record(elements) && Record(elements)[key] == ValueOf(elements[j])
  {
    RecordKeys(elements, key);
    forall j | 0 <= j < |elements| && KeyOf(elements[j]) == key
               && (forall i :: j < i < |elements| ==> KeyOf(elements[i]) != key)
      ensures key in Record(elements) && Record(elements)[key] == ValueOf(elements[j])
    {
      RecordLastValue(elements, key, j);
    }
  }

  /** The field read from a header is the value of the last element carrying the key,
      and "" when no element carries it. */
  lemma HeaderFieldLastWins(signature: string, key: string)
    ensures (forall i :: 0 <= i < |Split(signature, ',')| ==> KeyOf(Split(signature, ',')[i]) != key)
            ==> HeaderField(signature, key) == ""
    ensures forall j :: 0 <= j < |Split(signature, ',')| && KeyOf(Split(signature, ',')[j]) == key
                        && (forall i :: j < i < |Split(signature, ',')| ==> KeyOf(Split(signature, ',')[i]) != key)
                        ==> HeaderField(signature, key) == ValueOf(Split(signature, ',')[j]).GetOr("")
  {
    var elements := Split(signature, ',');
    RecordLookup(elements, key);
    if key in Record(elements) {
      var i :| 0 <= i < |elements| && KeyOf(elements[i]) == key;
      assert !(forall i :: 0 <= i < |elements| ==> KeyOf(elements[i]) != key);
    }
  }

  // ---------------------------------------------------------------------------
  // Fail-closed behaviour

  /** Nothing is accepted without a signature and a secret, when the digest cannot be
      computed (the `catch` answers false), or when the computed digest and `v1`
      differ in length. */
  lemma FailClosed(payload: string, signature: string, secret: string, hmac: Hmac)
    ensures signature == "" || secret == "" ==> !Verified(payload, signature, secret, hmac)
    ensures hmac(secret, SignedPayload(HeaderField(signature, "t"), payload)).None?
            ==> !Verified(payload, signature, secret, hmac)
    ensures var digest := hmac(secret, SignedPayload(HeaderField(signature, "t"), payload));
            digest.Some? && |digest.value| != |HeaderField(signature, "v1")|
            ==> !Verified(payload, signature, secret, hmac)
  {
  }

  /** When the last element with key `t` (or `v1`) has no `=` or nothing after it, the
      field reads as "" and the header is rejected, whatever earlier elements held. */
  lemma EmptyFieldRejected(payload: string, signature: string, secret: string, hmac: Hmac, key: string, j: nat)
    requires key == "t" || key == "v1"
    requires j < |Split(signature, ',')| && KeyOf(Split(signature, ',')[j]) == key
    requires forall i :: j < i < |Split(signature, ',')| ==> KeyOf(Split(signature, ',')[i]) != key
    requires ValueOf(Split(signature, ',')[j]) == None || ValueOf(Split(signature, ',')[j]) == Some("")
    ensures !Verified(payload, signature, secret, hmac)
  {
    HeaderFieldLastWins(signature, key);
  }

  /** A header with no `t` element, or none with `v1`, is rejected whatever else it holds. */
  lemma MissingFieldRejected(payload: string, signature: string, secret: string, hmac: Hmac, key: string)
    requires key == "t" || key == "v1"
    requires forall i :: 0 <= i < |Split(signature, ',')| ==> KeyOf(Split(signature, ',')[i]) != key
    ensures !Verified(payload, signature, secret, hmac)
  {
    HeaderFieldLastWins(signature, key);
  }

  /** A decimal timestamp is too old exactly when it lies more than 300 seconds from
      `now`, in either direction. */
  lemma TooOldOfDigits(timestamp: string, now: int)
    requires IsTimestamp(timestamp)
    ensures TooOld(timestamp, now) <==> (now - DecimalValue(timestamp) > ToleranceSeconds
                                         || DecimalValue(timestamp) - now > ToleranceSeconds)
  {
    assert timestamp + "" == timestamp;
    ParseIntOfDigits(timestamp, "");
  }

  // ---------------------------------------------------------------------------
  // Headers as Stripe writes them

  predicate IsTimestamp(s: string) {
    |s| > 0 && forall i :: 0 <= i < |s| ==> IsDigit(s[i])
  }

  /** A SHA-256 digest in lowercase hex. */
  predicate IsHexDigest(s: string) {
    |s| == 64 && forall i :: 0 <= i < |s| ==> s[i] in "0123456789abcdef"
  }

  /** The header Stripe sends: `t=<timestamp>,v1=<digest>`. */
  function SignatureHeader(timestamp: string, digest: string): string {
    "t=" + timestamp + ",v1=" + digest
  }

  /** The signing side: the header for `payload` at `timestamp` under `secret`. */
  function Sign(payload: string, secret: string, timestamp: string, hmac: Hmac): Option<string> {
    match hmac(secret, SignedPayload(timestamp, payload))
    case Some(digest) => Some(SignatureHeader(timestamp, digest))
    case None => None
  }

  /** `key=value` is one element with that key and value when neither contains a
      separator. */
  lemma {:induction false} ElementParts(key: string, value: string)
    requires '=' !in key && '=' !in value
    ensures KeyOf(key + "=" + value) == key && ValueOf(key + "=" + value) == Some(value)
  {
    SplitAtFirst(key, value, '=');
    SplitWithoutSeparator(value, '=');
  }

  /** Two `key=value` elements joined by a comma split into exactly those two. */
  lemma {:induction false} TwoElements(first: string, second: string)
    requires ',' !in first && ',' !in second
    ensures Split(first + "," + second, ',') == [first, second]
  {
    assert first + "," + second == first + [','] + second;
    SplitAtFirst(first, second, ',');
    SplitWithoutSeparator(second, ',');
  }

  lemma TimestampHasNoSeparators(s: string)
    requires IsTimestamp(s)
    ensures ',' !in s && '=' !in s
  {
  }

  lemma DigestHasNoSeparators(s: string)
    requires IsHexDigest(s)
    ensures ',' !in s && '=' !in s
  {
  }

  /** The record of two elements with different keys holds both. */
  lemma TwoElementRecord(first: string, second: string)
    requires KeyOf(first) != KeyOf(second)
    ensures Field(Record([first, second]), KeyOf(first)) == ValueOf(first).GetOr("")
    ensures Field(Record([first, second]), KeyOf(second)) == ValueOf(second).GetOr("")
  {
    var elements := [first, second];
    assert elements[..1] == [first];
    assert elements[..1][..0] == [];
    assert Record([first]) == map[KeyOf(first) := ValueOf(first)];
    assert Record(elements) == Record([first])[KeyOf(second) := ValueOf(second)];
  }

  /** Parsing a well-formed header recovers its timestamp and digest. */
  lemma HeaderFields(timestamp: string, digest: string)
    requires ',' !in timestamp && '=' !in timestamp && ',' !in digest && '=' !in digest
    ensures HeaderField(SignatureHeader(timestamp, digest), "t") == timestamp
    ensures HeaderField(SignatureHeader(timestamp, digest), "v1") == digest
  {
    ElementParts("t", timestamp);
    ElementParts("v1", digest);
    assert "t" + "=" == "t=" && "v1" + "=" == "v1=" && "t" != "v1";
    assert SignatureHeader(timestamp, digest) == ("t=" + timestamp) + "," + ("v1=" + digest);
    TwoElements("t=" + timestamp, "v1=" + digest);
    TwoElementRecord("t=" + timestamp, "v1=" + digest);
  }

  /** Round trip: a header signed with the secret verifies. */
  lemma SignThenVerify(payload: string, secret: string, timestamp: string, hmac: Hmac)
    requires secret != "" && IsTimestamp(timestamp)
    requires hmac(secret, SignedPayload(timestamp, payload)).Some?
    requires IsHexDigest(hmac(secret, SignedPayload(timestamp, payload)).value)
    ensures Sign(payload, secret, timestamp, hmac).Some?
    ensures Verified(payload, Sign(payload, secret, timestamp, hmac).value, secret, hmac)
  {
    TimestampHasNoSeparators(timestamp);
    DigestHasNoSeparators(hmac(secret, SignedPayload(timestamp, payload)).value);
    HeaderFields(timestamp, hmac(secret, SignedPayload(timestamp, payload)).value);
  }

  /** A header carrying any other digest than the computed one (a single changed
      character among them, or text that is not hex at all) is rejected. */
  lemma TamperedDigestRejected(payload: string, secret: string, timestamp: string, digest: string, hmac: Hmac)
    requires ',' !in timestamp && '=' !in timestamp && ',' !in digest && '=' !in digest
    requires hmac(secret, SignedPayload(timestamp, payload)) != Some(digest)
    ensures !Verified(payload, SignatureHeader(timestamp, digest), secret, hmac)
  {
    HeaderFields(timestamp, digest);
  }

  /** Key order does not matter: `v1=<digest>,t=<timestamp>` is read like the usual order. */
  lemma SwappedKeysAccepted(payload: string, secret: string, timestamp: string, digest: string, hmac: Hmac)
    requires ',' !in timestamp && '=' !in timestamp && ',' !in digest && '=' !in digest
    ensures Verified(payload, "v1=" + digest + ",t=" + timestamp, secret, hmac)
        == Verified(payload, SignatureHeader(timestamp, digest), secret, hmac)
  {
    HeaderFields(timestamp, digest);
    ElementParts("t", timestamp);
    ElementParts("v1", digest);
    assert "t" + "=" == "t=" && "v1" + "=" == "v1=" && "t" != "v1";
    var swapped := "v1=" + digest + ",t=" + timestamp;
    assert swapped == ("v1=" + digest) + "," + ("t=" + timestamp);
    TwoElements("v1=" + digest, "t=" + timestamp);
    TwoElementRecord("v1=" + digest, "t=" + timestamp);
  }

  /** A repeated key is overwritten: with two timestamps, the second is the one signed. */
  lemma RepeatedTimestampLastWins(payload: string, secret: string, first: string, second: string, digest: string, hmac: Hmac)
    requires ',' !in first && '=' !in first && ',' !in second && '=' !in second
    requires ',' !in digest && '=' !in digest && second != "" && digest != ""
    ensures Verified(payload, "t=" + first + "," + SignatureHeader(second, digest), secret, hmac)
        == (secret != "" && hmac(secret, SignedPayload(second, payload)) == Some(digest))
  {
    ElementParts("t", first);
    ElementParts("t", second);
    ElementParts("v1", digest);
    assert "t" + "=" == "t=" && "v1" + "=" == "v1=" && "t" != "v1";
    var header := "t=" + first + "," + SignatureHeader(second, digest);
    assert header == ("t=" + first) + [','] + (("t=" + second) + "," + ("v1=" + digest));
    SplitAtFirst("t=" + first, ("t=" + second) + "," + ("v1=" + digest), ',');
    TwoElements("t=" + second, "v1=" + digest);
    var elements := ["t=" + first, "t=" + second, "v1=" + digest];
    assert Split(header, ',') == elements;
    RecordLookup(elements, "t");
    RecordLookup(elements, "v1");
  }

  // ---------------------------------------------------------------------------
  // The imperative verifier

  /** The `for` loop that fills `sigHeader`, one element at a time. */
  method ParseSignatureHeader(signature: string) returns (record: HeaderRecord)
    ensures record == Record(Split(signature, ','))
  {
    var elements := Split(signature, ',');
    record := map[];
    for i := 0 to |elements|
      invariant record == Record(elements[..i])
    {
      assert elements[..i + 1][..i] == elements[..i];
      var key, value := KeyOf(elements[i]), ValueOf(elements[i]);
      record := record[key := value];
    }
    assert elements[..|elements|] == elements;
  }

  /** The comparison loop (its flag `match` is `same` here): it clears the flag on every differing position and never
      leaves early, so it always looks at all `|expected|` positions. */
  method DigestsMatch(expected: string, provided: string) returns (same: bool, ghost scanned: nat)
    requires |expected| == |provided|
    ensures same <==> expected == provided
    ensures scanned == |expected|
  {
    same := true;
    scanned := 0;
    var i := 0;
    while i < |expected|
      invariant 0 <= i <= |expected|
      invariant scanned == i
      invariant same <==> expected[..i] == provided[..i]
    {
      if expected[i] != provided[i] {
        same := false;
      }
      assert expected[..i + 1] == expected[..i] + [expected[i]];
      assert provided[..i + 1] == provided[..i] + [provided[i]];
      i := i + 1;
      scanned := scanned + 1;
    }
    assert expected[..i] == expected && provided[..i] == provided;
  }

  /** `verifyStripeSignature(payload, signature, secret)` at clock `now`: the result is
      `Verified`, whatever the clock says; the freshness check only raises a warning. */
  method Verify(payload: string, signature: string, secret: string, hmac: Hmac, now: int)
    returns (ok: bool, staleWarning: bool)
    ensures ok == Verified(payload, signature, secret, hmac)
    ensures staleWarning <==> ReachesFreshnessCheck(payload, signature, secret, hmac)
                              && TooOld(HeaderField(signature, "t"), now)
  {
    if signature == "" || secret == "" {
      return false, false;
    }
    var record := ParseSignatureHeader(signature);
    var timestamp := Field(record, "t");
    var signatureHash := Field(record, "v1");
    if timestamp == "" || signatureHash == "" {
      return false, false;
    }
    var digest := hmac(secret, SignedPayload(timestamp, payload));
    if digest.None? {
      // WebCrypto threw: the catch block answers false.
      return false, false;
    }
    var signatureHex := digest.value;
    if |signatureHex| != |signatureHash| {
      return false, false;
    }
    ghost var scanned;
    ok, scanned := DigestsMatch(signatureHex, signatureHash);
    staleWarning := TooOld(timestamp, now);
  }
}
