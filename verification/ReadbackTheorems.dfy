/** What a read-back verdict means, when it can change, and that it is always reached. */
module ReadbackTheorems {
  import opened Json
  import opened JsonGrammar
  import opened JsonRoundTrip
  import opened JsonText
  import opened Orders
  import opened Readback
  import opened Wrappers
  import Utf8

  // ------------------------------------------------------------ the meaning

  function Sealed(env: Envelope): Json {
    Obj(map["payload" := Obj(env.payload), "mac" := Str(env.mac)])
  }

  /** The bytes are an envelope with this payload and MAC, and nothing else. */
  ghost predicate WellFormed(bytes: Bytes, env: Envelope) {
    && Decode(bytes) == Some(Sealed(env))
    && PayloadShape(env.payload)
    && HexMac(env.mac)
  }

  ghost predicate Trusted(env: Envelope, source: Source)
    requires PayloadShape(env.payload)
  {
    env.payload["source_id"] == Str(source.sourceId) && env.payload["key_id"] == Str(source.keyId)
  }

  ghost predicate Authentic(crypto: Crypto, env: Envelope, source: Source) {
    env.mac == crypto.hmac(source.key, Utf8.Encode(Print(Obj(env.payload))))
  }

  ghost predicate InScope(env: Envelope, contract: Contract)
    requires PayloadShape(env.payload) && contract.bindings.Keys == BINDINGS
  {
    forall n | n in BINDINGS :: env.payload[n] == Str(contract.bindings[n])
  }

  /** Everything that has to hold before the verifier looks at times and fields. */
  ghost predicate Accepted(crypto: Crypto, raw: Raw, env: Envelope, contract: Contract, source: Source)
    requires contract.Valid()
  {
    && raw.Evidence? && WellFormed(raw.bytes, env)
    && Trusted(env, source) && Authentic(crypto, env, source) && InScope(env, contract)
  }

  ghost predicate Bound(crypto: Crypto, raw: Raw, contract: Contract, source: Source)
    requires contract.Valid()
  {
    exists env :: Accepted(crypto, raw, env, contract, source)
  }

  ghost function ObservedAt(env: Envelope): int
    requires PayloadShape(env.payload)
  {
    env.payload["observed_at"].i
  }

  ghost function State(env: Envelope): map<string, Json>
    requires PayloadShape(env.payload)
  {
    env.payload["state"].fields
  }

  ghost function Min(a: int, b: int): int { if a <= b then a else b }

  /** Settlement, observation, now, and the earlier of the two deadlines, in this order. */
  ghost predicate InWindow(contract: Contract, observedAt: int, now: int) {
    contract.notBefore <= observedAt <= now <= Min(contract.expiresAt, observedAt + contract.maxAge)
  }

  ghost predicate Agrees(expected: map<string, Json>, state: map<string, Json>) {
    forall k | k in expected :: k in state && state[k] == expected[k]
  }

  ghost predicate Contradicts(expected: map<string, Json>, state: map<string, Json>) {
    exists k :: k in expected && k in state && state[k] != expected[k]
  }

  ghost predicate ValidTime(clock: Clock) { clock.Reads? && clock.now >= 0 }

  function VerdictOf(o: Outcome): Option<Verdict> {
    if o.Returned? then o.result.verdict else None
  }

  // --------------------------------------------------------------- constructors

  lemma {:induction false} StripRightExact(s: string)
    ensures |StripRight(s)| > 0 <==> exists c | c in s :: !Blank(c)
  {
    if |s| > 0 && Blank(s[|s| - 1]) {
      StripRightExact(s[..|s| - 1]);
      assert s == s[..|s| - 1] + [s[|s| - 1]];
    } else if |s| > 0 {
      assert s[|s| - 1] in s;
    }
  }

  lemma {:induction false} StripLeftExact(s: string)
    ensures (exists c | c in StripLeft(s) :: !Blank(c)) <==> (exists c | c in s :: !Blank(c))
  {
    if |s| > 0 && Blank(s[0]) {
      StripLeftExact(s[1..]);
      assert s == [s[0]] + s[1..];
    }
  }

  /** A name is accepted exactly when some character of it is not white space. */
  lemma IdentifierExact(s: string)
    ensures Identifier(s) <==> exists c | c in s :: !Blank(c)
  {
    hide Blank, StripLeft, StripRight;
    StripLeftExact(s);
    StripRightExact(StripLeft(s));
  }

  /** The twenty-nine characters of white space. */
  lemma BlankExact(c: char)
    ensures Blank(c) <==>
              c as int in {9, 10, 11, 12, 13, 28, 29, 30, 31, 32, 0x85, 0xA0, 0x1680,
                           0x2000, 0x2001, 0x2002, 0x2003, 0x2004, 0x2005, 0x2006, 0x2007, 0x2008, 0x2009, 0x200A,
                           0x2028, 0x2029, 0x202F, 0x205F, 0x3000}
  {}

  ghost predicate Named(s: string) { exists c | c in s :: !Blank(c) }

  /** A source policy is accepted exactly with two names and a key of at least 32 bytes, and kept as given. */
  lemma MakeSourceExact(sourceId: string, keyId: string, key: Bytes)
    ensures MakeSource(sourceId, keyId, key)
            == if Named(sourceId) && Named(keyId) && |key| >= 32 then Some(Source(sourceId, keyId, key)) else None
  {
    hide Identifier;
    IdentifierExact(sourceId);
    IdentifierExact(keyId);
  }

  /**
   A contract is accepted exactly with five names, a text that spells a nonempty
   object of the restricted domain within the size limit, and a nonempty window.
   */
  lemma MakeContractExact(bindings: map<string, string>, text: string, notBefore: int, expiresAt: int, maxAge: int)
    ensures var made := MakeContract(bindings, text, notBefore, expiresAt, maxAge);
            && (made.Some? <==>
                  && bindings.Keys == BINDINGS && (forall n | n in BINDINGS :: Named(bindings[n]))
                  && |Utf8.Encode(text)| <= 65536
                  && (exists m :: m != map[] && JsonValue(Obj(m), 0) && Spells(text, Obj(m)))
                  && 0 <= notBefore < expiresAt && maxAge > 0)
            && (made.Some? ==>
                  made.value == Contract(bindings, text, notBefore, expiresAt, maxAge) && made.value.Valid())
  {
    hide Decode, JsonValue, Identifier, Spells, Utf8.Encode, Named;
    forall n | n in bindings ensures Identifier(bindings[n]) <==> Named(bindings[n]) {
      NamedIsIdentifier(bindings[n]);
    }
    forall v ensures Decode(Utf8.Encode(text)) == Some(v)
                     <==> |Utf8.Encode(text)| <= MAX_BYTES && JsonValue(v, 0) && Spells(text, v)
    {
      DecodeTextExact(text, v);
    }
  }

  lemma NamedIsIdentifier(s: string)
    ensures Identifier(s) <==> Named(s)
  {
    hide Identifier, Blank;
    IdentifierExact(s);
  }

  /** What the constructor accepts is what every theorem below calls a valid contract. */
  lemma ValidIsMade(contract: Contract)
    ensures contract.Valid() <==>
              MakeContract(contract.bindings, contract.expectedJson,
                           contract.notBefore, contract.expiresAt, contract.maxAge)
              == Some(contract)
  {
    hide Decode, Identifier, Utf8.Encode;
  }

  /** Two lower-case hexadecimal digits for each byte, as `hexdigest` writes a code. */
  function HexText(b: Bytes): string {
    if |b| == 0 then ""
    else
      var m := |b| - 1;
      HexText(b[..m]) + ["0123456789abcdef"[b[m] / 16], "0123456789abcdef"[b[m] % 16]]
  }

  ghost predicate IsHexOf(s: string, n: nat) { exists b: Bytes :: |b| == n && HexText(b) == s }

  ghost predicate HexString(s: string) { forall c | c in s :: c in "0123456789abcdef" }

  lemma {:induction false} HexTextShape(b: Bytes)
    ensures |HexText(b)| == 2 * |b| && HexString(HexText(b))
  {
    if |b| > 0 {
      HexTextShape(b[..|b| - 1]);
    }
  }

  lemma HexPlace(c: char) returns (i: nat)
    requires c in "0123456789abcdef"
    ensures i < 16 && "0123456789abcdef"[i] == c
  {
    i :| i < 16 && "0123456789abcdef"[i] == c;
  }

  lemma {:induction false} HexStringRead(s: string, n: nat) returns (b: Bytes)
    requires |s| == 2 * n && HexString(s)
    ensures |b| == n && HexText(b) == s
  {
    if n == 0 {
      b := [];
    } else {
      var front, high, low := s[..|s| - 2], s[|s| - 2], s[|s| - 1];
      var first := HexStringRead(front, n - 1);
      assert high in s && low in s;
      var i := HexPlace(high);
      var j := HexPlace(low);
      b := first + [16 * i + j];
      HexTextSnoc(first, i, j);
      hide HexText;
      assert s == front + [high, low];
    }
  }

  lemma HexTextSnoc(first: Bytes, i: int, j: int)
    requires 0 <= i < 16 && 0 <= j < 16
    ensures HexText(first + [16 * i + j]) == HexText(first) + ["0123456789abcdef"[i], "0123456789abcdef"[j]]
  {
    var b: Bytes := first + [16 * i + j];
    Nibbles(i, j);
    assert b[|b| - 1] == 16 * i + j;
    assert b[..|b| - 1] == first;
  }

  lemma Nibbles(i: int, j: int)
    requires 0 <= j < 16
    ensures (16 * i + j) / 16 == i && (16 * i + j) % 16 == j
  {}

  /** A signature field is well-formed exactly when it is the hexadecimal form of 32 bytes. */
  lemma HexMacExact(s: string)
    ensures HexMac(s) <==> IsHexOf(s, 32)
  {
    hide HexText;
    if HexMac(s) {
      var b := HexStringRead(s, 32);
    }
    if IsHexOf(s, 32) {
      var b: Bytes :| |b| == 32 && HexText(b) == s;
      HexTextShape(b);
    }
  }

  ghost predicate NamedField(v: Json) { v.Str? && Named(v.s) }

  /** A signed statement has exactly ten fields: the schema, a time, a state and seven names. */
  lemma PayloadShapeExact(p: map<string, Json>)
    ensures PayloadShape(p) <==>
              && p.Keys == {"schema", "source_id", "key_id", "tenant", "target", "operation", "attempt", "request_id",
                            "observed_at", "state"}
              && p["schema"] == Str("remora.readback-experiment.v1")
              && p["observed_at"].Int? && p["observed_at"].i >= 0 && p["state"].Obj?
              && NamedField(p["source_id"]) && NamedField(p["key_id"]) && NamedField(p["tenant"])
              && NamedField(p["target"]) && NamedField(p["operation"]) && NamedField(p["attempt"])
              && NamedField(p["request_id"])
  {
    hide Identifier, Named;
    forall k | k in p && p[k].Str? ensures Identifier(p[k].s) <==> Named(p[k].s) {
      NamedIsIdentifier(p[k].s);
    }
  }

  // ------------------------------------------------------ validated sub-values

  lemma {:induction false} Shallower(v: Json, d: nat, e: nat)
    requires JsonValue(v, d) && e <= d
    ensures JsonValue(v, e)
    decreases v
  {
    match v
    case Arr(es) =>
      forall w | w in es ensures JsonValue(w, e + 1) { Shallower(w, d + 1, e + 1); }
    case Obj(m) =>
      forall k | k in m ensures JsonValue(m[k], e + 1) { Shallower(m[k], d + 1, e + 1); }
    case _ =>
  }

  lemma FieldValid(m: map<string, Json>, d: nat, k: string)
    requires JsonValue(Obj(m), d) && k in m
    ensures JsonValue(m[k], d + 1) && JsonValue(m[k], 0)
  {
    Shallower(m[k], d + 1, 0);
  }

  lemma PayloadValid(env: Envelope)
    requires JsonValue(Sealed(env), 0) && PayloadShape(env.payload)
    ensures JsonValue(Obj(env.payload), 0)
    ensures AllValid(State(env))
  {
    FieldValid(Sealed(env).fields, 0, "payload");
    StateValid(env.payload);
  }

  lemma StateValid(p: map<string, Json>)
    requires JsonValue(Obj(p), 1) && "state" in p && p["state"].Obj?
    ensures AllValid(p["state"].fields)
  {
    FieldValid(p, 1, "state");
    FieldsValid(p["state"].fields, 2);
  }

  lemma FieldsValid(m: map<string, Json>, d: nat)
    requires JsonValue(Obj(m), d)
    ensures AllValid(m)
  {
    forall k | k in m ensures JsonValue(m[k], 0) {
      FieldValid(m, d, k);
    }
  }

  ghost predicate AllValid(m: map<string, Json>) {
    forall k | k in m :: JsonValue(m[k], 0)
  }

  lemma ExpectedValid(contract: Contract)
    requires contract.Expected().Some?
    ensures AllValid(contract.Expected().value)
  {
    hide Decode, Print, JsonValue;
    var m := contract.Expected().value;
    forall k | k in m ensures JsonValue(m[k], 0) {
      Shallower(m[k], 1, 0);
    }
  }

  lemma EnvelopeOfExact(v: Json, env: Envelope)
    ensures EnvelopeOf(v) == Some(env) <==> v == Sealed(env) && PayloadShape(env.payload) && HexMac(env.mac)
  {
    if EnvelopeOf(v) == Some(env) {
      assert v.fields == Sealed(env).fields;
    }
  }

  /** The guarded block accepts exactly the well-formed envelopes. */
  lemma ParseEnvelopeExact(bytes: Bytes, env: Envelope)
    ensures ParseEnvelope(bytes) == Some(env) <==> WellFormed(bytes, env)
  {
    hide Decode, Print, JsonValue;
    if Decode(bytes).Some? {
      EnvelopeOfExact(Decode(bytes).value, env);
    }
  }

  // -------------------------------------------------------------- the judges

  lemma ComparisonExact(expected: map<string, Json>, observed: map<string, Json>)
    requires AllValid(expected) && AllValid(observed)
    ensures !Unprintable(expected, observed)
    ensures Mismatch(expected, observed) <==> Contradicts(expected, observed)
  {
    hide Decode, Print, JsonValue;
    forall k | k in expected && k in observed
      ensures Canonical(expected[k]).Some? && Canonical(observed[k]).Some?
      ensures Canonical(expected[k]) == Canonical(observed[k]) <==> expected[k] == observed[k]
    {
      CanonicalInjective(expected[k], observed[k]);
    }
  }

  ghost predicate Lacks(expected: map<string, Json>, observed: map<string, Json>) {
    exists k :: k in expected && k !in observed
  }

  lemma MissingExact(expected: map<string, Json>, observed: map<string, Json>)
    ensures SortedTexts(expected.Keys - observed.Keys) != [] <==> Lacks(expected, observed)
  {
    var missing := SortedTexts(expected.Keys - observed.Keys);
    forall k ensures k in missing <==> k in expected && k !in observed {
      assert k in missing <==> k in expected.Keys - observed.Keys;
    }
    assert missing == [] || missing[0] in missing;
  }

  ghost predicate Concluded(o: Outcome, digest: Option<string>) {
    && o.Returned? && o.result.processing == Completed && o.result.digest == digest
    && o.result.verdict.Some?
    && (o.result.missing != [] <==> o.result.verdict == Some(NotEstablished))
  }

  lemma JudgeStateExact(digest: Option<string>, expected: map<string, Json>, observed: map<string, Json>)
    requires AllValid(expected) && AllValid(observed)
    ensures Concluded(JudgeState(digest, expected, observed), digest)
    ensures VerdictOf(JudgeState(digest, expected, observed)) == Some(Violated) <==> Contradicts(expected, observed)
    ensures VerdictOf(JudgeState(digest, expected, observed)) == Some(Established)
            <==> !Contradicts(expected, observed) && !Lacks(expected, observed)
  {
    hide Decode, Print, JsonValue, Orders.SortedTexts, VerifyReadback, Contradicts, Mismatch;
    ComparisonExact(expected, observed);
    MissingExact(expected, observed);
  }

  lemma AgreesExact(expected: map<string, Json>, observed: map<string, Json>)
    ensures Agrees(expected, observed) <==> !Contradicts(expected, observed) && !Lacks(expected, observed)
  {}

  lemma TimeProblemExact(contract: Contract, observedAt: int, now: int)
    ensures TimeProblem(contract, observedAt, now) == None <==> InWindow(contract, observedAt, now)
  {}

  /** Past the guards, the time window decides whether the fields are looked at. */
  lemma JudgeTimeExact(digest: Option<string>, observedAt: int, observed: map<string, Json>, contract: Contract,
                       now: int, expected: map<string, Json>)
    requires contract.Expected() == Some(expected) && AllValid(expected) && AllValid(observed)
    ensures Concluded(JudgeTime(digest, observedAt, observed, contract, now), digest)
    ensures if InWindow(contract, observedAt, now)
            then JudgeTime(digest, observedAt, observed, contract, now) == JudgeState(digest, expected, observed)
            else VerdictOf(JudgeTime(digest, observedAt, observed, contract, now)) == Some(NotEstablished)
  {
    hide Contract.Expected, Decode, Print, JsonValue;
    TimeProblemExact(contract, observedAt, now);
    JudgeStateExact(digest, expected, observed);
  }

  lemma JudgeEnvelopeExact(crypto: Crypto, bytes: Bytes, env: Envelope, contract: Contract, source: Source, now: int)
    requires PayloadShape(env.payload) && contract.bindings.Keys == BINDINGS
    requires Canonical(Obj(env.payload)) == Some(Utf8.Encode(Print(Obj(env.payload))))
    ensures JudgeEnvelope(crypto, bytes, env, contract, source, now)
            == if !Trusted(env, source) then Rejected("untrusted_source")
               else if !Authentic(crypto, env, source) then Rejected("invalid_signature")
               else if !InScope(env, contract) then Rejected("scope_mismatch")
               else JudgeTime(Some(crypto.sha256(bytes)), ObservedAt(env), State(env), contract, now)
  {
    hide Decode, Print, JsonValue, JudgeTime;
  }

  // ------------------------------------------------------------ main results

  /** The declared fields that were not observed: all of them, once each, in code-point order, and no others. */
  ghost predicate ListsMissing(missing: seq<string>, expected: map<string, Json>, state: map<string, Json>) {
    && (forall k :: k in missing <==> k in expected && k !in state)
    && forall i, j | 0 <= i < j < |missing| :: Before(missing[i], missing[j])
  }

  lemma MissingListed(expected: map<string, Json>, state: map<string, Json>)
    ensures ListsMissing(SortedTexts(expected.Keys - state.Keys), expected, state)
  {
    hide StringLe, Before;
    var missing := SortedTexts(expected.Keys - state.Keys);
    forall i, j | 0 <= i < j < |missing| ensures Before(missing[i], missing[j]) {
      StringLeExact(missing[i], missing[j]);
    }
  }

  /** The reasons for which times are refused, each with its own condition and the evidence it asks for. */
  lemma TimeReasons(contract: Contract, observedAt: int, now: int)
    ensures var r := TimeProblem(contract, observedAt, now);
            var nb, ea, age := contract.notBefore, contract.expiresAt, contract.maxAge;
            && (ea < now <==> r == Some(("contract_expired", "new deployment-approved observation contract")))
            && (now <= ea && (now < nb || observedAt < nb)
                <==> r == Some(("settlement_not_observed", "observation at or after settlement")))
            && (nb <= now <= ea && nb <= observedAt && now < observedAt
                <==> r == Some(("future_observation", "observation consistent with trusted clock")))
            && (nb <= observedAt && observedAt + age < now <= ea && observedAt <= now && nb <= now
                <==> r == Some(("stale_observation", "fresh source observation")))
  {
    Initials();
  }

  lemma Initials()
    ensures "contract_expired"[0] == 'c' && "settlement_not_observed"[1] == 'e'
    ensures "future_observation"[0] == 'f' && "stale_observation"[1] == 't'
    ensures "settlement_not_observed"[0] == 's' && "stale_observation"[0] == 's'
  {}

  /** What the fields decide, once the times are in order. */
  ghost predicate FieldOutcome(o: Outcome, digest: Option<string>, expected: map<string, Json>,
                               state: map<string, Json>) {
    && o.Returned? && o.result.processing == Completed && o.result.digest == digest
    && if Contradicts(expected, state) then
         o.result.verdict == Some(Violated) && o.result.reason == "declared_delta_mismatch" && o.result.missing == []
       else if Agrees(expected, state) then
         o.result.verdict == Some(Established) && o.result.reason == "declared_delta_observed" && o.result.missing == []
       else
         && o.result.verdict == Some(NotEstablished) && o.result.reason == "declared_fields_unobserved"
         && ListsMissing(o.result.missing, expected, state)
  }

  lemma FieldsDecide(digest: Option<string>, expected: map<string, Json>, state: map<string, Json>)
    requires AllValid(expected) && AllValid(state)
    ensures FieldOutcome(JudgeState(digest, expected, state), digest, expected, state)
  {
    hide JsonValue, Canonical, SortedTexts, AllValid, Unprintable, Mismatch, ListsMissing;
    ComparisonExact(expected, state);
    MissingListed(expected, state);
    MissingExact(expected, state);
    AgreesExact(expected, state);
    hide Contradicts, Agrees, Lacks;
  }

  /** The whole table of results for a valid clock: every reason, with the first condition that gives it. */
  ghost predicate Table(o: Outcome, crypto: Crypto, raw: Raw, contract: Contract, source: Source, now: int)
    requires contract.Valid()
  {
    match raw
    case Absent =>
      o == Returned(Result(Completed, Some(NotEstablished), "readback_unavailable", None, ["bound source observation"]))
    case NotBytes => o == Returned(Result(RejectedEvidence, None, "malformed_evidence", None, []))
    case Evidence(bytes) =>
      if !exists env :: WellFormed(bytes, env) then
        o == Returned(Result(RejectedEvidence, None, "malformed_evidence", None, []))
      else
        exists env :: WellFormed(bytes, env) && EnvelopeOutcome(o, crypto, bytes, env, contract, source, now)
  }

  ghost predicate EnvelopeOutcome(o: Outcome, crypto: Crypto, bytes: Bytes, env: Envelope,
                                  contract: Contract, source: Source, now: int)
    requires contract.Valid() && PayloadShape(env.payload)
  {
    var digest, observedAt := Some(crypto.sha256(bytes)), ObservedAt(env);
    if !Trusted(env, source) then o == Returned(Result(RejectedEvidence, None, "untrusted_source", None, []))
    else if !Authentic(crypto, env, source) then
      o == Returned(Result(RejectedEvidence, None, "invalid_signature", None, []))
    else if !InScope(env, contract) then o == Returned(Result(RejectedEvidence, None, "scope_mismatch", None, []))
    else match TimeProblem(contract, observedAt, now)
      case Some((reason, needed)) =>
        o == Returned(Result(Completed, Some(NotEstablished), reason, digest, [needed]))
      case None => FieldOutcome(o, digest, contract.Expected().value, State(env))
  }

  lemma EnvelopeDecides(crypto: Crypto, bytes: Bytes, env: Envelope, contract: Contract, source: Source, now: int)
    requires contract.Valid() && WellFormed(bytes, env)
    ensures EnvelopeOutcome(JudgeEnvelope(crypto, bytes, env, contract, source, now),
                            crypto, bytes, env, contract, source, now)
  {
    hide Decode, Print, JsonValue, Canonical, PayloadShape, HexMac, AllValid, Trusted, Authentic, InScope;
    ValidSealed(bytes, env);
    PayloadValid(env);
    PrintsPayload(env);
    ExpectedValid(contract);
    hide Contract.Expected;
    JudgeEnvelopeExact(crypto, bytes, env, contract, source, now);
    FieldsDecide(Some(crypto.sha256(bytes)), contract.Expected().value, State(env));
    hide JudgeEnvelope, JudgeState, TimeProblem, FieldOutcome;
  }

  lemma ValidSealed(bytes: Bytes, env: Envelope)
    requires WellFormed(bytes, env)
    ensures JsonValue(Sealed(env), 0)
  {
    hide PayloadShape, HexMac;
  }

  /** The verifier's full result, reason and listed fields included, for every input with a valid clock. */
  lemma OutcomeTable(crypto: Crypto, raw: Raw, contract: Contract, source: Source, now: int)
    requires contract.Valid() && now >= 0
    ensures Table(VerifyReadback(crypto, raw, contract, source, Reads(now)), crypto, raw, contract, source, now)
  {
    hide Contract.Valid, Decode, Print, EnvelopeOutcome, JudgeEnvelope, WellFormed, ParseEnvelope, EnvelopeOf;
    if raw.Evidence? {
      forall env ensures ParseEnvelope(raw.bytes) == Some(env) <==> WellFormed(raw.bytes, env) {
        ParseEnvelopeExact(raw.bytes, env);
      }
      if ParseEnvelope(raw.bytes).Some? {
        var env := ParseEnvelope(raw.bytes).value;
        assert WellFormed(raw.bytes, env);
        EnvelopeDecides(crypto, raw.bytes, env, contract, source, now);
      }
    }
  }

  ghost predicate Good(contract: Contract, clock: Clock) {
    contract.Valid() && clock.Reads? && clock.now >= 0
  }

  lemma ParsedOutcome(crypto: Crypto, bytes: Bytes, env: Envelope, contract: Contract, source: Source, now: int)
    requires ParseEnvelope(bytes) == Some(env) && now >= 0
    ensures VerifyReadback(crypto, Evidence(bytes), contract, source, Reads(now))
            == JudgeEnvelope(crypto, bytes, env, contract, source, now)
  {
    hide Decode, Print, JsonValue;
  }

  lemma PrintsPayload(env: Envelope)
    requires JsonValue(Sealed(env), 0) && PayloadShape(env.payload)
    ensures Canonical(Obj(env.payload)) == Some(Utf8.Encode(Print(Obj(env.payload))))
  {
    hide Decode, Print, JsonValue;
    PayloadValid(env);
  }

  lemma AcceptedOutcome(crypto: Crypto, raw: Raw, env: Envelope, contract: Contract, source: Source, clock: Clock)
    requires Good(contract, clock) && Accepted(crypto, raw, env, contract, source)
    ensures contract.Expected().Some? && AllValid(State(env)) && AllValid(contract.Expected().value)
    ensures VerifyReadback(crypto, raw, contract, source, clock)
            == JudgeTime(Some(crypto.sha256(raw.bytes)), ObservedAt(env), State(env), contract, clock.now)
  {
    hide Decode, Print, JsonValue;
    ParseEnvelopeExact(raw.bytes, env);
    ParsedOutcome(crypto, raw.bytes, env, contract, source, clock.now);
    PayloadValid(env);
    PrintsPayload(env);
    ExpectedValid(contract);
    JudgeEnvelopeExact(crypto, raw.bytes, env, contract, source, clock.now);
  }

  lemma UnboundOutcome(crypto: Crypto, raw: Raw, contract: Contract, source: Source, clock: Clock)
    requires Good(contract, clock) && !Bound(crypto, raw, contract, source)
    ensures var o := VerifyReadback(crypto, raw, contract, source, clock);
            if raw.Absent? then o == Unresolved(None, "readback_unavailable", ["bound source observation"])
            else o.Returned? && o == Rejected(o.result.reason)
  {
    hide Decode, Print, JsonValue, PayloadShape, ParseEnvelope;
    if raw.Evidence? {
      match ParseEnvelope(raw.bytes)
      case None =>
      case Some(env) =>
        ParseEnvelopeExact(raw.bytes, env);
        PayloadValid(env);
        PrintsPayload(env);
        JudgeEnvelopeExact(crypto, raw.bytes, env, contract, source, clock.now);
        assert !Accepted(crypto, raw, env, contract, source);
    }
  }

  /** Evidence is bound by at most one envelope. */
  lemma AcceptedUnique(crypto: Crypto, raw: Raw, e: Envelope, e': Envelope, contract: Contract, source: Source)
    requires contract.Valid()
    requires Accepted(crypto, raw, e, contract, source) && Accepted(crypto, raw, e', contract, source)
    ensures e == e'
  {
    hide Decode, Print, JsonValue;
    ParseEnvelopeExact(raw.bytes, e);
    ParseEnvelopeExact(raw.bytes, e');
  }

  /** ESTABLISHED: an accepted envelope, in the window, in which every declared field has its declared value. */
  lemma EstablishedIff(crypto: Crypto, raw: Raw, contract: Contract, source: Source, clock: Clock)
    requires Good(contract, clock)
    ensures VerdictOf(VerifyReadback(crypto, raw, contract, source, clock)) == Some(Established)
            <==> exists env :: Accepted(crypto, raw, env, contract, source)
                               && InWindow(contract, ObservedAt(env), clock.now)
                               && Agrees(contract.Expected().value, State(env))
  {
    hide Contract.Valid, Decode, Print, JsonValue, VerifyReadback;
    if Bound(crypto, raw, contract, source) {
      var env :| Accepted(crypto, raw, env, contract, source);
      AcceptedVerdict(crypto, raw, env, contract, source, clock);
      forall e | Accepted(crypto, raw, e, contract, source) ensures e == env {
        AcceptedUnique(crypto, raw, e, env, contract, source);
      }
    } else {
      UnboundOutcome(crypto, raw, contract, source, clock);
    }
  }

  /** VIOLATED: the same guard, and some declared field observed with another value. */
  lemma ViolatedIff(crypto: Crypto, raw: Raw, contract: Contract, source: Source, clock: Clock)
    requires Good(contract, clock)
    ensures VerdictOf(VerifyReadback(crypto, raw, contract, source, clock)) == Some(Violated)
            <==> exists env :: Accepted(crypto, raw, env, contract, source)
                               && InWindow(contract, ObservedAt(env), clock.now)
                               && Contradicts(contract.Expected().value, State(env))
  {
    hide Contract.Valid, Decode, Print, JsonValue, VerifyReadback;
    if Bound(crypto, raw, contract, source) {
      var env :| Accepted(crypto, raw, env, contract, source);
      AcceptedVerdict(crypto, raw, env, contract, source, clock);
      forall e | Accepted(crypto, raw, e, contract, source) ensures e == env {
        AcceptedUnique(crypto, raw, e, env, contract, source);
      }
    } else {
      UnboundOutcome(crypto, raw, contract, source, clock);
    }
  }

  lemma AcceptedVerdict(crypto: Crypto, raw: Raw, env: Envelope, contract: Contract, source: Source, clock: Clock)
    requires Good(contract, clock) && Accepted(crypto, raw, env, contract, source)
    ensures var expected, state, o :=
              contract.Expected().value, State(env), VerifyReadback(crypto, raw, contract, source, clock);
            && (VerdictOf(o) == Some(Violated)
                <==> InWindow(contract, ObservedAt(env), clock.now) && Contradicts(expected, state))
            && (VerdictOf(o) == Some(Established)
                <==> InWindow(contract, ObservedAt(env), clock.now) && Agrees(expected, state))
            && VerdictOf(o).Some?
  {
    hide Decode, Print, JsonValue, VerifyReadback;
    var digest := Some(crypto.sha256(raw.bytes));
    AcceptedOutcome(crypto, raw, env, contract, source, clock);
    JudgeTimeExact(digest, ObservedAt(env), State(env), contract, clock.now, contract.Expected().value);
    JudgeStateExact(digest, contract.Expected().value, State(env));
    AgreesExact(contract.Expected().value, State(env));
  }

  /**
   With a valid clock the verifier always returns: no canonicalisation after
   the guarded block can fail. A verdict is present exactly when processing
   completed, and missing evidence is named exactly when nothing was established.
   */
  lemma VerifyTotal(crypto: Crypto, raw: Raw, contract: Contract, source: Source, clock: Clock)
    requires contract.Valid()
    ensures var o := VerifyReadback(crypto, raw, contract, source, clock);
            && (o.Returned? <==> ValidTime(clock))
            && (o.Returned? ==>
                  && (o.result.verdict.Some? <==> o.result.processing == Completed)
                  && (o.result.missing != [] <==> o.result.verdict == Some(NotEstablished))
                  && (o.result.digest.Some? ==> o.result.verdict.Some?)
                  && (o.result.verdict.Some? <==> raw.Absent? || Bound(crypto, raw, contract, source)))
  {
    hide Contract.Valid, Decode, Print, JsonValue;
    if ValidTime(clock) {
      if Bound(crypto, raw, contract, source) {
        var env :| Accepted(crypto, raw, env, contract, source);
        AcceptedOutcome(crypto, raw, env, contract, source, clock);
        JudgeTimeExact(Some(crypto.sha256(raw.bytes)), ObservedAt(env), State(env), contract, clock.now,
                       contract.Expected().value);
      } else {
        UnboundOutcome(crypto, raw, contract, source, clock);
      }
    }
  }

  ghost predicate Decides(crypto: Crypto, raw: Raw, contract: Contract, source: Source, now: int) {
    var v := VerdictOf(VerifyReadback(crypto, raw, contract, source, Reads(now)));
    v == Some(Established) || v == Some(Violated)
  }

  /**
   For fixed evidence the times at which the verifier decides form one interval,
   from the observation to the earlier deadline, and the decision is the same
   throughout it.
   */
  lemma DecidingTimesFormInterval(crypto: Crypto, raw: Raw, contract: Contract, source: Source, s: int, t: int)
    requires contract.Valid() && 0 <= s && 0 <= t
    requires Decides(crypto, raw, contract, source, s)
    ensures exists env :: Accepted(crypto, raw, env, contract, source)
                          && (Decides(crypto, raw, contract, source, t)
                              <==> ObservedAt(env) <= t <= Min(contract.expiresAt, ObservedAt(env) + contract.maxAge))
    ensures Decides(crypto, raw, contract, source, t) ==>
              VerdictOf(VerifyReadback(crypto, raw, contract, source, Reads(s)))
              == VerdictOf(VerifyReadback(crypto, raw, contract, source, Reads(t)))
  {
    hide Contract.Valid, Decode, Print, JsonValue, PayloadShape, VerifyReadback;
    if !Bound(crypto, raw, contract, source) {
      UnboundOutcome(crypto, raw, contract, source, Reads(s));
    }
    var env :| Accepted(crypto, raw, env, contract, source);
    DecidesExact(crypto, raw, env, contract, source, s);
    DecidesExact(crypto, raw, env, contract, source, t);
  }

  lemma DecidesExact(crypto: Crypto, raw: Raw, env: Envelope, contract: Contract, source: Source, t: int)
    requires contract.Valid() && 0 <= t && Accepted(crypto, raw, env, contract, source)
    ensures var expected, state := contract.Expected().value, State(env);
            && (Decides(crypto, raw, contract, source, t)
                <==> InWindow(contract, ObservedAt(env), t)
                     && (Agrees(expected, state) || Contradicts(expected, state)))
            && (Decides(crypto, raw, contract, source, t) ==>
                  VerdictOf(VerifyReadback(crypto, raw, contract, source, Reads(t)))
                  == Some(if Contradicts(expected, state) then Violated else Established))
  {
    hide Decode, Print, JsonValue;
    AcceptedVerdict(crypto, raw, env, contract, source, Reads(t));
  }

  // ------------------------------------------------------------ monotonicity

  /** The second envelope carries the first one's statement with a larger observed state. */
  ghost predicate Extends(env: Envelope, env': Envelope)
    requires PayloadShape(env.payload) && PayloadShape(env'.payload)
  {
    && env'.payload == env.payload["state" := Obj(State(env'))]
    && State(env).Keys <= State(env').Keys
    && forall k | k in State(env) :: State(env')[k] == State(env)[k]
  }

  ghost predicate Extension(crypto: Crypto, raw: Raw, env: Envelope, raw': Raw, env': Envelope,
                            contract: Contract, source: Source)
    requires contract.Valid()
  {
    && Accepted(crypto, raw, env, contract, source)
    && Accepted(crypto, raw', env', contract, source)
    && Extends(env, env')
  }

  /** Observing fields that the contract does not declare never changes a verdict. */
  lemma UndeclaredFieldsIrrelevant(crypto: Crypto, raw: Raw, env: Envelope, raw': Raw, env': Envelope,
                                   contract: Contract, source: Source, clock: Clock)
    requires Good(contract, clock) && Extension(crypto, raw, env, raw', env', contract, source)
    requires (State(env').Keys - State(env).Keys) !! contract.Expected().value.Keys
    ensures VerdictOf(VerifyReadback(crypto, raw', contract, source, clock))
            == VerdictOf(VerifyReadback(crypto, raw, contract, source, clock))
  {
    hide Decode, Print, JsonValue, VerifyReadback;
    AcceptedVerdict(crypto, raw, env, contract, source, clock);
    AcceptedVerdict(crypto, raw', env', contract, source, clock);
    UndeclaredAgree(contract.Expected().value, State(env), State(env'));
    SameVerdict(VerdictOf(VerifyReadback(crypto, raw, contract, source, clock)),
                VerdictOf(VerifyReadback(crypto, raw', contract, source, clock)));
  }

  lemma SameVerdict(v: Option<Verdict>, w: Option<Verdict>)
    requires v.Some? && w.Some?
    requires v == Some(Violated) <==> w == Some(Violated)
    requires v == Some(Established) <==> w == Some(Established)
    ensures v == w
  {
    Trichotomy(v);
    Trichotomy(w);
  }

  lemma UndeclaredAgree(expected: map<string, Json>, s: map<string, Json>, s': map<string, Json>)
    requires s.Keys <= s'.Keys && forall k | k in s :: s'[k] == s[k]
    requires (s'.Keys - s.Keys) !! expected.Keys
    ensures Agrees(expected, s) <==> Agrees(expected, s')
    ensures Contradicts(expected, s) <==> Contradicts(expected, s')
  {
    forall k | k in expected ensures k in s <==> k in s' {
      assert k !in s'.Keys - s.Keys;
    }
  }

  /** A conclusive verdict survives every further observation; only an inconclusive one can change. */
  lemma VerdictsMonotone(crypto: Crypto, raw: Raw, env: Envelope, raw': Raw, env': Envelope,
                         contract: Contract, source: Source, clock: Clock)
    requires Good(contract, clock) && Extension(crypto, raw, env, raw', env', contract, source)
    requires Decides(crypto, raw, contract, source, clock.now)
    ensures VerdictOf(VerifyReadback(crypto, raw', contract, source, clock))
            == VerdictOf(VerifyReadback(crypto, raw, contract, source, clock))
  {
    hide Decode, Print, JsonValue, Agrees, Contradicts;
    assert clock == Reads(clock.now);
    AcceptedVerdict(crypto, raw, env, contract, source, clock);
    AcceptedVerdict(crypto, raw', env', contract, source, clock);
    ExtensionKeeps(contract.Expected().value, State(env), State(env'));
  }

  lemma ExtensionKeeps(expected: map<string, Json>, s: map<string, Json>, s': map<string, Json>)
    requires s.Keys <= s'.Keys && forall k | k in s :: s'[k] == s[k]
    ensures Agrees(expected, s) ==> Agrees(expected, s') && !Contradicts(expected, s')
    ensures Contradicts(expected, s) ==> Contradicts(expected, s')
  {
    if Contradicts(expected, s) {
      var k :| k in expected && k in s && s[k] != expected[k];
      assert k in s' && s'[k] != expected[k];
    }
  }

  // ---------------------------------------------------------------- signing

  /** What a holder of the key sends: the canonical envelope over the canonical payload. */
  function Sign(crypto: Crypto, source: Source, payload: map<string, Json>): Envelope {
    Envelope(payload, crypto.hmac(source.key, Utf8.Encode(Print(Obj(payload)))))
  }

  function Wire(env: Envelope): Bytes { Utf8.Encode(Print(Sealed(env))) }

  /**
   A correctly scoped statement, signed and printed canonically, is accepted
   exactly when it fits the size limit.
   */
  lemma SignedIsAccepted(crypto: Crypto, contract: Contract, source: Source, payload: map<string, Json>)
    requires contract.Valid() && PayloadShape(payload) && JsonValue(Obj(payload), 1)
    requires HexMac(Sign(crypto, source, payload).mac)
    requires Trusted(Sign(crypto, source, payload), source) && InScope(Sign(crypto, source, payload), contract)
    ensures var env := Sign(crypto, source, payload);
            Accepted(crypto, Evidence(Wire(env)), env, contract, source) <==> |Wire(env)| <= MAX_BYTES
  {
    hide Decode, Print, JsonValue, VerifyReadback;
    WireDecodes(Sign(crypto, source, payload));
  }

  lemma WireDecodes(env: Envelope)
    requires JsonValue(Obj(env.payload), 1)
    ensures Decode(Wire(env)) == if |Wire(env)| <= MAX_BYTES then Some(Sealed(env)) else None
  {
    hide Decode, Print, JsonValue;
    SealedValid(env);
    DecodeCanonical(Sealed(env));
  }

  lemma SealedValid(env: Envelope)
    requires JsonValue(Obj(env.payload), 1)
    ensures Canonical(Sealed(env)) == Some(Wire(env)) && JsonValue(Sealed(env), 0)
  {
    assert JsonValue(Str(env.mac), 1);
    assert JsonValue(Sealed(env), 0);
  }

  /** A contract that declares a delta in canonical text declares that delta, if the text fits the size limit. */
  lemma DeclaredDelta(contract: Contract, delta: map<string, Json>)
    requires JsonValue(Obj(delta), 0) && contract.expectedJson == Print(Obj(delta))
    ensures contract.Expected() == if |Utf8.Encode(contract.expectedJson)| <= MAX_BYTES then Some(delta) else None
  {
    hide Decode, Print, JsonValue;
    DecodeCanonical(Obj(delta));
  }

  /** The smallest contract: one declared field, and a window of one second. */
  function SmallContract(): Contract {
    Contract(map n | n in BINDINGS :: "x", Print(Obj(map["k" := Null])), 0, 1, 1)
  }

  lemma SmallText()
    ensures Print(Obj(map["k" := Null])) == "{\"k\":null}"
  {
    var m: map<string, Json> := map["k" := Null];
    var ks := SortedTexts(m.Keys);
    assert ks == ["k"];
    assert EscapeChar('k') == "k" && Escape("") == "";
    assert Escape("k") == "k";
    assert PrintField(Obj(m), "k") == "\"k\":null";
    assert PrintFields(Obj(m), ks) == "\"k\":null";
  }

  lemma SmallInDomain()
    ensures JsonValue(Obj(map["k" := Null]), 0)
  {}

  lemma SmallDelta()
    ensures SmallContract().Expected() == Some(map["k" := Null])
  {
    hide Decode, Print, JsonValue, Contract.Expected, Utf8.Encode;
    SmallInDomain();
    SmallText();
    Utf8.EncodeBound("{\"k\":null}");
    DeclaredDelta(SmallContract(), map["k" := Null]);
  }

  /** Contracts exist. */
  lemma SmallContractValid()
    ensures SmallContract().Valid()
  {
    hide Decode, Print, JsonValue, Contract.Expected, Utf8.Encode;
    SmallDelta();
    assert map["k" := Null] != map[] by {
      assert "k" in map["k" := Null];
    }
    assert Identifier("x") by {
      assert "x"[0] == 'x' && !Blank('x');
      IdentifierExact("x");
    }
    hide Identifier;
  }

  /**
   From key holder to verdict: a scoped, signed statement of any declared and
   observed fields gets the verdict that its times and fields call for.
   */
  lemma HonestVerdict(crypto: Crypto, contract: Contract, source: Source, payload: map<string, Json>, clock: Clock)
    requires Good(contract, clock) && PayloadShape(payload) && JsonValue(Obj(payload), 1)
    requires HexMac(Sign(crypto, source, payload).mac) && |Wire(Sign(crypto, source, payload))| <= MAX_BYTES
    requires Trusted(Sign(crypto, source, payload), source) && InScope(Sign(crypto, source, payload), contract)
    ensures var env := Sign(crypto, source, payload);
            var expected, state := contract.Expected().value, State(env);
            VerdictOf(VerifyReadback(crypto, Evidence(Wire(env)), contract, source, clock))
            == Some(if !InWindow(contract, ObservedAt(env), clock.now) then NotEstablished
                    else if Contradicts(expected, state) then Violated
                    else if Agrees(expected, state) then Established
                    else NotEstablished)
  {
    hide Decode, Print, JsonValue, VerifyReadback;
    var env := Sign(crypto, source, payload);
    SignedIsAccepted(crypto, contract, source, payload);
    AcceptedVerdict(crypto, Evidence(Wire(env)), env, contract, source, clock);
    Trichotomy(VerdictOf(VerifyReadback(crypto, Evidence(Wire(env)), contract, source, clock)));
    ConclusiveApart(contract.Expected().value, State(env));
  }

  lemma Trichotomy(v: Option<Verdict>)
    requires v.Some?
    ensures v == Some(Violated) || v == Some(Established) || v == Some(NotEstablished)
  {
    assert v.value.Violated? || v.value.Established? || v.value.NotEstablished?;
  }

  lemma ConclusiveApart(expected: map<string, Json>, state: map<string, Json>)
    ensures !(Agrees(expected, state) && Contradicts(expected, state))
  {}

  /** Two accepted statements with one MAC are the same statement, unless the MAC itself collides. */
  lemma MacBindsStatement(crypto: Crypto, raw: Raw, env: Envelope, raw': Raw, env': Envelope,
                          contract: Contract, contract': Contract, source: Source)
    requires contract.Valid() && contract'.Valid()
    requires Accepted(crypto, raw, env, contract, source) && Accepted(crypto, raw', env', contract', source)
    requires env.mac == env'.mac
    ensures env.payload == env'.payload
            || var b, b' := Utf8.Encode(Print(Obj(env.payload))), Utf8.Encode(Print(Obj(env'.payload)));
               b != b' && crypto.hmac(source.key, b) == crypto.hmac(source.key, b')
  {
    hide Contract.Valid, Decode, Print, JsonValue, PayloadShape;
    PayloadValid(env);
    PayloadValid(env');
    PrintsPayload(env);
    PrintsPayload(env');
    CanonicalInjective(Obj(env.payload), Obj(env'.payload));
  }

  // ----------------------------------------------------------- one acquisition

  datatype Reading = ReaderFailed | Handed(raw: Raw)
  datatype Tick = ClockFailed | Ticked(clock: Clock)

  /** A deployment over states of the world: reading moves it on, the clock shows the time of a state. */
  datatype Deployment<!W> = Deployment(reader: W -> (Reading, W), clock: W -> Tick)

  /** One read, then one look at the clock of the state that the read has left; every failure becomes a result. */
  function ReadOnce<W>(crypto: Crypto, here: Deployment<W>, world: W, contract: Contract, source: Source): Result {
    var (reading, after) := here.reader(world);
    match reading
    case ReaderFailed => Result(AcquisitionFailed, None, "reader_failed", None, [])
    case Handed(raw) => Judged(crypto, raw, contract, source, here.clock(after))
  }

  function Judged(crypto: Crypto, raw: Raw, contract: Contract, source: Source, tick: Tick): Result {
    match (if tick.Ticked? then VerifyReadback(crypto, raw, contract, source, tick.clock) else Raised)
    case Returned(r) => r
    case Raised => Result(VerifierFailed, None, "verification_failed", None, [])
  }

  /** A single acquisition establishes the delta exactly when the time after the read is in the window. */
  lemma ReadOnceClock<W>(crypto: Crypto, here: Deployment<W>, world: W, contract: Contract, source: Source)
    requires contract.Valid()
    ensures ReadOnce(crypto, here, world, contract, source).verdict == Some(Established) <==>
              var (reading, after) := here.reader(world);
              && reading.Handed? && here.clock(after).Ticked? && ValidTime(here.clock(after).clock)
              && exists env :: Accepted(crypto, reading.raw, env, contract, source)
                               && InWindow(contract, ObservedAt(env), here.clock(after).clock.now)
                               && Agrees(contract.Expected().value, State(env))
  {
    hide Decode, Print, JsonValue, VerifyReadback;
    var (reading, after) := here.reader(world);
    var tick := here.clock(after);
    if reading.Handed? && tick.Ticked? {
      VerifyTotal(crypto, reading.raw, contract, source, tick.clock);
      if ValidTime(tick.clock) {
        EstablishedIff(crypto, reading.raw, contract, source, tick.clock);
      }
    }
  }

  /** The four processing states tell apart a failed read, a failed clock, bad evidence and a verdict. */
  lemma ReadOnceStates<W>(crypto: Crypto, here: Deployment<W>, world: W, contract: Contract, source: Source)
    requires contract.Valid()
    ensures var (reading, after) := here.reader(world);
            var r, tick := ReadOnce(crypto, here, world, contract, source), here.clock(after);
            && (r.processing == AcquisitionFailed <==> reading.ReaderFailed?)
            && (r.processing == VerifierFailed <==> reading.Handed? && !(tick.Ticked? && ValidTime(tick.clock)))
            && (r.processing == Completed <==>
                  && reading.Handed? && tick.Ticked? && ValidTime(tick.clock)
                  && (reading.raw.Absent? || Bound(crypto, reading.raw, contract, source)))
            && (r.verdict.Some? <==> r.processing == Completed)
            && (r.processing == AcquisitionFailed ==> r == Result(AcquisitionFailed, None, "reader_failed", None, []))
            && (r.processing == VerifierFailed ==> r == Result(VerifierFailed, None, "verification_failed", None, []))
  {
    hide Contract.Valid, Decode, Print, JsonValue, PayloadShape, VerifyReadback;
    var (reading, after) := here.reader(world);
    var tick := here.clock(after);
    if reading.Handed? && tick.Ticked? {
      VerifyTotal(crypto, reading.raw, contract, source, tick.clock);
      if ValidTime(tick.clock) && !Bound(crypto, reading.raw, contract, source) {
        UnboundOutcome(crypto, reading.raw, contract, source, tick.clock);
      }
    }
  }
}
