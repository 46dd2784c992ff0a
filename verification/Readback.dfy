/**
 The bounded read-back verifier: one authenticated statement about a declared
 delta, judged against a deployment-owned contract and a trusted clock.
 HMAC and SHA-256 are parameters.
 */
module Readback {
  import opened Json
  import opened Orders
  import opened Wrappers
  import Utf8

  type Bytes = Utf8.Bytes

  datatype Processing = Completed | RejectedEvidence | AcquisitionFailed | VerifierFailed
  datatype Verdict = Established | Violated | NotEstablished

  /** What the reader handed over: nothing, something that is not bytes, or bytes. */
  datatype Raw = Absent | NotBytes | Evidence(bytes: Bytes)

  /** What the clock handed over; only a non-negative integer is a time. */
  datatype Clock = Reads(now: int) | NotAnInteger

  datatype Crypto = Crypto(hmac: (Bytes, Bytes) -> string, sha256: Bytes -> string)

  datatype Result = Result(
    processing: Processing, verdict: Option<Verdict>, reason: string,
    digest: Option<string>, missing: seq<string>)

  datatype Outcome = Returned(result: Result) | Raised

  const SCHEMA := "remora.readback-experiment.v1"
  const BINDINGS := {"tenant", "target", "operation", "attempt", "request_id"}
  const PAYLOAD_KEYS := {"schema", "source_id", "key_id", "observed_at", "state"} + BINDINGS

  /** The characters that Python's `str.strip` removes. */
  predicate Blank(c: char) {
    var n := c as int;
    9 <= n <= 13 || 28 <= n <= 32 || n == 0x85 || n == 0xA0 || n == 0x1680 || 0x2000 <= n <= 0x200A
    || n == 0x2028 || n == 0x2029 || n == 0x202F || n == 0x205F || n == 0x3000
  }

  function StripLeft(s: string): string {
    if |s| > 0 && Blank(s[0]) then StripLeft(s[1..]) else s
  }

  function StripRight(s: string): string {
    if |s| > 0 && Blank(s[|s| - 1]) then StripRight(s[..|s| - 1]) else s
  }

  /** The source's test of a name: something is left after `strip`. */
  predicate Identifier(s: string) { |StripRight(StripLeft(s))| > 0 }
  predicate JsonIdentifier(v: Json) { v.Str? && Identifier(v.s) }

  datatype Source = Source(sourceId: string, keyId: string, key: Bytes)

  const MIN_KEY := 32

  /** The source policy's constructor. */
  function MakeSource(sourceId: string, keyId: string, key: Bytes): Option<Source> {
    if !Identifier(sourceId) then None
    else if !Identifier(keyId) then None
    else if |key| < MIN_KEY then None
    else Some(Source(sourceId, keyId, key))
  }

  datatype Contract = Contract(
    bindings: map<string, string>, expectedJson: string,
    notBefore: int, expiresAt: int, maxAge: int)
  {
    /** What the constructor enforces. */
    predicate Valid() {
      && bindings.Keys == BINDINGS
      && (forall n | n in BINDINGS :: Identifier(bindings[n]))
      && Expected().Some? && Expected().value != map[]
      && notBefore >= 0 && expiresAt >= 0 && maxAge >= 0
      && expiresAt > notBefore && maxAge != 0
    }

    /** The declared delta. */
    function Expected(): (r: Option<map<string, Json>>)
      ensures r.Some? ==> forall k | k in r.value :: JsonValue(r.value[k], 1)
    {
      match Decode(Utf8.Encode(expectedJson))
      case Some(Obj(m)) => Some(m)
      case _ => None
    }
  }

  /** The contract's constructor, check by check; anything but five names fails where the names are read. */
  function MakeContract(bindings: map<string, string>, expectedJson: string,
                        notBefore: int, expiresAt: int, maxAge: int): Option<Contract>
  {
    if bindings.Keys != BINDINGS then None
    else if exists n | n in BINDINGS :: !Identifier(bindings[n]) then None
    else match Decode(Utf8.Encode(expectedJson))
      case Some(Obj(m)) =>
        if m == map[] then None
        else if notBefore < 0 || expiresAt < 0 || maxAge < 0 then None
        else if expiresAt <= notBefore || maxAge == 0 then None
        else Some(Contract(bindings, expectedJson, notBefore, expiresAt, maxAge))
      case _ => None
  }

  datatype Envelope = Envelope(payload: map<string, Json>, mac: string)

  predicate HexMac(s: string) {
    |s| == 64 && forall c | c in s :: c in "0123456789abcdef"
  }

  predicate PayloadShape(p: map<string, Json>) {
    && p.Keys == PAYLOAD_KEYS
    && p["schema"] == Str(SCHEMA)
    && p["observed_at"].Int? && p["observed_at"].i >= 0
    && p["state"].Obj?
    && (forall n | n in BINDINGS :: JsonIdentifier(p[n]))
    && JsonIdentifier(p["source_id"]) && JsonIdentifier(p["key_id"])
  }

  /** The guarded block: decode and validate, in the source's order. */
  function ParseEnvelope(raw: Bytes): Option<Envelope> {
    match Decode(raw)
    case None => None
    case Some(v) => EnvelopeOf(v)
  }

  function EnvelopeOf(v: Json): Option<Envelope> {
    if !v.Obj? || v.fields.Keys != {"payload", "mac"} then None
    else
      var payload, mac := v.fields["payload"], v.fields["mac"];
      if !payload.Obj? || payload.fields.Keys != PAYLOAD_KEYS then None
      else if payload.fields["schema"] != Str(SCHEMA) then None
      else if !mac.Str? || !HexMac(mac.s) then None
      else if !payload.fields["observed_at"].Int? || payload.fields["observed_at"].i < 0 then None
      else if !payload.fields["state"].Obj? then None
      else if exists n | n in BINDINGS :: !JsonIdentifier(payload.fields[n]) then None
      else if !JsonIdentifier(payload.fields["source_id"]) || !JsonIdentifier(payload.fields["key_id"]) then None
      else Some(Envelope(payload.fields, mac.s))
  }

  function Rejected(reason: string): Outcome {
    Returned(Result(RejectedEvidence, None, reason, None, []))
  }

  function Unresolved(digest: Option<string>, reason: string, missing: seq<string>): Outcome {
    Returned(Result(Completed, Some(NotEstablished), reason, digest, missing))
  }

  function VerifyReadback(crypto: Crypto, raw: Raw, contract: Contract, source: Source, clock: Clock): Outcome {
    if !clock.Reads? || clock.now < 0 then Raised
    else match raw
      case Absent => Unresolved(None, "readback_unavailable", ["bound source observation"])
      case NotBytes => Rejected("malformed_evidence")
      case Evidence(bytes) =>
        match ParseEnvelope(bytes)
        case None => Rejected("malformed_evidence")
        case Some(env) => JudgeEnvelope(crypto, bytes, env, contract, source, clock.now)
  }

  function JudgeEnvelope(crypto: Crypto, bytes: Bytes, env: Envelope, contract: Contract, source: Source,
                         now: int): Outcome
  {
    var p := env.payload;
    if "source_id" !in p || "key_id" !in p then Raised
    else if p["source_id"] != Str(source.sourceId) || p["key_id"] != Str(source.keyId) then Rejected("untrusted_source")
    else match Canonical(Obj(p))
      case None => Raised
      case Some(message) =>
        if env.mac != crypto.hmac(source.key, message) then Rejected("invalid_signature")
        else if !(BINDINGS <= p.Keys && BINDINGS <= contract.bindings.Keys) then Raised
        else if ScopeMismatch(p, contract) then Rejected("scope_mismatch")
        else if "observed_at" !in p || !p["observed_at"].Int? || "state" !in p || !p["state"].Obj? then Raised
        else JudgeTime(Some(crypto.sha256(bytes)), p["observed_at"].i, p["state"].fields, contract, now)
  }

  predicate ScopeMismatch(p: map<string, Json>, contract: Contract)
    requires BINDINGS <= p.Keys && BINDINGS <= contract.bindings.Keys
  {
    exists n | n in BINDINGS :: p[n] != Str(contract.bindings[n])
  }

  /** The reason and the evidence still needed, unless the times are all in order. */
  function TimeProblem(contract: Contract, observedAt: int, now: int): Option<(string, string)> {
    if now > contract.expiresAt then
      Some(("contract_expired", "new deployment-approved observation contract"))
    else if now < contract.notBefore || observedAt < contract.notBefore then
      Some(("settlement_not_observed", "observation at or after settlement"))
    else if observedAt > now then
      Some(("future_observation", "observation consistent with trusted clock"))
    else if now - observedAt > contract.maxAge then
      Some(("stale_observation", "fresh source observation"))
    else None
  }

  function JudgeTime(digest: Option<string>, observedAt: int, observed: map<string, Json>, contract: Contract,
                     now: int): Outcome
  {
    match TimeProblem(contract, observedAt, now)
    case Some((reason, needed)) => Unresolved(digest, reason, [needed])
    case None =>
      match contract.Expected()
      case None => Raised
      case Some(expected) => JudgeState(digest, expected, observed)
  }

  function JudgeState(digest: Option<string>, expected: map<string, Json>, observed: map<string, Json>): Outcome {
    var missing := SortedTexts(expected.Keys - observed.Keys);
    if Unprintable(expected, observed) then Raised
    else if Mismatch(expected, observed) then
      Returned(Result(Completed, Some(Violated), "declared_delta_mismatch", digest, []))
    else if missing != [] then Unresolved(digest, "declared_fields_unobserved", missing)
    else Returned(Result(Completed, Some(Established), "declared_delta_observed", digest, []))
  }

  predicate Unprintable(expected: map<string, Json>, observed: map<string, Json>) {
    exists k | k in expected && k in observed :: Canonical(expected[k]).None? || Canonical(observed[k]).None?
  }

  predicate Mismatch(expected: map<string, Json>, observed: map<string, Json>) {
    exists k | k in expected && k in observed :: Canonical(expected[k]) != Canonical(observed[k])
  }
}
