/** The six checks of `Verify`, in order, over the replay guard, the keys and the loaded bundle. */
module Verify {
  import opened Wrappers
  import opened EnvelopeErrors
  import opened Numbers
  import opened Utf8
  import opened Envelope
  import opened Parse
  import opened ReplayGuard
  import Base64Url
  import Domain
  import Json

  // ---- Time -----------------------------------------------------------------------------

  /** Instants and durations are nanoseconds; a duration is an int64. */
  const SECOND: int := 1_000_000_000

  /** Seconds from the zero `time.Time` to the Unix epoch. */
  const UNIX_TO_INTERNAL: int := 62_135_596_800

  /** int64 arithmetic wraps. */
  function Wrap64(x: int): int64 {
    (x - MIN_INT64) % 0x1_0000_0000_0000_0000 + MIN_INT64
  }

  /** `time.Unix(sec, 0)`, whose internal seconds wrap. */
  function UnixInstant(sec: int64): int {
    (Wrap64(sec + UNIX_TO_INTERNAL) - UNIX_TO_INTERNAL) * SECOND
  }

  /** `t.Sub(u)`, which saturates. */
  function Sub(t: int, u: int): int64 {
    if t - u > MAX_INT64 then MAX_INT64 else if t - u < MIN_INT64 then MIN_INT64 else t - u
  }

  /** The clock readings one `Verify` call takes: in the freshness check, in the guard, at the end. */
  datatype Readings = Readings(atCheck: int, atGuard: int, atEnd: int)

  // ---- Configuration and state ----------------------------------------------------------

  datatype Config = Config(
    maxAge: int64,
    clockSkew: int64,
    domainPrefix: Bytes,
    crypto: Domain.Crypto,
    guardMaxAge: int,
    guardCapacity: int)

  datatype State = State(
    marks: map<string, int>,
    order: seq<NonceEntry>,
    keys: map<string, Bytes>,
    digest: string)

  datatype Verified = Verified(env: Envelope, verifiedAt: int, digest: string)

  // ---- The checks on values -------------------------------------------------------------

  function FreshnessFault(cfg: Config, notAfter: int64, now: int): Option<Error> {
    var deadline := UnixInstant(notAfter);
    if now > deadline + cfg.clockSkew then Some(ErrExpired)
    else if Sub(deadline, now) > Wrap64(cfg.maxAge + cfg.clockSkew) then Some(ErrTooFarFuture)
    else None
  }

  ghost function SignatureCheck(cfg: Config, keys: map<string, Bytes>, e: Envelope): Result<string, Error> {
    if e.deviceId !in keys || keys[e.deviceId] == [] then Err(ErrSignature)
    else
      match Domain.SigningInputOf(cfg.domainPrefix, e.(signature := ""))
      case Err(error) => Err(error)
      case Ok(input) =>
        match Base64Url.DecodeSignature(e.signature)
        case Err(error) => Err(error)
        case Ok(presented) =>
          if presented != cfg.crypto.mac(keys[e.deviceId], input) then Err(ErrSignature)
          else Ok(Domain.Hex(cfg.crypto.hash(input)))
  }

  function BindingFault(loaded: string, e: Envelope): Option<Error> {
    if loaded == "" || loaded != e.policyContext.bundleDigest then Some(ErrPolicyStale) else None
  }

  /** One `Verify` call as a step over the state. */
  ghost function VerifyStep(cfg: Config, st: State, raw: Raw, clock: Readings): (State, Result<Verified, Error>) {
    match ParseOf(raw)
    case Err(error) => (st, Err(error))
    case Ok(e) =>
      var stale := FreshnessFault(cfg, e.notAfter, clock.atCheck);
      if stale.Some? then (st, Err(stale.value))
      else
        match SignatureCheck(cfg, st.keys, e)
        case Err(error) => (st, Err(error))
        case Ok(digest) =>
          var unbound := BindingFault(st.digest, e);
          if unbound.Some? then (st, Err(unbound.value))
          else
            var (advanced, marks) := AdvanceStep(st.marks, e.deviceId, e.seqNo);
            if !advanced then (st, Err(ErrReplaySeq))
            else
              var (seen, order) :=
                SeenStep(st.order, NonceKey(e.deviceId, e.nonce), clock.atGuard, cfg.guardMaxAge, cfg.guardCapacity);
              var next := st.(marks := marks, order := order);
              if seen then (next, Err(ErrReplayNonce)) else (next, Ok(Verified(e, clock.atEnd, digest)))
  }

  // ---- The collaborators ----------------------------------------------------------------

  class StaticKeySource {
    var keys: map<string, Bytes>

    constructor ()
      ensures keys == map[]
    {
      keys := map[];
    }

    method Set(deviceId: string, key: Bytes)
      modifies this
      ensures keys == old(keys)[deviceId := key]
    {
      keys := keys[deviceId := key];
    }

    method EnvelopeKey(deviceId: string) returns (r: Result<Bytes, Error>)
      ensures r == if deviceId in keys then Ok(keys[deviceId]) else Err(ErrOther)
    {
      if deviceId !in keys {
        return Err(ErrOther);
      }
      r := Ok(keys[deviceId]);
    }
  }

  class StaticBundleDigest {
    var digest: string

    constructor (digest: string)
      ensures this.digest == digest
    {
      this.digest := digest;
    }

    method Set(digest: string)
      modifies this
      ensures this.digest == digest
    {
      this.digest := digest;
    }

    method BundleDigest() returns (r: Result<string, Error>)
      ensures r == if digest == "" then Err(ErrOther) else Ok(digest)
    {
      if digest == "" {
        return Err(ErrOther);
      }
      r := Ok(digest);
    }
  }

  // ---- The verifier ---------------------------------------------------------------------

  class Verifier {
    const keys: StaticKeySource
    const replay: MemoryReplayGuard
    const bundle: StaticBundleDigest
    const maxAge: int64
    const clockSkew: int64
    const domainPrefix: Bytes
    const crypto: Domain.Crypto

    constructor (keys: StaticKeySource, replay: MemoryReplayGuard, bundle: StaticBundleDigest,
                 maxAge: int64, clockSkew: int64, crypto: Domain.Crypto)
      ensures this.keys == keys && this.replay == replay && this.bundle == bundle
      ensures this.maxAge == maxAge && this.clockSkew == clockSkew && this.crypto == crypto
      ensures domainPrefix == Domain.DOMAIN_PREFIX
    {
      this.keys := keys;
      this.replay := replay;
      this.bundle := bundle;
      this.maxAge := maxAge;
      this.clockSkew := clockSkew;
      this.domainPrefix := Domain.DOMAIN_PREFIX;
      this.crypto := crypto;
    }

    ghost function Cfg(): Config {
      Config(maxAge, clockSkew, domainPrefix, crypto, replay.maxAge, replay.capacity)
    }

    ghost function Abstract(): State
      reads replay, keys, bundle
    {
      State(replay.lastSeq, replay.order, keys.keys, bundle.digest)
    }

    method CheckFreshness(env: Envelope, now: int) returns (err: Option<Error>)
      ensures err == FreshnessFault(Cfg(), env.notAfter, now)
    {
      var notAfter := UnixInstant(env.notAfter);
      if now > notAfter + clockSkew {
        return Some(ErrExpired);
      }
      if Sub(notAfter, now) > Wrap64(maxAge + clockSkew) {
        return Some(ErrTooFarFuture);
      }
      err := None;
    }

    method CheckSignature(env: Envelope) returns (r: Result<string, Error>)
      ensures r == SignatureCheck(Cfg(), keys.keys, env)
    {
      var key := keys.EnvelopeKey(env.deviceId);
      if key.Err? {
        return Err(ErrSignature);
      }
      if |key.value| == 0 {
        return Err(ErrSignature);
      }
      var unsigned := env.(signature := "");
      var input := Domain.SigningInput(domainPrefix, unsigned);
      if input.Err? {
        return Err(input.error);
      }
      var presented := Base64Url.DecodeSignature(env.signature);
      if presented.Err? {
        return Err(presented.error);
      }
      var expected := crypto.mac(key.value, input.value);
      if presented.value != expected {
        return Err(ErrSignature);
      }
      r := Ok(Domain.Hex(crypto.hash(input.value)));
    }

    method CheckPolicyBinding(env: Envelope) returns (err: Option<Error>)
      ensures err == BindingFault(bundle.digest, env)
    {
      var loaded := bundle.BundleDigest();
      if loaded.Err? {
        return Some(ErrPolicyStale);
      }
      if loaded.value == "" {
        return Some(ErrPolicyStale);
      }
      if loaded.value != env.policyContext.bundleDigest {
        return Some(ErrPolicyStale);
      }
      err := None;
    }

    /** Runs the six checks in order and stops at the first that fails. */
    method Verify(raw: Raw, clock: Readings) returns (r: Result<Verified, Error>)
      requires replay.Valid()
      modifies replay
      ensures replay.Valid()
      ensures (Abstract(), r) == VerifyStep(Cfg(), old(Abstract()), raw, clock)
    {
      hide ParseOf, SignatureCheck, FreshnessFault, BindingFault, SeenStep, Indexed;
      var env := Parse.Parse(raw);
      if env.Err? {
        return Err(env.error);
      }
      var stale := CheckFreshness(env.value, clock.atCheck);
      if stale.Some? {
        return Err(stale.value);
      }
      var digest := CheckSignature(env.value);
      if digest.Err? {
        return Err(digest.error);
      }
      var unbound := CheckPolicyBinding(env.value);
      if unbound.Some? {
        return Err(unbound.value);
      }
      ParsedFitsTheGuard(raw);
      var advanced := replay.AdvanceSeq(env.value.deviceId, env.value.seqNo);
      if advanced.Err? {
        return Err(ErrReplaySeq);
      }
      if !advanced.value {
        return Err(ErrReplaySeq);
      }
      var seen := replay.SeenNonce(env.value.deviceId, env.value.nonce, clock.atGuard);
      if seen.Err? {
        return Err(ErrReplayNonce);
      }
      if seen.value {
        return Err(ErrReplayNonce);
      }
      r := Ok(Verified(env.value, clock.atEnd, digest.value));
    }
  }

  /** After `parse` the guard's argument errors cannot occur. */
  lemma ParsedFitsTheGuard(raw: Raw)
    requires ParseOf(raw).Ok?
    ensures var e := ParseOf(raw).value; e.deviceId != "" && e.nonce != "" && e.seqNo > 0
  {
    ParsedIsComplete(raw);
  }

  /** `NewVerifier`: every collaborator is required, and the age limit is positive. */
  method NewVerifier(keys: StaticKeySource?, replay: MemoryReplayGuard?, bundle: StaticBundleDigest?,
                     maxAge: int64, clockSkew: int64, crypto: Domain.Crypto)
    returns (r: Result<Verifier, Error>)
    ensures r.Ok? <==> keys != null && replay != null && bundle != null && maxAge > 0
    ensures keys == null ==> r == Err(ErrOther)
    ensures keys != null && replay == null ==> r == Err(ErrNoReplayGuard)
    ensures keys != null && replay != null && bundle == null ==> r == Err(ErrNoBundle)
    ensures keys != null && replay != null && bundle != null && maxAge <= 0 ==> r == Err(ErrOther)
    ensures r.Ok? ==> r.value.keys == keys && r.value.replay == replay && r.value.bundle == bundle
    ensures r.Ok? ==> r.value.maxAge == maxAge && r.value.clockSkew == clockSkew && r.value.crypto == crypto
    ensures r.Ok? ==> r.value.domainPrefix == Domain.DOMAIN_PREFIX
  {
    if keys == null {
      return Err(ErrOther);
    }
    if replay == null {
      return Err(ErrNoReplayGuard);
    }
    if bundle == null {
      return Err(ErrNoBundle);
    }
    if maxAge <= 0 {
      return Err(ErrOther);
    }
    var v := new Verifier(keys, replay, bundle, maxAge, clockSkew, crypto);
    r := Ok(v);
  }

  // ---- What a step means ----------------------------------------------------------------

  /** For a counter within the exact domain and a limit that does not overflow, freshness is the
      window around `not_after`. */
  lemma FreshnessIsTheWindow(cfg: Config, notAfter: int64, now: int)
    requires Safe(notAfter)
    requires MIN_INT64 <= cfg.maxAge + cfg.clockSkew < MAX_INT64
    ensures FreshnessFault(cfg, notAfter, now).None?
      <==> notAfter * 1_000_000_000 - cfg.maxAge - cfg.clockSkew <= now <= notAfter * 1_000_000_000 + cfg.clockSkew
  {
    FreshnessFaultIs(cfg, notAfter, now);
  }

  /** And which of the two faults it is. */
  lemma FreshnessFaultIs(cfg: Config, notAfter: int64, now: int)
    requires Safe(notAfter)
    requires MIN_INT64 <= cfg.maxAge + cfg.clockSkew < MAX_INT64
    ensures FreshnessFault(cfg, notAfter, now)
      == if now > notAfter * 1_000_000_000 + cfg.clockSkew then Some(ErrExpired)
         else if notAfter * 1_000_000_000 - now > cfg.maxAge + cfg.clockSkew then Some(ErrTooFarFuture)
         else None
  {
    NoWrap(notAfter + UNIX_TO_INTERNAL);
    NoWrap(cfg.maxAge + cfg.clockSkew);
  }

  /** The time arithmetic in figures: the seconds of a Unix instant wrap past the year 292277024627, a
      difference saturates, and the sum of two durations wraps once. */
  lemma TimeInFigures(sec: int64, t: int, u: int, d: int64, e: int64)
    ensures UnixInstant(sec)
      == (if sec <= 9223371974719179007 then sec else sec - 18446744073709551616) * 1_000_000_000
    ensures -9223372036854775808 <= t - u <= 9223372036854775807 ==> Sub(t, u) == t - u
    ensures t - u > 9223372036854775807 ==> Sub(t, u) == 9223372036854775807
    ensures t - u < -9223372036854775808 ==> Sub(t, u) == -9223372036854775808
    ensures Wrap64(d + e)
      == if d + e > 9223372036854775807 then d + e - 18446744073709551616
         else if d + e < -9223372036854775808 then d + e + 18446744073709551616
         else d + e
  {
    WrapOnce(sec + UNIX_TO_INTERNAL);
    WrapOnce(d + e);
  }

  lemma WrapOnce(x: int)
    requires -18446744073709551616 <= x <= 18446744073709551614
    ensures Wrap64(x)
      == if x > 9223372036854775807 then x - 18446744073709551616
         else if x < -9223372036854775808 then x + 18446744073709551616
         else x
  {
  }

  lemma NoWrap(x: int)
    requires MIN_INT64 <= x <= MAX_INT64
    ensures Wrap64(x) == x
  {
  }

  /** A signature is accepted exactly when, up to trailing `=`, it is the text `Sign` produces. */
  lemma SignatureAcceptedIff(cfg: Config, keys: map<string, Bytes>, e: Envelope)
    ensures SignatureCheck(cfg, keys, e).Ok? <==>
      && e.deviceId in keys && keys[e.deviceId] != []
      && Domain.SignatureOf(cfg.crypto, cfg.domainPrefix, e, keys[e.deviceId]).Ok?
      && Base64Url.TrimRight(e.signature)
         == Domain.SignatureOf(cfg.crypto, cfg.domainPrefix, e, keys[e.deviceId]).value
  {
    var input := Domain.SigningInputOf(cfg.domainPrefix, e.(signature := ""));
    if e.deviceId in keys && input.Ok? {
      var mac := cfg.crypto.mac(keys[e.deviceId], input.value);
      Base64Url.DecodeAcceptsExactlyEncodings(e.signature, mac);
      Base64Url.EncodingHasNoPadding(mac);
    }
  }

  /** The signature check for every envelope, in the order of its steps: the key, the canonical bytes,
      the spelling of the signature, and only then the MAC. */
  lemma SignatureCheckIs(cfg: Config, keys: map<string, Bytes>, e: Envelope)
    ensures e.deviceId !in keys || keys[e.deviceId] == [] ==> SignatureCheck(cfg, keys, e) == Err(ErrSignature)
    ensures e.deviceId in keys && keys[e.deviceId] != [] ==>
      var canonical := CanonicalBytesOf(e);
      && (canonical.Err? ==> SignatureCheck(cfg, keys, e) == Err(canonical.error))
      && (canonical.Ok? ==>
        var input := cfg.domainPrefix + [0] + canonical.value;
        var presented := Base64Url.DecodeSignature(e.signature);
        SignatureCheck(cfg, keys, e)
        == if presented.Err? then Err(ErrSchema)
           else if presented.value != cfg.crypto.mac(keys[e.deviceId], input) then Err(ErrSignature)
           else Ok(Domain.Hex(cfg.crypto.hash(input))))
  {
    Domain.BytesIgnoreTheSignature(e, "");
    Base64Url.DecodeAcceptsExactlyEncodings(e.signature, []);
    hide CanonicalBytesOf, Base64Url.DecodeSignature, Domain.Hex;
  }

  /** `Verify` succeeds exactly when all six conditions hold. */
  ghost predicate Accepts(cfg: Config, st: State, raw: Raw, clock: Readings) {
    && ParseOf(raw).Ok?
    && var e := ParseOf(raw).value;
    && FreshnessFault(cfg, e.notAfter, clock.atCheck).None?
    && e.deviceId in st.keys && st.keys[e.deviceId] != []
    && var signature := Domain.SignatureOf(cfg.crypto, cfg.domainPrefix, e, st.keys[e.deviceId]);
    && signature.Ok? && Base64Url.TrimRight(e.signature) == signature.value
    && st.digest == e.policyContext.bundleDigest
    && (e.deviceId in st.marks ==> e.seqNo > st.marks[e.deviceId])
    && !Holds(EvictExpired(st.order, clock.atGuard - cfg.guardMaxAge), NonceKey(e.deviceId, e.nonce))
  }

  lemma AcceptsIff(cfg: Config, st: State, raw: Raw, clock: Readings)
    ensures VerifyStep(cfg, st, raw, clock).1.Ok? <==> Accepts(cfg, st, raw, clock)
  {
    hide FreshnessFault, SignatureCheck, EvictExpired, Holds, Domain.SignatureOf, Base64Url.TrimRight, ParseOf;
    if ParseOf(raw).Ok? {
      ParsedNamesABundle(raw);
      SignatureAcceptedIff(cfg, st.keys, ParseOf(raw).value);
    }
  }

  lemma ParsedNamesABundle(raw: Raw)
    requires ParseOf(raw).Ok?
    ensures ParseOf(raw).value.policyContext.bundleDigest != ""
  {
    ParsedIsComplete(raw);
  }

  /** What is returned on success: the parsed envelope, the last reading of the clock, and the digest
      `Digest` computes for the envelope. */
  lemma AcceptedDigest(cfg: Config, st: State, raw: Raw, clock: Readings)
    requires VerifyStep(cfg, st, raw, clock).1.Ok? && cfg.domainPrefix == Domain.DOMAIN_PREFIX
    ensures ParseOf(raw) == Ok(VerifyStep(cfg, st, raw, clock).1.value.env)
    ensures Domain.DigestOf(cfg.crypto, ParseOf(raw).value) == Ok(VerifyStep(cfg, st, raw, clock).1.value.digest)
    ensures VerifyStep(cfg, st, raw, clock).1.value.verifiedAt == clock.atEnd
  {
    AcceptedResult(cfg, st, raw, clock);
    hide *;
    CheckedDigest(cfg, st.keys, ParseOf(raw).value);
  }

  lemma AcceptedResult(cfg: Config, st: State, raw: Raw, clock: Readings)
    requires VerifyStep(cfg, st, raw, clock).1.Ok?
    ensures ParseOf(raw).Ok? && SignatureCheck(cfg, st.keys, ParseOf(raw).value).Ok?
    ensures VerifyStep(cfg, st, raw, clock).1.value
      == Verified(ParseOf(raw).value, clock.atEnd, SignatureCheck(cfg, st.keys, ParseOf(raw).value).value)
  {
    hide FreshnessFault, BindingFault, SignatureCheck, SeenStep, AdvanceStep;
  }

  lemma CheckedDigest(cfg: Config, keys: map<string, Bytes>, e: Envelope)
    requires SignatureCheck(cfg, keys, e).Ok? && cfg.domainPrefix == Domain.DOMAIN_PREFIX
    ensures Domain.DigestOf(cfg.crypto, e) == SignatureCheck(cfg, keys, e)
  {
    CheckedInput(cfg, keys, e);
    Domain.SignatureIsNotCovered(cfg.domainPrefix, e, "");
    hide SignatureCheck, Domain.SigningInputOf, Domain.Hex;
  }

  lemma CheckedInput(cfg: Config, keys: map<string, Bytes>, e: Envelope)
    requires SignatureCheck(cfg, keys, e).Ok?
    ensures var input := Domain.SigningInputOf(cfg.domainPrefix, e.(signature := ""));
      input.Ok? && SignatureCheck(cfg, keys, e) == Ok(Domain.Hex(cfg.crypto.hash(input.value)))
  {
    hide Domain.SigningInputOf, Base64Url.DecodeSignature, Domain.Hex;
  }

  /** Whatever `Sign` produces under the verifier's prefix with the device's key passes the
      signature check. */
  lemma SignedPasses(cfg: Config, keys: map<string, Bytes>, e: Envelope)
    requires e.deviceId in keys && keys[e.deviceId] != [] && Canonicalisable(e)
    ensures Domain.SignatureOf(cfg.crypto, cfg.domainPrefix, e, keys[e.deviceId]).Ok?
    ensures var signed := e.(signature := Domain.SignatureOf(cfg.crypto, cfg.domainPrefix, e, keys[e.deviceId]).value);
      SignatureCheck(cfg, keys, signed).Ok? && signed.signature != ""
  {
    CanonicalisableIff(e.(signature := ""));
    var s := Domain.SignatureOf(cfg.crypto, cfg.domainPrefix, e, keys[e.deviceId]).value;
    var signed := e.(signature := s);
    assert signed.(signature := "") == e.(signature := "");
    var input := Domain.SigningInputOf(cfg.domainPrefix, e.(signature := "")).value;
    Base64Url.EncodingHasNoPadding(cfg.crypto.mac(keys[e.deviceId], input));
    SignatureAcceptedIff(cfg, keys, signed);
  }

  /** If the MAC does not collide on the two inputs, an accepted envelope that carries a signature
      made for `f` under some prefix is `f` in everything that is signed, under the same prefix. */
  lemma AcceptedIsWhatWasSigned(cfg: Config, keys: map<string, Bytes>, e: Envelope, prefix: Bytes, f: Envelope)
    requires 0 !in prefix && 0 !in cfg.domainPrefix
    requires SignatureCheck(cfg, keys, e).Ok?
    requires Domain.SignatureOf(cfg.crypto, prefix, f, keys[e.deviceId]) == Ok(Base64Url.TrimRight(e.signature))
    requires var key, x, y := keys[e.deviceId], Domain.SigningInputOf(cfg.domainPrefix, e.(signature := "")).value,
      Domain.SigningInputOf(prefix, f.(signature := "")).value;
      x != y ==> cfg.crypto.mac(key, x) != cfg.crypto.mac(key, y)
    ensures prefix == cfg.domainPrefix
    ensures ArgsObject(e.args).Ok? && ArgsObject(f.args).Ok? && Domain.Logical(e) == Domain.Logical(f)
  {
    hide Domain.SigningInputOf, Base64Url.TrimRight, Base64Url.EncodeSignature;
    var key := keys[e.deviceId];
    var u, w := e.(signature := ""), f.(signature := "");
    var x, y := Domain.SigningInputOf(cfg.domainPrefix, u).value, Domain.SigningInputOf(prefix, w).value;
    SignatureAcceptedIff(cfg, keys, e);
    Domain.SigningInputExistsIff(cfg.domainPrefix, u);
    Domain.SigningInputExistsIff(prefix, w);
    assert Base64Url.EncodeSignature(cfg.crypto.mac(key, x)) == Base64Url.EncodeSignature(cfg.crypto.mac(key, y));
    Base64Url.RawRoundTrip(cfg.crypto.mac(key, x));
    Base64Url.RawRoundTrip(cfg.crypto.mac(key, y));
    Domain.SigningInputIff(cfg.domainPrefix, u, prefix, w);
    assert Domain.Logical(u) == Domain.Logical(e) && Domain.Logical(w) == Domain.Logical(f);
  }

  // ---- Which failure is reported --------------------------------------------------------

  function FaultOf<T>(r: Result<T, Error>): Option<Error> {
    if r.Ok? then None else Some(r.error)
  }

  function First(a: Option<Error>, b: Option<Error>): Option<Error> {
    if a.Some? then a else b
  }

  function OrderingFault(marks: map<string, int>, e: Envelope): Option<Error> {
    if e.deviceId in marks && e.seqNo <= marks[e.deviceId] then Some(ErrReplaySeq) else None
  }

  function UniquenessFault(cfg: Config, order: seq<NonceEntry>, e: Envelope, now: int): Option<Error> {
    if Holds(EvictExpired(order, now - cfg.guardMaxAge), NonceKey(e.deviceId, e.nonce)) then Some(ErrReplayNonce) else None
  }

  /** The error reported is that of the first failing check in the documented order, where each check
      is made on its own against the state before the call. */
  lemma FirstFailureIsReported(cfg: Config, st: State, raw: Raw, clock: Readings)
    ensures ParseOf(raw).Err? ==> VerifyStep(cfg, st, raw, clock).1 == Err(ParseOf(raw).error)
    ensures ParseOf(raw).Ok? ==>
      var e := ParseOf(raw).value;
      FaultOf(VerifyStep(cfg, st, raw, clock).1)
      == First(FreshnessFault(cfg, e.notAfter, clock.atCheck),
               First(FaultOf(SignatureCheck(cfg, st.keys, e)),
                     First(BindingFault(st.digest, e),
                           First(OrderingFault(st.marks, e), UniquenessFault(cfg, st.order, e, clock.atGuard)))))
  {
    if ParseOf(raw).Ok? {
      var e := ParseOf(raw).value;
      GuardAnswers(st, e, clock, cfg);
      hide ParseOf, FreshnessFault, SignatureCheck, BindingFault, OrderingFault, UniquenessFault, AdvanceStep, SeenStep;
      if FreshnessFault(cfg, e.notAfter, clock.atCheck).Some? {
      } else if SignatureCheck(cfg, st.keys, e).Err? {
      } else if BindingFault(st.digest, e).Some? {
      } else if OrderingFault(st.marks, e).Some? {
      } else {
        assert FaultOf(SignatureCheck(cfg, st.keys, e)).None?;
      }
    } else {
      hide ParseOf, FreshnessFault, SignatureCheck, BindingFault, AdvanceStep, SeenStep;
    }
  }

  /** The guard's two answers, in terms of the prior state. */
  lemma GuardAnswers(st: State, e: Envelope, clock: Readings, cfg: Config)
    ensures AdvanceStep(st.marks, e.deviceId, e.seqNo).0 == OrderingFault(st.marks, e).None?
    ensures SeenStep(st.order, NonceKey(e.deviceId, e.nonce), clock.atGuard, cfg.guardMaxAge, cfg.guardCapacity).0
      == UniquenessFault(cfg, st.order, e, clock.atGuard).Some?
    ensures OrderingFault(st.marks, e).None? || OrderingFault(st.marks, e) == Some(ErrReplaySeq)
    ensures var u := UniquenessFault(cfg, st.order, e, clock.atGuard); u.None? || u == Some(ErrReplayNonce)
  {
    hide Holds, EvictExpired;
  }

  // ---- What a rejection changes ---------------------------------------------------------

  /** The envelope passes every check before uniqueness. */
  ghost predicate ReachesUniqueness(cfg: Config, st: State, raw: Raw, clock: Readings) {
    && ParseOf(raw).Ok?
    && var e := ParseOf(raw).value;
    && FreshnessFault(cfg, e.notAfter, clock.atCheck).None?
    && SignatureCheck(cfg, st.keys, e).Ok?
    && BindingFault(st.digest, e).None?
    && (e.deviceId in st.marks ==> e.seqNo > st.marks[e.deviceId])
  }

  /** A rejected envelope leaves the state alone exactly when it failed before uniqueness. A
      uniqueness rejection moves that device's mark and drops expired nonces, and nothing else. */
  lemma RejectionEffect(cfg: Config, st: State, raw: Raw, clock: Readings)
    requires VerifyStep(cfg, st, raw, clock).1.Err?
    ensures var (next, verdict) := VerifyStep(cfg, st, raw, clock);
      && (next.marks == st.marks <==> !ReachesUniqueness(cfg, st, raw, clock))
      && (verdict.error == ErrReplayNonce <==> ReachesUniqueness(cfg, st, raw, clock))
      && (!ReachesUniqueness(cfg, st, raw, clock) ==> next == st)
      && (ReachesUniqueness(cfg, st, raw, clock) ==>
        var e := ParseOf(raw).value;
        next == st.(marks := st.marks[e.deviceId := e.seqNo], order := EvictExpired(st.order, clock.atGuard - cfg.guardMaxAge)))
  {
    hide FreshnessFault, SignatureCheck, EvictExpired, Holds;
    EarlyErrors(cfg, st, raw, clock);
    if ReachesUniqueness(cfg, st, raw, clock) {
      var e := ParseOf(raw).value;
      assert st.marks[e.deviceId := e.seqNo][e.deviceId] == e.seqNo;
    }
  }

  /** The checks before uniqueness never report a replayed nonce. */
  lemma EarlyErrors(cfg: Config, st: State, raw: Raw, clock: Readings)
    ensures ParseOf(raw).Err? ==> ParseOf(raw).error != ErrReplayNonce
    ensures ParseOf(raw).Ok? ==>
      var e := ParseOf(raw).value;
      && FreshnessFault(cfg, e.notAfter, clock.atCheck) != Some(ErrReplayNonce)
      && SignatureCheck(cfg, st.keys, e) != Err(ErrReplayNonce)
      && BindingFault(st.digest, e) != Some(ErrReplayNonce)
  {
    if ParseOf(raw).Ok? {
      SignatureErrors(cfg, st.keys, ParseOf(raw).value);
    } else {
      ParseErrors(raw);
    }
  }

  lemma SignatureErrors(cfg: Config, keys: map<string, Bytes>, e: Envelope)
    ensures SignatureCheck(cfg, keys, e).Err? ==>
      SignatureCheck(cfg, keys, e).error in {ErrSignature, ErrSchema, ErrFloatValue, ErrIntegerDomain}
  {
    var u := e.(signature := "");
    SerialiserIsTotal(u);
    BodyErrors(u);
  }

  lemma BodyErrors(e: Envelope)
    ensures BodyOf(e).Err? ==> BodyOf(e).error in {ErrSchema, ErrFloatValue, ErrIntegerDomain}
  {
    if e.args.Decoded? {
      FaultIsReal(e.args.value);
    }
  }

  lemma ParseErrors(raw: Raw)
    requires ParseOf(raw).Err?
    ensures ParseOf(raw).error in {ErrSchema, ErrFloatValue, ErrIntegerDomain}
  {
    if raw.Document? {
      if raw.value.Obj? {
        DecodeErrors(raw.value.members);
      }
      if DecodeEnvelope(raw.value).Ok? {
        var e := DecodeEnvelope(raw.value).value;
        if e.args.Decoded? {
          FaultIsReal(e.args.value);
        }
      }
    }
  }

  // ---- The code that is reported --------------------------------------------------------

  /** The code of a rejection names the check that failed first; no rejection is unnamed. */
  lemma CodeNamesTheCheck(cfg: Config, st: State, raw: Raw, clock: Readings)
    requires VerifyStep(cfg, st, raw, clock).1.Err?
    ensures var code := Code(VerifyStep(cfg, st, raw, clock).1.error);
      && (ParseOf(raw).Err? ==> code == "envelope-malformed")
      && (ParseOf(raw).Ok? ==>
        var e := ParseOf(raw).value;
        var timely := FreshnessFault(cfg, e.notAfter, clock.atCheck).None?;
        var signed := SignatureCheck(cfg, st.keys, e);
        && (code == "envelope-expired" <==> !timely)
        && (code == "envelope-signature-invalid" <==> timely && signed == Err(ErrSignature))
        && (code == "envelope-malformed" <==> timely && signed.Err? && signed != Err(ErrSignature))
        && (code == "policy-bundle-stale" <==> timely && signed.Ok? && st.digest != e.policyContext.bundleDigest)
        && (code == "envelope-replayed" <==> timely && signed.Ok? && st.digest == e.policyContext.bundleDigest))
  {
    if ParseOf(raw).Err? {
      ParseErrors(raw);
      CodesOfErrors(ParseOf(raw).error);
      hide ParseOf, Code;
    } else {
      var e := ParseOf(raw).value;
      SignatureErrors(cfg, st.keys, e);
      FreshnessErrors(cfg, e, clock.atCheck);
      BindingErrors(st.digest, e);
      ParsedIsComplete(raw);
      BindingIff(st.digest, e);
      GuardAnswers(st, e, clock, cfg);
      FirstFailureIsReported(cfg, st, raw, clock);
      CodesOfErrors(VerifyStep(cfg, st, raw, clock).1.error);
      hide ParseOf, VerifyStep, FreshnessFault, SignatureCheck, BindingFault, OrderingFault, UniquenessFault, Code;
    }
  }

  lemma BindingIff(loaded: string, e: Envelope)
    requires e.policyContext.bundleDigest != ""
    ensures BindingFault(loaded, e).None? <==> loaded == e.policyContext.bundleDigest
  {
  }

  lemma BindingErrors(loaded: string, e: Envelope)
    ensures BindingFault(loaded, e).None? || BindingFault(loaded, e) == Some(ErrPolicyStale)
  {
  }

  lemma FreshnessErrors(cfg: Config, e: Envelope, now: int)
    ensures FreshnessFault(cfg, e.notAfter, now).Some? ==>
      FreshnessFault(cfg, e.notAfter, now).value in {ErrExpired, ErrTooFarFuture}
  {
  }

  /** The codes tell the groups of errors apart. */
  lemma CodesOfErrors(e: Error)
    ensures Code(e) == "envelope-malformed" <==> e in {ErrSchema, ErrFloatValue, ErrIntegerDomain}
    ensures Code(e) == "envelope-expired" <==> e in {ErrExpired, ErrTooFarFuture}
    ensures Code(e) == "envelope-signature-invalid" <==> e == ErrSignature
    ensures Code(e) == "envelope-replayed" <==> e in {ErrReplayNonce, ErrReplaySeq}
    ensures Code(e) == "policy-bundle-stale" <==> e == ErrPolicyStale
  {
    CodeLengths();
  }

  lemma CodeLengths()
    ensures |"envelope-malformed"| == 18 && |"envelope-expired"| == 16 && |"envelope-signature-invalid"| == 26
    ensures |"envelope-replayed"| == 17 && |"policy-bundle-stale"| == 19
    ensures "envelope-replayed"[11] != "envelope-rejected"[11]
  {
  }
}
