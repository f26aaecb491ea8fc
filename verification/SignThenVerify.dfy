/** The producer and the verifier together: what a sender must do to be accepted, and what a
    replayed nonce does to the state although it is refused. */
module SignThenVerify {
  import opened Wrappers
  import opened EnvelopeErrors
  import opened Numbers
  import opened Json
  import opened Envelope
  import opened Parse
  import opened ReplayGuard
  import opened Verify
  import Base64Url
  import Domain

  /** The document that carries `e` signed with the device's key under the verifier's prefix. */
  ghost function SignedDocument(cfg: Config, st: State, e: Envelope): Raw
    requires Signable(st, e)
  {
    Document(Obj(DocumentOf(Signed(cfg, st, e))), "")
  }

  ghost function Signed(cfg: Config, st: State, e: Envelope): Envelope
    requires Signable(st, e)
  {
    CanonicalisableIff(e.(signature := ""));
    e.(signature := Domain.SignatureOf(cfg.crypto, cfg.domainPrefix, e, st.keys[e.deviceId]).value)
  }

  predicate Signable(st: State, e: Envelope) {
    e.deviceId in st.keys && st.keys[e.deviceId] != [] && Canonicalisable(e)
  }

  /** The envelope has its members, and names the loaded bundle and a number above the mark. */
  predicate InOrder(st: State, e: Envelope) {
    && e.v == Domain.VERSION && e.commandId != "" && e.deviceId != "" && e.operation != ""
    && e.nonce != "" && e.policyContext.bundleDigest != "" && e.seqNo > 0 && e.notAfter > 0
    && st.digest == e.policyContext.bundleDigest
    && (e.deviceId in st.marks ==> e.seqNo > st.marks[e.deviceId])
  }

  /** What the envelope and the state must satisfy besides the signature. */
  ghost predicate Acceptable(cfg: Config, st: State, e: Envelope, clock: Readings) {
    && InOrder(st, e)
    && FreshnessFault(cfg, e.notAfter, clock.atCheck).None?
    && !Holds(EvictExpired(st.order, clock.atGuard - cfg.guardMaxAge), NonceKey(e.deviceId, e.nonce))
  }

  lemma SignedDocumentParses(cfg: Config, st: State, e: Envelope)
    requires Signable(st, e)
    requires e.v == Domain.VERSION && e.commandId != "" && e.deviceId != "" && e.operation != ""
    requires e.nonce != "" && e.policyContext.bundleDigest != "" && e.seqNo > 0 && e.notAfter > 0
    ensures ParseOf(SignedDocument(cfg, st, e)) == Ok(Signed(cfg, st, e))
  {
    SignedPasses(cfg, st.keys, e);
    hide DocumentOf, ParseOf, SignatureCheck, Domain.SignatureOf;
    ParseInvertsDocument(Signed(cfg, st, e));
  }

  lemma SignedIsAuthentic(cfg: Config, st: State, e: Envelope)
    requires Signable(st, e)
    ensures SignatureCheck(cfg, st.keys, Signed(cfg, st, e)).Ok?
  {
    SignedPasses(cfg, st.keys, e);
    hide SignatureCheck, Domain.SignatureOf, Canonicalisable;
  }

  lemma SignatureOfSigned(cfg: Config, st: State, e: Envelope)
    requires Signable(st, e)
    ensures var s := Domain.SignatureOf(cfg.crypto, cfg.domainPrefix, e, st.keys[e.deviceId]);
      && s.Ok?
      && Domain.SignatureOf(cfg.crypto, cfg.domainPrefix, Signed(cfg, st, e), st.keys[e.deviceId]) == s
      && Base64Url.TrimRight(s.value) == s.value
  {
    CanonicalisableIff(e.(signature := ""));
    var s := Domain.SignatureOf(cfg.crypto, cfg.domainPrefix, e, st.keys[e.deviceId]).value;
    assert e.(signature := s).(signature := "") == e.(signature := "");
    var input := Domain.SigningInputOf(cfg.domainPrefix, e.(signature := "")).value;
    Base64Url.EncodingHasNoPadding(cfg.crypto.mac(st.keys[e.deviceId], input));
  }

  /** A signed envelope is accepted exactly when it is acceptable. */
  lemma SignedIsAcceptedIff(cfg: Config, st: State, e: Envelope, clock: Readings)
    requires Signable(st, e)
    ensures VerifyStep(cfg, st, SignedDocument(cfg, st, e), clock).1.Ok? <==> Acceptable(cfg, st, e, clock)
  {
    var raw := SignedDocument(cfg, st, e);
    AcceptsIff(cfg, st, raw, clock);
    SignatureOfSigned(cfg, st, e);
    if Acceptable(cfg, st, e, clock) {
      SignedDocumentParses(cfg, st, e);
    }
    if ParseOf(raw).Ok? {
      ParsedIsComplete(raw);
      SignedParsesToItself(cfg, st, e);
    }
    hide ParseOf, SafeTree, FreshnessFault, EvictExpired, Holds, Domain.SignatureOf, SignedDocument, VerifyStep;
  }

  lemma SignedParsesToItself(cfg: Config, st: State, e: Envelope)
    requires Signable(st, e) && ParseOf(SignedDocument(cfg, st, e)).Ok?
    ensures ParseOf(SignedDocument(cfg, st, e)) == Ok(Signed(cfg, st, e))
  {
    hide DocumentOf, ParseOf, Domain.SignatureOf;
    ParseInvertsDocument(Signed(cfg, st, e));
  }

  // ---- A refused duplicate still moves the mark -----------------------------------------

  /** A recorded nonce is still held as long as it is younger than the guard's age. */
  lemma RecordedIsHeld(order: seq<NonceEntry>, key: string, now: int, later: int, maxAge: int, capacity: int)
    requires capacity > 0 && later - now < maxAge
    requires !SeenStep(order, key, now, maxAge, capacity).0
    ensures Holds(EvictExpired(SeenStep(order, key, now, maxAge, capacity).1, later - maxAge), key)
  {
    RecordedIsLast(order, key, now, maxAge, capacity);
    hide SeenStep;
    LastIsKept(SeenStep(order, key, now, maxAge, capacity).1, later - maxAge);
  }

  lemma RecordedIsLast(order: seq<NonceEntry>, key: string, now: int, maxAge: int, capacity: int)
    requires capacity > 0 && !SeenStep(order, key, now, maxAge, capacity).0
    ensures var next := SeenStep(order, key, now, maxAge, capacity).1;
      next != [] && next[|next| - 1] == NonceEntry(key, now)
  {
    hide EvictExpired, Holds;
  }

  lemma LastIsKept(order: seq<NonceEntry>, cutoff: int)
    requires order != [] && order[|order| - 1].seen > cutoff
    ensures Holds(EvictExpired(order, cutoff), order[|order| - 1].key)
  {
    hide EvictExpired;
    var kept := EvictExpired(order, cutoff);
    assert kept[|kept| - 1] == order[|order| - 1];
  }

  lemma AcceptedState(cfg: Config, st: State, raw: Raw, clock: Readings)
    requires VerifyStep(cfg, st, raw, clock).1.Ok?
    ensures ParseOf(raw).Ok?
    ensures var e, next := ParseOf(raw).value, VerifyStep(cfg, st, raw, clock).0;
      && next.keys == st.keys && next.digest == st.digest && next.marks == st.marks[e.deviceId := e.seqNo]
      && SeenStep(st.order, NonceKey(e.deviceId, e.nonce), clock.atGuard, cfg.guardMaxAge, cfg.guardCapacity)
        == (false, next.order)
  {
    hide FreshnessFault, BindingFault, SignatureCheck, SeenStep, ParseOf;
  }

  /** After an accepted envelope, the same nonce under a higher number is refused as a replay while
      its record is fresh; and yet the device's mark moves to that number. */
  lemma RefusedDuplicateMovesTheMark(cfg: Config, st: State, e: Envelope, clock: Readings, seqNo: int64, later: Readings)
    requires cfg.guardCapacity > 0 && Signable(st, e) && Acceptable(cfg, st, e, clock)
    requires seqNo > e.seqNo && Safe(seqNo)
    requires FreshnessFault(cfg, e.notAfter, later.atCheck).None?
    requires later.atGuard - clock.atGuard < cfg.guardMaxAge
    ensures var mid := VerifyStep(cfg, st, SignedDocument(cfg, st, e), clock).0;
      var dup := e.(seqNo := seqNo);
      && Signable(mid, dup)
      && var (next, verdict) := VerifyStep(cfg, mid, SignedDocument(cfg, mid, dup), later);
      && verdict == Err(ErrReplayNonce)
      && next.marks == mid.marks[e.deviceId := seqNo] && next.marks != mid.marks
  {
    AfterAcceptance(cfg, st, e, clock);
    hide VerifyStep, SignedDocument, SeenStep, EvictExpired, Holds, FreshnessFault, Canonicalisable;
    DuplicateAt(cfg, st, VerifyStep(cfg, st, SignedDocument(cfg, st, e), clock).0, e, clock, seqNo, later);
  }

  /** The refused duplicate at the state `mid` that the acceptance of `e` left. */
  lemma DuplicateAt(cfg: Config, st: State, mid: State, e: Envelope, clock: Readings, seqNo: int64, later: Readings)
    requires cfg.guardCapacity > 0 && Signable(st, e) && Acceptable(cfg, st, e, clock)
    requires seqNo > e.seqNo && Safe(seqNo) && later.atGuard - clock.atGuard < cfg.guardMaxAge
    requires FreshnessFault(cfg, e.notAfter, later.atCheck).None?
    requires mid.keys == st.keys && mid.digest == st.digest && mid.marks == st.marks[e.deviceId := e.seqNo]
    requires SeenStep(st.order, NonceKey(e.deviceId, e.nonce), clock.atGuard, cfg.guardMaxAge, cfg.guardCapacity)
      == (false, mid.order)
    ensures var dup := e.(seqNo := seqNo);
      && Signable(mid, dup)
      && var (next, verdict) := VerifyStep(cfg, mid, SignedDocument(cfg, mid, dup), later);
      && verdict == Err(ErrReplayNonce)
      && next.marks == mid.marks[e.deviceId := seqNo] && next.marks != mid.marks
  {
    hide *;
    var dup := e.(seqNo := seqNo);
    DuplicateIsSound(cfg, st, mid, e, clock, seqNo);
    SignedDocumentParses(cfg, mid, dup);
    SignedIsAuthentic(cfg, mid, dup);
    RecordedIsHeld(st.order, NonceKey(e.deviceId, e.nonce), clock.atGuard, later.atGuard, cfg.guardMaxAge, cfg.guardCapacity);
    DuplicateVerdict(cfg, mid, dup, later);
  }

  lemma DuplicateIsSound(cfg: Config, st: State, mid: State, e: Envelope, clock: Readings, seqNo: int64)
    requires Signable(st, e) && Acceptable(cfg, st, e, clock) && seqNo > e.seqNo && Safe(seqNo)
    requires mid.keys == st.keys && mid.digest == st.digest
    ensures var dup := e.(seqNo := seqNo);
      && Signable(mid, dup) && BindingFault(mid.digest, dup).None?
      && dup.v == Domain.VERSION && dup.commandId != "" && dup.deviceId != "" && dup.operation != ""
      && dup.nonce != "" && dup.policyContext.bundleDigest != "" && dup.seqNo > 0 && dup.notAfter > 0
  {
    RenumberedIsCanonicalisable(e, seqNo);
    hide Canonicalisable, FreshnessFault, EvictExpired, Holds;
  }

  lemma RenumberedIsCanonicalisable(e: Envelope, seqNo: int64)
    requires Canonicalisable(e) && Safe(seqNo)
    ensures Canonicalisable(e.(seqNo := seqNo))
  {
  }

  /** The state an accepted envelope leaves. */
  lemma AfterAcceptance(cfg: Config, st: State, e: Envelope, clock: Readings)
    requires Signable(st, e) && Acceptable(cfg, st, e, clock)
    ensures var mid := VerifyStep(cfg, st, SignedDocument(cfg, st, e), clock).0;
      && mid.keys == st.keys && mid.digest == st.digest && mid.marks == st.marks[e.deviceId := e.seqNo]
      && SeenStep(st.order, NonceKey(e.deviceId, e.nonce), clock.atGuard, cfg.guardMaxAge, cfg.guardCapacity)
        == (false, mid.order)
  {
    SignedIsAcceptedIff(cfg, st, e, clock);
    AcceptedState(cfg, st, SignedDocument(cfg, st, e), clock);
    SignedParsesToItself(cfg, st, e);
    hide VerifyStep, ParseOf, SeenStep, SignedDocument, Acceptable, Signable;
  }

  lemma DuplicateVerdict(cfg: Config, mid: State, dup: Envelope, later: Readings)
    requires Signable(mid, dup)
    requires ParseOf(SignedDocument(cfg, mid, dup)) == Ok(Signed(cfg, mid, dup))
    requires FreshnessFault(cfg, dup.notAfter, later.atCheck).None?
    requires SignatureCheck(cfg, mid.keys, Signed(cfg, mid, dup)).Ok?
    requires BindingFault(mid.digest, dup).None?
    requires dup.deviceId in mid.marks && dup.seqNo > mid.marks[dup.deviceId]
    requires Holds(EvictExpired(mid.order, later.atGuard - cfg.guardMaxAge), NonceKey(dup.deviceId, dup.nonce))
    ensures var (next, verdict) := VerifyStep(cfg, mid, SignedDocument(cfg, mid, dup), later);
      && verdict == Err(ErrReplayNonce)
      && next.marks == mid.marks[dup.deviceId := dup.seqNo] && next.marks != mid.marks
  {
    hide FreshnessFault, SignatureCheck, EvictExpired, Holds, ParseOf, SignedDocument;
    assert mid.marks[dup.deviceId := dup.seqNo][dup.deviceId] == dup.seqNo;
  }
}
