/** Domain separation: the bytes a signature covers, and what they determine. */
module Domain {
  import opened Wrappers
  import opened EnvelopeErrors
  import opened Numbers
  import opened Json
  import opened Utf8
  import opened Envelope
  import Base64Url
  import CanonicalReader
  import Jcs

  const VERSION := "1"

  const DOMAIN_PREFIX: Bytes := Utf8.Encode("forgeops-envelope-v1")
  const APPROVAL_DOMAIN_PREFIX: Bytes := Utf8.Encode("forgeops-approval-v1")

  lemma PrefixesHaveNoZero()
    ensures 0 !in DOMAIN_PREFIX && 0 !in APPROVAL_DOMAIN_PREFIX
    ensures DOMAIN_PREFIX != APPROVAL_DOMAIN_PREFIX
  {
    hide Utf8.Encode;
    ZeroOnlyFromNul("forgeops-envelope-v1");
    ZeroOnlyFromNul("forgeops-approval-v1");
    assert "forgeops-envelope-v1"[9] != "forgeops-approval-v1"[9];
    if DOMAIN_PREFIX == APPROVAL_DOMAIN_PREFIX {
      Utf8.Injective("forgeops-envelope-v1", "forgeops-approval-v1");
    }
  }

  ghost function SigningInputOf(prefix: Bytes, e: Envelope): Result<Bytes, Error> {
    match CanonicalBytesOf(e)
    case Err(error) => Err(error)
    case Ok(canonical) => Ok(prefix + [0] + canonical)
  }

  /** `SigningInput`: the prefix, a zero byte, the canonical bytes. */
  method SigningInput(prefix: Bytes, e: Envelope) returns (r: Result<Bytes, Error>)
    ensures r == SigningInputOf(prefix, e)
  {
    hide CanonicalBytesOf;
    var canonical := CanonicalBytes(e);
    if canonical.Err? {
      return Err(canonical.error);
    }
    var out: Bytes := [];
    out := out + prefix;
    out := out + [0];
    out := out + canonical.value;
    assert [] + prefix == prefix;
    r := Ok(out);
  }

  /** The envelope as the signature sees it: no signature, and absent `args` read as empty. */
  ghost function Logical(e: Envelope): Envelope
    requires ArgsObject(e.args).Ok?
  {
    e.(args := Decoded(Obj(ArgsObject(e.args).value)), signature := "")
  }

  // ---- Joint injectivity ----------------------------------------------------------------

  lemma {:induction false} SplitAtZero(p: Bytes, x: Bytes, q: Bytes, y: Bytes)
    requires 0 !in p && 0 !in q && p + [0] + x == q + [0] + y
    ensures p == q && x == y
  {
    var s := p + [0] + x;
    assert s[|p|] == 0 && s[|q|] == 0;
    assert forall i :: 0 <= i < |p| ==> s[i] == p[i];
    assert forall i :: 0 <= i < |q| ==> s[i] == q[i];
    assert |p| == |q|;
    assert p == s[..|p|] && q == s[..|p|];
    assert x == s[|p| + 1..] && y == s[|p| + 1..];
  }

  lemma IntegerInjective(m: int, n: int)
    requires Integer(m) == Integer(n)
    ensures m == n
  {
    DecimalReads(m);
    DecimalReads(n);
  }

  lemma BodyMapMembers(e: Envelope, args: map<string, Json>)
    ensures var b := BodyMap(e, args);
      && CanonicalMembersIn(b)
      && b["v"] == Str(e.v) && b["command_id"] == Str(e.commandId) && b["device_id"] == Str(e.deviceId)
      && b["operation"] == Str(e.operation) && b["args"] == Obj(args) && b["approval_id"] == Str(e.approvalId)
      && b["nonce"] == Str(e.nonce) && b["seq"] == Integer(e.seqNo) && b["not_after"] == Integer(e.notAfter)
      && b["policy_context"] == PolicyObject(e.policyContext)
  {
    hide PolicyObject, Integer;
  }

  predicate CanonicalMembersIn(b: map<string, Json>) {
    && "v" in b && "command_id" in b && "device_id" in b && "operation" in b && "args" in b
    && "approval_id" in b && "policy_context" in b && "nonce" in b && "seq" in b && "not_after" in b
  }

  lemma PolicyObjectInjective(p: PolicyContext, q: PolicyContext)
    requires PolicyObject(p) == PolicyObject(q)
    ensures p == q
  {
    var m, n := PolicyObject(p).members, PolicyObject(q).members;
    assert m["bundle_digest"] == Str(p.bundleDigest) && n["bundle_digest"] == Str(q.bundleDigest);
    assert m["decision"] == Str(p.decision) && n["decision"] == Str(q.decision);
  }

  lemma BodyMapInjective(e: Envelope, a: map<string, Json>, f: Envelope, b: map<string, Json>)
    requires BodyMap(e, a) == BodyMap(f, b)
    ensures a == b && e.(args := Absent, signature := "") == f.(args := Absent, signature := "")
  {
    hide BodyMap, Integer, PolicyObject;
    BodyMapMembers(e, a);
    BodyMapMembers(f, b);
    IntegerInjective(e.seqNo, f.seqNo);
    IntegerInjective(e.notAfter, f.notAfter);
    PolicyObjectInjective(e.policyContext, f.policyContext);
  }

  /** Canonical bytes determine the logical envelope and nothing else. */
  lemma CanonicalBytesIff(e: Envelope, f: Envelope)
    requires Canonicalisable(e) && Canonicalisable(f)
    ensures CanonicalBytesOf(e) == CanonicalBytesOf(f) <==> Logical(e) == Logical(f)
  {
    CanonicalisableIff(e);
    CanonicalisableIff(f);
    hide BodyMap, Jcs.Print, Utf8.Encode;
    SerialiserIsTotal(e);
    SerialiserIsTotal(f);
    var x, y := BodyOf(e).value, BodyOf(f).value;
    if CanonicalBytesOf(e) == CanonicalBytesOf(f) {
      Utf8.Injective(Jcs.Print(Obj(x)), Jcs.Print(Obj(y)));
      BodyIsFloatFree(e);
      BodyIsFloatFree(f);
      CanonicalReader.CanonicalInjective(Obj(x), Obj(y));
      BodyMapInjective(e, ArgsObject(e.args).value, f, ArgsObject(f.args).value);
    }
    if Logical(e) == Logical(f) {
      SameBody(e, f);
    }
  }

  lemma SameBody(e: Envelope, f: Envelope)
    requires BodyOf(e).Ok? && BodyOf(f).Ok? && Logical(e) == Logical(f)
    ensures BodyOf(e) == BodyOf(f)
  {
  }

  // ---- Minus zero -----------------------------------------------------------------------

  /** The envelope with its argument numbers written out plainly. */
  function Plain(e: Envelope): Envelope
    requires Canonicalisable(e)
  {
    if !e.args.Decoded? then e
    else
      SafeTreeIsFloatFree(e.args.value);
      e.(args := Decoded(Written(Meaning(e.args.value), "0")))
  }

  predicate ArgsHoldNoMinusZero(e: Envelope) {
    e.args.Decoded? ==> EveryNumber(e.args.value, NotMinusZero)
  }

  lemma PlainIsCanonicalisable(e: Envelope)
    requires Canonicalisable(e)
    ensures Canonicalisable(Plain(e))
  {
    hide Meaning;
    if e.args.Decoded? {
      SafeTreeIsFloatFree(e.args.value);
      WrittenMeans(Meaning(e.args.value), "0");
      WrittenIsSafe(e.args.value, "0");
      WrittenObject(e.args.value);
    }
  }

  lemma WrittenObject(v: Json)
    requires v.Obj? && FloatFree(v)
    ensures Written(Meaning(v), "0").Obj?
  {
  }

  /** Rewriting the numbers of an accepted envelope plainly changes no value, is accepted as well, and
      keeps the canonical bytes exactly when `args` holds no `-0`. */
  lemma MinusZeroChangesTheBytesIff(e: Envelope)
    requires Canonicalisable(e)
    ensures Canonicalisable(Plain(e)) && Plain(e).(args := Absent) == e.(args := Absent)
    ensures e.args.Decoded? ==>
      && FloatFree(e.args.value) && FloatFree(Plain(e).args.value)
      && Meaning(Plain(e).args.value) == Meaning(e.args.value)
    ensures CanonicalBytesOf(Plain(e)) == CanonicalBytesOf(e) <==> ArgsHoldNoMinusZero(e)
  {
    PlainIsCanonicalisable(e);
    CanonicalBytesIff(Plain(e), e);
    hide CanonicalBytesOf, Meaning, Written;
    if e.args.Decoded? {
      SafeTreeIsFloatFree(e.args.value);
      WrittenMeans(Meaning(e.args.value), "0");
      WrittenIffNoMinusZero(e.args.value);
    }
  }

  /** The argument object `{"n":0}`, with its zero spelled `zero`. */
  function OneZero(zero: string): Json
    requires SpellsZero(zero)
  {
    SpellingsAreLiterals(zero);
    Obj(map["n" := Num(zero)])
  }

  lemma OneZeroMeans(zero: string)
    requires SpellsZero(zero)
    ensures FloatFree(OneZero(zero)) && SafeTree(OneZero(zero))
    ensures Meaning(OneZero(zero)) == VObj(map["n" := VInt(0)])
  {
    SpellingsAreLiterals(zero);
    var v := OneZero(zero);
    assert v.members["n"] == Num(zero) && Meaning(Num(zero)) == VInt(0);
    assert SafeTree(Num(zero)) && FloatFree(Num(zero));
  }

  lemma OneZeroDiffers()
    ensures OneZero("0") != OneZero("-0")
  {
    SpellingsDiffer();
    assert OneZero("0").members["n"] != OneZero("-0").members["n"];
  }

  /** The concrete case: whatever accepted envelope one starts from, the arguments `{"n":0}` and
      `{"n":-0}` are both accepted, mean the same and give different bytes. */
  lemma MinusZeroKeepsItsSpelling(e: Envelope)
    requires Canonicalisable(e)
    ensures FloatFree(OneZero("0")) && FloatFree(OneZero("-0")) && Meaning(OneZero("0")) == Meaning(OneZero("-0"))
    ensures var f, g := e.(args := Decoded(OneZero("0"))), e.(args := Decoded(OneZero("-0")));
      && Canonicalisable(f) && Canonicalisable(g)
      && CanonicalBytesOf(f).Ok? && CanonicalBytesOf(g).Ok? && CanonicalBytesOf(f) != CanonicalBytesOf(g)
  {
    var f, g := e.(args := Decoded(OneZero("0"))), e.(args := Decoded(OneZero("-0")));
    OneZeroMeans("0");
    OneZeroMeans("-0");
    OneZeroDiffers();
    assert Obj(OneZero("0").members) == OneZero("0") && Obj(OneZero("-0").members) == OneZero("-0");
    hide CanonicalBytesOf, Meaning, EveryNumber, OneZero;
    CanonicalisableIff(f);
    CanonicalisableIff(g);
    CanonicalBytesIff(f, g);
  }

  // ---- Domain separation ----------------------------------------------------------------

  lemma CanonicalBytesHaveNoZero(e: Envelope)
    requires Canonicalisable(e)
    ensures CanonicalBytesOf(e).Ok? && 0 !in CanonicalBytesOf(e).value
  {
    CanonicalisableIff(e);
    hide BodyOf;
    SerialiserIsTotal(e);
    BodyIsFloatFree(e);
    var text := Jcs.Print(Obj(BodyOf(e).value));
    CanonicalReader.NoNulPrint(Obj(BodyOf(e).value));
    ZeroOnlyFromNul(text);
  }

  lemma SigningInputExistsIff(p: Bytes, e: Envelope)
    ensures SigningInputOf(p, e).Ok? <==> Canonicalisable(e)
  {
    CanonicalisableIff(e);
    hide CanonicalBytesOf;
  }

  /** Under prefixes without a zero byte, equal signing inputs mean equal prefixes and equal
      logical envelopes, and conversely. */
  lemma SigningInputIff(p: Bytes, e: Envelope, q: Bytes, f: Envelope)
    requires 0 !in p && 0 !in q
    requires Canonicalisable(e) && Canonicalisable(f)
    ensures SigningInputOf(p, e).Ok? && SigningInputOf(q, f).Ok?
    ensures SigningInputOf(p, e) == SigningInputOf(q, f) <==> p == q && Logical(e) == Logical(f)
  {
    CanonicalisableIff(e);
    CanonicalisableIff(f);
    hide CanonicalBytesOf, ArgsObject;
    CanonicalBytesIff(e, f);
    var x, y := CanonicalBytesOf(e).value, CanonicalBytesOf(f).value;
    if p + [0] + x == q + [0] + y {
      SplitAtZero(p, x, q, y);
    }
  }

  /** No envelope input is ever an approval input. */
  lemma DomainsAreSeparate(e: Envelope, f: Envelope)
    requires Canonicalisable(e) && Canonicalisable(f)
    ensures SigningInputOf(DOMAIN_PREFIX, e) != SigningInputOf(APPROVAL_DOMAIN_PREFIX, f)
  {
    PrefixesHaveNoZero();
    SigningInputIff(DOMAIN_PREFIX, e, APPROVAL_DOMAIN_PREFIX, f);
  }

  /** The zero byte a signing input is split at is its first. */
  lemma FirstZeroEndsThePrefix(p: Bytes, e: Envelope, i: nat)
    requires Canonicalisable(e) && 0 !in p
    ensures SigningInputOf(p, e).Ok?
    ensures i < |SigningInputOf(p, e).value| ==> (SigningInputOf(p, e).value[i] == 0 <==> i == |p|)
  {
    CanonicalBytesHaveNoZero(e);
  }

  // ---- Signing --------------------------------------------------------------------------

  type Tag = b: Bytes | |b| == 32 witness seq(32, _ => 0)

  /** HMAC-SHA256 and SHA-256, left uninterpreted. */
  datatype Crypto = Crypto(mac: (Bytes, Bytes) -> Tag, hash: Bytes -> Bytes)

  ghost function SignatureOf(c: Crypto, prefix: Bytes, e: Envelope, key: Bytes): Result<string, Error> {
    match SigningInputOf(prefix, e.(signature := ""))
    case Err(error) => Err(error)
    case Ok(input) => Ok(Base64Url.EncodeSignature(c.mac(key, input)))
  }

  /** `Sign`. */
  method Sign(c: Crypto, prefix: Bytes, e: Envelope, key: Bytes) returns (r: Result<string, Error>)
    ensures r == SignatureOf(c, prefix, e, key)
  {
    var unsigned := e.(signature := "");
    var input := SigningInput(prefix, unsigned);
    if input.Err? {
      return Err(input.error);
    }
    r := Ok(Base64Url.EncodeSignature(c.mac(key, input.value)));
  }

  function Hex(b: Bytes): string {
    if b == [] then "" else [Jcs.HexDigit(b[0] / 16), Jcs.HexDigit(b[0] % 16)] + Hex(b[1..])
  }

  /** Every byte is written as its two hexadecimal digits, the high one first. */
  lemma {:induction false} HexDenotes(b: Bytes, i: nat)
    requires i < |b|
    ensures |Hex(b)| == 2 * |b|
    ensures Jcs.Denotes(Hex(b)[2 * i], b[i] / 16) && Jcs.Denotes(Hex(b)[2 * i + 1], b[i] % 16)
  {
    hide Jcs.HexDigit, Jcs.Denotes;
    Jcs.HexDigitDenotes(b[0] / 16);
    Jcs.HexDigitDenotes(b[0] % 16);
    if i > 0 {
      HexDenotes(b[1..], i - 1);
      assert Hex(b)[2 * i] == Hex(b[1..])[2 * (i - 1)] && Hex(b)[2 * i + 1] == Hex(b[1..])[2 * (i - 1) + 1];
    } else {
      HexLength(b[1..]);
    }
  }

  lemma {:induction false} HexLength(b: Bytes)
    ensures |Hex(b)| == 2 * |b|
  {
    if b != [] {
      HexLength(b[1..]);
    }
  }

  function UnhexDigit(c: char): (r: Option<int>)
    ensures r.Some? ==> 0 <= r.value < 16
  {
    if '0' <= c <= '9' then Some(c as int - '0' as int)
    else if 'a' <= c <= 'f' then Some(c as int - 'a' as int + 10)
    else None
  }

  /** Reads pairs of hexadecimal digits back as bytes. */
  function Unhex(s: string): Option<Bytes> {
    if s == "" then Some([])
    else if |s| == 1 then None
    else
      match (UnhexDigit(s[0]), UnhexDigit(s[1]), Unhex(s[2..]))
      case (Some(high), Some(low), Some(rest)) => Some([high * 16 + low] + rest)
      case _ => None
  }

  /** Reading the hexadecimal text of bytes gives the bytes. */
  lemma {:induction false} HexRoundTrip(b: Bytes)
    ensures Unhex(Hex(b)) == Some(b)
  {
    if b != [] {
      HexRoundTrip(b[1..]);
      assert Hex(b)[2..] == Hex(b[1..]);
      assert b == [b[0]] + b[1..];
    }
  }

  ghost function DigestOf(c: Crypto, e: Envelope): Result<string, Error> {
    match SigningInputOf(DOMAIN_PREFIX, e)
    case Err(error) => Err(error)
    case Ok(input) => Ok(Hex(c.hash(input)))
  }

  /** `Digest`. */
  method Digest(c: Crypto, e: Envelope) returns (r: Result<string, Error>)
    ensures r == DigestOf(c, e)
  {
    var input := SigningInput(DOMAIN_PREFIX, e);
    if input.Err? {
      return Err(input.error);
    }
    r := Ok(Hex(c.hash(input.value)));
  }

  /** The signature member is never covered: the signing input, the signature and the digest do not
      depend on it. */
  lemma SignatureIsNotCovered(prefix: Bytes, e: Envelope, s: string)
    ensures SigningInputOf(prefix, e.(signature := s)) == SigningInputOf(prefix, e)
    ensures forall c: Crypto, key: Bytes ::
      SignatureOf(c, prefix, e.(signature := s), key) == SignatureOf(c, prefix, e, key)
    ensures forall c: Crypto :: DigestOf(c, e.(signature := s)) == DigestOf(c, e)
  {
    BytesIgnoreTheSignature(e, s);
    hide CanonicalBytesOf;
    assert e.(signature := s).(signature := "") == e.(signature := "");
  }

  lemma BytesIgnoreTheSignature(e: Envelope, s: string)
    ensures CanonicalBytesOf(e.(signature := s)) == CanonicalBytesOf(e)
  {
    assert BodyOf(e.(signature := s)) == BodyOf(e);
  }
}
