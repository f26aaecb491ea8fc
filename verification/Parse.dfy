/** Check 1 of verification: decoding a document into an envelope and checking its members. */
module Parse {
  import opened Wrappers
  import opened EnvelopeErrors
  import opened Numbers
  import opened Json
  import opened Envelope
  import Domain

  /** What arrives: text that does not begin with a JSON document, or a document and the text after
      it. */
  datatype Raw = Malformed | Document(value: Json, rest: string)

  predicate IsJsonSpace(c: char) {
    c == ' ' || c == '\t' || c == '\r' || c == '\n'
  }

  /** `Decoder.More`: whether, past white space, something other than a closing bracket follows. */
  predicate More(rest: string) {
    rest != "" && if IsJsonSpace(rest[0]) then More(rest[1..]) else rest[0] != '}' && rest[0] != ']'
  }

  const ENVELOPE_MEMBERS: set<string> :=
    {"v", "command_id", "device_id", "operation", "args", "approval_id", "policy_context", "nonce", "seq", "not_after",
     "signature"}

  const POLICY_MEMBERS: set<string> := {"bundle_digest", "decision"}

  // ---- Decoding into the struct ---------------------------------------------------------

  /** A string field: absent and `null` both leave it empty. */
  function StringField(m: map<string, Json>, name: string): Result<string, Error> {
    if name !in m || m[name].Null? then Ok("")
    else if m[name].Str? then Ok(m[name].s)
    else Err(ErrSchema)
  }

  /** An int64 field: absent and `null` both leave it zero. */
  function IntegerField(m: map<string, Json>, name: string): Result<int64, Error> {
    if name !in m || m[name].Null? then Ok(0)
    else if m[name].Num? && ParseInt64(m[name].text).Some? then Ok(ParseInt64(m[name].text).value)
    else Err(ErrSchema)
  }

  function PolicyField(m: map<string, Json>, name: string): Result<PolicyContext, Error> {
    if name !in m || m[name].Null? then Ok(PolicyContext("", ""))
    else if m[name].Obj? && m[name].members.Keys <= POLICY_MEMBERS then
      var bundleDigest :- StringField(m[name].members, "bundle_digest");
      var decision :- StringField(m[name].members, "decision");
      Ok(PolicyContext(bundleDigest, decision))
    else Err(ErrSchema)
  }

  /** Unknown members are refused, at the top and inside `policy_context`. */
  function DecodeMembers(m: map<string, Json>): Result<Envelope, Error> {
    if !(m.Keys <= ENVELOPE_MEMBERS) then Err(ErrSchema)
    else
      var v :- StringField(m, "v");
      var commandId :- StringField(m, "command_id");
      var deviceId :- StringField(m, "device_id");
      var operation :- StringField(m, "operation");
      var approvalId :- StringField(m, "approval_id");
      var policyContext :- PolicyField(m, "policy_context");
      var nonce :- StringField(m, "nonce");
      var seqNo :- IntegerField(m, "seq");
      var notAfter :- IntegerField(m, "not_after");
      var signature :- StringField(m, "signature");
      var args := if "args" in m then Decoded(m["args"]) else Absent;
      Ok(Envelope(v, commandId, deviceId, operation, args, approvalId, policyContext, nonce, seqNo, notAfter, signature))
  }

  const EMPTY_ENVELOPE := Envelope("", "", "", "", Absent, "", PolicyContext("", ""), "", 0, 0, "")

  function DecodeEnvelope(value: Json): Result<Envelope, Error> {
    match value
    case Obj(m) => DecodeMembers(m)
    case Null => Ok(EMPTY_ENVELOPE)
    case _ => Err(ErrSchema)
  }

  // ---- The checks on the decoded envelope -----------------------------------------------

  predicate RequiredStringsPresent(e: Envelope) {
    && e.commandId != "" && e.deviceId != "" && e.operation != ""
    && e.nonce != "" && e.policyContext.bundleDigest != "" && e.signature != ""
  }

  ghost function ParseOf(raw: Raw): Result<Envelope, Error> {
    match raw
    case Malformed => Err(ErrSchema)
    case Document(value, rest) =>
      var e :- DecodeEnvelope(value);
      if More(rest) || e.v != Domain.VERSION || !RequiredStringsPresent(e) || e.seqNo <= 0 || e.notAfter <= 0 then
        Err(ErrSchema)
      else if ArgsFault(e.args).Some? then Err(ArgsFault(e.args).value)
      else Ok(e)
  }

  /** `parse`. */
  method Parse(raw: Raw) returns (r: Result<Envelope, Error>)
    ensures r == ParseOf(raw)
  {
    if raw.Malformed? {
      return Err(ErrSchema);
    }
    var decoded := DecodeEnvelope(raw.value);
    if decoded.Err? {
      return Err(decoded.error);
    }
    var env := decoded.value;
    if More(raw.rest) {
      return Err(ErrSchema);
    }
    if env.v != Domain.VERSION {
      return Err(ErrSchema);
    }
    if !RequiredStringsPresent(env) {
      return Err(ErrSchema);
    }
    if env.seqNo <= 0 || env.notAfter <= 0 {
      return Err(ErrSchema);
    }
    var err := RequireNoFloat(env.args);
    if err.Some? {
      return Err(err.value);
    }
    r := Ok(env);
  }

  // ---- Parsing the document of an envelope ----------------------------------------------

  /** The document a sender writes for an envelope: `args` left out when absent, `signature` when
      empty. */
  function DocumentOf(e: Envelope): map<string, Json>
    requires !e.args.Undecodable?
  {
    var members := map[
      "v" := Str(e.v),
      "command_id" := Str(e.commandId),
      "device_id" := Str(e.deviceId),
      "operation" := Str(e.operation),
      "approval_id" := Str(e.approvalId),
      "policy_context" := PolicyObject(e.policyContext),
      "nonce" := Str(e.nonce),
      "seq" := Integer(e.seqNo),
      "not_after" := Integer(e.notAfter)];
    var withArgs := if e.args.Decoded? then members["args" := e.args.value] else members;
    if e.signature != "" then withArgs["signature" := Str(e.signature)] else withArgs
  }

  /** What an envelope must satisfy to pass check 1. */
  ghost predicate Complete(e: Envelope) {
    && e.v == Domain.VERSION && RequiredStringsPresent(e) && e.seqNo > 0 && e.notAfter > 0
    && (e.args.Absent? || (e.args.Decoded? && SafeTree(e.args.value)))
  }

  lemma PolicyDecodes(m: map<string, Json>, name: string, p: PolicyContext)
    requires name in m && m[name] == PolicyObject(p)
    ensures PolicyField(m, name) == Ok(p)
  {
    var inner := PolicyObject(p).members;
    assert inner["bundle_digest"] == Str(p.bundleDigest) && inner["decision"] == Str(p.decision);
    assert inner.Keys == POLICY_MEMBERS;
  }

  lemma IntegerDecodes(m: map<string, Json>, name: string, n: int64)
    requires name in m && m[name] == Integer(n)
    ensures IntegerField(m, name) == Ok(n)
  {
    DecimalReads(n);
    ParseOfLiteral(Decimal(n));
  }

  lemma DocumentMembers(e: Envelope)
    requires !e.args.Undecodable?
    ensures var m := DocumentOf(e);
      && m.Keys <= ENVELOPE_MEMBERS
      && "v" in m && m["v"] == Str(e.v) && "command_id" in m && m["command_id"] == Str(e.commandId)
      && "device_id" in m && m["device_id"] == Str(e.deviceId) && "operation" in m && m["operation"] == Str(e.operation)
      && "approval_id" in m && m["approval_id"] == Str(e.approvalId) && "nonce" in m && m["nonce"] == Str(e.nonce)
      && "policy_context" in m && m["policy_context"] == PolicyObject(e.policyContext)
      && "seq" in m && m["seq"] == Integer(e.seqNo) && "not_after" in m && m["not_after"] == Integer(e.notAfter)
      && ("args" in m <==> e.args.Decoded?) && (e.args.Decoded? ==> m["args"] == e.args.value)
      && ("signature" in m <==> e.signature != "") && (e.signature != "" ==> m["signature"] == Str(e.signature))
  {
    hide PolicyObject, Integer;
  }

  lemma DocumentDecodes(e: Envelope)
    requires !e.args.Undecodable?
    ensures DecodeMembers(DocumentOf(e)) == Ok(e)
  {
    hide DocumentOf, PolicyObject, Integer, PolicyField, IntegerField;
    var m := DocumentOf(e);
    DocumentMembers(e);
    PolicyDecodes(m, "policy_context", e.policyContext);
    IntegerDecodes(m, "seq", e.seqNo);
    IntegerDecodes(m, "not_after", e.notAfter);
  }

  /** Parsing the document of an envelope gives the envelope back exactly when it is complete. */
  lemma ParseInvertsDocument(e: Envelope)
    requires !e.args.Undecodable?
    ensures ParseOf(Document(Obj(DocumentOf(e)), "")) == Ok(e) <==> Complete(e)
    ensures ParseOf(Document(Obj(DocumentOf(e)), "")).Ok? <==> Complete(e)
  {
    hide DocumentOf, DecodeMembers, SafeTree;
    DocumentDecodes(e);
    if e.args.Decoded? {
      WalkAcceptsIff(e.args.value);
    }
  }

  /** Whatever is parsed is complete, so the guard's own argument checks cannot fail afterwards. */
  lemma ParsedIsComplete(raw: Raw)
    requires ParseOf(raw).Ok?
    ensures Complete(ParseOf(raw).value)
  {
    hide DecodeMembers, SafeTree;
    var e := ParseOf(raw).value;
    if e.args.Decoded? {
      WalkAcceptsIff(e.args.value);
    }
    DecodedArgs(raw.value);
  }

  lemma DecodedArgs(value: Json)
    requires DecodeEnvelope(value).Ok?
    ensures !DecodeEnvelope(value).value.args.Undecodable?
  {
    hide StringField, IntegerField, PolicyField;
  }

  // ---- What a document must say ---------------------------------------------------------

  /** The member is that text; a missing one and a `null` say the empty text. */
  predicate SaysText(m: map<string, Json>, name: string, s: string) {
    (name in m && m[name] == Str(s)) || (s == "" && (name !in m || m[name] == Null))
  }

  /** The member is an integer literal of that value; a missing one and a `null` say zero. */
  predicate SaysInteger(m: map<string, Json>, name: string, n: int) {
    || (name in m && m[name].Num? && IntegerLiteral(m[name].text) && IntValue(m[name].text) == n)
    || (n == 0 && (name !in m || m[name] == Null))
  }

  predicate SaysPolicy(m: map<string, Json>, name: string, p: PolicyContext) {
    || (name in m && m[name].Obj? && m[name].members.Keys <= {"bundle_digest", "decision"}
        && SaysText(m[name].members, "bundle_digest", p.bundleDigest)
        && SaysText(m[name].members, "decision", p.decision))
    || (p == PolicyContext("", "") && (name !in m || m[name] == Null))
  }

  /** The members say the envelope, each under its own name, and there are no others. */
  predicate Says(m: map<string, Json>, e: Envelope) {
    && m.Keys <= {"v", "command_id", "device_id", "operation", "args", "approval_id", "policy_context", "nonce", "seq",
                  "not_after", "signature"}
    && SaysText(m, "v", e.v) && SaysText(m, "command_id", e.commandId) && SaysText(m, "device_id", e.deviceId)
    && SaysText(m, "operation", e.operation) && SaysText(m, "approval_id", e.approvalId)
    && SaysPolicy(m, "policy_context", e.policyContext) && SaysText(m, "nonce", e.nonce)
    && SaysInteger(m, "seq", e.seqNo) && SaysInteger(m, "not_after", e.notAfter)
    && SaysText(m, "signature", e.signature)
    && e.args == if "args" in m then Decoded(m["args"]) else Absent
  }

  lemma StringFieldIff(m: map<string, Json>, name: string, s: string)
    ensures StringField(m, name) == Ok(s) <==> SaysText(m, name, s)
  {
  }

  lemma IntegerFieldIff(m: map<string, Json>, name: string, n: int64)
    ensures IntegerField(m, name) == Ok(n) <==> SaysInteger(m, name, n)
  {
    BoundsInFigures(n);
    if name in m && m[name].Num? {
      ParseInt64Iff(m[name].text, n);
      if ParseInt64(m[name].text).Some? {
        ParseInt64Iff(m[name].text, ParseInt64(m[name].text).value);
      }
      hide ParseInt64, IntegerLiteral, IntValue;
    }
  }

  lemma PolicyFieldIff(m: map<string, Json>, name: string, p: PolicyContext)
    ensures PolicyField(m, name) == Ok(p) <==> SaysPolicy(m, name, p)
  {
    if name in m && m[name].Obj? {
      StringFieldIff(m[name].members, "bundle_digest", p.bundleDigest);
      StringFieldIff(m[name].members, "decision", p.decision);
    }
    hide StringField, SaysText;
  }

  lemma DecodeIff(m: map<string, Json>, e: Envelope)
    ensures DecodeMembers(m) == Ok(e) <==> Says(m, e)
  {
    StringFieldIff(m, "v", e.v);
    StringFieldIff(m, "command_id", e.commandId);
    StringFieldIff(m, "device_id", e.deviceId);
    StringFieldIff(m, "operation", e.operation);
    StringFieldIff(m, "approval_id", e.approvalId);
    PolicyFieldIff(m, "policy_context", e.policyContext);
    StringFieldIff(m, "nonce", e.nonce);
    IntegerFieldIff(m, "seq", e.seqNo);
    IntegerFieldIff(m, "not_after", e.notAfter);
    StringFieldIff(m, "signature", e.signature);
    hide StringField, IntegerField, PolicyField, SaysText, SaysInteger, SaysPolicy;
  }

  /** Version, required texts and positive counters. */
  predicate InShape(e: Envelope) {
    && e.v == "1" && e.commandId != "" && e.deviceId != "" && e.operation != "" && e.nonce != ""
    && e.policyContext.bundleDigest != "" && e.signature != "" && e.seqNo > 0 && e.notAfter > 0
  }

  /** A document parses to an envelope exactly when it is an object whose members say that envelope,
      nothing refused follows, the envelope is in shape, and every number in `args` is an integer of
      magnitude at most 2^53 - 1. */
  lemma ParseIff(value: Json, rest: string, e: Envelope)
    ensures ParseOf(Document(value, rest)) == Ok(e) <==>
      && value.Obj? && Says(value.members, e) && !More(rest) && InShape(e)
      && (e.args.Decoded? ==> EveryNumber(e.args.value, ExactInteger))
  {
    hide DecodeMembers, Says, More, EveryNumber, FirstFault;
    if value.Obj? {
      DecodeIff(value.members, e);
      ArgsAreSaid(value.members, e);
      if e.args.Decoded? {
        WalkAcceptsExactIntegers(e.args.value);
      }
    }
  }

  lemma ArgsAreSaid(m: map<string, Json>, e: Envelope)
    ensures Says(m, e) ==> !e.args.Undecodable?
  {
  }

  /** Text that does not begin with a document is malformed. */
  lemma MalformedIsRefused()
    ensures ParseOf(Malformed) == Err(ErrSchema)
  {
  }

  /** A document that does not parse is malformed, unless only the numbers in `args` are at fault;
      then their first fault is reported. */
  lemma ParseErrorIs(value: Json, rest: string)
    requires ParseOf(Document(value, rest)).Err? && ParseOf(Document(value, rest)) != Err(ErrSchema)
    ensures exists e ::
      && value.Obj? && Says(value.members, e) && !More(rest) && InShape(e)
      && e.args.Decoded? && FirstFault(e.args.value) == Some(ParseOf(Document(value, rest)).error)
  {
    hide DecodeMembers, Says, More, FirstFault;
    if value.Obj? {
      DecodeErrors(value.members);
      var e := DecodeMembers(value.members).value;
      DecodeIff(value.members, e);
    }
  }

  // ---- Members outside the closed set ---------------------------------------------------

  /** Case folding as far as it can meet an ASCII letter: besides the lower-case letters only the long
      s and the Kelvin sign fold to one. */
  function FoldChar(c: char): char {
    if 'a' <= c <= 'z' then (c as int - 'a' as int + 'A' as int) as char
    else if c as int == 0x17F then 'S'
    else if c as int == 0x212A then 'K'
    else c
  }

  function Fold(s: string): string {
    seq(|s|, i requires 0 <= i < |s| => FoldChar(s[i]))
  }

  /** Two characters fold alike when they are the same letter in either case, or one of the two pairs
      with a third form. */
  lemma FoldAlikeIff(c: char, d: char)
    ensures FoldChar(c) == FoldChar(d) <==>
      || c == d
      || ('A' <= c <= 'Z' && d as int == c as int + 32) || ('A' <= d <= 'Z' && c as int == d as int + 32)
      || {c, d} <= {'S', 's', '\U{17F}'} || {c, d} <= {'K', 'k', '\U{212A}'}
  {
    assert c in {c, d} && d in {c, d};
  }

  /** The decoder matches member names without regard to case. */
  predicate Matches(name: string, members: set<string>) {
    exists k :: k in members && Fold(name) == Fold(k)
  }

  /** A member that matches none of the closed set makes the document malformed, whatever else it
      holds. */
  lemma UnknownMemberIsRefused(m: map<string, Json>, name: string, rest: string)
    requires name in m && !Matches(name, ENVELOPE_MEMBERS)
    ensures ParseOf(Document(Obj(m), rest)) == Err(ErrSchema)
  {
    assert name in ENVELOPE_MEMBERS ==> Matches(name, ENVELOPE_MEMBERS);
  }

  /** The same holds inside `policy_context`. */
  lemma UnknownPolicyMemberIsRefused(m: map<string, Json>, p: map<string, Json>, name: string, rest: string)
    requires "policy_context" in m && m["policy_context"] == Obj(p)
    requires name in p && !Matches(name, POLICY_MEMBERS)
    ensures ParseOf(Document(Obj(m), rest)) == Err(ErrSchema)
  {
    assert name in POLICY_MEMBERS ==> Matches(name, POLICY_MEMBERS);
    assert PolicyField(m, "policy_context").Err?;
    DecodeErrors(m);
    hide *;
    assert DecodeMembers(m) == Err(ErrSchema);
    DecodeFails(m, rest);
  }

  /** Decoding fails only as a schema error, and whenever the policy context cannot be decoded. */
  lemma DecodeErrors(m: map<string, Json>)
    ensures DecodeMembers(m).Err? ==> DecodeMembers(m).error == ErrSchema
    ensures PolicyField(m, "policy_context").Err? ==> DecodeMembers(m).Err?
  {
  }

  lemma DecodeFails(m: map<string, Json>, rest: string)
    requires DecodeMembers(m) == Err(ErrSchema)
    ensures ParseOf(Document(Obj(m), rest)) == Err(ErrSchema)
  {
    hide DecodeMembers;
  }

  // ---- What may follow the document -----------------------------------------------------

  /** Text after the document makes it malformed exactly when, past white space, it does not begin
      with a closing bracket; otherwise it is ignored. */
  lemma RestMattersIff(value: Json, space: string, rest: string)
    requires forall i :: 0 <= i < |space| ==> space[i] in {' ', '\t', '\r', '\n'}
    requires rest != "" && rest[0] !in {' ', '\t', '\r', '\n'}
    requires ParseOf(Document(value, "")).Ok?
    ensures ParseOf(Document(value, space)) == ParseOf(Document(value, ""))
    ensures ParseOf(Document(value, space + rest))
      == if rest[0] == '}' || rest[0] == ']' then ParseOf(Document(value, "")) else Err(ErrSchema)
  {
    hide DecodeEnvelope, ArgsFault;
    assert forall i :: 0 <= i < |space| ==> IsJsonSpace(space[i]);
    MorePastSpace(space, "");
    assert space + "" == space;
    MorePastSpace(space, rest);
  }

  lemma {:induction false} MorePastSpace(space: string, rest: string)
    requires forall i :: 0 <= i < |space| ==> IsJsonSpace(space[i])
    ensures More(space + rest) == More(rest)
  {
    if space == "" {
      assert space + rest == rest;
    } else {
      MorePastSpace(space[1..], rest);
      assert (space + rest)[1..] == space[1..] + rest;
    }
  }
}
