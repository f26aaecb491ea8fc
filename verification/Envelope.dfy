/** The command envelope and its canonical bytes. */
module Envelope {
  import opened Wrappers
  import opened EnvelopeErrors
  import opened Numbers
  import opened Json
  import opened KeyOrder
  import opened KeySort
  import opened Utf8
  import Jcs

  datatype PolicyContext = PolicyContext(bundleDigest: string, decision: string)

  /** The raw `args` bytes, seen through the decoder that reads them with `UseNumber`. */
  datatype RawArgs = Absent | Undecodable | Decoded(value: Json)

  datatype Envelope = Envelope(
    v: string,
    commandId: string,
    deviceId: string,
    operation: string,
    args: RawArgs,
    approvalId: string,
    policyContext: PolicyContext,
    nonce: string,
    seqNo: int64,
    notAfter: int64,
    signature: string)

  // ---- The number walk ------------------------------------------------------------------

  /** The verdict on a single number text, in the order the source tests it. */
  function NumberFault(t: string): Option<Error> {
    if HasFloatChar(t) then Some(ErrFloatValue)
    else
      match ParseInt64(t)
      case None => Some(ErrIntegerDomain)
      case Some(n) => SafeIntegerFault(n)
  }

  /** `requireSafeInteger`. */
  function SafeIntegerFault(n: int): Option<Error> {
    if n > MAX_SAFE_INTEGER || n < -MAX_SAFE_INTEGER then Some(ErrIntegerDomain) else None
  }

  /** The verdict on the first offending number, visiting object keys in byte order. */
  ghost function FirstFault(v: Json): Option<Error>
    decreases v, 1
  {
    match v
    case Num(t) => NumberFault(t)
    case Obj(m) => FirstMemberFault(SortedKeys(ByteOrder, m.Keys), v)
    case Arr(items) => FirstItemFault(items)
    case _ => None
  }

  ghost function FirstMemberFault(keys: seq<string>, v: Json): Option<Error>
    requires v.Obj? && forall k :: k in keys ==> k in v.members
    decreases v, 0, |keys|
  {
    if keys == [] then None
    else
      var first := FirstFault(v.members[keys[0]]);
      if first.Some? then first else FirstMemberFault(keys[1..], v)
  }

  ghost function FirstItemFault(items: seq<Json>): Option<Error>
    decreases items, 0
  {
    if items == [] then None
    else
      var first := FirstFault(items[0]);
      if first.Some? then first else FirstItemFault(items[1..])
  }

  /** `walkNoFloat`, with its two loops. */
  method WalkNoFloat(value: Json) returns (err: Option<Error>)
    ensures err == FirstFault(value)
    decreases value
  {
    err := None;
    match value
    case Num(t) =>
      err := NumberFault(t);
    case Obj(m) =>
      var keys := KeysInOrder(ByteOrder, m.Keys);
      ghost var sorted := keys[..];
      assert forall k :: k in sorted <==> k in Elements(sorted);
      var index := 0;
      while index < keys.Length
        invariant index <= keys.Length && keys[..] == sorted && err.None?
        invariant FirstFault(value) == FirstMemberFault(sorted[index..], value)
      {
        assert sorted[index..][0] == keys[index] && sorted[index..][1..] == sorted[index + 1..];
        assert sorted[index] in sorted;
        err := WalkNoFloat(m[keys[index]]);
        if err.Some? {
          return;
        }
        index := index + 1;
      }
    case Arr(items) =>
      var index := 0;
      while index < |items|
        invariant index <= |items| && err.None?
        invariant FirstFault(value) == FirstItemFault(items[index..])
      {
        assert items[index..][0] == items[index] && items[index..][1..] == items[index + 1..];
        err := WalkNoFloat(items[index]);
        if err.Some? {
          return;
        }
        index := index + 1;
      }
    case _ =>
  }

  lemma NumberFaultIff(t: NumberText)
    ensures NumberFault(t).None? <==> SafeInteger(t)
  {
    IntegerIffNoFloatChar(t);
    if IntegerLiteral(t) {
      ParseOfLiteral(t);
    }
  }

  /** The walk accepts a tree exactly when every number at every depth is an integer literal of
      magnitude at most 2^53 - 1. */
  lemma {:induction false} WalkAcceptsIff(v: Json)
    ensures FirstFault(v).None? <==> SafeTree(v)
    decreases v, 1
  {
    match v
    case Num(t) => NumberFaultIff(t);
    case Obj(m) =>
      var keys := SortedKeys(ByteOrder, m.Keys);
      assert forall k :: k in keys <==> k in Elements(keys);
      MembersAcceptIff(keys, v);
      assert forall k :: k in m <==> k in keys;
    case Arr(items) => ItemsAcceptIff(items);
    case _ =>
  }

  lemma {:induction false} MembersAcceptIff(keys: seq<string>, v: Json)
    requires v.Obj? && forall k :: k in keys ==> k in v.members
    ensures FirstMemberFault(keys, v).None? <==> forall k :: k in keys ==> SafeTree(v.members[k])
    decreases v, 0, |keys|
  {
    if keys != [] {
      WalkAcceptsIff(v.members[keys[0]]);
      MembersAcceptIff(keys[1..], v);
      assert keys == [keys[0]] + keys[1..];
    }
  }

  lemma {:induction false} ItemsAcceptIff(items: seq<Json>)
    ensures FirstItemFault(items).None? <==> forall i :: 0 <= i < |items| ==> SafeTree(items[i])
    decreases items, 0
  {
    if items != [] {
      WalkAcceptsIff(items[0]);
      ItemsAcceptIff(items[1..]);
      assert forall i :: 0 < i < |items| ==> items[i] == items[1..][i - 1];
    }
  }

  /** An integer literal of magnitude at most 2^53 - 1. */
  predicate ExactInteger(t: string) {
    IntegerLiteral(t) && -9007199254740991 <= IntValue(t) <= 9007199254740991
  }

  /** The bound in figures. */
  lemma WalkAcceptsExactIntegers(v: Json)
    ensures FirstFault(v).None? <==> EveryNumber(v, ExactInteger)
  {
    hide FirstFault;
    WalkAcceptsIff(v);
    forall t: string
      ensures SafeInteger(t) <==> ExactInteger(t)
    {
      if IntegerLiteral(t) {
        BoundsInFigures(IntValue(t));
      }
    }
    if EveryNumber(v, SafeInteger) {
      EveryNumberWeakens(v, SafeInteger, ExactInteger);
    }
    if EveryNumber(v, ExactInteger) {
      EveryNumberWeakens(v, ExactInteger, SafeInteger);
    }
  }

  /** The fault of a number is a float if it has a fraction or an exponent, and otherwise an integer
      outside the exact domain. */
  lemma NumberFaultKind(t: NumberText)
    ensures FirstFault(Num(t)) == Some(ErrFloatValue) <==> !IntegerLiteral(t)
    ensures FirstFault(Num(t)) == Some(ErrIntegerDomain) <==> IntegerLiteral(t) && !ExactInteger(t)
    ensures FirstFault(Num(t)).None? <==> ExactInteger(t)
  {
    WalkAcceptsExactIntegers(Num(t));
    IntegerIffNoFloatChar(t);
    NumberFaultIff(t);
    hide HasFloatChar, IntegerLiteral;
  }

  /** The fault of an object is that of the first member at fault in byte order of the keys. */
  lemma ObjectFaultIsFirst(m: map<string, Json>, k: string)
    requires k in m && FirstFault(m[k]).Some?
    requires forall j :: j in m && Less(ByteOrder, j, k) ==> FirstFault(m[j]).None?
    ensures FirstFault(Obj(m)) == FirstFault(m[k])
  {
    var keys := SortedKeys(ByteOrder, m.Keys);
    assert forall j :: j in keys <==> j in Elements(keys);
    hide Less, FirstFault;
    var i :| 0 <= i < |keys| && keys[i] == k;
    MembersBeforeAreSound(keys, Obj(m), i);
    ObjectFault(m);
  }

  lemma ObjectFault(m: map<string, Json>)
    ensures forall k :: k in SortedKeys(ByteOrder, m.Keys) ==> k in m
    ensures FirstFault(Obj(m)) == FirstMemberFault(SortedKeys(ByteOrder, m.Keys), Obj(m))
  {
    var keys := SortedKeys(ByteOrder, m.Keys);
    assert forall j :: j in keys <==> j in Elements(keys);
  }

  lemma {:induction false} MembersBeforeAreSound(keys: seq<string>, v: Json, i: nat)
    requires v.Obj? && (forall k :: k in keys ==> k in v.members) && i < |keys|
    requires forall j :: 0 <= j < i ==> FirstFault(v.members[keys[j]]).None?
    requires FirstFault(v.members[keys[i]]).Some?
    ensures FirstMemberFault(keys, v) == FirstFault(v.members[keys[i]])
    decreases i
  {
    hide FirstFault;
    if i > 0 {
      assert FirstFault(v.members[keys[0]]).None?;
      forall j | 0 <= j < i - 1
        ensures FirstFault(v.members[keys[1..][j]]).None?
      {
        assert keys[1..][j] == keys[j + 1];
      }
      MembersBeforeAreSound(keys[1..], v, i - 1);
    }
  }

  /** The fault of an array is that of the first item at fault. */
  lemma {:induction false} ArrayFaultIsFirst(items: seq<Json>, i: nat)
    requires i < |items| && FirstFault(items[i]).Some?
    requires forall j :: 0 <= j < i ==> FirstFault(items[j]).None?
    ensures FirstFault(Arr(items)) == FirstFault(items[i])
    decreases i
  {
    if i > 0 {
      assert FirstFault(items[0]).None?;
      ArrayFaultIsFirst(items[1..], i - 1);
    }
  }

  predicate HasNoFloatChar(t: string) {
    !HasFloatChar(t)
  }

  /** Without a fraction or exponent, and then within the exact domain. */
  predicate InDomainUnlessFloat(t: string) {
    HasFloatChar(t) || SafeInteger(t)
  }

  /** The kind of fault reported is one the tree really has: a float, or an integer out of domain. */
  lemma {:induction false} FaultIsReal(v: Json)
    ensures FirstFault(v) == Some(ErrFloatValue) ==> !EveryNumber(v, HasNoFloatChar)
    ensures FirstFault(v) == Some(ErrIntegerDomain) ==> !EveryNumber(v, InDomainUnlessFloat)
    ensures FirstFault(v).None? || FirstFault(v) == Some(ErrFloatValue) || FirstFault(v) == Some(ErrIntegerDomain)
    decreases v, 1
  {
    match v
    case Num(t) => NumberFaultIff(t);
    case Obj(m) =>
      var keys := SortedKeys(ByteOrder, m.Keys);
      assert forall k :: k in keys ==> k in Elements(keys);
      var k := MemberFaultIsReal(keys, v);
    case Arr(items) =>
      var i := ItemFaultIsReal(items);
    case _ =>
  }

  lemma {:induction false} MemberFaultIsReal(keys: seq<string>, v: Json) returns (k: string)
    requires v.Obj? && forall k :: k in keys ==> k in v.members
    ensures FirstMemberFault(keys, v).Some? ==> k in keys && FirstFault(v.members[k]) == FirstMemberFault(keys, v)
    ensures FirstMemberFault(keys, v).Some? ==>
      && (FirstMemberFault(keys, v) == Some(ErrFloatValue) ==> !EveryNumber(v.members[k], HasNoFloatChar))
      && (FirstMemberFault(keys, v) == Some(ErrIntegerDomain) ==> !EveryNumber(v.members[k], InDomainUnlessFloat))
      && FirstMemberFault(keys, v).value in {ErrFloatValue, ErrIntegerDomain}
    decreases v, 0, |keys|
  {
    k := "";
    if keys != [] {
      FaultIsReal(v.members[keys[0]]);
      if FirstFault(v.members[keys[0]]).Some? {
        k := keys[0];
      } else {
        k := MemberFaultIsReal(keys[1..], v);
      }
    }
  }

  lemma {:induction false} ItemFaultIsReal(items: seq<Json>) returns (i: nat)
    ensures FirstItemFault(items).Some? ==>
      && i < |items|
      && (FirstItemFault(items) == Some(ErrFloatValue) ==> !EveryNumber(items[i], HasNoFloatChar))
      && (FirstItemFault(items) == Some(ErrIntegerDomain) ==> !EveryNumber(items[i], InDomainUnlessFloat))
      && FirstItemFault(items).value in {ErrFloatValue, ErrIntegerDomain}
    decreases items, 0
  {
    i := 0;
    if items != [] {
      FaultIsReal(items[0]);
      if FirstFault(items[0]).None? {
        i := ItemFaultIsReal(items[1..]);
        i := i + 1;
      }
    }
  }

  lemma SafeTreeIsFloatFree(v: Json)
    requires SafeTree(v)
    ensures FloatFree(v)
  {
    EveryNumberWeakens(v, SafeInteger, IntegerLiteral);
  }

  // ---- The canonical body ---------------------------------------------------------------

  /** `requireNoFloat`. */
  ghost function ArgsFault(args: RawArgs): Option<Error> {
    match args
    case Absent => None
    case Undecodable => Some(ErrSchema)
    case Decoded(v) => FirstFault(v)
  }

  method RequireNoFloat(args: RawArgs) returns (err: Option<Error>)
    ensures err == ArgsFault(args)
  {
    match args
    case Absent => err := None;
    case Undecodable => err := Some(ErrSchema);
    case Decoded(v) => err := WalkNoFloat(v);
  }

  /** The argument object that is canonicalised: an absent one reads as empty. */
  function ArgsObject(args: RawArgs): Result<map<string, Json>, Error> {
    match args
    case Absent => Ok(map[])
    case Undecodable => Err(ErrSchema)
    case Decoded(v) => if v.Obj? then Ok(v.members) else Err(ErrSchema)
  }

  const CANONICAL_MEMBERS: seq<string> := [
    "v", "command_id", "device_id", "operation", "args",
    "approval_id", "policy_context", "nonce", "seq", "not_after"]

  function PolicyObject(p: PolicyContext): Json {
    Obj(map["bundle_digest" := Str(p.bundleDigest), "decision" := Str(p.decision)])
  }

  function BodyMap(e: Envelope, args: map<string, Json>): map<string, Json> {
    map[
      "v" := Str(e.v),
      "command_id" := Str(e.commandId),
      "device_id" := Str(e.deviceId),
      "operation" := Str(e.operation),
      "args" := Obj(args),
      "approval_id" := Str(e.approvalId),
      "policy_context" := PolicyObject(e.policyContext),
      "nonce" := Str(e.nonce),
      "seq" := Integer(e.seqNo),
      "not_after" := Integer(e.notAfter)]
  }

  /** What `canonicalBody` returns: the tree of the envelope without its signature. */
  ghost function BodyOf(e: Envelope): Result<map<string, Json>, Error> {
    var fault := ArgsFault(e.args);
    if fault.Some? then Err(fault.value)
    else if SafeIntegerFault(e.seqNo).Some? then Err(ErrIntegerDomain)
    else if SafeIntegerFault(e.notAfter).Some? then Err(ErrIntegerDomain)
    else
      match ArgsObject(e.args)
      case Err(error) => Err(error)
      case Ok(args) => Ok(BodyMap(e, args))
  }

  /** The body has exactly the ten members the list names, so the source's two checks of that
      cannot fail. */
  lemma BodyHasTheCanonicalMembers(e: Envelope, args: map<string, Json>)
    ensures |BodyMap(e, args)| == |CANONICAL_MEMBERS|
    ensures forall i :: 0 <= i < |CANONICAL_MEMBERS| ==> CANONICAL_MEMBERS[i] in BodyMap(e, args)
  {
    hide PolicyObject, Integer;
    var body := BodyMap(e, args);
    assert body.Keys == {"v", "command_id", "device_id", "operation", "args"}
      + {"approval_id", "policy_context", "nonce", "seq", "not_after"};
    assert forall i :: 0 <= i < |CANONICAL_MEMBERS| ==> CANONICAL_MEMBERS[i] in body.Keys;
    hide *;
    TenMembers();
  }

  lemma TenMembers()
    ensures |{"v", "command_id", "device_id", "operation", "args"}
      + {"approval_id", "policy_context", "nonce", "seq", "not_after"}| == 10
  {
    FiveMembers();
    OtherFiveMembers();
    MembersAreDisjoint();
  }

  lemma FiveMembers()
    ensures |{"v", "command_id", "device_id", "operation", "args"}| == 5
  {
  }

  lemma OtherFiveMembers()
    ensures |{"approval_id", "policy_context", "nonce", "seq", "not_after"}| == 5
  {
  }

  lemma MembersAreDisjoint()
    ensures {"v", "command_id", "device_id", "operation", "args"}
      !! {"approval_id", "policy_context", "nonce", "seq", "not_after"}
  {
  }

  /** `canonicalBody`, with its closing check of the member list. */
  method CanonicalBody(e: Envelope) returns (r: Result<map<string, Json>, Error>)
    ensures r == BodyOf(e)
  {
    hide BodyMap;
    var err := RequireNoFloat(e.args);
    if err.Some? {
      return Err(err.value);
    }
    if SafeIntegerFault(e.seqNo).Some? || SafeIntegerFault(e.notAfter).Some? {
      return Err(ErrIntegerDomain);
    }
    var args := ArgsObject(e.args);
    if args.Err? {
      return Err(args.error);
    }
    var body := BodyMap(e, args.value);
    BodyHasTheCanonicalMembers(e, args.value);
    if |body| != |CANONICAL_MEMBERS| {
      return Err(ErrSchema);
    }
    var index := 0;
    while index < |CANONICAL_MEMBERS| {
      if CANONICAL_MEMBERS[index] !in body {
        return Err(ErrSchema);
      }
      index := index + 1;
    }
    r := Ok(body);
  }

  // ---- Canonical bytes ------------------------------------------------------------------

  ghost function CanonicalBytesOf(e: Envelope): Result<Bytes, Error> {
    match BodyOf(e)
    case Err(error) => Err(error)
    case Ok(body) =>
      match Jcs.Canonical(Obj(body))
      case Err(error) => Err(error)
      case Ok(text) => Ok(Utf8.Encode(text))
  }

  /** `CanonicalBytes`. */
  method CanonicalBytes(e: Envelope) returns (r: Result<Bytes, Error>)
    ensures r == CanonicalBytesOf(e)
  {
    var body := CanonicalBody(e);
    if body.Err? {
      return Err(body.error);
    }
    var text := Jcs.Serialise(Obj(body.value));
    if text.Err? {
      return Err(text.error);
    }
    r := Ok(Utf8.Encode(text.value));
  }

  lemma IntegerIsFloatFree(n: int)
    ensures FloatFree(Integer(n)) && IntValue(Integer(n).text) == n
  {
    DecimalReads(n);
  }

  lemma BodyIsFloatFree(e: Envelope)
    requires BodyOf(e).Ok?
    ensures FloatFree(Obj(BodyOf(e).value))
  {
    var args := ArgsObject(e.args).value;
    if e.args.Decoded? {
      WalkAcceptsIff(e.args.value);
      SafeTreeIsFloatFree(e.args.value);
    }
    assert FloatFree(Obj(args));
    BodyMapIsFloatFree(e, args);
  }

  /** The five kinds of value a body holds. */
  lemma BodyValues(e: Envelope, args: map<string, Json>, k: string)
    requires k in BodyMap(e, args)
    ensures var x := BodyMap(e, args)[k];
      x.Str? || x == Obj(args) || x == PolicyObject(e.policyContext) || x == Integer(e.seqNo) || x == Integer(e.notAfter)
  {
    hide Integer, PolicyObject;
  }

  lemma PolicyIsFloatFree(p: PolicyContext)
    ensures FloatFree(PolicyObject(p))
  {
    assert forall k :: k in PolicyObject(p).members ==> PolicyObject(p).members[k].Str?;
  }

  lemma BodyMapIsFloatFree(e: Envelope, args: map<string, Json>)
    requires FloatFree(Obj(args))
    ensures FloatFree(Obj(BodyMap(e, args)))
  {
    hide BodyMap, Integer, PolicyObject;
    IntegerIsFloatFree(e.seqNo);
    IntegerIsFloatFree(e.notAfter);
    PolicyIsFloatFree(e.policyContext);
    forall k | k in BodyMap(e, args)
      ensures FloatFree(BodyMap(e, args)[k])
    {
      BodyValues(e, args, k);
    }
  }

  /** Every envelope whose body is accepted is serialised: the writer's refusal is unreachable. */
  lemma SerialiserIsTotal(e: Envelope)
    ensures CanonicalBytesOf(e).Ok? <==> BodyOf(e).Ok?
    ensures BodyOf(e).Err? ==> CanonicalBytesOf(e) == Err(BodyOf(e).error)
    ensures BodyOf(e).Ok? ==> CanonicalBytesOf(e) == Ok(Utf8.Encode(Jcs.Print(Obj(BodyOf(e).value))))
  {
    hide BodyOf, FloatFree;
    if BodyOf(e).Ok? {
      BodyIsFloatFree(e);
    }
  }

  /** `args` is absent or an object that holds only safe integers, and both counters are safe. */
  predicate Canonicalisable(e: Envelope) {
    ArgsObject(e.args).Ok? && SafeTree(Obj(ArgsObject(e.args).value)) && Safe(e.seqNo) && Safe(e.notAfter)
  }

  /** Exactly those envelopes have canonical bytes. */
  lemma CanonicalisableIff(e: Envelope)
    ensures CanonicalBytesOf(e).Ok? <==> Canonicalisable(e)
  {
    hide BodyMap;
    SerialiserIsTotal(e);
    if e.args.Decoded? {
      WalkAcceptsIff(e.args.value);
    }
  }
}
