/** A decoded JSON tree: objects are maps, numbers keep the text the sender wrote. */
module Json {
  import opened Numbers

  datatype Json =
    | Null
    | Bool(b: bool)
    | Str(s: string)
    | Num(text: NumberText)
    | Arr(items: seq<Json>)
    | Obj(members: map<string, Json>)

  /** `p` holds of the number texts at every depth. */
  predicate EveryNumber(v: Json, p: string -> bool) {
    match v
    case Num(t) => p(t)
    case Arr(items) => forall i :: 0 <= i < |items| ==> EveryNumber(items[i], p)
    case Obj(m) => forall k :: k in m ==> EveryNumber(m[k], p)
    case _ => true
  }

  /** No number carries a fraction or an exponent. */
  predicate FloatFree(v: Json) {
    EveryNumber(v, IntegerLiteral)
  }

  /** Every number is an integer within the exact domain. */
  predicate SafeTree(v: Json) {
    EveryNumber(v, SafeInteger)
  }

  lemma {:induction false} EveryNumberWeakens(v: Json, p: string -> bool, q: string -> bool)
    requires EveryNumber(v, p)
    requires forall t :: p(t) ==> q(t)
    ensures EveryNumber(v, q)
  {
    match v
    case Arr(items) =>
      forall i | 0 <= i < |items|
        ensures EveryNumber(items[i], q)
      {
        EveryNumberWeakens(items[i], p, q);
      }
    case Obj(m) =>
      forall k | k in m
        ensures EveryNumber(m[k], q)
      {
        EveryNumberWeakens(m[k], p, q);
      }
    case _ =>
  }

  // ---- Values up to the spelling of numbers ---------------------------------------------

  datatype Value =
    | VNull
    | VBool(b: bool)
    | VStr(s: string)
    | VInt(n: int)
    | VArr(items: seq<Value>)
    | VObj(members: map<string, Value>)

  /** What a float-free tree means, with every number read as an integer. */
  function Meaning(v: Json): Value
    requires FloatFree(v)
  {
    match v
    case Null => VNull
    case Bool(b) => VBool(b)
    case Str(s) => VStr(s)
    case Num(t) => VInt(IntValue(t))
    case Arr(items) => VArr(seq(|items|, i requires 0 <= i < |items| => Meaning(items[i])))
    case Obj(m) => VObj(map k | k in m :: Meaning(m[k]))
  }

  /** The number that writes `n` in decimal. */
  function Integer(n: int): (v: Json)
    ensures v.Num?
  {
    DecimalReads(n);
    IntegerLiteralIsNumber(Decimal(n));
    Num(Decimal(n))
  }

  predicate NotMinusZero(t: string) {
    t != "-0"
  }

  /** Apart from `-0`, trees with the same meaning are the same tree. */
  lemma {:induction false} MeaningInjective(v: Json, w: Json)
    requires FloatFree(v) && FloatFree(w) && Meaning(v) == Meaning(w)
    requires EveryNumber(v, NotMinusZero) && EveryNumber(w, NotMinusZero)
    ensures v == w
  {
    match v
    case Num(t) =>
      LiteralIsDecimal(t);
      LiteralIsDecimal(w.text);
    case Arr(items) =>
      assert |Meaning(v).items| == |items| && |Meaning(w).items| == |w.items|;
      forall i | 0 <= i < |items|
        ensures items[i] == w.items[i]
      {
        assert Meaning(v).items[i] == Meaning(items[i]) && Meaning(w).items[i] == Meaning(w.items[i]);
        MeaningInjective(items[i], w.items[i]);
      }
    case Obj(m) =>
      assert Meaning(v).members.Keys == m.Keys && Meaning(w).members.Keys == w.members.Keys;
      forall k | k in m
        ensures m[k] == w.members[k]
      {
        assert Meaning(v).members[k] == Meaning(m[k]) && Meaning(w).members[k] == Meaning(w.members[k]);
        MeaningInjective(m[k], w.members[k]);
      }
    case _ =>
  }

  // ---- Writing a value ------------------------------------------------------------------

  /** The two spellings of zero. */
  predicate SpellsZero(t: string) {
    t == "0" || t == "-0"
  }

  lemma ZeroSpelled(t: string)
    requires IntegerLiteral(t)
    ensures IntValue(t) == 0 <==> SpellsZero(t)
  {
    assert "-0"[1..] == "0" && "0"[..0] == "";
    LiteralIsDecimal(t);
  }

  lemma SpellingsAreLiterals(zero: string)
    requires SpellsZero(zero)
    ensures IntegerLiteral(zero) && JsonNumber(zero) && IntValue(zero) == 0
  {
    assert "-0"[1..] == "0" && "0"[..0] == "";
    IntegerLiteralIsNumber(zero);
  }

  /** A tree that means `x`: every number in decimal, but zero spelled `zero`. */
  function Written(x: Value, zero: string): Json
    requires SpellsZero(zero)
  {
    match x
    case VNull => Null
    case VBool(b) => Bool(b)
    case VStr(s) => Str(s)
    case VInt(n) =>
      SpellingsAreLiterals(zero);
      if n == 0 then Num(zero) else Integer(n)
    case VArr(items) => Arr(seq(|items|, i requires 0 <= i < |items| => Written(items[i], zero)))
    case VObj(m) => Obj(map k | k in m :: Written(m[k], zero))
  }

  /** It does mean `x`. */
  lemma {:induction false} WrittenMeans(x: Value, zero: string)
    requires SpellsZero(zero)
    ensures FloatFree(Written(x, zero)) && Meaning(Written(x, zero)) == x
  {
    match x
    case VInt(n) =>
      SpellingsAreLiterals(zero);
      DecimalReads(n);
    case VArr(items) =>
      forall i | 0 <= i < |items|
        ensures FloatFree(Written(items[i], zero)) && Meaning(Written(items[i], zero)) == items[i]
      {
        WrittenMeans(items[i], zero);
      }
    case VObj(m) =>
      forall k | k in m
        ensures FloatFree(Written(m[k], zero)) && Meaning(Written(m[k], zero)) == m[k]
      {
        WrittenMeans(m[k], zero);
      }
    case _ =>
  }

  lemma {:induction false} WrittenHasNoMinusZero(x: Value)
    ensures EveryNumber(Written(x, "0"), NotMinusZero)
  {
    match x
    case VInt(n) =>
      DecimalReads(n);
      LiteralIsDecimal(Decimal(n));
    case VArr(items) =>
      forall i | 0 <= i < |items|
        ensures EveryNumber(Written(items[i], "0"), NotMinusZero)
      {
        WrittenHasNoMinusZero(items[i]);
      }
    case VObj(m) =>
      forall k | k in m
        ensures EveryNumber(Written(m[k], "0"), NotMinusZero)
      {
        WrittenHasNoMinusZero(m[k]);
      }
    case _ =>
  }

  /** A tree is the plain writing of its meaning exactly when it holds no `-0`. */
  lemma WrittenIffNoMinusZero(v: Json)
    requires FloatFree(v)
    ensures v == Written(Meaning(v), "0") <==> EveryNumber(v, NotMinusZero)
  {
    var w := Written(Meaning(v), "0");
    WrittenMeans(Meaning(v), "0");
    WrittenHasNoMinusZero(Meaning(v));
    if EveryNumber(v, NotMinusZero) {
      MeaningInjective(v, w);
    }
  }

  /** No number of the value is zero. */
  predicate ZeroFree(x: Value) {
    match x
    case VInt(n) => n != 0
    case VArr(items) => forall i :: 0 <= i < |items| ==> ZeroFree(items[i])
    case VObj(m) => forall k :: k in m ==> ZeroFree(m[k])
    case _ => true
  }

  /** The spelling of zero matters exactly when there is one. */
  lemma {:induction false} ZeroFreeIff(x: Value)
    ensures Written(x, "0") == Written(x, "-0") <==> ZeroFree(x)
  {
    var v, w := Written(x, "0"), Written(x, "-0");
    match x
    case VArr(items) =>
      forall i | 0 <= i < |items|
        ensures v.items[i] == w.items[i] <==> ZeroFree(items[i])
      {
        ZeroFreeIff(items[i]);
      }
    case VObj(m) =>
      forall k | k in m
        ensures v.members[k] == w.members[k] <==> ZeroFree(m[k])
      {
        ZeroFreeIff(m[k]);
      }
      assert v.members.Keys == m.Keys == w.members.Keys;
    case VInt(n) => SpellingsDiffer();
    case _ =>
  }

  lemma SpellingsDiffer()
    ensures "0" != "-0"
  {
    assert |"0"| != |"-0"|;
  }

  /** A tree whose meaning has no zero holds no `-0`. */
  lemma {:induction false} ZeroFreeHasNoMinusZero(v: Json)
    requires FloatFree(v) && ZeroFree(Meaning(v))
    ensures EveryNumber(v, NotMinusZero)
  {
    match v
    case Num(t) => ZeroSpelled(t);
    case Arr(items) =>
      forall i | 0 <= i < |items|
        ensures EveryNumber(items[i], NotMinusZero)
      {
        assert Meaning(v).items[i] == Meaning(items[i]);
        ZeroFreeHasNoMinusZero(items[i]);
      }
    case Obj(m) =>
      forall k | k in m
        ensures EveryNumber(m[k], NotMinusZero)
      {
        assert Meaning(v).members[k] == Meaning(m[k]);
        ZeroFreeHasNoMinusZero(m[k]);
      }
    case _ =>
  }

  /** Writing a safe tree's meaning gives a safe tree. */
  lemma {:induction false} WrittenIsSafe(v: Json, zero: string)
    requires FloatFree(v) && SafeTree(v) && SpellsZero(zero)
    ensures SafeTree(Written(Meaning(v), zero))
  {
    match v
    case Num(t) =>
      SpellingsAreLiterals(zero);
      DecimalReads(IntValue(t));
    case Arr(items) =>
      forall i | 0 <= i < |items|
        ensures SafeTree(Written(Meaning(items[i]), zero))
      {
        WrittenIsSafe(items[i], zero);
      }
    case Obj(m) =>
      forall k | k in m
        ensures SafeTree(Written(Meaning(m[k]), zero))
      {
        WrittenIsSafe(m[k], zero);
      }
    case _ =>
  }
}
