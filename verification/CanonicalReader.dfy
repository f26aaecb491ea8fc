/** A reader for canonical text. It accepts a text exactly when the writer produces it, and then
    recovers the tree that was written. */
module CanonicalReader {
  import opened Wrappers
  import opened Numbers
  import opened Json
  import opened KeyOrder
  import opened Jcs

  // ---- Strings --------------------------------------------------------------------------

  function HexValue(c: char): Option<nat> {
    if '0' <= c <= '9' then Some(c as int - '0' as int)
    else if 'a' <= c <= 'f' then Some(c as int - 'a' as int + 10)
    else None
  }

  predicate HasShortEscape(v: int) {
    v == 8 || v == 9 || v == 10 || v == 12 || v == 13
  }

  /** The escape for a control character without a short form: backslash, `u00`, two hex digits. */
  function ReadHexEscape(t: string): (r: Option<(char, string)>)
    ensures r.Some? ==> |r.value.1| < |t|
  {
    if |t| < 6 || t[2] != '0' || t[3] != '0' then None
    else
      match (HexValue(t[4]), HexValue(t[5]))
      case (Some(a), Some(b)) =>
        var v := 16 * a + b;
        if v < 0x20 && !HasShortEscape(v) then Some((v as char, t[6..])) else None
      case _ => None
  }

  /** One character of a string body, escaped or not; the closing quote is not a character. */
  function ReadChar(t: string): (r: Option<(char, string)>)
    ensures r.Some? ==> |r.value.1| < |t|
  {
    if t == "" || t[0] == '"' || t[0] as int < 0x20 then None
    else if t[0] != '\\' then Some((t[0], t[1..]))
    else if |t| < 2 then None
    else if t[1] == '"' || t[1] == '\\' then Some((t[1], t[2..]))
    else if t[1] == 'b' then Some((8 as char, t[2..]))
    else if t[1] == 'f' then Some((12 as char, t[2..]))
    else if t[1] == 'n' then Some(('\n', t[2..]))
    else if t[1] == 'r' then Some(('\r', t[2..]))
    else if t[1] == 't' then Some(('\t', t[2..]))
    else if t[1] == 'u' then ReadHexEscape(t)
    else None
  }

  /** A string body and its closing quote. */
  function ReadBody(t: string): (r: Option<(string, string)>)
    ensures r.Some? ==> |r.value.1| < |t|
  {
    if t != "" && t[0] == '"' then Some(("", t[1..]))
    else
      match ReadChar(t)
      case None => None
      case Some((c, more)) =>
        match ReadBody(more)
        case None => None
        case Some((s, rest)) => Some(([c] + s, rest))
  }

  lemma HexDigitReads(n: nat)
    requires n < 16
    ensures HexValue(HexDigit(n)) == Some(n)
  {
  }

  lemma HexValueWrites(c: char)
    requires HexValue(c).Some?
    ensures HexValue(c).value < 16 && HexDigit(HexValue(c).value) == c
  {
  }

  lemma HexEscapeReads(c: char, rest: string)
    requires c as int < 0x20 && !HasShortEscape(c as int)
    ensures ReadHexEscape(Escape(c) + rest) == Some((c, rest))
    ensures Escape(c)[0] == '\\' && Escape(c)[1] == 'u'
  {
    var a, b := HexDigit(c as int / 16), HexDigit(c as int % 16);
    HexDigitReads(c as int / 16);
    HexDigitReads(c as int % 16);
    hide HexDigit, HexValue;
    var e := Escape(c);
    assert e == ['\\', 'u', '0', '0', a, b];
    var t := e + rest;
    assert t[2] == '0' && t[3] == '0' && t[4] == a && t[5] == b && t[6..] == rest;
  }

  lemma ShortEscapeReads(c: char, rest: string)
    requires c == '"' || c == '\\' || HasShortEscape(c as int)
    ensures ReadChar(Escape(c) + rest) == Some((c, rest))
    ensures Escape(c)[0] == '\\'
  {
    hide ReadHexEscape, HexDigit;
    var e := Escape(c);
    var t := e + rest;
    assert |e| == 2 && t[0] == '\\' && t[1] == e[1] && t[2..] == rest;
  }

  lemma EscapeReads(c: char, rest: string)
    ensures ReadChar(Escape(c) + rest) == Some((c, rest))
    ensures (Escape(c) + rest)[0] != '"'
  {
    if c == '"' || c == '\\' || HasShortEscape(c as int) {
      ShortEscapeReads(c, rest);
    } else if c as int < 0x20 {
      HexEscapeReads(c, rest);
      hide Escape, ReadHexEscape;
    } else {
      hide ReadHexEscape, HexDigit;
      assert ([c] + rest)[1..] == rest;
    }
  }

  lemma ReadCharWrites(t: string)
    requires ReadChar(t).Some?
    ensures t == Escape(ReadChar(t).value.0) + ReadChar(t).value.1
  {
    var (c, rest) := ReadChar(t).value;
    if t[0] != '\\' {
      assert t == [t[0]] + t[1..];
    } else if t[1] != 'u' {
      assert t == [t[0], t[1]] + t[2..];
    } else {
      HexValueWrites(t[4]);
      HexValueWrites(t[5]);
      assert t == [t[0], t[1], t[2], t[3], t[4], t[5]] + t[6..];
    }
  }

  /** Escaping is self-delimiting and undone by unescaping. */
  lemma {:induction false} QuoteReads(s: string, rest: string)
    ensures ReadBody(EscapeAll(s) + "\"" + rest) == Some((s, rest))
  {
    hide Escape, ReadChar;
    if s == "" {
      assert (EscapeAll(s) + "\"" + rest)[1..] == rest;
    } else {
      var more := EscapeAll(s[1..]) + "\"" + rest;
      assert EscapeAll(s) + "\"" + rest == Escape(s[0]) + more;
      EscapeReads(s[0], more);
      QuoteReads(s[1..], rest);
      assert s == [s[0]] + s[1..];
    }
  }

  lemma {:induction false} ReadBodyWrites(t: string)
    requires ReadBody(t).Some?
    ensures t == EscapeAll(ReadBody(t).value.0) + "\"" + ReadBody(t).value.1
    decreases |t|
  {
    hide Escape, ReadChar;
    if t != "" && t[0] == '"' {
      assert t == "" + "\"" + t[1..];
    } else {
      ReadCharWrites(t);
      var (c, more) := ReadChar(t).value;
      ReadBodyWrites(more);
      var (s, rest) := ReadBody(more).value;
      assert ([c] + s)[1..] == s;
      assert EscapeAll([c] + s) == Escape(c) + EscapeAll(s);
    }
  }

  // ---- Numbers --------------------------------------------------------------------------

  function DigitRun(t: string): (n: nat)
    ensures n <= |t| && AllDigits(t[..n])
    ensures n < |t| ==> !IsDigit(t[n])
  {
    if t == "" || !IsDigit(t[0]) then 0 else
      var n := DigitRun(t[1..]) + 1;
      assert t[..n] == [t[0]] + t[1..][..n - 1];
      n
  }

  function NumberLength(t: string): (n: nat)
    ensures n <= |t| && (n < |t| ==> !IsDigit(t[n]))
  {
    if t != "" && t[0] == '-' then 1 + DigitRun(t[1..]) else DigitRun(t)
  }

  function ReadNumber(t: string): (r: Option<(Json, string)>)
    ensures r.Some? ==> |r.value.1| < |t| && r.value.0.Num?
  {
    var n := NumberLength(t);
    if IntegerLiteral(t[..n]) then
      IntegerLiteralIsNumber(t[..n]);
      Some((Num(t[..n]), t[n..]))
    else None
  }

  /** What follows a number must not extend it. */
  predicate EndsNumber(rest: string) {
    rest == "" || !IsDigit(rest[0])
  }

  lemma {:induction false} DigitRunOf(d: string, rest: string)
    requires AllDigits(d) && EndsNumber(rest)
    ensures DigitRun(d + rest) == |d|
  {
    if d == "" {
      assert d + rest == rest;
    } else {
      assert (d + rest)[1..] == d[1..] + rest;
      DigitRunOf(d[1..], rest);
    }
  }

  lemma NumberReads(x: NumberText, rest: string)
    requires IntegerLiteral(x) && EndsNumber(rest)
    ensures ReadNumber(x + rest) == Some((Num(x), rest))
    ensures IsDigit((x + rest)[0]) || (x + rest)[0] == '-'
  {
    if x[0] == '-' {
      assert (x + rest)[1..] == x[1..] + rest;
      DigitRunOf(x[1..], rest);
    } else {
      DigitRunOf(x, rest);
    }
    assert (x + rest)[..|x|] == x && (x + rest)[|x|..] == rest;
  }

  lemma ReadNumberWrites(t: string)
    requires ReadNumber(t).Some?
    ensures var (v, rest) := ReadNumber(t).value;
      IntegerLiteral(v.text) && t == v.text + rest && EndsNumber(rest)
  {
    var n := NumberLength(t);
    assert t == t[..n] + t[n..];
    assert t[..n] != "";
  }

  // ---- Values ---------------------------------------------------------------------------

  function ReadWord(t: string, word: string, v: Json): (r: Option<(Json, string)>)
    requires word != ""
    ensures r.Some? ==> |r.value.1| < |t|
  {
    if word <= t then Some((v, t[|word|..])) else None
  }

  function ReadValue(t: string): (r: Option<(Json, string)>)
    ensures r.Some? ==> |r.value.1| < |t|
    decreases |t|, 1
  {
    if t == "" then None
    else if t[0] == 'n' then ReadWord(t, "null", Null)
    else if t[0] == 't' then ReadWord(t, "true", Bool(true))
    else if t[0] == 'f' then ReadWord(t, "false", Bool(false))
    else if t[0] == '"' then ReadString(t[1..])
    else if t[0] == '[' then ReadArray(t[1..])
    else if t[0] == '{' then ReadObject(t[1..])
    else ReadNumber(t)
  }

  function ReadString(t: string): (r: Option<(Json, string)>)
    ensures r.Some? ==> |r.value.1| < |t|
  {
    match ReadBody(t)
    case None => None
    case Some((s, rest)) => Some((Str(s), rest))
  }

  function ReadArray(t: string): (r: Option<(Json, string)>)
    ensures r.Some? ==> |r.value.1| < |t|
    decreases |t|, 3
  {
    if t != "" && t[0] == ']' then Some((Arr([]), t[1..]))
    else
      match ReadItems(t)
      case None => None
      case Some((items, rest)) => Some((Arr(items), rest))
  }

  /** One or more items and the closing bracket. */
  function ReadItems(t: string): (r: Option<(seq<Json>, string)>)
    ensures r.Some? ==> |r.value.1| < |t| && r.value.0 != []
    decreases |t|, 2
  {
    match ReadValue(t)
    case None => None
    case Some((v, more)) =>
      if more == "" then None
      else if more[0] == ']' then Some(([v], more[1..]))
      else if more[0] != ',' then None
      else
        match ReadItems(more[1..])
        case None => None
        case Some((items, rest)) => Some(([v] + items, rest))
  }

  function ReadObject(t: string): (r: Option<(Json, string)>)
    ensures r.Some? ==> |r.value.1| < |t|
    decreases |t|, 3
  {
    if t != "" && t[0] == '}' then Some((Obj(map[]), t[1..]))
    else
      match ReadMembers(t, None)
      case None => None
      case Some((m, rest)) => Some((Obj(m), rest))
  }

  /** The key of a member and the colon; `last` is the key before it, which it must exceed. */
  function ReadKey(t: string, last: Option<string>): (r: Option<(string, string)>)
    ensures r.Some? ==> |r.value.1| < |t|
  {
    if t == "" || t[0] != '"' then None
    else
      match ReadBody(t[1..])
      case None => None
      case Some((key, more)) =>
        if more == "" || more[0] != ':' || (last.Some? && !Less(Utf16Order, last.value, key)) then None
        else Some((key, more[1..]))
  }

  /** One or more members with increasing keys, and the closing brace. */
  function ReadMembers(t: string, last: Option<string>): (r: Option<(map<string, Json>, string)>)
    ensures r.Some? ==> |r.value.1| < |t|
    decreases |t|, 2
  {
    match ReadKey(t, last)
    case None => None
    case Some((key, afterKey)) =>
      match ReadValue(afterKey)
      case None => None
      case Some((v, more)) =>
        if more == "" then None
        else if more[0] == '}' then Some((map[key := v], more[1..]))
        else if more[0] != ',' then None
        else
          match ReadMembers(more[1..], Some(key))
          case None => None
          case Some((m, rest)) => Some((m[key := v], rest))
  }

  function ReadDocument(t: string): Option<Json> {
    match ReadValue(t)
    case None => None
    case Some((v, rest)) => if rest == "" then Some(v) else None
  }

  // ---- Reading what was written ---------------------------------------------------------

  lemma {:induction false} PrintReads(v: Json, rest: string)
    requires FloatFree(v) && EndsNumber(rest)
    ensures ReadValue(Print(v) + rest) == Some((v, rest))
    decreases v, 2
  {
    hide ReadBody, EscapeAll, ReadNumber, PrintItems, PrintMembers, ReadArray, ReadObject;
    var t := Print(v) + rest;
    match v
    case Null =>
      assert t[|"null"|..] == rest;
    case Bool(b) =>
      assert t[|Print(v)|..] == rest;
    case Str(s) =>
      assert t[1..] == EscapeAll(s) + "\"" + rest;
      QuoteReads(s, rest);
    case Num(x) =>
      NumberReads(x, rest);
    case Arr(items) =>
      ArrayReads(v, rest);
    case Obj(m) =>
      ObjectReads(v, rest);
  }

  lemma {:induction false} ArrayReads(v: Json, rest: string)
    requires v.Arr? && FloatFree(v)
    ensures ReadValue(Print(v) + rest) == Some((v, rest))
    decreases v, 1
  {
    var items := v.items;
    var t := Print(v) + rest;
    assert t[0] == '[';
    assert t[1..] == PrintItems(items) + "]" + rest;
    if items == [] {
      assert t[1..][1..] == rest;
    } else {
      ItemsRead(items, rest);
      ItemsFirstChar(items);
    }
  }

  /** No printed list of items begins with a closing bracket. */
  lemma ItemsFirstChar(items: seq<Json>)
    requires items != [] && FloatFree(items[0])
    ensures PrintItems(items) != "" && PrintItems(items)[0] != ']'
  {
    FirstCharOf(items[0]);
    hide Print, EveryNumber, PrintItems;
    ItemsHead(items);
  }

  lemma FirstCharOf(v: Json)
    requires FloatFree(v)
    ensures Print(v) != "" && Print(v)[0] != ']'
  {
    hide PrintItems, PrintMembers, EscapeAll;
  }

  lemma ItemsHead(items: seq<Json>)
    requires items != []
    ensures Print(items[0]) <= PrintItems(items)
  {
    hide Print;
    if |items| > 1 {
      assert PrintItems(items) == Print(items[0]) + ("," + PrintItems(items[1..]));
    }
  }

  lemma {:induction false} ItemsRead(items: seq<Json>, rest: string)
    requires items != [] && forall i :: 0 <= i < |items| ==> FloatFree(items[i])
    ensures ReadItems(PrintItems(items) + "]" + rest) == Some((items, rest))
    decreases items, 0
  {
    hide Print, ReadValue, EveryNumber;
    var t := PrintItems(items) + "]" + rest;
    if |items| == 1 {
      var more := "]" + rest;
      assert t == Print(items[0]) + more;
      PrintReads(items[0], more);
      assert more[1..] == rest;
      assert items == [items[0]];
    } else {
      var tail := PrintItems(items[1..]) + "]" + rest;
      var more := "," + tail;
      assert t == Print(items[0]) + more;
      PrintReads(items[0], more);
      assert more[1..] == tail;
      ItemsRead(items[1..], rest);
      assert items == [items[0]] + items[1..];
    }
  }

  lemma {:induction false} ObjectReads(v: Json, rest: string)
    requires v.Obj? && FloatFree(v)
    ensures ReadValue(Print(v) + rest) == Some((v, rest))
    decreases v, 1
  {
    hide Print, PrintMembers, ReadBody, ReadNumber, ReadArray, ReadMembers, Less;
    var keys := SortedKeys(Utf16Order, v.members.Keys);
    var t := Print(v) + rest;
    ObjectText(v, keys);
    var body := MembersFrom(keys, 0, v) + "}" + rest;
    assert t == "{" + body;
    assert t[0] == '{' && t[1..] == body;
    if keys == [] {
      assert v.members.Keys == {};
      assert v.members == map[];
      assert body[1..] == rest;
    } else {
      MembersRead(keys, v, None, rest);
      assert Picked(keys, v) == v.members;
      MembersFirstChar(keys, v, "}" + rest);
    }
  }

  lemma MembersFirstChar(keys: seq<string>, v: Json, tail: string)
    requires v.Obj? && keys != [] && forall k :: k in keys ==> k in v.members
    ensures (PrintMembers(keys, v) + tail)[0] == '"'
  {
    hide EscapeAll, Print;
    assert Quote(keys[0])[0] == '"';
    MembersHead(keys, v);
  }

  /** The members of `v` named by `keys`, as a map. */
  ghost function Picked(keys: seq<string>, v: Json): map<string, Json>
    requires v.Obj? && forall k :: k in keys ==> k in v.members
  {
    map k | k in keys :: v.members[k]
  }

  lemma KeyReads(key: string, last: Option<string>, more: string)
    requires last.Some? ==> Less(Utf16Order, last.value, key)
    ensures ReadKey(Quote(key) + ":" + more, last) == Some((key, more))
  {
    hide ReadBody, Less, EscapeAll;
    var t := Quote(key) + ":" + more;
    assert t[1..] == EscapeAll(key) + "\"" + (":" + more);
    QuoteReads(key, ":" + more);
    assert (":" + more)[1..] == more;
  }

  lemma {:induction false} MembersRead(keys: seq<string>, v: Json, last: Option<string>, rest: string)
    requires v.Obj? && FloatFree(v) && keys != [] && forall k :: k in keys ==> k in v.members
    requires StrictlySorted(Utf16Order, keys)
    requires last.Some? ==> Less(Utf16Order, last.value, keys[0])
    ensures ReadMembers(PrintMembers(keys, v) + "}" + rest, last) == Some((Picked(keys, v), rest))
    decreases v, 0, |keys|
  {
    hide Less, Quote, ReadKey, ReadValue, Print, PrintMembers;
    var key := keys[0];
    var value := v.members[key];
    var more := if |keys| == 1 then "}" + rest else "," + (PrintMembers(keys[1..], v) + "}" + rest);
    MembersUnroll(keys, v, rest);
    KeyReads(key, last, Print(value) + more);
    PrintReads(value, more);
    if |keys| == 1 {
      assert more[1..] == rest;
      assert Picked(keys, v) == map[key := value];
    } else {
      assert more[1..] == PrintMembers(keys[1..], v) + "}" + rest;
      MembersRead(keys[1..], v, Some(key), rest);
      PickedStep(keys, v);
    }
  }

  lemma MembersUnroll(keys: seq<string>, v: Json, rest: string)
    requires v.Obj? && keys != [] && forall k :: k in keys ==> k in v.members
    ensures PrintMembers(keys, v) + "}" + rest == Quote(keys[0]) + ":" + (Print(v.members[keys[0]])
      + if |keys| == 1 then "}" + rest else "," + (PrintMembers(keys[1..], v) + "}" + rest))
  {
    hide Quote, Print, PrintMembers;
    MembersHead(keys, v);
  }

  lemma PickedStep(keys: seq<string>, v: Json)
    requires v.Obj? && keys != [] && forall k :: k in keys ==> k in v.members
    ensures Picked(keys, v) == Picked(keys[1..], v)[keys[0] := v.members[keys[0]]]
  {
    assert keys == [keys[0]] + keys[1..];
  }

  // ---- Writing what was read ------------------------------------------------------------

  /** Whatever the reader accepts is float-free and was printed from the tree it returns. */
  lemma {:induction false} ReadPrints(t: string)
    requires ReadValue(t).Some?
    ensures var (v, rest) := ReadValue(t).value;
      FloatFree(v) && t == Print(v) + rest && (v.Num? ==> EndsNumber(rest))
    decreases |t|, 1
  {
    hide ReadBody, EscapeAll, ReadNumber, ReadArray, ReadObject, PrintItems, PrintMembers;
    if t[0] == 'n' || t[0] == 't' || t[0] == 'f' {
      var (v, rest) := ReadValue(t).value;
      assert t == t[..|Print(v)|] + rest;
    } else if t[0] == '"' {
      ReadBodyWrites(t[1..]);
      assert t == "\"" + t[1..];
    } else if t[0] == '[' {
      ReadArrayPrints(t[1..]);
      assert t == "[" + t[1..];
    } else if t[0] == '{' {
      ReadObjectPrints(t[1..]);
      assert t == "{" + t[1..];
    } else {
      ReadNumberWrites(t);
    }
  }

  lemma {:induction false} ReadArrayPrints(t: string)
    requires ReadArray(t).Some?
    ensures var (v, rest) := ReadArray(t).value;
      FloatFree(v) && "[" + t == Print(v) + rest && v.Arr?
    decreases |t|, 3
  {
    hide ReadItems, PrintItems;
    if t != "" && t[0] == ']' {
      assert PrintItems([]) == "" by {
        ArrayText(Arr([]));
      }
      assert t == "]" + t[1..];
    } else {
      ReadItemsPrint(t);
    }
  }

  lemma {:induction false} ReadItemsPrint(t: string)
    requires ReadItems(t).Some?
    ensures var (items, rest) := ReadItems(t).value;
      t == PrintItems(items) + "]" + rest && forall i :: 0 <= i < |items| ==> FloatFree(items[i])
    decreases |t|, 2
  {
    hide ReadValue, Print, EveryNumber;
    ReadPrints(t);
    var (v, more) := ReadValue(t).value;
    assert more == [more[0]] + more[1..];
    if more[0] == ',' {
      ReadItemsPrint(more[1..]);
      var (items, rest) := ReadItems(more[1..]).value;
      assert ([v] + items)[1..] == items;
      assert PrintItems([v] + items) == Print(v) + "," + PrintItems(items);
    }
  }

  lemma {:induction false} ReadObjectPrints(t: string)
    requires ReadObject(t).Some?
    ensures var (v, rest) := ReadObject(t).value;
      FloatFree(v) && "{" + t == Print(v) + rest && v.Obj?
    decreases |t|, 3
  {
    hide ReadMembers, Print, PrintMembers, Less;
    var (v, rest) := ReadObject(t).value;
    var keys := SortedKeys(Utf16Order, v.members.Keys);
    ObjectText(v, keys);
    assert keys != [] ==> keys[0] in Elements(keys);
    if t != "" && t[0] == '}' {
      assert Elements(keys) == {};
      assert t == "}" + t[1..];
    } else {
      ReadMembersPrint(t, None);
    }
  }

  /** The members read are those of the sorted key list of the resulting map. */
  ghost predicate MembersText(t: string, last: Option<string>, m: map<string, Json>, rest: string) {
    var keys := SortedKeys(Utf16Order, m.Keys);
    && FloatFree(Obj(m))
    && keys != []
    && (forall k :: k in keys ==> k in m)
    && (last.Some? ==> Less(Utf16Order, last.value, keys[0]))
    && t == PrintMembers(keys, Obj(m)) + "}" + rest
  }

  lemma {:induction false} ReadMembersPrint(t: string, last: Option<string>)
    requires ReadMembers(t, last).Some?
    ensures MembersText(t, last, ReadMembers(t, last).value.0, ReadMembers(t, last).value.1)
    decreases |t|, 2
  {
    hide ReadKey, ReadValue, Print, PrintMembers, EveryNumber, Less, Quote, MembersText;
    var (key, afterKey) := ReadKey(t, last).value;
    ReadKeyWrites(t, last);
    ReadPrints(afterKey);
    var (v, more) := ReadValue(afterKey).value;
    assert more == [more[0]] + more[1..];
    if more[0] == '}' {
      assert t == Quote(key) + ":" + Print(v) + "}" + more[1..];
      OneMember(t, last, key, v, more[1..]);
    } else {
      ReadMembersPrint(more[1..], Some(key));
      var (m, rest) := ReadMembers(more[1..], Some(key)).value;
      assert t == Quote(key) + ":" + Print(v) + "," + more[1..];
      AddMember(t, last, key, v, more[1..], m, rest);
    }
  }

  lemma ReadKeyWrites(t: string, last: Option<string>)
    requires ReadKey(t, last).Some?
    ensures var (key, more) := ReadKey(t, last).value;
      t == Quote(key) + ":" + more && (last.Some? ==> Less(Utf16Order, last.value, key))
  {
    hide ReadBody, Less, EscapeAll;
    ReadBodyWrites(t[1..]);
    var (key, more) := ReadBody(t[1..]).value;
    assert t == "\"" + t[1..];
    assert more == ":" + more[1..];
  }

  lemma OneMember(t: string, last: Option<string>, key: string, v: Json, rest: string)
    requires FloatFree(v) && (last.Some? ==> Less(Utf16Order, last.value, key))
    requires t == Quote(key) + ":" + Print(v) + "}" + rest
    ensures MembersText(t, last, map[key := v], rest)
  {
    hide Print, Less, Quote;
    var m := map[key := v];
    assert Elements([key]) == m.Keys;
    SortedUnique(Utf16Order, [key], SortedKeys(Utf16Order, m.Keys));
    MembersHead([key], Obj(m));
  }

  lemma AddMember(t: string, last: Option<string>, key: string, v: Json, tail: string, m: map<string, Json>, rest: string)
    requires FloatFree(v) && (last.Some? ==> Less(Utf16Order, last.value, key))
    requires t == Quote(key) + ":" + Print(v) + "," + tail
    requires MembersText(tail, Some(key), m, rest)
    ensures MembersText(t, last, m[key := v], rest)
  {
    hide Print, Less, Quote, PrintMembers;
    var w := m[key := v];
    var keys := SortedKeys(Utf16Order, m.Keys);
    PrependSmaller(key, keys);
    assert Elements([key] + keys) == w.Keys;
    SortedUnique(Utf16Order, [key] + keys, SortedKeys(Utf16Order, w.Keys));
    assert ([key] + keys)[1..] == keys;
    MembersHead([key] + keys, Obj(w));
    SameMembers(keys, Obj(m), Obj(w));
  }

  /** A key below the first of a sorted list is below all of it. */
  lemma PrependSmaller(key: string, keys: seq<string>)
    requires StrictlySorted(Utf16Order, keys) && keys != [] && Less(Utf16Order, key, keys[0])
    ensures StrictlySorted(Utf16Order, [key] + keys) && key !in keys
    ensures Elements([key] + keys) == {key} + Elements(keys)
  {
    hide Less;
    forall i | 0 <= i < |keys|
      ensures Less(Utf16Order, key, keys[i]) && keys[i] != key
    {
      StrictTotalOrder(Utf16Order, key, keys[0], keys[i]);
      StrictTotalOrder(Utf16Order, key, keys[i], key);
    }
    PrependSorted(Utf16Order, key, keys);
  }

  /** Members are printed from their keys' values alone. */
  lemma {:induction false} SameMembers(keys: seq<string>, v: Json, w: Json)
    requires v.Obj? && w.Obj?
    requires forall k :: k in keys ==> k in v.members && k in w.members && v.members[k] == w.members[k]
    ensures PrintMembers(keys, v) == PrintMembers(keys, w)
    decreases |keys|
  {
    hide Print, Quote;
    if |keys| > 1 {
      SameMembers(keys[1..], v, w);
    }
  }

  // ---- The two together -----------------------------------------------------------------

  /** The reader accepts a text exactly when the writer produces it, and returns its tree. */
  lemma ReaderInvertsWriter(t: string, v: Json)
    ensures Canonical(v) == Ok(t) <==> ReadDocument(t) == Some(v)
  {
    if FloatFree(v) {
      PrintReads(v, "");
      assert Print(v) + "" == Print(v);
    }
    if ReadDocument(t) == Some(v) {
      ReadPrints(t);
      assert Print(v) + "" == Print(v);
    }
  }

  /** So canonical text is injective on trees. */
  lemma CanonicalInjective(v: Json, w: Json)
    requires Canonical(v).Ok? && Canonical(v) == Canonical(w)
    ensures v == w
  {
    ReaderInvertsWriter(Canonical(v).value, v);
    ReaderInvertsWriter(Canonical(v).value, w);
  }

  /** Apart from `-0`, trees have the same canonical text exactly when they mean the same. */
  lemma CanonicalTextIsMeaning(v: Json, w: Json)
    requires FloatFree(v) && FloatFree(w)
    requires EveryNumber(v, NotMinusZero) && EveryNumber(w, NotMinusZero)
    ensures Print(v) == Print(w) <==> Meaning(v) == Meaning(w)
  {
    if Print(v) == Print(w) {
      CanonicalInjective(v, w);
    }
    if Meaning(v) == Meaning(w) {
      MeaningInjective(v, w);
    }
  }

  /** A tree has the canonical text of its meaning written out plainly exactly when it holds no
      `-0`. */
  lemma TextIsPlainIff(v: Json)
    requires FloatFree(v)
    ensures FloatFree(Written(Meaning(v), "0")) && Meaning(Written(Meaning(v), "0")) == Meaning(v)
    ensures Print(v) == Print(Written(Meaning(v), "0")) <==> EveryNumber(v, NotMinusZero)
  {
    var w := Written(Meaning(v), "0");
    WrittenMeans(Meaning(v), "0");
    WrittenIffNoMinusZero(v);
    hide Print, EveryNumber, Meaning, Written;
    if Print(v) == Print(w) {
      CanonicalInjective(v, w);
    }
  }

  /** All trees that mean `x` have the same canonical text. */
  ghost predicate HasOneText(x: Value) {
    forall v, w :: FloatFree(v) && FloatFree(w) && Meaning(v) == x && Meaning(w) == x ==> Print(v) == Print(w)
  }

  /** Canonical text is a function of the value exactly for the values without a zero. */
  lemma OneTextIff(x: Value)
    ensures HasOneText(x) <==> ZeroFree(x)
  {
    if ZeroFree(x) {
      forall v, w | FloatFree(v) && FloatFree(w) && Meaning(v) == x && Meaning(w) == x
        ensures Print(v) == Print(w)
      {
        ZeroFreeHasNoMinusZero(v);
        ZeroFreeHasNoMinusZero(w);
        MeaningInjective(v, w);
      }
    } else {
      var v, w := Written(x, "0"), Written(x, "-0");
      WrittenMeans(x, "0");
      WrittenMeans(x, "-0");
      ZeroFreeIff(x);
      if Print(v) == Print(w) {
        CanonicalInjective(v, w);
      }
    }
  }

  // ---- No zero byte ---------------------------------------------------------------------

  predicate NoNul(t: string) {
    forall i :: 0 <= i < |t| ==> t[i] != '\0'
  }

  lemma NoNulEscape(c: char)
    ensures NoNul(Escape(c))
  {
  }

  lemma {:induction false} NoNulEscapeAll(s: string)
    ensures NoNul(EscapeAll(s))
  {
    hide Escape;
    if s != "" {
      NoNulEscape(s[0]);
      NoNulEscapeAll(s[1..]);
    }
  }

  /** Canonical text holds no NUL, whatever the strings in the tree hold. */
  lemma {:induction false} NoNulPrint(v: Json)
    requires FloatFree(v)
    ensures NoNul(Print(v))
    decreases v, 2
  {
    match v
    case Str(s) =>
      NoNulEscapeAll(s);
    case Num(t) =>
      if t[0] == '-' {
        assert t == "-" + t[1..];
      }
    case Arr(items) =>
      NoNulItems(items);
    case Obj(m) =>
      var keys := SortedKeys(Utf16Order, m.Keys);
      ObjectText(v, keys);
      NoNulMembers(keys, v);
    case _ =>
  }

  lemma {:induction false} NoNulItems(items: seq<Json>)
    requires forall i :: 0 <= i < |items| ==> FloatFree(items[i])
    ensures NoNul(PrintItems(items))
    decreases items, 0
  {
    hide Print, EveryNumber;
    if items != [] {
      NoNulPrint(items[0]);
      NoNulItems(items[1..]);
    }
  }

  lemma {:induction false} NoNulMembers(keys: seq<string>, v: Json)
    requires v.Obj? && FloatFree(v) && forall k :: k in keys ==> k in v.members
    ensures NoNul(PrintMembers(keys, v))
    decreases v, 0, |keys|
  {
    hide Print, EscapeAll;
    if keys != [] {
      NoNulEscapeAll(keys[0]);
      NoNulPrint(v.members[keys[0]]);
      NoNulMembers(keys[1..], v);
    }
  }
}
