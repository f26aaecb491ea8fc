/** The canonical text of a JSON tree (RFC 8785, sections 3.2.2 and 3.2.3) and the writer that
    appends it to a builder. */
module Jcs {
  import opened Wrappers
  import opened EnvelopeErrors
  import opened Numbers
  import opened Json
  import opened KeyOrder
  import opened KeySort

  // ---- The canonical text ---------------------------------------------------------------

  function HexDigit(n: nat): char
    requires n < 16
  {
    if n < 10 then (n + '0' as int) as char else (n - 10 + 'a' as int) as char
  }

  /** The minimal escape of one character. */
  function Escape(c: char): string {
    if c == '"' then "\\\""
    else if c == '\\' then "\\\\"
    else if c as int == 8 then "\\b"
    else if c as int == 12 then "\\f"
    else if c == '\n' then "\\n"
    else if c == '\r' then "\\r"
    else if c == '\t' then "\\t"
    else if c as int < 0x20 then "\\u00" + [HexDigit(c as int / 16), HexDigit(c as int % 16)]
    else [c]
  }

  function EscapeAll(s: string): string {
    if s == "" then "" else Escape(s[0]) + EscapeAll(s[1..])
  }

  function Quote(s: string): string {
    "\"" + EscapeAll(s) + "\""
  }

  ghost function Print(v: Json): string
    decreases v, 1
  {
    match v
    case Null => "null"
    case Bool(b) => if b then "true" else "false"
    case Str(s) => Quote(s)
    case Num(t) => t
    case Arr(items) => "[" + PrintItems(items) + "]"
    case Obj(m) => "{" + PrintMembers(SortedKeys(Utf16Order, m.Keys), v) + "}"
  }

  ghost function PrintItems(items: seq<Json>): string
    decreases items, 0
  {
    if items == [] then ""
    else if |items| == 1 then Print(items[0])
    else Print(items[0]) + "," + PrintItems(items[1..])
  }

  /** The members of the object `v` named by `keys`, in that order. */
  ghost function PrintMembers(keys: seq<string>, v: Json): string
    requires v.Obj? && forall k :: k in keys ==> k in v.members
    decreases v, 0, |keys|
  {
    if keys == [] then ""
    else if |keys| == 1 then Quote(keys[0]) + ":" + Print(v.members[keys[0]])
    else Quote(keys[0]) + ":" + Print(v.members[keys[0]]) + "," + PrintMembers(keys[1..], v)
  }

  // ---- The writer -----------------------------------------------------------------------

  /** The part of `strings.Builder` the writer uses. */
  class Builder {
    var text: string

    constructor ()
      ensures text == ""
    {
      text := "";
    }

    method WriteString(s: string)
      modifies this
      ensures text == old(text) + s
    {
      text := text + s;
    }
  }

  lemma EscapeAllStep(s: string, index: nat)
    requires index < |s|
    ensures EscapeAll(s[index..]) == Escape(s[index]) + EscapeAll(s[index + 1..])
  {
    assert s[index..][1..] == s[index + 1..];
  }

  lemma QuoteText(s: string)
    ensures Quote(s) == "\"" + (EscapeAll(s[0..]) + "\"")
    ensures EscapeAll(s[|s|..]) == ""
  {
    assert s[0..] == s;
  }

  method WriteJCSString(out: Builder, value: string)
    modifies out
    ensures out.text == old(out.text) + Quote(value)
  {
    hide *;
    QuoteText(value);
    out.WriteString("\"");
    var index := 0;
    while index < |value|
      invariant index <= |value|
      invariant out.text + (EscapeAll(value[index..]) + "\"") == old(out.text) + Quote(value)
    {
      EscapeAllStep(value, index);
      out.WriteString(Escape(value[index]));
      index := index + 1;
    }
    out.WriteString("\"");
  }

  /** What is still to be written before the closing bracket, from item `index` on. */
  ghost function ItemsFrom(items: seq<Json>, index: nat): string
    requires index <= |items|
  {
    if index == |items| then ""
    else if index == 0 then PrintItems(items)
    else "," + PrintItems(items[index..])
  }

  ghost function MembersFrom(keys: seq<string>, index: nat, v: Json): string
    requires index <= |keys| && v.Obj? && forall k :: k in keys ==> k in v.members
  {
    if index == |keys| then ""
    else if index == 0 then PrintMembers(keys, v)
    else "," + PrintMembers(keys[index..], v)
  }

  lemma ItemsHead(items: seq<Json>)
    requires items != []
    ensures PrintItems(items)
      == Print(items[0]) + (if |items| == 1 then "" else "," + PrintItems(items[1..]))
  {
    hide Print;
    assert Print(items[0]) + "" == Print(items[0]);
  }

  lemma ItemsStep(items: seq<Json>, index: nat)
    requires index < |items|
    ensures ItemsFrom(items, index)
      == (if index > 0 then "," else "") + Print(items[index]) + ItemsFrom(items, index + 1)
  {
    hide Print, PrintItems;
    var rest := items[index..];
    assert index == 0 ==> rest == items;
    assert rest[1..] == items[index + 1..];
    ItemsHead(rest);
  }

  lemma MembersStep(keys: seq<string>, index: nat, v: Json)
    requires index < |keys| && v.Obj? && forall k :: k in keys ==> k in v.members
    ensures MembersFrom(keys, index, v)
      == (if index > 0 then "," else "") + Quote(keys[index]) + ":" + Print(v.members[keys[index]])
         + MembersFrom(keys, index + 1, v)
  {
    hide Print, Quote, PrintMembers;
    var rest := keys[index..];
    assert index == 0 ==> rest == keys;
    assert rest[1..] == keys[index + 1..];
    MembersHead(rest, v);
  }

  lemma MembersHead(keys: seq<string>, v: Json)
    requires keys != [] && v.Obj? && forall k :: k in keys ==> k in v.members
    ensures PrintMembers(keys, v) == Quote(keys[0]) + ":" + Print(v.members[keys[0]])
      + (if |keys| == 1 then "" else "," + PrintMembers(keys[1..], v))
  {
    var head := Quote(keys[0]) + ":" + Print(v.members[keys[0]]);
    assert head + "" == head;
  }

  /** Appends the canonical text of `value`; refuses exactly the trees that hold a float. */
  method WriteJCS(out: Builder, value: Json) returns (err: Option<Error>)
    modifies out
    ensures err == if FloatFree(value) then None else Some(ErrFloatValue)
    ensures err.None? ==> out.text == old(out.text) + Print(value)
    decreases value, 2
  {
    err := None;
    match value
    case Null => out.WriteString("null");
    case Bool(b) => out.WriteString(if b then "true" else "false");
    case Str(s) => WriteJCSString(out, s);
    case Num(t) =>
      IntegerIffNoFloatChar(t);
      if HasFloatChar(t) {
        return Some(ErrFloatValue);
      }
      out.WriteString(t);
    case Obj(m) => err := WriteObject(out, value);
    case Arr(items) => err := WriteArray(out, value);
  }

  lemma ObjectText(v: Json, sorted: seq<string>)
    requires v.Obj? && sorted == SortedKeys(Utf16Order, v.members.Keys)
    ensures forall k :: k in sorted <==> k in v.members
    ensures Print(v) == "{" + (MembersFrom(sorted, 0, v) + "}")
    ensures MembersFrom(sorted, |sorted|, v) == ""
    ensures FloatFree(v) <==> forall i :: 0 <= i < |sorted| ==> FloatFree(v.members[sorted[i]])
  {
    assert forall k :: k in sorted <==> k in Elements(sorted);
  }

  lemma ArrayText(v: Json)
    requires v.Arr?
    ensures Print(v) == "[" + (ItemsFrom(v.items, 0) + "]")
    ensures ItemsFrom(v.items, |v.items|) == ""
    ensures FloatFree(v) <==> forall i :: 0 <= i < |v.items| ==> FloatFree(v.items[i])
  {
  }

  method WriteMember(out: Builder, value: Json, key: string, first: bool) returns (err: Option<Error>)
    requires value.Obj? && key in value.members
    modifies out
    ensures err == if FloatFree(value.members[key]) then None else Some(ErrFloatValue)
    ensures err.None? ==>
      out.text == old(out.text) + ((if first then "" else ",") + Quote(key) + ":" + Print(value.members[key]))
    decreases value, 0
  {
    hide *;
    if !first {
      out.WriteString(",");
    }
    WriteJCSString(out, key);
    out.WriteString(":");
    err := WriteJCS(out, value.members[key]);
  }

  method WriteObject(out: Builder, value: Json) returns (err: Option<Error>)
    requires value.Obj?
    modifies out
    ensures err == if FloatFree(value) then None else Some(ErrFloatValue)
    ensures err.None? ==> out.text == old(out.text) + Print(value)
    decreases value, 1
  {
    hide *;
    var keys := KeysInOrder(Utf16Order, value.members.Keys);
    ghost var sorted := keys[..];
    ObjectText(value, sorted);
    out.WriteString("{");
    ghost var target := old(out.text) + Print(value);
    var index := 0;
    assert out.text + (MembersFrom(sorted, 0, value) + "}") == target;
    while index < keys.Length
      invariant index <= keys.Length && keys[..] == sorted
      invariant out.text + (MembersFrom(sorted, index, value) + "}") == target
      invariant forall i :: 0 <= i < index ==> FloatFree(value.members[sorted[i]])
    {
      MembersStep(sorted, index, value);
      assert keys[index] == sorted[index];
      err := WriteMember(out, value, keys[index], index == 0);
      if err.Some? {
        return;
      }
      index := index + 1;
    }
    out.WriteString("}");
    err := None;
  }

  method WriteArray(out: Builder, value: Json) returns (err: Option<Error>)
    requires value.Arr?
    modifies out
    ensures err == if FloatFree(value) then None else Some(ErrFloatValue)
    ensures err.None? ==> out.text == old(out.text) + Print(value)
    decreases value, 1
  {
    hide *;
    var items := value.items;
    ArrayText(value);
    out.WriteString("[");
    ghost var target := old(out.text) + Print(value);
    var index := 0;
    assert out.text + (ItemsFrom(items, 0) + "]") == target;
    while index < |items|
      invariant index <= |items|
      invariant out.text + (ItemsFrom(items, index) + "]") == target
      invariant forall i :: 0 <= i < index ==> FloatFree(items[i])
    {
      ItemsStep(items, index);
      if index > 0 {
        out.WriteString(",");
      }
      err := WriteJCS(out, items[index]);
      if err.Some? {
        return;
      }
      index := index + 1;
    }
    out.WriteString("]");
    err := None;
  }

  /** `jcs`: the canonical text of a tree, or the refusal of a float. */
  ghost function Canonical(v: Json): Result<string, Error> {
    if FloatFree(v) then Ok(Print(v)) else Err(ErrFloatValue)
  }

  method Serialise(value: Json) returns (r: Result<string, Error>)
    ensures r == Canonical(value)
  {
    var out := new Builder();
    var err := WriteJCS(out, value);
    if err.Some? {
      return Err(err.value);
    }
    assert "" + Print(value) == Print(value);
    r := Ok(out.text);
  }

  // ---- The text in figures --------------------------------------------------------------

  /** `c` is the lower-case hexadecimal digit of value `n`. */
  predicate Denotes(c: char, n: int) {
    ('0' <= c <= '9' && n == c as int - '0' as int) || ('a' <= c <= 'f' && n == c as int - 'a' as int + 10)
  }

  lemma HexDigitDenotes(n: nat)
    requires n < 16
    ensures Denotes(HexDigit(n), n)
  {
  }

  /** Exactly the quotation mark, the backslash and the control characters are escaped: five controls
      by a letter, the others by two hexadecimal digits. */
  lemma EscapeForm(c: char)
    ensures c == '"' ==> Escape(c) == "\\\""
    ensures c == '\\' ==> Escape(c) == "\\\\"
    ensures c as int == 8 ==> Escape(c) == "\\b"
    ensures c as int == 9 ==> Escape(c) == "\\t"
    ensures c as int == 10 ==> Escape(c) == "\\n"
    ensures c as int == 12 ==> Escape(c) == "\\f"
    ensures c as int == 13 ==> Escape(c) == "\\r"
    ensures c as int < 32 && c as int !in {8, 9, 10, 12, 13} ==>
      && |Escape(c)| == 6 && Escape(c)[..4] == "\\u00"
      && Denotes(Escape(c)[4], c as int / 16) && Denotes(Escape(c)[5], c as int % 16)
    ensures c as int >= 32 && c != '"' && c != '\\' ==> Escape(c) == [c]
  {
    if c as int < 32 {
      HexDigitDenotes(c as int / 16);
      HexDigitDenotes(c as int % 16);
    }
  }

  /** No character of the text is escaped. */
  predicate IsPlain(s: string) {
    forall i :: 0 <= i < |s| ==> s[i] as int >= 32 && s[i] != '"' && s[i] != '\\'
  }

  lemma {:induction false} PlainQuote(s: string)
    requires IsPlain(s)
    ensures Quote(s) == "\"" + s + "\""
  {
    PlainEscapes(s);
  }

  lemma {:induction false} PlainEscapes(s: string)
    requires IsPlain(s)
    ensures EscapeAll(s) == s
  {
    if s != "" {
      PlainEscapes(s[1..]);
      assert s == [s[0]] + s[1..];
    }
  }

  /** The escape of a text is that of its characters, one after the other. */
  lemma {:induction false} EscapeAllConcat(a: string, b: string)
    ensures EscapeAll(a + b) == EscapeAll(a) + EscapeAll(b)
  {
    hide Escape;
    if a == "" {
      assert a + b == b;
    } else {
      assert (a + b)[1..] == a[1..] + b;
      EscapeAllConcat(a[1..], b);
    }
  }

  /** Parts separated by commas. */
  function Commas(parts: seq<string>): string {
    if parts == [] then "" else if |parts| == 1 then parts[0] else parts[0] + "," + Commas(parts[1..])
  }

  /** An array is its items in order between brackets, separated by commas. */
  lemma ArrayIsText(items: seq<Json>)
    ensures Print(Arr(items)) == "[" + Commas(seq(|items|, i requires 0 <= i < |items| => Print(items[i]))) + "]"
  {
    ItemsAreText(items);
  }

  lemma {:induction false} ItemsAreText(items: seq<Json>)
    ensures PrintItems(items) == Commas(seq(|items|, i requires 0 <= i < |items| => Print(items[i])))
  {
    hide Print;
    var parts := seq(|items|, i requires 0 <= i < |items| => Print(items[i]));
    if |items| > 1 {
      ItemsAreText(items[1..]);
      assert parts[1..] == seq(|items| - 1, i requires 0 <= i < |items| - 1 => Print(items[1..][i]));
    }
  }

  ghost function MemberTexts(keys: seq<string>, m: map<string, Json>): seq<string>
    requires forall k :: k in keys ==> k in m
  {
    seq(|keys|, i requires 0 <= i < |keys| => Quote(keys[i]) + ":" + Print(m[keys[i]]))
  }

  /** An object is its members, name and value joined by a colon, in the order of any strictly sorted
      list of its keys, between braces, separated by commas. */
  lemma ObjectIsText(m: map<string, Json>, keys: seq<string>)
    requires StrictlySorted(Utf16Order, keys) && Elements(keys) == m.Keys
    ensures forall k :: k in keys ==> k in m
    ensures Print(Obj(m)) == "{" + Commas(MemberTexts(keys, m)) + "}"
  {
    assert forall k :: k in keys ==> k in Elements(keys);
    SortedUnique(Utf16Order, keys, SortedKeys(Utf16Order, m.Keys));
    MembersAreText(keys, m);
    ObjectText(Obj(m), keys);
    hide MemberTexts, PrintMembers, Print, StrictlySorted;
  }

  lemma {:induction false} MembersAreText(keys: seq<string>, m: map<string, Json>)
    requires forall k :: k in keys ==> k in m
    ensures PrintMembers(keys, Obj(m)) == Commas(MemberTexts(keys, m))
  {
    hide Print, Quote;
    if |keys| > 1 {
      MembersAreText(keys[1..], m);
      assert MemberTexts(keys, m)[1..] == MemberTexts(keys[1..], m);
    }
  }

  lemma ScalarText(b: bool, s: string, t: NumberText)
    ensures Print(Null) == "null" && Print(Bool(true)) == "true" && Print(Bool(false)) == "false"
    ensures Print(Str(s)) == "\"" + EscapeAll(s) + "\"" && Print(Num(t)) == t
  {
  }
}
