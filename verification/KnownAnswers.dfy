/** Fixed answers that pin the encodings to their standards. */
module KnownAnswers {
  import opened Json
  import opened KeyOrder
  import Base64Url
  import Domain
  import EnvelopeText
  import Jcs
  import Utf16
  import Utf8

  /** U+1F600 is the surrogate pair D83D DE00, and F0 9F 98 80 in UTF-8; U+20AC is E2 82 AC. */
  lemma Encodings()
    ensures Utf16.EncodeChar('\U{1F600}') == [0xD83D, 0xDE00]
    ensures Utf8.EncodeChar('\U{1F600}') == [0xF0, 0x9F, 0x98, 0x80]
    ensures Utf8.EncodeChar('\U{20AC}') == [0xE2, 0x82, 0xAC]
    ensures Utf8.EncodeChar('\U{E9}') == [0xC3, 0xA9]
  {
  }

  /** The pair of keys on which the two orders differ. */
  lemma EmojiBesidePrivateUse()
    ensures Less(Utf16Order, "\U{1F600}", "\U{E000}") && Less(ByteOrder, "\U{E000}", "\U{1F600}")
  {
    var a, b := "\U{1F600}", "\U{E000}";
    assert Utf16.Encode(a) == [0xD83D, 0xDE00] && Utf16.Encode(b) == [0xE000];
    ByteOrderIsCodePointOrder(b, a);
    assert CodePoints(b)[0] == 0xE000 && CodePoints(a)[0] == 0x1F600;
  }

  /** The keys of the corpus envelope `04-utf16-key-order` in their canonical order. */
  lemma CorpusKeyOrder()
    ensures StrictlySorted(Utf16Order, ["a", "z", "\U{1D11E}", "\U{10FFFF}", "\U{E000}", "\U{FFFF}"])
  {
    SingleKeys('a', 'z');
    SingleKeys('z', '\U{1D11E}');
    SingleKeys('\U{1D11E}', '\U{10FFFF}');
    SingleKeys('\U{10FFFF}', '\U{E000}');
    SingleKeys('\U{E000}', '\U{FFFF}');
    hide Less;
    EnvelopeText.ChainIsSorted(["a", "z", "\U{1D11E}", "\U{10FFFF}", "\U{E000}", "\U{FFFF}"]);
  }

  lemma SingleKeys(c: char, d: char)
    requires c != d
    ensures Less(Utf16Order, [c], [d]) <==>
      if Supplementary(c) && AboveSurrogates(d) then true
      else if AboveSurrogates(c) && Supplementary(d) then false
      else c < d
  {
    Utf16CharOrder(c, d);
    assert [c][1..] == "" && [d][1..] == "";
    assert Utf16.Encode([c]) == Utf16.EncodeChar(c) && Utf16.Encode([d]) == Utf16.EncodeChar(d);
  }

  /** Hexadecimal digits come high first. */
  lemma Digest()
    ensures Domain.Hex([0x1A, 0xF0]) == "1af0"
  {
    assert [0x1A, 0xF0][1..] == [0xF0] && [0xF0][1..] == [];
  }

  /** The escapes of RFC 8785, section 3.2.2.2. */
  lemma Escapes()
    ensures Jcs.Escape('\U{8}') == "\\b" && Jcs.Escape('\U{9}') == "\\t" && Jcs.Escape('\U{A}') == "\\n"
    ensures Jcs.Escape('\U{C}') == "\\f" && Jcs.Escape('\U{D}') == "\\r"
    ensures Jcs.Escape('\U{0}') == "\\u0000" && Jcs.Escape('\U{B}') == "\\u000b" && Jcs.Escape('\U{1F}') == "\\u001f"
    ensures Jcs.Escape('\U{2028}') == "\U{2028}" && Jcs.Escape('<') == "<" && Jcs.Escape('\U{7F}') == "\U{7F}"
  {
  }

  /** The ends of the alphabet's runs, and encodings among the test vectors of RFC 4648, section 10,
      with one that uses both special characters. */
  lemma Signatures()
    ensures Base64Url.CharOf(0) == 'A' && Base64Url.CharOf(25) == 'Z' && Base64Url.CharOf(26) == 'a'
    ensures Base64Url.CharOf(51) == 'z' && Base64Url.CharOf(52) == '0' && Base64Url.CharOf(61) == '9'
    ensures Base64Url.CharOf(62) == '-' && Base64Url.CharOf(63) == '_'
    ensures Base64Url.EncodeSignature([0x66]) == "Zg"
    ensures Base64Url.EncodeSignature([0x66, 0x6F]) == "Zm8"
    ensures Base64Url.EncodeSignature([0x66, 0x6F, 0x6F]) == "Zm9v"
    ensures Base64Url.EncodeSignature([0xFB, 0xFF]) == "-_8"
  {
    assert Base64Url.ToSextets([0x66]) == [25, 32];
    assert Base64Url.ToSextets([0x66, 0x6F]) == [25, 38, 60];
    assert Base64Url.ToSextets([0x66, 0x6F, 0x6F]) == [25, 38, 61, 47];
    assert Base64Url.ToSextets([0xFB, 0xFF]) == [62, 63, 60];
  }

  lemma SortedPair(m: map<string, Json>)
    requires m.Keys == {"a", "b"}
    ensures SortedKeys(Utf16Order, m.Keys) == ["a", "b"]
  {
    var keys := ["a", "b"];
    assert Utf16.Encode("a") == [0x61] && Utf16.Encode("b") == [0x62];
    assert StrictlySorted(Utf16Order, keys) && Elements(keys) == m.Keys;
    SortedUnique(Utf16Order, keys, SortedKeys(Utf16Order, m.Keys));
  }

  /** Any object with the members `a` and `b`: sorted members, colons, commas, no white space. */
  lemma TwoMemberObject(m: map<string, Json>)
    requires m.Keys == {"a", "b"}
    ensures Jcs.Print(Obj(m)) == "{\"a\":" + Jcs.Print(m["a"]) + ",\"b\":" + Jcs.Print(m["b"]) + "}"
  {
    TwoMemberText(m);
    QuotedNames();
    hide *;
    Glue(Jcs.Quote("a"), Jcs.Print(m["a"]), Jcs.Quote("b"), Jcs.Print(m["b"]));
  }

  lemma TwoMemberText(m: map<string, Json>)
    requires m.Keys == {"a", "b"}
    ensures Jcs.Print(Obj(m)) == "{" + (Jcs.Quote("a") + ":" + Jcs.Print(m["a"]) + ","
      + (Jcs.Quote("b") + ":" + Jcs.Print(m["b"])) + "}")
  {
    SortedPair(m);
    TwoMembers("a", "b", Obj(m));
    Jcs.ObjectText(Obj(m), ["a", "b"]);
    hide Jcs.PrintMembers, Jcs.Print, Jcs.Quote, SortedKeys, StrictlySorted, FloatFree;
  }

  lemma QuotedNames()
    ensures "{" + Jcs.Quote("a") + ":" == "{\"a\":" && "," + Jcs.Quote("b") + ":" == ",\"b\":"
  {
    QuoteOne('a');
    QuoteOne('b');
  }

  lemma Glue(k: string, x: string, l: string, y: string)
    ensures "{" + (k + ":" + x + "," + (l + ":" + y) + "}") == ("{" + k + ":") + x + ("," + l + ":") + y + "}"
  {
  }

  /** Any array of two items. */
  lemma TwoItemArray(x: Json, y: Json)
    ensures Jcs.Print(Arr([x, y])) == "[" + Jcs.Print(x) + "," + Jcs.Print(y) + "]"
  {
    TwoItems(x, y);
    Jcs.ArrayText(Arr([x, y]));
    hide Jcs.PrintItems, Jcs.Print, FloatFree;
  }

  lemma QuoteOne(c: char)
    requires 'a' <= c <= 'z'
    ensures Jcs.Quote([c]) == "\"" + [c] + "\""
  {
    assert [c][1..] == "";
    assert Jcs.EscapeAll([c]) == Jcs.Escape(c) + "";
  }

  lemma TwoItems(x: Json, y: Json)
    ensures Jcs.PrintItems([x, y]) == Jcs.Print(x) + "," + Jcs.Print(y)
  {
    hide Jcs.Print;
    assert [x, y][1..] == [y];
    assert Jcs.PrintItems([y]) == Jcs.Print(y);
  }

  lemma TwoMembers(k: string, l: string, v: Json)
    requires v.Obj? && k in v.members && l in v.members
    ensures Jcs.PrintMembers([k, l], v)
      == Jcs.Quote(k) + ":" + Jcs.Print(v.members[k]) + "," + (Jcs.Quote(l) + ":" + Jcs.Print(v.members[l]))
  {
    hide Jcs.Print, Jcs.Quote;
    assert [k, l][1..] == [l];
    assert Jcs.PrintMembers([l], v) == Jcs.Quote(l) + ":" + Jcs.Print(v.members[l]);
  }
}
