/** The parts of Go's `strings` package the executor relies on. */
module GoStrings {

  /** `unicode.IsSpace`. */
  predicate IsSpace(c: char) {
    var v := c as int;
    || 9 <= v <= 13 || v == 0x20 || v == 0x85 || v == 0xA0 || v == 0x1680 || 0x2000 <= v <= 0x200A
    || v == 0x2028 || v == 0x2029 || v == 0x202F || v == 0x205F || v == 0x3000
  }

  function TrimLeft(s: string): string {
    if s != "" && IsSpace(s[0]) then TrimLeft(s[1..]) else s
  }

  function TrimRight(s: string): string {
    if s != "" && IsSpace(s[|s| - 1]) then TrimRight(s[..|s| - 1]) else s
  }

  /** `strings.TrimSpace`. */
  function TrimSpace(s: string): string {
    TrimRight(TrimLeft(s))
  }

  /** Upper case as far as it can produce an ASCII letter: besides `a`..`z` only the dotless i and
      the long s map to one. */
  function UpperChar(c: char): char {
    if 'a' <= c <= 'z' then (c as int - 'a' as int + 'A' as int) as char
    else if c as int == 0x131 then 'I'
    else if c as int == 0x17F then 'S'
    else c
  }

  function ToUpper(s: string): string {
    seq(|s|, i requires 0 <= i < |s| => UpperChar(s[i]))
  }

  /** The white space of Unicode, code point by code point. */
  lemma SpacesAre(c: char)
    ensures IsSpace(c) <==> c as int in {
      0x9, 0xA, 0xB, 0xC, 0xD, 0x20, 0x85, 0xA0, 0x1680, 0x2000, 0x2001, 0x2002, 0x2003, 0x2004, 0x2005, 0x2006,
      0x2007, 0x2008, 0x2009, 0x200A, 0x2028, 0x2029, 0x202F, 0x205F, 0x3000}
  {
  }

  /** Nothing but white space. */
  predicate IsBlank(s: string) {
    forall i :: 0 <= i < |s| ==> IsSpace(s[i])
  }

  /** No white space at either end. */
  predicate IsTrimmed(s: string) {
    s != "" ==> !IsSpace(s[0]) && !IsSpace(s[|s| - 1])
  }

  /** Trimming takes blanks off both ends and leaves a trimmed text. */
  lemma TrimSpaceIs(s: string) returns (front: string, back: string)
    ensures s == front + TrimSpace(s) + back
    ensures IsBlank(front) && IsBlank(back) && IsTrimmed(TrimSpace(s))
  {
    var mid := TrimLeft(s);
    front := TrimLeftIs(s);
    back := TrimRightIs(mid);
    hide TrimLeft, TrimRight;
    if TrimSpace(s) != "" {
      assert mid[0] == TrimSpace(s)[0];
    }
  }

  lemma {:induction false} TrimLeftIs(s: string) returns (front: string)
    ensures s == front + TrimLeft(s) && IsBlank(front)
    ensures TrimLeft(s) != "" ==> !IsSpace(TrimLeft(s)[0])
  {
    if s != "" && IsSpace(s[0]) {
      var more := TrimLeftIs(s[1..]);
      front := [s[0]] + more;
    } else {
      front := "";
    }
  }

  lemma {:induction false} TrimRightIs(s: string) returns (back: string)
    ensures s == TrimRight(s) + back && IsBlank(back)
    ensures TrimRight(s) != "" ==> !IsSpace(TrimRight(s)[|TrimRight(s)| - 1])
  {
    if s != "" && IsSpace(s[|s| - 1]) {
      var more := TrimRightIs(s[..|s| - 1]);
      back := more + [s[|s| - 1]];
    } else {
      back := "";
    }
  }

  /** A text trims to nothing exactly when it is blank, and to itself exactly when it is trimmed. */
  lemma TrimSpaceIff(s: string)
    ensures TrimSpace(s) == "" <==> IsBlank(s)
    ensures TrimSpace(s) == s <==> IsTrimmed(s)
  {
    var front, back := TrimSpaceIs(s);
    var t := TrimSpace(s);
    hide TrimSpace, IsSpace;
    assert t != "" ==> s[|front|] == t[0];
    assert front != "" ==> s[0] == front[0];
    assert back != "" ==> s[|s| - 1] == back[|back| - 1];
  }

  /** Which characters become the upper-case letter, or the underscore, `k`. */
  predicate Raises(c: char, k: char) {
    || c == k
    || ('A' <= k <= 'Z' && c as int == k as int + 32)
    || (k == 'I' && c == '\U{131}') || (k == 'S' && c == '\U{17F}')
  }

  lemma UpperCharIs(c: char, k: char)
    requires 'A' <= k <= 'Z' || k == '_'
    ensures UpperChar(c) == k <==> Raises(c, k)
  {
  }

  /** `name` spells `key`, letter case aside. */
  predicate Spells(name: string, key: string) {
    |name| == |key| && forall i :: 0 <= i < |key| ==> Raises(name[i], key[i])
  }

  lemma ToUpperIff(name: string, key: string)
    requires forall i :: 0 <= i < |key| ==> 'A' <= key[i] <= 'Z' || key[i] == '_'
    ensures ToUpper(name) == key <==> Spells(name, key)
  {
    forall i | 0 <= i < |key| && i < |name|
      ensures UpperChar(name[i]) == key[i] <==> Raises(name[i], key[i])
    {
      UpperCharIs(name[i], key[i]);
    }
    hide UpperChar, Raises;
    if ToUpper(name) == key {
      assert forall i :: 0 <= i < |key| ==> ToUpper(name)[i] == UpperChar(name[i]);
    }
  }
}
