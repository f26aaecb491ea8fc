/** UTF-16 as `unicode/utf16.Encode` produces it from the runes of a string. */
module Utf16 {
  import opened Wrappers
  import Lexicographic

  function EncodeChar(c: char): seq<int> {
    var v := c as int;
    if v < 0x10000 then [v]
    else [0xD800 + (v - 0x10000) / 0x400, 0xDC00 + (v - 0x10000) % 0x400]
  }

  /** One unit below U+10000, and otherwise a high and a low surrogate that carry ten bits each. */
  lemma EncodedForm(c: char)
    ensures c as int <= 0xFFFF ==> EncodeChar(c) == [c as int]
    ensures c as int >= 0x10000 ==>
      var u := EncodeChar(c);
      && |u| == 2 && 0xD800 <= u[0] <= 0xDBFF && 0xDC00 <= u[1] <= 0xDFFF
      && c as int == 0x10000 + (u[0] - 0xD800) * 1024 + (u[1] - 0xDC00)
  {
  }

  function Encode(s: string): seq<int> {
    if s == "" then [] else EncodeChar(s[0]) + Encode(s[1..])
  }

  /** Reads one scalar value off the front; lone surrogates are refused. */
  function DecodeChar(u: seq<int>): (r: Option<(char, seq<int>)>)
    ensures r.Some? ==> |r.value.1| < |u|
  {
    if u == [] then None
    else if 0 <= u[0] < 0xD800 || 0xE000 <= u[0] < 0x10000 then Some((u[0] as char, u[1..]))
    else if |u| >= 2 && 0xD800 <= u[0] < 0xDC00 && 0xDC00 <= u[1] < 0xE000 then
      Some(((0x10000 + (u[0] - 0xD800) * 0x400 + (u[1] - 0xDC00)) as char, u[2..]))
    else None
  }

  function Decode(u: seq<int>): Option<string> {
    if u == [] then Some("")
    else match DecodeChar(u)
      case None => None
      case Some((c, rest)) =>
        match Decode(rest)
        case None => None
        case Some(s) => Some([c] + s)
  }

  lemma DecodeCharInverts(c: char, rest: seq<int>)
    ensures DecodeChar(EncodeChar(c) + rest) == Some((c, rest))
  {
    var u := EncodeChar(c) + rest;
    if c as int < 0x10000 {
      assert u[1..] == rest;
    } else {
      assert u[2..] == rest;
    }
  }

  lemma {:induction false} DecodeInverts(s: string)
    ensures Decode(Encode(s)) == Some(s)
  {
    if s != "" {
      DecodeCharInverts(s[0], Encode(s[1..]));
      DecodeInverts(s[1..]);
      assert s == [s[0]] + s[1..];
    }
  }

  lemma Injective(a: string, b: string)
    requires Encode(a) == Encode(b)
    ensures a == b
  {
    DecodeInverts(a);
    DecodeInverts(b);
  }

  lemma {:induction false} EncodeConcat(a: string, b: string)
    ensures Encode(a + b) == Encode(a) + Encode(b)
  {
    if a == "" {
      assert a + b == b;
    } else {
      assert (a + b)[1..] == a[1..] + b;
      EncodeConcat(a[1..], b);
    }
  }

  /** The lead unit of a character alone decides the UTF-16 order of two different characters,
      except between two supplementary characters that share a lead surrogate. */
  lemma CharOrder(c: char, d: char, x: seq<int>, y: seq<int>)
    requires c != d
    ensures Lexicographic.Less(EncodeChar(c) + x, EncodeChar(d) + y)
      <==> Lexicographic.Less(EncodeChar(c), EncodeChar(d))
  {
    var a, b := EncodeChar(c), EncodeChar(d);
    assert forall k :: 0 <= k < |a| ==> (a + x)[k] == a[k];
    assert forall k :: 0 <= k < |b| ==> (b + y)[k] == b[k];
    if a[0] != b[0] {
      Lexicographic.FirstDifference(a, b, 0);
      Lexicographic.FirstDifference(a + x, b + y, 0);
    } else {
      assert a[..1] == b[..1] && (a + x)[..1] == (b + y)[..1];
      Lexicographic.FirstDifference(a, b, 1);
      Lexicographic.FirstDifference(a + x, b + y, 1);
    }
  }
}

/** UTF-8, the byte form in which a string builder hands over its text. */
module Utf8 {
  import Lexicographic

  type byte = x: int | 0 <= x < 0x100
  type Bytes = seq<byte>

  function EncodeChar(c: char): Bytes {
    var v := c as int;
    var q := v / 0x40;
    var p := q / 0x40;
    if v < 0x80 then [v]
    else if v < 0x800 then [0xC0 + q, 0x80 + v % 0x40]
    else if v < 0x10000 then [0xE0 + p, 0x80 + q % 0x40, 0x80 + v % 0x40]
    else [0xF0 + p / 0x40, 0x80 + p % 0x40, 0x80 + q % 0x40, 0x80 + v % 0x40]
  }

  /** The value so far, with the six bits of a trailing byte. */
  function Trail(n: int, u: int): int {
    n * 64 + (u - 0x80)
  }

  predicate Trailing(u: int) {
    0x80 <= u <= 0xBF
  }

  /** The four forms of RFC 3629, section 3: the lead byte's range, trailing bytes of six bits each,
      and the shortest form that holds the character. */
  lemma EncodedForm(c: char)
    ensures var u, v := EncodeChar(c), c as int;
      && (v <= 0x7F ==> u == [v])
      && (0x80 <= v <= 0x7FF ==>
        |u| == 2 && 0xC2 <= u[0] <= 0xDF && Trailing(u[1]) && v == Trail(u[0] - 0xC0, u[1]))
      && (0x800 <= v <= 0xFFFF ==>
        |u| == 3 && 0xE0 <= u[0] <= 0xEF && Trailing(u[1]) && Trailing(u[2])
        && v == Trail(Trail(u[0] - 0xE0, u[1]), u[2]))
      && (0x10000 <= v ==>
        |u| == 4 && 0xF0 <= u[0] <= 0xF4 && Trailing(u[1]) && Trailing(u[2]) && Trailing(u[3])
        && v == Trail(Trail(Trail(u[0] - 0xF0, u[1]), u[2]), u[3]))
  {
  }

  function Encode(s: string): Bytes {
    if s == "" then [] else EncodeChar(s[0]) + Encode(s[1..])
  }

  /** The number of bytes the lead byte announces. */
  function Width(lead: byte): nat {
    if lead < 0x80 then 1 else if lead < 0xE0 then 2 else if lead < 0xF0 then 3 else 4
  }

  lemma WidthOfEncoded(c: char)
    ensures |EncodeChar(c)| == Width(EncodeChar(c)[0])
  {
  }

  lemma Split64(v: nat)
    ensures v == v / 0x40 * 0x40 + v % 0x40 && 0 <= v % 0x40 < 0x40
  {
  }

  lemma CharInjective(c: char, d: char)
    requires EncodeChar(c) == EncodeChar(d)
    ensures c == d
  {
    if c < d {
      CharOrder(c, d, [], []);
      assert EncodeChar(c) + [] == EncodeChar(d) + [];
      Lexicographic.Irreflexive(EncodeChar(c) + []);
    } else if d < c {
      CharOrder(d, c, [], []);
      assert EncodeChar(c) + [] == EncodeChar(d) + [];
      Lexicographic.Irreflexive(EncodeChar(c) + []);
    }
  }

  /** The first byte at which the encodings of two different characters differ. */
  function FirstDiff(c: char, d: char): nat
    requires c < d
  {
    var v, w := c as int, d as int;
    if |EncodeChar(c)| != |EncodeChar(d)| || v < 0x80 then 0
    else if v / 0x40 == w / 0x40 then |EncodeChar(c)| - 1
    else if v < 0x800 || v / 0x40 / 0x40 == w / 0x40 / 0x40 then |EncodeChar(c)| - 2
    else if v < 0x10000 || v / 0x40 / 0x40 / 0x40 == w / 0x40 / 0x40 / 0x40 then |EncodeChar(c)| - 3
    else 0
  }

  lemma DivMod(v: nat, w: nat)
    requires v < w
    ensures v / 0x40 < w / 0x40 || (v / 0x40 == w / 0x40 && v % 0x40 < w % 0x40)
  {
    Split64(v);
    Split64(w);
  }

  /** Encodings of different widths differ in the lead byte. */
  lemma LeadByteDecides(c: char, d: char)
    requires c < d && |EncodeChar(c)| != |EncodeChar(d)|
    ensures EncodeChar(c)[0] < EncodeChar(d)[0]
  {
  }

  /** The encodings agree up to the `i`-th byte and are decided there. */
  predicate DecidedAt(c: char, d: char, i: nat) {
    var a, b := EncodeChar(c), EncodeChar(d);
    i < |a| && i < |b| && a[..i] == b[..i] && a[i] < b[i]
  }

  lemma FirstDiffDecides(c: char, d: char)
    requires c < d
    ensures DecidedAt(c, d, FirstDiff(c, d))
  {
    if |EncodeChar(c)| != |EncodeChar(d)| {
      LeadByteDecides(c, d);
    } else if c as int < 0x800 {
      TwoBytesDecide(c, d);
    } else if c as int < 0x10000 {
      ThreeBytesDecide(c, d);
    } else {
      FourBytesDecide(c, d);
    }
  }

  lemma TwoBytesDecide(c: char, d: char)
    requires c < d && |EncodeChar(c)| == |EncodeChar(d)| <= 2
    ensures DecidedAt(c, d, FirstDiff(c, d))
  {
    DivMod(c as int, d as int);
  }

  lemma ThreeBytesDecide(c: char, d: char)
    requires c < d && |EncodeChar(c)| == |EncodeChar(d)| == 3
    ensures DecidedAt(c, d, FirstDiff(c, d))
  {
    var v, w := c as int, d as int;
    DivMod(v, w);
    if v / 0x40 < w / 0x40 {
      DivMod(v / 0x40, w / 0x40);
    }
  }

  lemma FourBytesDecide(c: char, d: char)
    requires c < d && |EncodeChar(c)| == |EncodeChar(d)| == 4
    ensures DecidedAt(c, d, FirstDiff(c, d))
  {
    var v, w := c as int, d as int;
    DivMod(v, w);
    if v / 0x40 < w / 0x40 {
      DivMod(v / 0x40, w / 0x40);
      if v / 0x40 / 0x40 < w / 0x40 / 0x40 {
        DivMod(v / 0x40 / 0x40, w / 0x40 / 0x40);
      }
    }
  }

  /** UTF-8 is prefix-free, so equal byte strings come from equal texts. */
  lemma {:induction false} Injective(a: string, b: string)
    requires Encode(a) == Encode(b)
    ensures a == b
  {
    if a != "" && b != "" {
      var ea, eb := EncodeChar(a[0]), EncodeChar(b[0]);
      WidthOfEncoded(a[0]);
      WidthOfEncoded(b[0]);
      assert ea[0] == Encode(a)[0] && eb[0] == Encode(b)[0];
      assert ea == Encode(a)[..|ea|] && eb == Encode(b)[..|eb|];
      CharInjective(a[0], b[0]);
      assert Encode(a[1..]) == Encode(a)[|ea|..] && Encode(b[1..]) == Encode(b)[|eb|..];
      Injective(a[1..], b[1..]);
      assert a == [a[0]] + a[1..] && b == [b[0]] + b[1..];
    }
  }

  /** A zero byte can only come from a NUL character. */
  lemma {:induction false} ZeroOnlyFromNul(s: string)
    ensures 0 in Encode(s) <==> '\0' in s
  {
    if s != "" {
      ZeroOnlyFromNul(s[1..]);
      assert s == [s[0]] + s[1..];
      assert 0 in EncodeChar(s[0]) <==> s[0] == '\0';
    }
  }

  /** Comparing two different characters by their bytes compares their code points. */
  lemma CharOrder(c: char, d: char, x: Bytes, y: Bytes)
    requires c < d
    ensures Lexicographic.Less(EncodeChar(c) + x, EncodeChar(d) + y)
  {
    FirstDiffDecides(c, d);
    var a, b, i := EncodeChar(c), EncodeChar(d), FirstDiff(c, d);
    assert (a + x)[..i] == a[..i] && (b + y)[..i] == b[..i];
    Lexicographic.FirstDifference(a + x, b + y, i);
  }
}
