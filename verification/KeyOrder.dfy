/** The two orders in which the envelope code visits the keys of an object: UTF-16 code units
    (the canonical form) and bytes (the number walk). */
module KeyOrder {
  import Lexicographic
  import Utf16
  import Utf8

  datatype Order = Utf16Order | ByteOrder

  function Units(o: Order, s: string): seq<int> {
    match o
    case Utf16Order => Utf16.Encode(s)
    case ByteOrder => Utf8.Encode(s)
  }

  predicate Less(o: Order, a: string, b: string) {
    Lexicographic.Less(Units(o, a), Units(o, b))
  }

  function CodePoints(s: string): seq<int> {
    seq(|s|, i requires 0 <= i < |s| => s[i] as int)
  }

  /** Both orders are strict total orders on texts: the encodings lose nothing. */
  lemma StrictTotalOrder(o: Order, a: string, b: string, c: string)
    ensures !Less(o, a, a)
    ensures Less(o, a, b) && Less(o, b, c) ==> Less(o, a, c)
    ensures Less(o, a, b) || a == b || Less(o, b, a)
    ensures !(Less(o, a, b) && Less(o, b, a))
  {
    var ua, ub, uc := Units(o, a), Units(o, b), Units(o, c);
    Lexicographic.Irreflexive(ua);
    Lexicographic.Trichotomy(ua, ub);
    if Less(o, a, b) {
      Lexicographic.Asymmetric(ua, ub);
      if Less(o, b, c) {
        Lexicographic.Transitive(ua, ub, uc);
      }
    }
    if ua == ub {
      if o == Utf16Order {
        Utf16.Injective(a, b);
      } else {
        Utf8.Injective(a, b);
      }
    }
  }

  // ---- How the two orders relate -------------------------------------------------------

  lemma {:induction false} Utf8Concat(a: string, b: string)
    ensures Utf8.Encode(a + b) == Utf8.Encode(a) + Utf8.Encode(b)
  {
    if a == "" {
      assert a + b == b;
    } else {
      assert (a + b)[1..] == a[1..] + b;
      Utf8Concat(a[1..], b);
    }
  }

  /** Byte order is code-point order. */
  lemma {:induction false} ByteOrderIsCodePointOrder(a: string, b: string)
    ensures Less(ByteOrder, a, b) <==> Lexicographic.Less(CodePoints(a), CodePoints(b))
  {
    if a != "" && b != "" {
      assert CodePoints(a)[1..] == CodePoints(a[1..]) && CodePoints(b)[1..] == CodePoints(b[1..]);
      var x, y := Utf8.Encode(a[1..]), Utf8.Encode(b[1..]);
      if a[0] == b[0] {
        Lexicographic.SharedPrefix(Utf8.EncodeChar(a[0]), x, y);
        ByteOrderIsCodePointOrder(a[1..], b[1..]);
      } else if a[0] < b[0] {
        Utf8.CharOrder(a[0], b[0], x, y);
      } else {
        Utf8.CharOrder(b[0], a[0], y, x);
        Lexicographic.Asymmetric(Utf8.Encode(b), Utf8.Encode(a));
      }
    }
  }

  predicate Supplementary(c: char) {
    c as int >= 0x10000
  }

  /** The range of the Basic Multilingual Plane above the surrogates. */
  predicate AboveSurrogates(c: char) {
    0xE000 <= c as int < 0x10000
  }

  lemma Utf16CharOrder(c: char, d: char)
    requires c != d
    ensures Lexicographic.Less(Utf16.EncodeChar(c), Utf16.EncodeChar(d))
      <==> if Supplementary(c) && AboveSurrogates(d) then true
           else if AboveSurrogates(c) && Supplementary(d) then false
           else c < d
  {
    var a, b := Utf16.EncodeChar(c), Utf16.EncodeChar(d);
    if a[0] != b[0] {
      Lexicographic.FirstDifference(a, b, 0);
    } else {
      Lexicographic.FirstDifference(a, b, 1);
    }
  }

  /** The length of the longest common prefix. */
  function Common(a: string, b: string): (n: nat)
    ensures n <= |a| && n <= |b| && a[..n] == b[..n]
    ensures n < |a| && n < |b| ==> a[n] != b[n]
  {
    if a == "" || b == "" || a[0] != b[0] then 0
    else
      var n := Common(a[1..], b[1..]);
      assert a[..n + 1] == [a[0]] + a[1..][..n] && b[..n + 1] == [b[0]] + b[1..][..n];
      n + 1
  }

  /** At the first character where the texts differ, one has a supplementary character and the
      other a character in U+E000..U+FFFF. */
  predicate Clash(a: string, b: string) {
    var i := Common(a, b);
    i < |a| && i < |b|
    && ((Supplementary(a[i]) && AboveSurrogates(b[i])) || (AboveSurrogates(a[i]) && Supplementary(b[i])))
  }

  lemma StripPrefix(o: Order, p: string, x: string, y: string)
    ensures Less(o, p + x, p + y) == Less(o, x, y)
  {
    match o
    case Utf16Order =>
      Utf16.EncodeConcat(p, x);
      Utf16.EncodeConcat(p, y);
      Lexicographic.SharedPrefix(Utf16.Encode(p), Utf16.Encode(x), Utf16.Encode(y));
    case ByteOrder =>
      Utf8Concat(p, x);
      Utf8Concat(p, y);
      Lexicographic.SharedPrefix(Utf8.Encode(p), Utf8.Encode(x), Utf8.Encode(y));
  }

  /** The empty text is below every other one, in both orders. */
  lemma EmptyIsLeast(o: Order, x: string)
    ensures Less(o, "", x) == (x != "")
    ensures !Less(o, x, "")
  {
    assert Units(o, "") == [];
    if x != "" {
      assert |Units(o, x)| > 0;
    }
  }

  /** The two orders disagree on exactly the clashing pairs. */
  lemma OrdersDisagreeIff(a: string, b: string)
    ensures (Less(Utf16Order, a, b) != Less(ByteOrder, a, b)) <==> Clash(a, b)
  {
    var i := Common(a, b);
    var p, x, y := a[..i], a[i..], b[i..];
    assert a == p + x && b == p + y;
    StripPrefix(Utf16Order, p, x, y);
    StripPrefix(ByteOrder, p, x, y);
    if x == "" {
      EmptyIsLeast(Utf16Order, y);
      EmptyIsLeast(ByteOrder, y);
    } else if y == "" {
      EmptyIsLeast(Utf16Order, x);
      EmptyIsLeast(ByteOrder, x);
    } else {
      ClashAtHead(x, y);
    }
  }

  lemma ClashAtHead(a: string, b: string)
    requires a != "" && b != "" && a[0] != b[0]
    ensures (Less(Utf16Order, a, b) != Less(ByteOrder, a, b))
      <==> (Supplementary(a[0]) && AboveSurrogates(b[0])) || (AboveSurrogates(a[0]) && Supplementary(b[0]))
  {
    Utf16.CharOrder(a[0], b[0], Utf16.Encode(a[1..]), Utf16.Encode(b[1..]));
    Utf16CharOrder(a[0], b[0]);
    ByteOrderIsCodePointOrder(a, b);
  }

  predicate HasSupplementary(s: string) {
    exists i :: 0 <= i < |s| && Supplementary(s[i])
  }

  /** Without supplementary characters the canonical order is code-point order. */
  lemma {:induction false} AgreeOnBmp(a: string, b: string)
    requires !HasSupplementary(a) && !HasSupplementary(b)
    ensures Less(Utf16Order, a, b) <==> Lexicographic.Less(CodePoints(a), CodePoints(b))
  {
    assert forall i :: 0 <= i < |a| ==> !Supplementary(a[i]);
    assert forall i :: 0 <= i < |b| ==> !Supplementary(b[i]);
    if a != "" && b != "" {
      assert CodePoints(a)[1..] == CodePoints(a[1..]) && CodePoints(b)[1..] == CodePoints(b[1..]);
      AgreeOnBmp(a[1..], b[1..]);
      assert Utf16.Encode(a)[1..] == Utf16.Encode(a[1..]) && Utf16.Encode(b)[1..] == Utf16.Encode(b[1..]);
    }
  }

  // ---- Sorted key lists ----------------------------------------------------------------

  ghost predicate StrictlySorted(o: Order, q: seq<string>) {
    forall i, j :: 0 <= i < j < |q| ==> Less(o, q[i], q[j])
  }

  function Elements(q: seq<string>): set<string> {
    set k | k in q
  }

  /** Smaller than every key of the set. */
  ghost predicate Below(o: Order, k: string, s: set<string>) {
    forall x :: x in s ==> Less(o, k, x)
  }

  lemma {:induction false} SortedUnique(o: Order, p: seq<string>, q: seq<string>)
    requires StrictlySorted(o, p) && StrictlySorted(o, q) && Elements(p) == Elements(q)
    ensures p == q
  {
    assert p != [] ==> p[0] in Elements(p);
    assert q != [] ==> q[0] in Elements(q);
    if p != [] && q != [] {
      assert p[0] in Elements(q) && q[0] in Elements(p);
      StrictTotalOrder(o, p[0], q[0], p[0]);
      assert p[0] == q[0];
      TailElements(o, p);
      TailElements(o, q);
      SortedUnique(o, p[1..], q[1..]);
      assert p == [p[0]] + p[1..] && q == [q[0]] + q[1..];
    }
  }

  lemma TailElements(o: Order, p: seq<string>)
    requires p != [] && StrictlySorted(o, p)
    ensures StrictlySorted(o, p[1..])
    ensures Elements(p[1..]) == Elements(p) - {p[0]}
    ensures Below(o, p[0], Elements(p[1..]))
  {
    forall k | k in p[1..]
      ensures Less(o, p[0], k) && k != p[0]
    {
      var i :| 0 <= i < |p[1..]| && p[1..][i] == k;
      assert p[i + 1] == k;
      StrictTotalOrder(o, p[0], k, k);
    }
    forall k | k in p && k != p[0]
      ensures k in p[1..]
    {
      var i :| 0 <= i < |p| && p[i] == k;
      assert p[1..][i - 1] == k;
    }
  }

  lemma {:induction false} SortedExists(o: Order, s: set<string>) returns (q: seq<string>)
    ensures StrictlySorted(o, q) && Elements(q) == s
    decreases |s|
  {
    if s == {} {
      q := [];
    } else {
      var m := Minimum(o, s);
      var t := SortedExists(o, s - {m});
      q := [m] + t;
      PrependSorted(o, m, t);
    }
  }

  lemma PrependSorted(o: Order, k: string, q: seq<string>)
    requires StrictlySorted(o, q) && Below(o, k, Elements(q))
    ensures StrictlySorted(o, [k] + q) && Elements([k] + q) == {k} + Elements(q)
  {
    hide Less;
    assert forall i :: 0 <= i < |q| ==> q[i] in Elements(q);
    var r := [k] + q;
    assert forall i :: 0 < i < |r| ==> r[i] == q[i - 1];
    assert r[0] == k;
  }

  lemma {:induction false} Minimum(o: Order, s: set<string>) returns (m: string)
    requires s != {}
    ensures m in s && Below(o, m, s - {m})
    decreases |s|
  {
    var x :| x in s;
    m := x;
    if s != {x} {
      assert s - {x} != {} by {
        assert s == {x} + (s - {x});
      }
      var n := Minimum(o, s - {x});
      StrictTotalOrder(o, x, n, n);
      if Less(o, n, x) {
        m := n;
      } else {
        forall y | y in s - {x}
          ensures Less(o, x, y)
        {
          StrictTotalOrder(o, x, n, y);
        }
      }
    }
  }

  /** The one strictly sorted list of the keys in `s`. */
  ghost function SortedKeys(o: Order, s: set<string>): (q: seq<string>)
    ensures StrictlySorted(o, q) && Elements(q) == s
  {
    assert exists q :: StrictlySorted(o, q) && Elements(q) == s by {
      var q := SortedExists(o, s);
    }
    var q :| StrictlySorted(o, q) && Elements(q) == s;
    q
  }
}
