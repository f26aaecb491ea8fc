/** The base64url text of a signature (RFC 4648, sections 3.5 and 5), without padding. */
module Base64Url {
  import opened Wrappers
  import opened EnvelopeErrors
  import opened Utf8

  /** The alphabet of RFC 4648, section 5. */
  function CharOf(i: int): char
    requires 0 <= i < 64
  {
    if i < 26 then ('A' as int + i) as char
    else if i < 52 then ('a' as int + i - 26) as char
    else if i < 62 then ('0' as int + i - 52) as char
    else if i == 62 then '-' else '_'
  }

  function ValueOf(c: char): (r: Option<int>)
    ensures r.Some? ==> 0 <= r.value < 64 && CharOf(r.value) == c
  {
    if 'A' <= c <= 'Z' then Some(c as int - 'A' as int)
    else if 'a' <= c <= 'z' then Some(c as int - 'a' as int + 26)
    else if '0' <= c <= '9' then Some(c as int - '0' as int + 52)
    else if c == '-' then Some(62) else if c == '_' then Some(63) else None
  }

  lemma ValueOfChar(i: int)
    requires 0 <= i < 64
    ensures ValueOf(CharOf(i)) == Some(i)
    ensures CharOf(i) != '=' && CharOf(i) != '\n' && CharOf(i) != '\r'
  {
  }

  /** The alphabet in four runs and two signs: where each begins, and that a run goes on in order. */
  lemma Alphabet(i: int)
    requires 0 <= i < 63
    ensures CharOf(0) == 'A' && CharOf(26) == 'a' && CharOf(52) == '0' && CharOf(62) == '-' && CharOf(63) == '_'
    ensures i + 1 !in {26, 52, 62, 63} ==> CharOf(i + 1) as int == CharOf(i) as int + 1
  {
  }

  type Sextets = q: seq<int> | forall i :: 0 <= i < |q| ==> 0 <= q[i] < 64

  // ---- Encoding -------------------------------------------------------------------------

  function FourSextets(a: byte, b: byte, c: byte): (q: Sextets)
    ensures |q| == 4
  {
    [a / 4, a % 4 * 16 + b / 16, b % 16 * 4 + c / 64, c % 64]
  }

  function ToSextets(b: Bytes): Sextets {
    if |b| == 0 then []
    else if |b| == 1 then [b[0] / 4, b[0] % 4 * 16]
    else if |b| == 2 then [b[0] / 4, b[0] % 4 * 16 + b[1] / 16, b[1] % 16 * 4]
    else FourSextets(b[0], b[1], b[2]) + ToSextets(b[3..])
  }

  function BytesNumber(a: int, b: int, c: int): int {
    (a * 256 + b) * 256 + c
  }

  function SextetsNumber(w: int, x: int, y: int, z: int): int {
    ((w * 64 + x) * 64 + y) * 64 + z
  }

  /** The sextets from `at` on hold the bits of the bytes `b`: four of them those of three bytes, and
      the last ones those of one or two bytes followed by zero bits. */
  predicate HoldBits(q: Sextets, at: nat, b: Bytes) {
    && (|b| >= 3 ==>
        && at + 4 <= |q|
        && SextetsNumber(q[at], q[at + 1], q[at + 2], q[at + 3]) == BytesNumber(b[0], b[1], b[2]))
    && (|b| == 2 ==>
        && |q| == at + 3
        && SextetsNumber(q[at], q[at + 1], q[at + 2], 0) == BytesNumber(b[0], b[1], 0))
    && (|b| == 1 ==>
        && |q| == at + 2
        && SextetsNumber(q[at], q[at + 1], 0, 0) == BytesNumber(b[0], 0, 0))
  }

  /** Read as numbers, every group of the encoding holds the bits of its bytes. */
  lemma {:induction false} GroupsHoldTheBits(b: Bytes, g: nat)
    requires 3 * g < |b|
    ensures |ToSextets(b)| == (|b| * 4 + 2) / 3
    ensures HoldBits(ToSextets(b), 4 * g, b[3 * g..])
  {
    SextetCount(b);
    hide HoldBits, ToSextets, FourSextets;
    if g == 0 {
      FirstGroupBits(b);
      assert b[0..] == b;
    } else {
      GroupsHoldTheBits(b[3..], g - 1);
      FirstThree(b);
      assert b[3..][3 * (g - 1)..] == b[3 * g..];
      BitsShift(FourSextets(b[0], b[1], b[2]), ToSextets(b[3..]), 4 * (g - 1), b[3 * g..]);
    }
  }

  lemma BitsShift(front: Sextets, q: Sextets, at: nat, b: Bytes)
    requires HoldBits(q, at, b)
    ensures HoldBits(front + q, |front| + at, b)
  {
    hide SextetsNumber, BytesNumber;
  }

  lemma {:induction false} SextetCount(b: Bytes)
    ensures |ToSextets(b)| == (|b| * 4 + 2) / 3
  {
    if |b| >= 3 {
      SextetCount(b[3..]);
    }
  }

  lemma FirstGroupBits(b: Bytes)
    requires b != []
    ensures HoldBits(ToSextets(b), 0, b)
  {
    if |b| >= 3 {
      FirstThree(b);
      FourSextetsBits(b[0], b[1], b[2]);
      hide ToSextets, FourSextets, SextetsNumber, BytesNumber;
    }
  }

  lemma FourSextetsBits(a: byte, b: byte, c: byte)
    ensures var q := FourSextets(a, b, c); SextetsNumber(q[0], q[1], q[2], q[3]) == BytesNumber(a, b, c)
  {
  }

  function ToChars(q: Sextets): string {
    seq(|q|, i requires 0 <= i < |q| => CharOf(q[i]))
  }

  /** `base64.RawURLEncoding.EncodeToString`. */
  function EncodeSignature(mac: Bytes): string {
    ToChars(ToSextets(mac))
  }

  // ---- Decoding -------------------------------------------------------------------------

  /** The decoder skips line breaks. */
  function WithoutBreaks(s: string): (t: string)
    ensures |t| <= |s|
    ensures |t| == |s| ==> t == s
  {
    if s == "" then ""
    else if s[0] == '\n' || s[0] == '\r' then WithoutBreaks(s[1..])
    else
      assert s == [s[0]] + s[1..];
      [s[0]] + WithoutBreaks(s[1..])
  }

  lemma CharsOfMore(x: int, q: Sextets, s: string)
    requires s != "" && 0 <= x < 64 && CharOf(x) == s[0] && ToChars(q) == s[1..]
    ensures ToChars([x] + q) == s
  {
    hide CharOf;
    assert s == [s[0]] + s[1..];
    assert ToChars([x] + q) == [CharOf(x)] + ToChars(q);
  }

  function FromChars(s: string): (r: Option<Sextets>)
    ensures r.Some? ==> |r.value| == |s| && ToChars(r.value) == s
  {
    if s == "" then Some([])
    else
      match (ValueOf(s[0]), FromChars(s[1..]))
      case (Some(x), Some(q)) =>
        CharsOfMore(x, q, s);
        Some([x] + q)
      case _ => None
  }

  function ThreeBytes(q: Sextets): (b: Bytes)
    requires |q| == 4
    ensures |b| == 3
  {
    [q[0] * 4 + q[1] / 16, q[1] % 16 * 16 + q[2] / 4, q[2] % 4 * 64 + q[3]]
  }

  /** Four characters give three bytes; the bits of a last short group that fill no byte are
      ignored, and a last group of one character is an error. */
  function FromSextets(q: Sextets): (r: Option<Bytes>)
    ensures r.Some? ==> |q| == (|r.value| * 4 + 2) / 3
  {
    if |q| == 0 then Some([])
    else if |q| == 1 then None
    else if |q| == 2 then Some([q[0] * 4 + q[1] / 16])
    else if |q| == 3 then Some([q[0] * 4 + q[1] / 16, q[1] % 16 * 16 + q[2] / 4])
    else
      match FromSextets(q[4..])
      case None => None
      case Some(b) => Some(ThreeBytes(q[..4]) + b)
  }

  /** `base64.RawURLEncoding.DecodeString`. */
  function RawDecode(s: string): Option<Bytes> {
    match FromChars(WithoutBreaks(s))
    case None => None
    case Some(q) => FromSextets(q)
  }

  /** Line breaks do not matter to the raw decoder. */
  lemma BreaksAreSkipped(s: string, c: char, t: string)
    requires c == '\n' || c == '\r'
    ensures RawDecode(s + [c] + t) == RawDecode(s + t)
  {
    BreakIsSkipped(s, c, t);
    hide WithoutBreaks, FromChars, FromSextets;
  }

  lemma {:induction false} BreakIsSkipped(s: string, c: char, t: string)
    requires c == '\n' || c == '\r'
    ensures WithoutBreaks(s + [c] + t) == WithoutBreaks(s + t)
  {
    if s == "" {
      assert (s + [c] + t)[1..] == t && s + t == t;
    } else {
      BreakIsSkipped(s[1..], c, t);
      assert (s + [c] + t)[1..] == s[1..] + [c] + t && (s + t)[1..] == s[1..] + t;
    }
  }

  /** `strings.TrimRight(s, "=")`. */
  function TrimRight(s: string): (t: string)
    ensures t <= s && (forall i :: |t| <= i < |s| ==> s[i] == '=')
    ensures t != "" ==> t[|t| - 1] != '='
  {
    if s != "" && s[|s| - 1] == '=' then TrimRight(s[..|s| - 1]) else s
  }

  function DecodeSignature(encoded: string): Result<Bytes, Error> {
    if encoded == "" then Err(ErrSchema)
    else
      var trimmed := TrimRight(encoded);
      match RawDecode(trimmed)
      case None => Err(ErrSchema)
      case Some(decoded) =>
        if EncodeSignature(decoded) != trimmed then Err(ErrSchema) else Ok(decoded)
  }

  // ---- Decoding undoes encoding ---------------------------------------------------------

  /** Four sextets carry three bytes, bit for bit. */
  lemma FullGroup(b: Bytes, q: Sextets)
    requires |b| == 3 && |q| == 4
    ensures ThreeBytes(q) == b <==> q == FourSextets(b[0], b[1], b[2])
  {
    assert q == [q[0], q[1], q[2], q[3]] && b == [b[0], b[1], b[2]];
    GroupBits(b[0], b[1], b[2], q[0], q[1], q[2], q[3]);
  }

  lemma GroupBits(a: byte, b: byte, c: byte, w: int, x: int, y: int, z: int)
    requires 0 <= w < 64 && 0 <= x < 64 && 0 <= y < 64 && 0 <= z < 64
    ensures (w * 4 + x / 16 == a && x % 16 * 16 + y / 4 == b && y % 4 * 64 + z == c)
      <==> (w == a / 4 && x == a % 4 * 16 + b / 16 && y == b % 16 * 4 + c / 64 && z == c % 64)
  {
    ShortGroup(a, b, w, x, y);
  }

  /** Three sextets carry two bytes and two spare bits. */
  lemma ShortGroup(a: byte, b: byte, w: int, x: int, y: int)
    requires 0 <= w < 64 && 0 <= x < 64 && 0 <= y < 64
    ensures (w * 4 + x / 16 == a && x % 16 * 16 + y / 4 == b)
      <==> (w == a / 4 && x == a % 4 * 16 + b / 16 && y / 4 == b % 16)
  {
  }

  lemma {:induction false} SextetsRoundTrip(b: Bytes)
    ensures FromSextets(ToSextets(b)) == Some(b)
  {
    if |b| < 3 {
      ShortRoundTrip(b);
    } else {
      hide ToSextets, FromSextets, FourSextets, ThreeBytes;
      SextetsRoundTrip(b[3..]);
      FirstThree(b);
      FullGroup(b[..3], FourSextets(b[0], b[1], b[2]));
      GroupOf(FourSextets(b[0], b[1], b[2]), ToSextets(b[3..]));
      assert b == b[..3] + b[3..];
    }
  }

  lemma FirstThree(b: Bytes)
    requires |b| >= 3
    ensures ToSextets(b) == FourSextets(b[0], b[1], b[2]) + ToSextets(b[3..])
  {
    hide FourSextets;
  }

  lemma ShortRoundTrip(b: Bytes)
    requires |b| < 3
    ensures FromSextets(ToSextets(b)) == Some(b)
  {
    if |b| == 1 {
      OneByte(b[0]);
      assert b == [b[0]];
    } else if |b| == 2 {
      var q := ToSextets(b);
      TwoByteSextets(b);
      ThreeSextetBytes(q);
      hide *;
      ShortGroupBytes(b, q);
    }
  }

  lemma OneByte(b: byte)
    ensures FromSextets(ToSextets([b])) == Some([b])
  {
    assert ToSextets([b]) == [b / 4, b % 4 * 16];
    assert b / 4 * 4 + b % 4 * 16 / 16 == b;
  }

  lemma GroupOf(g: Sextets, rest: Sextets)
    requires |g| == 4
    ensures FromSextets(g + rest)
      == if FromSextets(rest).None? then None else Some(ThreeBytes(g) + FromSextets(rest).value)
  {
    hide ThreeBytes;
    assert (g + rest)[..4] == g && (g + rest)[4..] == rest;
  }

  lemma {:induction false} CharsRoundTrip(q: Sextets)
    ensures WithoutBreaks(ToChars(q)) == ToChars(q)
    ensures FromChars(ToChars(q)) == Some(q)
  {
    hide CharOf, ValueOf;
    if q != [] {
      ValueOfChar(q[0]);
      assert ToChars(q)[1..] == ToChars(q[1..]);
      CharsRoundTrip(q[1..]);
      assert q == [q[0]] + q[1..];
      assert ToChars(q) == [CharOf(q[0])] + ToChars(q[1..]);
    }
  }

  lemma RawRoundTrip(b: Bytes)
    ensures RawDecode(EncodeSignature(b)) == Some(b)
  {
    CharsRoundTrip(ToSextets(b));
    SextetsRoundTrip(b);
  }

  lemma EncodingHasNoPadding(b: Bytes)
    ensures TrimRight(EncodeSignature(b)) == EncodeSignature(b)
    ensures EncodeSignature(b) == "" <==> b == []
  {
    var q := ToSextets(b);
    if q != [] {
      ValueOfChar(q[|q| - 1]);
    }
  }

  /** A non-empty text is accepted exactly when, without its trailing `=`, it is the encoding of
      some bytes; and it is those bytes that are returned. Every refusal is a schema error. */
  lemma DecodeAcceptsExactlyEncodings(s: string, b: Bytes)
    ensures DecodeSignature(s) == Ok(b) <==> s != "" && TrimRight(s) == EncodeSignature(b)
    ensures DecodeSignature(s).Err? ==> DecodeSignature(s).error == ErrSchema
  {
    RawRoundTrip(b);
  }

  /** Each MAC has one spelling up to trailing `=`. */
  lemma OneSpelling(s: string, t: string)
    requires DecodeSignature(s).Ok? && DecodeSignature(s) == DecodeSignature(t)
    ensures TrimRight(s) == TrimRight(t)
  {
    var b := DecodeSignature(s).value;
    DecodeAcceptsExactlyEncodings(s, b);
    DecodeAcceptsExactlyEncodings(t, b);
  }

  // ---- What the re-encoding check removes -----------------------------------------------

  /** The text of `q` with the last sextet raised by `k`. */
  function Respell(q: Sextets, k: int): string
    requires q != [] && 0 <= k < 4 && q[|q| - 1] % 4 == 0
  {
    ToChars(q[|q| - 1 := q[|q| - 1] + k])
  }

  lemma {:induction false} LastSextetOfTwoBytes(b: Bytes)
    requires |b| % 3 == 2
    ensures var q := ToSextets(b); q != [] && q[|q| - 1] % 4 == 0 && |q| == (|b| * 4 + 2) / 3
  {
    if |b| > 2 {
      LastSextetOfTwoBytes(b[3..]);
      assert ToSextets(b)[|ToSextets(b)| - 1] == ToSextets(b[3..])[|ToSextets(b[3..])| - 1];
    }
  }

  /** `q` is the encoding of `b` up to the two spare bits of the last sextet. */
  predicate SameButSpareBits(q: Sextets, e: Sextets)
    requires e != []
  {
    |q| == |e| && q[..|e| - 1] == e[..|e| - 1] && q[|e| - 1] / 4 == e[|e| - 1] / 4
  }

  /** The sextet strings that decode to `b` are its encoding with the two spare bits at will. */
  lemma {:induction false} SpareBits(b: Bytes, q: Sextets)
    requires |b| % 3 == 2
    ensures ToSextets(b) != []
    ensures FromSextets(q) == Some(b) <==> SameButSpareBits(q, ToSextets(b))
    decreases |b|
  {
    hide *;
    LastSextetOfTwoBytes(b);
    if |q| != |ToSextets(b)| {
      SpareBitsLength(b, q);
    } else if |b| == 2 {
      LastGroup(b, q);
    } else {
      FourMore(b, q);
      SpareBits(b[3..], q[4..]);
      SpareBitsStep(b, q);
    }
  }

  lemma SpareBitsStep(b: Bytes, q: Sextets)
    requires |b| >= 3 && |q| == |ToSextets(b)| >= 5 && ToSextets(b[3..]) != []
    requires FromSextets(q[4..]) == Some(b[3..]) <==> SameButSpareBits(q[4..], ToSextets(b[3..]))
    ensures FromSextets(q) == Some(b) <==> SameButSpareBits(q, ToSextets(b))
  {
    hide *;
    FirstGroup(b, q);
    SplitComparison(q, ToSextets(b));
  }

  lemma SpareBitsLength(b: Bytes, q: Sextets)
    requires ToSextets(b) != [] && |ToSextets(b)| == (|b| * 4 + 2) / 3 && |q| != |ToSextets(b)|
    ensures FromSextets(q) != Some(b) && !SameButSpareBits(q, ToSextets(b))
  {
  }

  lemma FourMore(b: Bytes, q: Sextets)
    requires |b| % 3 == 2 && |b| > 2 && |q| == |ToSextets(b)|
    ensures |q| >= 5
  {
    LastSextetOfTwoBytes(b);
  }

  lemma ThreeSextets(q: Sextets, e: Sextets)
    requires |q| == 3 && |e| == 3
    ensures SameButSpareBits(q, e) <==> q[0] == e[0] && q[1] == e[1] && q[2] / 4 == e[2] / 4
  {
    assert q[..2] == [q[0], q[1]] && e[..2] == [e[0], e[1]];
  }

  lemma TwoBytes(c: int, d: int, b: seq<int>)
    requires |b| == 2
    ensures [c, d] == b <==> c == b[0] && d == b[1]
  {
  }

  lemma LastGroup(b: Bytes, q: Sextets)
    requires |b| == 2 && |q| == 3
    ensures FromSextets(q) == Some(b) <==> SameButSpareBits(q, ToSextets(b))
  {
    TwoByteSextets(b);
    ThreeSextetBytes(q);
    hide *;
    ThreeSextets(q, ToSextets(b));
    ShortGroupBytes(b, q);
  }

  lemma ShortGroupBytes(b: Bytes, q: Sextets)
    requires |b| == 2 && |q| == 3
    ensures [q[0] * 4 + q[1] / 16, q[1] % 16 * 16 + q[2] / 4] == b
      <==> q[0] == b[0] / 4 && q[1] == b[0] % 4 * 16 + b[1] / 16 && q[2] / 4 == b[1] % 16
  {
    TwoBytes(q[0] * 4 + q[1] / 16, q[1] % 16 * 16 + q[2] / 4, b);
    ShortGroup(b[0], b[1], q[0], q[1], q[2]);
  }

  lemma TwoByteSextets(b: Bytes)
    requires |b| == 2
    ensures var e := ToSextets(b);
      |e| == 3 && e[0] == b[0] / 4 && e[1] == b[0] % 4 * 16 + b[1] / 16 && e[2] / 4 == b[1] % 16
  {
  }

  lemma ThreeSextetBytes(q: Sextets)
    requires |q| == 3
    ensures FromSextets(q) == Some([q[0] * 4 + q[1] / 16, q[1] % 16 * 16 + q[2] / 4])
  {
  }

  lemma SplitComparison(q: Sextets, e: Sextets)
    requires |q| == |e| >= 5
    ensures SameButSpareBits(q, e) <==> q[..4] == e[..4] && SameButSpareBits(q[4..], e[4..])
  {
    var n := |e| - 1;
    assert q[..n] == q[..4] + q[4..][..n - 4];
    assert e[..n] == e[..4] + e[4..][..n - 4];
    assert q[..4] == q[..n][..4] && e[..4] == e[..n][..4];
    assert q[4..][..n - 4] == q[..n][4..] && e[4..][..n - 4] == e[..n][4..];
  }

  lemma FirstGroup(b: Bytes, q: Sextets)
    requires |b| >= 3 && |q| >= 4
    ensures ToSextets(b)[4..] == ToSextets(b[3..])
    ensures FromSextets(q) == Some(b) <==> q[..4] == ToSextets(b)[..4] && FromSextets(q[4..]) == Some(b[3..])
  {
    FullGroup(b[..3], q[..4]);
    assert ToSextets(b)[..4] == FourSextets(b[0], b[1], b[2]);
    hide ThreeBytes, FourSextets, ToSextets;
    var r := FromSextets(q[4..]);
    assert b == b[..3] + b[3..];
    if r.Some? {
      var h := ThreeBytes(q[..4]);
      assert FromSextets(q) == Some(h + r.value);
      assert (h + r.value)[..3] == h && (h + r.value)[3..] == r.value;
    }
  }

  lemma RespellingsDiffer(q: Sextets, j: int, k: int)
    requires q != [] && q[|q| - 1] % 4 == 0 && 0 <= j < k < 4
    ensures Respell(q, j) != Respell(q, k)
  {
    var n := |q| - 1;
    ValueOfChar(q[n] + j);
    ValueOfChar(q[n] + k);
    assert Respell(q, j)[n] == CharOf(q[n] + j) && Respell(q, k)[n] == CharOf(q[n] + k);
  }

  /** Without the re-encoding check a 32-byte MAC would have exactly four 43-character spellings. */
  lemma FourSpellingsWithoutTheCheck(b: Bytes) returns (spellings: set<string>)
    requires |b| == 32
    ensures |spellings| == 4
    ensures forall s :: s in spellings <==> |s| == 43 && RawDecode(s) == Some(b)
  {
    hide ToSextets, RawDecode, Respell;
    var e := ToSextets(b);
    LastSextetOfTwoBytes(b);
    var s0, s1, s2, s3 := Respell(e, 0), Respell(e, 1), Respell(e, 2), Respell(e, 3);
    RespellingsDiffer(e, 0, 1);
    RespellingsDiffer(e, 0, 2);
    RespellingsDiffer(e, 0, 3);
    RespellingsDiffer(e, 1, 2);
    RespellingsDiffer(e, 1, 3);
    RespellingsDiffer(e, 2, 3);
    spellings := {s0, s1, s2, s3};
    forall s
      ensures s in spellings <==> |s| == 43 && RawDecode(s) == Some(b)
    {
      SpellingIff(b, s);
    }
  }

  predicate IsRespelling(e: Sextets, s: string)
    requires e != [] && e[|e| - 1] % 4 == 0
  {
    s == Respell(e, 0) || s == Respell(e, 1) || s == Respell(e, 2) || s == Respell(e, 3)
  }

  lemma SpellingIff(b: Bytes, s: string)
    requires |b| == 32
    requires var e := ToSextets(b); e != [] && e[|e| - 1] % 4 == 0
    ensures (|s| == 43 && RawDecode(s) == Some(b)) <==> IsRespelling(ToSextets(b), s)
  {
    hide *;
    LastSextetOfTwoBytes(b);
    if |s| == 43 && RawDecode(s) == Some(b) {
      SpellingIsRespelling(b, s);
    }
    if IsRespelling(ToSextets(b), s) {
      var k := RespellingChoice(ToSextets(b), s);
      RespellingIsSpelling(b, k);
    }
  }

  lemma RespellingChoice(e: Sextets, s: string) returns (k: int)
    requires e != [] && e[|e| - 1] % 4 == 0 && IsRespelling(e, s)
    ensures 0 <= k < 4 && s == Respell(e, k)
  {
    hide Respell;
    k :| 0 <= k < 4 && s == Respell(e, k);
  }

  lemma SpellingIsRespelling(b: Bytes, s: string)
    requires |b| == 32 && |s| == 43 && RawDecode(s) == Some(b)
    ensures var e := ToSextets(b); e != [] && e[|e| - 1] % 4 == 0 && IsRespelling(e, s)
  {
    hide ToSextets, FromSextets, FromChars;
    var e := ToSextets(b);
    LastSextetOfTwoBytes(b);
    var q := FromChars(WithoutBreaks(s)).value;
    SpareBits(b, q);
    var k := q[42] - e[42];
    assert k == 0 || k == 1 || k == 2 || k == 3;
    hide SameButSpareBits, WithoutBreaks;
    assert q == q[..42] + [q[42]] && e == e[..42] + [e[42]];
    assert q == e[42 := e[42] + k];
    assert s == Respell(e, k);
  }

  lemma RespellingIsSpelling(b: Bytes, k: int)
    requires |b| == 32 && 0 <= k < 4
    ensures var e := ToSextets(b);
      && e != [] && e[|e| - 1] % 4 == 0
      && |Respell(e, k)| == 43 && RawDecode(Respell(e, k)) == Some(b)
  {
    hide ToSextets, FromSextets, FromChars;
    var e := ToSextets(b);
    LastSextetOfTwoBytes(b);
    var q := e[42 := e[42] + k];
    assert q[..42] == e[..42] && q[42] / 4 == e[42] / 4;
    SpareBits(b, q);
    CharsRoundTrip(q);
    assert Respell(e, k) == ToChars(q);
  }
}
