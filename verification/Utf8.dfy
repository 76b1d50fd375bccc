/** UTF-8 (section 3 of RFC 3629) of a UTF-16 string; a lone surrogate becomes U+FFFD, as text encoders do. */
module Utf8 {
  import opened Wrappers
  import opened BigEndian

  type CodeUnit = x: int | 0 <= x < 0x1_0000

  predicate IsScalar(v: int) {
    0 <= v < 0xD800 || 0xE000 <= v < 0x11_0000
  }

  type Scalar = v: int | 0 <= v < 0xD800 || 0xE000 <= v < 0x11_0000

  predicate IsHigh(c: int) {
    0xD800 <= c < 0xDC00
  }

  predicate IsLow(c: int) {
    0xDC00 <= c < 0xE000
  }

  // ---------- UTF-16 to scalar values ----------

  // How many code units the first scalar value takes.
  function Width(s: seq<CodeUnit>): (w: nat)
    requires s != []
    ensures 1 <= w <= 2 && w <= |s|
  {
    if IsHigh(s[0]) && |s| >= 2 && IsLow(s[1]) then 2 else 1
  }

  function First(s: seq<CodeUnit>): (v: Scalar)
    requires s != []
    ensures Width(s) == 2 <==> v >= 0x1_0000
  {
    if Width(s) == 2 then
      0x1_0000 + (s[0] as int - 0xD800) * 0x400 + (s[1] as int - 0xDC00)
    else if IsHigh(s[0]) || IsLow(s[0]) then 0xFFFD
    else s[0] as int
  }

  function Scalars(s: seq<CodeUnit>): seq<Scalar> {
    if s == [] then [] else [First(s)] + Scalars(s[Width(s)..])
  }

  predicate WellFormed(s: seq<CodeUnit>) {
    s != [] ==> !(Width(s) == 1 && (IsHigh(s[0]) || IsLow(s[0]))) && WellFormed(s[Width(s)..])
  }

  function UnitsOf(v: Scalar): seq<CodeUnit> {
    if v < 0x1_0000 then
      var c: CodeUnit := v as int;
      [c]
    else
      var hi: CodeUnit := 0xD800 + (v as int - 0x1_0000) / 0x400;
      var lo: CodeUnit := 0xDC00 + (v as int - 0x1_0000) % 0x400;
      [hi, lo]
  }

  function ToUtf16(vs: seq<Scalar>): seq<CodeUnit> {
    if vs == [] then [] else UnitsOf(vs[0]) + ToUtf16(vs[1..])
  }

  // ---------- Scalar values to bytes ----------

  function EncodeScalar(v: Scalar): (s: Bytes)
    ensures 1 <= |s| <= 4
  {
    var n := v as int;
    if n < 0x80 then [Lead(0, n)]
    else if n < 0x800 then [Lead(0xC0, n / 0x40), Tail(n)]
    else if n < 0x1_0000 then [Lead(0xE0, n / 0x1000), Tail(n / 0x40), Tail(n)]
    else [Lead(0xF0, n / 0x4_0000), Tail(n / 0x1000), Tail(n / 0x40), Tail(n)]
  }

  function Lead(mark: int, bits: int): byte
    requires 0 <= mark && 0 <= bits && mark + bits < 256
  {
    mark + bits
  }

  // 10xxxxxx with the low six bits
  function Tail(x: int): (b: byte)
    ensures IsContinuation(b) && b as int - 0x80 == x % 0x40
  {
    0x80 + x % 0x40
  }

  predicate IsContinuation(b: byte) {
    0x80 <= b < 0xC0
  }

  function Encode(s: seq<CodeUnit>): Bytes {
    if s == [] then [] else EncodeScalar(First(s)) + Encode(s[Width(s)..])
  }

  lemma AsciiHead(s: seq<CodeUnit>)
    requires s != [] && s[0] < 0x80
    ensures Width(s) == 1 && EncodeScalar(First(s)) == [s[0] as int]
  {
  }

  /** A run of ASCII code units is its own encoding, whatever follows it. */
  lemma {:induction false} AsciiPrefix(p: Bytes, rest: seq<CodeUnit>)
    requires forall i :: 0 <= i < |p| ==> p[i] < 0x80
    ensures Encode(p + rest) == p + Encode(rest)
  {
    hide EncodeScalar, First, Width;
    var s: seq<CodeUnit> := p + rest;
    if p == [] {
      assert s == rest;
    } else {
      AsciiHead(s);
      AsciiPrefix(p[1..], rest);
      assert s[1..] == p[1..] + rest;
    }
  }

  lemma ScalarLength(s: seq<CodeUnit>)
    requires s != []
    ensures |EncodeScalar(First(s))| <= 3 * Width(s)
  {
  }

  /** Three bytes for each code unit always suffice. */
  lemma {:induction false} EncodedLength(s: seq<CodeUnit>)
    ensures |s| <= |Encode(s)| <= 3 * |s|
  {
    if s != [] {
      EncodedLength(s[Width(s)..]);
      ScalarLength(s);
    }
  }

  // ---------- A strict decoder, and the way back ----------

  /** The first scalar value and its length; overlong forms, surrogates and values past U+10FFFF are refused. */
  function DecodeFirst(s: Bytes): (r: Option<(Scalar, nat)>)
    ensures r.Some? ==> 1 <= r.value.1 <= |s|
  {
    if s == [] then None
    else
      var b := s[0] as int;
      if b < 0x80 then Some((b, 1))
      else if 0xC0 <= b < 0xE0 && |s| >= 2 && IsContinuation(s[1]) then
        var v := (b - 0xC0) * 0x40 + (s[1] as int - 0x80);
        if v >= 0x80 then Some((v, 2)) else None
      else if 0xE0 <= b < 0xF0 && |s| >= 3 && IsContinuation(s[1]) && IsContinuation(s[2]) then
        var v := (b - 0xE0) * 0x1000 + (s[1] as int - 0x80) * 0x40 + (s[2] as int - 0x80);
        if v >= 0x800 && IsScalar(v) then Some((v, 3)) else None
      else if 0xF0 <= b < 0xF8 && |s| >= 4 && IsContinuation(s[1]) && IsContinuation(s[2]) && IsContinuation(s[3]) then
        var v := (b - 0xF0) * 0x4_0000 + (s[1] as int - 0x80) * 0x1000 + (s[2] as int - 0x80) * 0x40
                 + (s[3] as int - 0x80);
        if v >= 0x1_0000 && IsScalar(v) then Some((v, 4)) else None
      else None
  }

  function Decode(s: Bytes): Option<seq<Scalar>> {
    if s == [] then Some([])
    else
      match DecodeFirst(s)
      case None => None
      case Some((v, n)) =>
        match Decode(s[n..])
        case None => None
        case Some(vs) => Some([v] + vs)
  }

  lemma DecodeFirstEncoded(v: Scalar, rest: Bytes)
    ensures DecodeFirst(EncodeScalar(v) + rest) == Some((v, |EncodeScalar(v)|))
  {
    var e, s, n := EncodeScalar(v), EncodeScalar(v) + rest, v as int;
    assert s[0] == e[0] && (|e| > 1 ==> s[1] == e[1]) && (|e| > 2 ==> s[2] == e[2]) && (|e| > 3 ==> s[3] == e[3]);
    hide Tail;
    SixBitGroups(n);
  }

  lemma SixBitGroups(n: nat)
    ensures n == n / 0x40 * 0x40 + n % 0x40
    ensures n == n / 0x1000 * 0x1000 + n / 0x40 % 0x40 * 0x40 + n % 0x40
    ensures n == n / 0x4_0000 * 0x4_0000 + n / 0x1000 % 0x40 * 0x1000 + n / 0x40 % 0x40 * 0x40 + n % 0x40
  {
    assert n / 0x1000 == n / 0x40 / 0x40 && n / 0x4_0000 == n / 0x1000 / 0x40;
  }

  /** A strict decoder accepts every encoding and finds the scalar values of the string. */
  lemma {:induction false} DecodeEncoded(s: seq<CodeUnit>)
    ensures Decode(Encode(s)) == Some(Scalars(s))
  {
    if s != [] {
      var v, rest := First(s), Encode(s[Width(s)..]);
      DecodeFirstEncoded(v, rest);
      assert (EncodeScalar(v) + rest)[|EncodeScalar(v)|..] == rest;
      DecodeEncoded(s[Width(s)..]);
    }
  }

  lemma UnitsOfFirst(s: seq<CodeUnit>)
    requires s != [] && (Width(s) == 2 || !(IsHigh(s[0]) || IsLow(s[0])))
    ensures UnitsOf(First(s)) == s[..Width(s)]
  {
    if Width(s) == 2 {
      var hi, lo := s[0] as int - 0xD800, s[1] as int - 0xDC00;
      assert First(s) as int - 0x1_0000 == hi * 0x400 + lo;
    }
  }

  // A lone surrogate comes back as U+FFFD, which is no surrogate.
  lemma LoneSurrogateIsLost(s: seq<CodeUnit>, back: seq<CodeUnit>)
    requires s != [] && Width(s) == 1 && (IsHigh(s[0]) || IsLow(s[0]))
    ensures UnitsOf(First(s)) + back != s
  {
    assert (UnitsOf(First(s)) + back)[0] == 0xFFFD;
  }

  lemma RestDecides(s: seq<CodeUnit>, back: seq<CodeUnit>)
    requires s != [] && (Width(s) == 2 || !(IsHigh(s[0]) || IsLow(s[0])))
    ensures UnitsOf(First(s)) + back == s <==> back == s[Width(s)..]
  {
    hide First, UnitsOf;
    var w := Width(s);
    UnitsOfFirst(s);
    assert s == s[..w] + s[w..] && (s[..w] + back)[w..] == back;
  }

  /** Exactly the strings without lone surrogates survive the crossing unchanged. */
  lemma {:induction false} RoundTrip(s: seq<CodeUnit>)
    ensures ToUtf16(Scalars(s)) == s <==> WellFormed(s)
  {
    hide First, UnitsOf, IsHigh, IsLow, Width;
    if s != [] {
      var w := Width(s);
      RoundTrip(s[w..]);
      assert Scalars(s)[1..] == Scalars(s[w..]);
      var back := ToUtf16(Scalars(s[w..]));
      if w == 1 && (IsHigh(s[0]) || IsLow(s[0])) {
        LoneSurrogateIsLost(s, back);
      } else {
        RestDecides(s, back);
      }
    }
  }
}
