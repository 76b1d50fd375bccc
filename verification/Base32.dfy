/** The two Base32 decoders for authenticator secrets and the regrouping of section 6 of RFC 4648. */
module Base32 {
  import opened Wrappers
  import opened Powers
  import opened BigEndian
  import opened BitOps

  const ALPHABET: string := "ABCDEFGHIJKLMNOPQRSTUVWXYZ234567"

  type Digits = s: seq<int> | forall i :: 0 <= i < |s| ==> 0 <= s[i] < 32

  // ---------- Reference: regrouping 5-bit digits into bytes ----------

  /** The whole bytes in the bit string of the digits; up to seven bits are left over. */
  function Regroup(d: Digits): (s: Bytes)
    ensures |s| == 5 * |d| / 8
  {
    seq(5 * |d| / 8, i requires 0 <= i < 5 * |d| / 8 => ByteAt(BitsOf(d, 5), i))
  }

  function ByteAt(bits: seq<bool>, i: nat): byte
    requires 8 * i + 8 <= |bits|
  {
    LowBitsOfValue(bits[8 * i..8 * i + 8]);
    BitsValue(bits[8 * i..8 * i + 8])
  }

  // Bytes whose bit string, with fewer than eight bits more, is that of the digits are the regrouped ones.
  lemma RegroupUnique(d: Digits, out: Bytes, rest: seq<bool>)
    requires BitsOf(out, 8) + rest == BitsOf(d, 5) && |rest| < 8
    ensures out == Regroup(d)
  {
    hide BitsOf, LowBits;
    var bits := BitsOf(d, 5);
    forall i | 0 <= i < |out| ensures out[i] == ByteAt(bits, i) {
      SameByte(out, bits, i);
    }
  }

  lemma SameByte(out: Bytes, bits: seq<bool>, i: nat)
    requires i < |out| && BitsOf(out, 8) <= bits
    ensures 8 * i + 8 <= |bits| && out[i] == ByteAt(bits, i)
  {
    hide BitsOf, LowBits, Pow;
    BitsOfSlice(out, 8, i);
    assert bits[8 * i..8 * i + 8] == BitsOf(out, 8)[8 * i..8 * i + 8];
    assert Pow(2, 8) == 256 by { SmallPowers(); }
    ValueOfLowBits(out[i], 8);
  }

  function DigitOf(c: char): Option<int> {
    if 'A' <= c <= 'Z' then Some(c as int - 'A' as int)
    else if '2' <= c <= '7' then Some(c as int - '2' as int + 26)
    else None
  }

  predicate AllDigits(s: string) {
    forall i :: 0 <= i < |s| ==> DigitOf(s[i]).Some?
  }

  function DigitsOf(s: string): (d: Digits)
    requires AllDigits(s)
    ensures |d| == |s|
  {
    seq(|s|, i requires 0 <= i < |s| => DigitOf(s[i]).value)
  }

  // ---------- Normalising the input ----------

  /** Unicode's full upper-casing, as far as it bears on decoding; a character may become several. */
  function Upper(s: string): string {
    if s == "" then "" else Upper(s[..|s| - 1]) + UpperChar(s[|s| - 1])
  }

  // Beside a to z these are all the characters whose upper-case form is made of ASCII letters: sharp s, dotless i,
  // long s and the Latin ligatures. The form of every other character has one that is neither a digit of the
  // alphabet nor a separator, as the character itself is, so both decoders treat the two alike.
  function UpperChar(c: char): (r: string)
    ensures r != ""
  {
    if 'a' <= c <= 'z' then [(c as int - 32) as char]
    else if c == '\U{DF}' then "SS"
    else if c == '\U{131}' then "I"
    else if c == '\U{17F}' then "S"
    else if c == '\U{FB00}' then "FF"
    else if c == '\U{FB01}' then "FI"
    else if c == '\U{FB02}' then "FL"
    else if c == '\U{FB03}' then "FFI"
    else if c == '\U{FB04}' then "FFL"
    else if c == '\U{FB05}' || c == '\U{FB06}' then "ST"
    else [c]
  }

  // The characters with Unicode's White_Space property.
  predicate IsWhitespace(c: char) {
    9 <= c as int <= 13 || c as int in {32, 0x85, 0xA0, 0x1680, 0x2028, 0x2029, 0x202F, 0x205F, 0x3000}
    || 0x2000 <= c as int <= 0x200A
  }

  predicate IsSeparator(c: char) {
    IsWhitespace(c) || c == '-' || c == '='
  }

  function StripTrailing(s: string): string {
    if s != "" && s[|s| - 1] == '=' then StripTrailing(s[..|s| - 1]) else s
  }

  function DropSeparators(s: string): string {
    if s == "" then ""
    else DropSeparators(s[..|s| - 1]) + (if IsSeparator(s[|s| - 1]) then "" else [s[|s| - 1]])
  }

  // What each decoder is left with.
  function ServerClean(s: string): string {
    StripTrailing(Upper(s))
  }

  function ClientClean(s: string): string {
    Upper(DropSeparators(s))
  }

  // ---------- What each decoder returns ----------

  function ServerDecode(s: string): Result<Bytes, string> {
    var clean := ServerClean(s);
    if AllDigits(clean) then Ok(Regroup(DigitsOf(clean))) else Err("Invalid base32 character")
  }

  function ClientDecode(s: string): Result<Bytes, string> {
    var clean := ClientClean(s);
    if clean == "" then Err("Empty base32 secret")
    else if AllDigits(clean) then Ok(Regroup(DigitsOf(clean)))
    else Err("Invalid base32 character")
  }

  // ---------- The server's loop, over a wrapping int32 accumulator ----------

  function IndexOf(s: string, c: char): (r: int)
    ensures -1 <= r < |s|
    ensures r == -1 <==> c !in s
    ensures r >= 0 ==> s[r] == c && c !in s[..r]
  {
    if s == "" then -1
    else if s[0] == c then 0
    else
      var r := IndexOf(s[1..], c);
      if r == -1 then -1
      else
        assert s[..r + 1] == [s[0]] + s[1..][..r];
        r + 1
  }

  function DigitChar(d: int): char
    requires 0 <= d < 32
  {
    if d < 26 then (65 + d) as char else (24 + d) as char
  }

  lemma AlphabetInOrder()
    ensures |ALPHABET| == 32 && forall d :: 0 <= d < 32 ==> ALPHABET[d] == DigitChar(d)
  {
  }

  lemma IndexOfDigit(alphabet: string, c: char)
    requires |alphabet| == 32 && forall d :: 0 <= d < 32 ==> alphabet[d] == DigitChar(d)
    ensures IndexOf(alphabet, c) == if DigitOf(c).Some? then DigitOf(c).value else -1
  {
    if DigitOf(c).Some? {
      assert alphabet[DigitOf(c).value] == c;
    }
  }

  lemma IndexIsDigit(c: char)
    ensures IndexOf(ALPHABET, c) == if DigitOf(c).Some? then DigitOf(c).value else -1
    ensures DigitOf(c).Some? ==> 0 <= DigitOf(c).value < 32
  {
    AlphabetInOrder();
    IndexOfDigit(ALPHABET, c);
  }

  lemma SplitDigit(buffer: int, val: int, bits: nat)
    requires 0 <= val < 32
    ensures LowBits(32 * buffer + val, bits + 5) == LowBits(buffer, bits) + LowBits(val, 5)
  {
    hide LowBits, Pow;
    var x := 32 * buffer + val;
    SmallPowers();
    LowBitsSplit(x, bits, 5);
    assert Shr(x, 5) == buffer;
    CongShift(val, buffer, 32);
    LowBitsCong(x, val, 5);
  }

  // Shifting in a digit appends its five bits, whatever was wrapped away above.
  lemma ShiftIn(buffer: int, buffer': int, val: int, bits: nat)
    requires 0 <= val < 32 && bits < 8
    requires Cong(buffer', 32 * buffer + val, 0x1_0000_0000)
    ensures LowBits(buffer', bits + 5) == LowBits(buffer, bits) + LowBits(val, 5)
  {
    assert Pow(2, 32) == 0x1_0000_0000 by { SmallPowers(); }
    CongSmallerPower(buffer', 32 * buffer + val, bits + 5, 32);
    LowBitsCong(buffer', 32 * buffer + val, bits + 5);
    SplitDigit(buffer, val, bits);
  }

  // Taking the top eight of the pending bits.
  lemma TakeByte(buffer: int, bits: nat, b: int)
    requires bits >= 8 && b == And(Shr(buffer, bits - 8), 255)
    ensures 0 <= b < 256 && LowBits(buffer, bits) == LowBits(b, 8) + LowBits(buffer, bits - 8)
  {
    var top := Shr(buffer, bits - 8);
    SmallPowers();
    SmallMasks(top);
    CongMod(top, 256);
    LowBitsCong(b, top, 8);
    LowBitsSplit(buffer, 8, bits - 8);
  }

  // The loops' common step on the digits read so far.
  lemma ReadDigit(clean: string, i: nat)
    requires i < |clean| && AllDigits(clean[..i]) && DigitOf(clean[i]).Some?
    ensures AllDigits(clean[..i + 1])
    ensures var v := DigitOf(clean[i]).value;
            BitsOf(DigitsOf(clean[..i + 1]), 5) == BitsOf(DigitsOf(clean[..i]), 5) + LowBits(v, 5)
  {
    hide BitsOf, LowBits, DigitOf;
    var v := DigitOf(clean[i]).value;
    forall j | 0 <= j < i + 1 ensures clean[..i + 1][j] == (if j < i then clean[..i][j] else clean[i]) {
    }
    assert DigitsOf(clean[..i + 1]) == DigitsOf(clean[..i]) + [v];
    BitsOfAppend(DigitsOf(clean[..i]), v, 5);
  }

  /** The loops' invariant: the bytes so far and the pending bits spell out the digits so far. */
  ghost predicate Spelled(clean: string, i: nat, bytes: Bytes, buffer: int, bits: nat) {
    i <= |clean| && AllDigits(clean[..i])
    && BitsOf(bytes, 8) + LowBits(buffer, bits) == BitsOf(DigitsOf(clean[..i]), 5)
  }

  lemma SpelledAtStart(clean: string)
    ensures Spelled(clean, 0, [], 0, 0)
  {
  }

  lemma ShiftKeepsSpelled(clean: string, i: nat, bytes: Bytes, buffer: int, buffer': int, bits: nat)
    requires i < |clean| && bits < 8 && Spelled(clean, i, bytes, buffer, bits) && DigitOf(clean[i]).Some?
    requires Cong(buffer', 32 * buffer + DigitOf(clean[i]).value, 0x1_0000_0000)
    ensures Spelled(clean, i + 1, bytes, buffer', bits + 5)
  {
    hide BitsOf, LowBits, Pow, DigitsOf;
    ReadDigit(clean, i);
    ShiftIn(buffer, buffer', DigitOf(clean[i]).value, bits);
  }

  lemma TakeKeepsSpelled(clean: string, i: nat, bytes: Bytes, buffer: int, bits: nat, b: byte, buffer': int)
    requires bits >= 8 && Spelled(clean, i, bytes, buffer, bits)
    ensures b == And(Shr(buffer, bits - 8), 255) && LowBits(buffer', bits - 8) == LowBits(buffer, bits - 8)
            ==> Spelled(clean, i, bytes + [b], buffer', bits - 8)
  {
    hide BitsOf, LowBits, Pow, DigitsOf, And, Shr;
    if b == And(Shr(buffer, bits - 8), 255) {
      TakeByte(buffer, bits, b);
      BitsOfAppend(bytes, b, 8);
    }
  }

  lemma SpelledToTheEnd(clean: string, bytes: Bytes, buffer: int, bits: nat)
    requires bits < 8 && Spelled(clean, |clean|, bytes, buffer, bits)
    ensures AllDigits(clean) && bytes == Regroup(DigitsOf(clean))
  {
    assert clean[..|clean|] == clean;
    RegroupUnique(DigitsOf(clean), bytes, LowBits(buffer, bits));
  }

  lemma BadDigit(clean: string, i: nat)
    requires i < |clean| && DigitOf(clean[i]).None?
    ensures !AllDigits(clean)
  {
  }

  lemma ServerShift(buffer: int, val: int)
    requires 0 <= val < 32
    ensures Cong(Or(ToInt32(Shl(buffer, 5)), val), 32 * buffer + val, 0x1_0000_0000)
  {
    hide Or, ToInt32, Pow, Cong;
    SmallPowers();
    assert Shl(buffer, 5) == 32 * buffer;
    var y := ToInt32(32 * buffer);
    WrappedMultiple(buffer);
    OrDisjoint(y, val, 5);
    CongAdd(y, 32 * buffer, val, val, 0x1_0000_0000) by {
      assert Cong(val, val, 0x1_0000_0000) by {
        CongShift(val, 0, 0x1_0000_0000);
      }
    }
  }

  // Wrapping keeps the residue, and the low five bits clear.
  lemma WrappedMultiple(buffer: int)
    ensures Cong(ToInt32(32 * buffer), 32 * buffer, 0x1_0000_0000) && ToInt32(32 * buffer) % 32 == 0
  {
    var x, y := 32 * buffer + 0x8000_0000, ToInt32(32 * buffer);
    CongMod(x, 0x1_0000_0000);
    CongSub(x % 0x1_0000_0000, x, 0x8000_0000, 0x8000_0000, 0x1_0000_0000);
    var k := CongDifference(y, 32 * buffer, 0x1_0000_0000);
    DivModUnique(y, 32, buffer + k * 0x800_0000, 0);
  }

  method ServerDecodeBase32(base32: string) returns (r: Result<Bytes, string>)
    ensures r == ServerDecode(base32)
  {
    hide Spelled, DigitsOf, DigitOf, And, Or, Shr, Shl, ToInt32, Cong, StripTrailing, Upper, Regroup, IndexOf;
    var clean := StripTrailing(Upper(base32));
    var bytes: Bytes := [];
    var buffer, bits := 0, 0;
    SpelledAtStart(clean);
    for i := 0 to |clean|
      invariant 0 <= bits < 8 && Spelled(clean, i, bytes, buffer, bits)
    {
      IndexIsDigit(clean[i]);
      var val := IndexOf(ALPHABET, clean[i]);
      if val == -1 {
        BadDigit(clean, i);
        return Err("Invalid base32 character");
      }
      var shifted := Or(ToInt32(Shl(buffer, 5)), val);
      ServerShift(buffer, val);
      ShiftKeepsSpelled(clean, i, bytes, buffer, shifted, bits);
      buffer := shifted;
      bits := bits + 5;
      if bits >= 8 {
        SmallMasks(Shr(buffer, bits - 8));
        var b := And(Shr(buffer, bits - 8), 255);
        TakeKeepsSpelled(clean, i + 1, bytes, buffer, bits, b, buffer);
        bytes := bytes + [b];
        bits := bits - 8;
      }
    }
    SpelledToTheEnd(clean, bytes, buffer, bits);
    r := Ok(bytes);
  }

  // ---------- The client's loop, over a masked u32 accumulator ----------

  // With at most seven pending bits the shift stays far below 2^32.
  lemma ClientShift(buffer: int, val: int, bits: nat)
    requires 0 <= val < 32 && bits < 8 && 0 <= buffer < Pow(2, bits)
    ensures Or(ToUint32(Shl(buffer, 5)), val) == 32 * buffer + val
    ensures 0 <= 32 * buffer + val < Pow(2, bits + 5)
  {
    hide Pow, Or;
    FiveMoreBits(bits);
    SmallPowers();
    PowMonotone(2, bits, 8);
    CongShift(0, buffer, 32);
    OrDisjoint(32 * buffer, val, 5);
  }

  lemma ClientMask(buffer: int, bits: nat)
    ensures Pow(2, bits) > 0
    ensures var m := And(buffer, Pow(2, bits) - 1); m < Pow(2, bits) && LowBits(m, bits) == LowBits(buffer, bits)
  {
    AndMask(buffer, bits);
    CongMod(buffer, Pow(2, bits));
    LowBitsCong(buffer % Pow(2, bits), buffer, bits);
  }

  method ClientDecodeBase32(input: string) returns (r: Result<Bytes, string>)
    ensures r == ClientDecode(input)
  {
    hide Spelled, DigitsOf, And, Or, Shr, Shl, ToUint32, Cong, DropSeparators, Upper, Regroup;
    var clean := Upper(DropSeparators(input));
    if clean == "" {
      return Err("Empty base32 secret");
    }
    var out: Bytes := [];
    var buffer, bitsLeft := 0, 0;
    SpelledAtStart(clean);
    for i := 0 to |clean|
      invariant 0 <= bitsLeft < 8 && 0 <= buffer < Pow(2, bitsLeft)
      invariant Spelled(clean, i, out, buffer, bitsLeft)
    {
      var c := clean[i];
      var val: int;
      if 'A' <= c <= 'Z' {
        val := c as int - 'A' as int;
      } else if '2' <= c <= '7' {
        val := c as int - '2' as int + 26;
      } else {
        BadDigit(clean, i);
        return Err("Invalid base32 character");
      }
      ClientShift(buffer, val, bitsLeft);
      CongShift(32 * buffer + val, 0, 0x1_0000_0000);
      ShiftKeepsSpelled(clean, i, out, buffer, 32 * buffer + val, bitsLeft);
      buffer := Or(ToUint32(Shl(buffer, 5)), val);
      bitsLeft := bitsLeft + 5;
      if bitsLeft >= 8 {
        bitsLeft := bitsLeft - 8;
        SmallMasks(Shr(buffer, bitsLeft));
        ClientMask(buffer, bitsLeft);
        var b := Shr(buffer, bitsLeft) % 256;
        var masked := And(buffer, Pow(2, bitsLeft) - 1);
        TakeKeepsSpelled(clean, i + 1, out, buffer, bitsLeft + 8, b, masked);
        out := out + [b];
        buffer := masked;
      }
    }
    SpelledToTheEnd(clean, out, buffer, bitsLeft);
    r := Ok(out);
  }

  // ---------- When the two agree ----------

  predicate HasSeparator(s: string) {
    exists i :: 0 <= i < |s| && IsSeparator(s[i])
  }

  lemma {:induction false} DropAppend(s: string, t: string)
    ensures DropSeparators(s + t) == DropSeparators(s) + DropSeparators(t)
  {
    if t == "" {
      assert s + t == s;
    } else {
      hide DropSeparators;
      var u, c := t[..|t| - 1], t[|t| - 1];
      DropAppend(s, u);
      assert t == u + [c] && s + t == (s + u) + [c];
      DropLast(s + u, c);
      DropLast(u, c);
    }
  }

  lemma DropLast(s: string, c: char)
    ensures DropSeparators(s + [c]) == DropSeparators(s) + (if IsSeparator(c) then "" else [c])
  {
    assert (s + [c])[..|s|] == s;
  }

  lemma UpperLast(s: string, c: char)
    ensures Upper(s + [c]) == Upper(s) + UpperChar(c)
  {
    assert (s + [c])[..|s|] == s;
  }

  lemma {:induction false} DropCommutesWithUpper(s: string)
    ensures DropSeparators(Upper(s)) == Upper(DropSeparators(s))
  {
    if s != "" {
      hide DropSeparators, Upper, UpperChar, IsSeparator;
      var t, c := s[..|s| - 1], s[|s| - 1];
      DropCommutesWithUpper(t);
      assert s == t + [c];
      DropUpperLast(t, c);
    }
  }

  lemma DropUpperLast(t: string, c: char)
    requires DropSeparators(Upper(t)) == Upper(DropSeparators(t))
    ensures DropSeparators(Upper(t + [c])) == Upper(DropSeparators(t + [c]))
  {
    hide UpperChar, IsSeparator, DropSeparators, Upper;
    UpperLast(t, c);
    DropLast(t, c);
    DropAppend(Upper(t), UpperChar(c));
    SeparatorsStayApart(c);
    if IsSeparator(c) {
      assert "" + [c] == [c] && DropSeparators(t) + "" == DropSeparators(t);
      DropNothing("");
      DropLast("", c);
    } else {
      UpperLast(DropSeparators(t), c);
      DropNothing(UpperChar(c));
    }
  }

  // Upper-casing neither makes nor removes separators.
  lemma SeparatorsStayApart(c: char)
    ensures if IsSeparator(c) then UpperChar(c) == [c] else !HasSeparator(UpperChar(c))
  {
    if c == '\U{DF}' || '\U{FB00}' <= c <= '\U{FB06}' {
      assert forall i :: 0 <= i < |UpperChar(c)| ==> 'A' <= UpperChar(c)[i] <= 'Z';
    }
  }

  lemma {:induction false} UpperFixed(s: string)
    requires forall i :: 0 <= i < |s| ==> UpperChar(s[i]) == [s[i]]
    ensures Upper(s) == s
  {
    hide UpperChar;
    if s != "" {
      var t := s[..|s| - 1];
      forall i | 0 <= i < |t| ensures UpperChar(t[i]) == [t[i]] {
        assert t[i] == s[i];
      }
      UpperFixed(t);
    }
  }

  // Digits of the alphabet and padding are upper-case already.
  lemma UpperOfUpper(s: string)
    requires forall i :: 0 <= i < |s| ==> DigitOf(s[i]).Some? || s[i] == '='
    ensures Upper(s) == s
  {
    hide Upper;
    forall i | 0 <= i < |s| ensures UpperChar(s[i]) == [s[i]] {
      assert DigitOf(s[i]).Some? || s[i] == '=';
    }
    UpperFixed(s);
  }

  lemma {:induction false} DropAfterStrip(s: string)
    ensures DropSeparators(StripTrailing(s)) == DropSeparators(s)
    ensures !HasSeparator(StripTrailing(s)) ==> DropSeparators(StripTrailing(s)) == StripTrailing(s)
  {
    if s != "" && s[|s| - 1] == '=' {
      hide DropSeparators;
      var t := s[..|s| - 1];
      DropAfterStrip(t);
      assert s == t + ['='];
      DropLast(t, '=');
    } else if !HasSeparator(s) {
      DropNothing(s);
    }
  }

  lemma {:induction false} DropNothing(s: string)
    requires !HasSeparator(s)
    ensures DropSeparators(s) == s
  {
    if s != "" {
      hide IsSeparator, HasSeparator, DropSeparators;
      var t, c := s[..|s| - 1], s[|s| - 1];
      assert s == t + [c];
      NoneBefore(t, c);
      DropNothing(t);
      DropLast(t, c);
    }
  }

  lemma NoneBefore(t: string, c: char)
    requires !HasSeparator(t + [c])
    ensures !HasSeparator(t) && !IsSeparator(c)
  {
    hide IsSeparator;
    assert (t + [c])[|t|] == c;
    forall i | 0 <= i < |t| ensures !IsSeparator(t[i]) {
      assert (t + [c])[i] == t[i];
    }
  }

  /**
   * The exact agreement of the two decoders, errors included: they part only on a secret that is empty once
   * its trailing '=' are gone (the server returns no bytes, the client an error), or that has separators among
   * valid digits (the server refuses them, the client skips them).
   */
  lemma DecodersAgree(s: string)
    ensures
      var agree := if ServerDecode(s).Ok? then ServerDecode(s) == ClientDecode(s) else ClientDecode(s).Err?;
      !agree <==> ServerClean(s) == ""
                  || (HasSeparator(ServerClean(s)) && ClientClean(s) != "" && AllDigits(ClientClean(s)))
  {
    DropCommutesWithUpper(s);
    DropAfterStrip(Upper(s));
    assert DropSeparators("") == "";
    hide Upper, StripTrailing, DropSeparators, IsSeparator, DigitOf, Regroup, DigitsOf;
    SeparatorIsNoDigit(ServerClean(s));
  }

  lemma SeparatorIsNoDigit(clean: string)
    ensures HasSeparator(clean) ==> !AllDigits(clean)
  {
    if i :| 0 <= i < |clean| && IsSeparator(clean[i]) {
      assert DigitOf(clean[i]).None?;
    }
  }

  /** On every non-empty string of base32 letters both give the regrouped digits. */
  lemma DecodersAgreeOnDigits(s: string)
    requires s != "" && AllDigits(s)
    ensures ServerDecode(s) == Ok(Regroup(DigitsOf(s))) == ClientDecode(s)
  {
    UpperOfUpper(s);
    assert StripTrailing(s) == s by {
      assert DigitOf(s[|s| - 1]).Some?;
    }
    DigitsApart(s);
  }

  /** Both kinds of parting occur: the empty secret, and digits with a hyphen between them, which only one skips. */
  lemma DecodersPart(s: string, t: string)
    requires s != "" && t != "" && AllDigits(s) && AllDigits(t)
    ensures ServerDecode("") == Ok([]) && ClientDecode("").Err?
    ensures ServerDecode(s + "-" + t).Err? && ClientDecode(s + "-" + t) == Ok(Regroup(DigitsOf(s + t)))
  {
    EmptySecret();
    hide Regroup, DigitsOf, DigitOf, Upper, DropSeparators;
    var grouped := s + "-" + t;
    Hyphen(s, t);
    UpperOfUpper(s + t);
    assert grouped[|grouped| - 1] == t[|t| - 1] && DigitOf(t[|t| - 1]).Some? && grouped[|s|] == '-';
    NotADigit();
  }

  lemma EmptySecret()
    ensures ServerDecode("") == Ok([]) && ClientDecode("").Err?
  {
    assert ServerClean("") == ClientClean("") == "" && Regroup(DigitsOf("")) == [];
  }

  lemma NotADigit()
    ensures DigitOf('-').None? && DigitOf('=').None?
  {
  }

  lemma Hyphen(s: string, t: string)
    requires AllDigits(s) && AllDigits(t)
    ensures Upper(s + "-" + t) == s + "-" + t && DropSeparators(s + "-" + t) == s + t
  {
    hide Upper, DropSeparators;
    var u := s + "-" + t;
    forall i | 0 <= i < |u| ensures UpperChar(u[i]) == [u[i]] {
      assert u[i] == if i < |s| then s[i] else if i == |s| then '-' else t[i - |s| - 1];
      FixedChar(u[i]);
    }
    UpperFixed(u);
    DigitsApart(s);
    DigitsApart(t);
    DropAppend(s + "-", t);
    assert s + "-" == s + ['-'] && s + "" == s;
    DropLast(s, '-');
  }

  lemma FixedChar(c: char)
    requires DigitOf(c).Some? || c == '-'
    ensures UpperChar(c) == [c]
  {
  }

  lemma DigitsApart(s: string)
    requires AllDigits(s)
    ensures DropSeparators(s) == s
  {
    forall i | 0 <= i < |s| ensures !IsSeparator(s[i]) {
      assert DigitOf(s[i]).Some?;
    }
    DropNothing(s);
  }

  /** The client skips white space, hyphens and padding wherever they are; the server drops padding at the end alone. */
  lemma SeparatorsDoNotMatter(s: string, c: char, t: string)
    requires c in {' ', '\t', '\r', '\n', '-', '='}
    ensures ClientDecode(s + [c] + t) == ClientDecode(s + t)
    ensures ServerDecode(s + "=") == ServerDecode(s)
  {
    SeparatorIsSkipped(s, c, t);
    UpperLast(s, '=');
    assert s + "=" == s + ['='] && UpperChar('=') == ['='];
    assert (Upper(s) + ['='])[..|Upper(s)|] == Upper(s);
  }

  lemma SeparatorIsSkipped(s: string, c: char, t: string)
    requires c in {' ', '\t', '\r', '\n', '-', '='}
    ensures DropSeparators(s + [c] + t) == DropSeparators(s + t)
  {
    assert IsSeparator(c);
    hide DropSeparators, IsSeparator;
    DropAppend(s + [c], t);
    DropLast(s, c);
    DropAppend(s, t);
  }

  /** Neither decoder tells small letters from capitals. */
  lemma CaseDoesNotMatter(s: string, c: char, t: string)
    requires 'a' <= c <= 'z'
    ensures var C := (c as int - 32) as char;
            && ServerDecode(s + [c] + t) == ServerDecode(s + [C] + t)
            && ClientDecode(s + [c] + t) == ClientDecode(s + [C] + t)
  {
    var C := (c as int - 32) as char;
    SameUpper(s, c, t);
    hide Upper, DropSeparators, ServerDecode, ClientDecode;
    DropCommutesWithUpper(s + [c] + t);
    DropCommutesWithUpper(s + [C] + t);
    SameUpperDecodes(s + [c] + t, s + [C] + t);
  }

  lemma SameUpper(s: string, c: char, t: string)
    requires 'a' <= c <= 'z'
    ensures Upper(s + [c] + t) == Upper(s + [(c as int - 32) as char] + t)
  {
    var C := (c as int - 32) as char;
    assert UpperChar(c) == UpperChar(C);
    hide Upper, UpperChar;
    UpperAppend(s + [c], t);
    UpperAppend(s + [C], t);
    UpperLast(s, c);
    UpperLast(s, C);
  }

  lemma SameUpperDecodes(s: string, t: string)
    requires Upper(s) == Upper(t) && Upper(DropSeparators(s)) == Upper(DropSeparators(t))
    ensures ServerDecode(s) == ServerDecode(t) && ClientDecode(s) == ClientDecode(t)
  {
    hide Upper, DropSeparators, StripTrailing, Regroup, DigitsOf, AllDigits;
  }

  lemma {:induction false} UpperAppend(s: string, t: string)
    ensures Upper(s + t) == Upper(s) + Upper(t)
    decreases |t|, 1
  {
    hide UpperChar;
    if t == "" {
      assert s + t == s && Upper(t) == "";
    } else {
      UpperAppendLast(s, t[..|t| - 1], t[|t| - 1], t);
    }
  }

  lemma {:induction false} UpperAppendLast(s: string, u: string, c: char, t: string)
    requires t == u + [c]
    ensures Upper(s + t) == Upper(s) + Upper(t)
    decreases |t|, 0
  {
    hide Upper, UpperChar;
    UpperAppend(s, u);
    assert s + t == (s + u) + [c];
    UpperLast(s + u, c);
    UpperLast(u, c);
  }

  // ---------- Encoding (section 6 of RFC 4648) and back ----------

  function PaddedBits(s: Bytes): (bits: seq<bool>)
    ensures |bits| == 5 * ((8 * |s| + 4) / 5)
  {
    BitsOf(s, 8) + seq(5 * ((8 * |s| + 4) / 5) - 8 * |s|, _ => false)
  }

  function DigitAt(s: Bytes, i: nat): (d: int)
    requires 5 * i + 5 <= |PaddedBits(s)|
    ensures 0 <= d < 32 && LowBits(d, 5) == PaddedBits(s)[5 * i..5 * i + 5]
  {
    SmallPowers();
    LowBitsOfValue(PaddedBits(s)[5 * i..5 * i + 5]);
    BitsValue(PaddedBits(s)[5 * i..5 * i + 5])
  }

  function EncodedDigits(s: Bytes): (d: Digits)
    ensures |d| == (8 * |s| + 4) / 5
  {
    seq((8 * |s| + 4) / 5, i requires 0 <= i < (8 * |s| + 4) / 5 => DigitAt(s, i))
  }

  /** Letters, then '=' up to a multiple of eight characters. */
  function Encode(s: Bytes): string {
    var d := EncodedDigits(s);
    Letters(d) + seq((8 - |d| % 8) % 8, _ => '=')
  }

  lemma EncodedDigitsRegroup(s: Bytes)
    ensures Regroup(EncodedDigits(s)) == s
  {
    var d := EncodedDigits(s);
    forall i | 0 <= i < |d| ensures IsGroup(PaddedBits(s), 5, i, d[i]) {
    }
    BitsOfGroups(PaddedBits(s), 5, d);
    RegroupUnique(d, s, PaddedBits(s)[8 * |s|..]);
  }

  lemma {:induction false} StripPadding(s: string, k: nat)
    requires s == "" || s[|s| - 1] != '='
    ensures StripTrailing(s + seq(k, _ => '=')) == s
  {
    var t := s + seq(k, _ => '=');
    if k == 0 {
      assert t == s;
    } else {
      assert t[..|t| - 1] == s + seq(k - 1, _ => '=');
      StripPadding(s, k - 1);
    }
  }

  function Letters(d: Digits): (s: string)
    ensures |s| == |d|
  {
    seq(|d|, i requires 0 <= i < |d| => ALPHABET[d[i]])
  }

  lemma LettersRead(d: Digits)
    ensures AllDigits(Letters(d)) && DigitsOf(Letters(d)) == d
    ensures Upper(Letters(d)) == Letters(d) && !HasSeparator(Letters(d))
  {
    hide Upper, IsSeparator, DigitOf;
    forall i | 0 <= i < |d| ensures DigitOf(Letters(d)[i]) == Some(d[i]) && !IsSeparator(Letters(d)[i]) {
      AlphabetInOrder();
      LetterRead(d[i]);
    }
    UpperOfUpper(Letters(d));
  }

  lemma LetterRead(x: int)
    requires 0 <= x < 32
    ensures DigitOf(DigitChar(x)) == Some(x) && !IsSeparator(DigitChar(x))
  {
  }

  // What both decoders are left with when they read an encoding.
  lemma EncodedClean(s: Bytes)
    ensures ServerClean(Encode(s)) == Letters(EncodedDigits(s)) && !HasSeparator(Letters(EncodedDigits(s)))
  {
    var d := EncodedDigits(s);
    LettersRead(d);
    hide Upper, Letters, EncodedDigits, IsSeparator;
    UpperOfUpper(Encode(s));
    if d != [] {
      assert DigitOf(Letters(d)[|d| - 1]).Some?;
    }
    StripPadding(Letters(d), (8 - |d| % 8) % 8);
  }

  /** Encoding any byte string and decoding it with either program gives it back. */
  lemma EncodeThenDecode(s: Bytes)
    ensures ServerDecode(Encode(s)) == Ok(s)
    ensures s != [] ==> ClientDecode(Encode(s)) == Ok(s)
  {
    hide Upper, Encode, Letters, EncodedDigits, Regroup, StripTrailing;
    var d := EncodedDigits(s);
    LettersRead(d);
    EncodedDigitsRegroup(s);
    EncodedClean(s);
    DecodersAgree(Encode(s));
  }
}
