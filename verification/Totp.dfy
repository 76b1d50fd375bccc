/** Time-based one-time codes: the server's generator and verifier and the client's generator. */
module Totp {
  import opened Wrappers
  import opened Powers
  import opened BigEndian
  import opened BitOps
  import opened Base32
  import opened Decimal

  // Any keyed hash of at least 20 bytes: SHA-1, SHA-256 and SHA-512 all qualify.
  type Mac = s: Bytes | |s| >= 20 witness Zeros(20)
  type Hmac = (Bytes, Bytes) -> Mac

  // ---------- Reference: section 5.3 of RFC 4226 and section 4.2 of RFC 6238 ----------

  /** The low 31 bits of the four bytes that the last nibble points at. */
  function Truncate(mac: Mac): (r: nat)
  {
    var o := mac[|mac| - 1] % 16;
    ValueBE(mac[o..o + 4]) % 0x8000_0000
  }

  /** The code of a time step; the counter takes eight bytes. */
  function Code(hmac: Hmac, key: Bytes, step: int, digits: nat): (s: string)
    ensures |s| == digits
  {
    Decimals(Truncate(hmac(key, BE(step, 8))), digits)
  }

  /** A code is a decimal number of exactly the asked width: the truncated value modulo 10^digits. */
  lemma CodeIsTruncatedValue(hmac: Hmac, key: Bytes, step: int, digits: nat)
    ensures Pow(10, digits) > 0
    ensures DecimalValue(Code(hmac, key, step, digits))
            == Truncate(hmac(key, BE(step, 8))) % Pow(10, digits)
  {
    ValueOfDecimals(Truncate(hmac(key, BE(step, 8))), digits);
  }

  // ---------- Dynamic truncation, as both programs write it ----------

  // (h[o] & 0x7f) << 24 | h[o+1] << 16 | h[o+2] << 8 | h[o+3]
  function Binary(b0: byte, b1: byte, b2: byte, b3: byte): int {
    Or(JsOr(JsOr(Shl(And(b0, 0x7f), 24), b1, 16), b2, 8), b3)
  }

  function JsOr(x: int, b: byte, k: nat): int {
    PowPositive(2, k);
    assert b * Pow(2, k) >= 0;
    Or(x, Shl(b, k))
  }

  // Or-ing a shifted byte into a number whose low k + 8 bits are clear adds it.
  lemma OrByte(q: int, b: byte, k: nat)
    ensures JsOr(q * Pow(2, k + 8), b, k) == q * Pow(2, k + 8) + b * Pow(2, k)
  {
    hide Or;
    var p := Pow(2, k);
    PowPositive(2, k);
    PowPositive(2, k + 8);
    PowAdd(2, 8, k);
    SmallPowers();
    assert b * p <= 255 * p;
    DivModUnique(q * Pow(2, k + 8), Pow(2, k + 8), q, 0);
    OrDisjoint(q * Pow(2, k + 8), b * p, k + 8);
  }

  lemma BinaryValue(b0: byte, b1: byte, b2: byte, b3: byte)
    ensures Binary(b0, b1, b2, b3) == (b0 % 128) * 0x100_0000 + b1 * 0x1_0000 + b2 * 256 + b3
    ensures 0 <= Binary(b0, b1, b2, b3) < 0x8000_0000
  {
    hide Or, And, Pow;
    SmallPowers();
    var top := b0 % 128;
    SmallMasks(b0);
    OrByte(top, b1, 16);
    OrByte(256 * top + b1, b2, 8);
    var x := 0x1_0000 * top + 256 * b1 + b2;
    DivModUnique(x * 256, 256, x, 0);
    OrDisjoint(x * 256, b3, 8);
  }

  lemma ValueOfFour(b0: byte, b1: byte, b2: byte, b3: byte)
    ensures ValueBE([b0, b1, b2, b3]) % 0x8000_0000 == (b0 % 128) * 0x100_0000 + b1 * 0x1_0000 + b2 * 256 + b3
  {
    var v1: int, v2: int := b0 as int, (b0 as int) * 256 + b1 as int;
    assert [b0, b1, b2, b3][..3] == [b0, b1, b2] && [b0, b1, b2][..2] == [b0, b1] && [b0, b1][..1] == [b0];
    assert [b0][..0] == [] && ValueBE([b0]) == v1;
    assert ValueBE([b0, b1]) == v2;
    assert ValueBE([b0, b1, b2]) == v2 * 256 + b2;
    var low := b1 * 0x1_0000 + b2 * 256 + b3;
    DivModUnique(v1 * 0x100_0000 + low, 0x8000_0000, v1 / 128, (v1 % 128) * 0x100_0000 + low);
  }

  /** The four bytes are always inside the tag, and the or of their shifts is the truncated value. */
  lemma TruncationInRange(mac: Mac)
    ensures
      var o := mac[|mac| - 1] % 16;
      && o + 4 <= |mac|
      && And(mac[|mac| - 1], 0xf) == o
      && Binary(mac[o], mac[o + 1], mac[o + 2], mac[o + 3]) == Truncate(mac) < 0x8000_0000
  {
    hide Binary, And, ValueBE;
    var o := mac[|mac| - 1] % 16;
    ValueOfFour(mac[o], mac[o + 1], mac[o + 2], mac[o + 3]);
    assert mac[o..o + 4] == [mac[o], mac[o + 1], mac[o + 2], mac[o + 3]];
    BinaryValue(mac[o], mac[o + 1], mac[o + 2], mac[o + 3]);
    SmallMasks(mac[|mac| - 1]);
  }

  // ---------- The server ----------

  lemma LowByte(temp: int, i: nat, rest: Bytes)
    ensures And(temp, 0xff) == temp % 256 && Shr(temp, 8) == temp / 256
    ensures BE(temp, i + 1) + rest == BE(temp / 256, i) + ([temp % 256] + rest)
  {
    hide And;
    SmallMasks(temp);
    SmallPowers();
  }

  // The counter as eight big-endian bytes; a negative step wraps around in two's complement.
  method StepBytes(step: int) returns (buffer: Bytes)
    ensures buffer == BE(step, 8)
  {
    hide And, Shr, BE;
    var a := new byte[8](_ => 0);
    var temp := step;
    for i := 8 downto 0
      invariant BE(step, 8) == BE(temp, i) + a[i..]
    {
      LowByte(temp, i, a[i + 1..]);
      a[i] := And(temp, 0xff);
      assert a[i..] == [a[i]] + a[i + 1..];
      temp := Shr(temp, 8);
    }
    assert BE(temp, 0) == [];
    assert a[0..] == a[..];
    buffer := a[..];
  }

  method GenerateCode(hmac: Hmac, secret: string, step: int) returns (r: Result<string, string>)
    ensures r == match ServerDecode(secret)
                 case Err(e) => Err(e)
                 case Ok(key) => Ok(Code(hmac, key, step, 6))
  {
    var key := ServerDecodeBase32(secret);
    if key.Err? {
      return Err(key.error);
    }
    var buffer := StepBytes(step);
    var hash: Mac := hmac(key.value, buffer);
    TruncationInRange(hash);
    var offset := And(hash[|hash| - 1], 0xf);
    var binary := Binary(hash[offset], hash[offset + 1], hash[offset + 2], hash[offset + 3]);
    var code := binary % 1_000_000;
    Million();
    ShownCode(binary, 6);
    r := Ok(PadStart(ToDecimal(code), 6));
  }

  lemma Million()
    ensures Pow(10, 6) == 1_000_000
  {
    var three: nat := 3;
    assert Pow(10, three) == 1000;
    PowAdd(10, three, 3);
  }

  predicate InWindow(hmac: Hmac, key: Bytes, code: string, current: int, window: int) {
    exists step :: current - window <= step <= current + window && code == Code(hmac, key, step, 6)
  }

  /** Exactly the codes of the steps at most `window` away from the current one are right; a bad secret is an error. */
  function Verified(hmac: Hmac, secret: string, code: string, window: int, nowMs: int): Result<bool, string> {
    if window < 0 then Ok(false)
    else
      match ServerDecode(secret)
      case Err(e) => Err(e)
      case Ok(key) => Ok(InWindow(hmac, key, code, nowMs / 1000 / 30, window))
  }

  method VerifyCode(hmac: Hmac, secret: string, code: string, window: int, nowMs: int) returns (r: Result<bool, string>)
    ensures r == Verified(hmac, secret, code, window, nowMs)
  {
    hide ServerDecode, Code;
    var currentStep := nowMs / 1000 / 30;
    var i := -window;
    while i <= window
      invariant window >= 0 && i > -window ==> ServerDecode(secret).Ok?
      invariant window >= 0 ==> -window <= i <= window + 1
      invariant forall step :: currentStep - window <= step < currentStep + i ==>
                  ServerDecode(secret).Ok? && code != Code(hmac, ServerDecode(secret).value, step, 6)
    {
      var step := currentStep + i;
      var c := GenerateCode(hmac, secret, step);
      if c.Err? {
        return Err(c.error);
      }
      if c.value == code {
        return Ok(true);
      }
      i := i + 1;
    }
    r := Ok(false);
  }

  predicate IsNumeral(s: string, width: nat, value: int) {
    |s| == width && (forall i :: 0 <= i < width ==> IsDigit(s[i])) && DecimalValue(s) == value
  }

  // The code is the numeral of six digits for the truncated value of the step modulo a million.
  predicate IsCodeOf(hmac: Hmac, key: Bytes, code: string, step: int) {
    IsNumeral(code, 6, Truncate(hmac(key, BE(step, 8))) % 1_000_000)
  }

  lemma CodeIsTheOnly(hmac: Hmac, key: Bytes, code: string, step: int)
    ensures code == Code(hmac, key, step, 6) <==> IsCodeOf(hmac, key, code, step)
  {
    hide Truncate, Decimals;
    Million();
    CodeIsTruncatedValue(hmac, key, step, 6);
    if IsCodeOf(hmac, key, code, step) {
      SpelledBack(code);
      DecimalsOfMod(Truncate(hmac(key, BE(step, 8))), 6);
    }
  }

  /**
   * A code is right exactly when it has six digits and they spell the truncated value, modulo a million, of a step at
   * most `window` away from the current one, for a secret that decodes.
   */
  lemma AcceptedExactly(hmac: Hmac, secret: string, code: string, window: int, nowMs: int)
    ensures
      Verified(hmac, secret, code, window, nowMs) == Ok(true) <==>
      && ServerDecode(secret).Ok?
      && exists step :: nowMs / 1000 / 30 - window <= step <= nowMs / 1000 / 30 + window
                        && IsCodeOf(hmac, ServerDecode(secret).value, code, step)
  {
    hide ServerDecode, Code, IsCodeOf;
    if ServerDecode(secret).Ok? {
      forall step ensures code == Code(hmac, ServerDecode(secret).value, step, 6)
                          <==> IsCodeOf(hmac, ServerDecode(secret).value, code, step)
      {
        CodeIsTheOnly(hmac, ServerDecode(secret).value, code, step);
      }
    }
  }

  // ---------- The client ----------

  datatype Algorithm = Sha1 | Sha256 | Sha512

  const OVERFLOW: string := "attempt to multiply with overflow"
  const ZERO_DIVISOR: string := "attempt to calculate the remainder with a divisor of zero"

  // 10u32.pow(digits): a build with overflow checks stops, one without them wraps.
  function PowU32(digits: nat, checked: bool): Result<nat, string> {
    PowPositive(10, digits);
    if Pow(10, digits) < 0x1_0000_0000 then Ok(Pow(10, digits))
    else if checked then Err(OVERFLOW)
    else Ok(Pow(10, digits) % 0x1_0000_0000)
  }

  /**
   * The code that the client shows; zero stands for a period of 30 seconds and for six digits. From ten digits on
   * the modulus does not fit in 32 bits.
   */
  function Shown(hmac: Algorithm -> Hmac, secret: string, timestampSec: nat, period: nat, digits: nat,
                 algorithm: Algorithm, checked: bool)
    : Result<string, string>
  {
    var step := timestampSec / (if period == 0 then 30 else period);
    var width := if digits == 0 then 6 else digits;
    match ClientDecode(secret)
    case Err(e) => Err(e)
    case Ok(key) =>
      if width <= 9 then Ok(Code(hmac(algorithm), key, step, width))
      else if checked then Err(OVERFLOW)
      else
        var modulus := Pow(10, width) % 0x1_0000_0000;
        if modulus == 0 then Err(ZERO_DIVISOR)
        else Ok(PadStart(ToDecimal(Truncate(hmac(algorithm)(key, BE(step, 8))) % modulus), width))
  }

  method GenerateTotp(hmac: Algorithm -> Hmac, secret: string, timestampSec: nat, period: nat, digits: nat,
                      algorithm: Algorithm, checked: bool)
    returns (r: Result<string, string>)
    ensures r == Shown(hmac, secret, timestampSec, period, digits, algorithm, checked)
  {
    hide Truncate, Binary, And, PadStart, ToDecimal, Decimals, ClientDecode, BE;
    var key := ClientDecodeBase32(secret);
    if key.Err? {
      return Err(key.error);
    }
    var period' := if period == 0 then 30 else period;
    var width := if digits == 0 then 6 else digits;
    var counter := timestampSec / period';
    var counterBytes := BE(counter, 8);
    var mac: Mac := hmac(algorithm)(key.value, counterBytes);
    TruncationInRange(mac);
    var offset := And(mac[|mac| - 1], 0x0f);
    var binary := Binary(mac[offset], mac[offset + 1], mac[offset + 2], mac[offset + 3]);
    var modulus := PowU32(width, checked);
    WidthLimit(width);
    if modulus.Err? {
      return Err(OVERFLOW);
    }
    if modulus.value == 0 {
      return Err(ZERO_DIVISOR);
    }
    ShownCode(binary, width);
    r := Ok(PadStart(ToDecimal(binary % modulus.value), width));
  }

  // The modulus fits in 32 bits up to nine digits and no further.
  lemma WidthLimit(width: nat)
    ensures 0 < Pow(10, width)
    ensures Pow(10, width) < 0x1_0000_0000 <==> width <= 9
  {
    Million();
    PowAdd(10, 6, 3);
    PowAdd(10, 6, 4);
    var three: nat := 3;
    assert Pow(10, three) == 1000 && Pow(10, three + 1) == 10000;
    if width <= 9 {
      PowMonotone(10, width, 9);
    } else {
      PowMonotone(10, 10, width);
    }
  }

  lemma LargePowersOfTen()
    ensures Pow(10, 31) == 10_000_000_000_000_000_000_000_000_000_000
    ensures Pow(10, 32) == 100_000_000_000_000_000_000_000_000_000_000
  {
    var four: nat := 4;
    assert Pow(10, four) == 10_000;
    hide Pow;
    PowAdd(10, 4, 4);
    PowAdd(10, 8, 8);
    PowAdd(10, 16, 16);
    PowAdd(10, 31, 1);
    One(10);
  }

  lemma One(b: int)
    ensures Pow(b, 1) == b
  {
    assert Pow(b, 0) == 1;
  }

  // 10^width is a multiple of 2^32 from 32 digits on and no earlier.
  lemma WrapsToZero(width: nat)
    ensures Pow(10, width) % 0x1_0000_0000 == 0 <==> width >= 32
  {
    hide Pow;
    LargePowersOfTen();
    if width >= 32 {
      PowAdd(10, 32, width - 32);
      MultipleOf(Pow(10, 32), Pow(10, width - 32), 0x1_0000_0000);
    } else {
      PowAdd(10, width, 31 - width);
      if Pow(10, width) % 0x1_0000_0000 == 0 {
        MultipleOf(Pow(10, width), Pow(10, 31 - width), 0x1_0000_0000);
        assert false;
      }
    }
  }

  lemma MultipleOf(a: int, b: int, m: int)
    requires m > 0 && a % m == 0
    ensures a * b % m == 0
  {
    var q := a / m;
    assert a == m * q;
    assert a * b == m * (q * b);
    DivModUnique(a * b, m, q * b, 0);
  }

  lemma NumeralOf(n: nat, width: nat)
    ensures Pow(10, width) > 0 && IsNumeral(Decimals(n, width), width, n % Pow(10, width))
  {
    ValueOfDecimals(n, width);
  }

  lemma PaddedNumeral(n: nat, width: nat)
    requires width >= 1 && n < Pow(10, width)
    ensures IsNumeral(PadStart(ToDecimal(n), width), width, n)
  {
    hide PadStart, ToDecimal, Pow, IsNumeral;
    NumeralOf(n, width);
    PaddedDecimal(n, width);
    DivModUnique(n, Pow(10, width), 0, n);
  }

  /**
   * For every period, width, hash and time: the code is a numeral of the asked width for the truncated value modulo
   * 10^width, up to nine digits. From ten digits on a checked build stops, and an unchecked one takes 10^width modulo
   * 2^32, which it cannot divide by from 32 digits on.
   */
  lemma ShownExactly(hmac: Algorithm -> Hmac, secret: string, timestampSec: nat, period: nat, digits: nat,
                     algorithm: Algorithm, checked: bool)
    ensures
      var r := Shown(hmac, secret, timestampSec, period, digits, algorithm, checked);
      var step := if period == 0 then timestampSec / 30 else timestampSec / period;
      var width := if digits == 0 then 6 else digits;
      match ClientDecode(secret)
      case Err(e) => r == Err(e)
      case Ok(key) =>
        var value := Truncate(hmac(algorithm)(key, BE(step, 8)));
        var wrapped := Pow(10, width) % 0x1_0000_0000;
        if width <= 9 then r.Ok? && Pow(10, width) > 0 && IsNumeral(r.value, width, value % Pow(10, width))
        else if checked then r == Err(OVERFLOW)
        else if width >= 32 then r == Err(ZERO_DIVISOR)
        else r.Ok? && wrapped > 0 && IsNumeral(r.value, width, value % wrapped)
  {
    hide Truncate, ClientDecode, BE, PadStart, ToDecimal, Decimals, Pow, IsNumeral;
    var step := if period == 0 then timestampSec / 30 else timestampSec / period;
    var width := if digits == 0 then 6 else digits;
    WidthLimit(width);
    WrapsToZero(width);
    if ClientDecode(secret).Ok? {
      var value := Truncate(hmac(algorithm)(ClientDecode(secret).value, BE(step, 8)));
      if width <= 9 {
        NumeralOf(value, width);
      } else if width < 32 {
        var wrapped: nat := Pow(10, width) % 0x1_0000_0000;
        PaddedNumeral(value % wrapped, width);
      }
    }
  }

  /**
   * Server and client show the same code at every time, for each secret that both can read: the two decoders
   * return one key, and one key gives one code.
   */
  lemma SameCode(hmac: Algorithm -> Hmac, secret: string, timestampSec: nat)
    requires ServerDecode(secret).Ok? && ClientDecode(secret).Ok?
    ensures Code(hmac(Sha1), ServerDecode(secret).value, timestampSec / 30, 6)
            == Code(hmac(Sha1), ClientDecode(secret).value, timestampSec / 30, 6)
  {
    DecodersAgree(secret);
    var clean := ServerClean(secret);
    forall i | 0 <= i < |clean| ensures !IsSeparator(clean[i]) {
      assert DigitOf(clean[i]).Some?;
    }
    if clean == "" {
      DropAfterStrip(Upper(secret));
      DropCommutesWithUpper(secret);
    }
  }

  /** From end to end: the server accepts the code that the client shows while their steps are in its window. */
  lemma ShownCodeIsAccepted(hmac: Algorithm -> Hmac, secret: string, clientSec: nat, period: nat, digits: nat,
                            checked: bool, window: int, nowMs: int)
    requires ServerDecode(secret).Ok? && ClientDecode(secret).Ok? && period in {0, 30} && digits in {0, 6}
    requires -window <= clientSec / 30 - nowMs / 1000 / 30 <= window
    ensures
      var shown := Shown(hmac, secret, clientSec, period, digits, Sha1, checked);
      shown.Ok? && Verified(hmac(Sha1), secret, shown.value, window, nowMs) == Ok(true)
  {
    hide ServerDecode, ClientDecode, Code;
    SameCode(hmac, secret, clientSec);
  }
}
