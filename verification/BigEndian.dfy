/** Fixed-width big-endian encodings, as written by the TypeScript server and by the Rust client. */
module BigEndian {
  import opened Powers
  import opened Wrappers

  type byte = x: int | 0 <= x < 256
  type nibble = x: int | 0 <= x < 16
  type Bytes = seq<byte>

  // ---------- Reference definitions ----------

  /** The low `len` base-256 digits of n, most significant first; two's complement for a negative n. */
  function BE(n: int, len: nat): (s: Bytes)
    ensures |s| == len
    decreases len
  {
    if len == 0 then [] else BE(n / 256, len - 1) + [n % 256]
  }

  function ValueBE(s: Bytes): nat {
    if s == [] then 0 else ValueBE(s[..|s| - 1]) * 256 + s[|s| - 1]
  }

  function Zeros(k: nat): Bytes {
    seq(k, _ => 0)
  }

  lemma {:induction false} ValueOfBE(n: int, len: nat)
    ensures Pow(256, len) > 0
    ensures ValueBE(BE(n, len)) == n % Pow(256, len)
    decreases len
  {
    PowPositive(256, len);
    if len > 0 {
      ValueOfBE(n / 256, len - 1);
      var p := Pow(256, len - 1);
      PowPositive(256, len - 1);
      assert BE(n, len)[..len - 1] == BE(n / 256, len - 1);
      DigitStep(n, 256, p);
    }
  }

  lemma {:induction false} BEOfValue(s: Bytes)
    ensures BE(ValueBE(s), |s|) == s
    ensures ValueBE(s) < Pow(256, |s|)
  {
    if s != [] {
      var t := s[..|s| - 1];
      BEOfValue(t);
      DivModUnique(ValueBE(s), 256, ValueBE(t), s[|s| - 1]);
    }
  }

  /** Two numbers get the same `len` bytes exactly when they agree modulo 256^len. */
  lemma BEInjective(a: int, b: int, len: nat)
    ensures Pow(256, len) > 0
    ensures BE(a, len) == BE(b, len) <==> Cong(a, b, Pow(256, len))
  {
    ValueOfBE(a, len);
    ValueOfBE(b, len);
    BEOfValue(BE(a, len));
    BEOfValue(BE(b, len));
    BEOfMod(a, len);
    BEOfMod(b, len);
  }

  lemma BEOfMod(n: int, len: nat)
    ensures Pow(256, len) > 0
    ensures BE(n % Pow(256, len), len) == BE(n, len)
  {
    ValueOfBE(n, len);
    BEOfValue(BE(n, len));
  }

  lemma {:induction false} BEOfZero(len: nat)
    ensures BE(0, len) == Zeros(len)
  {
    if len > 0 {
      BEOfZero(len - 1);
    }
  }

  // ---------- What the two runtimes hand over ----------

  /** The bytes of num-bigint's `to_bytes_be`: no leading zero, and a single zero byte for zero. */
  function MinimalBytes(n: nat): (s: Bytes)
    ensures |s| >= 1
  {
    if n < 256 then [n] else MinimalBytes(n / 256) + [n % 256]
  }

  /** The digits of BigInt's `toString(16)`. */
  function HexDigits(n: nat): (h: seq<nibble>)
    ensures |h| >= 1
  {
    if n < 16 then [n] else HexDigits(n / 16) + [n % 16]
  }

  /** `Buffer.from(hex, 'hex')` on an even number of digits. */
  function HexToBytes(h: seq<nibble>): Bytes
    requires |h| % 2 == 0
  {
    if h == [] then [] else [16 * (h[0] as int) + h[1] as int] + HexToBytes(h[2..])
  }

  /** `buf.toString('hex')`. */
  function BytesToHex(s: Bytes): (h: seq<nibble>)
    ensures |h| == 2 * |s|
  {
    if s == [] then [] else [s[0] / 16, s[0] % 16] + BytesToHex(s[1..])
  }

  function HexValue(h: seq<nibble>): nat {
    if h == [] then 0 else HexValue(h[..|h| - 1]) * 16 + h[|h| - 1]
  }

  function EvenHex(h: seq<nibble>): (r: seq<nibble>)
    ensures |r| % 2 == 0
  {
    if |h| % 2 != 0 then [0] + h else h
  }

  lemma {:induction false} HexToBytesAppend(h: seq<nibble>, hi: nibble, lo: nibble)
    requires |h| % 2 == 0
    ensures HexToBytes(h + [hi, lo]) == HexToBytes(h) + [16 * (hi as int) + lo as int]
  {
    if h == [] {
      assert h + [hi, lo] == [hi, lo];
      assert [hi, lo][2..] == [];
    } else {
      HexToBytesAppend(h[2..], hi, lo);
      assert (h + [hi, lo])[2..] == h[2..] + [hi, lo];
    }
  }

  /**
   * Going through the hexadecimal string yields the minimal bytes: the server starts from what the client starts from.
   */
  lemma {:induction false} HexBytesAreMinimal(n: nat)
    ensures HexToBytes(EvenHex(HexDigits(n))) == MinimalBytes(n)
  {
    if n < 16 {
      assert EvenHex(HexDigits(n)) == [0, n] && [0, n][2..] == [];
    } else if n < 256 {
      assert HexDigits(n) == [n / 16, n % 16] && [n / 16, n % 16][2..] == [];
    } else {
      hide HexToBytes;
      var h := HexDigits(n / 256);
      var hi, lo := n / 16 % 16, n % 16;
      assert n / 16 / 16 == n / 256;
      assert HexDigits(n) == h + [hi] + [lo] == h + [hi, lo];
      HexBytesAreMinimal(n / 256);
      HexToBytesAppend(EvenHex(h), hi, lo);
      assert EvenHex(h + [hi, lo]) == EvenHex(h) + [hi, lo];
      assert n % 256 == 16 * hi + lo;
    }
  }

  // Cut on the left, or fill with zeros on the left, to `len` bytes.
  function Resize(s: Bytes, len: nat): Bytes {
    if |s| >= len then s[|s| - len..] else Zeros(len - |s|) + s
  }

  lemma {:induction false} ResizeMinimal(n: nat, len: nat)
    ensures Resize(MinimalBytes(n), len) == BE(n, len)
  {
    if len > 0 {
      if n < 256 {
        BEOfZero(len - 1);
      } else {
        ResizeMinimal(n / 256, len - 1);
        var m := MinimalBytes(n / 256);
        if |m| >= len - 1 {
          assert (m + [n % 256])[|m| + 1 - len..] == m[|m| - (len - 1)..] + [n % 256];
        }
      }
    }
  }

  // ---------- The converters ----------

  // Copies buf to the right end of a zeroed buffer.
  method PadLeft(buf: Bytes, length: nat) returns (padded: Bytes)
    requires |buf| < length
    ensures padded == Resize(buf, length)
  {
    var a := new byte[length](_ => 0);
    var start := length - |buf|;
    for i := 0 to |buf|
      invariant forall j :: 0 <= j < start ==> a[j] == 0
      invariant forall j :: 0 <= j < i ==> a[start + j] == buf[j]
    {
      a[start + i] := buf[i];
    }
    padded := a[..];
    assert padded == Resize(buf, length) by {
      forall j | 0 <= j < length ensures padded[j] == Resize(buf, length)[j] {
        if j >= start {
          assert a[start + (j - start)] == buf[j - start];
        }
      }
    }
  }

  /** The server's converter. */
  method BigIntToBuffer(num: nat, length: nat) returns (buf: Bytes)
    ensures buf == BE(num, length)
  {
    var hex := HexDigits(num);
    if |hex| % 2 != 0 {
      hex := [0] + hex;
    }
    HexBytesAreMinimal(num);
    ResizeMinimal(num, length);
    buf := HexToBytes(hex);
    if |buf| == length {
      return;
    }
    if |buf| > length {
      return buf[|buf| - length..];
    }
    buf := PadLeft(buf, length);
  }

  /** The client's converter. */
  method BiguintToBytesPadded(val: nat, length: nat) returns (bytes: Bytes)
    ensures bytes == BE(val, length)
  {
    ResizeMinimal(val, length);
    bytes := MinimalBytes(val);
    if |bytes| == length {
    } else if |bytes| > length {
      bytes := bytes[|bytes| - length..];
    } else {
      bytes := PadLeft(bytes, length);
    }
  }

  /** `BigInt('0x' + hex)`: a SyntaxError when there is no digit. */
  function BufferToBigInt(buf: Bytes): Result<nat, string> {
    var hex := BytesToHex(buf);
    if hex == [] then Err("Cannot convert 0x to a BigInt") else Ok(HexValue(hex))
  }

  lemma {:induction false} BytesToHexAppend(s: Bytes, b: byte)
    ensures BytesToHex(s + [b]) == BytesToHex(s) + [b / 16, b % 16]
  {
    if s == [] {
      assert s + [b] == [b] && [b][1..] == [];
    } else {
      BytesToHexAppend(s[1..], b);
      assert (s + [b])[1..] == s[1..] + [b];
    }
  }

  lemma {:induction false} HexValueOfBytes(s: Bytes)
    ensures HexValue(BytesToHex(s)) == ValueBE(s)
  {
    if s != [] {
      var t, b := s[..|s| - 1], s[|s| - 1];
      assert s == t + [b];
      HexValueOfBytes(t);
      BytesToHexAppend(t, b);
      var h := BytesToHex(t);
      assert (h + [b / 16, b % 16])[..|h| + 1] == h + [b / 16];
      assert (h + [b / 16])[..|h|] == h;
    }
  }

  lemma BufferToBigIntValue(buf: Bytes)
    ensures BufferToBigInt(buf) == if buf == [] then Err("Cannot convert 0x to a BigInt") else Ok(ValueBE(buf))
  {
    HexValueOfBytes(buf);
  }

  /** Reading back a written number: lossless exactly when it fits. */
  lemma WriteThenRead(n: nat, len: nat)
    requires len >= 1
    ensures Pow(256, len) > 0
    ensures BufferToBigInt(BE(n, len)) == Ok(n % Pow(256, len))
    ensures BufferToBigInt(BE(n, len)) == Ok(n) <==> n < Pow(256, len)
  {
    BufferToBigIntValue(BE(n, len));
    ValueOfBE(n, len);
    if n < Pow(256, len) {
      DivModUnique(n, Pow(256, len), 0, n);
    }
  }
}
