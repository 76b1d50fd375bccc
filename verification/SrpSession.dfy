/**
 * The two ends of an SRP-6a login: the Rust client and the TypeScript server. The hash is any function
 * to 32 bytes and the modulus any odd number of at most 256 bytes, so nothing rests on SHA-256 or on N being prime.
 */
module SrpSession {
  import opened Wrappers
  import opened Powers
  import opened BigEndian
  import opened BitOps
  import opened SrpMath

  type Digest = s: Bytes | |s| == 32 witness Zeros(32)
  type Hash = Bytes -> Digest

  const GENERATOR: nat := 2
  const WIDTH: nat := 256

  /** The 2048-bit group modulus of RFC 5054, as both programs spell it. */
  const GROUP_PRIME: nat := 0xAC6BDB41324A9A9BF166DE5E1389582FAF72B6651987EE07FC332F683B94471BA25CEB5F15DE38B4341168461CCBA0140F00D0160AFFA93DD2C85E247E67400379E0957D0502438DF02B22B647CA55F2A3841D39634992644265EEBEC4D20A16C5F3528A6D15E4407B18E06A53ED9027D9B420C21C313E1B2749591A9B65438A2566CCC4465B2035F121210850D6955DFEB4CD0EE5460E58F69646FA5E4B4957B733B9B47E53B026BE6395EE1B24E7985474D5409605553E4774B819EF66E2E19C898394EAEEDC4C7E9C4CC295F8CCE8CC991666CB29A51F2231BC7FF2FB81C789FE2CA0B83EAD80A3A059B51E13D667793B9F2EA2F29A58814D7964E94EA25D

  // What the proofs need of the 2048-bit group modulus.
  predicate GroupModulus(N: int) {
    N % 2 == 1 && N > 1
  }

  // ---------- The protocol's definitions, shared by both ends ----------

  function Multiplier(H: Hash, N: nat): nat {
    ValueBE(H(BE(N, WIDTH) + BE(GENERATOR, WIDTH)))
  }

  function Scrambler(H: Hash, A: nat, B: nat): nat {
    ValueBE(H(BE(A, WIDTH) + BE(B, WIDTH)))
  }

  function XorByte(a: byte, b: byte): byte {
    SmallPowers();
    XorLow(a, b, 8)
  }

  function Xor(s: Digest, t: Digest): (r: Digest) {
    seq(32, i requires 0 <= i < 32 => XorByte(s[i], t[i]))
  }

  // H(N) ^ H(g), H(username), salt, A, B, key
  function Transcript(H: Hash, N: nat, username: Bytes, salt: Bytes, A: nat, B: nat, key: Bytes): Bytes {
    Xor(H(BE(N, WIDTH)), H(BE(GENERATOR, WIDTH))) + H(username) + salt + BE(A, WIDTH) + BE(B, WIDTH) + key
  }

  /** The client's evidence M1. */
  function Evidence(H: Hash, N: nat, username: Bytes, salt: Bytes, A: nat, B: nat, key: Bytes): Digest {
    H(Transcript(H, N, username, salt, A, B, key))
  }

  // H(A, M1, key)
  function CounterEvidence(H: Hash, A: nat, m1: Bytes, key: Bytes): Digest {
    H(BE(A, WIDTH) + m1 + key)
  }

  function HexChar(d: nibble): byte {
    if d < 10 then 48 + (d as int) else 87 + (d as int)
  }

  function LowerHex(s: Bytes): Bytes {
    seq(|BytesToHex(s)|, i requires 0 <= i < |BytesToHex(s)| => HexChar(BytesToHex(s)[i]))
  }

  /** The private exponent: H(salt, H(username ":" hex(masterKey))). */
  function PrivateExponent(H: Hash, username: Bytes, masterKey: Bytes, salt: Bytes): nat {
    ValueBE(H(salt + H(username + [58] + LowerHex(masterKey))))
  }

  // ---------- The client ----------

  datatype ClientKeys = ClientKeys(sessionKey: Bytes, m1: Bytes, m2: Bytes)

  /** The stored verifier g^x mod N. */
  function CalculateVerifier(H: Hash, N: int, username: Bytes, masterKey: Bytes, salt: Bytes): int
    requires N > 0
  {
    Pow(GENERATOR, PrivateExponent(H, username, masterKey, salt)) % N
  }

  function GenerateClientEphemeral(N: int, random: Bytes): (int, int)
    requires N > 0
  {
    var a := ValueBE(random) % N;
    (a, Pow(GENERATOR, a) % N)
  }

  /** What the client's session must be, written with the unreduced formula of the standard. */
  function ClientSession(H: Hash, N: nat, username: Bytes, salt: Bytes, a: nat, A: nat, B: nat, masterKey: Bytes)
    : Result<ClientKeys, string>
    requires N > 0
  {
    var u := Scrambler(H, A, B);
    if B % N == 0 then Err("Server ephemeral B cannot be 0 mod N")
    else if u == 0 then Err("Scrambling parameter u cannot be 0")
    else
      var x := PrivateExponent(H, username, masterKey, salt);
      var key := H(BE(ClientSecret(N, GENERATOR, Multiplier(H, N), x, a, u, B), WIDTH));
      var m1 := Evidence(H, N, username, salt, A, B, key);
      Ok(ClientKeys(key, m1, CounterEvidence(H, A, m1, key)))
  }

  // The client's subtraction modulo N avoids negative numbers.
  lemma SafeSubtraction(N: int, B: int, k: int, gx: int)
    requires N > 0 && B >= 0
    ensures
      var term := (k * (gx % N)) % N;
      var base := if B >= term then (B - term) % N else (N - (term - B) % N) % N;
      base >= 0 && Cong(base, B - k * gx, N)
  {
    var term := (k * (gx % N)) % N;
    CongMod(gx, N);
    CongMul(k, k, gx % N, gx, N);
    CongMod(k * (gx % N), N);
    CongSub(B, B, term, k * gx, N);
    if B >= term {
      CongMod(B - term, N);
    } else {
      var r := (term - B) % N;
      CongMod(term - B, N);
      CongMod(N - r, N);
      CongSub(0, 0, r, term - B, N);
      CongShift(-r, 1, N);
    }
  }

  /** The client's computation, step by step. */
  method CalculateClientSession(H: Hash, N: nat, username: Bytes, salt: Bytes, a: nat, aPub: nat, bPub: nat,
                                masterKey: Bytes)
    returns (r: Result<ClientKeys, string>)
    requires N > 0
    ensures r == ClientSession(H, N, username, salt, a, aPub, bPub, masterKey)
    ensures r.Err? <==> bPub % N == 0 || Scrambler(H, aPub, bPub) == 0
  {
    hide Pow, BE, ValueBE, PrivateExponent, Xor;
    if bPub % N == 0 {
      return Err("Server ephemeral B cannot be 0 mod N");
    }
    var nBytes := BiguintToBytesPadded(N, 256);
    var gBytes := BiguintToBytesPadded(GENERATOR, 256);
    var k := ValueBE(H(nBytes + gBytes));
    var x := PrivateExponent(H, username, masterKey, salt);

    var aBytes := BiguintToBytesPadded(aPub, 256);
    var bBytes := BiguintToBytesPadded(bPub, 256);
    var u := ValueBE(H(aBytes + bBytes));
    if u == 0 {
      return Err("Scrambling parameter u cannot be 0");
    }

    var exp := a + u * x;
    var gX := Pow(GENERATOR, x) % N;
    var term := (k * gX) % N;
    var base := if bPub >= term then (bPub - term) % N else (N - (term - bPub) % N) % N;
    var s := Pow(base, exp) % N;
    assert s == ClientSecret(N, GENERATOR, k, x, a, u, bPub) by {
      SafeSubtraction(N, bPub, k, Pow(GENERATOR, x));
      CongPow(base, bPub - k * Pow(GENERATOR, x), exp, N);
    }
    var sBytes := BiguintToBytesPadded(s, 256);
    var sessionKey := H(sBytes);

    var hXor := XorDigests(H(nBytes), H(gBytes));
    var m1 := H(hXor + H(username) + salt + aBytes + bBytes + sessionKey);
    var m2 := H(aBytes + m1 + sessionKey);
    r := Ok(ClientKeys(sessionKey, m1, m2));
  }

  method XorDigests(hn: Digest, hg: Digest) returns (hXor: Digest)
    ensures hXor == Xor(hn, hg)
  {
    hide XorByte;
    var buf := new byte[32](_ => 0);
    for i := 0 to 32
      invariant forall j :: 0 <= j < i ==> buf[j] == XorByte(hn[j], hg[j])
    {
      buf[i] := XorByte(hn[i], hg[i]);
    }
    assert buf[..] == Xor(hn, hg);
    hXor := buf[..];
  }

  // ---------- The server ----------

  // `Mismatch` is the RangeError that the constant-time comparison throws on evidence of another length.
  datatype Verdict = Accepted(serverEvidence: Bytes, sessionKey: Bytes) | Rejected | Mismatch

  function ServerPublic(H: Hash, N: nat, v: nat, b: nat): int
    requires N > 0
  {
    (Multiplier(H, N) * v + Pow(GENERATOR, b)) % N
  }

  function ServerKey(H: Hash, N: nat, A: nat, B: nat, v: nat, b: nat): Digest
    requires N > 0
  {
    H(BE(ServerSecret(N, A, v, Scrambler(H, A, B), b), WIDTH))
  }

  function Verify(H: Hash, N: nat, username: Bytes, salt: Bytes, A: nat, B: nat, v: nat, b: nat, clientEvidence: Bytes)
    : Verdict
    requires N > 0
  {
    var key := ServerKey(H, N, A, B, v, b);
    var m1 := Evidence(H, N, username, salt, A, B, key);
    if A % N == 0 || Scrambler(H, A, B) == 0 then Rejected
    else if |clientEvidence| != 32 then Mismatch
    else if clientEvidence != m1 then Rejected
    else Accepted(CounterEvidence(H, A, m1, key), key)
  }

  lemma ReducedSum(x: int, y: int, N: int)
    requires N > 0
    ensures (x % N + y % N) % N == (x + y) % N
  {
    CongMod(x, N);
    CongMod(y, N);
    CongAdd(x % N, x, y % N, y, N);
  }

  class SrpServer {
    const N: nat
    const H: Hash
    var kCache: Option<nat>

    ghost predicate Valid()
      reads this
    {
      N > 1 && (kCache.Some? ==> kCache.value == Multiplier(H, N))
    }

    constructor (N: nat, H: Hash)
      requires N > 1
      ensures Valid() && this.N == N && this.H == H
    {
      this.N, this.H, this.kCache := N, H, None;
    }

    /** The cached multiplier is the one a fresh computation would give. */
    method GetMultiplierK() returns (k: nat)
      requires Valid()
      modifies this
      ensures Valid() && k == Multiplier(H, N) && kCache == Some(k)
    {
      if kCache.Some? {
        return kCache.value;
      }
      var nBytes := BigIntToBuffer(N, 256);
      var gBytes := BigIntToBuffer(GENERATOR, 256);
      k := ValueBE(H(nBytes + gBytes));
      kCache := Some(k);
    }

    method GenerateServerEphemeral(v: nat, secureRandomBytes: Bytes) returns (r: Result<(int, int), string>)
      requires Valid()
      modifies this
      ensures Valid()
      ensures r.Err? <==> secureRandomBytes == []
      ensures r.Ok? ==> r.value.0 == ValueBE(secureRandomBytes) % N && r.value.1 == ServerPublic(H, N, v, r.value.0)
    {
      hide Pow, ValueBE, Multiplier;
      BufferToBigIntValue(secureRandomBytes);
      var raw := BufferToBigInt(secureRandomBytes);
      if raw.Err? {
        return Err(raw.error);
      }
      var b := raw.value % N;
      var k := GetMultiplierK();
      var gb, _ := ModPow(GENERATOR, b, N);
      var kv := (k * v) % N;
      var B := (kv + gb) % N;
      ReducedSum(k * v, Pow(GENERATOR, b), N);
      r := Ok((b, B));
    }

    method CalculateU(A: nat, B: nat) returns (u: nat)
      ensures u == Scrambler(H, A, B)
    {
      var aBytes := BigIntToBuffer(A, 256);
      var bBytes := BigIntToBuffer(B, 256);
      u := ValueBE(H(aBytes + bBytes));
    }

    method VerifySession(username: Bytes, salt: Bytes, A: nat, B: nat, v: nat, b: nat, clientEvidence: Bytes)
      returns (verdict: Verdict)
      requires Valid()
      ensures verdict == Verify(H, N, username, salt, A, B, v, b, clientEvidence)
      ensures A % N == 0 ==> verdict == Rejected
      ensures verdict.Mismatch? <==> A % N != 0 && Scrambler(H, A, B) != 0 && |clientEvidence| != 32
    {
      hide Pow, BE, Xor, Scrambler;
      if A % N == 0 {
        return Rejected;
      }
      var u := CalculateU(A, B);
      if u == 0 {
        return Rejected;
      }
      var vu, _ := ModPow(v, u, N);
      var base := (A * vu) % N;
      var S, _ := ModPow(base, b, N);
      ReducedServerSecret(N, A, v, u, b);

      var sBytes := BigIntToBuffer(S, 256);
      var sessionKey: Bytes := H(sBytes);
      var nBytes := BigIntToBuffer(N, 256);
      var gBytes := BigIntToBuffer(GENERATOR, 256);
      var hXor: Bytes := XorDigests(H(nBytes), H(gBytes));
      var hu: Bytes := H(username);
      var aBytes := BigIntToBuffer(A, 256);
      var bBytes := BigIntToBuffer(B, 256);
      var expectedM1: Bytes := H(hXor + hu + salt + aBytes + bBytes + sessionKey);
      if |clientEvidence| != |expectedM1| {
        return Mismatch;
      }
      if clientEvidence != expectedM1 {
        return Rejected;
      }
      verdict := Accepted(H(aBytes + expectedM1 + sessionKey), sessionKey);
    }
  }

  // Reducing after each multiplication does not change the server's secret.
  lemma ReducedServerSecret(N: int, A: int, v: int, u: nat, b: nat)
    requires N > 0
    ensures Pow((A * (Pow(v, u) % N)) % N, b) % N == ServerSecret(N, A, v, u, b)
  {
    var vu := Pow(v, u);
    CongMod(vu, N);
    CongMul(A, A, vu % N, vu, N);
    CongMod(A * (vu % N), N);
    CongPow((A * (vu % N)) % N, A * vu, b, N);
  }

  // ---------- Both ends together ----------

  /**
   * A registered user with the right master key is let in, for all random choices, and both ends hold the
   * same session key and mutual evidence, unless the client stops because B mod N or u is zero.
   */
  lemma HandshakeSucceeds(H: Hash, N: nat, username: Bytes, salt: Bytes, masterKey: Bytes, aRandom: Bytes,
                          bRandom: Bytes)
    requires GroupModulus(N)
    ensures
      var (a, A) := GenerateClientEphemeral(N, aRandom);
      var v, b := CalculateVerifier(H, N, username, masterKey, salt), ValueBE(bRandom) % N;
      var B := ServerPublic(H, N, v, b);
      var session := ClientSession(H, N, username, salt, a, A, B, masterKey);
      && (session.Err? <==> B % N == 0 || Scrambler(H, A, B) == 0)
      && (session.Ok? ==> Verify(H, N, username, salt, A, B, v, b, session.value.m1)
                          == Accepted(session.value.m2, session.value.sessionKey))
  {
    hide PrivateExponent, Multiplier, Scrambler, Evidence, CounterEvidence, BE;
    var (a, A) := GenerateClientEphemeral(N, aRandom);
    var x := PrivateExponent(H, username, masterKey, salt);
    var v, b := CalculateVerifier(H, N, username, masterKey, salt), ValueBE(bRandom) % N;
    var B := ServerPublic(H, N, v, b);
    OddDividesNoPowerOfTwo(N, a);
    CongMod(Pow(GENERATOR, a), N);
    SecretsAgree(N, GENERATOR, Multiplier(H, N), a, b, x, Scrambler(H, A, B), A, v, B);
  }

  /** Of all 32-byte proofs the server accepts exactly the one that the honest client computes. */
  lemma OnlyTheClientsProof(H: Hash, N: nat, username: Bytes, salt: Bytes, masterKey: Bytes, aRandom: Bytes,
                            bRandom: Bytes, m1: Bytes)
    requires GroupModulus(N) && |m1| == 32
    ensures
      var (a, A) := GenerateClientEphemeral(N, aRandom);
      var v, b := CalculateVerifier(H, N, username, masterKey, salt), ValueBE(bRandom) % N;
      var B := ServerPublic(H, N, v, b);
      var session := ClientSession(H, N, username, salt, a, A, B, masterKey);
      session.Ok? ==> (Verify(H, N, username, salt, A, B, v, b, m1).Accepted? <==> m1 == session.value.m1)
  {
    HandshakeSucceeds(H, N, username, salt, masterKey, aRandom, bRandom);
  }

  /** A public value that is zero modulo N never gets in, whatever evidence comes with it. */
  lemma ZeroPublicIsRejected(H: Hash, N: nat, username: Bytes, salt: Bytes, A: nat, B: nat, v: nat, b: nat, m1: Bytes)
    requires N > 0 && A % N == 0
    ensures Verify(H, N, username, salt, A, B, v, b, m1) == Rejected
  {
    hide ServerKey, Evidence, CounterEvidence, Scrambler;
  }

  /**
   * The server's verdict for every A and every evidence: accepted exactly the evidence over its own secret, with A and
   * the scrambler non-zero; evidence of another length is a mismatch, the rest is rejected.
   */
  lemma VerdictExactly(H: Hash, N: nat, username: Bytes, salt: Bytes, A: nat, B: nat, v: nat, b: nat, m1: Bytes)
    requires N > 0
    ensures
      var u := Scrambler(H, A, B);
      var key := H(BE(Pow(A * Pow(v, u), b) % N, 256));
      var verdict := Verify(H, N, username, salt, A, B, v, b, m1);
      && (verdict.Mismatch? <==> A % N != 0 && u != 0 && |m1| != 32)
      && (verdict.Accepted? <==> A % N != 0 && u != 0 && m1 == Evidence(H, N, username, salt, A, B, key))
      && (verdict.Accepted? ==> verdict == Accepted(CounterEvidence(H, A, m1, key), key))
  {
    hide Evidence, CounterEvidence, Scrambler, BE, Pow;
  }

  /** The 256-byte encodings of A, B and S lose nothing below N. */
  lemma EncodingsDistinguishResidues(N: nat, s: nat, t: nat)
    requires N <= Pow(256, WIDTH) && s < N && t < N
    ensures BE(s, WIDTH) == BE(t, WIDTH) <==> s == t
  {
    BEInjective(s, t, WIDTH);
    DivModUnique(s, Pow(256, WIDTH), 0, s);
    DivModUnique(t, Pow(256, WIDTH), 0, t);
  }

  /** The group that both programs fix meets every hypothesis above. */
  lemma GroupPrimeIsAdmissible()
    ensures GroupModulus(GROUP_PRIME) && GROUP_PRIME < Pow(256, WIDTH)
  {
    // squaring eight times takes 256 to 256^256
    var p2 := Squared(1, 256);
    var p4 := Squared(2, p2);
    var p8 := Squared(4, p4);
    var p16 := Squared(8, p8);
    var p32 := Squared(16, p16);
    var p64 := Squared(32, p32);
    var p128 := Squared(64, p64);
    var p256 := Squared(128, p128);
  }

  lemma Squared(e: nat, p: nat) returns (q: nat)
    requires Pow(256, e) == p
    ensures q == p * p && Pow(256, 2 * e) == q
  {
    PowAdd(256, e, e);
    q := p * p;
  }
}
