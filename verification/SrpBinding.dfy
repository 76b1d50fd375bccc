/**
 * What the hashed values of the login protocol stand for: unless the hash clashes on the very inputs at hand, equal
 * evidence means equal users, salts, public values and keys, and equal private exponents mean equal passwords.
 */
module SrpBinding {
  import opened Powers
  import opened BigEndian
  import opened BitOps
  import opened SrpSession

  // The hash tells these two inputs apart, if they differ.
  predicate NoClash(H: Hash, s: Bytes, t: Bytes) {
    H(s) == H(t) ==> s == t
  }

  lemma EqualParts(s: Bytes, t: Bytes, s': Bytes, t': Bytes)
    requires s + t == s' + t' && |s| == |s'|
    ensures s == s' && t == t'
  {
    assert s == (s + t)[..|s|] && s' == (s' + t')[..|s'|];
    assert t == (s + t)[|s|..] && t' == (s' + t')[|s'|..];
  }

  lemma GroupPart(s: Digest, t: Digest, u: Digest)
    requires Xor(s, u) == Xor(t, u)
    ensures s == t
  {
    hide XorLow, Pow;
    SmallPowers();
    forall i | 0 <= i < 32 ensures s[i] == t[i] {
      assert Xor(s, u)[i] == XorByte(s[i], u[i]) && Xor(t, u)[i] == XorByte(t[i], u[i]);
      XorCancels(s[i], t[i], u[i], 8);
    }
  }

  /** The client's evidence binds the modulus, the user's name, the salt, both public values and the session key. */
  lemma EvidenceBinds(H: Hash, N: nat, username: Bytes, salt: Bytes, A: nat, B: nat, key: Digest,
                      N': nat, username': Bytes, salt': Bytes, A': nat, B': nat, key': Digest)
    requires N <= Pow(256, WIDTH) && A < Pow(256, WIDTH) && B < Pow(256, WIDTH)
    requires N' <= Pow(256, WIDTH) && A' < Pow(256, WIDTH) && B' < Pow(256, WIDTH)
    requires NoClash(H, username, username') && NoClash(H, BE(N, WIDTH), BE(N', WIDTH))
    requires NoClash(H, Transcript(H, N, username, salt, A, B, key), Transcript(H, N', username', salt', A', B', key'))
    requires Evidence(H, N, username, salt, A, B, key) == Evidence(H, N', username', salt', A', B', key')
    ensures BE(N, WIDTH) == BE(N', WIDTH)
    ensures username == username' && salt == salt' && A == A' && B == B' && key == key'
  {
    hide BE, Xor, Pow;
    var hg := H(BE(GENERATOR, WIDTH));
    var group, group' := Xor(H(BE(N, WIDTH)), hg), Xor(H(BE(N', WIDTH)), hg);
    var a, b, a', b' := BE(A, WIDTH), BE(B, WIDTH), BE(A', WIDTH), BE(B', WIDTH);
    EqualParts(group + H(username) + salt + a + b, key, group' + H(username') + salt' + a' + b', key');
    EqualParts(group + H(username) + salt + a, b, group' + H(username') + salt' + a', b');
    EqualParts(group + H(username) + salt, a, group' + H(username') + salt', a');
    EqualParts(group + H(username), salt, group' + H(username'), salt');
    EqualParts(group, H(username), group', H(username'));
    GroupPart(H(BE(N, WIDTH)), H(BE(N', WIDTH)), hg);
    SameNumber(A, A');
    SameNumber(B, B');
  }

  lemma SameNumber(n: nat, n': nat)
    requires n < Pow(256, WIDTH) && n' < Pow(256, WIDTH) && BE(n, WIDTH) == BE(n', WIDTH)
    ensures n == n'
  {
    BEInjective(n, n', WIDTH);
    DivModUnique(n, Pow(256, WIDTH), 0, n);
    DivModUnique(n', Pow(256, WIDTH), 0, n');
  }

  /** The server's evidence binds A, the client's evidence and the key. */
  lemma CounterEvidenceBinds(H: Hash, A: nat, m1: Digest, key: Digest, A': nat, m1': Digest, key': Digest)
    requires A < Pow(256, WIDTH) && A' < Pow(256, WIDTH)
    requires NoClash(H, BE(A, WIDTH) + m1 + key, BE(A', WIDTH) + m1' + key')
    requires CounterEvidence(H, A, m1, key) == CounterEvidence(H, A', m1', key')
    ensures A == A' && m1 == m1' && key == key'
  {
    hide BE, Pow;
    EqualParts(BE(A, WIDTH) + m1, key, BE(A', WIDTH) + m1', key');
    EqualParts(BE(A, WIDTH), m1, BE(A', WIDTH), m1');
    SameNumber(A, A');
  }

  /** The scrambler binds both public values. */
  lemma ScramblerBinds(H: Hash, A: nat, B: nat, A': nat, B': nat)
    requires A < Pow(256, WIDTH) && B < Pow(256, WIDTH) && A' < Pow(256, WIDTH) && B' < Pow(256, WIDTH)
    requires NoClash(H, BE(A, WIDTH) + BE(B, WIDTH), BE(A', WIDTH) + BE(B', WIDTH))
    ensures Scrambler(H, A, B) == Scrambler(H, A', B') ==> A == A' && B == B'
  {
    hide BE, Pow, ValueBE;
    if Scrambler(H, A, B) == Scrambler(H, A', B') {
      SameDigest(H(BE(A, WIDTH) + BE(B, WIDTH)), H(BE(A', WIDTH) + BE(B', WIDTH)));
      EqualParts(BE(A, WIDTH), BE(B, WIDTH), BE(A', WIDTH), BE(B', WIDTH));
      SameNumber(A, A');
      SameNumber(B, B');
    }
  }

  /** The multiplier binds the group. */
  lemma MultiplierBinds(H: Hash, N: nat, N': nat)
    requires N < Pow(256, WIDTH) && N' < Pow(256, WIDTH)
    requires NoClash(H, BE(N, WIDTH) + BE(GENERATOR, WIDTH), BE(N', WIDTH) + BE(GENERATOR, WIDTH))
    ensures Multiplier(H, N) == Multiplier(H, N') ==> N == N'
  {
    hide BE, Pow, ValueBE;
    if Multiplier(H, N) == Multiplier(H, N') {
      SameDigest(H(BE(N, WIDTH) + BE(GENERATOR, WIDTH)), H(BE(N', WIDTH) + BE(GENERATOR, WIDTH)));
      EqualParts(BE(N, WIDTH), BE(GENERATOR, WIDTH), BE(N', WIDTH), BE(GENERATOR, WIDTH));
      SameNumber(N, N');
    }
  }

  lemma SameDigest(s: Digest, t: Digest)
    requires ValueBE(s) == ValueBE(t)
    ensures s == t
  {
    BEOfValue(s);
    BEOfValue(t);
  }

  // ---------- The private exponent ----------

  lemma {:induction false} HexInjective(s: Bytes, t: Bytes)
    requires BytesToHex(s) == BytesToHex(t)
    ensures s == t
  {
    if s != [] {
      var h, k := BytesToHex(s), BytesToHex(t);
      assert h[0] == k[0] && h[1] == k[1] && h[2..] == BytesToHex(s[1..]) && k[2..] == BytesToHex(t[1..]);
      HexInjective(s[1..], t[1..]);
      assert s[0] == 16 * (s[0] / 16) + s[0] % 16 && t[0] == 16 * (t[0] / 16) + t[0] % 16;
      assert s == [s[0]] + s[1..] && t == [t[0]] + t[1..];
    }
  }

  lemma LowerHexInjective(s: Bytes, t: Bytes)
    requires LowerHex(s) == LowerHex(t)
    ensures s == t
  {
    var h, k := BytesToHex(s), BytesToHex(t);
    assert |h| == |LowerHex(s)| == |k|;
    forall i | 0 <= i < |h| ensures h[i] == k[i] {
      assert LowerHex(s)[i] == HexChar(h[i]) && LowerHex(t)[i] == HexChar(k[i]);
      assert HexChar(h[i]) == HexChar(k[i]);
    }
    HexInjective(s, t);
  }

  predicate NoColon(s: Bytes) {
    forall i :: 0 <= i < |s| ==> s[i] != 58
  }

  lemma HexHasNoColon(s: Bytes)
    ensures NoColon(LowerHex(s))
  {
  }

  // The last colon splits a text in one way.
  lemma LastColon(s: Bytes, t: Bytes, s': Bytes, t': Bytes)
    requires NoColon(t) && NoColon(t') && s + [58] + t == s' + [58] + t'
    ensures s == s' && t == t'
  {
    var whole := s + [58] + t;
    assert whole[|s|] == 58 && (s' + [58] + t')[|s'|] == 58;
    EqualParts(s + [58], t, s' + [58], t');
    EqualParts(s, [58], s', [58]);
  }

  /** The private exponent binds the salt, the name and the master key. */
  lemma PrivateExponentBinds(H: Hash, username: Bytes, masterKey: Bytes, salt: Bytes,
                             username': Bytes, masterKey': Bytes, salt': Bytes)
    requires
      var inner, inner' := username + [58] + LowerHex(masterKey), username' + [58] + LowerHex(masterKey');
      NoClash(H, inner, inner') && NoClash(H, salt + H(inner), salt' + H(inner'))
    requires PrivateExponent(H, username, masterKey, salt) == PrivateExponent(H, username', masterKey', salt')
    ensures username == username' && masterKey == masterKey' && salt == salt'
  {
    hide LowerHex, ValueBE;
    var inner, inner' := username + [58] + LowerHex(masterKey), username' + [58] + LowerHex(masterKey');
    SameDigest(H(salt + H(inner)), H(salt' + H(inner')));
    EqualParts(salt, H(inner), salt', H(inner'));
    HexHasNoColon(masterKey);
    HexHasNoColon(masterKey');
    LastColon(username, LowerHex(masterKey), username', LowerHex(masterKey'));
    LowerHexInjective(masterKey, masterKey');
  }
}
