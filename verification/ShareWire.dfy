/** The length-prefixed wire format in which a list of secret shares crosses the native boundary. */
module ShareWire {
  import opened Wrappers
  import opened BigEndian

  const U32: nat := 0x1_0000_0000

  function LE32(n: nat): (s: Bytes)
    ensures |s| == 4
  {
    [n % 256, n / 256 % 256, n / 0x1_0000 % 256, n / 0x100_0000 % 256]
  }

  function FromLE32(b0: byte, b1: byte, b2: byte, b3: byte): nat {
    b0 as int + 256 * b1 as int + 0x1_0000 * b2 as int + 0x100_0000 * b3 as int
  }

  // The length that the first four bytes declare.
  function Declared(flat: Bytes): nat
    requires |flat| >= 4
  {
    FromLE32(flat[0], flat[1], flat[2], flat[3])
  }

  lemma DeclaredOf(n: nat, tail: Bytes)
    requires n < U32
    ensures Declared(LE32(n) + tail) == n
  {
    var s := LE32(n) + tail;
    assert s[0] == n % 256 && s[1] == n / 256 % 256 && s[2] == n / 0x1_0000 % 256 && s[3] == n / 0x100_0000 % 256;
    assert n / 256 == 256 * (n / 0x1_0000) + n / 256 % 256;
    assert n / 0x1_0000 == 256 * (n / 0x100_0000) + n / 0x1_0000 % 256;
    assert n / 0x100_0000 < 256;
  }

  lemma DeclaredPrefix(flat: Bytes)
    requires |flat| >= 4
    ensures Declared(flat) < U32 && flat == LE32(Declared(flat)) + flat[4..]
  {
    LE32OfFrom(flat[0], flat[1], flat[2], flat[3]);
    assert flat[..4] == [flat[0], flat[1], flat[2], flat[3]];
    assert flat == flat[..4] + flat[4..];
  }

  lemma LE32OfFrom(b0: byte, b1: byte, b2: byte, b3: byte)
    ensures FromLE32(b0, b1, b2, b3) < U32 && LE32(FromLE32(b0, b1, b2, b3)) == [b0, b1, b2, b3]
  {
    var n := FromLE32(b0, b1, b2, b3);
    var n1 := b1 as int + 256 * b2 as int + 0x1_0000 * b3 as int;
    var n2 := b2 as int + 256 * b3 as int;
    assert n == 256 * n1 + b0 as int && n1 == 256 * n2 + b1 as int;
    assert n / 256 == n1 && n / 0x1_0000 == n2 && n / 0x100_0000 == b3 as int;
    assert n % 256 == b0 && n1 % 256 == b1 && n2 % 256 == b2 && (b3 as int) % 256 == b3;
  }

  /** The length is written least significant byte first: the other way round it is the big-endian number. */
  lemma LengthIsLittleEndian(n: nat)
    ensures var s := LE32(n); [s[3], s[2], s[1], s[0]] == BE(n, 4)
  {
    var n1, n2, n3 := n / 256, n / 0x1_0000, n / 0x100_0000;
    assert n1 / 256 == n2 && n2 / 256 == n3;
    assert BE(n3, 0) == [];
    var one: nat, two: nat, three: nat := 1, 2, 3;
    assert BE(n3, one) == [n3 % 256] && BE(n2, two) == BE(n3, 1) + [n2 % 256];
    assert BE(n1, three) == BE(n2, 2) + [n1 % 256] && BE(n, three + 1) == BE(n1, 3) + [n % 256];
  }

  /** Each share behind its length; the cast to u32 keeps the low 32 bits of the length. */
  function Flatten(shares: seq<Bytes>): Bytes {
    if shares == [] then [] else LE32(|shares[0]| % U32) + shares[0] + Flatten(shares[1..])
  }

  predicate Small(shares: seq<Bytes>) {
    forall i :: 0 <= i < |shares| ==> |shares[i]| < U32
  }

  datatype WireError = Malformed | NoShares

  // ---------- Writing ----------

  lemma {:induction false} FlattenAppend(shares: seq<Bytes>, blob: Bytes)
    ensures Flatten(shares + [blob]) == Flatten(shares) + LE32(|blob| % U32) + blob
  {
    if shares == [] {
      assert [blob][1..] == [];
    } else {
      FlattenAppend(shares[1..], blob);
      assert (shares + [blob])[1..] == shares[1..] + [blob];
    }
  }

  method WriteShares(shares: seq<Bytes>) returns (buf: Bytes)
    ensures buf == Flatten(shares)
  {
    buf := [];
    for i := 0 to |shares|
      invariant buf == Flatten(shares[..i])
    {
      var shareLen := |shares[i]| % U32;
      assert shares[..i + 1] == shares[..i] + [shares[i]];
      FlattenAppend(shares[..i], shares[i]);
      buf := buf + LE32(shareLen);
      buf := buf + shares[i];
    }
    assert shares[..|shares|] == shares;
  }

  function TotalLength(shares: seq<Bytes>): nat {
    if shares == [] then 0 else |shares[0]| + TotalLength(shares[1..])
  }

  /** Four bytes a share on top of the contents. */
  lemma {:induction false} FlattenedLength(shares: seq<Bytes>)
    ensures |Flatten(shares)| == 4 * |shares| + TotalLength(shares)
  {
    if shares != [] {
      FlattenedLength(shares[1..]);
    }
  }

  /** Shares one byte longer than the secret fill the buffer that callers are told to allocate, exactly. */
  lemma {:induction false} AllocationSuffices(shares: seq<Bytes>, secretLen: nat)
    requires forall i :: 0 <= i < |shares| ==> |shares[i]| == secretLen + 1
    ensures |Flatten(shares)| == |shares| * (4 + secretLen + 1)
  {
    hide LE32;
    if shares != [] {
      AllocationSuffices(shares[1..], secretLen);
      assert |shares| * (secretLen + 5) == (|shares| - 1) * (secretLen + 5) + (secretLen + 5);
    }
  }

  // ---------- Reading ----------

  /** What the parser makes of the unread bytes. */
  function Blobs(flat: Bytes): Option<seq<Bytes>> {
    if |flat| < 4 then Some([])
    else
      var len := Declared(flat);
      if 4 + len > |flat| then None
      else
        Ahead([flat[4..4 + len]], Blobs(flat[4 + len..]))
  }

  function Parse(flat: Bytes): Result<seq<Bytes>, WireError> {
    match Blobs(flat)
    case None => Err(Malformed)
    case Some(shares) => if shares == [] then Err(NoShares) else Ok(shares)
  }

  method ParseShares(flat: Bytes) returns (r: Result<seq<Bytes>, WireError>)
    ensures r == Parse(flat)
  {
    var shareBlobs: seq<Bytes> := [];
    var cursor := 0;
    assert flat[0..] == flat;
    AheadOfNothing(Blobs(flat));
    while cursor + 4 <= |flat|
      invariant 0 <= cursor <= |flat|
      invariant Blobs(flat) == Ahead(shareBlobs, Blobs(flat[cursor..]))
      decreases |flat| - cursor
    {
      ghost var unread := flat[cursor..];
      var len := FromLE32(flat[cursor], flat[cursor + 1], flat[cursor + 2], flat[cursor + 3]);
      assert len == Declared(unread);
      cursor := cursor + 4;
      if cursor + len > |flat| {
        return Err(Malformed);
      }
      var blob := flat[cursor..cursor + len];
      cursor := cursor + len;
      assert unread[4..4 + len] == blob && unread[4 + len..] == flat[cursor..];
      AheadAhead(shareBlobs, [blob], Blobs(flat[cursor..]));
      shareBlobs := shareBlobs + [blob];
    }
    assert shareBlobs + [] == shareBlobs;
    if shareBlobs == [] {
      return Err(NoShares);
    }
    r := Ok(shareBlobs);
  }

  // The shares read so far in front of what the rest yields.
  function Ahead(shares: seq<Bytes>, more: Option<seq<Bytes>>): Option<seq<Bytes>> {
    match more case None => None case Some(m) => Some(shares + m)
  }

  lemma AheadOfNothing(more: Option<seq<Bytes>>)
    ensures Ahead([], more) == more
  {
    if more.Some? {
      assert [] + more.value == more.value;
    }
  }

  lemma AheadAhead(front: seq<Bytes>, back: seq<Bytes>, more: Option<seq<Bytes>>)
    ensures Ahead(front, Ahead(back, more)) == Ahead(front + back, more)
  {
    if more.Some? {
      assert front + (back + more.value) == front + back + more.value;
    }
  }

  // ---------- The parser inverts the writer, and says exactly why it fails ----------

  // A whole share in front: the parser takes it and goes on behind it.
  lemma BlobsStep(blob: Bytes, tail: Bytes)
    requires |blob| < U32
    ensures Blobs(LE32(|blob|) + blob + tail) ==
            Ahead([blob], Blobs(tail))
  {
    hide LE32, FromLE32;
    var flat := LE32(|blob|) + blob + tail;
    assert flat == LE32(|blob|) + (blob + tail);
    DeclaredOf(|blob|, blob + tail);
    assert flat[4..4 + |blob|] == blob && flat[4 + |blob|..] == tail;
  }

  // The writer's bytes followed by anything: the parser gets the shares back and goes on with the rest.
  lemma {:induction false} BlobsOfFlattened(shares: seq<Bytes>, rest: Bytes)
    requires Small(shares)
    ensures Blobs(Flatten(shares) + rest) == Ahead(shares, Blobs(rest))
  {
    if shares == [] {
      assert Flatten(shares) + rest == rest;
      AheadOfNothing(Blobs(rest));
    } else {
      hide LE32, Blobs, Flatten, Ahead;
      var blob, others := shares[0], shares[1..];
      assert shares == [blob] + others;
      FlattenCons(blob, others);
      BlobsStep(blob, Flatten(others) + rest);
      assert Flatten(shares) + rest == LE32(|blob|) + blob + (Flatten(others) + rest);
      BlobsOfFlattened(others, rest);
      AheadAhead([blob], others, Blobs(rest));
    }
  }

  lemma FlattenCons(blob: Bytes, shares: seq<Bytes>)
    requires |blob| < U32
    ensures Flatten([blob] + shares) == LE32(|blob|) + blob + Flatten(shares)
  {
    hide LE32;
    assert ([blob] + shares)[1..] == shares;
  }

  // The first share of a buffer that holds it whole.
  lemma FirstShare(flat: Bytes) returns (blob: Bytes, tail: Bytes)
    requires |flat| >= 4 && 4 + Declared(flat) <= |flat|
    ensures |blob| < U32 && tail == flat[4 + Declared(flat)..] && blob == flat[4..4 + Declared(flat)]
    ensures flat == LE32(|blob|) + blob + tail
  {
    hide LE32, Declared;
    var len := Declared(flat);
    DeclaredPrefix(flat);
    blob, tail := flat[4..4 + len], flat[4 + len..];
    assert flat[4..] == blob + tail;
  }

  // What a successful parse read, and what it left unread.
  lemma {:induction false} ReadBack(flat: Bytes) returns (rest: Bytes)
    requires Blobs(flat).Some?
    ensures flat == Flatten(Blobs(flat).value) + rest && |rest| < 4 && Small(Blobs(flat).value)
  {
    hide LE32, Declared, Flatten;
    if |flat| < 4 {
      rest := flat;
      assert Flatten([]) == [] by { FlattenedLength([]); }
    } else {
      var blob, tail := FirstShare(flat);
      rest := ReadBack(tail);
      FlattenCons(blob, Blobs(tail).value);
    }
  }

  // Where a failing parse stopped: a declared length that runs past the end.
  lemma {:induction false} WhereItOverran(flat: Bytes) returns (shares: seq<Bytes>, n: nat, tail: Bytes)
    requires Blobs(flat).None?
    ensures Small(shares) && |tail| < n < U32 && flat == Flatten(shares) + LE32(n) + tail
  {
    hide LE32, Declared, Flatten;
    if 4 + Declared(flat) > |flat| {
      DeclaredPrefix(flat);
      shares, n, tail := [], Declared(flat), flat[4..];
      assert Flatten([]) == [] by { FlattenedLength([]); }
    } else {
      var blob, behind := FirstShare(flat);
      var more;
      more, n, tail := WhereItOverran(behind);
      shares := [blob] + more;
      FlattenCons(blob, more);
    }
  }

  /** Success: exactly the writer's bytes for a non-empty list, with fewer than four bytes left unread. */
  lemma ParseSucceeds(flat: Bytes, shares: seq<Bytes>)
    ensures Parse(flat) == Ok(shares)
            <==> shares != [] && Small(shares)
                 && exists rest: Bytes :: |rest| < 4 && flat == Flatten(shares) + rest
  {
    hide LE32, Declared, Flatten;
    if Parse(flat) == Ok(shares) {
      var rest := ReadBack(flat);
    }
    if rest: Bytes :| |rest| < 4 && flat == Flatten(shares) + rest && Small(shares) {
      BlobsOfFlattened(shares, rest);
      assert shares + [] == shares;
    }
  }

  /** A malformed buffer: exactly one whose declared lengths run, after some whole shares, past its end. */
  lemma ParseOverruns(flat: Bytes)
    ensures Parse(flat) == Err(Malformed)
            <==> exists shares: seq<Bytes>, n: nat, tail: Bytes ::
                   Small(shares) && |tail| < n < U32 && flat == Flatten(shares) + LE32(n) + tail
  {
    hide LE32, Declared, Flatten;
    if Parse(flat) == Err(Malformed) {
      var shares, n, tail := WhereItOverran(flat);
    }
    if shares: seq<Bytes>, n: nat, tail: Bytes :|
      Small(shares) && |tail| < n < U32 && flat == Flatten(shares) + LE32(n) + tail {
      var rest := LE32(n) + tail;
      assert flat == Flatten(shares) + rest;
      DeclaredOf(n, tail);
      BlobsOfFlattened(shares, rest);
    }
  }

  lemma ParseFindsNothing(flat: Bytes)
    ensures Parse(flat) == Err(NoShares) <==> |flat| < 4
  {
  }

  /** Reading back what was written: for exactly the non-empty lists of shares below 2^32 bytes. */
  lemma WriteThenParse(shares: seq<Bytes>)
    ensures Parse(Flatten(shares)) == Ok(shares) <==> shares != [] && Small(shares)
  {
    ParseSucceeds(Flatten(shares), shares);
    assert Flatten(shares) == Flatten(shares) + [];
  }
}
