/**
 * How the web bindings write a JavaScript string into WebAssembly's linear memory: an ASCII loop, then a text
 * encoder. Growing the memory replaces the array behind it, so views taken earlier are of no use afterwards.
 */
module WasmString {
  import opened BigEndian
  import opened Utf8

  // The addresses of a block.
  ghost function Region(ptr: nat, len: nat): set<int> {
    set a | ptr <= a < ptr + len && Within(a, ptr, len)
  }

  predicate Within(a: int, ptr: nat, len: nat) {
    ptr <= a < ptr + len
  }

  // The data stands in memory from this address on.
  ghost predicate Holds(mem: Bytes, ptr: nat, data: Bytes) {
    ptr + |data| <= |mem| && mem[ptr..ptr + |data|] == data
  }

  // The bytes at these addresses are what they were.
  ghost predicate Kept(others: set<int>, before: Bytes, after: Bytes) {
    forall a :: a in others ==> 0 <= a < |before| && 0 <= a < |after| && after[a] == before[a]
  }

  // Nothing changed but what lies between the two addresses.
  ghost predicate SameOutside(before: Bytes, after: Bytes, from: nat, to: nat) {
    && from <= to <= |before| == |after|
    && after[..from] == before[..from] && after[to..] == before[to..]
  }

  lemma KeptOnce(others: set<int>, s: Bytes, t: Bytes, u: Bytes)
    requires Kept(others, s, t) && Kept(others, t, u)
    ensures Kept(others, s, u)
  {
  }

  /** Linear memory with its allocator. Any allocator with these contracts will do; this one always takes new memory. */
  class LinearMemory {
    var mem: array<byte>
    ghost var inUse: set<int>

    ghost predicate Valid()
      reads this
    {
      forall a :: a in inUse ==> 0 <= a < mem.Length
    }

    constructor ()
      ensures Valid() && inUse == {} && fresh(mem)
    {
      mem := new byte[0];
      inUse := {};
    }

    // Appends `len` bytes; the contents move to a new array.
    method Grow(len: nat)
      modifies this`mem
      ensures fresh(mem) && mem.Length == old(mem.Length) + len
      ensures mem[..old(mem.Length)] == old(mem[..])
    {
      var grown := new byte[mem.Length + len](_ => 0);
      for i := 0 to mem.Length
        invariant mem == old(mem)
        invariant grown[..i] == mem[..i]
      {
        grown[i] := mem[i];
      }
      mem := grown;
    }

    method Malloc(len: nat) returns (ptr: nat)
      requires Valid()
      modifies this
      ensures Valid() && (mem == old(mem) || fresh(mem))
      ensures ptr + len <= mem.Length
      ensures Region(ptr, len) !! old(inUse) && inUse == old(inUse) + Region(ptr, len)
      ensures Kept(old(inUse), old(mem[..]), mem[..])
    {
      ptr := mem.Length;
      Grow(len);
      assert forall a :: a in old(inUse) ==> mem[..ptr][a] == old(mem[..])[a];
      inUse := inUse + Region(ptr, len);
    }

    // A block of the new size; the old one is given back. Data at its start survives if both sizes hold it.
    method Realloc(ptr0: nat, oldLen: nat, len: nat, ghost data: Bytes, ghost others: set<int>) returns (ptr: nat)
      requires Valid() && ptr0 + oldLen <= mem.Length
      requires Region(ptr0, oldLen) !! others && inUse == others + Region(ptr0, oldLen)
      requires Holds(mem[..], ptr0, data) && |data| <= oldLen && |data| <= len
      modifies this
      ensures Valid() && (mem == old(mem) || fresh(mem))
      ensures ptr + len <= mem.Length && Holds(mem[..], ptr, data)
      ensures Region(ptr, len) !! others && inUse == others + Region(ptr, len)
      ensures Kept(others, old(mem[..]), mem[..])
    {
      ptr := mem.Length;
      ghost var before := mem[..];
      Grow(len);
      assert mem[..ptr] == before;
      var kept := if len < oldLen then len else oldLen;
      CopyInto(mem[ptr0..ptr0 + kept], mem, ptr);
      Moved(before, mem[..], ptr0, kept, data, others);
      inUse := others + Region(ptr, len);
    }
  }

  lemma Moved(before: Bytes, after: Bytes, ptr0: nat, kept: nat, data: Bytes, others: set<int>)
    requires ptr0 + kept <= |before| && before + before[ptr0..ptr0 + kept] <= after
    requires Holds(before, ptr0, data) && |data| <= kept && forall a :: a in others ==> 0 <= a < |before|
    ensures Holds(after, |before|, data) && Kept(others, before, after)
  {
    var n, joined := |before|, before + before[ptr0..ptr0 + kept];
    forall k | 0 <= k < |data| ensures after[n + k] == data[k] {
      assert joined[n + k] == before[ptr0..ptr0 + kept][k] == before[ptr0..ptr0 + |data|][k];
    }
    assert after[n..n + |data|] == data;
    forall a | a in others ensures after[a] == before[a] {
      assert joined[a] == before[a];
    }
  }

  // ---------- The text encoder ----------

  method CopyInto(src: Bytes, dest: array<byte>, at: nat)
    requires at + |src| <= dest.Length
    modifies dest
    ensures dest[..] == old(dest[..at]) + src + old(dest[at + |src|..])
  {
    for i := 0 to |src|
      invariant forall j :: 0 <= j < dest.Length ==>
                  dest[j] == if at <= j < at + i then src[j - at] else old(dest[j])
    {
      dest[at + i] := src[i];
    }
  }

  // After some steps of the encoder: the bytes written so far and the encoding of the rest make up the whole.
  ghost predicate EncodedSoFar(first: Bytes, mem: Bytes, start: nat, end: nat, written: nat, src: seq<CodeUnit>,
                               read: nat)
  {
    && SameOutside(first, mem, start, end)
    && read <= |src| && start + written <= end && written <= 3 * read
    && mem[start..start + written] + Encode(src[read..]) == Encode(src)
  }

  lemma OneMoreEncoded(first: Bytes, before: Bytes, mem: Bytes, start: nat, end: nat, written: nat, src: seq<CodeUnit>,
                       read: nat)
    requires EncodedSoFar(first, before, start, end, written, src, read) && read < |src|
    requires
      var bytes := EncodeScalar(First(src[read..]));
      start + written + |bytes| <= end
      && mem == before[..start + written] + bytes + before[start + written + |bytes|..]
    ensures EncodedSoFar(first, mem, start, end, written + |EncodeScalar(First(src[read..]))|, src,
                         read + Width(src[read..]))
  {
    var rest := src[read..];
    var bytes := EncodeScalar(First(rest));
    ScalarLength(rest);
    assert Encode(rest) == bytes + Encode(rest[Width(rest)..]) && rest[Width(rest)..] == src[read + Width(rest)..];
    hide EncodeScalar, First, Width, Encode, SameOutside;
    Extended(first, before, mem, start, end, written, bytes);
  }

  lemma Extended(first: Bytes, before: Bytes, mem: Bytes, start: nat, end: nat, written: nat, bytes: Bytes)
    requires SameOutside(first, before, start, end) && start + written + |bytes| <= end
    requires mem == before[..start + written] + bytes + before[start + written + |bytes|..]
    ensures SameOutside(first, mem, start, end)
    ensures mem[start..start + written + |bytes|] == before[start..start + written] + bytes
  {
    Overwritten(before, mem, start + written, bytes);
    EqualPrefixes(mem, before, start, start + written);
    EqualSuffixes(mem, before, start + written + |bytes|, end);
    SliceInTwo(mem, start, start + written, start + written + |bytes|);
  }

  lemma Overwritten(before: Bytes, mem: Bytes, at: nat, bytes: Bytes)
    requires at + |bytes| <= |before| && mem == before[..at] + bytes + before[at + |bytes|..]
    ensures |mem| == |before| && mem[..at] == before[..at] && mem[at + |bytes|..] == before[at + |bytes|..]
    ensures mem[at..at + |bytes|] == bytes
  {
  }

  /**
   * The text encoder writes whole characters into the view dest[start..end] for as long as the next one fits, and
   * reports what it read and wrote.
   */
  method EncodeInto(src: seq<CodeUnit>, dest: array<byte>, start: nat, end: nat) returns (read: nat, written: nat)
    requires start <= end <= dest.Length
    modifies dest
    ensures EncodedSoFar(old(dest[..]), dest[..], start, end, written, src, read)
    ensures read < |src| ==> start + written + |EncodeScalar(First(src[read..]))| > end
    ensures end - start >= 3 * |src| ==> read == |src|
  {
    read, written := 0, 0;
    assert EncodedSoFar(dest[..], dest[..], start, end, 0, src, 0) by {
      assert src[0..] == src;
    }
    hide EncodeScalar, First, Width, Encode, SameOutside;
    while read < |src|
      invariant EncodedSoFar(old(dest[..]), dest[..], start, end, written, src, read)
    {
      var rest := src[read..];
      var bytes := EncodeScalar(First(rest));
      ScalarLength(rest);
      if start + written + |bytes| > end {
        return;
      }
      ghost var before := dest[..];
      CopyInto(bytes, dest, start + written);
      OneMoreEncoded(old(dest[..]), before, dest[..], start, end, written, src, read);
      read := read + Width(rest);
      written := written + |bytes|;
    }
  }

  // ---------- The binding ----------

  class StringPasser {
    const memory: LinearMemory
    var vectorLen: nat

    constructor (memory: LinearMemory)
      ensures this.memory == memory
    {
      this.memory := memory;
      vectorLen := 0;
    }

    /**
     * Leaves exactly the UTF-8 encoding of the whole string in a newly allocated block of exactly that length, on
     * both paths and for every string, lone surrogates included; no byte in use by anybody else changes.
     */
    method PassString(arg0: seq<CodeUnit>, canRealloc: bool) returns (ptr: nat)
      requires memory.Valid()
      modifies this, memory, memory.mem
      ensures memory.Valid() && (memory.mem == old(memory.mem) || fresh(memory.mem))
      ensures vectorLen == |Encode(arg0)| && Holds(memory.mem[..], ptr, Encode(arg0))
      ensures Region(ptr, vectorLen) !! old(memory.inUse) && memory.inUse == old(memory.inUse) + Region(ptr, vectorLen)
      ensures Kept(old(memory.inUse), old(memory.mem[..]), memory.mem[..])
    {
      hide Encode, Region, Kept, Holds, SameOutside;
      if !canRealloc {
        ptr := PassEncoded(Encode(arg0));
        return;
      }
      ghost var others, start := memory.inUse, memory.mem[..];
      var arg := arg0;
      var len := |arg|;
      ptr := memory.Malloc(len);
      ghost var blank := memory.mem[..];
      var offset := WriteAscii(arg, memory.mem, ptr);
      ghost var written := memory.mem[..];
      OutsideKept(blank, written, ptr, ptr + len, others);
      KeptOnce(others, start, blank, written);
      ghost var ascii, rest := written[ptr..ptr + offset], arg0[offset..];
      assert arg0 == ascii + rest;
      AsciiPrefix(ascii, rest);
      PartHolds(written, ptr, ptr + offset);
      if offset != len {
        if offset != 0 {
          arg := arg[offset..];
        }
        assert arg == rest;
        ptr, offset := PassRest(arg, ptr, len, offset, others, ascii);
        KeptOnce(others, start, written, memory.mem[..]);
      } else {
        EncodedLength(rest);
        assert Encode(arg0) == ascii;
      }
      vectorLen := offset;
    }

    /**
     * The end of the fast path: room for the longest encoding, the encoder behind the ASCII bytes, and the exact size.
     */
    method PassRest(arg: seq<CodeUnit>, ptr0: nat, oldLen: nat, offset0: nat, ghost others: set<int>,
                    ghost ascii: Bytes)
      returns (ptr: nat, offset: nat)
      requires memory.Valid() && ptr0 + oldLen <= memory.mem.Length && oldLen == offset0 + |arg|
      requires Holds(memory.mem[..], ptr0, ascii) && |ascii| == offset0
      requires Region(ptr0, oldLen) !! others && memory.inUse == others + Region(ptr0, oldLen)
      modifies memory, memory.mem
      ensures memory.Valid() && (memory.mem == old(memory.mem) || fresh(memory.mem))
      ensures offset == |ascii + Encode(arg)| && Holds(memory.mem[..], ptr, ascii + Encode(arg))
      ensures Region(ptr, offset) !! others && memory.inUse == others + Region(ptr, offset)
      ensures Kept(others, old(memory.mem[..]), memory.mem[..])
    {
      hide Encode, Region, Kept, Holds;
      ghost var before := memory.mem[..];
      var len := offset0 + |arg| * 3;
      ptr := memory.Realloc(ptr0, oldLen, len, ascii, others);
      ghost var moved := memory.mem[..];
      var written := EncodeRest(arg, ptr, offset0, len, others, ascii);
      ghost var full := memory.mem[..];
      offset := offset0 + written;
      ptr := memory.Realloc(ptr, len, offset, ascii + Encode(arg), others);
      KeptOnce(others, before, moved, full);
      KeptOnce(others, before, full, memory.mem[..]);
    }

    /** The path for bindings without reallocation: the whole encoding is copied in. */
    method PassEncoded(buf: Bytes) returns (ptr: nat)
      requires memory.Valid()
      modifies this, memory, memory.mem
      ensures memory.Valid() && (memory.mem == old(memory.mem) || fresh(memory.mem))
      ensures vectorLen == |buf| && Holds(memory.mem[..], ptr, buf)
      ensures Region(ptr, vectorLen) !! old(memory.inUse) && memory.inUse == old(memory.inUse) + Region(ptr, vectorLen)
      ensures Kept(old(memory.inUse), old(memory.mem[..]), memory.mem[..])
    {
      hide Region;
      ptr := memory.Malloc(|buf|);
      ghost var before := memory.mem[..];
      CopyInto(buf, memory.mem, ptr);
      OutsideKept(before, memory.mem[..], ptr, ptr + |buf|, old(memory.inUse));
      vectorLen := |buf|;
    }

    /** The loop over the leading ASCII code units; it stops at the first other one. */
    method WriteAscii(arg: seq<CodeUnit>, mem: array<byte>, ptr: nat) returns (offset: nat)
      requires ptr + |arg| <= mem.Length
      modifies mem
      ensures offset <= |arg| && (offset < |arg| ==> arg[offset] > 0x7F)
      ensures SameOutside(old(mem[..]), mem[..], ptr, ptr + |arg|)
      ensures mem[ptr..ptr + offset] == arg[..offset] && forall i :: 0 <= i < offset ==> arg[i] < 0x80
    {
      offset := 0;
      while offset < |arg|
        invariant 0 <= offset <= |arg|
        invariant mem[..ptr] == old(mem[..ptr]) && mem[ptr + |arg|..] == old(mem[ptr + |arg|..])
        invariant forall i :: 0 <= i < offset ==> mem[ptr + i] == arg[i] < 0x80
      {
        var code := arg[offset];
        if code > 0x7F {
          break;
        }
        mem[ptr + offset] := code;
        offset := offset + 1;
      }
    }

    /** The text encoder on what is left, into the part of the block behind the ASCII bytes. */
    method EncodeRest(arg: seq<CodeUnit>, ptr: nat, offset: nat, len: nat, ghost others: set<int>, ghost ascii: Bytes)
      returns (written: nat)
      requires len == offset + 3 * |arg| && ptr + len <= memory.mem.Length
      requires Holds(memory.mem[..], ptr, ascii) && |ascii| == offset
      requires Region(ptr, len) !! others && forall a :: a in others ==> 0 <= a < memory.mem.Length
      modifies memory.mem
      ensures offset + written == |ascii + Encode(arg)| <= len && Holds(memory.mem[..], ptr, ascii + Encode(arg))
      ensures Kept(others, old(memory.mem[..]), memory.mem[..])
    {
      hide Encode, Region;
      ghost var before := memory.mem[..];
      var read;
      read, written := EncodeInto(arg, memory.mem, ptr + offset, ptr + len);
      AllEncoded(before, memory.mem[..], ptr, ascii, written, arg);
      OutsideKept(before, memory.mem[..], ptr, ptr + len, others);
    }
  }

  lemma AllEncoded(before: Bytes, mem: Bytes, ptr: nat, ascii: Bytes, written: nat, arg: seq<CodeUnit>)
    requires
      var start := ptr + |ascii|;
      Holds(before, ptr, ascii) && EncodedSoFar(before, mem, start, start + 3 * |arg|, written, arg, |arg|)
    ensures written == |Encode(arg)| && Holds(mem, ptr, ascii + Encode(arg))
    ensures SameOutside(before, mem, ptr, ptr + |ascii| + 3 * |arg|)
  {
    var start := ptr + |ascii|;
    assert arg[|arg|..] == [] && Encode(arg[|arg|..]) == [];
    hide EncodeScalar, First, Width, Encode;
    EqualPrefixes(mem, before, ptr, start);
    SliceInTwo(mem, ptr, start, start + written);
  }

  lemma EqualPrefixes(s: Bytes, t: Bytes, from: nat, to: nat)
    requires from <= to <= |s| && to <= |t| && s[..to] == t[..to]
    ensures s[..from] == t[..from] && s[from..to] == t[from..to]
  {
    assert s[..from] == s[..to][..from] && t[..from] == t[..to][..from];
    assert s[from..to] == s[..to][from..] && t[from..to] == t[..to][from..];
  }

  lemma EqualSuffixes(s: Bytes, t: Bytes, from: nat, to: nat)
    requires from <= to <= |s| == |t| && s[from..] == t[from..]
    ensures s[to..] == t[to..]
  {
    assert s[to..] == s[from..][to - from..] && t[to..] == t[from..][to - from..];
  }

  lemma SliceInTwo(s: Bytes, a: nat, b: nat, c: nat)
    requires a <= b <= c <= |s|
    ensures s[a..c] == s[a..b] + s[b..c]
  {
  }

  lemma PartHolds(s: Bytes, from: nat, to: nat)
    requires from <= to <= |s|
    ensures Holds(s, from, s[from..to])
  {
  }

  // What is written between two addresses leaves the blocks outside alone.
  lemma OutsideKept(before: Bytes, after: Bytes, from: nat, to: nat, others: set<int>)
    requires SameOutside(before, after, from, to)
    requires Region(from, to - from) !! others && forall a :: a in others ==> 0 <= a < |before|
    ensures Kept(others, before, after)
  {
    forall a | a in others ensures after[a] == before[a] {
      assert a !in Region(from, to - from);
      if a < from {
        assert before[..from][a] == after[..from][a];
      } else {
        assert before[to..][a - to] == after[to..][a - to];
      }
    }
  }
}
