/**
 * The byte-stream packer: a byte buffer cut into 16-byte words (the last one
 * zero-padded on the right), the words joined back into bytes, and the
 * pad-or-truncate policy that fits a buffer to a raster of width*height.
 */
module Packer {
  import opened WordCodec
  import Text

  function Min(a: int, b: int): int { if a <= b then a else b }

  function Max(a: int, b: int): int { if a >= b then a else b }

  /** `b"\x00" * n` */
  function Zeros(n: nat): (z: seq<Byte>)
    ensures |z| == n
    ensures forall i :: 0 <= i < n ==> z[i] == 0
  {
    seq(n, _ => 0)
  }

  /** A chunk of at most 16 bytes, right-padded with zero bytes to exactly 16. */
  function PaddedChunk(chunk: seq<Byte>): (c: seq<Byte>)
    requires |chunk| <= 16
    ensures |c| == 16
    ensures c[..|chunk|] == chunk
    ensures forall i :: |chunk| <= i < 16 ==> c[i] == 0
  {
    chunk + Zeros(16 - |chunk|)
  }

  /**
   * The words `bytes_to_words_hex` produces: one per started 16-byte chunk, in
   * order, each 32 lowercase hex characters.
   */
  function Pack(data: seq<Byte>): (words: seq<string>)
    ensures |words| == (|data| + 15) / 16
    decreases |data|
  {
    if data == [] then []
    else
      var n := Min(16, |data|);
      [EncodeHex(PaddedChunk(data[..n]))] + Pack(data[n..])
  }

  /** Every packed word is 32 lowercase hex characters. */
  lemma {:induction false} PackWords(data: seq<Byte>)
    ensures forall w :: w in Pack(data) ==> IsWord(w) && IsLowerHex(w)
    decreases |data|
  {
    if data != [] {
      PackWords(data[Min(16, |data|)..]);
    }
  }

  /** The words decoded two characters per byte and joined in order. */
  function Unpack(words: seq<string>): seq<Byte>
    requires forall w :: w in words ==> IsEvenHex(w)
  {
    if words == [] then [] else DecodeHex(words[0]) + Unpack(words[1..])
  }

  /** Zero bytes needed to reach the next multiple of 16. */
  function PadLength(n: nat): nat
  {
    if n % 16 == 0 then 0 else 16 - n % 16
  }

  /** A full first chunk comes back as the first 16 bytes. */
  lemma FullChunk(data: seq<Byte>)
    requires |data| >= 16
    requires forall w :: w in Pack(data) ==> IsEvenHex(w)
    ensures forall w :: w in Pack(data[16..]) ==> IsEvenHex(w)
    ensures Unpack(Pack(data)) == data[..16] + Unpack(Pack(data[16..]))
  {
    var chunk := data[..16];
    assert PaddedChunk(chunk) == chunk;
    var words := Pack(data);
    assert words == [EncodeHex(chunk)] + Pack(data[16..]);
    assert words[1..] == Pack(data[16..]);
    DecodeEncode(chunk);
  }

  /** A short last chunk comes back padded with zeros to 16 bytes. */
  lemma LastChunk(data: seq<Byte>)
    requires 0 < |data| < 16
    ensures forall w :: w in Pack(data) ==> IsEvenHex(w)
    ensures Unpack(Pack(data)) == data + Zeros(16 - |data|)
  {
    var chunk := PaddedChunk(data);
    assert Pack(data) == [EncodeHex(chunk)] by {
      assert data[..|data|] == data && data[|data|..] == [];
    }
    DecodeEncode(chunk);
    UnpackSingle(EncodeHex(chunk));
  }

  lemma UnpackSingle(w: string)
    requires IsEvenHex(w)
    ensures Unpack([w]) == DecodeHex(w)
  {
    assert Unpack([w]) == DecodeHex(w) + Unpack([]);
  }

  /** Unpacking packed bytes gives the input right-padded with zeros to a multiple of 16. */
  lemma {:induction false} UnpackPack(data: seq<Byte>)
    ensures forall w :: w in Pack(data) ==> IsEvenHex(w)
    ensures Unpack(Pack(data)) == data + Zeros(PadLength(|data|))
    decreases |data|
  {
    PackWords(data);
    if data == [] {
      assert data + Zeros(0) == data;
    } else if |data| < 16 {
      LastChunk(data);
    } else {
      FullChunk(data);
      UnpackPack(data[16..]);
      PadAfterChunk(data);
    }
  }

  /** Dropping a full chunk leaves the padding unchanged. */
  lemma PadAfterChunk(data: seq<Byte>)
    requires |data| >= 16
    ensures PadLength(|data[16..]|) == PadLength(|data|)
    ensures data[..16] + (data[16..] + Zeros(PadLength(|data|))) == data + Zeros(PadLength(|data|))
  {
    assert (|data| - 16) % 16 == |data| % 16;
  }

  /** When the length is a multiple of 16 no padding is introduced and the round trip is exact. */
  lemma UnpackPackAligned(data: seq<Byte>)
    requires |data| % 16 == 0
    ensures forall w :: w in Pack(data) ==> IsEvenHex(w)
    ensures Unpack(Pack(data)) == data
  {
    UnpackPack(data);
    assert data + Zeros(0) == data;
  }

  lemma {:induction false} UnpackAppend(words: seq<string>, w: string)
    requires forall v :: v in words ==> IsEvenHex(v)
    requires IsEvenHex(w)
    ensures Unpack(words + [w]) == Unpack(words) + DecodeHex(w)
  {
    if words == [] {
      assert words + [w] == [w];
    } else {
      assert (words + [w])[1..] == words[1..] + [w];
      UnpackAppend(words[1..], w);
    }
  }

  /** Strict words give 16 bytes each. */
  lemma {:induction false} UnpackLength(words: seq<string>)
    requires forall w :: w in words ==> IsWord(w)
    ensures forall w :: w in words ==> IsEvenHex(w)
    ensures |Unpack(words)| == 16 * |words|
  {
    if words != [] {
      assert IsWord(words[0]);
      UnpackLength(words[1..]);
    }
  }

  /** One step of the packer loop: the chunk at offset `i`, then the rest of the buffer. */
  lemma PackStep(data: seq<Byte>, i: nat)
    requires i < |data|
    ensures Pack(data[i..]) ==
      [EncodeHex(PaddedChunk(data[i..Min(i + 16, |data|)]))]
      + Pack(if i + 16 < |data| then data[i + 16..] else [])
  {
    var rest := data[i..];
    var n := Min(16, |rest|);
    assert rest[..n] == data[i..Min(i + 16, |data|)];
    assert rest[n..] == if i + 16 < |data| then data[i + 16..] else [];
  }

  /** The chunk starting at `i`, zero-padded when it is the short last one. */
  method NextChunk(data: seq<Byte>, i: nat) returns (chunk: seq<Byte>)
    requires i < |data|
    ensures chunk == PaddedChunk(data[i..Min(i + 16, |data|)])
  {
    chunk := data[i..Min(i + 16, |data|)];
    if |chunk| < 16 {
      chunk := chunk + Zeros(16 - |chunk|);
    } else {
      assert chunk + Zeros(0) == chunk;
    }
  }

  /** The packer: `for i in range(0, len(data), 16)`, padding the short last chunk. */
  method BytesToWordsHex(data: seq<Byte>) returns (words: seq<string>)
    ensures words == Pack(data)
    ensures |words| == (|data| + 15) / 16
    ensures forall w :: w in words ==> IsWord(w) && IsLowerHex(w)
  {
    words := [];
    var i := 0;
    ghost var rest := data;
    while i < |data|
      invariant rest == if i < |data| then data[i..] else []
      invariant words + Pack(rest) == Pack(data)
    {
      var chunk := NextChunk(data, i);
      PackStep(data, i);
      ghost var next := if i + 16 < |data| then data[i + 16..] else [];
      Text.AppendAssoc(words, [EncodeHex(chunk)], Pack(next));
      words := words + [EncodeHex(chunk)];
      i := i + 16;
      rest := next;
    }
    assert words + Pack([]) == words;
    PackWords(data);
  }

  /** `s[:k]` for an int `k`: a negative `k` counts from the end. */
  function PyPrefix<T>(s: seq<T>, k: int): (r: seq<T>)
    ensures |r| <= |s| && r == s[..|r|]
    ensures k >= 0 ==> |r| == Min(k, |s|)
  {
    if k >= 0 then s[..Min(k, |s|)] else s[..Max(0, |s| + k)]
  }

  /**
   * Fit a buffer to `expected` samples: zero-pad a short buffer on the right,
   * keep only the first `expected` bytes of a long one.
   */
  function Resize(data: seq<Byte>, expected: int): (r: seq<Byte>)
    ensures expected >= 0 ==> |r| == expected
    ensures forall i :: 0 <= i < Min(|data|, |r|) ==> r[i] == data[i]
    ensures forall i :: |data| <= i < |r| ==> r[i] == 0
    ensures |data| == expected ==> r == data
    ensures expected < 0 ==> r == PyPrefix(data, expected)
  {
    if |data| < expected then data + Zeros(expected - |data|) else PyPrefix(data, expected)
  }

  /** Zero padding added before a non-negative resize is invisible after it. */
  lemma ResizePadded(data: seq<Byte>, k: nat, expected: int)
    requires expected >= 0
    ensures Resize(data + Zeros(k), expected) == Resize(data, expected)
  {
    var a, b := Resize(data + Zeros(k), expected), Resize(data, expected);
    assert |a| == |b|;
    forall i | 0 <= i < |a|
      ensures a[i] == b[i]
    {
      if i < |data| {
        assert (data + Zeros(k))[i] == data[i];
      } else if i < |data| + k {
        assert (data + Zeros(k))[i] == 0;
      }
    }
  }
}
