/**
 * The word codec: hexadecimal text to bytes and back, two characters per
 * byte, first pair first (big-endian), as `bytes.hex()` and `bytes.fromhex()`
 * do it; and the three strictness levels at which the tools accept a word.
 */
module WordCodec {
  import opened Text

  /** One 8-bit sample or memory byte. */
  type Byte = x: int | 0 <= x < 256

  predicate IsHexDigit(c: char)
  {
    '0' <= c <= '9' || 'a' <= c <= 'f' || 'A' <= c <= 'F'
  }

  predicate IsLowerHexDigit(c: char)
  {
    '0' <= c <= '9' || 'a' <= c <= 'f'
  }

  predicate IsHex(s: string)
  {
    forall i :: 0 <= i < |s| ==> IsHexDigit(s[i])
  }

  predicate IsLowerHex(s: string)
  {
    forall i :: 0 <= i < |s| ==> IsLowerHexDigit(s[i])
  }

  /** Strictest level (HEX tools and sanitizer): exactly 32 characters of `[0-9a-fA-F]`. */
  predicate IsWord(s: string)
  {
    |s| == 32 && IsHex(s)
  }

  /** A strict word has an even number of hex digits. */
  lemma WordIsEvenHex(s: string)
    requires IsWord(s)
    ensures IsEvenHex(s)
  {
  }

  /** COE-to-image level: the odd-length check, then `bytes.fromhex`. */
  predicate IsEvenHex(s: string)
  {
    |s| % 2 == 0 && IsHex(s)
  }

  /** COE-to-HEX level: what `int(s, 16)` accepts, taken as one or more hex digits. */
  predicate IsHexNumeral(s: string)
  {
    |s| > 0 && IsHex(s)
  }

  function HexValue(c: char): (v: nat)
    requires IsHexDigit(c)
    ensures v < 16
  {
    if c <= '9' then (c as int - '0' as int) as nat
    else if 'a' <= c <= 'f' then (c as int - 'a' as int + 10) as nat
    else (c as int - 'A' as int + 10) as nat
  }

  /** The lowercase digit for `v`, as `bytes.hex()` writes it. */
  function HexChar(v: nat): (c: char)
    requires v < 16
    ensures IsLowerHexDigit(c) && IsHexDigit(c) && HexValue(c) == v
  {
    if v < 10 then ('0' as int + v) as char else ('a' as int + v - 10) as char
  }

  /** `bytes(bs).hex()` */
  function EncodeHex(bs: seq<Byte>): (s: string)
    ensures |s| == 2 * |bs|
    ensures IsLowerHex(s) && IsHex(s)
  {
    if bs == [] then []
    else [HexChar(bs[0] / 16), HexChar(bs[0] % 16)] + EncodeHex(bs[1..])
  }

  /** `bytes.fromhex(s)` on an even-length string of hex digits. */
  function DecodeHex(s: string): (bs: seq<Byte>)
    requires IsEvenHex(s)
    ensures |bs| == |s| / 2
  {
    if s == [] then []
    else [HexValue(s[0]) * 16 + HexValue(s[1])] + DecodeHex(s[2..])
  }

  lemma ByteDigits(hi: nat, lo: nat)
    requires hi < 16 && lo < 16
    ensures (hi * 16 + lo) / 16 == hi && (hi * 16 + lo) % 16 == lo
  {
  }

  /** Every byte sequence survives `fromhex(hex(bs))`. */
  lemma {:induction false} DecodeEncode(bs: seq<Byte>)
    ensures DecodeHex(EncodeHex(bs)) == bs
  {
    if bs != [] {
      var s := EncodeHex(bs);
      assert s[2..] == EncodeHex(bs[1..]);
      DecodeEncode(bs[1..]);
    }
  }

  lemma HexCharOfValue(c: char)
    requires IsHexDigit(c)
    ensures HexChar(HexValue(c)) == LowerChar(c)
  {
  }

  /** Decoding and re-encoding a hex string gives its lowercase form. */
  lemma {:induction false} EncodeDecode(s: string)
    requires IsEvenHex(s)
    ensures EncodeHex(DecodeHex(s)) == Lower(s)
    decreases |s|
  {
    if s != [] {
      var hi, lo := HexValue(s[0]), HexValue(s[1]);
      var tail := DecodeHex(s[2..]);
      assert DecodeHex(s) == [hi * 16 + lo] + tail;
      EncodePair(hi, lo, tail);
      HexCharOfValue(s[0]);
      HexCharOfValue(s[1]);
      EncodeDecode(s[2..]);
      LowerPair(s);
    }
  }

  /** A byte given by its two nibbles encodes as their two digits. */
  lemma EncodePair(hi: nat, lo: nat, rest: seq<Byte>)
    requires hi < 16 && lo < 16
    ensures EncodeHex([hi * 16 + lo] + rest) == [HexChar(hi), HexChar(lo)] + EncodeHex(rest)
  {
    ByteDigits(hi, lo);
    assert ([hi * 16 + lo] + rest)[1..] == rest;
  }

  lemma LowerPair(s: string)
    requires |s| >= 2
    ensures Lower(s) == [LowerChar(s[0]), LowerChar(s[1])] + Lower(s[2..])
  {
  }

  /** Byte `k` of the decoding comes from characters `2k` and `2k+1`, the first the high nibble. */
  lemma {:induction false} DecodeHexAt(s: string, k: nat)
    requires IsEvenHex(s) && k < |s| / 2
    ensures DecodeHex(s)[k] == HexValue(s[2 * k]) * 16 + HexValue(s[2 * k + 1])
    decreases k
  {
    if k > 0 {
      DecodeHexAt(s[2..], k - 1);
    }
  }

  /** Decoding distributes over concatenation, so decoding words one by one and joining them is decoding the joined text. */
  lemma {:induction false} DecodeHexConcat(s: string, t: string)
    requires IsEvenHex(s) && IsEvenHex(t)
    ensures IsEvenHex(s + t)
    ensures DecodeHex(s + t) == DecodeHex(s) + DecodeHex(t)
    decreases |s|
  {
    if s == [] {
      assert s + t == t;
    } else {
      assert (s + t)[2..] == s[2..] + t;
      DecodeHexConcat(s[2..], t);
    }
  }

  /**
   * The three validation levels are nested and distinct: a 32-character word
   * passes both looser checks; an odd-length numeral such as "abc" passes only
   * the `int(s, 16)` level; the empty string passes only the even-length level.
   */
  lemma ValidationLevels(s: string)
    ensures IsWord(s) ==> IsEvenHex(s) && IsHexNumeral(s)
    ensures IsHexNumeral("abc") && !IsEvenHex("abc")
    ensures IsEvenHex("") && !IsHexNumeral("")
    ensures IsEvenHex("ab") && !IsWord("ab")
  {
  }
}
