/**
 * `hex_to_image`: a HEX file of strict 32-character words decoded to bytes,
 * fitted to width*height and written as a P5 image. The first word that is
 * not 32 hex characters aborts the conversion.
 */
module HexToImage {
  import opened Wrappers
  import opened Text
  import opened WordCodec
  import opened Packer
  import opened HexLines
  import opened PgmFormat

  /** The `ValueError` for the first word that is not 128 bits of hex. */
  datatype ConvertError = InvalidWord(word: string)

  /** The loaded words' bytes, or the error for the first word that is not 32 hex characters. */
  function DecodedWords(words: seq<string>): Result<seq<Byte>, ConvertError>
  {
    match FirstBadWord(words)
    case Some(k) => Err(InvalidWord(words[k]))
    case None =>
      UnpackLength(words);
      Ok(Unpack(words))
  }

  /** What the conversion produces for a HEX file given as its lines. */
  function HexImage(lines: seq<string>, width: int, height: int): (r: Result<seq<Byte>, ConvertError>)
    ensures r.Err? <==> exists j :: 0 <= j < |LoadHex(lines)| && !IsWord(LoadHex(lines)[j])
    ensures r.Err? ==>
      var ws := LoadHex(lines);
      exists k :: 0 <= k < |ws| && !IsWord(ws[k]) && (forall j :: 0 <= j < k ==> IsWord(ws[j]))
        && r.error == InvalidWord(ws[k])
  {
    match DecodedWords(LoadHex(lines))
    case Err(e) => Err(e)
    case Ok(data) => Ok(PgmFile(Resize(data, width * height), width, height))
  }

  /** The loop of `hex_to_image`: check each word, then extend the buffer with its bytes. */
  method DecodeWords(words: seq<string>) returns (r: Result<seq<Byte>, ConvertError>)
    ensures r == DecodedWords(words)
  {
    var data: seq<Byte> := [];
    for i := 0 to |words|
      invariant forall j :: 0 <= j < i ==> IsWord(words[j])
      invariant forall w :: w in words[..i] ==> IsEvenHex(w)
      invariant data == Unpack(words[..i])
    {
      if |words[i]| != 32 || !IsHex(words[i]) {
        return Err(InvalidWord(words[i]));
      }
      assert words[..i + 1] == words[..i] + [words[i]];
      UnpackAppend(words[..i], words[i]);
      data := data + DecodeHex(words[i]);
    }
    assert words[..|words|] == words;
    return Ok(data);
  }

  /** `hex_to_image`: load, decode, pad a short buffer or cut a long one, then the header. */
  method Convert(lines: seq<string>, width: int, height: int) returns (r: Result<seq<Byte>, ConvertError>)
    ensures r == HexImage(lines, width, height)
  {
    var words := LoadHex(lines);
    var decoded := DecodeWords(words);
    if decoded.Err? {
      return Err(decoded.error);
    }
    var data := decoded.value;
    var expected := width * height;
    if |data| < expected {
      data := data + Zeros(expected - |data|);
    } else if |data| > expected {
      data := PyPrefix(data, expected);
    }
    return Ok(AsciiBytes(PgmHeader(width, height)) + data);
  }

  /**
   * On valid input the image holds exactly width*height samples: the words'
   * bytes in order, cut there or padded with zeros.
   */
  lemma Samples(lines: seq<string>, width: int, height: int)
    requires forall j :: 0 <= j < |LoadHex(lines)| ==> IsWord(LoadHex(lines)[j])
    requires width * height >= 0
    ensures var ws := LoadHex(lines);
      forall w :: w in ws ==> IsEvenHex(w)
    ensures var ws := LoadHex(lines);
      var px := PgmFile(Resize(Unpack(ws), width * height), width, height)[|PgmHeader(width, height)|..];
      && HexImage(lines, width, height).Ok?
      && HexImage(lines, width, height).value[|PgmHeader(width, height)|..] == px
      && |px| == width * height
      && |Unpack(ws)| == 16 * |ws|
      && (forall i :: 0 <= i < Min(|Unpack(ws)|, width * height) ==> px[i] == Unpack(ws)[i])
      && (forall i :: |Unpack(ws)| <= i < width * height ==> px[i] == 0)
  {
    var ws := LoadHex(lines);
    assert forall w :: w in ws ==> IsWord(w);
    UnpackLength(ws);
  }

  /**
   * The packer's HEX file converted back to an image holds the packed bytes
   * fitted to width*height: the packer's zero padding is invisible.
   */
  lemma PackedHexImage(data: seq<Byte>, width: int, height: int)
    requires width * height >= 0
    ensures HexImage(SplitLines(JoinLines(Pack(data))), width, height) == Ok(PgmFile(Resize(data, width * height), width, height))
  {
    var ws := Pack(data);
    PackWords(data);
    assert forall j :: 0 <= j < |ws| ==> IsWord(ws[j]) by {
      assert forall j :: 0 <= j < |ws| ==> ws[j] in ws;
    }
    WordsRoundTrip(ws);
    WordsImage(SplitLines(JoinLines(ws)), width, height);
    UnpackPack(data);
    ResizePadded(data, PadLength(|data|), width * height);
  }

  /** Lines whose loaded words are all strict words give the image of those words' bytes. */
  lemma WordsImage(lines: seq<string>, width: int, height: int)
    requires forall j :: 0 <= j < |LoadHex(lines)| ==> IsWord(LoadHex(lines)[j])
    ensures forall w :: w in LoadHex(lines) ==> IsEvenHex(w)
    ensures HexImage(lines, width, height) == Ok(PgmFile(Resize(Unpack(LoadHex(lines)), width * height), width, height))
  {
    var ws := LoadHex(lines);
    assert forall w :: w in ws ==> IsWord(w);
    assert DecodedWords(ws) == Ok(Unpack(ws));
  }
}
