/**
 * `hex_to_coe`: a HEX file loaded like every HEX reader, every word checked
 * to be 32 hex characters, then written as a COE file. The first word that
 * fails the check aborts the conversion and is reported with its index.
 */
module HexToCoe {
  import opened Wrappers
  import opened Text
  import opened WordCodec
  import opened Packer
  import opened CoeFormat
  import opened HexLines
  import CoeToHex
  import CoeToImage

  /** The `ValueError` naming the index and text of the first word that is not 128 bits of hex. */
  datatype ConvertError = NotAWord(index: nat, line: string)

  /** What the conversion writes for a HEX file given as its lines. */
  function HexCoe(lines: seq<string>): (r: Result<string, ConvertError>)
    ensures r.Err? <==> exists j :: 0 <= j < |LoadHex(lines)| && !IsWord(LoadHex(lines)[j])
    ensures r.Err? ==>
      var ws := LoadHex(lines);
      && r.error.index < |ws| && r.error.line == ws[r.error.index] && !IsWord(ws[r.error.index])
      && (forall j :: 0 <= j < r.error.index ==> IsWord(ws[j]))
    ensures r.Ok? ==> r.value == CoeText(LoadHex(lines))
  {
    var ws := LoadHex(lines);
    match FirstBadWord(ws)
    case Some(k) => Err(NotAWord(k, ws[k]))
    case None => Ok(CoeText(ws))
  }

  /** `hex_to_coe`: load, validate the words, then `write_coe`'s loop. */
  method Convert(lines: seq<string>) returns (r: Result<string, ConvertError>)
    ensures r == HexCoe(lines)
  {
    var words := LoadHex(lines);
    var bad := ValidateWords(words);
    if bad.Some? {
      return Err(NotAWord(bad.value, words[bad.value]));
    }
    var text := WriteCoe(words);
    return Ok(text);
  }

  /** The validation loop: the index of the first word that is not 32 hex characters. */
  method ValidateWords(words: seq<string>) returns (bad: Option<nat>)
    ensures bad == FirstBadWord(words)
  {
    for idx := 0 to |words|
      invariant forall j :: 0 <= j < idx ==> IsWord(words[j])
    {
      if |words[idx]| != 32 || !IsHex(words[idx]) {
        FirstBadWordAt(words, idx);
        return Some(idx);
      }
    }
    return None;
  }

  /** The first bad word is the one after a run of good words. */
  lemma FirstBadWordAt(ws: seq<string>, k: nat)
    requires k < |ws| && !IsWord(ws[k])
    requires forall j :: 0 <= j < k ==> IsWord(ws[j])
    ensures FirstBadWord(ws) == Some(k)
  {
  }

  /** On success the file has the two header lines and one line per non-blank input line. */
  lemma LineCount(lines: seq<string>)
    requires HexCoe(lines).Ok?
    ensures |SplitLines(HexCoe(lines).value)| == NonBlank(lines) + 2
  {
    var ws := LoadHex(lines);
    LoadHexCount(lines);
    assert forall i :: 0 <= i < |ws| ==> IsHex(ws[i]);
    CoeLinesSingle(ws);
    SplitJoin(CoeLines(ws));
  }

  /** The words that `coe_to_hex` reads back from the written file are the loaded words. */
  lemma HexRoundTrip(lines: seq<string>)
    requires HexCoe(lines).Ok?
    ensures CoeToHex.CoeWords(SplitLines(HexCoe(lines).value)) == Ok(LoadHex(lines))
  {
    var ws := LoadHex(lines);
    OkWords(lines);
    assert forall i :: 0 <= i < |ws| ==> IsHexNumeral(ws[i]) by {
      assert forall i :: 0 <= i < |ws| ==> IsWord(ws[i]);
    }
    CoeToHex.CoeTextRoundTrip(ws);
  }

  /** The bytes that `coe_to_image` reads back from the written file are the loaded words' bytes. */
  lemma BytesRoundTrip(lines: seq<string>)
    requires HexCoe(lines).Ok?
    ensures forall w :: w in LoadHex(lines) ==> IsEvenHex(w)
    ensures CoeToImage.CoeBytes(SplitLines(HexCoe(lines).value)) == Ok(Unpack(LoadHex(lines)))
  {
    OkWords(lines);
    WordsBytes(LoadHex(lines));
  }

  lemma WordsBytes(ws: seq<string>)
    requires forall i :: 0 <= i < |ws| ==> IsWord(ws[i])
    ensures forall w :: w in ws ==> IsEvenHex(w)
    ensures CoeToImage.CoeBytes(SplitLines(CoeText(ws))) == Ok(Unpack(ws))
  {
    forall i | 0 <= i < |ws|
      ensures IsEvenHex(ws[i])
    {
      WordIsEvenHex(ws[i]);
    }
    CoeToImage.CoeTextRoundTrip(ws);
  }

  /** A conversion that succeeds had only strict words, and wrote their COE file. */
  lemma OkWords(lines: seq<string>)
    requires HexCoe(lines).Ok?
    ensures forall i :: 0 <= i < |LoadHex(lines)| ==> IsWord(LoadHex(lines)[i])
    ensures HexCoe(lines).value == CoeText(LoadHex(lines))
  {
  }

  /** The packer's HEX file converts to the COE file of the packed words. */
  lemma PackedHexCoe(data: seq<Byte>)
    ensures HexCoe(SplitLines(JoinLines(Pack(data)))) == Ok(CoeText(Pack(data)))
  {
    var ws := Pack(data);
    PackWords(data);
    WordsRoundTrip(ws);
    assert forall j :: 0 <= j < |ws| ==> ws[j] in ws;
  }
}
