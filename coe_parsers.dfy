/**
 * The two COE parsers side by side: on the files `write_coe` writes they
 * agree, and they part ways on how many delimiters a line may carry and on
 * what a word may look like.
 */
module CoeParsers {
  import opened Wrappers
  import opened WordCodec
  import opened Packer
  import opened CoeFormat
  import CoeToHex
  import CoeToImage

  /**
   * `coe_to_hex` removes every trailing `,` and `;`, while `coe_to_image`
   * removes a single `;` and then the trailing commas, so a doubled `;`
   * leaves one `;` on the word: the length check rejects it after an
   * even-length word, the hex check after an odd-length one.
   */
  lemma DoubledSemicolon(w: string)
    requires IsHex(w) && w != []
    ensures CoeToHex.VectorWord(w + ";;") == Ok([w])
    ensures |w| % 2 == 0 ==> CoeToImage.VectorBytes(w + ";;") == Err(CoeToImage.InvalidHexLength(|w| + 1, w + ";"))
    ensures |w| % 2 == 1 ==> CoeToImage.VectorBytes(w + ";;") == Err(CoeToImage.InvalidHex(w + ";"))
  {
    assert IsHexNumeral(w);
    CoeToHex.VectorWordOf(w, ";;");
    CoeToImage.DoubleSemicolonRejected(w);
  }

  /** An odd number of digits is a word to `coe_to_hex` and an error to `coe_to_image`. */
  lemma OddWord(w: string, commas: string)
    requires IsHex(w) && |w| % 2 == 1
    requires forall i :: 0 <= i < |commas| ==> commas[i] == ','
    ensures CoeToHex.VectorWord(w + commas) == Ok([w])
    ensures CoeToImage.VectorBytes(w + commas) == Err(CoeToImage.InvalidHexLength(|w|, w))
  {
    assert IsHexNumeral(w);
    CoeToHex.VectorWordOf(w, commas);
    CoeToImage.OddLengthRejected(w, commas, false);
    assert w + commas + "" == w + commas;
  }

  /** On a written file of non-empty even-length words, the bytes are the decoded words. */
  lemma ParsersAgree(ws: seq<string>)
    requires forall i :: 0 <= i < |ws| ==> IsEvenHex(ws[i]) && ws[i] != []
    ensures CoeToHex.CoeWords(CoeLines(ws)) == Ok(ws)
    ensures forall w :: w in ws ==> IsEvenHex(w)
    ensures CoeToImage.CoeBytes(CoeLines(ws)) == Ok(Unpack(ws))
  {
    assert forall i :: 0 <= i < |ws| ==> IsHexNumeral(ws[i]);
    CoeToHex.CoeRoundTrip(ws);
    CoeToImage.CoeRoundTrip(ws);
  }
}
