/**
 * `coe_to_image`: the COE parser that decodes each vector line to bytes as it
 * goes, and the PGM writer that fits those bytes to width*height. Inside the
 * vector one trailing `;` is dropped, then every trailing `,`, then the inner
 * spaces; the word must have even length and be hex, of any length.
 */
module CoeToImage {
  import opened Wrappers
  import opened Text
  import opened WordCodec
  import opened Packer
  import opened CoeFormat
  import opened CoeReader
  import opened PgmFormat

  /** The two `ValueError`s: an odd character count, and a character `fromhex` rejects. */
  datatype ParseError = InvalidHexLength(length: nat, line: string) | InvalidHex(line: string)

  /** `line[:-1]` when the line ends with `;`, then `rstrip(',')`. */
  function DropDelimiters(line: string): (l: string)
    ensures |l| <= |line| && l == line[..|l|]
  {
    var t := if EndsWith(line, ';') then line[..|line| - 1] else line;
    RStrip(t, {','})
  }

  /** One stripped vector line: no bytes when it is only delimiters, else its bytes or the error. */
  function VectorBytes(line: string): (r: Result<seq<Byte>, ParseError>)
    ensures r.Err? && r.error.InvalidHexLength? ==> r.error.length % 2 == 1
  {
    var l := DropDelimiters(line);
    if l == [] then Ok([])
    else
      var word := Remove(l, ' ');
      if |word| % 2 != 0 then Err(InvalidHexLength(|word|, l))
      else if !IsHex(word) then Err(InvalidHex(l))
      else Ok(DecodeHex(word))
  }

  /** The bytes of a COE file given as its lines, or the first bad line's error. */
  function CoeBytes(lines: seq<string>): Result<seq<Byte>, ParseError>
  {
    Scan(Kinds(lines, VectorBytes), false)
  }

  /** The body of the scan for one line, the word steps only inside the vector. */
  method ScanLine(raw: string, inVec: bool) returns (k: LineKind<Result<seq<Byte>, ParseError>>)
    ensures k == Seen(Kind(raw, VectorBytes), inVec)
  {
    var line := Strip(raw);
    if line == [] {
      return Blank;
    }
    if StartsWith(line, VECTOR_TOKEN) {
      return VectorStart;
    }
    if !inVec {
      return Blank;
    }
    if EndsWith(line, ';') {
      line := line[..|line| - 1];
    }
    line := RStrip(line, {','});
    if line == [] {
      return Body(Ok([]));
    }
    var word := Remove(line, ' ');
    if |word| % 2 != 0 {
      return Body(Err(InvalidHexLength(|word|, line)));
    }
    if !IsHex(word) {
      return Body(Err(InvalidHex(line)));
    }
    return Body(Ok(DecodeHex(word)));
  }

  /** `parse_coe`: the scan with its `in_vec` flag, extending the buffer with each decoded line. */
  method ParseCoe(lines: seq<string>) returns (r: Result<seq<Byte>, ParseError>)
    ensures r == CoeBytes(lines)
  {
    ghost var ks := Kinds(lines, VectorBytes);
    var data: seq<Byte> := [];
    var inVec := false;
    assert ks[0..] == ks;
    PrependNothing(CoeBytes(lines));
    for i := 0 to |lines|
      invariant CoeBytes(lines) == Prepend(data, Scan(ks[i..], inVec))
    {
      assert ks[i..][0] == ks[i] && ks[i..][1..] == ks[i + 1..];
      var k := ScanLine(lines[i], inVec);
      match k {
        case Blank =>
        case VectorStart =>
          inVec := true;
        case Body(Err(e)) =>
          r := Err(e);
          assert Prepend(data, r) == r;
          return;
        case Body(Ok(bs)) =>
          PrependPrepend(data, bs, Scan(ks[i + 1..], true));
          data := data + bs;
      }
    }
    assert ks[|lines|..] == [];
    assert data + [] == data;
    r := Ok(data);
  }

  /**
   * `write_pgm`: keep at most width*height bytes, zero-pad a short buffer to
   * that length, and write it after the `P5` header.
   */
  method WritePgm(pixels: seq<Byte>, width: int, height: int) returns (file: seq<Byte>)
    ensures file == PgmFile(Resize(pixels, width * height), width, height)
  {
    var expected := width * height;
    var buf := PyPrefix(pixels, expected);
    if |buf| < expected {
      buf := buf + Zeros(expected - |buf|);
    }
    file := AsciiBytes(PgmHeader(width, height)) + buf;
  }

  /** The conversion: parse, then write the image; a parse error means no image. */
  method CoeToPgm(lines: seq<string>, width: int, height: int) returns (r: Result<seq<Byte>, ParseError>)
    ensures r.Err? <==> CoeBytes(lines).Err?
    ensures r.Err? ==> r.error == CoeBytes(lines).error
    ensures r.Ok? ==> r.value == PgmFile(Resize(CoeBytes(lines).value, width * height), width, height)
  {
    var pixels := ParseCoe(lines);
    if pixels.Err? {
      return Err(pixels.error);
    }
    var file := WritePgm(pixels.value, width, height);
    return Ok(file);
  }

  /** Nothing before the first token line is looked at, and the token line itself is skipped. */
  lemma PreambleSkipped(pre: seq<string>, h: string, post: seq<string>)
    requires forall j :: 0 <= j < |pre| ==> !StartsWith(Strip(pre[j]), VECTOR_TOKEN)
    requires StartsWith(Strip(h), VECTOR_TOKEN)
    ensures CoeBytes(pre + [h] + post) == Scan(Kinds(post, VectorBytes), true)
  {
    var kp := Kinds(pre, VectorBytes);
    KindsAppend(pre + [h], post, VectorBytes);
    KindsAppend(pre, [h], VectorBytes);
    assert Kinds([h], VectorBytes) == [VectorStart];
    assert forall j :: 0 <= j < |kp| ==> !kp[j].VectorStart?;
    ScanPreamble(kp, Kinds(post, VectorBytes));
  }

  /** A bad line aborts the parse: no bytes at all are returned, whatever follows. */
  lemma ErrorIsFinal(a: seq<string>, b: seq<string>)
    requires CoeBytes(a).Err?
    ensures CoeBytes(a + b) == CoeBytes(a)
  {
    KindsAppend(a, b, VectorBytes);
    ScanErrorFinal(Kinds(a, VectorBytes), Kinds(b, VectorBytes), false);
  }

  lemma HexHasNoSpace(w: string)
    requires IsHex(w)
    ensures ' ' !in w && Remove(w, ' ') == w
  {
    assert forall i :: 0 <= i < |w| ==> IsHexDigit(w[i]);
  }

  /**
   * The cleaned form of a line is `w` exactly when the line is `w`, a run of
   * `,`, and at most one final `;`, with `w` not ending in a `,` (nor in a
   * `;` that would be taken for the final one).
   */
  lemma DropDelimitersOf(w: string, commas: string, semi: bool)
    requires w == [] || w[|w| - 1] != ','
    requires semi || commas != [] || w == [] || w[|w| - 1] != ';'
    requires forall i :: 0 <= i < |commas| ==> commas[i] == ','
    ensures DropDelimiters(w + commas + (if semi then ";" else "")) == w
  {
    var t := w + commas;
    var line := t + (if semi then ";" else "");
    if semi {
      assert line[..|line| - 1] == t;
    } else {
      assert line == t;
      assert !EndsWith(line, ';') by {
        if commas != [] {
          assert line[|line| - 1] == commas[|commas| - 1];
        }
      }
    }
    RStripSuffix(w, commas, {','});
  }

  /**
   * Any line whose cleaned form is the non-empty `w`: the spaces inside `w`
   * are dropped; an odd count of what is left is a length error, an even
   * count of non-hex characters a hex error, and both report `w`; otherwise
   * the bytes are decoded.
   */
  lemma VectorBytesText(w: string, commas: string, semi: bool)
    requires w != [] && w[|w| - 1] != ','
    requires semi || commas != [] || w[|w| - 1] != ';'
    requires forall i :: 0 <= i < |commas| ==> commas[i] == ','
    ensures var line := w + commas + (if semi then ";" else "");
      && (|Remove(w, ' ')| % 2 == 1 ==> VectorBytes(line) == Err(InvalidHexLength(|Remove(w, ' ')|, w)))
      && (|Remove(w, ' ')| % 2 == 0 && !IsHex(Remove(w, ' ')) ==> VectorBytes(line) == Err(InvalidHex(w)))
      && (IsEvenHex(Remove(w, ' ')) ==> VectorBytes(line) == Ok(DecodeHex(Remove(w, ' '))))
  {
    DropDelimitersOf(w, commas, semi);
  }

  /** A line of delimiters only holds no bytes. */
  lemma VectorBytesBlank(commas: string, semi: bool)
    requires forall i :: 0 <= i < |commas| ==> commas[i] == ','
    ensures VectorBytes(commas + (if semi then ";" else "")) == Ok([])
  {
    DropDelimitersOf([], commas, semi);
    assert [] + commas == commas;
  }

  /**
   * An even-length hex word followed by any run of `,` and at most one final
   * `;` decodes to its bytes, whatever its length.
   */
  lemma VectorBytesOf(w: string, commas: string, semi: bool)
    requires IsEvenHex(w)
    requires forall i :: 0 <= i < |commas| ==> commas[i] == ','
    ensures VectorBytes(w + commas + (if semi then ";" else "")) == Ok(DecodeHex(w))
  {
    if w == [] {
      VectorBytesBlank(commas, semi);
      assert [] + commas == commas;
    } else {
      assert IsHexDigit(w[|w| - 1]);
      HexHasNoSpace(w);
      VectorBytesText(w, commas, semi);
    }
  }

  /**
   * A second `;` is not removed: the first stays on the word. After an
   * even-length word that makes the count odd; after an odd-length word the
   * count is even and the `;` fails the hex check.
   */
  lemma DoubleSemicolonRejected(w: string)
    requires IsHex(w)
    ensures |w| % 2 == 0 ==> VectorBytes(w + ";;") == Err(InvalidHexLength(|w| + 1, w + ";"))
    ensures |w| % 2 == 1 ==> VectorBytes(w + ";;") == Err(InvalidHex(w + ";"))
  {
    if |w| % 2 == 0 {
      DoubleSemicolonEven(w);
    } else {
      DoubleSemicolonOdd(w);
    }
  }

  lemma DoubleSemicolonEven(w: string)
    requires IsEvenHex(w)
    ensures VectorBytes(w + ";;") == Err(InvalidHexLength(|w| + 1, w + ";"))
  {
    var v := SemicolonKept(w);
    assert |v| % 2 == 1;
    VectorBytesText(v, [], true);
  }

  lemma DoubleSemicolonOdd(w: string)
    requires IsHex(w) && |w| % 2 == 1
    ensures VectorBytes(w + ";;") == Err(InvalidHex(w + ";"))
  {
    var v := SemicolonKept(w);
    assert |v| % 2 == 0;
    assert !IsHexDigit(v[|v| - 1]);
    VectorBytesText(v, [], true);
  }

  /** The cleaned form of `w;;`: the word with one `;` left on it, and no space in it. */
  lemma SemicolonKept(w: string) returns (v: string)
    requires IsHex(w)
    ensures v == w + ";" && w + ";;" == v + [] + ";"
    ensures v[|v| - 1] == ';' && |v| == |w| + 1
    ensures Remove(v, ' ') == v
  {
    v := w + ";";
    assert w + ";;" == v + [] + ";";
    assert ' ' !in v by {
      HexHasNoSpace(w);
      assert forall i :: 0 <= i < |v| ==> v[i] != ' ' by {
        assert forall i :: 0 <= i < |w| ==> v[i] == w[i];
      }
    }
  }

  /** An odd count of hex digits is reported with the count and the cleaned line. */
  lemma OddLengthRejected(w: string, commas: string, semi: bool)
    requires IsHex(w) && |w| % 2 == 1
    requires forall i :: 0 <= i < |commas| ==> commas[i] == ','
    ensures VectorBytes(w + commas + (if semi then ";" else "")) == Err(InvalidHexLength(|w|, w))
  {
    assert IsHexDigit(w[|w| - 1]);
    HexHasNoSpace(w);
    VectorBytesText(w, commas, semi);
  }

  /** Each word's bytes, so that flattening joins the words' bytes in order. */
  function Decodes(ws: seq<string>): (xss: seq<seq<Byte>>)
    requires forall i :: 0 <= i < |ws| ==> IsEvenHex(ws[i])
    ensures |xss| == |ws|
  {
    seq(|ws|, i requires 0 <= i < |ws| => DecodeHex(ws[i]))
  }

  lemma {:induction false} FlattenDecodes(ws: seq<string>)
    requires forall i :: 0 <= i < |ws| ==> IsEvenHex(ws[i])
    ensures forall w :: w in ws ==> IsEvenHex(w)
    ensures Flatten(Decodes(ws)) == Unpack(ws)
    decreases |ws|
  {
    if ws != [] {
      assert Decodes(ws)[1..] == Decodes(ws[1..]);
      FlattenDecodes(ws[1..]);
    }
  }

  /** Inside the vector, a written word line yields its word's bytes. */
  lemma KindOfWordLine(w: string, last: bool)
    requires IsEvenHex(w)
    ensures Kind(WordLine(w, last), VectorBytes) == Body(Ok(DecodeHex(w)))
  {
    WordLineStripped(w, last);
    if last {
      VectorBytesOf(w, "", true);
      assert w + "" + ";" == w + ";";
    } else {
      VectorBytesOf(w, ",", false);
      assert w + "," + "" == w + ",";
    }
  }

  lemma KindOfCoeLine(ws: seq<string>, i: nat)
    requires i < |ws| && IsEvenHex(ws[i])
    requires forall j :: 0 <= j < |ws| ==> IsEvenHex(ws[j])
    ensures Kinds(CoeLines(ws), VectorBytes)[i + 2] == Body(Ok(Decodes(ws)[i]))
  {
    assert CoeLines(ws)[i + 2] == WordLine(ws[i], i == |ws| - 1);
    KindOfWordLine(ws[i], i == |ws| - 1);
  }

  /** The radix line is a body line before the vector; the vector line opens it. */
  lemma HeaderKinds()
    ensures Kind(RADIX_LINE, VectorBytes).Body?
    ensures Kind(VECTOR_LINE, VectorBytes) == VectorStart
  {
    HeaderLines();
  }

  /** The word lines `write_coe` writes are body lines holding exactly their words' bytes. */
  lemma WordKinds(ws: seq<string>)
    requires forall i :: 0 <= i < |ws| ==> IsEvenHex(ws[i])
    ensures forall i :: 0 <= i < |ws| ==> Kinds(CoeLines(ws), VectorBytes)[i + 2] == Body(Ok(Decodes(ws)[i]))
  {
    forall i | 0 <= i < |ws| {
      KindOfCoeLine(ws, i);
    }
  }

  /** The two header lines of a written COE file contribute nothing and open the vector. */
  lemma HeaderSkipped(ws: seq<string>)
    ensures CoeBytes(CoeLines(ws)) == Scan(Kinds(CoeLines(ws), VectorBytes)[2..], true)
  {
    var lines := CoeLines(ws);
    var ks := Kinds(lines, VectorBytes);
    CoeLinesLayout(ws);
    HeaderKinds();
    assert ks[0] == Kind(RADIX_LINE, VectorBytes);
    assert ks[1] == Kind(VECTOR_LINE, VectorBytes);
    ScanHeader(ks);
  }

  /** The word lines of a written COE file give each word's bytes, in order. */
  lemma BodyBytes(ws: seq<string>)
    requires forall i :: 0 <= i < |ws| ==> IsEvenHex(ws[i])
    ensures Scan(Kinds(CoeLines(ws), VectorBytes)[2..], true) == Ok(Flatten(Decodes(ws)))
  {
    WordKinds(ws);
    ScanBodies(Kinds(CoeLines(ws), VectorBytes)[2..], Decodes(ws));
  }

  /** Parsing what `write_coe` wrote gives the words' bytes, joined in order. */
  lemma CoeRoundTrip(ws: seq<string>)
    requires forall i :: 0 <= i < |ws| ==> IsEvenHex(ws[i])
    ensures forall w :: w in ws ==> IsEvenHex(w)
    ensures CoeBytes(CoeLines(ws)) == Ok(Unpack(ws))
  {
    HeaderSkipped(ws);
    BodyBytes(ws);
    FlattenDecodes(ws);
  }

  /** Reading a written COE file line by line gives the words' bytes, joined in order. */
  lemma CoeTextRoundTrip(ws: seq<string>)
    requires forall i :: 0 <= i < |ws| ==> IsEvenHex(ws[i])
    ensures forall w :: w in ws ==> IsEvenHex(w)
    ensures CoeBytes(SplitLines(CoeText(ws))) == Ok(Unpack(ws))
  {
    assert forall i :: 0 <= i < |ws| ==> IsHex(ws[i]);
    CoeLinesSingle(ws);
    SplitJoin(CoeLines(ws));
    KindsNewlines(CoeLines(ws), VectorBytes);
    CoeRoundTrip(ws);
  }

  /**
   * The packer's COE file, read back by this parser, gives the packed bytes:
   * the input zero-padded to a multiple of 16.
   */
  lemma PackedCoeRead(data: seq<Byte>)
    ensures CoeBytes(SplitLines(CoeText(Pack(data)))) == Ok(data + Zeros(PadLength(|data|)))
  {
    PackedEven(data);
    CoeTextRoundTrip(Pack(data));
    UnpackPack(data);
  }

  lemma PackedEven(data: seq<Byte>)
    ensures forall i :: 0 <= i < |Pack(data)| ==> IsEvenHex(Pack(data)[i])
  {
    var ws := Pack(data);
    PackWords(data);
    forall i | 0 <= i < |ws|
      ensures IsEvenHex(ws[i])
    {
      assert ws[i] in ws;
    }
  }
}
