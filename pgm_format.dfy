/**
 * Binary PGM (P5): the header `P5\n{w} {h}\n255\n` followed by raw 8-bit
 * samples, as the writers emit it, and the header reader of `image_to_coe`
 * that checks the magic, skips `#` comment lines and refuses a maxval above 255.
 */
module PgmFormat {
  import opened Wrappers
  import opened Text
  import opened WordCodec
  import opened Packer

  predicate IsAscii(s: string)
  {
    forall i :: 0 <= i < |s| ==> s[i] as int < 128
  }

  /** `s.encode()`, one byte per character; every header character is ASCII, where that is exact. */
  function AsciiBytes(s: string): (bs: seq<Byte>)
    ensures |bs| == |s|
    ensures forall i :: 0 <= i < |s| ==> bs[i] == s[i] as int % 256
  {
    seq(|s|, i requires 0 <= i < |s| => s[i] as int % 256)
  }

  /** Bytes read as characters one for one, so that the text functions apply to header lines. */
  function Latin1(bs: seq<Byte>): (s: string)
    ensures |s| == |bs|
    ensures forall i :: 0 <= i < |bs| ==> s[i] as int == bs[i]
  {
    seq(|bs|, i requires 0 <= i < |bs| => bs[i] as char)
  }

  lemma Latin1Ascii(s: string)
    requires IsAscii(s)
    ensures Latin1(AsciiBytes(s)) == s
  {
  }

  lemma AsciiConcat(s: string, t: string)
    ensures AsciiBytes(s + t) == AsciiBytes(s) + AsciiBytes(t)
  {
  }

  /** Decimal text is ASCII and has no blank, newline or `#` in it. */
  lemma DecimalChars(n: int)
    ensures IsAscii(Decimal(n))
    ensures IsToken(Decimal(n)) && IsStrippedOf(Decimal(n), ASCII_WHITESPACE)
    ensures '\n' !in Decimal(n) && Decimal(n)[0] != '#'
  {
    var d := Decimal(n);
    assert forall i :: 0 <= i < |d| ==> d[i] == '-' || IsDigit(d[i]);
  }

  /** The dimensions line without its newline. */
  function DimsText(w: int, h: int): string
  {
    Decimal(w) + " " + Decimal(h)
  }

  /** A P5 header announcing `maxval`, line by line; the writers always announce 255. */
  function HeaderText(w: int, h: int, maxval: int): string
  {
    "P5\n" + (DimsText(w, h) + "\n") + (Decimal(maxval) + "\n")
  }

  /** `f"P5\n{w} {h}\n255\n"` */
  function PgmHeader(w: int, h: int): (s: string)
    ensures s == HeaderText(w, h, 255)
  {
    assert Decimal(255) == "255" by {
      assert NatDigits(2) == "2";
      assert NatDigits(25) == "25";
    }
    var s := "P5\n" + Decimal(w) + " " + Decimal(h) + "\n255\n";
    assert s == "P5\n" + (DimsText(w, h) + "\n") + (Decimal(255) + "\n");
    s
  }

  /**
   * `write_pgm` in the asset generator: the encoded header, then the samples
   * exactly as given.
   */
  function PgmFile(data: seq<Byte>, w: int, h: int): (f: seq<Byte>)
    ensures |f| == |PgmHeader(w, h)| + |data|
    ensures f[|PgmHeader(w, h)|..] == data
    ensures f[..3] == [80, 53, 10]
  {
    var header := PgmHeader(w, h);
    assert header[..3] == "P5\n";
    AsciiBytes(header) + data
  }

  // ---------------------------------------------------------------- reading

  /** `f.readline()` on the unread bytes: the line with its newline (if any), and what follows. */
  function ReadLine(rest: seq<Byte>): (r: (seq<Byte>, seq<Byte>))
    ensures r.0 + r.1 == rest
    ensures |rest| > 0 ==> |r.0| > 0
  {
    var k := LineLength(rest, 10);
    assert rest[..k] + rest[k..] == rest;
    (rest[..k], rest[k..])
  }

  /** `line.startswith(b'#')` */
  predicate IsComment(line: seq<Byte>)
  {
    |line| > 0 && line[0] == 35
  }

  /** `a` is what remains of `b` after some bytes have been read from its front. */
  predicate IsSuffix(a: seq<Byte>, b: seq<Byte>)
  {
    |a| <= |b| && a == b[|b| - |a|..]
  }

  lemma SuffixTrans(a: seq<Byte>, b: seq<Byte>, c: seq<Byte>)
    requires IsSuffix(a, b) && IsSuffix(b, c)
    ensures IsSuffix(a, c)
  {
    assert c[|c| - |a|..] == c[|c| - |b|..][|b| - |a|..];
  }

  lemma ReadLineSuffix(rest: seq<Byte>)
    ensures IsSuffix(ReadLine(rest).1, rest)
  {
    var p := ReadLine(rest);
    assert rest[|p.0|..] == p.1;
  }

  /** `read_non_comment`: the first line that is not a comment (empty at the end of the file), and the bytes after it. */
  function NextNonComment(rest: seq<Byte>): (r: (seq<Byte>, seq<Byte>))
    ensures !IsComment(r.0)
    ensures IsSuffix(r.1, rest)
    decreases |rest|
  {
    var p := ReadLine(rest);
    ReadLineSuffix(rest);
    if IsComment(p.0) then
      var r := NextNonComment(p.1);
      SuffixTrans(r.1, p.1, rest);
      r
    else p
  }

  /** The loop of `read_non_comment`: read a line, and read again while it starts with `#`. */
  method ReadNonComment(rest: seq<Byte>) returns (line: seq<Byte>, after: seq<Byte>)
    ensures (line, after) == NextNonComment(rest)
  {
    var p := ReadLine(rest);
    line, after := p.0, p.1;
    ghost var prev := rest;
    while IsComment(line)
      invariant (line, after) == ReadLine(prev)
      invariant NextNonComment(prev) == NextNonComment(rest)
      decreases |line| + |after|
    {
      prev := after;
      p := ReadLine(after);
      line, after := p.0, p.1;
    }
  }

  datatype PgmError =
    | NotP5            // the first line is not `P5`
    | BadDimensions    // the dimensions line is not two integers
    | BadMaxval        // the maxval line is not an integer
    | Not8Bit(maxval: int)
    | BadReadLength(n: int) // `f.read(n)` on a buffered reader refuses any n below -1

  /** A parsed header: the dimensions, the maxval and the bytes after the maxval line. */
  datatype Raster = Raster(width: int, height: int, maxval: int, payload: seq<Byte>)

  /** `width, height = map(int, dims.split())`: exactly two integers. */
  function ParseDims(line: seq<Byte>): (r: Option<(int, int)>)
    ensures var toks := SplitWs(BytesStrip(Latin1(line)));
      r.Some? <==> |toks| == 2 && IsIntText(toks[0]) && IsIntText(toks[1])
  {
    var toks := SplitWs(BytesStrip(Latin1(line)));
    if |toks| != 2 then None
    else
      TokenStripped(toks[0]);
      TokenStripped(toks[1]);
      match (ParseInt(toks[0]), ParseInt(toks[1]))
      case (Some(w), Some(h)) => Some((w, h))
      case _ => None
  }

  /** The header checks of `read_pgm`, in their order, on the three header lines it reads. */
  function ReadHeader(file: seq<Byte>): (r: Result<Raster, PgmError>)
    ensures r.Ok? ==> r.value.maxval <= 255
    ensures r.Ok? ==> IsSuffix(r.value.payload, file)
  {
    var p := ReadLine(file);
    var q := NextNonComment(p.1);
    var s := NextNonComment(q.1);
    ReadLineSuffix(file);
    SuffixTrans(q.1, p.1, file);
    SuffixTrans(s.1, q.1, file);
    HeaderOf(p.0, q.0, s)
  }

  /** The magic check, the dimensions check and the maxval check; the payload is what follows the maxval line. */
  function HeaderOf(magic: seq<Byte>, dims: seq<Byte>, maxLine: (seq<Byte>, seq<Byte>)): (r: Result<Raster, PgmError>)
    ensures r.Ok? ==> r.value.maxval <= 255 && r.value.payload == maxLine.1
  {
    if BytesStrip(Latin1(magic)) != "P5" then Err(NotP5)
    else match ParseDims(dims)
      case None => Err(BadDimensions)
      case Some((w, h)) =>
        match ParseInt(BytesStrip(Latin1(maxLine.0)))
        case None => Err(BadMaxval)
        case Some(m) => if m > 255 then Err(Not8Bit(m)) else Ok(Raster(w, h, m, maxLine.1))
  }

  /**
   * `f.read(n)` on the buffered reader of `open('rb')`: at most `n` bytes,
   * all of them for `n == -1`, and a `ValueError` for any other negative `n`.
   */
  function PyRead(rest: seq<Byte>, n: int): (r: Result<seq<Byte>, PgmError>)
    ensures r.Err? <==> n < -1
    ensures r.Err? ==> r.error == BadReadLength(n)
    ensures r.Ok? ==> |r.value| <= |rest| && r.value == rest[..|r.value|]
    ensures n >= 0 ==> r.Ok? && |r.value| == Min(n, |rest|)
    ensures n == -1 ==> r == Ok(rest)
  {
    if n < -1 then Err(BadReadLength(n))
    else if n == -1 then Ok(rest)
    else Ok(rest[..Min(n, |rest|)])
  }

  /** `read_pgm`: the samples after the header, at most width*height of them. */
  function ReadPgmSpec(file: seq<Byte>): Result<seq<Byte>, PgmError>
  {
    match ReadHeader(file)
    case Err(e) => Err(e)
    case Ok(r) => PyRead(r.payload, r.width * r.height)
  }

  /** `read_pgm` step by step: magic line, dimensions, maxval, then one read of width*height bytes. */
  method ReadPgm(file: seq<Byte>) returns (r: Result<seq<Byte>, PgmError>)
    ensures r == ReadPgmSpec(file)
  {
    var p := ReadLine(file);
    var header := BytesStrip(Latin1(p.0));
    if header != "P5" {
      return Err(NotP5);
    }
    var dimsLine, rest := ReadNonComment(p.1);
    var toks := SplitWs(BytesStrip(Latin1(dimsLine)));
    if |toks| != 2 {
      return Err(BadDimensions);
    }
    var pw, ph := ParseInt(toks[0]), ParseInt(toks[1]);
    if pw.None? || ph.None? {
      return Err(BadDimensions);
    }
    var width, height := pw.value, ph.value;
    var maxLine, pixels := ReadNonComment(rest);
    var pm := ParseInt(BytesStrip(Latin1(maxLine)));
    if pm.None? {
      return Err(BadMaxval);
    }
    if pm.value > 255 {
      return Err(Not8Bit(pm.value));
    }
    r := PyRead(pixels, width * height);
  }

  // ---------------------------------------------------------------- properties of the reader

  /** Unless the first line strips to `P5` the file is refused. */
  lemma MagicRequired(file: seq<Byte>)
    requires BytesStrip(Latin1(ReadLine(file).0)) != "P5"
    ensures ReadPgmSpec(file) == Err(NotP5)
  {
  }

  /**
   * After an accepted header the read fails exactly when width*height is below
   * -1; otherwise at most width*height samples come back, and a short payload
   * is not padded.
   */
  lemma ReadPgmLength(file: seq<Byte>)
    requires ReadHeader(file).Ok?
    ensures var r := ReadHeader(file).value;
      ReadPgmSpec(file).Ok? <==> r.width * r.height >= -1
    ensures var r := ReadHeader(file).value;
      r.width * r.height < -1 ==> ReadPgmSpec(file) == Err(BadReadLength(r.width * r.height))
    ensures ReadPgmSpec(file).Ok? ==>
      var r := ReadHeader(file).value; var px := ReadPgmSpec(file).value;
      px == r.payload[..|px|] &&
      (r.width * r.height >= 0 ==> |px| == Min(r.width * r.height, |r.payload|)) &&
      (r.width * r.height == -1 ==> px == r.payload)
  {
  }

  /** One text line, encoded, with its newline. */
  function TextLine(t: string): (l: seq<Byte>)
    ensures l == AsciiBytes(t) + [10]
  {
    AsciiConcat(t, "\n");
    AsciiBytes(t + "\n")
  }

  /** Reading a line that has no newline of its own stops right after its newline. */
  lemma ReadOneLine(line: seq<Byte>, rest: seq<Byte>)
    requires 10 !in line
    ensures ReadLine(line + [10] + rest) == (line + [10], rest)
  {
    LineLengthOfLine(line, 10, rest);
    var f := line + [10] + rest;
    assert f[..|line| + 1] == line + [10];
    assert f[|line| + 1..] == rest;
  }

  /** Reading an encoded ASCII line gives back that line, and the rest untouched. */
  lemma ReadTextLine(t: string, rest: seq<Byte>)
    requires IsAscii(t) && '\n' !in t
    ensures ReadLine(TextLine(t) + rest) == (TextLine(t), rest)
    ensures Latin1(TextLine(t)) == t + "\n"
  {
    var a := AsciiBytes(t);
    assert 10 !in a by {
      forall i | 0 <= i < |a|
        ensures a[i] != 10
      {
        assert t[i] != '\n';
      }
    }
    ReadOneLine(a, rest);
    assert IsAscii(t + "\n");
    Latin1Ascii(t + "\n");
  }

  /** An encoded ASCII line that does not start with `#` is what `read_non_comment` returns. */
  lemma NextTextLine(t: string, rest: seq<Byte>)
    requires IsAscii(t) && '\n' !in t && t != [] && t[0] != '#'
    ensures NextNonComment(TextLine(t) + rest) == (TextLine(t), rest)
  {
    ReadTextLine(t, rest);
    assert TextLine(t)[0] == t[0] as int;
  }

  /** Strip drops the newline of a line whose text is already stripped. */
  lemma StripLine(t: string)
    requires IsStrippedOf(t, ASCII_WHITESPACE)
    ensures BytesStrip(t + "\n") == t
  {
    StripPadded([], t, "\n", ASCII_WHITESPACE);
    assert [] + t + "\n" == t + "\n";
  }

  lemma DimsChars(w: int, h: int)
    ensures IsAscii(DimsText(w, h)) && '\n' !in DimsText(w, h)
    ensures DimsText(w, h) != [] && DimsText(w, h)[0] != '#'
    ensures IsStrippedOf(DimsText(w, h), ASCII_WHITESPACE)
  {
    DecimalChars(w);
    DecimalChars(h);
    var d := DimsText(w, h);
    assert d[0] == Decimal(w)[0];
    assert d[|d| - 1] == Decimal(h)[|Decimal(h)| - 1];
  }

  /** The dimension line written for `w` and `h` reads back as `(w, h)`. */
  lemma DimsRoundTrip(w: int, h: int)
    ensures ParseDims(TextLine(DimsText(w, h))) == Some((w, h))
  {
    DimsChars(w, h);
    DecimalChars(w);
    DecimalChars(h);
    var d := DimsText(w, h);
    ReadTextLine(d, []);
    StripLine(d);
    SplitTwo(Decimal(w), Decimal(h));
    ParseDecimal(w);
    ParseDecimal(h);
  }

  /** A decimal line reads back as its number. */
  lemma NumberRoundTrip(m: int)
    ensures ParseInt(BytesStrip(Latin1(TextLine(Decimal(m))))) == Some(m)
  {
    DecimalChars(m);
    ReadTextLine(Decimal(m), []);
    StripLine(Decimal(m));
    ParseDecimal(m);
  }

  /** A header's bytes, line by line. */
  lemma HeaderBytes(w: int, h: int, m: int)
    ensures AsciiBytes(HeaderText(w, h, m)) == TextLine("P5") + TextLine(DimsText(w, h)) + TextLine(Decimal(m))
  {
    AsciiConcat("P5\n" + (DimsText(w, h) + "\n"), Decimal(m) + "\n");
    AsciiConcat("P5\n", DimsText(w, h) + "\n");
    assert "P5\n" == "P5" + "\n";
  }

  lemma MagicLine(rest: seq<Byte>)
    ensures ReadLine(TextLine("P5") + rest) == (TextLine("P5"), rest)
    ensures BytesStrip(Latin1(TextLine("P5"))) == "P5"
  {
    ReadTextLine("P5", rest);
    StripLine("P5");
  }

  lemma HeaderFileBytes(data: seq<Byte>, w: int, h: int, m: int)
    ensures AsciiBytes(HeaderText(w, h, m)) + data
      == TextLine("P5") + (TextLine(DimsText(w, h)) + (TextLine(Decimal(m)) + data))
  {
    HeaderBytes(w, h, m);
  }

  lemma DimsLineNext(w: int, h: int, rest: seq<Byte>)
    ensures NextNonComment(TextLine(DimsText(w, h)) + rest) == (TextLine(DimsText(w, h)), rest)
  {
    DimsChars(w, h);
    NextTextLine(DimsText(w, h), rest);
  }

  lemma MaxvalLineNext(m: int, rest: seq<Byte>)
    ensures NextNonComment(TextLine(Decimal(m)) + rest) == (TextLine(Decimal(m)), rest)
  {
    DecimalChars(m);
    NextTextLine(Decimal(m), rest);
  }

  /** The three header lines of a written header, as `read_pgm` reads them. */
  lemma HeaderLinesRead(data: seq<Byte>, w: int, h: int, m: int)
    ensures var l1, l2, l3 := TextLine("P5"), TextLine(DimsText(w, h)), TextLine(Decimal(m));
      ReadHeader(AsciiBytes(HeaderText(w, h, m)) + data) == HeaderOf(l1, l2, (l3, data))
  {
    var l1, l2, l3 := TextLine("P5"), TextLine(DimsText(w, h)), TextLine(Decimal(m));
    HeaderFileBytes(data, w, h, m);
    MagicLine(l2 + (l3 + data));
    DimsLineNext(w, h, l3 + data);
    MaxvalLineNext(m, data);
  }

  /**
   * Any header the writers could produce reads back: the dimensions are those
   * written, a maxval above 255 is refused, and otherwise the payload is all
   * the bytes after the header.
   */
  lemma HeaderRoundTrip(data: seq<Byte>, w: int, h: int, m: int)
    ensures ReadHeader(AsciiBytes(HeaderText(w, h, m)) + data)
      == if m > 255 then Err(Not8Bit(m)) else Ok(Raster(w, h, m, data))
  {
    HeaderLinesRead(data, w, h, m);
    MagicLine([]);
    DimsRoundTrip(w, h);
    NumberRoundTrip(m);
  }

  /**
   * What `write_pgm` writes, `read_pgm` reads back, cut to width*height when
   * that is not negative, whole when it is -1; below -1 the read is refused.
   */
  lemma PgmRoundTrip(data: seq<Byte>, w: int, h: int)
    ensures ReadPgmSpec(PgmFile(data, w, h)) == PyRead(data, w * h)
    ensures w * h == |data| ==> ReadPgmSpec(PgmFile(data, w, h)) == Ok(data)
    ensures w * h < -1 ==> ReadPgmSpec(PgmFile(data, w, h)) == Err(BadReadLength(w * h))
  {
    assert ReadHeader(PgmFile(data, w, h)) == Ok(Raster(w, h, 255, data)) by {
      assert PgmFile(data, w, h) == AsciiBytes(HeaderText(w, h, 255)) + data;
      HeaderRoundTrip(data, w, h, 255);
    }
    if w * h == |data| {
      assert PyRead(data, w * h) == Ok(data[..|data|]);
      assert data[..|data|] == data;
    }
  }

  /** A header announcing more than 8 bits per sample is refused whatever follows it. */
  lemma WideMaxvalRefused(data: seq<Byte>, w: int, h: int, m: int)
    requires m > 255
    ensures ReadPgmSpec(AsciiBytes(HeaderText(w, h, m)) + data) == Err(Not8Bit(m))
  {
    HeaderRoundTrip(data, w, h, m);
  }

  /** Encoded comment lines: each starts with `#` and ends with its newline. */
  function CommentBlock(cs: seq<seq<Byte>>): seq<Byte>
  {
    if cs == [] then [] else cs[0] + [10] + CommentBlock(cs[1..])
  }

  predicate IsCommentLine(c: seq<Byte>)
  {
    IsComment(c) && 10 !in c
  }

  /** `read_non_comment` passes over any number of comment lines. */
  lemma {:induction false} CommentsSkipped(cs: seq<seq<Byte>>, rest: seq<Byte>)
    requires forall i :: 0 <= i < |cs| ==> IsCommentLine(cs[i])
    ensures NextNonComment(CommentBlock(cs) + rest) == NextNonComment(rest)
    decreases |cs|
  {
    if cs == [] {
      assert CommentBlock(cs) + rest == rest;
    } else {
      var c := cs[0];
      assert IsCommentLine(c);
      var tail := CommentBlock(cs[1..]) + rest;
      assert CommentBlock(cs) + rest == c + [10] + tail;
      ReadOneLine(c, tail);
      CommentsSkipped(cs[1..], rest);
    }
  }

  /** The header is decided by the magic line, the dimensions line and the maxval line with what follows it. */
  lemma HeaderDecidedBy(f: seq<Byte>, g: seq<Byte>)
    requires ReadLine(f).0 == ReadLine(g).0
    requires NextNonComment(ReadLine(f).1).0 == NextNonComment(ReadLine(g).1).0
    requires NextNonComment(NextNonComment(ReadLine(f).1).1) == NextNonComment(NextNonComment(ReadLine(g).1).1)
    ensures ReadPgmSpec(f) == ReadPgmSpec(g)
  {
    assert ReadHeader(f) == ReadHeader(g);
  }

  /** Comment lines between the magic line and the dimensions line change nothing. */
  lemma CommentsBeforeDims(magic: seq<Byte>, cs: seq<seq<Byte>>, rest: seq<Byte>)
    requires 10 !in magic
    requires forall i :: 0 <= i < |cs| ==> IsCommentLine(cs[i])
    ensures ReadPgmSpec(magic + [10] + (CommentBlock(cs) + rest)) == ReadPgmSpec(magic + [10] + rest)
  {
    ReadOneLine(magic, CommentBlock(cs) + rest);
    ReadOneLine(magic, rest);
    CommentsSkipped(cs, rest);
    HeaderDecidedBy(magic + [10] + (CommentBlock(cs) + rest), magic + [10] + rest);
  }

  /** Comment lines between the dimensions line and the maxval line change nothing. */
  lemma CommentsBeforeMaxval(magic: seq<Byte>, dims: seq<Byte>, cs: seq<seq<Byte>>, rest: seq<Byte>)
    requires 10 !in magic && 10 !in dims && !IsComment(dims)
    requires forall i :: 0 <= i < |cs| ==> IsCommentLine(cs[i])
    ensures ReadPgmSpec(magic + [10] + (dims + [10] + (CommentBlock(cs) + rest)))
      == ReadPgmSpec(magic + [10] + (dims + [10] + rest))
  {
    var tf := CommentBlock(cs) + rest;
    ReadOneLine(magic, dims + [10] + tf);
    ReadOneLine(magic, dims + [10] + rest);
    ReadOneLine(dims, tf);
    ReadOneLine(dims, rest);
    assert !IsComment(dims + [10]);
    CommentsSkipped(cs, rest);
    HeaderDecidedBy(magic + [10] + (dims + [10] + tf), magic + [10] + (dims + [10] + rest));
  }
}
