/**
 * `coe_to_hex`: the lenient COE parser that keeps each vector word as text.
 * Inside the vector any mix of trailing `,` and `;` is removed, then
 * whitespace, then inner spaces, and the word must be a hex numeral of any
 * length; the words are then written one per line.
 */
module CoeToHex {
  import opened Wrappers
  import opened Text
  import opened WordCodec
  import opened CoeFormat
  import opened CoeReader
  import opened HexLines

  /** The `ValueError` raised for a word that `int(word, 16)` rejects; it carries the cleaned line. */
  datatype ParseError = InvalidHexWord(line: string)

  const DELIMITERS: set<char> := {',', ';'}

  /** One stripped vector line: no word when it is only delimiters, else its word or the error. */
  function VectorWord(line: string): (r: Result<seq<string>, ParseError>)
    ensures r.Ok? ==> |r.value| <= 1
    ensures r.Ok? && r.value != [] ==> IsHexNumeral(r.value[0]) && ' ' !in r.value[0]
  {
    var l := Strip(RStrip(line, DELIMITERS));
    if l == [] then Ok([])
    else
      var word := Remove(l, ' ');
      if IsHexNumeral(word) then Ok([word]) else Err(InvalidHexWord(l))
  }

  /** The words of a COE file given as its lines, or the first bad word's error. */
  function CoeWords(lines: seq<string>): Result<seq<string>, ParseError>
  {
    Scan(Kinds(lines, VectorWord), false)
  }

  /**
   * The body of the scan for one line: strip, blank test, token test, flag
   * test, then the word steps only inside the vector.
   */
  method ScanLine(raw: string, inVec: bool) returns (k: LineKind<Result<seq<string>, ParseError>>)
    ensures k == Seen(Kind(raw, VectorWord), inVec)
  {
    var line := Strip(raw);
    if line == [] {
      return Blank;
    }
    if StartsWith(line, VECTOR_TOKEN) {
      return VectorStart;
    }
    if !inVec {
      return Blank;
    }
    var stripped := Strip(RStrip(line, DELIMITERS));
    if stripped == [] {
      return Body(Ok([]));
    }
    var word := Remove(stripped, ' ');
    if !IsHexNumeral(word) {
      return Body(Err(InvalidHexWord(stripped)));
    }
    return Body(Ok([word]));
  }

  /** `parse_coe_lines`: the scan with its `in_vec` flag, appending each accepted word. */
  method ParseCoeLines(lines: seq<string>) returns (r: Result<seq<string>, ParseError>)
    ensures r == CoeWords(lines)
  {
    ghost var ks := Kinds(lines, VectorWord);
    var words: seq<string> := [];
    var inVec := false;
    assert ks[0..] == ks;
    PrependNothing(CoeWords(lines));
    for i := 0 to |lines|
      invariant CoeWords(lines) == Prepend(words, Scan(ks[i..], inVec))
    {
      assert ks[i..][0] == ks[i] && ks[i..][1..] == ks[i + 1..];
      var k := ScanLine(lines[i], inVec);
      match k {
        case Blank =>
        case VectorStart =>
          inVec := true;
        case Body(Err(e)) =>
          r := Err(e);
          assert Prepend(words, r) == r;
          return;
        case Body(Ok(ws)) =>
          PrependPrepend(words, ws, Scan(ks[i + 1..], true));
          words := words + ws;
      }
    }
    assert ks[|lines|..] == [];
    assert words + [] == words;
    r := Ok(words);
  }

  /** `write_hex` applied to the parsed words. */
  method CoeToHexText(lines: seq<string>) returns (r: Result<string, ParseError>)
    ensures r.Err? <==> CoeWords(lines).Err?
    ensures r.Err? ==> r.error == CoeWords(lines).error
    ensures r.Ok? ==> r.value == JoinLines(CoeWords(lines).value)
  {
    var words := ParseCoeLines(lines);
    if words.Err? {
      return Err(words.error);
    }
    var text := WriteHex(words.value);
    return Ok(text);
  }

  /** Nothing before the first token line is looked at, and the token line itself is skipped. */
  lemma PreambleSkipped(pre: seq<string>, h: string, post: seq<string>)
    requires forall j :: 0 <= j < |pre| ==> !StartsWith(Strip(pre[j]), VECTOR_TOKEN)
    requires StartsWith(Strip(h), VECTOR_TOKEN)
    ensures CoeWords(pre + [h] + post) == Scan(Kinds(post, VectorWord), true)
  {
    var kp := Kinds(pre, VectorWord);
    KindsAppend(pre + [h], post, VectorWord);
    KindsAppend(pre, [h], VectorWord);
    assert Kinds([h], VectorWord) == [VectorStart];
    assert forall j :: 0 <= j < |kp| ==> !kp[j].VectorStart?;
    ScanPreamble(kp, Kinds(post, VectorWord));
  }

  /** A file without a token line has no vector, so it yields no words. */
  lemma NoVectorNoWords(lines: seq<string>)
    requires forall j :: 0 <= j < |lines| ==> !StartsWith(Strip(lines[j]), VECTOR_TOKEN)
    ensures CoeWords(lines) == Ok([])
  {
    ScanNoVector(Kinds(lines, VectorWord));
  }

  /** The parse aborts at the first bad word: whatever follows it is never read. */
  lemma ErrorIsFinal(a: seq<string>, b: seq<string>)
    requires CoeWords(a).Err?
    ensures CoeWords(a + b) == CoeWords(a)
  {
    KindsAppend(a, b, VectorWord);
    ScanErrorFinal(Kinds(a, VectorWord), Kinds(b, VectorWord), false);
  }

  /**
   * Any line whose cleaned form is the non-blank `w`: whitespace `pre`, the
   * word, whitespace `post`, then any mix of `,` and `;`. The spaces inside
   * `w` are dropped, and the rest must be a hex numeral; otherwise the error
   * reports `w` as it stood before the spaces were dropped.
   */
  lemma VectorWordText(pre: string, w: string, post: string, delims: string)
    requires w != [] && IsStripped(w)
    requires forall i :: 0 <= i < |pre| ==> pre[i] in WHITESPACE
    requires forall i :: 0 <= i < |post| ==> post[i] in WHITESPACE
    requires post == [] ==> w[|w| - 1] !in DELIMITERS
    requires forall i :: 0 <= i < |delims| ==> delims[i] in DELIMITERS
    ensures IsHexNumeral(Remove(w, ' ')) ==> VectorWord(pre + w + post + delims) == Ok([Remove(w, ' ')])
    ensures !IsHexNumeral(Remove(w, ' ')) ==> VectorWord(pre + w + post + delims) == Err(InvalidHexWord(w))
  {
    CleanedLine(pre, w, post, delims);
  }

  lemma CleanedLine(pre: string, w: string, post: string, delims: string)
    requires w != [] && IsStripped(w)
    requires forall i :: 0 <= i < |pre| ==> pre[i] in WHITESPACE
    requires forall i :: 0 <= i < |post| ==> post[i] in WHITESPACE
    requires post == [] ==> w[|w| - 1] !in DELIMITERS
    requires forall i :: 0 <= i < |delims| ==> delims[i] in DELIMITERS
    ensures Strip(RStrip(pre + w + post + delims, DELIMITERS)) == w
  {
    var t := pre + w + post;
    assert t[|t| - 1] !in DELIMITERS by {
      if post != [] {
        assert t[|t| - 1] == post[|post| - 1] && post[|post| - 1] in WHITESPACE;
      } else {
        assert t[|t| - 1] == w[|w| - 1];
      }
    }
    RStripSuffix(t, delims, DELIMITERS);
    assert t + delims == pre + w + post + delims;
    StripPadded(pre, w, post, WHITESPACE);
  }

  /** A line of whitespace and delimiters only holds no word. */
  lemma VectorWordBlank(pre: string, delims: string)
    requires forall i :: 0 <= i < |pre| ==> pre[i] in WHITESPACE
    requires forall i :: 0 <= i < |delims| ==> delims[i] in DELIMITERS
    ensures VectorWord(pre + delims) == Ok([])
  {
    if pre == [] {
      assert pre + delims == [] + delims;
      RStripSuffix([], delims, DELIMITERS);
    } else {
      RStripSuffix(pre, delims, DELIMITERS);
      StripPadded(pre, [], [], WHITESPACE);
      assert pre + [] + [] == pre;
    }
  }

  /**
   * A hex numeral followed by any mix of `,` and `;` is read back verbatim:
   * case and length are kept.
   */
  lemma VectorWordOf(w: string, delims: string)
    requires IsHexNumeral(w)
    requires forall i :: 0 <= i < |delims| ==> delims[i] in DELIMITERS
    ensures VectorWord(w + delims) == Ok([w])
  {
    assert forall i :: 0 <= i < |w| ==> IsHexDigit(w[i]);
    assert ' ' !in w;
    assert IsStripped(w) && w[|w| - 1] !in DELIMITERS by {
      assert IsHexDigit(w[0]) && IsHexDigit(w[|w| - 1]);
    }
    VectorWordText([], w, [], delims);
    assert [] + w + [] + delims == w + delims;
  }

  /** Each word as a one-word item, so that the flattened items are the words again. */
  function Singletons(ws: seq<string>): (xss: seq<seq<string>>)
    ensures |xss| == |ws|
  {
    seq(|ws|, i requires 0 <= i < |ws| => [ws[i]])
  }

  lemma {:induction false} FlattenSingletons(ws: seq<string>)
    ensures Flatten(Singletons(ws)) == ws
    decreases |ws|
  {
    if ws != [] {
      assert Singletons(ws)[1..] == Singletons(ws[1..]);
      FlattenSingletons(ws[1..]);
      assert [ws[0]] + ws[1..] == ws;
    }
  }

  /** Inside the vector, a written word line yields its word. */
  lemma KindOfWordLine(w: string, last: bool)
    requires IsHexNumeral(w)
    ensures Kind(WordLine(w, last), VectorWord) == Body(Ok([w]))
  {
    WordLineStripped(w, last);
    VectorWordOf(w, if last then ";" else ",");
  }

  /** The radix line is a body line before the vector; the vector line opens it. */
  lemma HeaderKinds()
    ensures Kind(RADIX_LINE, VectorWord).Body?
    ensures Kind(VECTOR_LINE, VectorWord) == VectorStart
  {
    HeaderLines();
  }

  lemma KindOfCoeLine(ws: seq<string>, i: nat)
    requires i < |ws| && IsHexNumeral(ws[i])
    ensures Kinds(CoeLines(ws), VectorWord)[i + 2] == Body(Ok(Singletons(ws)[i]))
  {
    assert CoeLines(ws)[i + 2] == WordLine(ws[i], i == |ws| - 1);
    KindOfWordLine(ws[i], i == |ws| - 1);
  }

  /** The word lines `write_coe` writes are body lines holding exactly their words. */
  lemma WordKinds(ws: seq<string>)
    requires forall i :: 0 <= i < |ws| ==> IsHexNumeral(ws[i])
    ensures forall i :: 0 <= i < |ws| ==> Kinds(CoeLines(ws), VectorWord)[i + 2] == Body(Ok(Singletons(ws)[i]))
  {
    forall i | 0 <= i < |ws| {
      KindOfCoeLine(ws, i);
    }
  }

  /** Parsing what `write_coe` wrote gives back its words unchanged. */
  lemma CoeRoundTrip(ws: seq<string>)
    requires forall i :: 0 <= i < |ws| ==> IsHexNumeral(ws[i])
    ensures CoeWords(CoeLines(ws)) == Ok(ws)
  {
    var ks := Kinds(CoeLines(ws), VectorWord);
    assert Scan(ks, false) == Scan(ks[2..], true) by {
      CoeLinesLayout(ws);
      HeaderKinds();
      ScanHeader(ks);
    }
    assert Scan(ks[2..], true) == Ok(Flatten(Singletons(ws))) by {
      WordKinds(ws);
      ScanBodies(ks[2..], Singletons(ws));
    }
    FlattenSingletons(ws);
  }

  /** Reading a written COE file line by line gives back its words unchanged. */
  lemma CoeTextRoundTrip(ws: seq<string>)
    requires forall i :: 0 <= i < |ws| ==> IsHexNumeral(ws[i])
    ensures CoeWords(SplitLines(CoeText(ws))) == Ok(ws)
  {
    assert forall i :: 0 <= i < |ws| ==> IsHex(ws[i]);
    CoeLinesSingle(ws);
    SplitJoin(CoeLines(ws));
    KindsNewlines(CoeLines(ws), VectorWord);
    CoeRoundTrip(ws);
  }
}
