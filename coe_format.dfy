/**
 * The COE container as the tools write it: a radix line, the vector line,
 * then one word per line indented by two spaces, `,` after every word but the
 * last, which gets `;`.
 */
module CoeFormat {
  import opened Text
  import opened WordCodec

  const RADIX_LINE: string := "memory_initialization_radix=16;"
  const VECTOR_LINE: string := "memory_initialization_vector="

  /** Both parsers start the vector at the first line beginning with this. */
  const VECTOR_TOKEN: string := "memory_initialization_vector"

  /** The line written for one word. */
  function WordLine(w: string, last: bool): string
  {
    "  " + w + (if last then ";" else ",")
  }

  /** The lines of a COE file holding `words`, without their newlines. */
  function CoeLines(words: seq<string>): (ls: seq<string>)
    ensures |ls| == |words| + 2
  {
    [RADIX_LINE, VECTOR_LINE]
    + seq(|words|, i requires 0 <= i < |words| => WordLine(words[i], i == |words| - 1))
  }

  /** The text of that file. */
  function CoeText(words: seq<string>): string
  {
    JoinLines(CoeLines(words))
  }

  lemma JoinHeader()
    ensures JoinLines([RADIX_LINE, VECTOR_LINE]) == RADIX_LINE + "\n" + VECTOR_LINE + "\n"
  {
    assert [RADIX_LINE, VECTOR_LINE][1..] == [VECTOR_LINE];
    assert [VECTOR_LINE][1..] == [];
    assert JoinLines([VECTOR_LINE]) == VECTOR_LINE + "\n" + "";
    assert JoinLines([RADIX_LINE, VECTOR_LINE]) == RADIX_LINE + "\n" + (VECTOR_LINE + "\n" + "");
  }

  /** The two header lines come first; then word `i` on line `i + 2`, `;` only on the last. */
  lemma CoeLinesLayout(words: seq<string>)
    ensures CoeLines(words)[0] == RADIX_LINE && CoeLines(words)[1] == VECTOR_LINE
    ensures forall i :: 0 <= i < |words| - 1 ==> CoeLines(words)[i + 2] == "  " + words[i] + ","
    ensures |words| > 0 ==> CoeLines(words)[|words| + 1] == "  " + words[|words| - 1] + ";"
    ensures words == [] ==> CoeText(words) == RADIX_LINE + "\n" + VECTOR_LINE + "\n"
  {
    if words == [] {
      assert CoeLines(words) == [RADIX_LINE, VECTOR_LINE];
      JoinHeader();
    }
  }

  /** `write_coe`: the header, then the word loop choosing `,` or `;` by index. */
  method WriteCoe(words: seq<string>) returns (text: string)
    ensures text == CoeText(words)
  {
    ghost var lines := CoeLines(words);
    text := RADIX_LINE + "\n" + VECTOR_LINE + "\n";
    assert lines[..2] == [RADIX_LINE, VECTOR_LINE];
    JoinHeader();
    var i := 0;
    while i < |words|
      invariant 0 <= i <= |words|
      invariant text == JoinLines(lines[..i + 2])
    {
      var sep := if i == |words| - 1 then ";" else ",";
      var line := "  " + words[i] + sep;
      assert lines[..i + 3] == lines[..i + 2] + [line];
      JoinLinesAppend(lines[..i + 2], line);
      text := text + line + "\n";
      i := i + 1;
    }
    assert lines[..|words| + 2] == lines;
  }

  /** How the parsers see the header lines: neither is blank, and only the second opens the vector. */
  lemma HeaderLines()
    ensures Strip(RADIX_LINE) == RADIX_LINE && RADIX_LINE != ""
    ensures !StartsWith(RADIX_LINE, VECTOR_TOKEN)
    ensures Strip(VECTOR_LINE) == VECTOR_LINE && StartsWith(VECTOR_LINE, VECTOR_TOKEN)
  {
    StripStripped(RADIX_LINE, WHITESPACE);
    StripStripped(VECTOR_LINE, WHITESPACE);
    assert RADIX_LINE[22] != VECTOR_TOKEN[22];
    assert VECTOR_LINE[..|VECTOR_TOKEN|] == VECTOR_TOKEN;
  }

  /** How the parsers see a word line: its stripped form is the word and its delimiter. */
  lemma WordLineStripped(w: string, last: bool)
    requires IsHex(w)
    ensures Strip(WordLine(w, last)) == w + (if last then ";" else ",")
    ensures !StartsWith(w + (if last then ";" else ","), VECTOR_TOKEN)
  {
    var t := w + (if last then ";" else ",");
    assert WordLine(w, last) == "  " + t + "";
    assert t[0] != 'm' && VECTOR_TOKEN[0] == 'm';
    StripPadded("  ", t, "", WHITESPACE);
  }

  /** A word line holds no line break (`\n`, `\r`) of its own. */
  lemma WordLineSingle(w: string, last: bool)
    requires IsHex(w)
    ensures '\n' !in WordLine(w, last) && '\r' !in WordLine(w, last)
  {
    var l := WordLine(w, last);
    forall k | 0 <= k < |l|
      ensures l[k] != '\n' && l[k] != '\r'
    {
      if 2 <= k < |w| + 2 {
        assert l[k] == w[k - 2];
      }
    }
  }

  lemma HeaderSingle()
    ensures '\n' !in RADIX_LINE && '\n' !in VECTOR_LINE
    ensures '\r' !in RADIX_LINE && '\r' !in VECTOR_LINE
  {
    RadixSingle();
    VectorSingle();
  }

  lemma RadixSingle()
    ensures '\n' !in RADIX_LINE && '\r' !in RADIX_LINE
  {
  }

  lemma VectorSingle()
    ensures '\n' !in VECTOR_LINE && '\r' !in VECTOR_LINE
  {
  }

  /** No line of a written COE file holds a line break of its own. */
  lemma CoeLinesSingle(ws: seq<string>)
    requires forall i :: 0 <= i < |ws| ==> IsHex(ws[i])
    ensures forall j :: 0 <= j < |CoeLines(ws)| ==> '\n' !in CoeLines(ws)[j] && '\r' !in CoeLines(ws)[j]
  {
    var lines := CoeLines(ws);
    HeaderSingle();
    forall j | 0 <= j < |lines|
      ensures '\n' !in lines[j] && '\r' !in lines[j]
    {
      if j >= 2 {
        var i := j - 2;
        WordLineSingle(ws[i], i == |ws| - 1);
      }
    }
  }
}
