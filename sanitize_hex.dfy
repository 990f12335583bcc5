/**
 * `sanitize_hex`: every line has its trailing `\r`/`\n` removed and is then
 * stripped. A line that is a 32-character hex word is kept as stripped,
 * any other non-blank line becomes the all-zero word, and blank lines are
 * dropped; the result is written one word per line.
 */
module SanitizeHex {
  import opened Wrappers
  import opened Text
  import opened WordCodec
  import opened Packer
  import opened HexLines
  import HexToCoe
  import HexToImage

  const LINE_ENDS: set<char> := {'\r', '\n'}

  /** The replacement for an invalid word: 32 zeros, so that the word count is preserved. */
  const ZERO_WORD: string := "00000000000000000000000000000000"

  /** `"0" * n` */
  function ZeroDigits(n: nat): (z: string)
    ensures |z| == n && forall i :: 0 <= i < n ==> z[i] == '0'
  {
    if n == 0 then "" else "0" + ZeroDigits(n - 1)
  }

  /** `[ln.rstrip("\r\n") for ln in f]` */
  function Chomped(raw: seq<string>): (ls: seq<string>)
    ensures |ls| == |raw|
  {
    seq(|raw|, i requires 0 <= i < |raw| => RStrip(raw[i], LINE_ENDS))
  }

  /** What the cleaning loop appends for one line. */
  function Fix(line: string): (c: seq<string>)
    ensures |c| <= 1
  {
    var s := Strip(line);
    if IsWord(s) then [s]
    else if s != [] then [ZERO_WORD]
    else []
  }

  /** The words the cleaning loop collects from `lines`. */
  function Clean(lines: seq<string>): seq<string>
    decreases |lines|
  {
    if lines == [] then [] else Fix(lines[0]) + Clean(lines[1..])
  }

  /** The words `sanitize` writes for a file given as its lines. */
  function Sanitized(raw: seq<string>): seq<string>
  {
    Clean(Chomped(raw))
  }

  /** `sanitize`: chomp every line, run the cleaning loop, then write one word per line. */
  method Sanitize(raw: seq<string>) returns (text: string)
    ensures text == JoinLines(Sanitized(raw))
  {
    var lines := Chomped(raw);
    var clean := CleanLines(lines);
    text := WriteHex(clean);
  }

  /** The cleaning loop over the chomped lines. */
  method CleanLines(lines: seq<string>) returns (clean: seq<string>)
    ensures clean == Clean(lines)
  {
    clean := [];
    for i := 0 to |lines|
      invariant clean + Clean(lines[i..]) == Clean(lines)
    {
      var add := FixLine(lines[i]);
      CleanStep(lines, i, clean, add);
      clean := clean + add;
    }
    assert lines[|lines|..] == [];
  }

  /** One turn of the cleaning loop keeps its invariant. */
  lemma CleanStep(lines: seq<string>, i: nat, clean: seq<string>, add: seq<string>)
    requires i < |lines| && add == Fix(lines[i])
    requires clean + Clean(lines[i..]) == Clean(lines)
    ensures clean + add + Clean(lines[i + 1..]) == Clean(lines)
  {
    var rest := lines[i..];
    assert rest[0] == lines[i] && rest[1..] == lines[i + 1..];
    CleanCons(rest);
    AppendAssoc(clean, add, Clean(lines[i + 1..]));
  }


  lemma CleanCons(lines: seq<string>)
    requires lines != []
    ensures Clean(lines) == Fix(lines[0]) + Clean(lines[1..])
  {
  }

  /** The body of the cleaning loop: keep a valid word, zero a non-blank line, drop a blank one. */
  method FixLine(line: string) returns (add: seq<string>)
    ensures add == Fix(line)
  {
    var s := Strip(line);
    if |s| == 32 && IsHex(s) {
      add := [s];
    } else if s != [] {
      add := [ZERO_WORD];
    } else {
      add := [];
    }
  }

  /** A run of `0` digits of even length decodes to zero bytes. */
  lemma {:induction false} DecodeZeros(s: string)
    requires |s| % 2 == 0 && forall i :: 0 <= i < |s| ==> s[i] == '0'
    ensures IsEvenHex(s) && DecodeHex(s) == Zeros(|s| / 2)
    decreases |s|
  {
    if s != [] {
      DecodeZeros(s[2..]);
      assert Zeros(|s| / 2) == [0] + Zeros(|s[2..]| / 2);
    }
  }

  /** `ZERO_WORD` is itself a valid word. */
  lemma ZeroWordValid()
    ensures IsWord(ZERO_WORD)
  {
    assert forall i :: 0 <= i < |ZERO_WORD| ==> IsHexDigit(ZERO_WORD[i]);
  }

  /** `ZERO_WORD` stands for sixteen zero bytes. */
  lemma ZeroWordBytes()
    ensures IsEvenHex(ZERO_WORD) && DecodeHex(ZERO_WORD) == Zeros(16)
  {
    assert ZERO_WORD == ZeroDigits(32);
    DecodeZeros(ZERO_WORD);
  }

  /** A loaded word as the cleaning loop leaves it: kept when valid, zeroed when not. */
  function Repair(w: string): (r: string)
    ensures IsWord(w) ==> r == w
    ensures !IsWord(w) ==> r == ZERO_WORD
  {
    if IsWord(w) then w else ZERO_WORD
  }

  function Repaired(ws: seq<string>): (rs: seq<string>)
    ensures |rs| == |ws|
  {
    seq(|ws|, i requires 0 <= i < |ws| => Repair(ws[i]))
  }

  lemma RepairedAppend(a: seq<string>, b: seq<string>)
    ensures Repaired(a + b) == Repaired(a) + Repaired(b)
  {
    var l, r := Repaired(a + b), Repaired(a) + Repaired(b);
    forall i | 0 <= i < |l|
      ensures l[i] == r[i]
    {
      assert (a + b)[i] == if i < |a| then a[i] else b[i - |a|];
    }
  }

  /** Removing the line ending first does not change what `strip()` makes of a line. */
  lemma ChompStrip(line: string)
    ensures Strip(RStrip(line, LINE_ENDS)) == Strip(line)
  {
    RStripAbsorbs(line, LINE_ENDS, WHITESPACE);
  }

  /** One line: what the loop appends is the repaired form of what loading keeps. */
  lemma FixKept(line: string)
    ensures Fix(RStrip(line, LINE_ENDS)) == Repaired(Kept(line))
  {
    ChompStrip(line);
    FixRepaired(RStrip(line, LINE_ENDS), line);
  }

  lemma FixRepaired(a: string, b: string)
    requires Strip(a) == Strip(b)
    ensures Fix(a) == Repaired(Kept(b))
  {
    var s := Strip(b);
    assert Fix(a) == if IsWord(s) then [s] else if s != [] then [ZERO_WORD] else [];
    assert Kept(b) == if s != [] then [s] else [];
    if s != [] {
      assert Repaired([s]) == [Repair(s)];
    }
  }

  /**
   * Sanitizing is loading followed by repairing each word: the words stay in
   * order, valid words are kept and invalid ones zeroed.
   */
  lemma {:induction false} SanitizedIsRepaired(raw: seq<string>)
    ensures Sanitized(raw) == Repaired(LoadHex(raw))
    decreases |raw|
  {
    if raw != [] {
      assert Chomped(raw)[0] == RStrip(raw[0], LINE_ENDS);
      assert Chomped(raw)[1..] == Chomped(raw[1..]);
      FixKept(raw[0]);
      SanitizedIsRepaired(raw[1..]);
      RepairedAppend(Kept(raw[0]), LoadHex(raw[1..]));
    }
  }

  /** One output word per non-blank input line, each a valid word: the repair keeps the count. */
  lemma Counted(raw: seq<string>)
    ensures |Sanitized(raw)| == NonBlank(raw)
    ensures forall i :: 0 <= i < |Sanitized(raw)| ==> IsWord(Sanitized(raw)[i])
  {
    SanitizedIsRepaired(raw);
    LoadHexCount(raw);
    ZeroWordValid();
  }

  /** Word `i` of the output is word `i` of the loaded input when that is valid, and zeros otherwise. */
  lemma Positions(raw: seq<string>, i: nat)
    requires i < |LoadHex(raw)|
    ensures i < |Sanitized(raw)|
    ensures IsWord(LoadHex(raw)[i]) ==> Sanitized(raw)[i] == LoadHex(raw)[i]
    ensures !IsWord(LoadHex(raw)[i]) ==> Sanitized(raw)[i] == ZERO_WORD
  {
    SanitizedIsRepaired(raw);
  }

  /** A file whose words are all valid comes out as its loaded words. */
  lemma ValidUnchanged(raw: seq<string>)
    requires forall j :: 0 <= j < |LoadHex(raw)| ==> IsWord(LoadHex(raw)[j])
    ensures Sanitized(raw) == LoadHex(raw)
  {
    SanitizedIsRepaired(raw);
  }

  /** Sanitizing the written output again reproduces it. */
  lemma Idempotent(raw: seq<string>)
    ensures Sanitized(SplitLines(JoinLines(Sanitized(raw)))) == Sanitized(raw)
  {
    var ws := Sanitized(raw);
    Counted(raw);
    assert forall w :: w in ws ==> IsWord(w);
    WordsRoundTrip(ws);
    ValidUnchanged(SplitLines(JoinLines(ws)));
  }

  /** The written output is accepted by the strict converters that read HEX files. */
  lemma Accepted(raw: seq<string>, width: int, height: int)
    ensures HexToCoe.HexCoe(SplitLines(JoinLines(Sanitized(raw)))).Ok?
    ensures HexToImage.HexImage(SplitLines(JoinLines(Sanitized(raw))), width, height).Ok?
  {
    var ws := Sanitized(raw);
    Counted(raw);
    assert forall w :: w in ws ==> IsWord(w);
    WordsRoundTrip(ws);
  }
}
