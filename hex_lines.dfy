/**
 * HEX word files: one word per line. Reading keeps the stripped form of every
 * non-blank line (`load_hex` and the comprehensions that copy it); writing
 * puts each word on its own line (`write_hex` and the write loops that copy it).
 */
module HexLines {
  import opened Wrappers
  import opened Text
  import opened WordCodec

  /** `[ln.strip() for ln in f if ln.strip()]` */
  function LoadHex(lines: seq<string>): (ws: seq<string>)
    ensures |ws| <= |lines|
    decreases |lines|
  {
    if lines == [] then [] else Kept(lines[0]) + LoadHex(lines[1..])
  }

  /** The contribution of one line: its stripped form, or nothing when it is blank. */
  function Kept(line: string): (k: seq<string>)
    ensures |k| <= 1
  {
    var s := Strip(line);
    if s != [] then [s] else []
  }

  /** What a loaded word looks like: non-empty, with no whitespace at either end. */
  predicate IsLoaded(w: string)
  {
    w != [] && IsStripped(w)
  }

  /** Every loaded word is a non-blank line with its surrounding whitespace removed. */
  lemma {:induction false} LoadHexWords(lines: seq<string>)
    ensures forall w :: w in LoadHex(lines) ==> IsLoaded(w)
    decreases |lines|
  {
    if lines != [] {
      LoadHexWords(lines[1..]);
    }
  }

  /** Loading is line by line, so it distributes over concatenation. */
  lemma {:induction false} LoadHexAppend(a: seq<string>, b: seq<string>)
    ensures LoadHex(a + b) == LoadHex(a) + LoadHex(b)
    decreases |a|
  {
    if a == [] {
      assert a + b == b;
    } else {
      ConsAppend(a, b);
      LoadHexAppend(a[1..], b);
    }
  }

  /** The number of lines that are not blank. */
  function NonBlank(lines: seq<string>): nat
  {
    if lines == [] then 0 else (if Strip(lines[0]) != [] then 1 else 0) + NonBlank(lines[1..])
  }

  /** One loaded word per non-blank line: blank lines are dropped and no other. */
  lemma {:induction false} LoadHexCount(lines: seq<string>)
    ensures |LoadHex(lines)| == NonBlank(lines)
    decreases |lines|
  {
    if lines != [] {
      LoadHexCount(lines[1..]);
    }
  }

  /** Loading already loaded words changes nothing. */
  lemma {:induction false} LoadHexLoaded(ws: seq<string>)
    requires forall w :: w in ws ==> IsLoaded(w)
    ensures LoadHex(ws) == ws
    decreases |ws|
  {
    if ws != [] {
      assert IsLoaded(ws[0]);
      StripStripped(ws[0], WHITESPACE);
      LoadHexLoaded(ws[1..]);
    }
  }

  lemma LoadHexIdempotent(lines: seq<string>)
    ensures LoadHex(LoadHex(lines)) == LoadHex(lines)
  {
    LoadHexWords(lines);
    LoadHexLoaded(LoadHex(lines));
  }

  /** Each line read back from a file keeps its newline; loading drops it again. */
  lemma {:induction false} LoadHexNewlines(ls: seq<string>)
    ensures LoadHex(Terminated(ls)) == LoadHex(ls)
    decreases |ls|
  {
    if ls != [] {
      TerminatedCons(ls);
      KeptNewline(ls[0]);
      LoadHexNewlines(ls[1..]);
    }
  }

  lemma KeptNewline(line: string)
    ensures Kept(line + "\n") == Kept(line)
  {
    StripNewline(line);
  }

  /** `write_hex`: every word followed by `\n`, in order. */
  method WriteHex(words: seq<string>) returns (text: string)
    ensures text == JoinLines(words)
  {
    text := "";
    var i := 0;
    while i < |words|
      invariant 0 <= i <= |words|
      invariant text == JoinLines(words[..i])
    {
      assert words[..i + 1] == words[..i] + [words[i]];
      JoinLinesAppend(words[..i], words[i]);
      text := text + words[i] + "\n";
      i := i + 1;
    }
    assert words[..|words|] == words;
  }

  /** Words that are loaded forms without line breaks (`\n`, `\r`) survive writing and loading back. */
  lemma HexRoundTrip(ws: seq<string>)
    requires forall w :: w in ws ==> IsLoaded(w) && '\n' !in w && '\r' !in w
    ensures LoadHex(SplitLines(JoinLines(ws))) == ws
  {
    assert forall j :: 0 <= j < |ws| ==> ws[j] in ws;
    SplitJoin(ws);
    LoadHexNewlines(ws);
    LoadHexLoaded(ws);
  }

  /** A strict word is a loaded form without a line break. */
  lemma WordIsLoaded(w: string)
    requires IsWord(w)
    ensures IsLoaded(w) && '\n' !in w && '\r' !in w
  {
    assert !IsSpace(w[0]) && !IsSpace(w[31]);
    assert forall i :: 0 <= i < |w| ==> w[i] != '\n' && w[i] != '\r';
  }

  /** 32-character hex words survive writing and loading back. */
  lemma WordsRoundTrip(ws: seq<string>)
    requires forall w :: w in ws ==> IsWord(w)
    ensures LoadHex(SplitLines(JoinLines(ws))) == ws
  {
    forall w | w in ws
      ensures IsLoaded(w) && '\n' !in w && '\r' !in w
    {
      WordIsLoaded(w);
    }
    HexRoundTrip(ws);
  }

  /** The index of the first word that is not 32 hex characters, if any. */
  function FirstBadWord(ws: seq<string>): (k: Option<nat>)
    ensures k.None? <==> forall j :: 0 <= j < |ws| ==> IsWord(ws[j])
    ensures k.Some? ==> k.value < |ws| && !IsWord(ws[k.value])
    ensures k.Some? ==> forall j :: 0 <= j < k.value ==> IsWord(ws[j])
    decreases |ws|
  {
    if ws == [] then None
    else if !IsWord(ws[0]) then Some(0)
    else match FirstBadWord(ws[1..])
      case None => None
      case Some(k) => Some(k + 1)
  }
}
