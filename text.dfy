/**
 * The pieces of Python's `str` and `bytes` behaviour the converters rely on:
 * `strip`/`rstrip`, `startswith`, `replace(' ', '')`, `lower()`, `split()`,
 * `int(...)` on decimal text, `f"{n}"` on an int, and reading a text file
 * line by line with universal newlines.
 */
module Text {
  import opened Wrappers

  /** Whitespace to `bytes.strip()`, `bytes.split()` and `int()` on bytes: space and `\t` to `\r`. */
  predicate IsAsciiSpace(c: char)
  {
    c == ' ' || '\t' <= c <= '\r'
  }

  /**
   * Whitespace to `str.strip()`: the ASCII six, the separators `\x1c`-`\x1f`,
   * and the Unicode spaces `str.isspace()` accepts.
   */
  predicate IsSpace(c: char)
  {
    IsAsciiSpace(c) || '\U{001C}' <= c <= '\U{001F}' || c == '\U{0085}' || c == '\U{00A0}'
    || c == '\U{1680}' || '\U{2000}' <= c <= '\U{200A}' || c == '\U{2028}' || c == '\U{2029}'
    || c == '\U{202F}' || c == '\U{205F}' || c == '\U{3000}'
  }

  const ASCII_WHITESPACE: set<char> := set c: char | IsAsciiSpace(c)

  const WHITESPACE: set<char> := set c: char | IsSpace(c)

  /** `s.rstrip(cs)`: drop every trailing character that is in `cs`. */
  function RStrip(s: string, cs: set<char>): (r: string)
    ensures |r| <= |s| && r == s[..|r|]
    ensures r == [] || r[|r| - 1] !in cs
    ensures forall i :: |r| <= i < |s| ==> s[i] in cs
    decreases |s|
  {
    if |s| > 0 && s[|s| - 1] in cs then RStrip(s[..|s| - 1], cs) else s
  }

  /** `s.lstrip(cs)`: drop every leading character that is in `cs`. */
  function LStrip(s: string, cs: set<char>): (r: string)
    ensures |r| <= |s| && r == s[|s| - |r|..]
    ensures r == [] || r[0] !in cs
    ensures forall i :: 0 <= i < |s| - |r| ==> s[i] in cs
    decreases |s|
  {
    if |s| > 0 && s[0] in cs then LStrip(s[1..], cs) else s
  }

  /** A string that stripping `cs` leaves alone: no character of `cs` at either end. */
  predicate IsStrippedOf(s: string, cs: set<char>)
  {
    s == [] || (s[0] !in cs && s[|s| - 1] !in cs)
  }

  /**
   * `s.strip(cs)`: the part of `s` left when every leading and trailing
   * character of `cs` is removed; `StripOfRemoves` states what is removed.
   */
  function StripOf(s: string, cs: set<char>): (r: string)
    ensures IsStrippedOf(r, cs)
    ensures |r| <= |s|
  {
    LStrip(RStrip(s, cs), cs)
  }

  /** What stripping removes is all in `cs`, and what is left is a slice of `s`. */
  lemma StripOfRemoves(s: string, cs: set<char>)
    ensures exists i :: (0 <= i <= |s| - |StripOf(s, cs)| && StripOf(s, cs) == s[i..][..|StripOf(s, cs)|]
                         && (forall j :: 0 <= j < i ==> s[j] in cs)
                         && (forall j :: i + |StripOf(s, cs)| <= j < |s| ==> s[j] in cs))
  {
    var t := RStrip(s, cs);
    var r := LStrip(t, cs);
    assert r != [] ==> t != [] && r[|r| - 1] == t[|t| - 1];
    var i := |t| - |r|;
    assert r == s[i..][..|r|] && i + |r| == |t|;
    assert forall j :: 0 <= j < i ==> s[j] == t[j] && t[j] in cs;
    assert forall j :: i + |r| <= j < |s| ==> s[j] in cs;
  }

  /** A string that `str.strip()` leaves alone. */
  predicate IsStripped(s: string)
  {
    IsStrippedOf(s, WHITESPACE)
  }

  /** `s.strip()` on a `str`. */
  function Strip(s: string): (r: string)
    ensures IsStripped(r)
    ensures |r| <= |s|
  {
    StripOf(s, WHITESPACE)
  }

  /** `b.strip()` on `bytes`, read as text. */
  function BytesStrip(s: string): (r: string)
    ensures IsStrippedOf(r, ASCII_WHITESPACE)
    ensures |r| <= |s|
  {
    StripOf(s, ASCII_WHITESPACE)
  }

  lemma RStripNoop(s: string, cs: set<char>)
    requires s == [] || s[|s| - 1] !in cs
    ensures RStrip(s, cs) == s
  {
  }

  lemma LStripNoop(s: string, cs: set<char>)
    requires s == [] || s[0] !in cs
    ensures LStrip(s, cs) == s
  {
  }

  lemma {:induction false} RStripSuffix(s: string, sfx: string, cs: set<char>)
    requires s == [] || s[|s| - 1] !in cs
    requires forall i :: 0 <= i < |sfx| ==> sfx[i] in cs
    ensures RStrip(s + sfx, cs) == s
    decreases |sfx|
  {
    if sfx == [] {
      assert s + sfx == s;
    } else {
      var t := s + sfx;
      assert t[..|t| - 1] == s + sfx[..|sfx| - 1];
      RStripSuffix(s, sfx[..|sfx| - 1], cs);
    }
  }

  lemma {:induction false} LStripPrefix(pre: string, s: string, cs: set<char>)
    requires s == [] || s[0] !in cs
    requires forall i :: 0 <= i < |pre| ==> pre[i] in cs
    ensures LStrip(pre + s, cs) == s
    decreases |pre|
  {
    if pre == [] {
      assert pre + s == s;
    } else {
      assert (pre + s)[1..] == pre[1..] + s;
      LStripPrefix(pre[1..], s, cs);
    }
  }

  /** Characters of `cs` around a string already stripped of them are exactly what stripping removes. */
  lemma StripPadded(pre: string, s: string, post: string, cs: set<char>)
    requires IsStrippedOf(s, cs)
    requires forall i :: 0 <= i < |pre| ==> pre[i] in cs
    requires forall i :: 0 <= i < |post| ==> post[i] in cs
    ensures StripOf(pre + s + post, cs) == s
  {
    assert pre + s + post == pre + (s + post);
    if s == [] {
      assert pre + s + post == pre + post;
      assert forall i :: 0 <= i < |pre + post| ==> (pre + post)[i] in cs;
      RStripSuffix([], pre + post, cs);
      assert [] + (pre + post) == pre + post;
    } else {
      RStripSuffix(pre + s, post, cs);
      LStripPrefix(pre, s, cs);
    }
  }

  lemma StripStripped(s: string, cs: set<char>)
    requires IsStrippedOf(s, cs)
    ensures StripOf(s, cs) == s
  {
    StripPadded([], s, [], cs);
    assert [] + s + [] == s;
  }

  /** Removing more trailing characters afterwards subsumes removing fewer first. */
  lemma {:induction false} RStripAbsorbs(s: string, small: set<char>, big: set<char>)
    requires small <= big
    ensures RStrip(RStrip(s, small), big) == RStrip(s, big)
    decreases |s|
  {
    if |s| > 0 && s[|s| - 1] in small {
      RStripAbsorbs(s[..|s| - 1], small, big);
    }
  }

  /** The first element and the rest of a concatenation with a non-empty front. */
  lemma ConsAppend<T>(a: seq<T>, b: seq<T>)
    requires a != []
    ensures (a + b)[0] == a[0] && (a + b)[1..] == a[1..] + b
  {
  }

  lemma AppendAssoc<T>(a: seq<T>, b: seq<T>, c: seq<T>)
    ensures a + b + c == a + (b + c)
  {
  }

  /** `s.startswith(p)` */
  predicate StartsWith(s: string, p: string)
  {
    |p| <= |s| && s[..|p|] == p
  }

  /** `s.endswith(c)` for a one-character suffix. */
  predicate EndsWith(s: string, c: char)
  {
    |s| > 0 && s[|s| - 1] == c
  }

  /** `s.replace(c, '')`: every occurrence of `c` removed, the rest kept in order. */
  function Remove(s: string, c: char): (r: string)
    ensures c !in r
    ensures |r| <= |s|
    ensures forall x :: x != c ==> (x in r <==> x in s)
    ensures c !in s ==> r == s
  {
    if s == [] then []
    else if s[0] == c then Remove(s[1..], c)
    else [s[0]] + Remove(s[1..], c)
  }

  /** `c.lower()` on ASCII letters. */
  function LowerChar(c: char): char
  {
    if 'A' <= c <= 'Z' then (c as int + 32) as char else c
  }

  /** `s.lower()` on ASCII letters. */
  function Lower(s: string): (r: string)
    ensures |r| == |s|
  {
    seq(|s|, i requires 0 <= i < |s| => LowerChar(s[i]))
  }

  // ---------------------------------------------------------------- decimal numbers

  predicate IsDigit(c: char) { '0' <= c <= '9' }

  predicate IsDigits(s: string)
  {
    |s| > 0 && forall i :: 0 <= i < |s| ==> IsDigit(s[i])
  }

  function DigitChar(d: nat): (c: char)
    requires d < 10
    ensures IsDigit(c)
  {
    ('0' as int + d) as char
  }

  /** The decimal digits of `n`, most significant first, without leading zeros. */
  function NatDigits(n: nat): (s: string)
    ensures IsDigits(s)
    decreases n
  {
    if n < 10 then [DigitChar(n)] else NatDigits(n / 10) + [DigitChar(n % 10)]
  }

  /** `f"{n}"` for an int `n`. */
  function Decimal(n: int): (s: string)
    ensures |s| > 0 && (IsDigit(s[0]) || s[0] == '-')
    ensures IsDigit(s[|s| - 1])
    ensures forall i :: 0 <= i < |s| ==> s[i] == '-' || IsDigit(s[i])
  {
    if n < 0 then "-" + NatDigits(-n) else NatDigits(n)
  }

  function DigitsValue(s: string): nat
    requires forall i :: 0 <= i < |s| ==> IsDigit(s[i])
  {
    if s == [] then 0
    else DigitsValue(s[..|s| - 1]) * 10 + DigitValue(s[|s| - 1])
  }

  function DigitValue(c: char): (d: nat)
    requires IsDigit(c)
    ensures d < 10
  {
    (c as int - '0' as int) as nat
  }

  /** The text `int()` accepts once stripped: an optional sign and at least one decimal digit. */
  predicate IsIntText(t: string)
  {
    IsDigits(t) || (|t| > 1 && (t[0] == '-' || t[0] == '+') && IsDigits(t[1..]))
  }

  /**
   * `int(b)` on the bytes of a header field: surrounding whitespace, an
   * optional sign and at least one decimal digit; anything else is the
   * `ValueError` case, `None`.
   */
  function ParseInt(s: string): (r: Option<int>)
    ensures r.Some? <==> IsIntText(BytesStrip(s))
    ensures r.Some? && r.value < 0 ==> BytesStrip(s)[0] == '-'
  {
    var t := BytesStrip(s);
    if |t| > 0 && (t[0] == '-' || t[0] == '+') then
      if IsDigits(t[1..]) then
        Some(if t[0] == '-' then -(DigitsValue(t[1..]) as int) else DigitsValue(t[1..]))
      else None
    else if IsDigits(t) then Some(DigitsValue(t))
    else None
  }

  lemma {:induction false} NatDigitsValue(n: nat)
    ensures DigitsValue(NatDigits(n)) == n
    decreases n
  {
    if n >= 10 {
      var s := NatDigits(n / 10) + [DigitChar(n % 10)];
      assert s[..|s| - 1] == NatDigits(n / 10);
      NatDigitsValue(n / 10);
    }
  }

  lemma ParseDigits(s: string)
    requires IsDigits(s)
    ensures ParseInt(s) == Some(DigitsValue(s) as int)
  {
    StripStripped(s, ASCII_WHITESPACE);
    assert !(s[0] == '-' || s[0] == '+');
  }

  lemma ParseNegative(s: string)
    requires IsDigits(s)
    ensures ParseInt("-" + s) == Some(-(DigitsValue(s) as int))
  {
    var t := "-" + s;
    assert t[0] == '-' && t[|t| - 1] == s[|s| - 1];
    StripStripped(t, ASCII_WHITESPACE);
    assert t[1..] == s;
    assert IsDigits(t[1..]);
  }

  /** `int(f"{n}") == n`: the decimal text of every int reads back as that int. */
  lemma ParseDecimal(n: int)
    ensures ParseInt(Decimal(n)) == Some(n)
  {
    var d := NatDigits(if n < 0 then -n else n);
    NatDigitsValue(if n < 0 then -n else n);
    if n < 0 {
      assert Decimal(n) == "-" + d;
      ParseNegative(d);
    } else {
      assert Decimal(n) == d;
      ParseDigits(d);
    }
  }

  // ---------------------------------------------------------------- split()

  /** The length of the leading run of non-whitespace characters. */
  function TokenLength(s: string): (k: nat)
    ensures k <= |s|
    ensures forall i :: 0 <= i < k ==> !IsAsciiSpace(s[i])
    ensures k == |s| || IsAsciiSpace(s[k])
  {
    if s == [] || IsAsciiSpace(s[0]) then 0 else 1 + TokenLength(s[1..])
  }

  /** A field of `split()`: a non-empty run without whitespace. */
  predicate IsToken(s: string)
  {
    |s| > 0 && forall i :: 0 <= i < |s| ==> !IsAsciiSpace(s[i])
  }

  /**
   * `b.split()` on bytes read as text: the maximal runs of non-whitespace
   * characters, in order. Every field is a token, and there are none exactly
   * when the input is all whitespace.
   */
  function SplitWs(s: string): (r: seq<string>)
    ensures forall j :: 0 <= j < |r| ==> IsToken(r[j])
    ensures r == [] <==> forall i :: 0 <= i < |s| ==> IsAsciiSpace(s[i])
    decreases |s|
  {
    var t := LStrip(s, ASCII_WHITESPACE);
    if t == [] then []
    else
      var k := TokenLength(t);
      assert !IsAsciiSpace(t[0]);
      var rest := SplitWs(t[k..]);
      TokensCons(t[..k], rest);
      [t[..k]] + rest
  }

  /** A field of `split()` has no whitespace to strip. */
  lemma TokenStripped(t: string)
    requires IsToken(t)
    ensures BytesStrip(t) == t
  {
    assert !IsAsciiSpace(t[0]) && !IsAsciiSpace(t[|t| - 1]);
    StripStripped(t, ASCII_WHITESPACE);
  }

  lemma TokensCons(x: string, xs: seq<string>)
    requires IsToken(x)
    requires forall j :: 0 <= j < |xs| ==> IsToken(xs[j])
    ensures forall j :: 0 <= j < |[x] + xs| ==> IsToken(([x] + xs)[j])
  {
  }

  lemma {:induction false} TokenLengthOf(a: string, rest: string)
    requires forall i :: 0 <= i < |a| ==> !IsAsciiSpace(a[i])
    requires rest == [] || IsAsciiSpace(rest[0])
    ensures TokenLength(a + rest) == |a|
    decreases |a|
  {
    if a == [] {
      assert a + rest == rest;
    } else {
      assert (a + rest)[1..] == a[1..] + rest;
      TokenLengthOf(a[1..], rest);
    }
  }

  /** A token followed by whitespace and more text splits into that token and the fields of the rest. */
  lemma SplitToken(a: string, sep: string, b: string)
    requires IsToken(a)
    requires forall i :: 0 <= i < |sep| ==> IsAsciiSpace(sep[i])
    requires b == [] || !IsAsciiSpace(b[0])
    requires sep != [] || b == []
    ensures SplitWs(a + sep + b) == [a] + SplitWs(b)
  {
    AppendAssoc(a, sep, b);
    SplitHead(a, sep + b);
    SplitLeading(sep, b);
  }

  /** A token ended by whitespace or the end of the text is the first field. */
  lemma SplitHead(a: string, rest: string)
    requires IsToken(a)
    requires rest == [] || IsAsciiSpace(rest[0])
    ensures SplitWs(a + rest) == [a] + SplitWs(rest)
  {
    var s := a + rest;
    LStripNoop(s, ASCII_WHITESPACE);
    TokenLengthOf(a, rest);
    assert s[..|a|] == a && s[|a|..] == rest;
  }

  /** Leading whitespace makes no field. */
  lemma SplitLeading(sep: string, b: string)
    requires forall i :: 0 <= i < |sep| ==> IsAsciiSpace(sep[i])
    requires b == [] || !IsAsciiSpace(b[0])
    ensures SplitWs(sep + b) == SplitWs(b)
  {
    LStripPrefix(sep, b, ASCII_WHITESPACE);
    LStripNoop(b, ASCII_WHITESPACE);
  }

  /** Two tokens joined by one space split back into those two tokens. */
  lemma SplitTwo(a: string, b: string)
    requires IsToken(a) && IsToken(b)
    ensures SplitWs(a + " " + b) == [a, b]
  {
    assert IsAsciiSpace(" "[0]);
    SplitToken(a, " ", b);
    SplitOne(b);
  }

  /** A single token splits into itself. */
  lemma SplitOne(b: string)
    requires IsToken(b)
    ensures SplitWs(b) == [b]
  {
    SplitHead(b, []);
    assert b + [] == b;
    assert SplitWs([]) == [];
  }

  // ---------------------------------------------------------------- lines of a text file

  /** Length of the first line of `s`, its newline `nl` included (all of `s` if none). */
  function LineLength<T(==)>(s: seq<T>, nl: T): (k: nat)
    ensures k <= |s|
    ensures |s| > 0 ==> k > 0
    ensures forall i :: 0 <= i < k - 1 ==> s[i] != nl
    ensures k == |s| || s[k - 1] == nl
  {
    if s == [] then 0 else if s[0] == nl then 1 else 1 + LineLength(s[1..], nl)
  }

  lemma LineLengthOfLine<T>(line: seq<T>, nl: T, rest: seq<T>)
    requires nl !in line
    ensures LineLength(line + [nl] + rest, nl) == |line| + 1
  {
    var s := line + [nl] + rest;
    assert s[|line|] == nl;
    assert forall i :: 0 <= i < |line| ==> s[i] == line[i];
  }

  /**
   * Universal newlines, which a file opened for reading in text mode applies:
   * `\r\n` and a lone `\r` both become `\n`.
   */
  function Universal(s: string): (t: string)
    ensures '\r' !in t
    decreases |s|
  {
    if s == [] then []
    else if s[0] == '\r' then
      "\n" + Universal(if |s| > 1 && s[1] == '\n' then s[2..] else s[1..])
    else [s[0]] + Universal(s[1..])
  }

  /** Text without a `\r` is read unchanged. */
  lemma {:induction false} UniversalPlain(s: string)
    requires '\r' !in s
    ensures Universal(s) == s
    decreases |s|
  {
    if s != [] {
      assert s[0] in s;
      assert forall c :: c in s[1..] ==> c in s;
      UniversalPlain(s[1..]);
      assert s == [s[0]] + s[1..];
    }
  }

  /** The text cut after each `\n`, every piece keeping its `\n`; the last may lack one. */
  function BreakLines(text: string): (r: seq<string>)
    ensures forall j :: 0 <= j < |r| ==> |r[j]| > 0
    ensures '\r' !in text ==> forall j :: 0 <= j < |r| ==> '\r' !in r[j]
    decreases |text|
  {
    if text == [] then []
    else
      var k := LineLength(text, '\n');
      assert forall c :: c in text[..k] ==> c in text;
      assert forall c :: c in text[k..] ==> c in text;
      [text[..k]] + BreakLines(text[k..])
  }

  /**
   * Iterating over a text file: universal newlines, then one line per `\n`,
   * each keeping its `\n`; the last may lack one. No line holds a `\r`.
   */
  function SplitLines(text: string): (r: seq<string>)
    ensures forall j :: 0 <= j < |r| ==> |r[j]| > 0 && '\r' !in r[j]
  {
    BreakLines(Universal(text))
  }

  /** A line ending: `\n`, `\r\n`, or a `\r` not followed by `\n`. */
  predicate IsLineEnd(nl: string, rest: string)
  {
    nl == "\n" || nl == "\r\n" || (nl == "\r" && (rest == [] || rest[0] != '\n'))
  }

  /** Each of the three line endings is read as one `\n`. */
  lemma {:induction false} UniversalEnd(a: string, nl: string, b: string)
    requires '\r' !in a && IsLineEnd(nl, b)
    ensures Universal(a + nl + b) == a + "\n" + Universal(b)
    decreases |a|
  {
    var s := a + nl + b;
    if a == [] {
      assert s == nl + b;
      if nl == "\r" {
        assert s[1..] == b;
      } else if nl == "\r\n" {
        assert s[2..] == b;
      } else {
        assert s[1..] == b;
      }
    } else {
      assert a[0] in a && s[0] == a[0];
      assert forall c :: c in a[1..] ==> c in a;
      assert s[1..] == a[1..] + nl + b;
      UniversalEnd(a[1..], nl, b);
    }
  }

  /** `\n`, `\r\n` and a lone `\r` all end a line, which is then read with `\n`. */
  lemma LineEnds(a: string, nl: string, b: string)
    requires '\r' !in a && '\n' !in a && IsLineEnd(nl, b)
    ensures SplitLines(a + nl + b) == [a + "\n"] + SplitLines(b)
  {
    UniversalEnd(a, nl, b);
    var u := Universal(b);
    var t := a + "\n" + u;
    LineLengthOfLine(a, '\n', u);
    assert t[..|a| + 1] == a + "\n";
    assert t[|a| + 1..] == u;
  }

  /** Writing each line followed by `\n`, in order. */
  function JoinLines(ls: seq<string>): string
  {
    if ls == [] then "" else ls[0] + "\n" + JoinLines(ls[1..])
  }

  lemma {:induction false} JoinLinesAppend(ls: seq<string>, l: string)
    ensures JoinLines(ls + [l]) == JoinLines(ls) + l + "\n"
  {
    if ls == [] {
      assert ls + [l] == [l];
    } else {
      assert (ls + [l])[1..] == ls[1..] + [l];
      JoinLinesAppend(ls[1..], l);
    }
  }

  /** Every line followed by its `\n`, as iterating over a written file yields them. */
  function Terminated(ls: seq<string>): (r: seq<string>)
    ensures |r| == |ls|
  {
    seq(|ls|, i requires 0 <= i < |ls| => ls[i] + "\n")
  }

  /** A trailing newline is whitespace, so `strip()` removes it with the rest. */
  lemma TerminatedCons(ls: seq<string>)
    requires ls != []
    ensures Terminated(ls)[0] == ls[0] + "\n" && Terminated(ls)[1..] == Terminated(ls[1..])
  {
  }

  lemma StripNewline(s: string)
    ensures Strip(s + "\n") == Strip(s)
  {
    var t := s + "\n";
    assert t[..|t| - 1] == s;
  }

  lemma {:induction false} JoinLinesPlain(ls: seq<string>)
    requires forall j :: 0 <= j < |ls| ==> '\r' !in ls[j]
    ensures '\r' !in JoinLines(ls)
  {
    if ls != [] {
      JoinLinesPlain(ls[1..]);
    }
  }

  /** Cutting written lines at their newlines gives each line with its newline. */
  lemma {:induction false} BreakJoin(ls: seq<string>)
    requires forall j :: 0 <= j < |ls| ==> '\n' !in ls[j]
    ensures BreakLines(JoinLines(ls)) == Terminated(ls)
  {
    if ls != [] {
      BreakFirst(ls[0], JoinLines(ls[1..]));
      BreakJoin(ls[1..]);
      assert Terminated(ls) == [ls[0] + "\n"] + Terminated(ls[1..]);
    }
  }

  /** A line without a newline, then its newline, is the first line cut off. */
  lemma BreakFirst(line: string, rest: string)
    requires '\n' !in line
    ensures BreakLines(line + "\n" + rest) == [line + "\n"] + BreakLines(rest)
  {
    var text := line + "\n" + rest;
    LineLengthOfLine(line, '\n', rest);
    var k := |line| + 1;
    assert text[..k] == line + "\n";
    assert text[k..] == rest;
  }

  /** Reading back written lines that hold no line break gives each line with its newline. */
  lemma SplitJoin(ls: seq<string>)
    requires forall j :: 0 <= j < |ls| ==> '\n' !in ls[j] && '\r' !in ls[j]
    ensures SplitLines(JoinLines(ls)) == Terminated(ls)
  {
    JoinLinesPlain(ls);
    UniversalPlain(JoinLines(ls));
    BreakJoin(ls);
  }
}
