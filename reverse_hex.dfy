/**
 * `reverse_hex`: a HEX file loaded like every HEX reader, its word list
 * reversed in place, then written one word per line.
 */
module ReverseHex {
  import opened Text
  import opened HexLines

  /** The list `list.reverse()` leaves behind: the last element first. */
  function Reverse<T>(s: seq<T>): (r: seq<T>)
    ensures |r| == |s|
    ensures forall i :: 0 <= i < |s| ==> r[i] == s[|s| - 1 - i]
    decreases |s|
  {
    if s == [] then [] else Reverse(s[1..]) + [s[0]]
  }

  /** The words `main` writes for a file given as its lines. */
  function Reversed(raw: seq<string>): seq<string>
  {
    Reverse(LoadHex(raw))
  }

  /** `main`: load, reverse the list, then write one word per line. */
  method ReverseFile(raw: seq<string>) returns (text: string)
    ensures text == JoinLines(Reversed(raw))
  {
    var lines := LoadHex(raw);
    lines := Reverse(lines);
    text := WriteHex(lines);
  }

  /** Reversing twice gives the list back. */
  lemma ReverseReverse<T>(s: seq<T>)
    ensures Reverse(Reverse(s)) == s
  {
    var r := Reverse(Reverse(s));
    assert forall i :: 0 <= i < |s| ==> r[i] == Reverse(s)[|s| - 1 - i] == s[i];
  }

  /** Reversal only reorders: every word occurs as often as before. */
  lemma {:induction false} ReversePermutes<T>(s: seq<T>)
    ensures multiset(Reverse(s)) == multiset(s)
    decreases |s|
  {
    if s != [] {
      ReversePermutes(s[1..]);
      assert s == [s[0]] + s[1..];
    }
  }

  /** Reversing a concatenation reverses the parts and swaps them. */
  lemma ReverseAppend<T>(a: seq<T>, b: seq<T>)
    ensures Reverse(a + b) == Reverse(b) + Reverse(a)
  {
    var l, r := Reverse(a + b), Reverse(b) + Reverse(a);
    assert |l| == |r|;
    forall i | 0 <= i < |l|
      ensures l[i] == r[i]
    {
      if i < |b| {
        assert l[i] == (a + b)[|a| + |b| - 1 - i] == b[|b| - 1 - i];
      } else {
        assert l[i] == (a + b)[|a| + |b| - 1 - i] == a[|a| + |b| - 1 - i];
      }
    }
  }

  /** One word per non-blank input line, in the opposite order. */
  lemma Positions(raw: seq<string>)
    ensures |Reversed(raw)| == NonBlank(raw)
    ensures forall i :: 0 <= i < |Reversed(raw)| ==> Reversed(raw)[i] == LoadHex(raw)[|LoadHex(raw)| - 1 - i]
  {
    var ws := LoadHex(raw);
    var r := Reverse(ws);
    assert Reversed(raw) == r;
    assert forall i :: 0 <= i < |r| ==> r[i] == ws[|ws| - 1 - i];
    LoadHexCount(raw);
  }

  /** Running the tool on its own output restores the loaded words of the original file. */
  lemma ReverseTwice(raw: seq<string>)
    requires forall w :: w in LoadHex(raw) ==> '\n' !in w && '\r' !in w
    ensures Reversed(SplitLines(JoinLines(Reversed(raw)))) == LoadHex(raw)
  {
    var ws := LoadHex(raw);
    LoadHexWords(raw);
    assert forall w :: w in Reverse(ws) ==> w in ws by {
      ReversePermutes(ws);
      assert forall w :: w in Reverse(ws) ==> w in multiset(Reverse(ws));
    }
    HexRoundTrip(Reverse(ws));
    ReverseReverse(ws);
  }
}
