/**
 * The line scan both COE parsers share. Every line is stripped; a blank line
 * is skipped, a line starting with the vector token opens the vector, and any
 * other line is a body line. Body lines before the vector are skipped; inside
 * it each body line is handed to the parser's own word function, whose error
 * aborts the scan and whose items are appended in order.
 */
module CoeReader {
  import opened Wrappers
  import opened Text
  import opened CoeFormat

  /** What the scan makes of one stripped line; `item` is the word function's verdict on a body line. */
  datatype LineKind<T> = Blank | VectorStart | Body(item: T)

  /** One raw line, with `body` applied to the stripped text of a body line. */
  function Kind<T>(raw: string, body: string -> T): LineKind<T>
  {
    var line := Strip(raw);
    if line == [] then Blank
    else if StartsWith(line, VECTOR_TOKEN) then VectorStart
    else Body(body(line))
  }

  function Kinds<T>(lines: seq<string>, body: string -> T): (ks: seq<LineKind<T>>)
    ensures |ks| == |lines|
  {
    seq(|lines|, i requires 0 <= i < |lines| => Kind(lines[i], body))
  }

  /** What a scan that has not yet opened the vector needs of a line: a body line there counts as blank. */
  function Seen<T>(k: LineKind<T>, inVec: bool): LineKind<T>
  {
    if k.Body? && !inVec then Blank else k
  }

  /** `xs` in front of the items of a successful scan; an error passes through. */
  function Prepend<X, E>(xs: seq<X>, r: Result<seq<X>, E>): Result<seq<X>, E>
  {
    match r
    case Ok(ys) => Ok(xs + ys)
    case Err(e) => Err(e)
  }

  /**
   * The items of the lines classified as `kinds`, `inVec` saying whether the
   * vector has started: only body lines inside the vector contribute, and the
   * first of them whose word function fails decides the result.
   */
  function Scan<X, E>(kinds: seq<LineKind<Result<seq<X>, E>>>, inVec: bool): Result<seq<X>, E>
    decreases |kinds|
  {
    if kinds == [] then Ok([])
    else match kinds[0]
      case Blank => Scan(kinds[1..], inVec)
      case VectorStart => Scan(kinds[1..], true)
      case Body(r) =>
        if !inVec then Scan(kinds[1..], false)
        else match r
          case Err(e) => Err(e)
          case Ok(xs) => Prepend(xs, Scan(kinds[1..], true))
  }

  lemma PrependNothing<X, E>(r: Result<seq<X>, E>)
    ensures Prepend([], r) == r
  {
    if r.Ok? {
      assert [] + r.value == r.value;
    }
  }

  lemma PrependPrepend<X, E>(a: seq<X>, b: seq<X>, r: Result<seq<X>, E>)
    ensures Prepend(a, Prepend(b, r)) == Prepend(a + b, r)
  {
    if r.Ok? {
      assert a + (b + r.value) == (a + b) + r.value;
    }
  }

  /** Classifying is line by line, so it distributes over concatenation. */
  lemma KindsAppend<T>(a: seq<string>, b: seq<string>, body: string -> T)
    ensures Kinds(a + b, body) == Kinds(a, body) + Kinds(b, body)
  {
    var l, r := Kinds(a + b, body), Kinds(a, body) + Kinds(b, body);
    forall i | 0 <= i < |l|
      ensures l[i] == r[i]
    {
      assert (a + b)[i] == if i < |a| then a[i] else b[i - |a|];
    }
  }

  /** The newline each line keeps when a file is iterated is stripped first, so it changes nothing. */
  lemma KindsNewlines<T>(ls: seq<string>, body: string -> T)
    ensures Kinds(Terminated(ls), body) == Kinds(ls, body)
  {
    var t := Terminated(ls);
    forall i | 0 <= i < |ls|
      ensures Kind(t[i], body) == Kind(ls[i], body)
    {
      KindNewline(ls[i], body);
    }
  }

  lemma KindNewline<T>(s: string, body: string -> T)
    ensures Kind(s + "\n", body) == Kind(s, body)
  {
    StripNewline(s);
  }

  /** Nothing before the first token line is looked at, and the token line itself contributes nothing. */
  lemma {:induction false} ScanPreamble<X, E>(pre: seq<LineKind<Result<seq<X>, E>>>, post: seq<LineKind<Result<seq<X>, E>>>)
    requires forall j :: 0 <= j < |pre| ==> !pre[j].VectorStart?
    ensures Scan(pre + [VectorStart] + post, false) == Scan(post, true)
    decreases |pre|
  {
    var ks := pre + [VectorStart] + post;
    if pre == [] {
      assert ks[0] == VectorStart && ks[1..] == post;
    } else {
      assert ks[0] == pre[0];
      assert ks[1..] == pre[1..] + [VectorStart] + post;
      ScanPreamble(pre[1..], post);
    }
  }

  /** A body line and then the token line: the scan starts collecting after the second line. */
  lemma ScanHeader<X, E>(ks: seq<LineKind<Result<seq<X>, E>>>)
    requires |ks| >= 2 && ks[0].Body? && ks[1] == VectorStart
    ensures Scan(ks, false) == Scan(ks[2..], true)
  {
    assert ks[1..][0] == VectorStart;
    assert ks[1..][1..] == ks[2..];
  }

  /** Without a token line there is no vector, so nothing is collected and nothing can fail. */
  lemma {:induction false} ScanNoVector<X, E>(ks: seq<LineKind<Result<seq<X>, E>>>)
    requires forall j :: 0 <= j < |ks| ==> !ks[j].VectorStart?
    ensures Scan(ks, false) == Ok([])
    decreases |ks|
  {
    if ks != [] {
      ScanNoVector(ks[1..]);
    }
  }

  /** The scan stops at the first failure: whatever follows it is never read. */
  lemma {:induction false} ScanErrorFinal<X, E>(a: seq<LineKind<Result<seq<X>, E>>>, b: seq<LineKind<Result<seq<X>, E>>>, inVec: bool)
    requires Scan(a, inVec).Err?
    ensures Scan(a + b, inVec) == Scan(a, inVec)
    decreases |a|
  {
    var ab := a + b;
    assert ab[0] == a[0];
    assert ab[1..] == a[1..] + b;
    match a[0]
    case Blank => ScanErrorFinal(a[1..], b, inVec);
    case VectorStart => ScanErrorFinal(a[1..], b, true);
    case Body(r) =>
      if !inVec {
        ScanErrorFinal(a[1..], b, false);
      } else if r.Ok? {
        ScanErrorFinal(a[1..], b, true);
      }
  }

  /** The items of several body lines, joined in order. */
  function Flatten<X>(xss: seq<seq<X>>): seq<X>
  {
    if xss == [] then [] else xss[0] + Flatten(xss[1..])
  }

  /** Inside the vector, body lines that all succeed give all their items, in order. */
  lemma {:induction false} ScanBodies<X, E>(ks: seq<LineKind<Result<seq<X>, E>>>, xss: seq<seq<X>>)
    requires |ks| == |xss|
    requires forall i :: 0 <= i < |ks| ==> ks[i] == Body(Ok(xss[i]))
    ensures Scan(ks, true) == Ok(Flatten(xss))
    decreases |ks|
  {
    if ks != [] {
      ScanBodies(ks[1..], xss[1..]);
    }
  }
}
