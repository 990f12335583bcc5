/**
 * `compare_hex`: two HEX files loaded like every HEX reader, each optionally
 * cut to its first `limit` words, then compared position by position without
 * regard to case; the report gives both lengths, the number of positions
 * compared, the number of mismatches and the first ten mismatch positions.
 */
module CompareHex {
  import opened Wrappers
  import opened Text
  import opened Packer
  import opened HexLines

  datatype Report = Report(lenA: nat, lenB: nat, compared: nat, mismatchCount: nat, firstMismatches: seq<nat>)

  /** Whether position `i` holds words that differ once lowercased. */
  predicate Differs(a: seq<string>, b: seq<string>, i: nat)
    requires i < |a| && i < |b|
  {
    Lower(a[i]) != Lower(b[i])
  }

  /** The mismatch positions below `n`, in the order the loop finds them. */
  function Mismatches(a: seq<string>, b: seq<string>, n: nat): (ms: seq<nat>)
    requires n <= |a| && n <= |b|
    ensures |ms| <= n
    decreases n
  {
    if n == 0 then []
    else Mismatches(a, b, n - 1) + (if Differs(a, b, n - 1) then [n - 1] else [])
  }

  /** `a[:limit]` when a limit is given. */
  function Limited(a: seq<string>, limit: Option<int>): (r: seq<string>)
    ensures limit.None? ==> r == a
    ensures |r| <= |a| && r == a[..|r|]
    ensures limit.Some? && limit.value >= 0 ==> |r| == Min(limit.value, |a|)
  {
    if limit.Some? then PyPrefix(a, limit.value) else a
  }

  /** The report `compare_hex` returns for the loaded word lists `a` and `b`. */
  function CompareWords(a: seq<string>, b: seq<string>, limit: Option<int>): Report
  {
    var a', b' := Limited(a, limit), Limited(b, limit);
    var n := Min(|a'|, |b'|);
    var ms := Mismatches(a', b', n);
    Report(|a'|, |b'|, n, |ms|, PyPrefix(ms, 10))
  }

  /** `compare_hex` on two files given as their lines. */
  method Compare(aLines: seq<string>, bLines: seq<string>, limit: Option<int>) returns (rep: Report)
    ensures rep == CompareWords(LoadHex(aLines), LoadHex(bLines), limit)
  {
    var a := LoadHex(aLines);
    var b := LoadHex(bLines);
    if limit.Some? {
      a := PyPrefix(a, limit.value);
      b := PyPrefix(b, limit.value);
    }
    assert a == Limited(LoadHex(aLines), limit) && b == Limited(LoadHex(bLines), limit);
    var mismatches := FindMismatches(a, b);
    rep := Report(|a|, |b|, Min(|a|, |b|), |mismatches|, PyPrefix(mismatches, 10));
  }

  /** The comparison loop over the common length. */
  method FindMismatches(a: seq<string>, b: seq<string>) returns (mismatches: seq<nat>)
    ensures mismatches == Mismatches(a, b, Min(|a|, |b|))
  {
    var n := Min(|a|, |b|);
    mismatches := [];
    for i := 0 to n
      invariant mismatches == Mismatches(a, b, i)
    {
      if Lower(a[i]) != Lower(b[i]) {
        mismatches := mismatches + [i];
      }
    }
  }

  /** A position is listed exactly when it is below `n` and its words differ after lowercasing. */
  lemma {:induction false} MismatchesMembers(a: seq<string>, b: seq<string>, n: nat)
    requires n <= |a| && n <= |b|
    ensures forall i: nat :: i in Mismatches(a, b, n) <==> i < n && Differs(a, b, i)
    decreases n
  {
    if n > 0 {
      MismatchesMembers(a, b, n - 1);
    }
  }

  predicate Increasing(s: seq<nat>)
  {
    forall j, k :: 0 <= j < k < |s| ==> s[j] < s[k]
  }

  /** The positions are listed in strictly increasing order. */
  lemma {:induction false} MismatchesAscending(a: seq<string>, b: seq<string>, n: nat)
    requires n <= |a| && n <= |b|
    ensures Increasing(Mismatches(a, b, n))
    decreases n
  {
    if n > 0 {
      MismatchesAscending(a, b, n - 1);
      MismatchesMembers(a, b, n - 1);
      var prev, ms := Mismatches(a, b, n - 1), Mismatches(a, b, n);
      assert ms == prev + (if Differs(a, b, n - 1) then [n - 1] else []);
      forall j, k | 0 <= j < k < |ms|
        ensures ms[j] < ms[k]
      {
        assert ms[j] == prev[j];
        if k < |prev| {
          assert ms[k] == prev[k];
          assert prev[j] < prev[k];
        } else {
          assert ms[k] == n - 1;
          assert prev[j] in prev;
          assert prev[j] < n - 1;
        }
      }
    }
  }

  /** Only the first `n` positions are looked at, so anything beyond them is irrelevant. */
  lemma {:induction false} MismatchesPrefix(a: seq<string>, b: seq<string>, a2: seq<string>, b2: seq<string>, n: nat)
    requires n <= |a| && n <= |b| && n <= |a2| && n <= |b2|
    requires a[..n] == a2[..n] && b[..n] == b2[..n]
    ensures Mismatches(a, b, n) == Mismatches(a2, b2, n)
    decreases n
  {
    if n > 0 {
      assert a[..n - 1] == a2[..n - 1] && b[..n - 1] == b2[..n - 1];
      assert a[n - 1] == a[..n][n - 1] && a2[n - 1] == a2[..n][n - 1];
      assert b[n - 1] == b[..n][n - 1] && b2[n - 1] == b2[..n][n - 1];
      MismatchesPrefix(a, b, a2, b2, n - 1);
    }
  }

  /** What the report says, field by field. */
  lemma ReportFields(a: seq<string>, b: seq<string>, limit: Option<int>)
    ensures var r := CompareWords(a, b, limit);
      var a', b' := Limited(a, limit), Limited(b, limit);
      && r.lenA == |a'| && r.lenB == |b'|
      && r.compared == Min(r.lenA, r.lenB)
      && (forall i: nat :: i in Mismatches(a', b', r.compared) <==> i < r.compared && Differs(a', b', i))
      && r.mismatchCount == |Mismatches(a', b', r.compared)|
      && r.firstMismatches == Mismatches(a', b', r.compared)[..Min(10, r.mismatchCount)]
      && Increasing(r.firstMismatches)
  {
    var a', b' := Limited(a, limit), Limited(b, limit);
    var n := Min(|a'|, |b'|);
    MismatchesMembers(a', b', n);
    MismatchesAscending(a', b', n);
  }

  lemma {:induction false} NoSelfMismatch(a: seq<string>, n: nat)
    requires n <= |a|
    ensures Mismatches(a, a, n) == []
    decreases n
  {
    if n > 0 {
      NoSelfMismatch(a, n - 1);
    }
  }

  /** A list compared with itself: every position is compared and none differs. */
  lemma SelfCompare(a: seq<string>, limit: Option<int>)
    ensures CompareWords(a, a, limit).mismatchCount == 0
    ensures CompareWords(a, a, limit).compared == CompareWords(a, a, limit).lenA
    ensures CompareWords(a, a, limit).firstMismatches == []
  {
    NoSelfMismatch(Limited(a, limit), |Limited(a, limit)|);
  }

  /** Extra words at the end of one list are not mismatches: only the common length is compared. */
  lemma LengthAloneIsNoMismatch(a: seq<string>, extra: seq<string>)
    ensures CompareWords(a, a + extra, None).compared == |a|
    ensures CompareWords(a, a + extra, None).mismatchCount == 0
  {
    MismatchesPrefix(a, a + extra, a, a, |a|);
    NoSelfMismatch(a, |a|);
  }

  lemma {:induction false} MismatchesSymmetric(a: seq<string>, b: seq<string>, n: nat)
    requires n <= |a| && n <= |b|
    ensures Mismatches(a, b, n) == Mismatches(b, a, n)
    decreases n
  {
    if n > 0 {
      MismatchesSymmetric(a, b, n - 1);
    }
  }

  /** Swapping the files swaps the lengths and changes nothing else. */
  lemma CompareSymmetric(a: seq<string>, b: seq<string>, limit: Option<int>)
    ensures var r, s := CompareWords(a, b, limit), CompareWords(b, a, limit);
      r.lenA == s.lenB && r.lenB == s.lenA && r.compared == s.compared
      && r.mismatchCount == s.mismatchCount && r.firstMismatches == s.firstMismatches
  {
    var a', b' := Limited(a, limit), Limited(b, limit);
    MismatchesSymmetric(a', b', Min(|a'|, |b'|));
  }
}
