/**
 * Python's `re.findall` for a pattern that never matches the empty string:
 * try a match at every position from left to right; after a match, resume
 * at its end, so matches never overlap.
 *
 * A pattern is represented by its matcher: `m(s, i)` is the end of the
 * match that the regular-expression engine finds when anchored at `i`
 * (alternatives tried in order, quantifiers greedy or lazy as written),
 * or None when no match starts at `i`.
 */
module Scan {
  import opened Text

  datatype Span = Span(start: nat, end: nat)

  type Matcher = (string, nat) -> Option<nat>

  /** Matches are non-empty and lie inside the text. */
  ghost predicate Proper(m: Matcher, s: string) {
    forall i: nat :: m(s, i).Some? ==> i < m(s, i).value <= |s|
  }

  /** Every span is a match found at its own start, at or after `from`. */
  ghost predicate AllMatches(m: Matcher, s: string, from: nat, r: seq<Span>) {
    forall k :: 0 <= k < |r| ==> from <= r[k].start && m(s, r[k].start) == Some(r[k].end)
  }

  /** Spans are in text order and do not overlap. */
  ghost predicate Ordered(r: seq<Span>) {
    forall a, b :: 0 <= a < b < |r| ==> r[a].end <= r[b].start
  }

  ghost predicate Covered(r: seq<Span>, p: nat) {
    exists k :: 0 <= k < |r| && r[k].start <= p < r[k].end
  }

  /** The declarative meaning of findall from `from`: the spans are matches in
      text order, and no match starts at a position that no span covers
      (so every match is the leftmost one available). */
  ghost predicate IsLeftmostScan(m: Matcher, s: string, from: nat, r: seq<Span>) {
    && AllMatches(m, s, from, r)
    && Ordered(r)
    && forall p: nat :: from <= p < |s| && !Covered(r, p) ==> m(s, p) == None
  }

  function FindAll(m: Matcher, s: string, from: nat): (r: seq<Span>)
    requires Proper(m, s)
    ensures AllMatches(m, s, from, r)
    ensures Ordered(r)
    ensures forall k :: 0 <= k < |r| ==> r[k].start < r[k].end <= |s|
    decreases |s| - from
  {
    if from >= |s| then []
    else match m(s, from)
      case Some(e) => [Span(from, e)] + FindAll(m, s, e)
      case None => FindAll(m, s, from + 1)
  }

  /** The texts of the spans: what `findall` returns for a pattern whose
      only group is the whole pattern. */
  function Substrings(s: string, r: seq<Span>): (t: seq<string>)
    requires forall k :: 0 <= k < |r| ==> r[k].start <= r[k].end <= |s|
    ensures |t| == |r|
    ensures forall k :: 0 <= k < |r| ==> t[k] == s[r[k].start..r[k].end]
  {
    seq(|r|, k requires 0 <= k < |r| => s[r[k].start..r[k].end])
  }

  /** FindAll meets the declarative description of findall. */
  lemma {:induction false} FindAllIsLeftmostScan(m: Matcher, s: string, from: nat)
    requires Proper(m, s)
    ensures IsLeftmostScan(m, s, from, FindAll(m, s, from))
    decreases |s| - from
  {
    if from >= |s| {
    } else if m(s, from).Some? {
      var e := m(s, from).value;
      FindAllIsLeftmostScan(m, s, e);
      ScanFromMatch(m, s, from, FindAll(m, s, e));
    } else {
      FindAllIsLeftmostScan(m, s, from + 1);
      ScanFromNonMatch(m, s, from, FindAll(m, s, from + 1));
    }
  }

  /** A match at `from` followed by a scan from its end is a scan from `from`. */
  lemma ScanFromMatch(m: Matcher, s: string, from: nat, rest: seq<Span>)
    requires Proper(m, s)
    requires m(s, from).Some?
    requires IsLeftmostScan(m, s, m(s, from).value, rest)
    ensures IsLeftmostScan(m, s, from, [Span(from, m(s, from).value)] + rest)
  {
    var e := m(s, from).value;
    var r := [Span(from, e)] + rest;
    forall p: nat | from <= p < |s| && m(s, p).Some?
      ensures Covered(r, p)
    {
      if p < e {
        assert r[0].start <= p < r[0].end;
      } else {
        var k :| 0 <= k < |rest| && rest[k].start <= p < rest[k].end;
        assert r[k + 1] == rest[k];
      }
    }
  }

  /** With no match at `from`, a scan from `from + 1` is a scan from `from`. */
  lemma ScanFromNonMatch(m: Matcher, s: string, from: nat, r: seq<Span>)
    requires m(s, from) == None
    requires IsLeftmostScan(m, s, from + 1, r)
    ensures IsLeftmostScan(m, s, from, r)
  {
  }

  /** findall's result is determined by its declarative description. */
  lemma {:induction false} LeftmostScanIsUnique(m: Matcher, s: string, from: nat, r: seq<Span>)
    requires Proper(m, s)
    requires IsLeftmostScan(m, s, from, r)
    ensures r == FindAll(m, s, from)
    decreases |s| - from
  {
    if from >= |s| {
      if r != [] {
        assert false;
      }
    } else if m(s, from).Some? {
      var e := m(s, from).value;
      ScanStartsWithMatchAt(m, s, from, r);
      assert r == [Span(from, e)] + r[1..];
      LeftmostScanIsUnique(m, s, e, r[1..]);
    } else {
      ScanSkipsNonMatch(m, s, from, r);
      LeftmostScanIsUnique(m, s, from + 1, r);
    }
  }

  /** When a match starts at `from`, a scan from `from` begins with it and
      the rest is a scan from its end. */
  lemma ScanStartsWithMatchAt(m: Matcher, s: string, from: nat, r: seq<Span>)
    requires Proper(m, s)
    requires IsLeftmostScan(m, s, from, r)
    requires from < |s| && m(s, from).Some?
    ensures |r| > 0 && r[0] == Span(from, m(s, from).value)
    ensures IsLeftmostScan(m, s, r[0].end, r[1..])
  {
    var e := m(s, from).value;
    if !Covered(r, from) {
      assert false;
    }
    var k :| 0 <= k < |r| && r[k].start <= from < r[k].end;
    if k > 0 {
      assert false;
    }
    var rest := r[1..];
    forall p: nat | e <= p < |s| && !Covered(rest, p)
      ensures m(s, p) == None
    {
      if Covered(r, p) {
        var j :| 0 <= j < |r| && r[j].start <= p < r[j].end;
        if j == 0 {
          assert false;
        }
        assert false;
      }
    }
    forall a | 0 <= a < |rest|
      ensures e <= rest[a].start
    {
      assert r[0].end <= r[a + 1].start;
    }
  }

  /** When no match starts at `from`, a scan from `from` is a scan from
      `from + 1`. */
  lemma ScanSkipsNonMatch(m: Matcher, s: string, from: nat, r: seq<Span>)
    requires IsLeftmostScan(m, s, from, r)
    requires m(s, from) == None
    ensures IsLeftmostScan(m, s, from + 1, r)
  {
    forall a | 0 <= a < |r|
      ensures from + 1 <= r[a].start
    {
      if r[a].start == from {
        assert false;
      }
    }
  }

  /** A pattern that matches nowhere yields nothing. */
  lemma NoMatchNoResult(m: Matcher, s: string)
    requires Proper(m, s)
    requires forall i :: m(s, i) == None
    ensures FindAll(m, s, 0) == []
  {
    assert IsLeftmostScan(m, s, 0, []);
    LeftmostScanIsUnique(m, s, 0, []);
  }

  /** A text that is one match from its first character to its last
      yields exactly that match. */
  lemma WholeMatch(m: Matcher, s: string)
    requires Proper(m, s)
    requires m(s, 0) == Some(|s|)
    ensures FindAll(m, s, 0) == [Span(0, |s|)]
  {
    assert FindAll(m, s, |s|) == [];
  }

  /** A match at `i` that no earlier match reaches across is found: it is
      the span at the index returned. */
  lemma DelimitedMatch(m: Matcher, s: string, i: nat) returns (k: nat)
    requires Proper(m, s)
    requires m(s, i).Some?
    requires forall j: nat :: j < i && m(s, j).Some? ==> m(s, j).value <= i
    ensures k < |FindAll(m, s, 0)| && FindAll(m, s, 0)[k] == Span(i, m(s, i).value)
  {
    var r := FindAll(m, s, 0);
    FindAllIsLeftmostScan(m, s, 0);
    assert Covered(r, i);
    k :| 0 <= k < |r| && r[k].start <= i < r[k].end;
    assert r[k].start == i by {
      assert m(s, r[k].start) == Some(r[k].end);
    }
  }

  /** In non-empty spans in text order, a later start means a later index. */
  lemma SpanOrder(r: seq<Span>, a: nat, b: nat)
    requires Ordered(r) && forall k :: 0 <= k < |r| ==> r[k].start < r[k].end
    requires a < |r| && b < |r| && r[a].start < r[b].start
    ensures a < b
  {
  }
}
