/**
 * Character classes and string primitives shared by the resume scanners.
 *
 * The regular expressions of the parser use Python's `\w`, `\d` and `\s`,
 * which are Unicode-aware on `str`; here they are restricted to ASCII.
 * `str.lower()` is likewise modelled on ASCII letters only.
 */
module Text {

  datatype Option<T> = None | Some(value: T)

  datatype Result<T, E> = Success(value: T) | Failure(error: E)

  /** `\d`: a decimal digit. */
  predicate IsDigit(c: char) { '0' <= c <= '9' }

  /** `[A-Z]` */
  predicate IsUpper(c: char) { 'A' <= c <= 'Z' }

  /** `[a-z]` */
  predicate IsLower(c: char) { 'a' <= c <= 'z' }

  /** `\w`: letters, digits and the underscore. */
  predicate IsWordChar(c: char) { IsUpper(c) || IsLower(c) || IsDigit(c) || c == '_' }

  /** `\s`: the ASCII characters that Python's `str.isspace` accepts
      (space, tab, line feed, vertical tab, form feed, carriage return
      and the four information separators 0x1C-0x1F). */
  predicate IsSpace(c: char) {
    c == ' ' || '\t' <= c <= '\r' || '\U{1C}' <= c <= '\U{1F}'
  }

  predicate AllIn(s: string, inClass: char -> bool) {
    forall q :: 0 <= q < |s| ==> inClass(s[q])
  }

  /** End of the longest run of `inClass` characters starting at `i`:
      what a greedy `[...]*` consumes from `i`. */
  function RunEnd(s: string, i: nat, inClass: char -> bool): (j: nat)
    requires i <= |s|
    ensures i <= j <= |s|
    ensures forall q :: i <= q < j ==> inClass(s[q])
    ensures j == |s| || !inClass(s[j])
    decreases |s| - i
  {
    if i < |s| && inClass(s[i]) then RunEnd(s, i + 1, inClass) else i
  }

  /** A run that ends where the class ends is the greedy run. */
  lemma {:induction false} RunEndAt(s: string, i: nat, j: nat, inClass: char -> bool)
    requires i <= j <= |s|
    requires forall q :: i <= q < j ==> inClass(s[q])
    requires j == |s| || !inClass(s[j])
    ensures RunEnd(s, i, inClass) == j
    decreases j - i
  {
    if i < j {
      RunEndAt(s, i + 1, j, inClass);
    }
  }

  /** The literal `w` occurs in `s` at position `i`. */
  predicate HasAt(s: string, i: nat, w: string) {
    i + |w| <= |s| && s[i..i + |w|] == w
  }

  /** Python's `w in s` on strings: `w` is a substring of `s`. */
  predicate Contains(s: string, w: string) {
    exists p: nat | p <= |s| :: HasAt(s, p, w)
  }

  lemma {:induction false} ContainsTransitive(s: string, mid: string, w: string)
    requires Contains(s, mid) && Contains(mid, w)
    ensures Contains(s, w)
  {
    var p: nat :| p <= |s| && HasAt(s, p, mid);
    var q: nat :| q <= |mid| && HasAt(mid, q, w);
    assert mid == s[p..p + |mid|] && w == mid[q..q + |w|];
    forall k | 0 <= k < |w|
      ensures s[p + q + k] == w[k]
    {
      assert w[k] == mid[q + k] == s[p + q + k];
    }
    assert s[p + q..p + q + |w|] == w;
    assert HasAt(s, p + q, w);
  }

  function LowerChar(c: char): (d: char)
    ensures IsUpper(c) ==> IsLower(d) && d as int == c as int + 32
    ensures !IsUpper(c) ==> d == c
  {
    if IsUpper(c) then (c as int + 32) as char else c
  }

  /** `str.lower()`, on ASCII letters. */
  function Lower(s: string): (t: string)
    ensures |t| == |s|
    ensures forall q :: 0 <= q < |s| ==> t[q] == LowerChar(s[q])
  {
    seq(|s|, q requires 0 <= q < |s| => LowerChar(s[q]))
  }

  /** `re.sub(r'\D', '', s)`: the digits of `s`, in order. */
  function DigitsOnly(s: string): (t: string)
    ensures AllIn(t, IsDigit)
    ensures |t| <= |s|
  {
    if s == [] then []
    else if IsDigit(s[0]) then [s[0]] + DigitsOnly(s[1..])
    else DigitsOnly(s[1..])
  }

  lemma {:induction false} DigitsOnlyAppend(a: string, b: string)
    ensures DigitsOnly(a + b) == DigitsOnly(a) + DigitsOnly(b)
  {
    if a == [] {
      assert a + b == b;
    } else {
      assert (a + b)[1..] == a[1..] + b;
      DigitsOnlyAppend(a[1..], b);
    }
  }

  lemma {:induction false} DigitsOnlyOfDigits(s: string)
    requires AllIn(s, IsDigit)
    ensures DigitsOnly(s) == s
  {
    if s != [] {
      DigitsOnlyOfDigits(s[1..]);
    }
  }

  lemma {:induction false} DigitsOnlyOfNonDigits(s: string)
    requires forall q :: 0 <= q < |s| ==> !IsDigit(s[q])
    ensures DigitsOnly(s) == []
  {
    if s != [] {
      DigitsOnlyOfNonDigits(s[1..]);
    }
  }

  predicate NoDuplicates<T(==)>(s: seq<T>) {
    forall a, b :: 0 <= a < b < |s| ==> s[a] != s[b]
  }

  function Elements<T(==)>(s: seq<T>): set<T> {
    set x | x in s
  }

  lemma {:induction false} DistinctCardinality<T>(s: seq<T>)
    requires NoDuplicates(s)
    ensures |Elements(s)| == |s|
  {
    if s != [] {
      var last := s[|s| - 1];
      var init := s[..|s| - 1];
      DistinctCardinality(init);
      assert last !in init;
      assert Elements(s) == Elements(init) + {last};
    }
  }

  /** The position of the first occurrence of `x` in `s`. */
  function FirstIndex<T(==)>(s: seq<T>, x: T): (i: nat)
    requires x in s
    ensures i < |s| && s[i] == x
    ensures forall j :: 0 <= j < i ==> s[j] != x
    decreases |s|
  {
    if s[0] == x then 0 else 1 + FirstIndex(s[1..], x)
  }

  /** An element of a prefix is first found within that prefix. */
  lemma FirstIndexInPrefix<T>(s: seq<T>, n: nat, x: T)
    requires n <= |s| && x in s[..n]
    ensures x in s && FirstIndex(s, x) == FirstIndex(s[..n], x) < n
  {
    var i := FirstIndex(s, x);
    var i' := FirstIndex(s[..n], x);
    assert s[i'] == x by {
      assert s[..n][i'] == s[i'];
    }
    assert i <= i';
    assert s[..n][i] == x;
  }

  /** An element absent from `s[..n]` but present at `n` is first found there. */
  lemma FirstIndexAtEnd<T>(s: seq<T>, n: nat)
    requires n < |s| && s[n] !in s[..n]
    ensures FirstIndex(s, s[n]) == n
  {
    forall j | 0 <= j < n
      ensures s[j] != s[n]
    {
      assert s[j] == s[..n][j];
    }
  }
}
