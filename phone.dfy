/**
 * `get_phone_numbers`: findall of
 *   `\d{3}[-\.\s]??\d{3}[-\.\s]??\d{4}`   (ten digits, optional separators)
 *   `| \(\d{3}\)\s*\d{3}[-\.\s]??\d{4}`   (parenthesised area code)
 *   `| \d{3}[-\.\s]??\d{4}`               (seven digits)
 * alternatives tried in that order, each match then stripped of every
 * non-digit character.
 *
 * Digits, separators and parentheses are disjoint classes, so at every
 * optional separator only one choice can lead to a match: the lazy `??`
 * first tries no separator, which needs a digit next; failing that it
 * takes one separator. Likewise the greedy `\s*` cannot give back a space
 * to a following digit. Each alternative is therefore a straight-line scan.
 */
module Phone {
  import opened Text
  import opened Scan

  /** `[-\.\s]` */
  predicate IsSeparator(c: char) { c == '-' || c == '.' || IsSpace(c) }

  /** `[-\.\s]??` spanning `s[a..b]`: nothing, or one separator. */
  predicate SeparatorSpan(s: string, a: nat, b: nat) {
    b == a || (b == a + 1 && a < |s| && IsSeparator(s[a]))
  }

  /** Where the digits after the lazy `[-\.\s]??` at `i` start. Of the two
      ways the quantifier can go, no separator or one, at most one is
      followed by a digit (no separator is a digit), and that is the one
      returned; the lazy order of trying them makes no difference. */
  function SkipSeparator(s: string, i: nat): (j: nat)
    ensures SeparatorSpan(s, i, j)
    ensures forall b: nat {:trigger SeparatorSpan(s, i, b)} :: SeparatorSpan(s, i, b) && b < |s| && IsDigit(s[b]) ==> b == j
  {
    if i < |s| && IsSeparator(s[i]) then i + 1 else i
  }

  /** `\d{n}` at `i`. */
  predicate DigitsAt(s: string, i: nat, n: nat) {
    i + n <= |s| && forall q :: i <= q < i + n ==> IsDigit(s[q])
  }

  /** First alternative, anchored at `i`. */
  function TenDigitsAt(s: string, i: nat): (r: Option<nat>)
    ensures r.Some? ==> i < r.value <= |s|
  {
    if !DigitsAt(s, i, 3) then None
    else
      var p := SkipSeparator(s, i + 3);
      if !DigitsAt(s, p, 3) then None
      else
        var q := SkipSeparator(s, p + 3);
        if DigitsAt(s, q, 4) then Some(q + 4) else None
  }

  /** Second alternative, anchored at `i`. */
  function ParenthesisedAt(s: string, i: nat): (r: Option<nat>)
    ensures r.Some? ==> i < r.value <= |s|
  {
    if !(HasAt(s, i, "(") && DigitsAt(s, i + 1, 3) && HasAt(s, i + 4, ")")) then None
    else
      var p := RunEnd(s, i + 5, IsSpace);
      if !DigitsAt(s, p, 3) then None
      else
        var q := SkipSeparator(s, p + 3);
        if DigitsAt(s, q, 4) then Some(q + 4) else None
  }

  /** Third alternative, anchored at `i`. */
  function SevenDigitsAt(s: string, i: nat): (r: Option<nat>)
    ensures r.Some? ==> i < r.value <= |s|
  {
    if !DigitsAt(s, i, 3) then None
    else
      var p := SkipSeparator(s, i + 3);
      if DigitsAt(s, p, 4) then Some(p + 4) else None
  }

  /** The whole alternation anchored at `i`: the first alternative that
      matches wins. */
  function PhoneAt(s: string, i: nat): (r: Option<nat>)
    ensures r.Some? ==> i < r.value <= |s|
  {
    if TenDigitsAt(s, i).Some? then TenDigitsAt(s, i)
    else if ParenthesisedAt(s, i).Some? then ParenthesisedAt(s, i)
    else SevenDigitsAt(s, i)
  }

  /** `findall` followed by `re.sub(r'\D', '', num)` on every match: one
      number per span of the scan, in text order, each the digits of its
      match, ten of them for the first two alternatives and seven for the
      third. */
  function GetPhoneNumbers(s: string): (r: seq<string>)
    ensures var spans := FindAll(PhoneAt, s, 0);
      && |r| == |spans|
      && forall k :: 0 <= k < |r| ==>
           && r[k] == DigitsOnly(s[spans[k].start..spans[k].end])
           && AllIn(r[k], IsDigit) && (|r[k]| == 10 || |r[k]| == 7)
  {
    MatchesKeepTenOrSevenDigits(s);
    var found := Substrings(s, FindAll(PhoneAt, s, 0));
    seq(|found|, k requires 0 <= k < |found| => DigitsOnly(found[k]))
  }

  /** The digits of `s[a..c]` are those of `s[a..b]` then those of `s[b..c]`. */
  lemma DigitCountSplit(s: string, a: nat, b: nat, c: nat)
    requires a <= b <= c <= |s|
    ensures |DigitsOnly(s[a..c])| == |DigitsOnly(s[a..b])| + |DigitsOnly(s[b..c])|
  {
    assert s[a..c] == s[a..b] + s[b..c];
    DigitsOnlyAppend(s[a..b], s[b..c]);
  }

  lemma DigitCountOfGroup(s: string, i: nat, n: nat)
    requires DigitsAt(s, i, n)
    ensures |DigitsOnly(s[i..i + n])| == n
  {
    DigitsOnlyOfDigits(s[i..i + n]);
  }

  lemma DigitCountOfPunctuation(s: string, a: nat, b: nat)
    requires a <= b <= |s|
    requires forall q :: a <= q < b ==> !IsDigit(s[q])
    ensures |DigitsOnly(s[a..b])| == 0
  {
    DigitsOnlyOfNonDigits(s[a..b]);
  }

  /** `n` digits followed by punctuation hold `n` digits. */
  lemma DigitCountOfGroupThenPunctuation(s: string, a: nat, n: nat, b: nat)
    requires DigitsAt(s, a, n) && a + n <= b <= |s|
    requires forall k :: a + n <= k < b ==> !IsDigit(s[k])
    ensures |DigitsOnly(s[a..b])| == n
  {
    DigitCountSplit(s, a, a + n, b);
    DigitCountOfGroup(s, a, n);
    DigitCountOfPunctuation(s, a + n, b);
  }

  /** `\d{3}[-\.\s]??\d{4}` as matched from `p`, separator ending at `q`,
      holds seven digits. */
  lemma DigitCountOfSevenTail(s: string, p: nat, q: nat)
    requires DigitsAt(s, p, 3) && p + 3 <= q && DigitsAt(s, q, 4)
    requires forall k :: p + 3 <= k < q ==> IsSeparator(s[k])
    ensures |DigitsOnly(s[p..q + 4])| == 7
  {
    DigitCountSplit(s, p, q, q + 4);
    DigitCountOfGroupThenPunctuation(s, p, 3, q);
    DigitCountOfGroup(s, q, 4);
  }

  lemma DigitsOfTenDigits(s: string, i: nat)
    requires TenDigitsAt(s, i).Some?
    ensures |DigitsOnly(s[i..TenDigitsAt(s, i).value])| == 10
  {
    var p := SkipSeparator(s, i + 3);
    var q := SkipSeparator(s, p + 3);
    DigitCountSplit(s, i, p, q + 4);
    DigitCountOfGroupThenPunctuation(s, i, 3, p);
    DigitCountOfSevenTail(s, p, q);
  }

  lemma DigitsOfParenthesised(s: string, i: nat)
    requires ParenthesisedAt(s, i).Some?
    ensures |DigitsOnly(s[i..ParenthesisedAt(s, i).value])| == 10
  {
    var p := RunEnd(s, i + 5, IsSpace);
    var q := SkipSeparator(s, p + 3);
    assert s[i] == s[i..i + 1][0] == '(';
    assert s[i + 4] == s[i + 4..i + 5][0] == ')';
    DigitCountSplit(s, i, i + 1, p);
    DigitCountOfPunctuation(s, i, i + 1);
    DigitCountOfGroupThenPunctuation(s, i + 1, 3, p);
    DigitCountSplit(s, i, p, q + 4);
    DigitCountOfSevenTail(s, p, q);
  }

  lemma DigitsOfSevenDigits(s: string, i: nat)
    requires SevenDigitsAt(s, i).Some?
    ensures |DigitsOnly(s[i..SevenDigitsAt(s, i).value])| == 7
  {
    DigitCountOfSevenTail(s, i, SkipSeparator(s, i + 3));
  }

  /** What the first two alternatives keep is ten digits; what the third
      keeps is seven. */
  lemma DigitsOfMatch(s: string, i: nat)
    requires PhoneAt(s, i).Some?
    ensures var d := DigitsOnly(s[i..PhoneAt(s, i).value]);
      && AllIn(d, IsDigit)
      && (TenDigitsAt(s, i).Some? || ParenthesisedAt(s, i).Some? ==> |d| == 10)
      && (TenDigitsAt(s, i).None? && ParenthesisedAt(s, i).None? ==> |d| == 7)
  {
    if TenDigitsAt(s, i).Some? {
      DigitsOfTenDigits(s, i);
    } else if ParenthesisedAt(s, i).Some? {
      DigitsOfParenthesised(s, i);
    } else {
      DigitsOfSevenDigits(s, i);
    }
  }

  /** The digits of every match of the scan: ten or seven of them. */
  lemma MatchesKeepTenOrSevenDigits(s: string)
    ensures var spans := FindAll(PhoneAt, s, 0);
      forall k :: 0 <= k < |spans| ==>
        var d := DigitsOnly(s[spans[k].start..spans[k].end]);
        AllIn(d, IsDigit) && (|d| == 10 || |d| == 7)
  {
    var spans := FindAll(PhoneAt, s, 0);
    forall k | 0 <= k < |spans|
      ensures var d := DigitsOnly(s[spans[k].start..spans[k].end]);
        AllIn(d, IsDigit) && (|d| == 10 || |d| == 7)
    {
      DigitsOfMatch(s, spans[k].start);
    }
  }

  predicate OptionalSeparator(sep: string) {
    |sep| <= 1 && AllIn(sep, IsSeparator)
  }

  lemma SeparatorsAreNotDigits(sep: string)
    requires AllIn(sep, IsSeparator)
    ensures forall q :: 0 <= q < |sep| ==> !IsDigit(sep[q])
  {
    forall q | 0 <= q < |sep|
      ensures !IsDigit(sep[q])
    {
      assert IsSeparator(sep[q]);
    }
  }

  lemma SpacesAreNotDigits(spaces: string)
    requires AllIn(spaces, IsSpace)
    ensures forall q :: 0 <= q < |spaces| ==> !IsDigit(spaces[q])
  {
    forall q | 0 <= q < |spaces|
      ensures !IsDigit(spaces[q])
    {
      assert IsSpace(spaces[q]);
    }
  }

  lemma DigitsAtPiece(s: string, i: nat, g: string)
    requires i + |g| <= |s| && s[i..i + |g|] == g && AllIn(g, IsDigit)
    ensures DigitsAt(s, i, |g|)
  {
    forall q | i <= q < i + |g|
      ensures IsDigit(s[q])
    {
      assert s[q] == g[q - i];
    }
  }

  lemma SkipSeparatorPiece(s: string, i: nat, sep: string)
    requires i + |sep| < |s| && s[i..i + |sep|] == sep && OptionalSeparator(sep)
    requires IsDigit(s[i + |sep|])
    ensures SkipSeparator(s, i) == i + |sep|
  {
    if |sep| == 1 {
      assert s[i] == sep[0];
    }
  }

  /** Three digit groups at `i`, joined by optional separators, are
      matched whole by the first alternative. */
  lemma TenDigitPiecesMatched(s: string, i: nat, a: string, sep1: string, b: string, sep2: string, c: string)
    requires |a| == 3 && |b| == 3 && |c| == 4
    requires AllIn(a, IsDigit) && AllIn(b, IsDigit) && AllIn(c, IsDigit)
    requires OptionalSeparator(sep1) && OptionalSeparator(sep2)
    requires var p := i + 3 + |sep1|; var q := p + 3 + |sep2|;
      && q + 4 <= |s|
      && s[i..i + 3] == a && s[i + 3..p] == sep1 && s[p..p + 3] == b
      && s[p + 3..q] == sep2 && s[q..q + 4] == c
    ensures PhoneAt(s, i) == Some(i + 10 + |sep1| + |sep2|)
  {
    var p := i + 3 + |sep1|;
    var q := p + 3 + |sep2|;
    DigitsAtPiece(s, i, a);
    DigitsAtPiece(s, p, b);
    DigitsAtPiece(s, q, c);
    SkipSeparatorPiece(s, i + 3, sep1);
    SkipSeparatorPiece(s, p + 3, sep2);
  }

  /** `ddd?ddd?dddd` right after `pre` is matched whole, whatever follows. */
  lemma TenDigitFormMatched(pre: string, a: string, sep1: string, b: string, sep2: string, c: string, post: string)
    requires |a| == 3 && |b| == 3 && |c| == 4
    requires AllIn(a, IsDigit) && AllIn(b, IsDigit) && AllIn(c, IsDigit)
    requires OptionalSeparator(sep1) && OptionalSeparator(sep2)
    ensures var form := a + sep1 + b + sep2 + c;
      PhoneAt(pre + form + post, |pre|) == Some(|pre| + |form|)
  {
    var form := a + sep1 + b + sep2 + c;
    var s := pre + form + post;
    var i := |pre|;
    var p := i + 3 + |sep1|;
    var q := p + 3 + |sep2|;
    assert s[i..i + 3] == a;
    assert s[i + 3..p] == sep1;
    assert s[p..p + 3] == b;
    assert s[p + 3..q] == sep2;
    assert s[q..q + 4] == c;
    assert |form| == 10 + |sep1| + |sep2|;
    TenDigitPiecesMatched(s, i, a, sep1, b, sep2, c);
  }

  lemma TenDigitFormDigits(a: string, sep1: string, b: string, sep2: string, c: string)
    requires AllIn(a, IsDigit) && AllIn(b, IsDigit) && AllIn(c, IsDigit)
    requires OptionalSeparator(sep1) && OptionalSeparator(sep2)
    ensures DigitsOnly(a + sep1 + b + sep2 + c) == a + b + c
  {
    DigitsOnlyOfDigits(a);
    DigitsOnlyOfDigits(b);
    DigitsOnlyOfDigits(c);
    SeparatorsAreNotDigits(sep1);
    DigitsOnlyOfNonDigits(sep1);
    SeparatorsAreNotDigits(sep2);
    DigitsOnlyOfNonDigits(sep2);
    DigitsOfPunctuatedGroups(a, sep1, b, sep2, c);
  }

  /** A text matched whole yields one number: its digits. */
  lemma WholeNumber(s: string)
    requires PhoneAt(s, 0) == Some(|s|)
    ensures GetPhoneNumbers(s) == [DigitsOnly(s)]
  {
    WholeMatch(PhoneAt, s);
    assert s[0..|s|] == s;
  }

  /** `ddd-ddd-dddd`, `ddd.ddd.dddd`, `ddd ddd dddd`, `dddddddddd` and their
      mixtures, on their own, yield exactly the ten digits. */
  lemma TenDigitForms(a: string, b: string, c: string, sep1: string, sep2: string)
    requires |a| == 3 && |b| == 3 && |c| == 4
    requires AllIn(a, IsDigit) && AllIn(b, IsDigit) && AllIn(c, IsDigit)
    requires OptionalSeparator(sep1) && OptionalSeparator(sep2)
    ensures GetPhoneNumbers(a + sep1 + b + sep2 + c) == [a + b + c]
  {
    var s := a + sep1 + b + sep2 + c;
    assert PhoneAt(s, 0) == Some(|s|) by {
      TenDigitFormMatched([], a, sep1, b, sep2, c, []);
      assert [] + s + [] == s;
    }
    WholeNumber(s);
    TenDigitFormDigits(a, sep1, b, sep2, c);
  }

  /** `(`, a digit group, `)`, white space and two digit groups joined by
      an optional separator, at `i`, are matched whole by the second
      alternative. */
  lemma ParenthesisedPiecesMatched(s: string, i: nat, a: string, b: string, c: string, spaces: string, sep: string)
    requires |a| == 3 && |b| == 3 && |c| == 4
    requires AllIn(a, IsDigit) && AllIn(b, IsDigit) && AllIn(c, IsDigit)
    requires AllIn(spaces, IsSpace) && OptionalSeparator(sep)
    requires var p := i + 5 + |spaces|; var q := p + 3 + |sep|;
      && q + 4 <= |s|
      && s[i..i + 1] == "(" && s[i + 1..i + 4] == a && s[i + 4..i + 5] == ")"
      && s[i + 5..p] == spaces && s[p..p + 3] == b && s[p + 3..q] == sep && s[q..q + 4] == c
    ensures PhoneAt(s, i) == Some(i + 12 + |spaces| + |sep|)
  {
    var p := i + 5 + |spaces|;
    var q := p + 3 + |sep|;
    assert s[i] == s[i..i + 1][0] == '(';
    DigitsAtPiece(s, i + 1, a);
    DigitsAtPiece(s, p, b);
    DigitsAtPiece(s, q, c);
    assert RunEnd(s, i + 5, IsSpace) == p by {
      forall k | i + 5 <= k < p
        ensures IsSpace(s[k])
      {
        assert s[k] == spaces[k - i - 5];
      }
      RunEndAt(s, i + 5, p, IsSpace);
    }
    SkipSeparatorPiece(s, p + 3, sep);
    assert !DigitsAt(s, i, 3);
    assert HasAt(s, i, "(") && HasAt(s, i + 4, ")");
    assert ParenthesisedAt(s, i) == Some(q + 4);
  }

  /** `(ddd)`, white space, `ddd?dddd` right after `pre` is matched whole by
      the second alternative, whatever follows. */
  lemma ParenthesisedFormMatched(pre: string, a: string, b: string, c: string, spaces: string, sep: string, post: string)
    requires |a| == 3 && |b| == 3 && |c| == 4
    requires AllIn(a, IsDigit) && AllIn(b, IsDigit) && AllIn(c, IsDigit)
    requires AllIn(spaces, IsSpace) && OptionalSeparator(sep)
    ensures var form := "(" + a + ")" + spaces + b + sep + c;
      PhoneAt(pre + form + post, |pre|) == Some(|pre| + |form|)
  {
    var form := "(" + a + ")" + spaces + b + sep + c;
    var s := pre + form + post;
    var i := |pre|;
    var p := i + 5 + |spaces|;
    var q := p + 3 + |sep|;
    assert s[i..i + 1] == "(";
    assert s[i + 1..i + 4] == a;
    assert s[i + 4..i + 5] == ")";
    assert s[i + 5..p] == spaces;
    assert s[p..p + 3] == b;
    assert s[p + 3..q] == sep;
    assert s[q..q + 4] == c;
    assert |form| == 12 + |spaces| + |sep|;
    ParenthesisedPiecesMatched(s, i, a, b, c, spaces, sep);
  }

  lemma ParenthesisedFormDigits(a: string, b: string, c: string, spaces: string, sep: string)
    requires AllIn(a, IsDigit) && AllIn(b, IsDigit) && AllIn(c, IsDigit)
    requires AllIn(spaces, IsSpace) && OptionalSeparator(sep)
    ensures DigitsOnly("(" + a + ")" + spaces + b + sep + c) == a + b + c
  {
    AreaCodeDigits(a);
    DigitsOnlyOfDigits(b);
    DigitsOnlyOfDigits(c);
    SpacesAreNotDigits(spaces);
    DigitsOnlyOfNonDigits(spaces);
    SeparatorsAreNotDigits(sep);
    DigitsOnlyOfNonDigits(sep);
    DigitsOfPunctuatedGroups("(" + a + ")", spaces, b, sep, c);
  }

  /** `(ddd) ddd-dddd`, with any run of white space after the parenthesis,
      on its own, yields exactly the ten digits. */
  lemma ParenthesisedForm(a: string, b: string, c: string, spaces: string, sep: string)
    requires |a| == 3 && |b| == 3 && |c| == 4
    requires AllIn(a, IsDigit) && AllIn(b, IsDigit) && AllIn(c, IsDigit)
    requires AllIn(spaces, IsSpace) && OptionalSeparator(sep)
    ensures GetPhoneNumbers("(" + a + ")" + spaces + b + sep + c) == [a + b + c]
  {
    var s := "(" + a + ")" + spaces + b + sep + c;
    assert PhoneAt(s, 0) == Some(|s|) by {
      ParenthesisedFormMatched([], a, b, c, spaces, sep, []);
      assert [] + s + [] == s;
    }
    WholeNumber(s);
    ParenthesisedFormDigits(a, b, c, spaces, sep);
  }

  /** Digit groups separated by punctuation keep just their digits. */
  lemma DigitsOfPunctuatedGroups(g1: string, s1: string, g2: string, s2: string, g3: string)
    requires DigitsOnly(s1) == [] && DigitsOnly(s2) == []
    ensures DigitsOnly(g1 + s1 + g2 + s2 + g3) == DigitsOnly(g1) + DigitsOnly(g2) + DigitsOnly(g3)
  {
    DigitsOnlyAppend(g1, s1);
    assert DigitsOnly(g1 + s1) == DigitsOnly(g1);
    DigitsOnlyAppend(g1 + s1, g2);
    DigitsOnlyAppend(g1 + s1 + g2, s2);
    assert DigitsOnly(g1 + s1 + g2 + s2) == DigitsOnly(g1) + DigitsOnly(g2);
    DigitsOnlyAppend(g1 + s1 + g2 + s2, g3);
  }

  lemma AreaCodeDigits(a: string)
    requires AllIn(a, IsDigit)
    ensures DigitsOnly("(" + a + ")") == a
  {
    DigitsOnlyAppend("(" + a, ")");
    DigitsOnlyAppend("(", a);
    DigitsOnlyOfDigits(a);
    DigitsOnlyOfNonDigits("(");
    DigitsOnlyOfNonDigits(")");
  }

  /** The first alternative matches `s[i..e]`, its optional separators
      ending at `p` and `q`. */
  ghost predicate IsTenDigitMatch(s: string, i: nat, p: nat, q: nat, e: nat) {
    && DigitsAt(s, i, 3) && SeparatorSpan(s, i + 3, p)
    && DigitsAt(s, p, 3) && SeparatorSpan(s, p + 3, q)
    && DigitsAt(s, q, 4) && e == q + 4
  }

  /** The second alternative matches `s[i..e]`, the white space ending at
      `p` and the optional separator at `q`. */
  ghost predicate IsParenthesisedMatch(s: string, i: nat, p: nat, q: nat, e: nat) {
    && i + 5 <= p <= |s| && s[i] == '(' && DigitsAt(s, i + 1, 3) && s[i + 4] == ')'
    && (forall k :: i + 5 <= k < p ==> IsSpace(s[k]))
    && DigitsAt(s, p, 3) && SeparatorSpan(s, p + 3, q)
    && DigitsAt(s, q, 4) && e == q + 4
  }

  /** The third alternative matches `s[i..e]`, the optional separator
      ending at `p`. */
  ghost predicate IsSevenDigitMatch(s: string, i: nat, p: nat, e: nat) {
    DigitsAt(s, i, 3) && SeparatorSpan(s, i + 3, p) && DigitsAt(s, p, 4) && e == p + 4
  }

  ghost predicate TenDigitShape(s: string, i: nat, e: nat) {
    exists p: nat, q: nat :: IsTenDigitMatch(s, i, p, q, e)
  }

  ghost predicate ParenthesisedShape(s: string, i: nat, e: nat) {
    exists p: nat, q: nat :: IsParenthesisedMatch(s, i, p, q, e)
  }

  ghost predicate SevenDigitShape(s: string, i: nat, e: nat) {
    exists p: nat :: IsSevenDigitMatch(s, i, p, e)
  }

  /** The alternation matches `s[i..e]`: by the first alternative that can
      match at `i` at all. */
  ghost predicate PhoneShape(s: string, i: nat, e: nat) {
    || TenDigitShape(s, i, e)
    || ((forall e': nat :: !TenDigitShape(s, i, e')) && ParenthesisedShape(s, i, e))
    || ((forall e': nat :: !TenDigitShape(s, i, e') && !ParenthesisedShape(s, i, e')) && SevenDigitShape(s, i, e))
  }

  lemma TenDigitsAtIsShape(s: string, i: nat, e: nat)
    ensures TenDigitsAt(s, i) == Some(e) <==> TenDigitShape(s, i, e)
  {
    if TenDigitsAt(s, i) == Some(e) {
      var p := SkipSeparator(s, i + 3);
      assert IsTenDigitMatch(s, i, p, SkipSeparator(s, p + 3), e);
    }
    if TenDigitShape(s, i, e) {
      var p: nat, q: nat :| IsTenDigitMatch(s, i, p, q, e);
      assert IsDigit(s[p]) && IsDigit(s[q]);
    }
  }

  lemma ParenthesisedAtIsShape(s: string, i: nat, e: nat)
    ensures ParenthesisedAt(s, i) == Some(e) <==> ParenthesisedShape(s, i, e)
  {
    if ParenthesisedAt(s, i) == Some(e) {
      assert s[i] == s[i..i + 1][0] && s[i + 4] == s[i + 4..i + 5][0];
      var p := RunEnd(s, i + 5, IsSpace);
      assert IsParenthesisedMatch(s, i, p, SkipSeparator(s, p + 3), e);
    }
    if ParenthesisedShape(s, i, e) {
      var p: nat, q: nat :| IsParenthesisedMatch(s, i, p, q, e);
      assert s[i..i + 1] == "(" && s[i + 4..i + 5] == ")";
      assert IsDigit(s[p]) && IsDigit(s[q]);
      RunEndAt(s, i + 5, p, IsSpace);
    }
  }

  lemma SevenDigitsAtIsShape(s: string, i: nat, e: nat)
    ensures SevenDigitsAt(s, i) == Some(e) <==> SevenDigitShape(s, i, e)
  {
    if SevenDigitsAt(s, i) == Some(e) {
      assert IsSevenDigitMatch(s, i, SkipSeparator(s, i + 3), e);
    }
    if SevenDigitShape(s, i, e) {
      var p: nat :| IsSevenDigitMatch(s, i, p, e);
      assert IsDigit(s[p]);
    }
  }

  /** The alternation anchored at `i` ends at `e` exactly when `s[i..e]`
      has the shape of the first alternative that can match at `i`. */
  lemma PhoneAtIsShape(s: string, i: nat, e: nat)
    ensures PhoneAt(s, i) == Some(e) <==> PhoneShape(s, i, e)
  {
    forall e': nat
      ensures TenDigitsAt(s, i) == Some(e') <==> TenDigitShape(s, i, e')
      ensures ParenthesisedAt(s, i) == Some(e') <==> ParenthesisedShape(s, i, e')
    {
      TenDigitsAtIsShape(s, i, e');
      ParenthesisedAtIsShape(s, i, e');
    }
    SevenDigitsAtIsShape(s, i, e);
  }

  /** Every number found comes from a piece of text of the shape the
      alternation matches, and no such piece starts at a position that no
      match covers. */
  lemma {:induction false} PhoneNumbersAreShapedMatches(s: string)
    ensures var spans := FindAll(PhoneAt, s, 0);
      && (forall k :: 0 <= k < |spans| ==> PhoneShape(s, spans[k].start, spans[k].end))
      && (forall p: nat, e: nat :: p < |s| && !Covered(spans, p) ==> !PhoneShape(s, p, e))
  {
    var spans := FindAll(PhoneAt, s, 0);
    forall k | 0 <= k < |spans|
      ensures PhoneShape(s, spans[k].start, spans[k].end)
    {
      PhoneAtIsShape(s, spans[k].start, spans[k].end);
    }
    FindAllIsLeftmostScan(PhoneAt, s, 0);
    forall p: nat, e: nat | p < |s| && !Covered(spans, p)
      ensures !PhoneShape(s, p, e)
    {
      PhoneAtIsShape(s, p, e);
    }
  }

  /** A character that can occur in a match after its first one. */
  predicate InPhoneMatch(c: char) { IsDigit(c) || IsSeparator(c) || c == ')' }

  /** A match starts with a digit or with the `(` of a parenthesised area
      code, and goes on with digits, separators and `)` only. */
  lemma MatchCharacters(s: string, j: nat)
    requires PhoneAt(s, j).Some?
    ensures IsDigit(s[j]) || (s[j] == '(' && j + 4 < |s| && s[j + 4] == ')')
    ensures forall q :: j < q < PhoneAt(s, j).value ==> InPhoneMatch(s[q])
  {
    if TenDigitsAt(s, j).Some? {
    } else if ParenthesisedAt(s, j).Some? {
      assert s[j] == s[j..j + 1][0];
      assert s[j + 4] == s[j + 4..j + 5][0];
    } else {
    }
  }

  /** No match starting before `i` reaches past `i` when the character
      before `i` cannot continue a match and `s[i + 3]` is not `)`. */
  lemma NoMatchCrosses(s: string, i: nat)
    requires i <= |s|
    requires i > 0 ==> !InPhoneMatch(s[i - 1])
    requires i + 3 < |s| ==> s[i + 3] != ')'
    ensures forall j: nat :: j < i && PhoneAt(s, j).Some? ==> PhoneAt(s, j).value <= i
  {
    forall j: nat | j < i && PhoneAt(s, j).Some?
      ensures PhoneAt(s, j).value <= i
    {
      MatchCharacters(s, j);
    }
  }

  /** A match at `i` that no earlier match can reach across is one of the
      numbers returned: the digits of its own text. */
  lemma NumberFoundAt(s: string, i: nat) returns (k: nat)
    requires PhoneAt(s, i).Some?
    requires i > 0 ==> !InPhoneMatch(s[i - 1])
    requires i + 3 < |s| ==> s[i + 3] != ')'
    ensures k < |GetPhoneNumbers(s)| && FindAll(PhoneAt, s, 0)[k] == Span(i, PhoneAt(s, i).value)
    ensures GetPhoneNumbers(s)[k] == DigitsOnly(s[i..PhoneAt(s, i).value])
  {
    NoMatchCrosses(s, i);
    k := DelimitedMatch(PhoneAt, s, i);
  }

  /** The fourth character of a ten-digit form is a separator or a digit,
      never the `)` of a parenthesised area code. */
  lemma TenDigitFormFourth(a: string, sep1: string, b: string, sep2: string, c: string)
    requires |a| == 3 && |b| == 3 && |c| == 4
    requires AllIn(b, IsDigit) && OptionalSeparator(sep1)
    ensures (a + sep1 + b + sep2 + c)[3] != ')'
  {
    var form := a + sep1 + b + sep2 + c;
    if |sep1| == 1 {
      assert form[3] == sep1[0];
    } else {
      assert form[3] == b[0];
    }
  }

  /** A ten-digit form is found wherever it follows the start of the text
      or a character that cannot continue a match (neither a digit, a
      separator nor `)`), whatever comes after it: the number at index `k`
      is its ten digits. */
  lemma TenDigitFormInContext(pre: string, a: string, sep1: string, b: string, sep2: string, c: string, post: string)
    returns (k: nat)
    requires |a| == 3 && |b| == 3 && |c| == 4
    requires AllIn(a, IsDigit) && AllIn(b, IsDigit) && AllIn(c, IsDigit)
    requires OptionalSeparator(sep1) && OptionalSeparator(sep2)
    requires pre == [] || !InPhoneMatch(pre[|pre| - 1])
    ensures var form := a + sep1 + b + sep2 + c;
      var s := pre + form + post;
      && k < |GetPhoneNumbers(s)| && GetPhoneNumbers(s)[k] == a + b + c
      && FindAll(PhoneAt, s, 0)[k] == Span(|pre|, |pre| + |form|)
  {
    var form := a + sep1 + b + sep2 + c;
    var s := pre + form + post;
    var i := |pre|;
    TenDigitFormMatched(pre, a, sep1, b, sep2, c, post);
    assert s[i + 3] == form[3];
    TenDigitFormFourth(a, sep1, b, sep2, c);
    assert i > 0 ==> s[i - 1] == pre[|pre| - 1];
    k := NumberFoundAt(s, i);
    assert s[i..i + |form|] == form;
    TenDigitFormDigits(a, sep1, b, sep2, c);
  }

  /** The same for a parenthesised form. */
  lemma ParenthesisedFormInContext(pre: string, a: string, b: string, c: string, spaces: string, sep: string, post: string)
    returns (k: nat)
    requires |a| == 3 && |b| == 3 && |c| == 4
    requires AllIn(a, IsDigit) && AllIn(b, IsDigit) && AllIn(c, IsDigit)
    requires AllIn(spaces, IsSpace) && OptionalSeparator(sep)
    requires pre == [] || !InPhoneMatch(pre[|pre| - 1])
    ensures var form := "(" + a + ")" + spaces + b + sep + c;
      var s := pre + form + post;
      && k < |GetPhoneNumbers(s)| && GetPhoneNumbers(s)[k] == a + b + c
      && FindAll(PhoneAt, s, 0)[k] == Span(|pre|, |pre| + |form|)
  {
    var form := "(" + a + ")" + spaces + b + sep + c;
    var s := pre + form + post;
    var i := |pre|;
    ParenthesisedFormMatched(pre, a, b, c, spaces, sep, post);
    assert s[i + 3] == form[3] == a[2];
    assert i > 0 ==> s[i - 1] == pre[|pre| - 1];
    k := NumberFoundAt(s, i);
    assert s[i..i + |form|] == form;
    ParenthesisedFormDigits(a, b, c, spaces, sep);
  }
}
