/**
 * `get_email_addresses`: findall of `[\w\.-]+@[\w\.-]+`.
 *
 * Neither character class contains `@`, so the first greedy run can only
 * stop right before the `@` (backtracking into it cannot find an `@`), and
 * the second greedy run takes every address character that follows: a
 * match anchored at `i` is determined without backtracking.
 */
module Email {
  import opened Text
  import opened Scan

  /** `[\w\.-]` */
  predicate IsAddressChar(c: char) { IsWordChar(c) || c == '.' || c == '-' }

  /** The end of the match of `[\w\.-]+@[\w\.-]+` anchored at `i`. */
  function EmailAt(s: string, i: nat): (r: Option<nat>)
    ensures r.Some? ==> i < r.value <= |s|
  {
    if i < |s| && IsAddressChar(s[i]) then
      var at := RunEnd(s, i, IsAddressChar);
      if at + 1 < |s| && s[at] == '@' && IsAddressChar(s[at + 1]) then
        Some(RunEnd(s, at + 1, IsAddressChar))
      else None
    else None
  }

  /** `s[i..e]` is a run of address characters, an `@` at `at`, and a run of
      address characters: one way for the pattern to match `s[i..e]`. */
  ghost predicate IsEmailMatch(s: string, i: nat, at: nat, e: nat) {
    && i < at && at + 1 < e <= |s|
    && s[at] == '@'
    && (forall q :: i <= q < at ==> IsAddressChar(s[q]))
    && (forall q :: at < q < e ==> IsAddressChar(s[q]))
  }

  /** An address as the pattern shapes it: exactly one `@`, with a non-empty
      run of address characters on each side. */
  ghost predicate IsAddressShaped(t: string) {
    exists at :: 0 < at < |t| - 1 && t[at] == '@' &&
      forall q :: 0 <= q < |t| && q != at ==> IsAddressChar(t[q])
  }

  /** `findall`: the text of every match, in text order. Each address is
      the text of one span of the scan and is shaped like an address. */
  function GetEmailAddresses(s: string): (r: seq<string>)
    ensures var spans := FindAll(EmailAt, s, 0);
      && |r| == |spans|
      && (forall k :: 0 <= k < |r| ==> r[k] == s[spans[k].start..spans[k].end] && IsAddressShaped(r[k]))
      && (forall a, b :: 0 <= a < b < |spans| ==> spans[a].end <= spans[b].start)
  {
    MatchesAreAddressShaped(s);
    Substrings(s, FindAll(EmailAt, s, 0))
  }

  /** EmailAt finds a match exactly when the pattern can match at `i`, and
      then the longest one, as the greedy second run does. */
  lemma EmailAtIsGreedyMatch(s: string, i: nat)
    ensures EmailAt(s, i).Some? <==> exists at: nat, e: nat :: IsEmailMatch(s, i, at, e)
    ensures EmailAt(s, i).Some? ==>
      (exists at: nat :: IsEmailMatch(s, i, at, EmailAt(s, i).value)) &&
      forall at: nat, e: nat :: IsEmailMatch(s, i, at, e) ==> e <= EmailAt(s, i).value
  {
    if i < |s| && IsAddressChar(s[i]) {
      var at := RunEnd(s, i, IsAddressChar);
      forall at': nat, e: nat | IsEmailMatch(s, i, at', e)
        ensures at' == at && at + 1 < |s| && IsAddressChar(s[at + 1])
        ensures EmailAt(s, i).Some? && e <= EmailAt(s, i).value
      {
        assert IsAddressChar(s[at + 1]);
        var end := RunEnd(s, at + 1, IsAddressChar);
        if end < e {
          assert IsAddressChar(s[end]);
        }
      }
      if EmailAt(s, i).Some? {
        assert IsEmailMatch(s, i, at, EmailAt(s, i).value);
      }
    }
  }

  /** The text of every match of the scan is shaped like an address. */
  lemma MatchesAreAddressShaped(s: string)
    ensures var spans := FindAll(EmailAt, s, 0);
      forall k :: 0 <= k < |spans| ==> IsAddressShaped(s[spans[k].start..spans[k].end])
  {
    var spans := FindAll(EmailAt, s, 0);
    forall k | 0 <= k < |spans|
      ensures IsAddressShaped(s[spans[k].start..spans[k].end])
    {
      var i, e := spans[k].start, spans[k].end;
      var t := s[i..e];
      EmailAtIsGreedyMatch(s, i);
      var at: nat :| IsEmailMatch(s, i, at, e);
      assert t[at - i] == '@';
      forall q | 0 <= q < |t| && q != at - i
        ensures IsAddressChar(t[q])
      {
        assert t[q] == s[i + q];
      }
    }
  }

  /** A text without `@` holds no address. */
  lemma NoAtSignNoAddress(s: string)
    requires '@' !in s
    ensures GetEmailAddresses(s) == []
  {
    forall i: nat
      ensures EmailAt(s, i) == None
    {
      if i < |s| && IsAddressChar(s[i]) {
        var at := RunEnd(s, i, IsAddressChar);
        if at < |s| {
          assert s[at] in s;
        }
      }
    }
    NoMatchNoResult(EmailAt, s);
  }

  /** A well-formed address on its own is returned verbatim. */
  lemma AddressVerbatim(local: string, domain: string)
    requires |local| > 0 && AllIn(local, IsAddressChar)
    requires |domain| > 0 && AllIn(domain, IsAddressChar)
    ensures GetEmailAddresses(local + "@" + domain) == [local + "@" + domain]
  {
    var s := local + "@" + domain;
    assert forall q :: 0 <= q < |local| ==> s[q] == local[q];
    assert s[|local|] == '@';
    assert forall q :: |local| < q < |s| ==> s[q] == domain[q - |local| - 1];
    var at := RunEnd(s, 0, IsAddressChar);
    assert at == |local|;
    assert EmailAt(s, 0) == Some(|s|);
    WholeMatch(EmailAt, s);
    assert s[0..|s|] == s;
  }

  /** A match consists of address characters and `@` only. */
  lemma MatchCharacters(s: string, j: nat)
    requires EmailAt(s, j).Some?
    ensures forall q :: j <= q < EmailAt(s, j).value ==> IsAddressChar(s[q]) || s[q] == '@'
  {
  }

  /** An address `local@domain` at `i`, followed by the end of the text or
      a character that is not an address character, is matched whole. */
  lemma AddressMatchedAt(s: string, i: nat, local: string, domain: string)
    requires |local| > 0 && AllIn(local, IsAddressChar)
    requires |domain| > 0 && AllIn(domain, IsAddressChar)
    requires HasAt(s, i, local + "@" + domain)
    requires var e := i + |local| + 1 + |domain|; e == |s| || !IsAddressChar(s[e])
    ensures EmailAt(s, i) == Some(i + |local| + 1 + |domain|)
  {
    var a := local + "@" + domain;
    var at := i + |local|;
    var e := at + 1 + |domain|;
    assert s[i..e] == a;
    forall q | i <= q < at
      ensures IsAddressChar(s[q])
    {
      assert s[q] == a[q - i] == local[q - i];
    }
    assert s[at] == a[|local|] == '@';
    forall q | at + 1 <= q < e
      ensures IsAddressChar(s[q])
    {
      assert s[q] == a[q - i] == domain[q - at - 1];
    }
    RunEndAt(s, i, at, IsAddressChar);
    RunEndAt(s, at + 1, e, IsAddressChar);
  }

  /** No match starting before `i` reaches past `i` when the character
      before `i` is neither an address character nor `@`. */
  lemma NoMatchCrosses(s: string, i: nat)
    requires i <= |s|
    requires i > 0 ==> !IsAddressChar(s[i - 1]) && s[i - 1] != '@'
    ensures forall j: nat :: j < i && EmailAt(s, j).Some? ==> EmailAt(s, j).value <= i
  {
    forall j: nat | j < i && EmailAt(s, j).Some?
      ensures EmailAt(s, j).value <= i
    {
      MatchCharacters(s, j);
    }
  }

  /** An address at `i` delimited on both sides by characters that cannot
      belong to it is returned verbatim, as the span at index `k`. */
  lemma AddressFoundAt(s: string, i: nat, local: string, domain: string) returns (k: nat)
    requires |local| > 0 && AllIn(local, IsAddressChar)
    requires |domain| > 0 && AllIn(domain, IsAddressChar)
    requires HasAt(s, i, local + "@" + domain)
    requires i > 0 ==> !IsAddressChar(s[i - 1]) && s[i - 1] != '@'
    requires var e := i + |local| + 1 + |domain|; e == |s| || !IsAddressChar(s[e])
    ensures k < |GetEmailAddresses(s)| && GetEmailAddresses(s)[k] == local + "@" + domain
    ensures FindAll(EmailAt, s, 0)[k].start == i
  {
    AddressMatchedAt(s, i, local, domain);
    NoMatchCrosses(s, i);
    k := DelimitedMatch(EmailAt, s, i);
  }

  /** An address delimited on both sides by characters that cannot belong
      to it is returned verbatim at the index `k` found, wherever it occurs
      in the text: `pre` ends with neither an address character nor `@`,
      and `post` starts with a character that is not an address character. */
  lemma AddressInContext(pre: string, local: string, domain: string, post: string) returns (k: nat)
    requires |local| > 0 && AllIn(local, IsAddressChar)
    requires |domain| > 0 && AllIn(domain, IsAddressChar)
    requires pre == [] || (!IsAddressChar(pre[|pre| - 1]) && pre[|pre| - 1] != '@')
    requires post == [] || !IsAddressChar(post[0])
    ensures var s := pre + local + "@" + domain + post;
      && k < |GetEmailAddresses(s)|
      && GetEmailAddresses(s)[k] == local + "@" + domain
      && FindAll(EmailAt, s, 0)[k].start == |pre|
  {
    var a := local + "@" + domain;
    var s := pre + a + post;
    assert s == pre + local + "@" + domain + post;
    var i := |pre|;
    assert s[i..i + |a|] == a;
    assert i + |a| < |s| ==> s[i + |a|] == post[0];
    assert i > 0 ==> s[i - 1] == pre[|pre| - 1];
    k := AddressFoundAt(s, i, local, domain);
  }

  /** Two delimited occurrences of an address, at `i1` and later at `i2`,
      are both returned, in that order. */
  lemma AddressFoundTwice(s: string, i1: nat, i2: nat, local: string, domain: string)
    returns (k1: nat, k2: nat)
    requires |local| > 0 && AllIn(local, IsAddressChar)
    requires |domain| > 0 && AllIn(domain, IsAddressChar)
    requires i1 < i2
    requires HasAt(s, i1, local + "@" + domain) && HasAt(s, i2, local + "@" + domain)
    requires i1 > 0 ==> !IsAddressChar(s[i1 - 1]) && s[i1 - 1] != '@'
    requires !IsAddressChar(s[i2 - 1]) && s[i2 - 1] != '@'
    requires var e1 := i1 + |local| + 1 + |domain|; e1 == |s| || !IsAddressChar(s[e1])
    requires var e2 := i2 + |local| + 1 + |domain|; e2 == |s| || !IsAddressChar(s[e2])
    ensures var r := GetEmailAddresses(s);
      k1 < k2 < |r| && r[k1] == local + "@" + domain && r[k2] == local + "@" + domain
  {
    k1 := AddressFoundAt(s, i1, local, domain);
    k2 := AddressFoundAt(s, i2, local, domain);
    SpanOrder(FindAll(EmailAt, s, 0), k1, k2);
  }

  /** Nothing is deduplicated: an address occurring twice, delimited each
      time, is returned twice, the first occurrence first. */
  lemma RepeatedAddress(pre: string, local: string, domain: string, mid: string, post: string)
    returns (k1: nat, k2: nat)
    requires |local| > 0 && AllIn(local, IsAddressChar)
    requires |domain| > 0 && AllIn(domain, IsAddressChar)
    requires pre == [] || (!IsAddressChar(pre[|pre| - 1]) && pre[|pre| - 1] != '@')
    requires |mid| > 0 && !IsAddressChar(mid[0]) && !IsAddressChar(mid[|mid| - 1]) && mid[|mid| - 1] != '@'
    requires post == [] || !IsAddressChar(post[0])
    ensures var a := local + "@" + domain;
      var r := GetEmailAddresses(pre + a + mid + a + post);
      k1 < k2 < |r| && r[k1] == a && r[k2] == a
  {
    var a := local + "@" + domain;
    var s := pre + a + mid + a + post;
    var i1 := |pre|;
    var i2 := |pre| + |a| + |mid|;
    assert HasAt(s, i1, a) && HasAt(s, i2, a) by {
      assert s[i1..i1 + |a|] == a && s[i2..i2 + |a|] == a;
    }
    assert i1 > 0 ==> s[i1 - 1] == pre[|pre| - 1];
    assert s[i1 + |a|] == mid[0] && s[i2 - 1] == mid[|mid| - 1];
    assert i2 + |a| < |s| ==> s[i2 + |a|] == post[0];
    k1, k2 := AddressFoundTwice(s, i1, i2, local, domain);
  }
}
