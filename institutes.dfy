/**
 * `extract_educational_institutes`: findall of the alternation
 *   `[A-Z][a-z]* University`
 *   `| [A-Z][a-z]* Educational Institute`
 *   `| University of [A-Z][a-z]*`
 *   `| Ecole [A-Z][a-z]*`
 * wrapped in one group, so each result is the whole match.
 *
 * In the first two templates `[a-z]*` is followed by a space, which is not
 * a lower-case letter, so the greedy run can only end where the letters
 * end; in the last two it ends the pattern and takes every letter it can.
 * Each template is therefore a straight-line scan.
 */
module Institutes {
  import opened Text
  import opened Scan

  const University := " University"
  const EducationalInstitute := " Educational Institute"
  const UniversityOf := "University of "
  const Ecole := "Ecole "

  /** The end of `[A-Z][a-z]*` anchored at `i`. */
  function CapWordAt(s: string, i: nat): (r: Option<nat>)
    ensures r.Some? <==> i < |s| && IsUpper(s[i])
    ensures r.Some? ==> i < r.value <= |s|
    ensures r.Some? ==> forall q :: i < q < r.value ==> IsLower(s[q])
    ensures r.Some? ==> r.value == |s| || !IsLower(s[r.value])
  {
    if i < |s| && IsUpper(s[i]) then Some(RunEnd(s, i + 1, IsLower)) else None
  }

  /** `[A-Z][a-z]*` followed by the literal `suffix`, anchored at `i`. */
  function NamedAt(s: string, i: nat, suffix: string): (r: Option<nat>)
    ensures r.Some? ==> i < r.value <= |s|
  {
    match CapWordAt(s, i)
    case Some(j) => if HasAt(s, j, suffix) then Some(j + |suffix|) else None
    case None => None
  }

  /** The literal `prefix` followed by `[A-Z][a-z]*`, anchored at `i`. */
  function PrefixedAt(s: string, i: nat, prefix: string): (r: Option<nat>)
    ensures r.Some? ==> i < r.value <= |s|
  {
    if HasAt(s, i, prefix) then CapWordAt(s, i + |prefix|) else None
  }

  /** The alternation anchored at `i`: the first template that matches wins. */
  function InstituteAt(s: string, i: nat): (r: Option<nat>)
    ensures r.Some? ==> i < r.value <= |s|
  {
    if NamedAt(s, i, University).Some? then NamedAt(s, i, University)
    else if NamedAt(s, i, EducationalInstitute).Some? then NamedAt(s, i, EducationalInstitute)
    else if PrefixedAt(s, i, UniversityOf).Some? then PrefixedAt(s, i, UniversityOf)
    else PrefixedAt(s, i, Ecole)
  }

  /** `findall` of the alternation: the text of every match, in text
      order, each of one of the four template shapes. */
  function ExtractEducationalInstitutes(s: string): (r: seq<string>)
    ensures var spans := FindAll(InstituteAt, s, 0);
      && |r| == |spans|
      && forall k :: 0 <= k < |r| ==> r[k] == s[spans[k].start..spans[k].end] && InstitutionShaped(r[k])
  {
    MatchesAreInstitutionShaped(s);
    Substrings(s, FindAll(InstituteAt, s, 0))
  }

  /** A word `[A-Z][a-z]*`. */
  predicate CapWord(w: string) {
    |w| > 0 && IsUpper(w[0]) && forall q :: 1 <= q < |w| ==> IsLower(w[q])
  }

  datatype Template = NamedUniversity | NamedEducationalInstitute | UniversityOfName | EcoleName

  /** The text a template produces around the word `w`. */
  function Fill(f: Template, w: string): string {
    match f
    case NamedUniversity => w + University
    case NamedEducationalInstitute => w + EducationalInstitute
    case UniversityOfName => UniversityOf + w
    case EcoleName => Ecole + w
  }

  /** `t` is a capitalised word followed by `suffix`. */
  predicate NamedShape(t: string, suffix: string) {
    |t| > |suffix| && CapWord(t[..|t| - |suffix|]) && t[|t| - |suffix|..] == suffix
  }

  /** `t` is `prefix` followed by a capitalised word. */
  predicate PrefixedShape(t: string, prefix: string) {
    |t| > |prefix| && t[..|prefix|] == prefix && CapWord(t[|prefix|..])
  }

  /** `t` is one of the template texts, with a capitalised word filled in. */
  predicate HasTemplate(t: string, f: Template) {
    match f
    case NamedUniversity => NamedShape(t, University)
    case NamedEducationalInstitute => NamedShape(t, EducationalInstitute)
    case UniversityOfName => PrefixedShape(t, UniversityOf)
    case EcoleName => PrefixedShape(t, Ecole)
  }

  predicate InstitutionShaped(t: string) {
    HasTemplate(t, NamedUniversity) || HasTemplate(t, NamedEducationalInstitute)
    || HasTemplate(t, UniversityOfName) || HasTemplate(t, EcoleName)
  }

  /** Filling a template with a capitalised word gives a text of that shape. */
  lemma FillHasTemplate(f: Template, w: string)
    requires CapWord(w)
    ensures HasTemplate(Fill(f, w), f)
  {
    var t := Fill(f, w);
    match f
    case NamedUniversity =>
      assert t[..|w|] == w && t[|w|..] == University;
    case NamedEducationalInstitute =>
      assert t[..|w|] == w && t[|w|..] == EducationalInstitute;
    case UniversityOfName =>
      assert t[..|UniversityOf|] == UniversityOf && t[|UniversityOf|..] == w;
    case EcoleName =>
      assert t[..|Ecole|] == Ecole && t[|Ecole|..] == w;
  }

  /** What a suffix template matches has that template's shape. */
  lemma NamedAtShaped(s: string, i: nat, suffix: string)
    requires NamedAt(s, i, suffix).Some?
    ensures NamedShape(s[i..NamedAt(s, i, suffix).value], suffix)
  {
    var j := CapWordAt(s, i).value;
    var e := j + |suffix|;
    var t := s[i..e];
    assert t[..|t| - |suffix|] == s[i..j];
    assert t[|t| - |suffix|..] == s[j..e];
  }

  /** What a prefix template matches has that template's shape. */
  lemma PrefixedAtShaped(s: string, i: nat, prefix: string)
    requires PrefixedAt(s, i, prefix).Some?
    ensures PrefixedShape(s[i..PrefixedAt(s, i, prefix).value], prefix)
  {
    var e := PrefixedAt(s, i, prefix).value;
    var t := s[i..e];
    assert t[..|prefix|] == s[i..i + |prefix|];
    assert t[|prefix|..] == s[i + |prefix|..e];
  }

  /** Every match has the shape of one of the four templates. */
  lemma InstituteAtShaped(s: string, i: nat)
    requires InstituteAt(s, i).Some?
    ensures InstitutionShaped(s[i..InstituteAt(s, i).value])
  {
    if NamedAt(s, i, University).Some? {
      NamedAtShaped(s, i, University);
    } else if NamedAt(s, i, EducationalInstitute).Some? {
      NamedAtShaped(s, i, EducationalInstitute);
    } else if PrefixedAt(s, i, UniversityOf).Some? {
      PrefixedAtShaped(s, i, UniversityOf);
    } else {
      PrefixedAtShaped(s, i, Ecole);
    }
  }

  /** A capitalised word followed by `suffix` at `i` is found by NamedAt. */
  lemma NamedAtFinds(s: string, i: nat, e: nat, suffix: string)
    requires i <= e <= |s| && |suffix| > 0 && suffix[0] == ' '
    requires NamedShape(s[i..e], suffix)
    ensures NamedAt(s, i, suffix) == Some(e)
  {
    var t := s[i..e];
    var j := e - |suffix|;
    var w := t[..|t| - |suffix|];
    assert w == s[i..j];
    assert t[|t| - |suffix|..] == s[j..e];
    assert s[j] == suffix[0];
    assert IsUpper(s[i]) by {
      assert s[i] == w[0];
    }
    forall q | i + 1 <= q < j
      ensures IsLower(s[q])
    {
      assert s[q] == w[q - i];
    }
    RunEndAt(s, i + 1, j, IsLower);
  }

  /** `prefix` followed by a capitalised word at `i` is found by PrefixedAt. */
  lemma PrefixedAtFinds(s: string, i: nat, e: nat, prefix: string)
    requires i <= e <= |s|
    requires PrefixedShape(s[i..e], prefix)
    ensures PrefixedAt(s, i, prefix).Some?
  {
    var t := s[i..e];
    assert t[..|prefix|] == s[i..i + |prefix|];
    assert t[|prefix|..] == s[i + |prefix|..e];
  }

  /** Conversely, wherever a text of one of the four shapes starts, the
      alternation matches. */
  lemma ShapeIsMatched(s: string, i: nat, e: nat)
    requires i <= e <= |s| && InstitutionShaped(s[i..e])
    ensures InstituteAt(s, i).Some?
  {
    var t := s[i..e];
    if HasTemplate(t, NamedUniversity) {
      NamedAtFinds(s, i, e, University);
    } else if HasTemplate(t, NamedEducationalInstitute) {
      NamedAtFinds(s, i, e, EducationalInstitute);
    } else if HasTemplate(t, UniversityOfName) {
      PrefixedAtFinds(s, i, e, UniversityOf);
    } else {
      PrefixedAtFinds(s, i, e, Ecole);
    }
  }

  /** A suffix template matches `s[i..e]`. The suffix starts with a space,
      which ends the word, so no condition on what follows is needed. */
  ghost predicate NamedMatch(s: string, i: nat, e: nat, suffix: string) {
    i <= e <= |s| && NamedShape(s[i..e], suffix)
  }

  /** A prefix template matches `s[i..e]`: the greedy `[a-z]*` that ends
      the pattern stops only where the lower-case letters stop. */
  ghost predicate PrefixedMatch(s: string, i: nat, e: nat, prefix: string) {
    i <= e <= |s| && PrefixedShape(s[i..e], prefix) && (e == |s| || !IsLower(s[e]))
  }

  /** The alternation matches `s[i..e]`: by the first template that can
      match at `i` at all. */
  ghost predicate InstituteShape(s: string, i: nat, e: nat) {
    || NamedMatch(s, i, e, University)
    || ((forall e': nat :: !NamedMatch(s, i, e', University))
        && NamedMatch(s, i, e, EducationalInstitute))
    || ((forall e': nat :: !NamedMatch(s, i, e', University) && !NamedMatch(s, i, e', EducationalInstitute))
        && PrefixedMatch(s, i, e, UniversityOf))
    || ((forall e': nat :: !NamedMatch(s, i, e', University) && !NamedMatch(s, i, e', EducationalInstitute)
          && !PrefixedMatch(s, i, e', UniversityOf))
        && PrefixedMatch(s, i, e, Ecole))
  }

  /** A suffix template matches exactly the capitalised words followed by
      its suffix. */
  lemma NamedAtIsShape(s: string, i: nat, e: nat, suffix: string)
    requires |suffix| > 0 && suffix[0] == ' '
    ensures NamedAt(s, i, suffix) == Some(e) <==> NamedMatch(s, i, e, suffix)
  {
    if NamedAt(s, i, suffix) == Some(e) {
      NamedAtShaped(s, i, suffix);
    }
    if NamedMatch(s, i, e, suffix) {
      NamedAtFinds(s, i, e, suffix);
    }
  }

  /** A prefix template matches exactly its prefix followed by the longest
      capitalised word there. */
  lemma PrefixedAtIsShape(s: string, i: nat, e: nat, prefix: string)
    ensures PrefixedAt(s, i, prefix) == Some(e) <==> PrefixedMatch(s, i, e, prefix)
  {
    if PrefixedAt(s, i, prefix) == Some(e) {
      PrefixedAtShaped(s, i, prefix);
    }
    if PrefixedMatch(s, i, e, prefix) {
      PrefixedAtFinds(s, i, e, prefix);
      var t := s[i..e];
      var w := i + |prefix|;
      assert s[w] == t[|prefix|];
      forall q | w < q < e
        ensures IsLower(s[q])
      {
        assert s[q] == t[|prefix|..][q - w];
      }
      RunEndAt(s, w + 1, e, IsLower);
    }
  }

  /** The alternation matches `s[i..e]` exactly when that text has the
      shape of the first template that can match at `i`. */
  lemma InstituteAtIsShape(s: string, i: nat, e: nat)
    ensures InstituteAt(s, i) == Some(e) <==> InstituteShape(s, i, e)
  {
    forall e': nat
      ensures NamedAt(s, i, University) == Some(e') <==> NamedMatch(s, i, e', University)
      ensures NamedAt(s, i, EducationalInstitute) == Some(e') <==> NamedMatch(s, i, e', EducationalInstitute)
      ensures PrefixedAt(s, i, UniversityOf) == Some(e') <==> PrefixedMatch(s, i, e', UniversityOf)
      ensures PrefixedAt(s, i, Ecole) == Some(e') <==> PrefixedMatch(s, i, e', Ecole)
    {
      NamedAtIsShape(s, i, e', University);
      NamedAtIsShape(s, i, e', EducationalInstitute);
      PrefixedAtIsShape(s, i, e', UniversityOf);
      PrefixedAtIsShape(s, i, e', Ecole);
    }
  }

  /** The text of every match of the scan has one of the four shapes. */
  lemma MatchesAreInstitutionShaped(s: string)
    ensures var spans := FindAll(InstituteAt, s, 0);
      forall k :: 0 <= k < |spans| ==> InstitutionShaped(s[spans[k].start..spans[k].end])
  {
    var spans := FindAll(InstituteAt, s, 0);
    forall k | 0 <= k < |spans|
      ensures InstitutionShaped(s[spans[k].start..spans[k].end])
    {
      InstituteAtShaped(s, spans[k].start);
    }
  }

  /** The institutes come in text order without overlapping, and no text
      of one of the four shapes starts at a position no result covers. */
  lemma {:induction false} NoInstituteMissed(s: string)
    ensures var spans := FindAll(InstituteAt, s, 0);
      && (forall a, b :: 0 <= a < b < |spans| ==> spans[a].end <= spans[b].start)
      && (forall p: nat, e: nat :: p <= e <= |s| && !Covered(spans, p) ==> !InstitutionShaped(s[p..e]))
  {
    var spans := FindAll(InstituteAt, s, 0);
    FindAllIsLeftmostScan(InstituteAt, s, 0);
    forall p: nat, e: nat | p <= e <= |s| && InstitutionShaped(s[p..e])
      ensures Covered(spans, p)
    {
      ShapeIsMatched(s, p, e);
    }
  }

  /** A text with no capital letter names no institute. */
  lemma NoCapitalNoInstitute(s: string)
    requires forall q :: 0 <= q < |s| ==> !IsUpper(s[q])
    ensures ExtractEducationalInstitutes(s) == []
  {
    forall i: nat
      ensures InstituteAt(s, i) == None
    {
    }
    NoMatchNoResult(InstituteAt, s);
  }

  /** A template filled with a capitalised word, on its own, is returned
      verbatim, except when `Ecole` is followed by a longer word beginning
      with `University` (see EcoleUniversityShadows). */
  lemma TemplateAlone(f: Template, w: string)
    requires CapWord(w)
    requires f == EcoleName ==> !(|w| > 10 && w[..10] == University[1..])
    ensures ExtractEducationalInstitutes(Fill(f, w)) == [Fill(f, w)]
  {
    var s := Fill(f, w);
    FillHasTemplate(f, w);
    assert s[0..|s|] == s;
    match f {
      case NamedUniversity =>
        NamedAtFinds(s, 0, |s|, University);
      case NamedEducationalInstitute =>
        NamedAtFinds(s, 0, |s|, EducationalInstitute);
        NamedUniversityMisses(s, |w|);
      case UniversityOfName =>
        PrefixedAtFinds(s, 0, |s|, UniversityOf);
        UniversityOfWholeWord(w);
      case EcoleName =>
        PrefixedAtFinds(s, 0, |s|, Ecole);
        EcoleWholeWord(w);
    }
    WholeMatch(InstituteAt, s);
  }

  /** A literal is absent wherever one of its characters is not in place. */
  lemma Mismatch(s: string, i: nat, w: string, k: nat)
    requires k < |w| && (i + k >= |s| || s[i + k] != w[k])
    ensures !HasAt(s, i, w)
  {
    assert i + |w| > |s| || s[i..i + |w|][k] != w[k];
  }

  /** In `W Educational Institute` the first template cannot match. */
  lemma NamedUniversityMisses(s: string, n: nat)
    requires n < |s| && HasTemplate(s, NamedEducationalInstitute) && n == |s| - |EducationalInstitute|
    ensures NamedAt(s, 0, University) == None
  {
    assert s[..n] == s[..|s| - |EducationalInstitute|];
    assert s[n..] == EducationalInstitute;
    assert s[n] == ' ' && s[n + 1] == 'E';
    RunEndAt(s, 1, n, IsLower);
    Mismatch(s, n, University, 1);
  }

  /** In `University of W` neither suffix template matches, and the word
      runs to the end. */
  lemma UniversityOfWholeWord(w: string)
    requires CapWord(w)
    ensures var s := UniversityOf + w;
      NamedAt(s, 0, University) == None && NamedAt(s, 0, EducationalInstitute) == None
      && PrefixedAt(s, 0, UniversityOf) == Some(|s|)
  {
    var s := UniversityOf + w;
    assert s[..|UniversityOf|] == UniversityOf;
    assert forall q :: 1 <= q < 10 ==> s[q] == UniversityOf[q];
    assert s[10] == ' ' && s[11] == 'o';
    RunEndAt(s, 1, 10, IsLower);
    Mismatch(s, 10, University, 1);
    Mismatch(s, 10, EducationalInstitute, 1);
    assert forall q :: |UniversityOf| < q < |s| ==> s[q] == w[q - |UniversityOf|];
    RunEndAt(s, |UniversityOf| + 1, |s|, IsLower);
  }

  /** In `Ecole W` the whole text matches: by the last template, or by the
      first when `W` is exactly `University`. */
  lemma EcoleWholeWord(w: string)
    requires CapWord(w) && !(|w| > 10 && w[..10] == University[1..])
    ensures var s := Ecole + w;
      InstituteAt(s, 0) == Some(|s|)
  {
    var s := Ecole + w;
    assert s[..|Ecole|] == Ecole;
    assert forall q :: 1 <= q < 5 ==> s[q] == Ecole[q];
    assert s[5] == ' ';
    RunEndAt(s, 1, 5, IsLower);
    if HasAt(s, 5, University) {
      assert s[6..16] == w[..10] == University[1..];
      assert |w| == 10;
    } else {
      if |s| > 17 {
        assert s[17] == w[11];
      }
      Mismatch(s, 5, EducationalInstitute, 12);
      Mismatch(s, 0, UniversityOf, 0);
      assert forall q :: |Ecole| < q < |s| ==> s[q] == w[q - |Ecole|];
      RunEndAt(s, |Ecole| + 1, |s|, IsLower);
    }
  }

  /** Alternatives are tried in order: in `Ecole Universitytown` the first
      template matches `Ecole University` before the last template can
      take the whole word, and the rest of the word matches nothing. */
  lemma EcoleUniversityShadows(tail: string)
    requires |tail| > 0 && AllIn(tail, IsLower)
    ensures ExtractEducationalInstitutes(Ecole + University[1..] + tail) == [Ecole + University[1..]]
  {
    var s := Ecole + University[1..] + tail;
    var n := |Ecole| + |University| - 1;
    assert s[..n] == Ecole + University[1..];
    assert s[5..16] == University;
    RunEndAt(s, 1, 5, IsLower);
    assert InstituteAt(s, 0) == Some(n);
    forall p: nat | n <= p
      ensures InstituteAt(s, p) == None
    {
      if p < |s| {
        assert s[p] == tail[p - n];
      }
    }
    var r := [Span(0, n)];
    assert IsLeftmostScan(InstituteAt, s, 0, r) by {
      forall p: nat | 0 <= p < |s| && !Covered(r, p)
        ensures InstituteAt(s, p) == None
      {
        assert !(r[0].start <= p < r[0].end);
      }
    }
    LeftmostScanIsUnique(InstituteAt, s, 0, r);
  }
}
