/**
 * `extract_education` over sentences already segmented: for each sentence,
 * in order, lower-case it and walk the fixed list of degree terms; every
 * term that occurs in the lower-cased sentence and is not a stop-word
 * gives one entry, paired with the first year `(20|19)\d{2}` of the
 * sentence when there is one.
 */
module Education {
  import opened Text

  /** The degree vocabulary, in the order it is tried. */
  const EDUCATION: seq<string> := [
    "bachelor", "bachelors", "bsc", "b.sc", "b.a.", "bachelors degree",
    "master", "masters", "msc", "m.sc", "m.a.", "masters degree",
    "phd", "doctorate", "ph.d.", "doctoral degree",
    "associate", "associate degree",
    "diploma", "advanced diploma", "postgraduate diploma",
    "certificate", "professional certificate", "vocational certificate",
    "honours", "dual degree", "integrated degree", "executive degree",
    "licentiate", "specialist",
    "undergraduate", "graduate", "ssc", "hsc", "cbse", "icse", "isc"
  ]

  /** An entry: a bare term, or a term with the year found in its sentence. */
  datatype Degree = Term(term: string) | TermYear(term: string, year: string)

  /** `(20|19)\d{2}` matches at `p`. */
  predicate YearAt(t: string, p: nat) {
    && p + 4 <= |t|
    && ((t[p] == '2' && t[p + 1] == '0') || (t[p] == '1' && t[p + 1] == '9'))
    && IsDigit(t[p + 2]) && IsDigit(t[p + 3])
  }

  /** `re.search` for a year from `from`: the leftmost position where one
      starts, or None when there is none. */
  function FindYear(t: string, from: nat): (r: Option<nat>)
    ensures r.Some? ==> from <= r.value && YearAt(t, r.value)
    ensures r.Some? ==> forall p: nat :: from <= p < r.value ==> !YearAt(t, p)
    ensures r.None? ==> forall p: nat :: from <= p ==> !YearAt(t, p)
    decreases |t| - from
  {
    if from + 4 > |t| then None
    else if YearAt(t, from) then Some(from)
    else FindYear(t, from + 1)
  }

  /** The year text of a sentence, if it names one. */
  function YearOf(t: string): (r: Option<string>)
    ensures r.None? <==> forall p: nat :: !YearAt(t, p)
    ensures r.Some? ==> |r.value| == 4 && YearAt(r.value, 0)
  {
    match FindYear(t, 0)
    case Some(p) => Some(t[p..p + 4])
    case None => None
  }

  /** `edu in sent_text and edu not in STOPWORDS` */
  predicate Fires(t: string, term: string, stopwords: set<string>) {
    Contains(t, term) && term !in stopwords
  }

  /** The positions, among the first `n` terms, of the terms that fire: each
      firing position exactly once, in increasing order. */
  function FiringIndices(t: string, terms: seq<string>, stopwords: set<string>, n: nat): (r: seq<nat>)
    requires n <= |terms|
    ensures forall k :: 0 <= k < |r| ==> r[k] < n && Fires(t, terms[r[k]], stopwords)
    ensures forall a, b :: 0 <= a < b < |r| ==> r[a] < r[b]
    ensures forall j :: 0 <= j < n && Fires(t, terms[j], stopwords) ==> j in r
    decreases n
  {
    if n == 0 then []
    else FiringIndices(t, terms, stopwords, n - 1) + (if Fires(t, terms[n - 1], stopwords) then [n - 1] else [])
  }

  function Entry(term: string, year: Option<string>): Degree {
    match year
    case Some(y) => TermYear(term, y)
    case None => Term(term)
  }

  /** The entries for the terms at positions `idx`, all with the same year. */
  function Tagged(terms: seq<string>, idx: seq<nat>, year: Option<string>): (r: seq<Degree>)
    requires forall k :: 0 <= k < |idx| ==> idx[k] < |terms|
    ensures |r| == |idx|
    ensures forall k :: 0 <= k < |r| ==> r[k].term == terms[idx[k]]
    ensures forall k :: 0 <= k < |r| ==> (r[k].TermYear? <==> year.Some?)
    ensures forall k :: 0 <= k < |r| ==> r[k].TermYear? ==> r[k].year == year.value
  {
    seq(|idx|, k requires 0 <= k < |idx| => Entry(terms[idx[k]], year))
  }

  /** What one sentence contributes: only vocabulary terms that occur in
      the lower-cased sentence and are not stop-words. */
  function SentenceEntries(sentence: string, stopwords: set<string>): (r: seq<Degree>)
    ensures forall k :: 0 <= k < |r| ==> r[k].term in EDUCATION && Fires(Lower(sentence), r[k].term, stopwords)
  {
    var t := Lower(sentence);
    Tagged(EDUCATION, FiringIndices(t, EDUCATION, stopwords, |EDUCATION|), YearOf(t))
  }

  /** What a sequence of sentences contributes, sentence by sentence: only
      vocabulary terms that are not stop-words. */
  function Degrees(sentences: seq<string>, stopwords: set<string>): (r: seq<Degree>)
    ensures forall k :: 0 <= k < |r| ==> r[k].term in EDUCATION && r[k].term !in stopwords
    decreases |sentences|
  {
    if sentences == [] then []
    else Degrees(sentences[..|sentences| - 1], stopwords) + SentenceEntries(sentences[|sentences| - 1], stopwords)
  }

  method ExtractEducation(sentences: seq<string>, stopwords: set<string>) returns (education: seq<Degree>)
    ensures education == Degrees(sentences, stopwords)
  {
    education := [];
    for i := 0 to |sentences|
      invariant education == Degrees(sentences[..i], stopwords)
    {
      var sentText := Lower(sentences[i]);
      education := AppendSentence(education, sentText, EDUCATION, stopwords);
      DegreesStep(sentences, i, stopwords);
    }
    assert sentences[..|sentences|] == sentences;
  }

  /** The inner loop of `extract_education`: walk the vocabulary over one
      lower-cased sentence, appending an entry for every term that fires. */
  method AppendSentence(education0: seq<Degree>, sentText: string, terms: seq<string>, stopwords: set<string>) returns (education: seq<Degree>)
    ensures education == education0 + Tagged(terms, FiringIndices(sentText, terms, stopwords, |terms|), YearOf(sentText))
  {
    education := education0;
    for j := 0 to |terms|
      invariant education == education0 + Tagged(terms, FiringIndices(sentText, terms, stopwords, j), YearOf(sentText))
    {
      var edu := terms[j];
      if Fires(sentText, edu, stopwords) {
        var yearMatch := FindYear(sentText, 0);
        var entry;
        if yearMatch.Some? {
          var p := yearMatch.value;
          entry := TermYear(edu, sentText[p..p + 4]);
        } else {
          entry := Term(edu);
        }
        assert education + [entry] == education0 + Tagged(terms, FiringIndices(sentText, terms, stopwords, j + 1), YearOf(sentText)) by {
          YearMatchEntry(sentText, edu, yearMatch, entry);
          FiringStep(sentText, terms, stopwords, j, YearOf(sentText), education0);
        }
        education := education + [entry];
      } else {
        assert FiringIndices(sentText, terms, stopwords, j + 1) == FiringIndices(sentText, terms, stopwords, j) by {
          SilentStep(sentText, terms, stopwords, j);
        }
      }
    }
  }

  /** One more sentence appends its entries. */
  lemma DegreesStep(sentences: seq<string>, i: nat, stopwords: set<string>)
    requires i < |sentences|
    ensures Degrees(sentences[..i + 1], stopwords) == Degrees(sentences[..i], stopwords) + SentenceEntries(sentences[i], stopwords)
  {
    assert sentences[..i + 1][..i] == sentences[..i];
  }

  /** The entry built from the search result is the entry with the
      sentence's year. */
  lemma YearMatchEntry(t: string, edu: string, yearMatch: Option<nat>, entry: Degree)
    requires yearMatch == FindYear(t, 0)
    requires yearMatch.Some? ==> entry == TermYear(edu, t[yearMatch.value..yearMatch.value + 4])
    requires yearMatch.None? ==> entry == Term(edu)
    ensures entry == Entry(edu, YearOf(t))
  {
  }

  /** A firing term appends its entry. */
  lemma FiringStep(t: string, terms: seq<string>, stopwords: set<string>, j: nat, year: Option<string>, prefix: seq<Degree>)
    requires j < |terms| && Fires(t, terms[j], stopwords)
    ensures prefix + Tagged(terms, FiringIndices(t, terms, stopwords, j + 1), year)
      == prefix + Tagged(terms, FiringIndices(t, terms, stopwords, j), year) + [Entry(terms[j], year)]
  {
    assert FiringIndices(t, terms, stopwords, j + 1) == FiringIndices(t, terms, stopwords, j) + [j];
    assert Tagged(terms, FiringIndices(t, terms, stopwords, j + 1), year)
      == Tagged(terms, FiringIndices(t, terms, stopwords, j), year) + [Entry(terms[j], year)];
  }

  /** A term that does not fire adds nothing. */
  lemma SilentStep(t: string, terms: seq<string>, stopwords: set<string>, j: nat)
    requires j < |terms| && !Fires(t, terms[j], stopwords)
    ensures FiringIndices(t, terms, stopwords, j + 1) == FiringIndices(t, terms, stopwords, j)
  {
  }

  /** The terms of a list of entries. */
  function Terms(entries: seq<Degree>): (r: seq<string>)
    ensures |r| == |entries|
    ensures forall k :: 0 <= k < |r| ==> r[k] == entries[k].term
  {
    seq(|entries|, k requires 0 <= k < |entries| => entries[k].term)
  }

  /** A sentence yields a term exactly when the term is in the vocabulary,
      occurs in the lower-cased sentence, and is not a stop-word. */
  lemma SentenceTermsIff(sentence: string, stopwords: set<string>, term: string)
    ensures term in Terms(SentenceEntries(sentence, stopwords)) <==>
      term in EDUCATION && Contains(Lower(sentence), term) && term !in stopwords
  {
    var t := Lower(sentence);
    var idx := FiringIndices(t, EDUCATION, stopwords, |EDUCATION|);
    var ts := Terms(SentenceEntries(sentence, stopwords));
    if term in EDUCATION && Fires(t, term, stopwords) {
      var j :| 0 <= j < |EDUCATION| && EDUCATION[j] == term;
      var k :| 0 <= k < |idx| && idx[k] == j;
      assert ts[k] == term;
    }
  }

  /** The entries of a sentence follow the vocabulary order, one per firing
      term: entry `a` comes before entry `b` only if its term comes earlier
      in the vocabulary. */
  lemma SentenceEntriesInVocabularyOrder(sentence: string, stopwords: set<string>)
    ensures var t := Lower(sentence);
      var idx := FiringIndices(t, EDUCATION, stopwords, |EDUCATION|);
      var r := SentenceEntries(sentence, stopwords);
      && |r| == |idx|
      && (forall k :: 0 <= k < |r| ==> r[k].term == EDUCATION[idx[k]])
      && (forall a, b :: 0 <= a < b < |r| ==> idx[a] < idx[b])
  {
  }

  /** Every entry of one sentence is a pair carrying the sentence's first
      year when the sentence names a year, and every entry is bare when it
      names none. */
  lemma SentenceEntriesShareYear(sentence: string, stopwords: set<string>)
    ensures var t := Lower(sentence);
      var r := SentenceEntries(sentence, stopwords);
      && ((forall p: nat :: !YearAt(t, p)) ==> forall k :: 0 <= k < |r| ==> r[k].Term?)
      && ((exists p: nat :: YearAt(t, p)) ==> forall k :: 0 <= k < |r| ==> r[k].TermYear?)
      && forall k :: 0 <= k < |r| && r[k].TermYear? ==>
           exists p: nat :: YearAt(t, p) && r[k].year == t[p..p + 4] && forall q: nat :: q < p ==> !YearAt(t, q)
  {
    var t := Lower(sentence);
    var r := SentenceEntries(sentence, stopwords);
    forall k | 0 <= k < |r| && r[k].TermYear?
      ensures exists p: nat :: YearAt(t, p) && r[k].year == t[p..p + 4] && forall q: nat :: q < p ==> !YearAt(t, q)
    {
      var p := FindYear(t, 0).value;
      assert r[k].year == t[p..p + 4];
    }
  }

  /** Sentences contribute independently and in order; nothing is
      deduplicated across sentences. */
  lemma {:induction false} DegreesAppend(a: seq<string>, b: seq<string>, stopwords: set<string>)
    ensures Degrees(a + b, stopwords) == Degrees(a, stopwords) + Degrees(b, stopwords)
    decreases |b|
  {
    if b == [] {
      assert a + b == a;
    } else {
      var b' := b[..|b| - 1];
      assert (a + b)[..|a + b| - 1] == a + b';
      DegreesAppend(a, b', stopwords);
    }
  }

  lemma DegreesOfOne(sentence: string, stopwords: set<string>)
    ensures Degrees([sentence], stopwords) == SentenceEntries(sentence, stopwords)
  {
    assert [sentence][..0] == [];
  }

  /** Overlapping terms all fire: a sentence mentioning "bachelors degree"
      (that is not a stop-word, nor are its prefixes) yields "bachelor",
      "bachelors" and "bachelors degree", in that order. */
  lemma OverlappingTermsAllFire(sentence: string, stopwords: set<string>)
    requires Contains(Lower(sentence), "bachelors degree")
    requires "bachelor" !in stopwords && "bachelors" !in stopwords && "bachelors degree" !in stopwords
    ensures var ts := Terms(SentenceEntries(sentence, stopwords));
      exists a, b, c :: 0 <= a < b < c < |ts| && ts[a] == "bachelor" && ts[b] == "bachelors" && ts[c] == "bachelors degree"
  {
    var t := Lower(sentence);
    BachelorPrefixes(t);
    assert EDUCATION[0] == "bachelor" && EDUCATION[1] == "bachelors" && EDUCATION[5] == "bachelors degree";
    var a, b, c := FiringInOrder(t, EDUCATION, stopwords, YearOf(t), 0, 1, 5);
  }

  /** A text containing "bachelors degree" contains its two prefixes. */
  lemma BachelorPrefixes(t: string)
    requires Contains(t, "bachelors degree")
    ensures Contains(t, "bachelor") && Contains(t, "bachelors")
  {
    PrefixContained("bachelors degree", "bachelor");
    PrefixContained("bachelors degree", "bachelors");
    ContainsTransitive(t, "bachelors degree", "bachelor");
    ContainsTransitive(t, "bachelors degree", "bachelors");
  }

  /** Three terms that fire appear among the entries in vocabulary order,
      at the positions returned. */
  lemma FiringInOrder(t: string, terms: seq<string>, stopwords: set<string>, year: Option<string>, i: nat, j: nat, k: nat)
    returns (a: nat, b: nat, c: nat)
    requires i < j < k < |terms|
    requires Fires(t, terms[i], stopwords) && Fires(t, terms[j], stopwords) && Fires(t, terms[k], stopwords)
    ensures var ts := Terms(Tagged(terms, FiringIndices(t, terms, stopwords, |terms|), year));
      a < b < c < |ts| && ts[a] == terms[i] && ts[b] == terms[j] && ts[c] == terms[k]
  {
    var idx := FiringIndices(t, terms, stopwords, |terms|);
    a :| 0 <= a < |idx| && idx[a] == i;
    b :| 0 <= b < |idx| && idx[b] == j;
    c :| 0 <= c < |idx| && idx[c] == k;
  }

  lemma PrefixContained(s: string, w: string)
    requires |w| <= |s| && s[..|w|] == w
    ensures Contains(s, w)
  {
    assert HasAt(s, 0, w);
  }
}
