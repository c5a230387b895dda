/**
 * `process_resumes`: walk a directory listing, decode every file whose name
 * ends in `.pdf` or `.docx`, skip every other file, and record the eight
 * extracted fields of each decoded resume under its file name.
 *
 * The decoders and the language-model extractors (name, skills, locations,
 * sentence segmentation, experience) are supplied as functions; a decoder
 * that raises is a None, which aborts the whole batch as the exception does.
 * The result dictionary is a map together with its keys in insertion order.
 */
module Batch {
  import opened Text
  import Email
  import Phone
  import Institutes
  import Education

  /** A value of the per-resume record. */
  datatype Field =
    | Strings(items: seq<string>)
    | MaybeText(text: Option<string>)
    | DegreeEntries(entries: seq<Education.Degree>)

  type Record = map<string, Field>

  /** The parts of the pipeline outside the core, as functions of their input. */
  datatype Services = Services(
    pdfText: string -> Option<string>,
    docxText: string -> Option<string>,
    name: string -> Option<string>,
    skills: string -> seq<string>,
    locations: string -> seq<string>,
    sentences: string -> seq<string>,
    experience: string -> seq<string>,
    stopwords: set<string>)

  /** The dictionary built by the loop: its entries and its key order. */
  datatype Batch = Batch(order: seq<string>, records: map<string, Record>)

  /** `str.endswith` */
  predicate EndsWith(s: string, suffix: string) {
    |suffix| <= |s| && s[|s| - |suffix|..] == suffix
  }

  predicate Supported(filename: string) {
    EndsWith(filename, ".pdf") || EndsWith(filename, ".docx")
  }

  /** The last character of a name tells the two extensions apart. */
  lemma ExtensionsExclusive(filename: string)
    ensures !(EndsWith(filename, ".pdf") && EndsWith(filename, ".docx"))
  {
    if EndsWith(filename, ".pdf") {
      assert filename[|filename| - 1] == filename[|filename| - 4..][3] == 'f';
    }
    if EndsWith(filename, ".docx") {
      assert filename[|filename| - 1] == filename[|filename| - 5..][4] == 'x';
    }
  }

  /** The text of a supported file, decoded by the reader for its
      extension; None when that decoder fails. */
  function Decoded(svc: Services, filename: string): (r: Option<string>)
    requires Supported(filename)
    ensures EndsWith(filename, ".pdf") ==> r == svc.pdfText(filename)
    ensures EndsWith(filename, ".docx") ==> r == svc.docxText(filename)
  {
    ExtensionsExclusive(filename);
    if EndsWith(filename, ".pdf") then svc.pdfText(filename) else svc.docxText(filename)
  }

  /** The keys of every record. */
  const RecordFields: set<string> := {
    "Email", "Phone Number", "Name", "Skills", "Locations", "Degree",
    "Educational Institute", "Experience"
  }

  /** The record of one decoded resume. */
  function RecordOf(text: string, svc: Services): (r: Record)
    ensures r.Keys == RecordFields
    ensures r["Email"] == Strings(Email.GetEmailAddresses(text))
    ensures r["Phone Number"] == Strings(Phone.GetPhoneNumbers(text))
    ensures r["Degree"] == DegreeEntries(Education.Degrees(svc.sentences(text), svc.stopwords))
    ensures r["Educational Institute"] == Strings(Institutes.ExtractEducationalInstitutes(text))
  {
    map[
      "Email" := Strings(Email.GetEmailAddresses(text)),
      "Phone Number" := Strings(Phone.GetPhoneNumbers(text)),
      "Name" := MaybeText(svc.name(text)),
      "Skills" := Strings(svc.skills(text)),
      "Locations" := Strings(svc.locations(text)),
      "Degree" := DegreeEntries(Education.Degrees(svc.sentences(text), svc.stopwords)),
      "Educational Institute" := Strings(Institutes.ExtractEducationalInstitutes(text)),
      "Experience" := Strings(svc.experience(text))
    ]
  }

  /** The supported file names of a listing, each once, in the order of
      their first appearance. */
  function Accepted(listing: seq<string>): (r: seq<string>)
    ensures NoDuplicates(r)
    ensures forall f :: f in r <==> f in listing && Supported(f)
    ensures forall a, b :: 0 <= a < b < |r| ==> FirstIndex(listing, r[a]) < FirstIndex(listing, r[b])
    decreases |listing|
  {
    if listing == [] then []
    else
      var init := Accepted(listing[..|listing| - 1]);
      var f := listing[|listing| - 1];
      assert forall g :: g in listing <==> g in listing[..|listing| - 1] || g == f;
      FirstIndicesExtend(listing, init);
      if Supported(f) && f !in init then init + [f] else init
  }

  /** First positions within the listing without its last name are first
      positions in the whole listing, and that last name, when new, comes
      after all of them. */
  lemma FirstIndicesExtend(listing: seq<string>, init: seq<string>)
    requires |listing| > 0
    requires forall a :: 0 <= a < |init| ==> init[a] in listing[..|listing| - 1] && init[a] in listing
    requires forall a, b :: 0 <= a < b < |init| ==>
      FirstIndex(listing[..|listing| - 1], init[a]) < FirstIndex(listing[..|listing| - 1], init[b])
    ensures forall a, b :: 0 <= a < b < |init| ==> FirstIndex(listing, init[a]) < FirstIndex(listing, init[b])
    ensures var f := listing[|listing| - 1];
      f !in listing[..|listing| - 1] ==>
        forall a :: 0 <= a < |init| ==> FirstIndex(listing, init[a]) < FirstIndex(listing, f)
  {
    var n := |listing| - 1;
    forall a | 0 <= a < |init|
      ensures FirstIndex(listing, init[a]) == FirstIndex(listing[..n], init[a]) < n
    {
      FirstIndexInPrefix(listing, n, init[a]);
    }
    if listing[n] !in listing[..n] {
      FirstIndexAtEnd(listing, n);
    }
  }

  /** The first supported file of the listing whose decoder fails. */
  function FirstDecodeFailure(listing: seq<string>, svc: Services): (r: Option<string>)
    ensures r.None? <==> forall f :: f in listing && Supported(f) ==> Decoded(svc, f).Some?
    ensures r.Some? ==> r.value in listing && Supported(r.value) && Decoded(svc, r.value).None?
    decreases |listing|
  {
    if listing == [] then None
    else
      var init := FirstDecodeFailure(listing[..|listing| - 1], svc);
      var f := listing[|listing| - 1];
      assert forall g :: g in listing <==> g in listing[..|listing| - 1] || g == f;
      if init.Some? then init
      else if Supported(f) && Decoded(svc, f).None? then Some(f)
      else None
  }

  /** A failure in a prefix is the failure of the whole listing. */
  lemma {:induction false} FailureInPrefix(listing: seq<string>, n: nat, svc: Services)
    requires n <= |listing| && FirstDecodeFailure(listing[..n], svc).Some?
    ensures FirstDecodeFailure(listing, svc) == FirstDecodeFailure(listing[..n], svc)
    decreases |listing| - n
  {
    if n < |listing| {
      assert listing[..n + 1][..n] == listing[..n];
      FailureInPrefix(listing, n + 1, svc);
    } else {
      assert listing[..n] == listing;
    }
  }

  /** One more file name extends the specification of the prefix. */
  lemma PrefixStep(listing: seq<string>, i: nat, svc: Services)
    requires i < |listing|
    ensures var f := listing[i];
      Accepted(listing[..i + 1]) ==
        if Supported(f) && f !in Accepted(listing[..i]) then Accepted(listing[..i]) + [f] else Accepted(listing[..i])
    ensures var f := listing[i];
      FirstDecodeFailure(listing[..i], svc).None? ==>
        FirstDecodeFailure(listing[..i + 1], svc) == if Supported(f) && Decoded(svc, f).None? then Some(f) else None
  {
    assert listing[..i + 1][..i] == listing[..i];
  }

  /** The body of the loop for one decoded resume: run every extractor on
      its text and gather the results under the eight field names. */
  method ExtractRecord(text: string, svc: Services) returns (resumeInfo: Record)
    ensures resumeInfo == RecordOf(text, svc)
  {
    var email := Email.GetEmailAddresses(text);
    var phoneNumber := Phone.GetPhoneNumbers(text);
    var name := svc.name(text);
    var skills := svc.skills(text);
    var locations := svc.locations(text);
    var education := Education.ExtractEducation(svc.sentences(text), svc.stopwords);
    var institutes := Institutes.ExtractEducationalInstitutes(text);
    var experience := svc.experience(text);

    resumeInfo := map[
      "Email" := Strings(email),
      "Phone Number" := Strings(phoneNumber),
      "Name" := MaybeText(name),
      "Skills" := Strings(skills),
      "Locations" := Strings(locations),
      "Degree" := DegreeEntries(education),
      "Educational Institute" := Strings(institutes),
      "Experience" := Strings(experience)
    ];
  }

  /** The dictionary built so far describes the files `seen`: its keys are
      the accepted names in order, each holding the record of its text. */
  ghost predicate Describes(seen: seq<string>, svc: Services, order: seq<string>, records: map<string, Record>) {
    && order == Accepted(seen)
    && records.Keys == Elements(order)
    && forall f :: f in records ==>
         Supported(f) && Decoded(svc, f).Some? && records[f] == RecordOf(Decoded(svc, f).value, svc)
  }

  /** Skipping an unsupported file keeps the description. */
  lemma SkipKeepsDescription(listing: seq<string>, i: nat, svc: Services, order: seq<string>, records: map<string, Record>)
    requires i < |listing| && !Supported(listing[i])
    requires Describes(listing[..i], svc, order, records)
    ensures Describes(listing[..i + 1], svc, order, records)
  {
    PrefixStep(listing, i, svc);
  }

  /** Storing the record of a decoded file extends the description. */
  lemma StoreExtendsDescription(listing: seq<string>, i: nat, svc: Services, order: seq<string>, records: map<string, Record>, text: string)
    requires i < |listing| && Supported(listing[i]) && Decoded(svc, listing[i]) == Some(text)
    requires Describes(listing[..i], svc, order, records)
    ensures var f := listing[i];
      Describes(listing[..i + 1], svc, if f in records then order else order + [f], records[f := RecordOf(text, svc)])
  {
    var f := listing[i];
    PrefixStep(listing, i, svc);
    StoreKeys(order, records, f, RecordOf(text, svc));
    StoreValues(svc, records, f, text);
  }

  lemma StoreKeys(order: seq<string>, records: map<string, Record>, f: string, info: Record)
    requires records.Keys == Elements(order)
    ensures records[f := info].Keys == Elements(if f in records then order else order + [f])
  {
    assert Elements(order + [f]) == Elements(order) + {f};
  }

  lemma StoreValues(svc: Services, records: map<string, Record>, f: string, text: string)
    requires Supported(f) && Decoded(svc, f) == Some(text)
    requires forall g :: g in records ==>
      Supported(g) && Decoded(svc, g).Some? && records[g] == RecordOf(Decoded(svc, g).value, svc)
    ensures var records' := records[f := RecordOf(text, svc)];
      forall g :: g in records' ==>
        Supported(g) && Decoded(svc, g).Some? && records'[g] == RecordOf(Decoded(svc, g).value, svc)
  {
    var records' := records[f := RecordOf(text, svc)];
    forall g | g in records'
      ensures Supported(g) && Decoded(svc, g).Some? && records'[g] == RecordOf(Decoded(svc, g).value, svc)
    {
      if g != f {
        assert g in records && records'[g] == records[g];
      }
    }
  }

  method ProcessResumes(listing: seq<string>, svc: Services) returns (result: Result<Batch, string>)
    ensures result.Failure? <==> FirstDecodeFailure(listing, svc).Some?
    ensures result.Failure? ==> result.error == FirstDecodeFailure(listing, svc).value
    ensures result.Success? ==> result.value.order == Accepted(listing)
    ensures result.Success? ==> result.value.records.Keys == Elements(result.value.order)
    ensures result.Success? ==> forall f :: f in result.value.records ==>
      Supported(f) && Decoded(svc, f).Some? && result.value.records[f] == RecordOf(Decoded(svc, f).value, svc)
  {
    var order: seq<string> := [];
    var records: map<string, Record> := map[];
    for i := 0 to |listing|
      invariant FirstDecodeFailure(listing[..i], svc).None?
      invariant Describes(listing[..i], svc, order, records)
    {
      var filename := listing[i];
      assert FirstDecodeFailure(listing[..i + 1], svc) ==
        if Supported(filename) && Decoded(svc, filename).None? then Some(filename) else None
      by {
        PrefixStep(listing, i, svc);
      }
      var text: string;
      if EndsWith(filename, ".pdf") {
        var decoded := svc.pdfText(filename);
        if decoded.None? {
          FailureInPrefix(listing, i + 1, svc);
          return Failure(filename);
        }
        text := decoded.value;
      } else if EndsWith(filename, ".docx") {
        var decoded := svc.docxText(filename);
        if decoded.None? {
          FailureInPrefix(listing, i + 1, svc);
          return Failure(filename);
        }
        text := decoded.value;
      } else {
        SkipKeepsDescription(listing, i, svc, order, records);
        continue;
      }
      var resumeInfo := ExtractRecord(text, svc);
      StoreExtendsDescription(listing, i, svc, order, records, text);
      if filename !in records {
        order := order + [filename];
      }
      records := records[filename := resumeInfo];
    }
    assert listing[..|listing|] == listing;
    return Success(Batch(order, records));
  }
}
