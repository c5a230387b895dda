# Resume parser: verified model of the text scanners and batch bookkeeping

This project models the deterministic core of the resume parser in `Parse.py` and proves properties of it in Dafny. The parser turns a folder of PDF and DOCX resumes into one record per file, with eight fields: Email, Phone Number, Name, Skills, Locations, Degree, Educational Institute and Experience. It then writes the records to a CSV file.

The model covers these parts:

- **Email extractor** (`Email`): Python's `findall` of `[\w\.-]+@[\w\.-]+`.
- **Phone extractor** (`Phone`):
  - It tries three alternatives in order: ten digits with optional separators, a parenthesised area code, and seven digits.
  - It then keeps only the digits of each match.
- **Institution extractor** (`Institutes`): the four-template alternation `[A-Z][a-z]* University | [A-Z][a-z]* Educational Institute | University of [A-Z][a-z]* | Ecole [A-Z][a-z]*`.
- **Education extractor** (`Education`):
  - It walks the sentences. For each sentence it walks the 37-term degree vocabulary over the lower-cased sentence.
  - Each term that occurs and is not a stop-word gives one entry.
  - The entry is paired with the sentence's first `(20|19)\d{2}` year when the sentence has one.
- **Batch dispatch** (`Batch`):
  - `process_resumes` walks the directory listing. It decodes `.pdf` and `.docx` files and skips every other file.
  - It stores an eight-key record under each accepted file name.
- **CSV header** (`CsvHeader`): the column list of `dump_dict_to_csv`. It is the baseline names extended with every row's keys, then deduplicated through a set.

Modules and what they share:

- `Scan` models `re.findall` once, for every pattern:
  - A pattern is given by its *matcher*: the end of the match the regex engine finds when anchored at a position.
  - `FindAll` scans left to right and resumes after each match.
  - It is proved equal to the declarative description: matches in text order, no overlap, and no match starting at an uncovered position.
- Each extractor module supplies its matcher and proves it against an independent description of what the pattern accepts: `Email.EmailAtIsGreedyMatch`, `Phone.PhoneAtIsShape` (with one shape lemma per alternative), and `Institutes.InstituteAtIsShape` (with one lemma per kind of template). Each of these fixes both where a match starts and where it ends.
- In every pattern the character classes that follow one another are disjoint: digits, separators, the `@`, and lower-case letters against a space. So the lazy `??` and the greedy `*` have only one way to succeed, and each matcher is a straight-line scan.
- `Text` holds the character classes, the greedy run `RunEnd`, substring search (`Contains`, Python's `in` on strings), `Lower` and `DigitsOnly` (`re.sub(r'\D', '', s)`).

The procedures that build lists step by step are methods with loop invariants, each proved against a specification function:

- `Education.ExtractEducation` and its inner loop `Education.AppendSentence`;
- `Batch.ProcessResumes`;
- `CsvHeader.CsvFieldnames`, with `CsvHeader.Extend` for `list.extend` and `CsvHeader.ListOfSet` for `list(set(...))`.

The scanners, which are regex calls in the source, are functions.

The surface forms `555-123-4567`, `555.123.4567`, `555 123 4567` and `(555) 123-4567` are instances of `Phone.TenDigitForms` and `Phone.ParenthesisedForm`, with the digit groups `555`, `123`, `4567`. Those lemmas prove the result is the ten digits for every choice of digit groups and separators. `Phone.TenDigitFormInContext` and `Phone.ParenthesisedFormInContext` prove the same for a form inside a longer text, given that the character before it cannot extend a match. `Email.AddressInContext` and `Email.RepeatedAddress` do the same for addresses.

Where the documentation and the code differ, the model follows the code:

- Skills and Locations are lists, because the code returns `list(set(...))`.
- The phone extractor also returns seven-digit numbers.

## Model

| member | source | states |
|---|---|---|
| `Scan.FindAll` | Parse.py:49 | every span is the match found at its own start, the spans are in text order without overlapping, and each lies inside the text |
| `Scan.FindAllIsLeftmostScan` | Parse.py:49 | the result is a leftmost scan: besides the matches found, no match of the pattern starts at any position the result does not cover |
| `Scan.LeftmostScanIsUnique` | Parse.py:49 | any list of spans meeting that description is the result, so `findall`'s output is determined by the pattern's matches |
| `Scan.DelimitedMatch` | Parse.py:49 | a match that no earlier match reaches across is one of the spans returned, whatever text surrounds it |
| `Text.RunEnd` | Parse.py:48 | a greedy `[...]*` run from `i` ends at the first character outside the class, or at the end of the text |
| `Text.DigitsOnly` | Parse.py:57 | `re.sub(r'\D', '', num)` keeps only decimal digits and never lengthens the text |
| `Text.DigitsOnlyAppend` | Parse.py:57 | removing non-digits distributes over concatenation |
| `Text.Lower` | Parse.py:128 | `str.lower()` keeps the length and lower-cases each ASCII capital letter, leaving other characters unchanged |
| `Text.ContainsTransitive` | Parse.py:130 | a substring of a substring of the sentence is a substring of the sentence |
| `Email.EmailAt` | Parse.py:48 | a match anchored at `i` is non-empty and lies inside the text |
| `Email.EmailAtIsGreedyMatch` | Parse.py:48 | a match is found at `i` exactly when `s[i..e]` is address characters, one `@` and address characters for some `e`, and then it is the longest such `e` |
| `Email.GetEmailAddresses` | Parse.py:47-49 | one address per span of the scan, in text order without overlapping; each is the text of its span, with exactly one `@` and a non-empty run of word, `.` or `-` characters on each side |
| `Email.NoAtSignNoAddress` | Parse.py:47-49 | a text with no `@` yields no address |
| `Email.AddressVerbatim` | Parse.py:47-49 | a well-formed `local@domain` on its own is returned verbatim as the only result |
| `Email.AddressFoundAt` | Parse.py:47-49 | an address at any position, preceded by neither an address character nor `@` and followed by a non-address character, is returned verbatim |
| `Email.AddressInContext` | Parse.py:47-49 | the same for a text `pre + address + post`: the address is returned verbatim, at the index whose span starts after `pre` |
| `Email.RepeatedAddress` | Parse.py:47-49 | an address that occurs twice, delimited each time, is returned twice, the first occurrence first (no deduplication) |
| `Phone.SkipSeparator` | Parse.py:55 | of the two ways the lazy `[-\.\s]??` can go (no separator, or one), any that is followed by a digit is the one taken, so the lazy order of trying them does not change the match |
| `Phone.TenDigitsAt` | Parse.py:55 | the first alternative, anchored at `i`, matches a non-empty piece of the text; `Phone.TenDigitsAtIsShape` states exactly which piece |
| `Phone.ParenthesisedAt` | Parse.py:55 | the second alternative, anchored at `i`, matches a non-empty piece of the text; `Phone.ParenthesisedAtIsShape` states exactly which piece |
| `Phone.SevenDigitsAt` | Parse.py:55 | the third alternative, anchored at `i`, matches a non-empty piece of the text; `Phone.SevenDigitsAtIsShape` states exactly which piece |
| `Phone.PhoneAt` | Parse.py:55 | the alternation, anchored at `i`, matches a non-empty piece of the text; `Phone.PhoneAtIsShape` states exactly which piece |
| `Phone.TenDigitsAtIsShape` | Parse.py:55 | the first alternative matches `s[i..e]` exactly when that text is three digits, an optional separator, three digits, an optional separator and four digits |
| `Phone.ParenthesisedAtIsShape` | Parse.py:55 | the second alternative matches `s[i..e]` exactly when that text is `(`, three digits, `)`, a run of white space, three digits, an optional separator and four digits |
| `Phone.SevenDigitsAtIsShape` | Parse.py:55 | the third alternative matches `s[i..e]` exactly when that text is three digits, an optional separator and four digits |
| `Phone.PhoneAtIsShape` | Parse.py:55 | the alternation matches `s[i..e]` exactly when that text has the shape of the first alternative that can match at `i` at all, at any position of any text |
| `Phone.PhoneNumbersAreShapedMatches` | Parse.py:53-57 | every number comes from a piece of text of the alternation's shape, and no such piece starts at a position no match covers |
| `Phone.DigitsOfMatch` | Parse.py:55-57 | the digits kept from a match are all digits: ten when the first or second alternative matched, seven when only the third did |
| `Phone.GetPhoneNumbers` | Parse.py:53-57 | one number per span of the scan, in text order; each is the digits of its match, only decimal digits, and has length 10 or 7 |
| `Phone.TenDigitForms` | Parse.py:53-57 | `ddd?ddd?dddd` with each `?` empty, `-`, `.` or white space yields exactly the ten digits |
| `Phone.ParenthesisedForm` | Parse.py:53-57 | `(ddd)`, any run of white space, `ddd?dddd` yields exactly the ten digits |
| `Phone.MatchCharacters` | Parse.py:55 | a match starts with a digit or with `(` four places before a `)`, and holds only digits, separators and `)` after its first character |
| `Phone.NumberFoundAt` | Parse.py:53-57 | a match at `i` that no earlier match can reach across (the character before `i` cannot continue a match, and `s[i + 3]` is not `)`) is returned, as the digits of its own text |
| `Phone.TenDigitFormInContext` | Parse.py:53-57 | a ten-digit form at the start of the text or after a character that is not a digit, separator or `)` is found whatever follows it, and its number is exactly its ten digits |
| `Phone.ParenthesisedFormInContext` | Parse.py:53-57 | the same for a parenthesised form |
| `Phone.DigitsOfPunctuatedGroups` | Parse.py:57 | stripping non-digits from digit groups joined by punctuation leaves the groups' digits in order |
| `Institutes.CapWordAt` | Parse.py:143-144 | `[A-Z][a-z]*` matches at `i` exactly when `s[i]` is a capital letter, and then it is greedy: every character after the capital up to the end is lower-case, and the character at the end is not |
| `Institutes.NamedAt` | Parse.py:143 | a capitalised word followed by a fixed suffix matches a non-empty piece of the text |
| `Institutes.PrefixedAt` | Parse.py:144 | a fixed prefix followed by a capitalised word matches a non-empty piece of the text; `Institutes.PrefixedAtIsShape` states exactly which piece |
| `Institutes.InstituteAt` | Parse.py:142-147 | the four-way alternation (first template that matches wins) matches a non-empty piece of the text; `Institutes.InstituteAtIsShape` states exactly which piece |
| `Institutes.InstituteAtShaped` | Parse.py:142-147 | every match has one of the four template shapes |
| `Institutes.ShapeIsMatched` | Parse.py:142-147 | wherever a text of one of the four shapes starts, the alternation matches |
| `Institutes.NamedAtIsShape` | Parse.py:143 | a suffix template matches `s[i..e]` exactly when that text is a capitalised word followed by the suffix |
| `Institutes.PrefixedAtIsShape` | Parse.py:144 | a prefix template matches `s[i..e]` exactly when that text is the prefix followed by a capitalised word and the next character is not a lower-case letter, so the greedy `[a-z]*` takes the whole word (`University of Oxford`, never `University of O`) |
| `Institutes.InstituteAtIsShape` | Parse.py:142-147 | the alternation matches `s[i..e]` exactly when that text has the shape of the first template that can match at `i` at all (so `Ecole Educational Institute` goes to the second template, not the fourth), at any position of any text |
| `Institutes.ExtractEducationalInstitutes` | Parse.py:141-148 | one institute per span of the scan; each is the text of its span and has one of the four template shapes |
| `Institutes.NoInstituteMissed` | Parse.py:141-148 | the institutes come in text order without overlapping, and no text of one of the four shapes starts at a position no result covers |
| `Institutes.NoCapitalNoInstitute` | Parse.py:141-148 | a text with no capital letter yields no institute |
| `Institutes.FillHasTemplate` | Parse.py:143-144 | filling a template with a capitalised word gives a text of that template's shape |
| `Institutes.TemplateAlone` | Parse.py:141-148 | a template filled with a capitalised word, on its own, is returned verbatim, unless it is `Ecole` followed by a longer word that begins with `University` |
| `Institutes.EcoleUniversityShadows` | Parse.py:142-147 | alternatives are tried in order: `Ecole University` followed by more lower-case letters yields just `Ecole University` |
| `Education.FindYear` | Parse.py:131 | `re.search` for `(20\|19)\d{2}` returns the leftmost position where a year starts, or none exactly when no year occurs |
| `Education.YearOf` | Parse.py:131-133 | the year text is absent exactly when the sentence holds no year; otherwise it is four characters starting with `19` or `20` followed by two digits |
| `Education.FiringIndices` | Parse.py:129-130 | the vocabulary positions whose term occurs in the sentence and is not a stop-word, each exactly once, in increasing order |
| `Education.Tagged` | Parse.py:131-135 | one entry per chosen term, in order, each a pair with the year when the sentence has one and a bare term otherwise |
| `Education.SentenceEntries` | Parse.py:127-135 | every entry of one sentence is a vocabulary term that occurs in the lower-cased sentence and is not a stop-word |
| `Education.Degrees` | Parse.py:123-137 | every entry of the whole text is a vocabulary term that is not a stop-word |
| `Education.AppendSentence` | Parse.py:129-135 | walking the vocabulary over one lower-cased sentence appends exactly the tagged entries of the firing terms |
| `Education.ExtractEducation` | Parse.py:123-137 | the entries of all sentences, sentence by sentence, equal the specification `Degrees` |
| `Education.SentenceTermsIff` | Parse.py:127-135 | a sentence yields a term exactly when the term is in the vocabulary, occurs in the lower-cased sentence, and is not a stop-word |
| `Education.SentenceEntriesInVocabularyOrder` | Parse.py:129-135 | a sentence's entries follow the vocabulary order, one per firing term |
| `Education.SentenceEntriesShareYear` | Parse.py:131-135 | a sentence with no year gives only bare terms; a sentence with a year gives only pairs, each carrying the leftmost year of the sentence |
| `Education.DegreesAppend` | Parse.py:127-137 | sentences contribute independently and in order, with no deduplication across sentences |
| `Education.DegreesOfOne` | Parse.py:127-135 | a single sentence contributes exactly its own entries |
| `Education.FiringInOrder` | Parse.py:129-130 | three firing terms appear among the entries in vocabulary order |
| `Education.OverlappingTermsAllFire` | Parse.py:110-130 | a sentence containing "bachelors degree" (with none of the three terms a stop-word) yields "bachelor", "bachelors" and "bachelors degree", in that order |
| `Batch.Decoded` | Parse.py:174-177 | a `.pdf` name is decoded by the PDF reader and a `.docx` name by the DOCX reader, so the `elif` is never shadowed |
| `Batch.ExtensionsExclusive` | Parse.py:174-177 | no file name ends in both `.pdf` and `.docx` |
| `Batch.RecordOf` | Parse.py:191-200 | a record has exactly the eight keys, with Email, Phone Number, Degree and Educational Institute holding the extractors' results on the text |
| `Batch.Accepted` | Parse.py:171-180 | the accepted names are those of the listing ending in `.pdf` or `.docx`, each once, ordered by their first position in the listing |
| `Batch.FirstDecodeFailure` | Parse.py:174-177 | there is no failure exactly when every supported file decodes; a failure names a supported file of the listing whose decoder fails |
| `Batch.FailureInPrefix` | Parse.py:171-177 | a decoding failure in a prefix of the listing is the failure of the whole listing |
| `Batch.ExtractRecord` | Parse.py:182-200 | running the eight extractors and building the dictionary gives the record of the text |
| `Batch.SkipKeepsDescription` | Parse.py:178-180 | skipping an unsupported file leaves the dictionary describing the listing so far |
| `Batch.StoreExtendsDescription` | Parse.py:202 | storing a decoded file's record keeps the dictionary describing the listing so far |
| `Batch.ProcessResumes` | Parse.py:168-204 | the batch fails exactly when a supported file's decoder fails, naming the first such file; otherwise its keys are the supported names, each once, in order of first appearance in the listing, and each holds the eight-key record of its decoded text |
| `CsvHeader.RowKeys` | Parse.py:253-254 | the keys gathered from the first `n` rows are exactly the keys of those rows |
| `CsvHeader.Extend` | Parse.py:254 | `list.extend` keeps the list as a prefix and adds every key once |
| `CsvHeader.ListOfSet` | Parse.py:256 | `list(set(...))` holds each element of the set exactly once |
| `CsvHeader.CsvFieldnames` | Parse.py:249-256 | the header has no duplicates, holds exactly the eight baseline names and every key of every row, and so covers every row handed to the CSV writer |
| `CsvHeader.HeaderCoversRows` | Parse.py:253-256 | a header holding every header name holds every key of every row |
| `CsvHeader.RecordFieldsAreBaseline` | Parse.py:250-251 | the record keys built by the batch are exactly the baseline column names |
| `CsvHeader.BaselineCount` | Parse.py:250-251 | the eight baseline names are distinct |
| `CsvHeader.ResumeRowsHeader` | Parse.py:250-256 | for rows produced by the batch, the header is exactly the eight baseline names |

## Left out

- The web endpoints, upload saving, zip extraction and temporary-directory handling (Parse.py:207-245) are framework and file-system I/O.
- PDF and DOCX decoding (Parse.py:25-43) wraps external libraries. Each decoder is a function from file name to text in `Batch.Services`; None stands for a decoder that raises, which ends the batch.
- `extract_name`, `extract_skills`, `extract_location` and `extract_experience` (Parse.py:61-105, 152-164) depend on the language model, the skills table and the city gazetteer. They are functions of the text in `Batch.Services`.
- `Batch.Services`: `extract_name` (Parse.py:67) and `extract_experience` (Parse.py:156) add their patterns to the one module-level token matcher on every call, and never remove them. For each file the batch calls `extract_name` (Parse.py:184) before `extract_experience` (Parse.py:189). So the name pattern is already registered when `extract_experience` runs on the first resume, and Experience includes the proper-noun pairs of the name pattern on every resume, the first one included. From the second resume on, the experience pattern is registered too, so `extract_name` may return a `NOUN experience` span: Name depends on the files processed earlier. The model's `name` and `experience` are functions of one text: they can express the extra Experience matches but not Name's dependence on earlier files.
- Sentence segmentation and the stop-word list are external:
  - `Education.ExtractEducation` takes the sentences as input.
  - The stop-words are a parameter set.
- Unicode: `\w`, `\d`, `\s` and `str.lower()` are restricted to ASCII.
- The message printed for an unsupported file is console output and is not modelled.
- Joining the folder and file name is not modelled; the decoders take the file name.
- Opening the CSV file, writing the rows and encoding string cells (Parse.py:258-264) are file output. Only the header is modelled.
- Dictionary key order:
  - A record is a map. `CsvHeader.Extend` takes a row's keys in an unspecified order.
  - `CsvHeader.ListOfSet` gives the set's elements in an unspecified order, as Python's set iteration does.
  - The batch keeps its insertion order explicitly in `Batch.Batch.order`.
- Exceptions raised by the extractors other than the decoders are not modelled.
- `Scan.FindAll` assumes the pattern never matches the empty string; that holds for all three patterns.
- `Education.AppendSentence` walks its vocabulary argument. It is always called with the fixed `EDUCATION` list.
