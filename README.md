# A model of the bibtools record normaliser

`bibtools.py` reads bibliographic records and writes them back out as
normalised BibTeX. A `Record` is built either from one entry of a `.bib` file
(`type{key, field = {value}, ...}`) or from a single free-text citation as a
reference list prints it. In the second case an ordered cascade of grammars
decides the entry type and reads the fields, and a citation key is formed
from the creators and the year. `conform()` then runs its fixed sequence of
repair and check passes over the field dictionary, appending diagnostics to
`errors`. `bibtex()` writes the record back with sorted fields, less the
administrative fields in `excludefields`. `normalize()` splits a whole file at
`"\n@"`, sorts the record texts and reverses that order, renders each one,
and joins the non-empty results after the preamble.

The project is organised as follows:

- `pystr.dfy` (module `PyStr`): the Python string operations the code relies
  on. These are `split`, `join`, `replace`, `count`, `strip`, `lower`,
  `sorted` and slicing reversal, each proved to behave as Python's does
  (split/join round trip, `sorted` is a sorted permutation).
- `patterns.dfy` (module `BibPatterns`): hand-written recognisers for the
  small regular expressions of `bibpatterns.py`. These are `TYPKEYFIELDS`,
  `VOLUMEPATTERN`, `THESISPATTERN`, `SERIESNUMBER`, `URL`, `URLDATE`,
  `EDITOR`, `CONFERENCEPATTERN`, `PROCEEDINGSPATTERN`, and the proper-noun
  pattern's `finditer`. Each recogniser is paired with a lemma stating the
  shape of what it matches.
- `rewrites.dfy` (module `Rewrites`): the `re.sub` and `str.replace`
  rewrites of single field values. These are page dashes, the three title
  protections, initials, ampersands, brace wrapping and `int()` on an edition.
- `fieldstate.dfy` (module `FieldState`): the state `conform()` works on.
  - `RecordState` holds the type, the field dictionary (a map plus its
    insertion order, since Python dictionaries iterate in insertion order)
    and the error list.
  - `Outcome` is either a value or the name of the exception that escapes.
  - `HandleError` is `handleerror()`.
- `conform.dfy` (module `Conform`): one specification function per pass of
  `conform()`, and `Conform` itself, with a lemma per pass stating what the
  pass promises.
- `entry.dfy` (module `Entry`): reading a `.bib` entry into type, key and
  fields (bibtools.py lines 96-117).
- `citation.dfy` (module `Citation`): the free-text path (lines 126-253).
  This covers the classification cascade, filling the fields from the
  winning grammar's groups, the note, URL and series tidying, and the key.
- `output.dfy` (module `Output`): the `bibstring` the constructor leaves
  behind, the text `bibtex()` returns, and the proof that reading that text
  back with the entry parser gives the written fields.
- `bibtools.dfy` (module `Bibtools`):
  - the class `Record`, whose fields are the attributes of the Python object;
  - its pass methods (`modifies this`), each proved against the pass's
    specification function;
  - the two constructor paths and `bibtex()`;
  - the key registry `keys` as a class `KeyRegistry`;
  - the `Normalize` method with the lemmas about its output.

A pass that raises an exception in Python returns `raised` (`Some(name)`) in
the model. The method's contract then ties `Ended(raised, State())` to the
specification function's `Outcome`.

The model follows the code as written, including where it departs from what
a reader might expect:
- **Title protection is not idempotent.** A second run braces a protected
  acronym again (`Rewrites.ProtectTitleNotIdempotent`).
- **A book never becomes a `phdthesis`.** The second group of
  `THESISPATTERN` is `" doctoral"` with its space, never `"doctoral"`
  (`BibPatterns.ThesisGroup2NeverDoctoral`, `Conform.CheckThesisShape`).
- **The registry never grows.** `keys[self.key] = True` sits inside the
  `if self.key in keys` branch, so only a key that is already present is
  marked, and a fresh registry reports no duplicates (`Bibtools.KeyRegistry.Check`).
- **No `"9999"` year fallback.** A citation without a year leaves the
  constructor before a key is formed (lines 234-237; `Citation.UnkeyedIff`).
- **Exceptions do escape.** Examples are a book without a title string
  (`KeyError`/`TypeError` in `checkvolumenumber`), a `None` publisher in
  `placelookup`, and a record whose fields were never set (`AttributeError`).
  These escape from `conform()` and abort `normalize()`. The model returns
  them as `Raised`.
- **The author key keeps punctuation.** Only spaces are removed from the
  author part of the key (`Citation.AuthorPartFacts`).
- **The pass order is the code's:** lines 265-287, e.g. `checkurldate`
  before `checkurl`.
- **A date in the note wins over the url's.** `datefound` is never set to
  true (lines 479 and 491), so the note is searched even after the url gave
  an access date, and a date found there replaces it
  (`Conform.CheckUrlDateNoteWins`).

## Model

| member | source | states |
|---|---|---|
| PyStr.Split | orig/bibtools.py:681 | The pieces lie between the occurrences of the separator, found left to right. |
| PyStr.SplitJoin | orig/bibtools.py:681 | Joining the pieces of a split with its separator gives back the string. |
| PyStr.SplitPiecesAvoidSep | orig/bibtools.py:681 | No piece of a split holds the separator. |
| PyStr.SplitHeadPrefix | orig/bibtools.py:683 | The first piece of a split is a prefix of the string. |
| PyStr.ContainsIffSplits | orig/bibtools.py:681 | A text occurs in a string exactly when splitting on it gives more than one piece. |
| PyStr.CountZeroIff | orig/bibtools.py:238-239 | `count(sub)` is 0 exactly when `sub` does not occur. |
| PyStr.ReplaceAbsent | orig/bibtools.py:413-415 | `replace` of a text that does not occur changes nothing. |
| PyStr.ReplaceSelf | orig/bibtools.py:320 | Replacing a text by itself changes nothing. |
| PyStr.ReplaceKeepsErasure | orig/bibtools.py:413-419 | A replacement whose old and new texts differ only in some characters leaves the string unchanged once those are erased. |
| PyStr.StripSlice | orig/bibtools.py:127 | `strip()` leaves a slice of the input that neither starts nor ends with white space. |
| PyStr.StripClean | orig/bibtools.py:127 | A text without surrounding white space is its own `strip()`. |
| PyStr.LStripSuffix | orig/bibtools.py:127 | `lstrip()` leaves a suffix that does not start with white space. |
| PyStr.RStripPrefix | orig/bibtools.py:127 | `rstrip()` leaves a prefix that does not end with white space. |
| PyStr.LowerSame | orig/bibtools.py:98 | A text without upper-case letters is its own `lower()`. |
| PyStr.ReversePermutes | orig/bibtools.py:687 | `[::-1]` keeps every element with its multiplicity. |
| PyStr.SortedIsSortedPermutation | orig/bibtools.py:686 | `sort()` gives the same strings in non-decreasing order. |
| BibPatterns.FirstMatch | orig/bibtools.py:218 | A search returns the first start position at which the pattern matches, and no earlier one matches. |
| BibPatterns.TypKeyFields | orig/bibpatterns.py:129 | The type ends at the first `{`; the key is the comma-free text up to the first `,`; the body starts after the white space and ends at the last `}`. |
| BibPatterns.TypKeyFieldsRoundTrip | orig/bibpatterns.py:129 | An entry written as `bibtex()` writes one is taken apart into the same type, key and field text. |
| BibPatterns.VolumeSearchShape | orig/bibpatterns.py:42 | A volume match is an optional `, `, a volume word and spaces, then a numeral run that the greedy `+` ends at a non-numeral; every lead text followed by a numeral is found at or after the match's start; the search fails exactly when no lead text is followed by a numeral. |
| BibPatterns.VolumeInsideWord | orig/bibpatterns.py:42 | The volume words are not anchored: inside "Evolving" the search finds "volvi" with numeral "i". |
| BibPatterns.FirstThesisMarker | orig/bibpatterns.py:43 | The first position holding a dissertation marker; none before it. |
| BibPatterns.ThesisSearchShape | orig/bibpatterns.py:43 | The thesis search finds the first dissertation marker; group 1 is the rest of that line before it. |
| BibPatterns.ThesisGroup2NeverDoctoral | orig/bibpatterns.py:43 | Group 2 is only ever " doctoral" or absent, never "doctoral" or "PhD". |
| BibPatterns.SeriesNumberShape | orig/bibpatterns.py:60 | A series match splits the title into new title, " (", series, spaces, number and ")"; the greedy new title ends at the last " (" on the first line that opens a series, the lazy series at the first place a number and ")" complete it; the match fails exactly when no " (" on the first line opens one. |
| BibPatterns.UrlSearchShape | orig/bibpatterns.py:61 | A URL match is the leftmost one and is an optional `http://` or `https://`, `www.`, a run of letters, digits and hyphens, a `.`, a run of those and dots, and optionally `/` and non-spaces up to a space or the end; the trailing `\.?` never adds a character; every position where that shape starts is at or after the match's start, and the search fails exactly when the shape occurs nowhere. |
| BibPatterns.HostHasNoSpace | orig/bibpatterns.py:61 | A URL match never contains a space. |
| BibPatterns.UrlDateSearchShape | orig/bibpatterns.py:65-72 | A date match is the leftmost one; group 1 lies inside group 0, with an opening bracket before it exactly when group 0 starts with `[` or `(` and a closing one after it exactly when `]` or `)` follows; group 1 starts or ends with a four-digit year, so its last character is a digit; the search fails exactly when no position starts a date. |
| BibPatterns.SlashDateSubsumed | orig/bibpatterns.py:68-72 | Whenever the `D/M/Y` alternative would match, the `D.M.Y` alternative before it already does. |
| BibPatterns.EditorSearchIff | orig/bibpatterns.py:122-124 | The editor test succeeds exactly when a four-digit run is followed on the same line by "(ed.)", "(eds)" or a variant. |
| BibPatterns.ConferenceMatchShape | orig/bibpatterns.py:36-38 | A conference match is one space-free word starting with a capital and ending in `]`; a title without `]` never matches. |
| BibPatterns.ProceedingsMatchShape | orig/bibpatterns.py:39-41 | A proceedings match is the last line of a value ending in `}` that names a meeting. |
| BibPatterns.NounAt | orig/bibpatterns.py:23-35 | The noun found at a position is in the vocabulary, non-empty, present there, and bounded by word boundaries on both sides. |
| BibPatterns.FindNouns | orig/bibtools.py:318 | Every noun `finditer` yields is in the vocabulary and occurs in the title. |
| Rewrites.DashPagesOnlyAddsDashes | orig/bibtools.py:270-272 | The page repair only adds dashes. |
| Rewrites.DashPagesIff | orig/bibtools.py:272 | The page repair leaves a value alone exactly when no digit, hyphen and digit occur in a row. |
| Rewrites.DashPagesRange | orig/bibtools.py:272 | `1-2` becomes `1--2`. |
| Rewrites.DashPagesNotIdempotent | orig/bibtools.py:272 | A run skips the number after a replaced range, so a second run changes the text again. |
| Rewrites.SubtitleKeepsLetters | orig/bibtools.py:369 | The subtitle capitalisation changes only letter case, spaces and braces. |
| Rewrites.SubtitleIff | orig/bibtools.py:369 | The subtitle capitalisation leaves a title alone exactly when no `:`, `.`, `?` or `!` followed by spaces and a letter occurs. |
| Rewrites.InnerCapitalsOnlyAddsBraces | orig/bibtools.py:370 | The inner-capital protection only adds braces. |
| Rewrites.InnerCapitalsIff | orig/bibtools.py:370 | The inner-capital protection leaves a title alone exactly when no capital, lower-case letters and a capital occur in a row, and otherwise lengthens it. |
| Rewrites.LoneCapitalsOnlyAddsBraces | orig/bibtools.py:371 | The lone-capital protection only adds braces. |
| Rewrites.LoneCapitalsIff | orig/bibtools.py:371 | The lone-capital protection leaves a title alone exactly when no capital stands between two spaces, and never shortens it. |
| Rewrites.ProtectTitleKeepsLetters | orig/bibtools.py:367-371 | The whole title protection changes only letter case, spaces and braces. |
| Rewrites.ProtectTitleShape | orig/bibtools.py:367-371 | Without a subtitle match, the title protection leaves a title alone exactly when neither an inner-capitals run nor a lone capital occurs; it always changes only case, spaces and braces. |
| Rewrites.ProtectTitleNotIdempotent | orig/bibtools.py:367-371 | Protecting a title twice braces an already protected acronym again. |
| Rewrites.LoneCapitalsSkipsNeighbour | orig/bibtools.py:371 | A lone capital consumes the space after it, so the next lone capital stays unprotected. |
| Rewrites.InitialsStep | orig/bibtools.py:400 | Spacing two initials adds only that space. |
| Rewrites.InitialsSpaceExample | orig/bibtools.py:400 | In a run of three initials the last pair stays joined. |
| Rewrites.InitialsSpaceIff | orig/bibtools.py:400 | The initials pass leaves a name alone exactly when no two capitals are joined by a bare period, and otherwise lengthens it. |
| Rewrites.TrailingInitialAddsPeriod | orig/bibtools.py:402 | A name ending in a space and a capital gains a final period; one ending so before a final newline gains the period before the newline; any other name is unchanged; with periods erased nothing changes. |
| Rewrites.WrapAllOnlyAddsBraces | orig/bibtools.py:318-320 | Wrapping found nouns only adds braces, however often a noun repeats. |
| Rewrites.ProtectNounsIff | orig/bibtools.py:318-320 | Proper-noun protection leaves a title alone exactly when no noun of the vocabulary is found in it as a whole word. |
| Rewrites.AmpersandToAndIff | orig/bibtools.py:411-415 | The name-list repair leaves a value alone exactly when none of " & ", " \\& " and a double space occurs in it. |
| Rewrites.ProtectNounsRepeated | orig/bibtools.py:318-320 | A noun occurring twice is found twice and wrapped each time, ending in double braces. |
| Rewrites.EditionExamples | orig/bibtools.py:453 | "2" and "+1_000" parse as integers; "2nd" and "" do not. |
| Rewrites.PyIntDigits | orig/bibtools.py:453 | Every run of digits is an integer, and every integer is a sign, digits and underscores. |
| FieldState.HandleError | orig/bibtools.py:650-657 | A missing or `None` mandatory field gets the error marker and one "missing" report; a present one leaves the record alone. |
| FieldState.RemoveMembers | orig/bibtools.py:543 | `del` drops exactly that field from the iteration order. |
| FieldState.PutValid | orig/bibtools.py:267 | Assignment keeps every field listed exactly once in the order. |
| FieldState.DelValid | orig/bibtools.py:519 | Deletion keeps every field listed exactly once in the order. |
| FieldState.HandleAllFills | orig/bibtools.py:530-532 | After the mandatory loop every listed field has a value, and fields that had one are untouched. |
| Conform.BackfillBooktitleCases | orig/bibtools.py:265-269 | An edited record without a booktitle takes the title, or is reported when there is no title either; only the booktitle can change. |
| Conform.DashPagesPassKeepsNumbers | orig/bibtools.py:270-272 | Only dashes are added to the pages, no other field changes, and the pages change exactly when a digit, a hyphen and a digit occur in a row. |
| Conform.TitleStepKeepsLetters | orig/bibtools.py:367-371 | One title step changes only that title, and in it only case, spaces and braces; without a subtitle match it changes the title exactly when an inner-capitals run or a lone capital occurs. |
| Conform.ConformTitlesKeepsLetters | orig/bibtools.py:360-371 | `conformtitles` changes only title and booktitle, and in them only case, spaces and braces; without a subtitle match a title changes exactly when an inner-capitals run or a lone capital occurs. |
| Conform.CheckVolumeNumberRaises | orig/bibtools.py:373-391 | The pass raises exactly when a book has no title string or an incollection's booktitle is `None`. |
| Conform.MoveVolumeShape | orig/bibtools.py:375-380 | The moved volume is a non-empty run of digits and roman numerals, and the title loses the whole volume phrase. |
| Conform.MissingBooktitlePlaceholder | orig/bibtools.py:381-387 | An incollection without a booktitle gets the placeholder and an error. |
| Conform.ConformInitialsOnlyAddsSpacesAndPeriod | orig/bibtools.py:393-402 | Names only gain spaces and periods, and change exactly when two initials are joined by a bare period or the name ends in a lone capital (before a final newline or not). |
| Conform.EscapedAddressOnlyAddsBackslashes | orig/bibtools.py:417-419 | Escaping the address adds backslashes and nothing else, and changes it exactly when " & " occurs. |
| Conform.EtAlStepIff | orig/bibtools.py:433-442 | A literal "et al" is marked and reported with the marked value; a name list without it is left alone. |
| Conform.CheckAnd | orig/bibtools.py:421-431 | The comma check changes no field and appends at most two reports. |
| Conform.AndStepAccepts | orig/bibtools.py:426-431 | A name list is accepted exactly when it has at most one comma more than it has " and ". |
| Conform.CheckEdition | orig/bibtools.py:444-455 | The edition check changes no field. |
| Conform.CheckEditionIff | orig/bibtools.py:444-455 | The edition is reported exactly when it is non-empty and not an integer once braces and quotes are dropped. |
| Conform.CheckUrlDateShape | orig/bibtools.py:474-506 | A written access date holds no brackets; an existing one is kept, and reported when there is no url. |
| Conform.CheckUrlDateNoteWins | orig/bibtools.py:479-501 | Without an access date, a date found in the note becomes the access date even when the url gave one, and the note loses the matched text; the url keeps its first word exactly when its second word holds a year; nothing is reported. |
| Conform.NonsiteErrors | orig/bibtools.py:469-472 | Something is reported exactly when the url names one of the listed sites. |
| Conform.CheckUrlFields | orig/bibtools.py:461-465 | The url loses at most one trailing period and no other field changes. |
| Conform.CheckUrlReports | orig/bibtools.py:457-472 | A space in the url is reported first; a link to an aggregator is reported last. |
| Conform.QuestionMarkReports | orig/bibtools.py:642-648 | Each report names a field containing "??", and every such field is reported. |
| Conform.AddSortnameIff | orig/bibtools.py:557-569 | A transliterated sort name is added exactly when the name has a character outside letters and `- ,{}.`; no other field changes. |
| Conform.PlaceLookupShape | orig/bibtools.py:592-609 | A non-empty address is never overwritten; a missing one is filled for a known publisher; nothing else changes. |
| Conform.ArticleFieldsComplete | orig/bibtools.py:577-587 | Every mandatory article field ends up with a value, as does pages or url; present values are kept. |
| Conform.CheckArticleComplete | orig/bibtools.py:571-590 | After `checkarticle` the mandatory fields and pages-or-url hold values. |
| Conform.ArticleNumberBecomesVolume | orig/bibtools.py:579-581 | A number standing in for a missing volume becomes the volume. |
| Conform.CheckThesisShape | orig/bibtools.py:508-519 | A book whose publisher names a dissertation becomes a thesis whose school is the text before the marker; it never becomes a phdthesis. |
| Conform.BookCreatorsShape | orig/bibtools.py:544-555 | Both or neither of author and editor are reported; otherwise the one creator is sorted. |
| Conform.BookFieldsFilled | orig/bibtools.py:529-532 | The book's mandatory fields end up with values. |
| Conform.BookFieldsReports | orig/bibtools.py:544-555 | A book with both or neither creator is reported last. |
| Conform.CheckBookComplete | orig/bibtools.py:522-555 | After `checkbook` year, title, address and publisher hold values, and a book with both or neither creator is reported. |
| Conform.CheckIncollectionComplete | orig/bibtools.py:611-640 | A chapter ends with author, year and title; without a crossref also a booktitle; and unless that names proceedings, also editor, publisher and address. |
| Conform.LanguageNamesStepOnlyAddsBraces | orig/bibtools.py:309-354 | The proper-noun and conference protection only adds braces to the title and touches no other field; it changes the record exactly when a noun, a conference name or a meeting title is found. |
| Entry.ChunksEndInBrace | orig/bibtools.py:112 | The split at `(?<=\})\s*,\s*\n` leaves every piece but the last ending with `}`. |
| Entry.ChunksOfLines | orig/bibtools.py:112 | Fields joined as `bibtex()` joins them come apart at the joiners. |
| Entry.NameReadsBack | orig/bibtools.py:105-107 | A plain field name reads back as itself. |
| Entry.ValueReadsBack | orig/bibtools.py:108-110 | A plain field value reads back as itself. |
| Entry.PutAllFresh | orig/bibtools.py:105-116 | Pairs with new, distinct names are added in order, each with its own value, and nothing else changes. |
| Citation.ClassifyShape | orig/bibtools.py:130-202 | Whatever the grammars return, the fields are exactly the blank slots, in order, with nothing reported. |
| Citation.ClassifyCascade | orig/bibtools.py:146-202 | The first test that succeeds fixes the type and the grammar whose groups fill the map. |
| Citation.FillBookFacts | orig/bibtools.py:187-190 | An "(ed.)" book lists its creator as editor and has no author. |
| Citation.NormalizeCreatorsKeepsOne | orig/bibtools.py:205-211 | Normalising creators stops exactly when there are none, and otherwise leaves one set. |
| Citation.MoveUrlShape | orig/bibtools.py:212-216 | A moved URL is a non-empty, space-free part of the old note, which no longer holds it. |
| Citation.SplitSeriesShape | orig/bibtools.py:217-222 | A series split keeps the title's text: new title, " (", series, then a number of digits and `-./`. |
| Citation.UnkeyedIff | orig/bibtools.py:205-237 | The constructor stops without a key exactly when there is no author and no editor, or no year. |
| Citation.KeyedFacts | orig/bibtools.py:225-253 | A keyed citation keeps type and year, and its key ends with the year's first four characters. |
| Citation.AuthorPartFacts | orig/bibtools.py:229 | The key starts with the first author's surname part, spaces erased. |
| Citation.EditorPartFacts | orig/bibtools.py:232 | From an editor, the key starts with the first word of the editor text: a prefix without spaces or commas that runs to the end of the text or to its first space or comma. |
| Citation.SingleCreatorKey | orig/bibtools.py:238-252 | One creator gives the creator part followed directly by the year. |
| Citation.ManyCreatorsKey | orig/bibtools.py:238-243 | More than two creators, counting each " and " and each "&", put "EtAl" between the creator part and the year. |
| Citation.TwoCreatorsKey | orig/bibtools.py:244-251 | Two creators put the second creator's surname between the creator part and the year: the second creator follows the " and ", stripped, and its surname is the text before a comma, else its last word, else all of it. |
| Citation.JohnsonRobertsKey | orig/langsci_tests.py:86-87 | The author list "Johnson, Kyle, Mark Baker and  Ian Roberts" with year 1989 gives the key `JohnsonRoberts1989`. |
| Citation.KeyedNoErrors | orig/bibtools.py:130-253 | A citation read from free text has nothing reported yet. |
| Output.BibstringFields | orig/bibtools.py:256-258 | `bibstring` lists one sorted line for each field whose value is neither "" nor `None`, and no other. |
| Output.OutputNamesFacts | orig/bibtools.py:667-674 | `bibtex()` writes each non-excluded field once, in sorted order, and no other. |
| Output.ParseBack | orig/bibtools.py:96-117 | The entry parser reads a written entry back as its type, key and pairs in written order. |
| Output.BibtexRoundTrip | orig/bibtools.py:659-676 | Reading back what `bibtex()` writes gives the same type and key and the non-excluded fields with their values. |
| Bibtools.Marked | orig/bibtools.py:123-125 | Only a key already present is marked; the key set never changes. |
| Bibtools.KeyRegistry.Check | orig/bibtools.py:123-125 | Reports a duplicate exactly when the key is registered, and the registry becomes `Marked`. |
| Bibtools.Record.constructor | orig/bibtools.py:92 | A record with no errors and no attributes set. |
| Bibtools.Record.Entry | orig/bibtools.py:96-121 | Sets type, key, fields, `inkeysd` and `restrict` from the parsed entry. |
| Bibtools.Record.Line | orig/bibtools.py:127-132 | An unkeyed citation keeps the stripped line as `orig` and `bibstring`, its type, and no fields. |
| Bibtools.Record.Cited | orig/bibtools.py:127-129 | Sets the fields read from the citation, its key, `orig` and `bibstring`. |
| Bibtools.Record.HandleError | orig/bibtools.py:650-657 | The record's new state is `handleerror` of the old one. |
| Bibtools.Record.HandleMandatory | orig/bibtools.py:530-532 | The loop ends in the state `handleerror` gives applied to each name in turn; nothing else changes. |
| Bibtools.Record.ConformTitles | orig/bibtools.py:360-371 | The new state is the title pass of the old. |
| Bibtools.Record.ConformInitials | orig/bibtools.py:393-402 | The new state is the initials pass of the old. |
| Bibtools.Record.CorrectAmpersand | orig/bibtools.py:406-419 | The new state is the ampersand pass of the old. |
| Bibtools.Record.CheckEtAl | orig/bibtools.py:433-442 | The new state is the et-al pass of the old. |
| Bibtools.Record.CheckAnd | orig/bibtools.py:421-431 | The new state is the comma check of the old. |
| Bibtools.Record.CheckQuestionMarks | orig/bibtools.py:642-648 | The loop in insertion order ends with the reports of the question-mark pass. |
| Bibtools.Record.CheckArticle | orig/bibtools.py:571-590 | The new state is the article pass of the old. |
| Bibtools.Record.CheckBook | orig/bibtools.py:522-555 | Raises as the book pass does, otherwise ends in its state. |
| Bibtools.Record.CheckIncollection | orig/bibtools.py:611-640 | Raises as the chapter pass does, otherwise ends in its state. |
| Bibtools.Record.CheckLanguageNames | orig/bibtools.py:309-354 | The new state is the proper-noun and conference pass of the old. |
| Bibtools.Record.Repairs | orig/bibtools.py:265-274 | The booktitle, pages, title and volume repairs, raising as the volume pass does. |
| Bibtools.Record.Checks | orig/bibtools.py:275-283 | Initials, ampersands, et al, commas, edition, url date, url, question marks and the article checks, in that order. |
| Bibtools.Record.TypeChecks | orig/bibtools.py:284-287 | The thesis, book, chapter and proper-noun passes, raising as they do. |
| Bibtools.Record.Conform | orig/bibtools.py:260-287 | `conform()` ends in the specification's outcome: the exception that escapes, or the conformed state. |
| Bibtools.Record.Complete | orig/bibtools.py:254-258 | After `conform()`, `bibstring` is the sorted rendering of the conformed fields; key and configuration are unchanged. |
| Bibtools.Record.Bibtex | orig/bibtools.py:659-676 | An unconfigured record raises `AttributeError`; a filtered one gives ""; otherwise the sorted, non-excluded field text. |
| Bibtools.Record.FromFile | orig/bibtools.py:83-125 | No entry gives a bare record; a field without `=` raises; otherwise the conformed entry, with a duplicate reported when the key is registered. |
| Bibtools.Record.LoadEntry | orig/bibtools.py:119-125 | The duplicate report, then the constructor's tail on the entry's fields. |
| Bibtools.Record.FromLine | orig/bibtools.py:126-253 | An unkeyed citation keeps its line; a keyed one is conformed and its `bibstring` rendered. |
| Bibtools.Record.LoadLine | orig/bibtools.py:252-258 | The one-line path once the key is formed: conform, then `bibstring`. |
| Bibtools.RenderEntry | orig/bibtools.py:689-695 | One chunk through the constructor and `bibtex()`; the registry's key set is unchanged. |
| Bibtools.Normalize | orig/bibtools.py:680-699 | The output is the preamble, a newline, and the non-empty renderings of the sorted-then-reversed record texts joined by blank lines; the first exception escapes. |
| Bibtools.RenderAllDone | orig/bibtools.py:689-696 | The comprehension succeeds exactly when every chunk renders, and holds each chunk's text in order. |
| Bibtools.RenderAllRaised | orig/bibtools.py:689-696 | The escaping exception is the first failing chunk's. |
| Bibtools.NonEmptyMembers | orig/bibtools.py:698 | The filter keeps exactly the non-empty texts. |
| Bibtools.RecordTextsOrder | orig/bibtools.py:681-687 | The chunks are the pieces after the preamble, each exactly once, in descending order, none holding `"\n@"`. |
| Bibtools.NormalizeKeepsPreamble | orig/bibtools.py:683 | The output begins with the preamble, the text before the first record, and a newline. |
| Bibtools.NormalizeNoRecords | orig/bibtools.py:698-699 | A text without records comes back with a newline appended. |
| Bibtools.NormalizeAllFiltered | orig/bibtools.py:698-699 | When every record renders as nothing, only the preamble and a newline are left. |
| Bibtools.RestrictToNothing | orig/bibtools.py:665-666 | With `restrict` and no keys to include, every record is filtered out. |
| Bibtools.RenderedRecord | orig/bibtools.py:689-698 | A kept record is the `bibtex()` text of the conformed fields; when those are plain brace-closed values, re-reading the text gives the entry's key, the conformed type and every non-excluded conformed field. |

## Left out

- `report()` (lines 289-299) and every `print` (lines 118, 241, 323, 336, 351, 378) are output only and are not modelled. The `reporting` argument exists only to switch some of these prints on.
- The five large grammars `INCOLLECTION`, `ARTICLE`, `ONLINEARTICLE`, `BOOK` and `MISC` are not re-implemented. They enter as the parameter `Citation.Grammars`, and the model is proved for whatever groups they return. `NUMBERVOLUME` and `PUBADDR` are written out as `BibPatterns.NumberVolumeSearch` and `BibPatterns.PubAddrSearch`, but only as far as the classification needs: whether they match, not their groups.
- `asciify(dediacriticize(...))` and the `bibnouns` vocabulary come from other modules. They are the `translit` and `nouns` parameters of `Conform.Vocabulary`.
- The Python 2 `TypeError` branch of `addsortname` (line 564) cannot be reached under Python 3 and is not modelled.
- `FIELDS` (lines 55-70) is never used by the code and is not modelled.
- `lower()` and `[A-Z]` are modelled on ASCII letters only; Unicode case mapping is not modelled.
- `\s` and `strip()` use `PyStr.IsSpace`, which is the whole of Python's `isspace()`. `\w` and `\b` use `BibPatterns.IsWordChar`, which covers ASCII, Latin-1 and Latin Extended-A and -B up to U+024F; word characters of other scripts are not modelled.
- `int()` in `checkedition` is `Rewrites.IsPyInt`, which accepts ASCII digits only. Python also accepts other Unicode decimal digits, such as Arabic-Indic ones.
- BibPatterns.UrlDateSearchShape: states the brackets, the leftmost match and the year at one end of group 1. It does not restate the one- or two-digit day and month between, which the definition `DateGroupEnd` spells out.
- Rewrites.DashPagesOnlyAddsDashes: states what is kept, not where the dashes go. When the value changes is stated by `Rewrites.DashPagesIff`.
- Rewrites.SubtitleKeepsLetters: states what is kept, not which letter is capitalised. When the title changes is stated by `Rewrites.SubtitleIff`.
- Rewrites.InnerCapitalsOnlyAddsBraces: states what is kept, not where the braces go. When the title changes is stated by `Rewrites.InnerCapitalsIff`.
- Rewrites.LoneCapitalsOnlyAddsBraces: states what is kept, not where the braces go. When the title changes is stated by `Rewrites.LoneCapitalsIff`.
- Rewrites.ProtectTitleKeepsLetters: states what is kept. When the title changes is stated by `Rewrites.ProtectTitleShape`, for titles without a subtitle match only. The subtitle pass can shorten a title (several spaces become one), so the model does not state that a title with a subtitle match always changes.
- Rewrites.WrapAllOnlyAddsBraces: states what is kept, not where the braces go. When the title changes is stated by `Rewrites.ProtectNounsIff`.
- Conform.TitleStepKeepsLetters: states when the title changes only for titles without a subtitle match, as for `Rewrites.ProtectTitleKeepsLetters`.
- Conform.ConformTitlesKeepsLetters: states when a title changes only for titles without a subtitle match, as for `Rewrites.ProtectTitleKeepsLetters`.
- The module-level `keys` dictionary is passed explicitly as a `KeyRegistry`.
- Bibtools.RenderedRecord: the read-back is stated under hypotheses about the conformed record (the dictionary invariant `FieldState.Valid`, `Output.Rereadable` values, a lower-case type without `{`, at least one field to write). The model does not prove that `conform` establishes them.
- Bibtools.Normalize: the in-place `rest.sort()` is modelled as the pure `Sorted` on a sequence.
- Bibtools.Record.Conform: after an exception the record is discarded, so the contract does not say which fields the passes before the raise had already changed.
- Bibtools.Record.Repairs: as for `Conform`, the state after a raise is unspecified.
- Bibtools.Record.TypeChecks: as for `Conform`, the state after a raise is unspecified.
- Bibtools.Record.CheckBook: as for `Conform`, the state after a raise is unspecified.
- Bibtools.Record.CheckIncollection: as for `Conform`, the state after a raise is unspecified.
- Bibtools.Record.FromFile: when the constructor raises, the contract says nothing about the half-built record. Python discards it.
- Bibtools.Record.FromLine: when the constructor raises, the contract says nothing about the half-built record. Python discards it.
