# sKub invoice pipeline: a verified model

sKub (`skub.py`) turns a zip of Turkish e-invoices (e-Fatura / e-Arşiv) into
PDFs. It unpacks the zip, including nested zips up to five levels deep. It
pairs every HTML invoice with the UBL XML of the same file stem. It dates each
invoice from the XML `IssueDate`, or failing that from a heuristic over the
HTML text, and reads the 16-character document identifier ("evrak ID") from
`cbc:ID`. Each HTML page is rendered to a temporary PDF through three
fallback attempts. The PDFs are then either merged into one file, optionally
sorted by date, or copied into a fresh output directory under names made
from the identifier or the date. Every output name goes through a
numeric-suffix collision loop, so nothing that exists is overwritten.

This project models that decision and naming logic in Dafny and proves what
it promises. The modules follow the pipeline:

| module | what it models |
|---|---|
| `Wrappers` | `Option` (Python's `None`) and `Attempt` (a call that may raise) |
| `Text` | digits, `str.isspace`, `str.strip`, ASCII lower-casing, `str(n)` |
| `Paths` | `ntpath.join`, `basename`, `splitext`, the file stem |
| `Dates` | dates as (year, month, day); `strptime` for the four formats used; `strftime`; `max` |
| `XmlMeta` | `extract_date_from_xml`, `extract_evrak_id` |
| `HtmlDates` | `extract_invoice_dates`: the regular expressions, `re.findall`, de-duplication, the maximum |
| `Archives` | the depth guard of `extract_zip_recursively`; `find_files` |
| `Matcher` | `match_html_with_xml` |
| `Conversion` | `convert_html_to_pdf`, `convert_html_to_pdf_parallel` |
| `Ordering` | the stable date sort with `datetime.min` for an undated invoice |
| `Assembly` | the merge/copy block of `process_files_thread` and its collision loops |

The loops that build lists, maps or names step by step are methods with
loops, each proved equal to a specification function or to the property the
loop promises: `ExtractInvoiceDates`, `FindFiles`, `MatchHtmlWithXml`,
`ConvertAll`, `FirstFree` and `CopyAll`. The loops that stop at the first
hit or recurse into nested archives are recursive functions instead:
- the namespace-tier loop and the fallback-tag loop of `extract_date_from_xml`
  (`XmlMeta.TierText`, `XmlMeta.FallbackText`);
- the format loop inside the labeled and the unlabeled scans of
  `extract_invoice_dates` (`HtmlDates.FirstParse`);
- the walk-and-submit loop of `extract_zip_recursively`
  (`Archives.ExtractMembers`).

The properties are lemmas about the specification functions. The try chain,
the shape dispatch, the f-string names and the sort key are functions.

Several collaborators are parameters, and every property is proved for all
of them:
- the renderer, as an outcome per file, output path and tier;
- the copier;
- what exists on disk, as a set of paths;
- the timestamp.

Some definitions are proved for every function of the right type and then
instantiated with the application's one:

| generic parameter | application's instance |
|---|---|
| nested-directory rule `nest` | `Archives.InnerDir`, via `Archives.ExtractUpload` |
| capture parser `parse` | `HtmlDates.ParseCapture` |
| matching lookup `Lookup` | `Matcher.AppLookup`, which pairs by `Paths.Stem` |
| per-file converter | `Conversion.OneFile` |
| copy-name series | `Assembly.CopySeries` |

## Model

| member | source | states |
|---|---|---|
| Text.Strip | skub.py:133 | the stripped text neither starts nor ends with whitespace |
| Text.StripPadded | skub.py:133 | stripping removes exactly the surrounding whitespace: text between two whitespace runs comes back unchanged |
| Text.ParseNatToString | skub.py:311 | the decimal numeral of `n` reads back as `n` |
| Text.AffixInjective | skub.py:674 | `pre + str(n) + suf` determines `n`, so numbered variants of one name differ |
| Paths.Join | skub.py:314 | the joined path starts with the directory and ends with the name |
| Paths.JoinInjective | skub.py:746 | two names joined under one directory give one path only if they are equal |
| Paths.SplitExt | skub.py:747 | the extension is empty, or a dot followed by no dot and no separator |
| Paths.SplitExtRejoins | skub.py:747 | root and extension concatenate back to the name |
| Paths.Basename | skub.py:238 | the base name is a suffix of the path without separators |
| Paths.StemOfJoin | skub.py:238-242 | a file `stem.ext` in any directory has stem `stem` |
| Dates.MaxDate | skub.py:191 | `max` of a non-empty date list is one of its elements and no element is later |
| Dates.NotAfterTotalOrder | skub.py:191 | chronological order is total, antisymmetric and transitive |
| Dates.MinDateIsLeast | skub.py:685 | no calendar date comes before `datetime.min` |
| Dates.CompactText | skub.py:310 | `strftime("%Y%m%d")` is eight digits, from which `%Y`, `%m` and `%d` read back the year, month and day |
| Dates.IsoRoundTrip | skub.py:109 | a zero-padded `YYYY-MM-DD` is read back as itself exactly when it is a calendar date |
| Dates.DayFirstRoundTrip | skub.py:111 | the same for `DD.MM.YYYY`, `DD/MM/YYYY` and `DD-MM-YYYY` |
| Dates.LeapDayExample | skub.py:109 | `2024-02-29` parses to 29 February 2024 |
| Dates.NoLeapDayExample | skub.py:109 | `2023-02-29` is rejected |
| XmlMeta.FindText | skub.py:89-91 | a search finds text exactly when some descendant has the tag |
| XmlMeta.FindTextFirst | skub.py:91 | the search returns the first matching descendant in document order |
| XmlMeta.TierDecides | skub.py:87-93 | the first namespace tier (none, `cbc`, `ubl`) with any `IssueDate` decides, through its first element's text, whatever the later tiers and fallback tags hold |
| XmlMeta.FallbackDecides | skub.py:95-101 | with no usable tier text, the first fallback tag with any element decides, and an empty element gives no date |
| XmlMeta.ParseIssueDateShapes | skub.py:107-111 | the shape dispatch reads back every calendar date in both `YYYY-MM-DD` and `DD.MM.YYYY` |
| XmlMeta.SingleCbcIssueDate | skub.py:87-111 | a lone `cbc:IssueDate` dates the document by the dispatch on its text |
| XmlMeta.IsoIssueDateExample | skub.py:108-109 | `2024-03-15` in `cbc:IssueDate` gives 15 March 2024 |
| XmlMeta.DottedIssueDateExample | skub.py:110-111 | `15.03.2024` gives the same date |
| XmlMeta.ExtractEvrakId | skub.py:131-140 | an accepted identifier has 16 characters and no whitespace at either end |
| XmlMeta.EvrakIdIffSixteen | skub.py:131-143 | the identifier is the stripped text of the first `cbc:ID` if and only if that has length 16, else none |
| XmlMeta.PaddedIdAccepted | skub.py:133-137 | 16 characters between whitespace runs are accepted as the identifier |
| XmlMeta.PaddedIdRejected | skub.py:133-140 | any other stripped length gives no identifier |
| XmlMeta.NoIdElementNoEvrakId | skub.py:141-143 | without a `cbc:ID` there is no identifier |
| HtmlDates.DateShapeEnd | skub.py:173-175 | a date shape spans at least eight characters and ends inside the text |
| HtmlDates.MatchAt | skub.py:173-175 | a match ends after the position where it starts |
| HtmlDates.InvoiceDateOfFile | skub.py:150-152 | a page that cannot be read gives no date, and a readable one gives the heuristic's date |
| HtmlDates.AddCaptures | skub.py:179-188 | the loop over one pattern's matches extends the candidate list as the specification does |
| HtmlDates.ScanPatterns | skub.py:177-188 | the loop over patterns collects the captures of every pattern in order |
| HtmlDates.ScanLabeled | skub.py:171-188 | the keyword loop yields `primary_dates` for all labels and separators in order |
| HtmlDates.ScanUnlabeled | skub.py:199-209 | the fallback loop yields `all_other_dates` |
| HtmlDates.ExtractInvoiceDates | skub.py:148-216 | the method returns the heuristic's date `InvoiceDate(text)` |
| HtmlDates.CollectNoDuplicates | skub.py:183-184 | a candidate list never holds the same date twice |
| HtmlDates.CollectMembers | skub.py:179-188 | a date is a candidate exactly when some capture parses to it |
| HtmlDates.PatternsWellFormed | skub.py:161-176 | every label starts with a letter it does not repeat, and every separator is `.`, `/` or `-` |
| HtmlDates.NoMatchInside | skub.py:173-175 | no match of a pattern starts strictly inside another match of it |
| HtmlDates.FindAllSound | skub.py:178 | every string `re.findall` returns is the capture of a match |
| HtmlDates.FindAllComplete | skub.py:178 | `re.findall` loses no match, although it skips past each one |
| HtmlDates.CapturesSound | skub.py:177-178 | every capture of a pattern list comes from a match of one of its patterns |
| HtmlDates.CapturesComplete | skub.py:177-178 | every match of every listed pattern is captured |
| HtmlDates.CandidatesIff | skub.py:177-188 | the candidates are exactly the dates that some match's capture parses to |
| HtmlDates.LabeledCandidates | skub.py:171-188 | `primary_dates` holds exactly the dates written after a label in one of the three shapes |
| HtmlDates.UnlabeledCandidates | skub.py:194-209 | the fallback list holds exactly the dates written as a whole word |
| HtmlDates.LabeledDateWins | skub.py:190-192 | with any labeled date present, the answer is the latest labeled date, however late the unlabeled ones are |
| HtmlDates.UnlabeledFallback | skub.py:190-216 | otherwise the answer is the latest unlabeled date, and there is none exactly when no unlabeled date exists |
| HtmlDates.CaseVariantsMatchAlike | skub.py:161-178 | labels differing only in ASCII case match at the same places with the same captures |
| HtmlDates.DuzenlemeVariants | skub.py:162 | `Düzenleme Tarihi` and `düzenleme tarihi` match alike |
| HtmlDates.LabelNeedsBoundary | skub.py:166-173 | a label followed by a letter does not match, so `Tarih` never matches inside `Tarihi` |
| Archives.InnerDir | skub.py:68-71 | a nested zip's directory `extracted_<stem>` lies inside the extraction directory of the run that found the zip |
| Archives.InnerDirNestsBelow | skub.py:68-71 | this naming keeps every nested directory inside its parent |
| Archives.ExtractGuarded | skub.py:44-73 | no event lies above the starting level, and a zip is skipped exactly when its level exceeds the limit. Levels never pass the limit plus one, and everything is unpacked below the target directory |
| Archives.UploadGuarded | skub.py:44-48 | unpacking the upload opens levels 0 to 5 only and stays inside the extraction directory |
| Archives.OpenedIffWithinDepth | skub.py:46-52 | a zip is unpacked exactly when it opens and its level is at most the limit |
| Archives.TooDeepSkipped | skub.py:46-48 | a zip one level past the limit is skipped unopened |
| Archives.NestedZipHandled | skub.py:57-73 | a zip inside an opened archive is handled one level deeper, as a block of the outer run |
| Archives.AppendMatching | skub.py:225-227 | the inner loop appends the matching files of one directory in order |
| Archives.FindFiles | skub.py:221-228 | `find_files` returns the specification's list of found files |
| Archives.MatchingSound | skub.py:225-227 | every path listed for a directory is one of its files that passes the extension test |
| Archives.MatchingComplete | skub.py:225-227 | every file of a directory that passes the test is listed |
| Archives.FoundFilesSound | skub.py:224-227 | every found path is a walked file whose lower-cased extension is wanted |
| Archives.FoundFilesComplete | skub.py:224-227 | every walked file whose lower-cased extension is wanted is found |
| Matcher.AppLookup | skub.py:238-249 | the application pairs by file stem and reads dates and identifiers through the XML and HTML extractors |
| Matcher.XmlIndex | skub.py:236-239 | every entry of `xml_dict` maps a key to an XML with that key |
| Matcher.BuildXmlIndex | skub.py:236-239 | the loop builds `xml_dict` |
| Matcher.MatchAll | skub.py:258-262 | one entry per HTML file, in input order, carrying that file |
| Matcher.MatchHtmlWithXml | skub.py:230-269 | the method returns the entries (`files_with_dates`, the function's result) and the list of HTML files without XML, which the source only counts for its log messages |
| Matcher.XmlIndexKeys | skub.py:236-243 | a key is in `xml_dict` exactly when some XML has it |
| Matcher.LastXmlWins | skub.py:237-239 | a later XML with the same stem overrides an earlier one |
| Matcher.MatchAllAt | skub.py:258-262 | entry `i` depends on the `i`-th HTML file alone |
| Matcher.UnmatchedEntry | skub.py:253-256 | an HTML file without XML gets the HTML date and no identifier |
| Matcher.MatchedEntry | skub.py:243-252 | a paired file gets the XML's identifier, and the XML's date or, if that is missing, the HTML date |
| Matcher.HtmlIgnoredWhenXmlDated | skub.py:245-251 | when the XML has a date, the HTML heuristic's answer makes no difference |
| Matcher.UnmatchedIff | skub.py:263-264 | `html_without_xml` holds exactly the HTML files whose stem has no XML |
| Matcher.AppIdsHaveSixteenChars | skub.py:246 | with the application's lookup, every identifier in the result has 16 characters |
| Conversion.ConvertIff | skub.py:271-297 | conversion succeeds, with empty error, exactly when some tier succeeds; otherwise the error is the third tier's |
| Conversion.LaterTiersUnused | skub.py:274-293 | the chain stops at the first success, so later tiers do not matter |
| Conversion.TempName | skub.py:309-313 | a temporary name is a `.pdf` name starting `fatura_`; a dated one carries the compact date and `_` right after that prefix, an undated one starts `fatura_tarihsiz_` |
| Conversion.TempNameCounter | skub.py:309-313 | the counter `idx+1` follows a 16-character prefix in both name shapes |
| Conversion.TempNamesDistinct | skub.py:309-313 | inputs at different positions get different temporary names, whatever their dates |
| Conversion.OneFile | skub.py:305-319 | the application's converter is `convert_one_file` in the temporary directory |
| Conversion.OneFileOutcome | skub.py:309-319 | each input gives exactly one of a PDF at its temporary path and an error keyed by identifier or `Bilinmiyor`, with the last tier's message |
| Conversion.OneFileDistinctOutputs | skub.py:309-319 | different positions never produce the same PDF, and every result is exactly one of success and error |
| Conversion.ConvertAll | skub.py:321-331 | the gathering loop returns the specification's success and error lists |
| Conversion.GatheredInOrder | skub.py:325-330 | the success list holds, in input order, the PDFs of exactly the successful inputs; the error list likewise |
| Conversion.Partition | skub.py:316-330 | every input is in exactly one of the two lists, so their lengths add up to the number of inputs |
| Conversion.PartitionAt | skub.py:326-330 | a position is listed as succeeded or failed exactly when its result says so |
| Conversion.PartitionCount | skub.py:326-330 | the two lists of positions together are as long as the input |
| Conversion.PdfsDistinct | skub.py:314-328 | no two successful conversions share a PDF path |
| Ordering.SortKey | skub.py:685 | the key is the date, or `datetime.min` when there is none |
| Ordering.PrecedesOrder | skub.py:685-686 | the comparison is a strict order, and keys that are not ordered either way are equal |
| Ordering.Insert | skub.py:683-687 | inserting adds exactly the element |
| Ordering.InsertSorted | skub.py:683-687 | inserting into a sorted list keeps it sorted |
| Ordering.SortByDate | skub.py:683-687 | the sort is a permutation of its input |
| Ordering.SortByDateSorted | skub.py:683-687 | the sorted list is in date order, ascending or descending as chosen |
| Ordering.InsertWithKey | skub.py:683-687 | an inserted element goes after the elements already there with its date |
| Ordering.SortByDateStable | skub.py:683-687 | for every date, the invoices with that date keep their input order in both directions |
| Ordering.UndatedFirstAscending | skub.py:685-686 | an undated invoice sorts first ascending and last descending |
| Assembly.PdfFiles | skub.py:656 | `pdf_files` lists the converted PDFs in conversion order |
| Assembly.Numbered | skub.py:671-676 | the candidate series is the preferred name, then the name numbered 1, 2, ... |
| Assembly.NumberedVariantsDistinct | skub.py:674 | the numbered variants are pairwise distinct |
| Assembly.FirstFree | skub.py:672-676 | the collision loop ends with the first candidate that does not exist, and it terminates |
| Assembly.TargetNameParts | skub.py:741-745 | a name without identifier carries the counter `i+1` after `fatura_<date>_` or `fatura_` and ends in `.pdf` |
| Assembly.TargetNamesDistinct | skub.py:738-745 | without identifiers, PDFs at different positions get different preferred names |
| Assembly.CopySeries | skub.py:746-752 | a copy's candidates are its target name, then `<root>_<n><ext>` |
| Assembly.CopySeriesDistinct | skub.py:747-752 | the variants of every copy name are pairwise distinct |
| Assembly.CopyAll | skub.py:735-759 | each PDF is copied under the first free candidate given the files existing at that moment; the count and error list follow from the copier's outcomes |
| Assembly.DiskAfterGrows | skub.py:754 | what existed and every successful copy stay on disk |
| Assembly.NoOverwrite | skub.py:747-754 | no copy targets a file that existed, nor the target of an earlier successful copy |
| Assembly.MergeOrderPermutes | skub.py:682-690 | the merge order holds each converted PDF exactly as often as it was converted, and is conversion order when sorting is off |
| Assembly.SortPdfFiles | skub.py:683-688 | sorting permutes the PDF paths |
| Assembly.MergeOrderSorted | skub.py:682-688 | with sorting on, the merge order comes from a date-sorted permutation that keeps each date's conversion order |
| Assembly.MergedVariantsIgnoreSettings | skub.py:666-676 | the numbered variants of the merged name leave out the sort direction |
| Assembly.AssembleOutput | skub.py:656-759 | no PDF means nothing is produced. Merge mode holds exactly when merging is on and there is more than one PDF; it gets a free merged name and the merge order. Copy mode gets a free output directory and copies every PDF under a free name in it |

## Left out

- The tkinter interface: windows, widgets, message boxes, progress display, the error-detail window, and the result messages that count errors.
- Concurrency. The thread pools in extraction, matching and conversion are modelled as sequential passes in submission order, which is the order the source gathers results in. Nested zips are handled in walk order.
- File and zip I/O (`zipfile`, `os.walk`, `os.makedirs`, `shutil.copy2`, temp-directory cleanup). An archive is given by its readability and members, a directory walk by its (directory, files) steps, and the disk by a set of paths. A failed copy is taken to leave the disk unchanged. The `extracted_<stem>` directory is created even for a zip that is then skipped as too deep; the model does not record directory creation.
- ElementTree parsing. A document is given as its descendants in document order, or as unparsable. An element without text is modelled with text "", which the source treats the same way.
- BeautifulSoup. The page text is given; `InvoiceDateOfFile` takes `None` for a file that cannot be read.
- pdfkit rendering, wkhtmltopdf lookup and the PDF options. The renderer is an outcome per (HTML file, output path, tier).
- PyPDF2 merging: the per-file append, the success and error counts, and the write. Merge mode is modelled up to the chosen path and the merge order.
- The general `re` engine. Only the fixed label-plus-date and `\b`-bounded date patterns are modelled.
- `HtmlDates.KeywordAt`: case-insensitive matching compares ASCII letters only. Under full `re.IGNORECASE`, `İ`/`ı` also fold to `i`, so `Tarih` and `TARİH` would match more texts than the model lets them. `\w` for `\b` is ASCII letters, digits, `_` and the Turkish letters, not every Unicode letter.
- Paths are Windows paths without drive prefixes: `/` and `\` separate, and `Join` inserts `\`.
- `Archives.Extract`: every nested zip is given its own member list. In the source, nested zips with the same stem share one `extracted_<stem>` directory, for example `a\x.zip` and `b\x.zip`, or `x.zip` and `X.ZIP`, since Windows names ignore case. A directory of that name shipped in the outer archive is shared the same way. Each nested run then walks the whole shared directory, may open the other zip's files, and same-named files overwrite each other. The model does not capture this sharing.
- `Text.IsDigit`: `\d` in the date patterns and the digit fields of `strptime` accept ASCII digits only. Python accepts every Unicode decimal digit there (for example Arabic-Indic digits) and reads them with `int()`, so such dates are found by the source and not by the model.
- `Paths.Join`: the name is taken as relative. A name starting with `\` or `/`, for example an identifier written that way, makes `ntpath.join` drop the directory, while `Join` keeps it.
- Timestamps (`datetime.now()`) are a parameter `ts`.
- Floating-point progress values, logging, locale setup, `os.startfile`.
- `Assembly.CopyAll`: the `pdf is None` branch of the copy loop is not modelled, because it cannot happen. The loop runs over the successful conversions only, whose PDF path is always present, so `i` counts positions among successful conversions.
- The error list of the whole run, which concatenates conversion and copy errors, is modelled as two separate lists (`Conversion.ConvertAll`, `Assembly.CopyAll`).
- `Ordering.SortOrder` has the two values the sort-direction buttons offer. Any value other than `desc` sorts ascending in the source.
- `Assembly.MergedCandidates`: the numbered variants of the merged name drop the sort direction, as the source does (`Assembly.MergedVariantsIgnoreSettings`).
