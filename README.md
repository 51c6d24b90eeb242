# Exam-board document harvest and dialogue formatter, modelled in Dafny

The repository consists of two Python scripts. `DataScraping.py` walks the
paginated learning-materials listing of the examination board's web site. From
each page it collects the document links, drops non-English documents and
images, and downloads every remaining document under a sanitised file name.
`format.py` turns the text of a PDF into chat records for fine-tuning:

- one fixed system record;
- for each section, a user question built from the section's first line and
  an optional assistant answer holding the rest of the section;
- a trailing record with the lines that look like table rows.

The model keeps the decisions the scripts make on strings and lists, and
proves what those decisions guarantee. Browser, network, file system, PDF
library and JSON/CSV writers become inputs or are left out (see below).

- `text.dfy` (module `Text`): the pieces of Python's `str` that both scripts
  use. These are `strip`, `replace`, `split`, `join`, `splitlines`, `lower`
  and substring `in`, plus the round-trip and shape lemmas about them.
- `seqs.dfy` (module `Seqs`): list comprehensions and append loops as
  `Map`, `Filter` and `ConcatMap`, with lemmas about order, membership and
  concatenation.
- `harvest.dfy` (module `Harvest`): `sanitize_filename`, the loop of
  `fetch_documents`, the loop of `download_documents`, and the pagination loop
  of the `__main__` block.
- `formatter.dfy` (module `Formatter`): the clean-up step of
  `split_into_sections`, `generate_hypothetical_question`,
  `assign_roles_to_sections`, `handle_tables` and the record assembly of
  `process_pdf`.

How the inputs are represented:

- The browser: `pages` is a sequence giving the `ng-href` values of the links
  on each page the scraper would see. `advance` gives the answer of each "next
  page" click.
- The network and the file system: a download is an `Attempt` whose
  `saved` flag comes from an oracle `fetchOk: Request -> bool`.
- The PDF: `ProcessPdf` takes the extracted text, plus the pieces the section
  regular expression splits it into.

The loops of the source, and the assembly of `process_pdf`, are methods. The
loops carry loop invariants. Each method is proved equal to a function over
its inputs: `FetchDocuments` to `DocumentsOn`, `DownloadDocuments` to
`Downloads`, `Harvest` to `Manifest`/`Downloads`, `AssignRolesToSections` to
`Dialogue`, `HandleTables` to `TableLines`, and `ProcessPdf` to `Output`. Lemmas state what the source promises about those
functions.

Python's string operations are modelled on ASCII:

- Whitespace is `str.isspace` restricted to code points below 128: 9 to 13,
  28 to 31, and the space.
- Line boundaries are those of `str.splitlines` below 128: 10 to 13 and
  28 to 30, with `\r\n` counted as one.
- Lowercasing maps only `A`..`Z`.
- `\s` in the table-row pattern is the same whitespace predicate.

## Model

| member | source | states |
|---|---|---|
| Text.StripSpec | format.py:22 | the result of `strip` neither starts nor ends with whitespace; it is empty exactly when the input is all whitespace; it is a run of consecutive characters of the input, so each of its characters occurs in the input |
| Text.TrimStartSpec | DataScraping.py:19 | the leading part that `strip` removes is all whitespace, and what remains is the suffix that starts with a non-space |
| Text.TrimEndSpec | DataScraping.py:19 | the trailing part that `strip` removes is all whitespace, and what remains is the prefix that ends with a non-space |
| Text.StripIdempotent | format.py:22 | stripping a stripped string changes nothing |
| Text.ReplaceSpec | DataScraping.py:19 | one-character `replace` turns exactly the occurrences of the target into the replacement and leaves every other position as it was |
| Text.JoinSplit | format.py:45-50 | joining the pieces of `split(sep)` with `sep` gives back the original string |
| Text.SplitJoin | format.py:65-68 | splitting a join of separator-free parts (at least one) gives back those parts |
| Text.SplitHead | format.py:45-50 | the first piece of `split` is the text before the first separator; the other pieces joined back are the text after it, or nothing when there is no separator |
| Text.SplitLast | DataScraping.py:30 | the last piece of `split(sep)` is a suffix of the string, and it is preceded by `sep` unless it is the whole string |
| Text.SplitLines | format.py:65 | `splitlines` yields no more lines than characters and no lines for empty text; no line holds a line boundary |
| Text.SplitLinesSpec | format.py:65 | `splitlines()` is `split("\n")` of the text after every line boundary is replaced by `\n` (`\r\n` as one), without the empty piece a final boundary leaves, and no lines for empty text |
| Text.SplitLinesNewlineTerminated | format.py:65 | on text whose only boundary is `\n` and that ends with one, `splitlines()` is `split("\n")` without its empty last piece |
| Text.SplitLinesOnNewlines | format.py:65 | on text whose only boundary is `\n` and that does not end with one, `splitlines()` equals `split("\n")` |
| Harvest.ReplaceInvalidSpec | DataScraping.py:19 | before the strip, sanitising keeps the length and changes exactly `/`, `\` and `:`, each into `_` |
| Harvest.SanitizeSpec | DataScraping.py:17-19 | a sanitised name holds no `/`, `\` or `:` and has no leading or trailing whitespace |
| Harvest.SanitizeIdempotent | DataScraping.py:19 | sanitising twice equals sanitising once |
| Harvest.SanitizeEmpty | DataScraping.py:67-72 | a name sanitises to the empty string exactly when it is all whitespace, which is when the download loop skips it |
| Harvest.LastSegmentSpec | DataScraping.py:30 | a document name holds no `/`, is a suffix of its href, and is preceded by `/` unless it is the whole href |
| Harvest.FetchDocuments | DataScraping.py:24-39 | the loop over the page's links returns `DocumentsOn(hrefs)`, the retained candidates in link order |
| Harvest.DocumentsOnSpec | DataScraping.py:29-38 | a page yields at most as many documents as it has links; each document's name is the last `/`-segment of its path and holds no `/`; its path is one of the page's hrefs verbatim; no document is denied; a link's candidate is kept exactly when its lowercased name contains none of the 12 deny-list strings |
| Harvest.DocumentsOnOrder | DataScraping.py:29-38 | the k-th document is the candidate of the k-th retained link; retained positions ascend; a link is retained exactly when its name is not denied |
| Harvest.DownloadDocuments | DataScraping.py:65-86 | the loop over the documents makes exactly the attempts `Downloads(documents, fetchOk)`, skipping documents whose sanitised name is empty and going on after a failed attempt |
| Harvest.DownloadsFollowPlan | DataScraping.py:65-86 | the attempts follow the plan one for one: the k-th attempt makes the k-th planned request and records the outcome of that request alone, so a failure never stops later downloads |
| Harvest.PlanSpec | DataScraping.py:67-77 | the k-th planned request is for the k-th document whose sanitised name is non-empty, under that name and at `https://examinationboard.aku.edu/` followed by the path; planned positions ascend; a document is planned exactly when its sanitised name is non-empty; no target name is empty |
| Harvest.FirstStop | DataScraping.py:110-112 | the index of the first failed "next page" click: every earlier click succeeded |
| Harvest.FirstStopAt | DataScraping.py:110-112 | a failed click that no failed click precedes is the first stop |
| Harvest.StopAhead | DataScraping.py:110-114 | while every click so far succeeded, the failing click is still ahead, so another page exists |
| Harvest.ManifestSpec | DataScraping.py:104-107 | the manifest's length is the sum of the per-page document counts; each entry keeps the unsanitised last segment of its path as its name, is not denied, and comes from a link on some scraped page |
| Harvest.ManifestAppend | DataScraping.py:105 | the manifest of consecutive runs of pages is their manifests concatenated |
| Harvest.ManifestStep | DataScraping.py:104-106 | scraping one more page appends exactly that page's documents to the manifest, and appends exactly their attempts to the downloads |
| Harvest.ScrapePage | DataScraping.py:104-106 | one pass of the loop body extends the manifest by the current page and the download log by that page's attempts |
| Harvest.Harvest | DataScraping.py:99-114 | the loop stops at the first failed click; `page_num` is the number of pages scraped; `docs` is the concatenation of those pages' documents in page order; the downloads are the attempts the whole manifest calls for |
| Formatter.SectionsSpec | format.py:22 | every section is non-empty and equal to its own strip; the k-th section is the stripped k-th surviving piece; survivors keep their order; a piece survives exactly when it holds a non-whitespace character |
| Formatter.QuestionTopic | format.py:29 | a generated question is `Can you explain the topic of ` + topic + `?`, and its topic is the stripped title |
| Formatter.QuestionFromTopic | format.py:29 | every string of that shape whose topic is stripped is the question generated from its topic |
| Formatter.SectionParts | format.py:45-50 | the title is the text up to the first line feed, so the `this topic` fallback is never used; the answer is the stripped text after the first line feed, or nothing for a one-line section |
| Formatter.AssignRolesToSections | format.py:31-57 | the loop returns `Dialogue(sections)`: the system record, then each non-empty section's records in order |
| Formatter.SectionRecordsShape | format.py:42-55 | an empty section yields nothing; a non-empty one yields a user record, then at most one assistant record, whose content is non-empty and its own strip; no system record |
| Formatter.SectionRunPaired | format.py:41-55 | the records of the sections hold no system record, start with a user record, and each assistant record directly follows a user record |
| Formatter.PairedAppend | format.py:41-55 | two runs of section records that each hold no system record, start with a user record and put every assistant record right after a user record still do so when concatenated |
| Formatter.DialogueShape | format.py:38-55 | the output starts with the fixed system record, holds no other system record, and each assistant record directly follows a user record |
| Formatter.AnswersNonEmpty | format.py:50-55 | every assistant content in the output is non-empty and equal to its own strip |
| Formatter.DialogueLength | format.py:41-55 | for n non-empty sections the output has between 1 + n and 1 + 2n records |
| Formatter.UserRecords | format.py:41-53 | the user records of the output are exactly one question per non-empty section, in section order, each asked about that section's first line |
| Formatter.AssistantRecords | format.py:50-55 | the assistant records of the output are exactly, in section order, one record per non-empty section whose stripped text after the first line is non-empty, holding that text |
| Formatter.HandleTables | format.py:59-68 | the loop returns the table lines joined by `\n` |
| Formatter.TableLinesSpec | format.py:65-67 | the table lines are exactly the lines of the text holding a tab or two whitespace characters in a row, in text order |
| Formatter.TableContent | format.py:68-87 | the table content is empty exactly when there are no table lines; splitting it on `\n` gives back the table lines |
| Formatter.ProcessPdf | format.py:78-88 | the records written are `Output(rawText, pieces)` |
| Formatter.OutputSpec | format.py:84-88 | the output starts with the role-assignment records; it is exactly those when no line is a table line; otherwise exactly one more record follows, the assistant record `Here is some table data:\n` + the table content |

## Left out

- The Selenium session is not modelled, since it is browser I/O: XPath lookups, `WebDriverWait`, `execute_script`, the clicks themselves and `time.sleep` (DataScraping.py:23,27,42-59,89-96,116). The links of each page and the outcome of each click are inputs.
- `requests.get`, `raise_for_status`, the chunked file write, `os.makedirs` and `os.path.join` are not modelled, since they are network and file-system I/O (DataScraping.py:63,74,78-83). Each download's outcome is the oracle `fetchOk`. The oracle is a function of the request, so two identical requests get the same outcome.
- The pandas CSV write, and the JSON dump and file write, are not modelled, since they are foreign serialisation (DataScraping.py:119-120, format.py:90-94). `ProcessPdf` returns the records it would write.
- `pdfplumber` text extraction is not modelled, since it is a foreign library (format.py:5-13). The text is an input.
- The regular-expression split of `split_into_sections` is not modelled (format.py:21). Its pieces are an input of `ProcessPdf`, so the model does not relate them to the text.
- Console `print` logging is not modelled, as it has no effect on results.
- Harvest: requires that some click fails within the given pages. A site whose "next page" click never fails makes the Python loop run forever, and that run is not modelled.
- Harvest: assumes every link has an `ng-href` attribute. If the attribute were missing, `get_attribute` would give `None` and the `split` would raise an exception, which is not modelled.
- Text.StripSpec: restricted to ASCII whitespace. Python's `strip` also removes Unicode whitespace, for example U+00A0 and U+2028.
- Text.SplitLines: restricted to ASCII boundaries. Python's `splitlines` also breaks at U+0085, U+2028 and U+2029.
- Harvest.DocumentsOnSpec: the deny-list test lowercases ASCII letters only. Python's `lower` also folds non-ASCII letters.
