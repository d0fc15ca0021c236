# Image sourcing tool — a Dafny model

`ImageManagementScript.py` sources the poster and the still image for each
title of a catalogue spreadsheet. For every row of the "Movies" sheet it does
the following:

1. It cleans the title and the distributor cells.
2. It searches the distributor's folder of the source tree for a file whose
   cleaned name contains the cleaned title. A single "Horizontal Posters"
   folder serves every category. Priority tags "(1)" and "(2)" break ties.
   A title-only fallback runs when that search finds nothing.
3. It copies what it found into the download folder, remembering the source
   paths that failed to copy.
4. It records the file names per title, and the titles with no image per
   distributor.

It then writes the names back into the sheet, next to the row carrying each
title. Last, it builds a text report: the missing titles by distributor, an
email draft for each distributor with a known contact, and the failed copies.

The model keeps every decision of that pass and replaces the I/O with data:

- The source tree is a value. Each existing distributor folder maps to its
  children. Each existing folder below it maps to the paths `rglob` yields,
  in the order given.
- The outcome of each copy is a function parameter (copied, permission
  denied, other failure).
- The sheet is an array of rows (title, poster, still).
- The contact sheet is a sequence of rows.

Modules, one file each:

- `Optional` (optional.dfy): Python's `Optional`.
- `Text` (text.dfy): the title key `clean_string`, substring containment,
  `strip`, `upper` and decimal rendering, all restricted to ASCII.
- `Dict` (dict.dfy): an insertion-ordered `dict` as a sequence of entries.
- `ImageManagement` (image_manager.dfy): the source tree and the two searches
  as functions, and the class `ImageManager`. Its methods run the search
  loops, and `copy_image` updates the `copyErrors` and `copies` fields.
- `Excel` (excel_handler.dfy): `update_images` as the class `ExcelHandler`
  over the sheet array, specified by `TitleIndex` and `ApplyAll`.
- `Draft` (draft.dfy): the email letter and `textwrap.dedent` over its lines.
- `Report` (report.dfy): the `not_found` buckets and `generate_report`, which
  produces the report as a sequence of `Line` values with their rendering.
- `Process` (process.dfy): the loop of `process_images`, specified as a fold
  of `Apply` over the examined rows, and the whole run.

`clean_string` follows the code, not the one-line description "all
non-alphanumeric characters stripped". The regular expression `\W+` keeps the
underscore, so `CleanString("a_b") == "a_b"`.

## Model

| member | source | states |
|---|---|---|
| Text.CleanString | ImageManagementScript.py:47-49 | the definition of clean_string: the empty input gives the empty key, any other input loses its `\W` characters and is lower-cased; its properties are the lemmas below |
| Text.CleanStringChars | ImageManagementScript.py:47-49 | the key is no longer than the input and holds only word characters (letters, digits, `_`), none upper-case |
| Text.CleanStringIdempotent | ImageManagementScript.py:47-49 | cleaning a key again leaves it unchanged |
| Text.CleanStringIgnoresCase | ImageManagementScript.py:47-49 | lower-casing the input first does not change the key |
| Text.CleanStringConcat | ImageManagementScript.py:47-49 | the key of a concatenation is the concatenation of the keys (the empty input giving the empty key) |
| Text.CleanStringChar | ImageManagementScript.py:49 | a single character keeps its lower-case form exactly when `\W` does not match it |
| Text.RemoveNonWordConcat | ImageManagementScript.py:49 | `re.sub(r'\W+', '', ·)` distributes over concatenation |
| Text.RemoveNonWordLower | ImageManagementScript.py:49 | removing non-word characters commutes with lower-casing |
| Text.LowerAllConcat | ImageManagementScript.py:49 | `lower()` distributes over concatenation |
| Text.Contains | ImageManagementScript.py:83 | the definition of `needle in hay`; ContainsAt characterizes it by offsets |
| Text.ContainsAt | ImageManagementScript.py:83 | `needle in hay` holds exactly when the needle occurs at some offset of the haystack |
| Text.ContainsEmpty | ImageManagementScript.py:83 | the empty string is in every string |
| Text.Trim | ImageManagementScript.py:202-203 | `strip()` returns a slice of the input that neither starts nor ends with whitespace, everything cut off being whitespace |
| Text.TrimStart | ImageManagementScript.py:202-203 | the left half of `strip()`: a suffix of the input after leading whitespace only, not starting with whitespace |
| Text.TrimEnd | ImageManagementScript.py:202-203 | the right half of `strip()`: a prefix of the input before trailing whitespace only, not ending with whitespace |
| Text.Decimal | ImageManagementScript.py:246 | the count renders as decimal digits with no leading zero |
| Text.DecimalRoundTrip | ImageManagementScript.py:246 | reading the rendered count back gives the count |
| Dict.Get | ImageManagementScript.py:220 | `d.get(k)` is None exactly when no entry holds `k`, else the value of an entry holding `k` |
| Dict.Set | ImageManagementScript.py:220 | `d[k] = v` makes `k` hold `v` and keeps every other key's value; the key order stays, or gains `k` at the end when it is new; distinct keys stay distinct |
| Dict.IndexOf | ImageManagementScript.py:220 | the position of the first entry holding a key, or the length when it is absent |
| ImageManagement.TargetFolder | ImageManagementScript.py:71-75 | the definition of the folder choice; HorizontalRule states it over the raw children |
| ImageManagement.Matches | ImageManagementScript.py:81-84 | the definition of `matching_files`; MatchesSpec and MatchesSnoc characterize it |
| ImageManagement.Preferred | ImageManagementScript.py:86-94 | the definition of the tie-break over the candidates; PreferredByListing states it over the listing |
| ImageManagement.Resolve | ImageManagementScript.py:64-94 | the definition of find_image over the tree; ResolveSpec states what it returns |
| ImageManagement.ResolveByTitleOnly | ImageManagementScript.py:96-110 | the definition of find_image_by_title_only over the tree; ResolveByTitleOnlySpec states what it returns |
| ImageManagement.PosterFolders | ImageManagementScript.py:71 | every listed folder is a child directory with "Poster" in its name, and every such child is listed; how many there are and which comes first is stated by NoPosterFolders, PosterFoldersOf and SinglePosterFolder |
| ImageManagement.NoPosterFolders | ImageManagementScript.py:71 | with no poster folder among the children the scan lists nothing |
| ImageManagement.PosterFoldersOf | ImageManagementScript.py:71 | with exactly one poster folder among the children the scan lists just that child |
| ImageManagement.SinglePosterFolder | ImageManagementScript.py:71-72 | when the scan lists a single folder, exactly one child is a poster folder |
| ImageManagement.HorizontalRule | ImageManagementScript.py:71-75 | the horizontal-poster folder is searched exactly when one child, and only one, is a directory named with "Poster" and that name contains "Horizontal Posters"; the search then goes to that child whatever the category, otherwise to the requested category |
| ImageManagement.MatchesSpec | ImageManagementScript.py:81-84 | the candidates are exactly the listed files whose cleaned name contains the key; there are none exactly when no file matches |
| ImageManagement.MatchesSnoc | ImageManagementScript.py:82-84 | one more listed path adds itself to the candidates exactly when it matches |
| ImageManagement.FirstTagged | ImageManagementScript.py:87-89 | the scan for a tag stops at the first candidate whose name contains it, or runs off the end |
| ImageManagement.FirstTaggedMatch | ImageManagementScript.py:106-108 | the first listed path that is a candidate and carries the tag, none before it doing so |
| ImageManagement.MatchesFirstTagged | ImageManagementScript.py:81-89 | scanning the collected candidates for a tag finds the same file as scanning the raw listing |
| ImageManagement.PreferredByListing | ImageManagementScript.py:86-94 | the tie-break picks the first candidate tagged "(1)", else the first tagged "(2)", else the first candidate, else nothing |
| ImageManagement.ResolveSpec | ImageManagementScript.py:64-94 | find_image returns None when the distributor or the chosen folder is missing or nothing matches; otherwise it returns a matching file of the chosen folder, chosen by the tag priority |
| ImageManagement.HorizontalServesEveryCategory | ImageManagementScript.py:71-75 | with a single "Horizontal Posters" folder every category resolves to the same file; otherwise the requested category's folder is searched |
| ImageManagement.EmptyKeyMatchesEveryFile | ImageManagementScript.py:83 | a title whose key is empty matches every file |
| ImageManagement.ResolveByTitleOnlySpec | ImageManagementScript.py:96-110 | the fallback searches `distributor/folderType` and returns the first matching file, ignoring tags, or None when a folder is missing or nothing matches |
| ImageManagement.FallbackOnlyAfterHorizontal | ImageManagementScript.py:209-215 | the fallback can only find what find_image missed when find_image searched the horizontal-poster folder |
| ImageManagement.CollectMatches | ImageManagementScript.py:81-84 | the loop gathers exactly the candidates, in listing order |
| ImageManagement.PickPreferred | ImageManagementScript.py:86-94 | the tag loops and the fallback return the preferred candidate |
| ImageManagement.ImageManager.constructor | ImageManagementScript.py:58-62 | a new manager has the given tree and copy outcomes and no copy errors |
| ImageManagement.ImageManager.FindImage | ImageManagementScript.py:64-94 | the method returns what `Resolve` specifies |
| ImageManagement.ImageManager.FindImageByTitleOnly | ImageManagementScript.py:96-110 | the method returns what `ResolveByTitleOnly` specifies, always a matching file |
| ImageManagement.ImageManager.CopyImage | ImageManagementScript.py:112-128 | on success it returns the file name and records the copy, leaving `copyErrors` alone; on either failure it returns None and appends the source path to `copyErrors` |
| Excel.TitleIndex | ImageManagementScript.py:149-155 | the definition of `sheet_title_map` over the sheet rows; LastIndex states what it holds |
| Excel.ApplyAll | ImageManagementScript.py:157-164 | the sheet after the records are written one after the other: same length, no title cell changed; CellUntouched, LastWriteWins and UpdateSpec state which cells change |
| Excel.LastIndex | ImageManagementScript.py:149-155 | the title map leads from each key below the header to a row carrying it, and to the last such row |
| Excel.LastIndexSnoc | ImageManagementScript.py:150-155 | one more row adds or overwrites its own key only |
| Excel.CellAfterOne | ImageManagementScript.py:158-164 | one record changes a cell exactly when it writes to it, and then to its truthy name |
| Excel.CellUntouched | ImageManagementScript.py:157-164 | a cell that no record writes to keeps its value |
| Excel.LastWriteWins | ImageManagementScript.py:157-164 | a cell ends up holding the name from the last record that writes to it |
| Excel.UpdateSpec | ImageManagementScript.py:145-164 | no title cell changes; a row changes only when it is the last row with its key and some results title has that key |
| Excel.ExcelHandler.constructor | ImageManagementScript.py:139-143 | the handler works on the given sheet |
| Excel.ExcelHandler.TitleRows | ImageManagementScript.py:149-155 | the first loop builds the title map `TitleIndex` of the sheet |
| Excel.ExcelHandler.WriteRecord | ImageManagementScript.py:158-164 | one record writes its truthy poster and still names into the row its cleaned title leads to, and nothing else |
| Excel.ExcelHandler.UpdateImages | ImageManagementScript.py:145-164 | the sheet becomes `ApplyAll` of the old sheet under its title map |
| Report.Record | ImageManagementScript.py:206 | the definition of `not_found[d].append(t)` on a defaultdict; RecordSpec states its effect |
| Report.Total | ImageManagementScript.py:241 | the definition of the count of missing titles; TotalZero, TotalUpdate and TotalAppend characterize it |
| Report.ReportLines | ImageManagementScript.py:241-286 | the definition of the report lines; ReportSummary, EveryBucketReported and ErrorsAtEnd state their contents |
| Report.Render | ImageManagementScript.py:246-286 | the text of each report line, with the corrected email body (see Left out) |
| Report.ReportText | ImageManagementScript.py:288-290 | the report text: the rendered lines joined with newlines |
| Report.RecordSpec | ImageManagementScript.py:206 | appending to a defaultdict bucket adds one to the total, puts the title at the end of its bucket (a new bucket at the end), and leaves the other buckets alone |
| Report.TotalZero | ImageManagementScript.py:241 | the total is zero exactly when every bucket is empty |
| Report.TotalUpdate | ImageManagementScript.py:241 | replacing a bucket changes the total by the difference in lengths |
| Report.TotalAppend | ImageManagementScript.py:241 | a new bucket adds its length to the total |
| Report.FindContact | ImageManagementScript.py:253-256 | the contact row is None exactly when no row names the distributor, else the first row that does |
| Report.SectionContents | ImageManagementScript.py:249-277 | a bucket's section is its distributor line, one line per title in order, then the draft lines or the no-contact line |
| Report.SectionsConcat | ImageManagementScript.py:248 | the sections of two runs of buckets follow one another |
| Report.SectionsInOrder | ImageManagementScript.py:248 | bucket `i`'s section sits between the earlier and the later buckets' sections |
| Report.SectionInReport | ImageManagementScript.py:244-277 | every line of a bucket's section is a line of the report |
| Report.ReportSummary | ImageManagementScript.py:241-280 | the report opens with the count when it is positive, else with the single confirmation line (then only the errors follow); the count is zero exactly when all buckets are empty |
| Report.BucketInSection | ImageManagementScript.py:245-277 | a bucket's own section holds its distributor, each of its titles, and its contact's address and letter or the no-contact note |
| Report.EveryBucketReported | ImageManagementScript.py:244-277 | every bucket's distributor, each of its titles, and its contact's address and letter or the no-contact note appear in the report |
| Report.ErrorsAtEnd | ImageManagementScript.py:282-286 | with copy errors, the report ends with the errors heading and one line per failed path, in order |
| Report.AppendSection | ImageManagementScript.py:249-277 | the body of the loop over the buckets appends the bucket's section |
| Report.GenerateReport | ImageManagementScript.py:241-286 | the method builds `ReportLines` |
| Draft.Dedent | ImageManagementScript.py:258 | the definition of `textwrap.dedent` on lines; MarginSpec and DedentBy state its effect |
| Draft.LetterAsWritten | ImageManagementScript.py:258-270 | the lines of the letter as the source text builds it; SeveralTitlesStayIndented and OneTitleAsIntended state what dedent makes of it |
| Draft.NarrowSpec | ImageManagementScript.py:258 | a dedent step keeps a common prefix of the margin and the indent, and the longest such |
| Draft.MarginSpec | ImageManagementScript.py:258 | dedent's margin is the longest common prefix of the indents of the lines with text, and exists exactly when some line has text |
| Draft.DedentBy | ImageManagementScript.py:258 | when the lines with text share an indent that one of them has exactly, dedent strips that indent and empties blank lines |
| Draft.LetterIndents | ImageManagementScript.py:258-270 | every line with text of the intended letter is indented by the same 20 spaces |
| Draft.LetterDedented | ImageManagementScript.py:258-270 | the intended letter comes out flush left: greeting first, title `k` as `- title` on line `5 + k`, sign-off kept |
| Draft.DedentedTitleLine | ImageManagementScript.py:263 | title `k` of the intended letter comes out of dedent as `- title` |
| Draft.OneTitleAsIntended | ImageManagementScript.py:263 | with one title the letter as written is the intended one and dedent greets flush left |
| Draft.SeveralTitlesStayIndented | ImageManagementScript.py:258-270 | with two or more titles the second title line has no indentation, so dedent strips nothing and the greeting keeps its 20 spaces |
| Draft.UnlinesStartsWith | ImageManagementScript.py:290 | the joined lines begin with the first line |
| Draft.MessageGreets | ImageManagementScript.py:258-270 | the intended message starts with the greeting |
| Draft.MessageAsWrittenIndented | ImageManagementScript.py:258-270 | the message as written starts with 20 spaces before the greeting when there are two or more titles |
| Process.Locate | ImageManagementScript.py:209-215 | the definition of the search with its fallback; LocateSpec states what it returns |
| Process.Examine | ImageManagementScript.py:199-215 | the definition of the first half of the loop body; ExamineSpec states it |
| Process.Apply | ImageManagementScript.py:205-223 | the definition of the second half of the loop body; ApplySpec, ApplyCopies and the step lemmas state it |
| Process.Run | ImageManagementScript.py:198-223 | the definition of the loop over the rows; the lemmas below state what it builds |
| Process.Clean | ImageManagementScript.py:202-203 | a cleaned cell is present exactly when the cell is, and is then the cell with some leading and trailing whitespace removed and none left at either end |
| Process.LocateSpec | ImageManagementScript.py:209-215 | the located image is the result of the distributor search whenever that finds one, and of the title-only search otherwise; it is None only when both return None, and otherwise a file of some folder of the distributor that matches the title |
| Process.ExamineSpec | ImageManagementScript.py:199-207 | a row is searched exactly when both stripped cells are non-empty, keyed by the stripped cells; otherwise it is filed under the stripped distributor, or the placeholder when that cell is missing or blank, with the stripped title or the placeholder likewise |
| Process.ApplySpec | ImageManagementScript.py:205-223 | one row files its entry when it is missed, sets `movie_data[title]` when searched, and adds one copy or copy error per located image |
| Process.MovieDataStep | ImageManagementScript.py:220 | one row changes the movie data only under its own title |
| Process.NotFoundStep | ImageManagementScript.py:206-223 | one row changes the missing titles only by appending its entry to its own bucket |
| Process.TotalIsMissedRows | ImageManagementScript.py:206-241 | the report's count is the number of missed rows, repeats included, and both dicts keep distinct keys |
| Process.CarriesSnoc | ImageManagementScript.py:220 | one more row carries a title exactly when it is searched under that title |
| Process.MovieDataKeys | ImageManagementScript.py:220 | the movie data has an entry for a title exactly when some searched row carries it |
| Process.MovieDataLastRowWins | ImageManagementScript.py:220 | for a repeated title the last searched row's names win |
| Process.MissedRowsListed | ImageManagementScript.py:205-223 | every missed row's entry is in its bucket |
| Process.OnlyMissedRowsListed | ImageManagementScript.py:205-223 | every entry of a bucket comes from a missed row filed under that bucket |
| Process.EachCopyAccounted | ImageManagementScript.py:217-218 | the number of copies plus copy errors equals the number of located images |
| Process.OutcomesConcat | ImageManagementScript.py:217-218 | the copies and the copy errors of two runs of attempts follow one another |
| Process.OutcomeOne | ImageManagementScript.py:112-128 | one attempt writes its file when the copy succeeds and otherwise records its source path |
| Process.AfterCopyOutcome | ImageManagementScript.py:217-218 | `copy_image(path, ...) if path else None` makes the copy or records the error of its at most one attempt |
| Process.LookedLists | ImageManagementScript.py:217-218 | a searched row changes the copies and the copy errors only by its poster copy, then its still copy |
| Process.ApplyCopies | ImageManagementScript.py:217-218 | one row appends the copies of its successful attempts and the source paths of its failed ones, poster before still |
| Process.CopiesInOrder | ImageManagementScript.py:198-218 | the copies are exactly the located images whose copy succeeded, and the copy errors the source paths of those whose copy failed, both in the order the loop attempts them |
| Process.FoldSnoc | ImageManagementScript.py:198 | the loop state after one more row is that row applied to the state before it |
| Process.SourceRow | ImageManagementScript.py:209-223 | the searches, copies and updates of a complete row give `Apply` of its examination |
| Process.ProcessRow | ImageManagementScript.py:198-223 | one pass of the loop gives `Apply` of the row's examination |
| Process.ProcessRows | ImageManagementScript.py:193-223 | the loop over the rows gives `Run` of the catalogue |
| Process.ProcessImages | ImageManagementScript.py:173-226 | the sheet becomes the results written under its title map, and the report lines are those of the run's missing titles, the contacts and the copy errors |

## Left out

- Logging, the tqdm progress bar, the dated download folder name, `mkdir`, saving the workbook and writing `image_search_report.txt` are side effects without decisions. `Report.ReportText` gives the text of the report, with the email bodies corrected as described next.
- Reading the workbook with pandas and openpyxl is not modelled. Cells are optional strings. `pd.notna` becomes the presence of a value.
- Report.Render: the email body is rendered as the corrected letter `Draft.Message`, not as the letter the source writes at line 275 (`Draft.MessageAsWritten`). The two differ for a bucket with two or more titles; see Findings.
- Process.Clean: non-string cells (numbers, dates) and their `str(...)` form are not modelled. Such cells are taken to be strings already.
- Folder existence (`exists`, `is_dir`) is map membership. `rglob("*")` is the given listing of a folder, in an order the operating system decides. A directory entry appears there with `isFile` false.
- The copy itself (`shutil.copy`) is an oracle. Both failure branches behave alike and are kept apart only in `CopyOutcome`.
- Only ASCII is modelled. Python's `\W`, `lower`, `upper` and `strip` also act on non-ASCII letters and spaces, which the model treats as non-word characters, unchanged by case mapping, and not whitespace.
- The contact lookup is the first contact row with the distributor. The DataFrame filter's other rows are ignored, as the source does with `iloc[0]`.
- A contact name or title spanning several lines is not modelled. Dedent works on lines, and the letter model gives each name or title one line.
- Line 263 nests an f-string with a backslash inside a replacement field. Only Python 3.12 and later accept this. The model takes that reading.

## Findings

| source | as written | input that shows it | evidently intended | confidence | as-written member | corrected member |
|---|---|---|---|---|---|---|
| ImageManagementScript.py:258-271 | the titles are joined as `"- t\n"` and inserted after 20 spaces, so only the first title line is indented; every later title line starts at column 0, dedent finds no common margin, and the whole letter keeps its 20-space indentation | a bucket with two titles, e.g. `["A", "B"]` | every title line at the letter's indentation, so the letter comes out flush left with the greeting first | medium, not executed | Draft.SeveralTitlesStayIndented | Draft.LetterDedented |
