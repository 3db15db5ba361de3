# Aegis — a Dafny model of the record pipeline

Aegis reads owner records out of Lightstone PDF reports and keeps track of them in a small
SQLite table. For each identifier it looks up phone numbers on the Virtual Agent web site, then
writes the results to Excel workbooks. A customtkinter window drives all of this: a Process page
with drag-and-drop and an animated status line, and a page that manages the Virtual Agent
credentials.

This project models the logic of those pieces in Dafny and proves what they promise. Each module
models one source file:

| module | file | form |
|---|---|---|
| `PdfParser` | `pdf_parser.py` | the pattern `(\d+)\s+(\d+)\s+([A-Z\s]+?)\s+(\d{13})` as a backtracking matcher in Python's order; `findall` as a left-to-right scan over the matcher's answer at each position; the loops of `extract_data` as methods; the format dispatch |
| `RecordStore` | `db.py` | the `processed_ids` table as a class holding its rows and the AUTOINCREMENT counter; the queries are filters |
| `WebAutomation` | `test_web_automation.py` | the cleaning and validation of link texts; the scan loop of `extract_phone_numbers` with its cap of three; the result dictionary of `test_virtual_agent` |
| `ExcelReport` | `test_excel_writer.py` | `create_excel_file` as a method building the "Aegis Report" sheet row by row, then the column-width loop |
| `ResultsSheet` | `excel_writer.py` | `write_results_to_excel`'s header and padded rows |
| `Gui` | `gui.py` | the Process page, the content area, the window's drop handler and the credentials page as classes whose methods update their fields |
| `DropParsing` | `test_dnd.py` | `on_drop`'s parsing of a Tk drop string and its label |

Two shared modules support them. `Text` holds the Python string operations the code relies on:
`strip`, `split`, `join`, `lower`, `startswith`, `endswith`, `in`, `re.sub` over a character
class, and `os.path.basename` on '/'. `Wrappers` holds `Option` and `Result`.

Behaviour the model pins down that a reader may not expect:

- The name group `[A-Z\s]+?` admits whitespace. A name that is only blanks therefore matches and
  becomes the empty name after `strip`.
- `\d{13}` has no trailing boundary. A longer digit run yields its first thirteen digits.
- `update_status` with 'done' on a row that is already done stamps it again with the later time
  (`RecordStore.UpdateTwice`).
- "Processing complete!" contains "Processing". `update_status_label` therefore keeps the
  processing flag set, and the dot animation immediately overwrites the completion message
  (`Gui.ProcessPage.OnProcessingComplete`).
- The report's column A always gets the maximum width 20, because the widths loop also counts
  the "Report Date: ..." banner in A1 (`ExcelReport.BannerWidensColumnA`).
- `on_agent_select` clears and refills the entries before it changes their state, and Tk ignores
  edits of a disabled entry. Choosing a second agent, or "Create New Agent", right after viewing
  an agent therefore leaves the previous agent's texts in the entries
  (`Gui.CredentialsPage.OnAgentSelect`).
- The report of `create_excel_file` has two title rows, the report date and the scheme number,
  then the header row, so its data starts on row 4 (`ExcelReport.CreateExcelFile`).
- The web script looks up one fixed sample identifier. Only its extraction of numbers from the
  contact table is modelled.


## Model

| member | source | states |
|---|---|---|
| `PdfParser.MatchItems` | pdf_parser.py:17-19 | whatever item ends the backtracking search returns fit the pattern items one after another |
| `PdfParser.MatchItemsComplete` | pdf_parser.py:17-19 | wherever the items fit from a position, the search finds some match there: backtracking never gives up wrongly |
| `PdfParser.TryGreedy` | pdf_parser.py:18 | a greedy `+` item tried from its longest run downwards returns only fitting ends |
| `PdfParser.TryGreedyComplete` | pdf_parser.py:18 | if the items fit with the greedy run ending anywhere up to the current candidate, the greedy search succeeds |
| `PdfParser.TryLazy` | pdf_parser.py:18 | the lazy `+?` name item tried from its shortest run upwards returns only fitting ends |
| `PdfParser.TryLazyComplete` | pdf_parser.py:18 | if the items fit with the lazy run ending at or after the current candidate, the lazy search succeeds |
| `PdfParser.RunMaximal` | pdf_parser.py:18 | no run of a class starting at a position extends past the end the greedy item starts from |
| `PdfParser.PatternFits` | pdf_parser.py:18 | the group-by-group reading of a match (digits, blanks, digits, blanks, name characters, blanks, 13 digits) is the item-by-item fit of the pattern |
| `PdfParser.MatchAt` | pdf_parser.py:17-19 | a match the engine reports at a position starts there and satisfies every group's class and length |
| `PdfParser.MatchAtComplete` | pdf_parser.py:17-19 | wherever the pattern matches, the engine reports a match at that start |
| `PdfParser.FindAllFrom` | pdf_parser.py:31 | every match `findall` returns is a real match at or after the scan position |
| `PdfParser.FindAllEngineMatches` | pdf_parser.py:31 | each returned match is exactly the engine's match at its start position |
| `PdfParser.FindAllOrdered` | pdf_parser.py:31 | returned matches come left to right and do not overlap |
| `PdfParser.FindAllLeftmost` | pdf_parser.py:31 | no position before the first returned match has a match |
| `PdfParser.FindAllEmpty` | pdf_parser.py:31 | `findall` returns nothing exactly when no position has a match |
| `PdfParser.FindAllTail` | pdf_parser.py:31 | after the first match, `findall` goes on with exactly its own result from where that match ends |
| `PdfParser.FindAllGaps` | pdf_parser.py:31 | between the end of one returned match and the start of the next, no position has a match |
| `PdfParser.FindAllAfterLast` | pdf_parser.py:31 | from the end of the last returned match to the end of the text, no position has a match |
| `PdfParser.FindAllCovers` | pdf_parser.py:31 | `findall` misses no match: every position with a match lies inside one of the returned matches |
| `PdfParser.MatchRecordWellFormed` | pdf_parser.py:33-38 | the record of a match has non-empty all-digit unit and size kept as text, a name of only A–Z and blanks with no blank at either end, and an identifier of exactly 13 digits |
| `PdfParser.Records` | pdf_parser.py:32-39 | one record per match, in match order |
| `PdfParser.BlockRecordsEmpty` | pdf_parser.py:29-31 | a block yields no record exactly when its stripped text has no match |
| `PdfParser.PageRecordsEmpty` | pdf_parser.py:29-39 | a page yields no record exactly when none of its blocks has a match |
| `PdfParser.DocumentRecordsEmpty` | pdf_parser.py:22-39 | a document yields no record exactly when no block of any page has a match |
| `PdfParser.BlockRecordsWellFormed` | pdf_parser.py:29-39 | every record of a block is well formed |
| `PdfParser.PageRecordsWellFormed` | pdf_parser.py:29-39 | every record of a page is well formed |
| `PdfParser.DocumentRecordsWellFormed` | pdf_parser.py:22-39 | every record of a document is well formed |
| `PdfParser.ExtractionSucceeds` | pdf_parser.py:43-51 | extraction of an opened document succeeds exactly when some block matches; otherwise the error is "Error processing PDF: No matching data found in PDF." |
| `PdfParser.ExtractionWellFormed` | pdf_parser.py:43-46 | a successful extraction is non-empty and every record is well formed |
| `PdfParser.ScanBlock` | pdf_parser.py:29-39 | the per-block loop appends exactly the records of the stripped block's matches, in order |
| `PdfParser.ScanPage` | pdf_parser.py:29-39 | the per-page loop appends the records block after block |
| `PdfParser.ExtractData` | pdf_parser.py:10-51 | `extract_data` returns the records of all pages in order, or the missing-file error, the wrapped read fault, or the wrapped no-data error; success is non-empty and well formed |
| `PdfParser.ParserFor` | pdf_parser.py:54-59 | a parser is found exactly when the lower-cased format name is "lightstone" |
| `PdfParser.ExtractDataFromPdf` | pdf_parser.py:53-62 | any other format fails with "Unsupported PDF format: <name>"; "lightstone" in any case runs the extraction |
| `PdfParser.ExtractDataFromPdfDefault` | pdf_parser.py:53 | with the format left at its default "lightstone", the extraction runs |
| `RecordStore.Select` | db.py:51-56 | a query returns, in table order, exactly the rows of the file (and status, when given) |
| `RecordStore.SelectAppend` | db.py:32-39 | an inserted row appears at the end of every query it passes and changes no other query |
| `RecordStore.SelectByStatus` | db.py:49-74 | the pending and done queries are the all-records query filtered by status, so both are contained in it |
| `RecordStore.Stamp` | db.py:45 | processed_at is set exactly when the status is 'done', and then to the given time |
| `RecordStore.Updated` | db.py:43-45 | an updated row has the new status and stamp and every other column unchanged |
| `RecordStore.ApplyUpdate` | db.py:41-46 | the update keeps the table's length, order and ids, changes the rows with the id and leaves all others as they were |
| `RecordStore.UpdateUnknownId` | db.py:43-44 | an id no row has leaves the table unchanged |
| `RecordStore.UpdateTwice` | db.py:41-46 | repeating an update keeps only the second call's effect, including the later timestamp |
| `RecordStore.IdsUnique` | db.py:10 | ids that increase along the table are unique |
| `RecordStore.RecordTable.constructor` | db.py:27-30 | a fresh table is empty and the first id handed out is 1 |
| `RecordStore.RecordTable.InsertRecord` | db.py:32-39 | appends exactly one row with the given fields, status defaulting to 'pending', NULL processed_at, and an id above every earlier id; the ids stay increasing |
| `RecordStore.RecordTable.UpdateStatus` | db.py:41-46 | the loop over the rows leaves the table equal to `ApplyUpdate` of the old table; no row is removed |
| `RecordStore.RecordTable.GetPendingIds` | db.py:49-56 | exactly the rows of the file with status 'pending' |
| `RecordStore.RecordTable.GetDoneIds` | db.py:58-65 | exactly the rows of the file with status 'done' |
| `RecordStore.RecordTable.GetAllRecords` | db.py:67-74 | exactly the rows of the file, whatever their status |
| `WebAutomation.Clean` | test_web_automation.py:25-26 | a cleaned text holds no whitespace, parenthesis or dash |
| `WebAutomation.CleanIgnoresStrip` | test_web_automation.py:25-26 | stripping before the deletion changes nothing |
| `WebAutomation.CleanSpaced` | test_web_automation.py:25-26 | digit groups separated by single spaces clean to the digits run together |
| `WebAutomation.CleanBracketed` | test_web_automation.py:25-26 | digits with a parenthesised leading group clean to the digits run together |
| `WebAutomation.CleanSpacedExample` | test_web_automation.py:25-29 | "012 345 6789" cleans to "0123456789", which is accepted |
| `WebAutomation.CleanBracketedExample` | test_web_automation.py:25-29 | "(012)3456789" cleans to "0123456789"; "12345" is rejected |
| `WebAutomation.ValidNumbers` | test_web_automation.py:25-29 | only texts whose cleaned form is a '0' followed by nine digits are kept, never more than there were texts |
| `WebAutomation.ValidNumbersMember` | test_web_automation.py:25-29 | a number is kept exactly when it is valid and is the cleaned text of one of the links read |
| `WebAutomation.ValidNumbersAppend` | test_web_automation.py:21-30 | the kept numbers of two runs of links are those of each run in order |
| `WebAutomation.ReadablePrefixSpec` | test_web_automation.py:21-36 | the texts read are those of the leading links, and reading stops at the first link that faults |
| `WebAutomation.ReadablePrefixSplit` | test_web_automation.py:21-36 | reading a run of readable links and then the rest is reading them all |
| `WebAutomation.PhoneNumbers` | test_web_automation.py:6-38 | no table gives no numbers; otherwise the result is the first three (or fewer, if there are fewer) valid numbers of the links read before the first unreadable one, in order |
| `WebAutomation.PhoneNumbersFromLinks` | test_web_automation.py:21-30 | every number returned is the cleaned text of a link read before the first unreadable link |
| `WebAutomation.PhoneNumbersKeeps` | test_web_automation.py:21-30 | a readable link with a valid cleaned text, reached while fewer than three numbers are held, has its number returned |
| `WebAutomation.NumbersSoFar` | test_web_automation.py:21-38 | wherever the scan stops (the end, a fault, or three numbers), it holds the first three valid numbers of the links read, in link order |
| `WebAutomation.ExtractPhoneNumbers` | test_web_automation.py:6-38 | the loop returns `PhoneNumbers` of the table: nothing when the table never appears, otherwise what was collected up to the cap or the first fault |
| `WebAutomation.TestVirtualAgent` | test_web_automation.py:41-101 | reaching the contacts gives status "success" with the extracted numbers and the no-numbers message exactly when there are none; a timeout or other fault keeps status "error", no numbers and the fault's message |
| `ExcelReport.SafeSchemeNumber` | test_excel_writer.py:22 | every space and ':' becomes '_' and every other character is kept |
| `ExcelReport.DefaultFileName` | test_excel_writer.py:20-24 | the default name starts with the safe scheme number and '_' and ends in ".xlsx" |
| `ExcelReport.TitleRow` | test_excel_writer.py:49-62 | a title row holds its text in column A and nothing in B to E |
| `ExcelReport.EntryRowCells` | test_excel_writer.py:80-89 | a dict entry puts the value under ID, Name, Phone1, Phone2, Phone3 in columns A to E, or "" when the key is absent |
| `ExcelReport.NonDictRowEmpty` | test_excel_writer.py:76-79 | an entry that is not a dict leaves its row empty |
| `ExcelReport.Sheet` | test_excel_writer.py:48-93 | every row of the sheet has five cells |
| `ExcelReport.SheetLayout` | test_excel_writer.py:48-89 | row 1 is the date banner, row 2 the scheme number, row 3 the headers, and entry i is on row i + 4 |
| `ExcelReport.ColumnMaxIsMax` | test_excel_writer.py:96-104 | the computed length is that of the longest text in the column: every cell fits and one reaches it |
| `ExcelReport.Width` | test_excel_writer.py:105-106 | the width lies in [10, 20]: 20 exactly when the longest text has 16 or more characters, 10 exactly when it has 6 or fewer, otherwise the length plus 4 |
| `ExcelReport.ColumnWidths` | test_excel_writer.py:95-107 | the nested loops give each of columns A to E the clamped width of its longest text |
| `ExcelReport.BannerWidensColumnA` | test_excel_writer.py:50 | with a date of at least three characters, column A is always 20 wide |
| `ExcelReport.CreateExcelFile` | test_excel_writer.py:11-107 | a non-string scheme number or non-list data fails with its ValueError; otherwise the file name is the given one or the default, the rows are exactly `Sheet` and the widths are those of `ColumnWidths` |
| `ResultsSheet.Blanks` | excel_writer.py:15 | `[""] * n` is n empty cells, none when n is negative |
| `ResultsSheet.ResultRowShape` | excel_writer.py:15 | a row is the id, then the numbers in order; with at most three numbers it is padded with "" to exactly four cells, with more it is id and numbers alone |
| `ResultsSheet.ResultRows` | excel_writer.py:14-16 | one row per result |
| `ResultsSheet.WriteResults` | excel_writer.py:13-16 | the header row first, then exactly one row per result in order: 1 + len(results) rows |
| `ResultsSheet.ResultRowAt` | excel_writer.py:14-16 | row i + 2 of the sheet belongs to result i and starts with its id |
| `Gui.Dots` | gui.py:248 | `"." * n` is n dots |
| `Gui.PdfFiles` | gui.py:45 | a path is passed on exactly when it was dropped and its lower-cased text ends in ".pdf" |
| `Gui.PdfFilesAppend` | gui.py:45 | the filter keeps the order of the dropped paths |
| `Gui.PdfFilesAllPdf` | gui.py:45 | a drop of PDF files only is passed on whole |
| `Gui.PdfExtensionAnyCase` | gui.py:45 | ".pdf", ".PDF" and ".Pdf" are all accepted |
| `Gui.CountMessage` | gui.py:268-273 | the "N file(s) dropped/selected." message neither is "Idle" nor contains "Processing", so it starts no animation |
| `Gui.NoFilesSelectedQuiet` | gui.py:297-298 | the empty-selection error starts no animation |
| `Gui.OnlyPdfAcceptedQuiet` | gui.py:49 | the no-PDF error starts no animation |
| `Gui.ProcessingMessage` | gui.py:301 | the "Processing N file(s) ..." message starts the dot animation |
| `Gui.ProcessPage.constructor` | gui.py:127-231 | a new page has nothing selected, the status "Idle" and the idle animation running with the colour index advanced to 1 |
| `Gui.ProcessPage.StartIdleAnimation` | gui.py:233-241 | unless processing, shows the current idle colour and advances the index modulo 2; the counters stay in range |
| `Gui.ProcessPage.StartProcessingAnimation` | gui.py:243-251 | shows "Processing" with 1 to 3 dots and advances the dot counter modulo 3 |
| `Gui.ProcessPage.StopAnimation` | gui.py:253-258 | cancels the pending step and resets both counters to 0 |
| `Gui.ProcessPage.UpdateStatusLabel` | gui.py:285-294 | "Idle" clears the processing flag and restarts the idle cycle; a message containing "Processing" sets the flag and shows "Processing."; any other message is shown as given with its colour and the animation stopped |
| `Gui.ProcessPage.HandleDroppedFiles` | gui.py:270-273 | the dropped files become the selection and their count is shown in the normal colour; the animation stops with both counters reset and the processing flag kept |
| `Gui.ProcessPage.BrowseFiles` | gui.py:260-268 | an empty dialog answer changes no field of the page; otherwise the chosen files become the selection and their count is shown in the normal colour, the animation stops with both counters reset and the processing flag is kept |
| `Gui.ProcessPage.StartProcessing` | gui.py:296-305 | the selection and file summary stay; with no selection the error is shown in red, nothing animates and the processing flag is kept; otherwise processing starts with "Processing." and the dot counter at 1 |
| `Gui.ProcessPage.OnProcessingComplete` | gui.py:307-308 | the completion message leaves the page processing, with "Processing." shown in its place |
| `Gui.MainContent.constructor` | gui.py:100-111 | the Process page is shown first, alone |
| `Gui.MainContent.ShowPage` | gui.py:113-119 | a known page becomes the only one shown; an unknown name changes nothing |
| `Gui.AegisApp.HandleDrop` | gui.py:42-49 | the PDF files among the dropped paths go to the Process page in order; when there are none the red error is shown and the selection is kept |
| `Gui.MenuValues` | gui.py:496 | the menu offers "Create New Agent" first, then every agent name |
| `Gui.IndexOf` | gui.py:452 | `list.index` gives the first position holding the name |
| `Gui.UniqueAfterAppend` | gui.py:489-495 | appending an agent whose name is new keeps names unique |
| `Gui.UniqueAfterReplace` | gui.py:524-531 | replacing an agent by one whose name no other agent has keeps names unique |
| `Gui.CredentialsPage.constructor` | gui.py:316-318 | no agents, no selection, not editing, every input disabled |
| `Gui.CredentialsPage.OnAgentSelect` | gui.py:437-467 | "Create New Agent" selects no agent and enables the entries; another name selects the first agent of that name and makes the entries read-only; entry texts change only if the entries were enabled |
| `Gui.CredentialsPage.EnableEditMode` | gui.py:469-475 | editing starts and the entries and the save button are enabled; nothing else changes |
| `Gui.CredentialsPage.CreateAgent` | gui.py:477-506 | an empty stripped field or an existing name is refused with its message and no field of the page changes; the entry texts and the checkbox are never changed; otherwise exactly one agent with the stripped fields is appended and selected, and names stay unique |
| `Gui.CredentialsPage.SaveChanges` | gui.py:508-546 | outside edit mode no field of the page changes; with no selection, an empty field or a name another agent has, the matching message is given and no field changes; the entry texts and the checkbox are never changed; otherwise only the selected agent is replaced and edit mode ends |
| `Gui.CredentialsPage.FillIn` | gui.py:344-387 | stands for the user typing into the entries and ticking the box, which the code does not do itself: input reaches them only while they are enabled |
| `DropParsing.TrimFront` | test_dnd.py:32 | what is left of a piece after `strip('{}')` at the front does not start with a brace |
| `DropParsing.TrimBack` | test_dnd.py:32 | trimming at the back keeps a prefix that does not end with a brace |
| `DropParsing.StripBraces` | test_dnd.py:32 | a stripped piece neither starts nor ends with a brace |
| `DropParsing.StripWrapped` | test_dnd.py:32 | a brace-free path wrapped in any braces comes back unchanged |
| `DropParsing.ParseDrop` | test_dnd.py:28-34 | the result always has at least one path |
| `DropParsing.ParseDropStrips` | test_dnd.py:28 | surrounding whitespace of the drop string makes no difference |
| `DropParsing.ParseDropPlain` | test_dnd.py:28-34 | a drop string that, once stripped, is not wrapped in braces gives the single stripped string, `[""]` for a blank drop |
| `DropParsing.ParseDropBracedClean` | test_dnd.py:30-32 | in the braced form no result starts or ends with a brace |
| `DropParsing.BracedJoin` | test_dnd.py:30-32 | the braced drop string is its braced pieces joined by "} {" |
| `DropParsing.BracedSplit` | test_dnd.py:32 | splitting that string on "} {" gives back exactly the pieces |
| `DropParsing.ParseDropBraced` | test_dnd.py:28-34 | brace-free paths dropped in the braced form parse back to exactly those paths, in order |
| `DropParsing.DropLabelSingle` | test_dnd.py:40 | a single file is labelled "Dropped:" and its base name, which has no '/' |
| `DropParsing.DropLabelCons` | test_dnd.py:40 | the label lists the base names in the order of the paths, joined by ", " |
| `DropParsing.DropLabelNames` | test_dnd.py:40 | below "Dropped:", splitting the label on ", " gives back the base names in order, when only the last may hold a comma and it has no ", " |

## Left out

- Opening the PDF and reading its text blocks with PyMuPDF: a document is given as its pages of block strings. The debug printing of the first five blocks is also left out.
- `\d` in the pattern matches Unicode decimal digits in Python; the model accepts only '0'–'9'.
- `str.lower` is modelled on A–Z only. No other character lowers to a string that makes the ".pdf" and "lightstone" comparisons succeed, so the two decisions made with it do not change.
- The exception classes of `extract_data` are modelled as error values. A fault while reading is an input: the document may be missing or unreadable.
- SQLite itself, the schema text, connections and commits. The table is a value in memory, and `datetime.now().isoformat()` is a parameter of `UpdateStatus`.
- The rows the queries return are the row records themselves, not dictionaries built from column names.
- All Playwright navigation, login, waits and screenshots. A session is given as the step that failed or the contact table reached, and a link whose text cannot be read is `None`.
- Values in a report entry that are not strings (`str(value)` of a number) are not modelled: an entry maps keys to strings.
- openpyxl fonts, fills, borders, merges, row heights, creating the output directory and saving. `datetime.now()` is given as the two strings it is formatted into.
- Widget construction, layout, colours other than the status line's, file dialogs and the `after` timers of `gui.py`. A pending timer is the flag `animating`, and its callback is a call of the same method.
- `handle_drop`'s `tk.splitlist` and its exception branch ("Error processing dropped files."): the dropped paths are an input.
- `update_status_label`'s test `if self.status_label`: the label always exists once the page is built.
- `RecordStore.RecordTable.InsertRecord` returns the id it assigned, which `insert_record` does not return; callers that ignore it see the same behaviour.
- The status messages `CredentialsPage` forwards to the Process page: `CreateAgent` and `SaveChanges` return the message instead.
- The statistics page (hard-coded figures) and the sidebar's buttons.
- `os.path.basename` on Windows paths: the base name is taken after the last '/' only.
- The messagebox of `on_drop` and the Tk drop registration.
- `Gui.CredentialsPage.OnAgentSelect` requires that the chosen name is in the menu; the widget only offers those.
- `virtual_agent_scraper.py` and `debug_pdf_parser.py` are not part of this model.
