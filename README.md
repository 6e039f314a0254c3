# OMDBfetch result list, modelled in Dafny

OMDBfetch is a Windows Forms program that searches omdbapi.com for a term. It collects
the search results page by page into a table of (ID, Title, Description, Image) rows and
shows them in a list box. The list can be sorted by a column, reversed ("DESC") and shown
with or without IDs. A selected line is traced back to its row for the detail view.

This project models that logic from `OMDBfetch/MainForm.cs` and `OMDBfetch/SettingsData.cs`:

- `Form.MainForm` is a class holding the result table, the list lines, the fetched and
  API-call counters, the settings record and the Options menu check marks. Its methods are
  the event handlers that change them.
- `Listing` holds the line format, the sort and what a render of the table produces.
- `Paging` holds the search: the three checks before anything is cleared, the rows a
  result page contributes, and which pages the page loop requests.
- `Selection` holds the recovery of ID and title from a list line.
- `FileNames` holds the removal of forbidden characters from a file name.
- `Int32Text` holds the integer text that the search-pages editor shows and reads back.
- `SettingsData` holds the settings record and its defaults.

The outside world enters as parameters:

- The API client is a function from (term, page number) to a result page, or to `None`
  where the request throws.
- `Directory.Exists` is a boolean.
- The DataView's string comparison is a relation required to be a total preorder.
- The invalid file-name and path characters are sequences.

`SettingsData.cs` declares no `SearchPages` and no `FullPlot` property. `MainForm.cs` still
reads and writes both: `SearchPages` at lines 337, 683 and 708, `FullPlot` at lines 743 and
960. The model gives the settings record both fields. `SettingsData.Defaults` takes their
initial values as parameters and does not invent any. `SettingsData.cs` instead declares a
`SearchResults` property, default 10, that `MainForm.cs` never uses.

## Model

| member | source | states |
|---|---|---|
| Listing.SortColumn | OMDBfetch/MainForm.cs:236-256 | idRadioButton selects exactly the ID column, titleRadioButton exactly Title, descriptionRadioButton exactly Description; "rawRadioButton" and any other name select no sort |
| Listing.SortOn | OMDBfetch/MainForm.cs:233-258 | the sorted view holds exactly the rows it was given (a permutation) |
| Listing.SortOnSorted | OMDBfetch/MainForm.cs:239-258 | under a total preorder the sorted view is ordered on the chosen column: non-decreasing, or non-increasing under DESC |
| Listing.Arrange | OMDBfetch/MainForm.cs:208-258 | the view, reversed under DESC and then sorted when a column is chosen, is a permutation of the table |
| Listing.Line | OMDBfetch/MainForm.cs:264 | a shown line starts with the ID and a space, every line ends with the description, and its length is that of "{ID} {Title} {Description}", without "{ID} " when IDs are hidden |
| Listing.RenderLines | OMDBfetch/MainForm.cs:258-265 | the list built from the view has exactly one line per table row |
| Listing.RenderOneLinePerRow | OMDBfetch/MainForm.cs:261-265 | a render of a table gives one line per row, and its lines are a permutation of the rows' own lines |
| Listing.RenderUnsorted | OMDBfetch/MainForm.cs:214-228 | without a column sort, line i is the line of row i, or of row n-1-i under DESC |
| Listing.RenderSorted | OMDBfetch/MainForm.cs:236-258 | with a column sort, the view is a permutation of the table and every earlier row's key is at most (under DESC at least) every later row's key |
| Listing.InsertSorted | OMDBfetch/MainForm.cs:239-258 | inserting a row into an ordered view keeps it ordered |
| Listing.LinesOfPermutation | OMDBfetch/MainForm.cs:261-265 | line lists of rows that are permutations of each other are permutations of each other |
| Selection.SplitAtFirstSpace | OMDBfetch/MainForm.cs:580 | Split(' ', 2) gives one part (the whole string) exactly when there is no space, and otherwise a space-free head and a rest that the first space joins back to the string |
| Selection.FirstMatch | OMDBfetch/MainForm.cs:569-574 | the index of the first row whose "Title Description" equals the line, or None when no row does |
| Selection.SelectedIdAndTitle | OMDBfetch/MainForm.cs:558-587 | IDs hidden: defined exactly when some row's "Title Description" is the line; gives the first such row's ID and the line as title. IDs shown: defined exactly when the line has a space; gives the text before the first space and the rest |
| Selection.SpaceCutUnique | OMDBfetch/MainForm.cs:580-583 | a space-free head followed by a space determines both halves of a string |
| Selection.ShownLineRoundTrip | OMDBfetch/MainForm.cs:264 | with IDs shown, selecting the line of a row with a space-free ID gives back that ID and "title description" |
| Selection.HiddenRenderedLineSelectsRow | OMDBfetch/MainForm.cs:566-575 | with IDs hidden, every rendered line selects the ID of a table row whose line it is |
| Selection.ShownRenderedLineSelectsRow | OMDBfetch/MainForm.cs:579-583 | with IDs shown and space-free IDs, every rendered line selects the ID and "title description" of a table row |
| FileNames.Without | OMDBfetch/MainForm.cs:937 | the result is no longer than the input and every character in it comes from the input and is not forbidden |
| FileNames.WithoutConcat | OMDBfetch/MainForm.cs:935-938 | removal works per character: it distributes over concatenation, so the remaining characters keep their order |
| FileNames.WithoutTwice | OMDBfetch/MainForm.cs:935-938 | removing one set of characters and then another equals removing their union once |
| FileNames.WithoutIdempotent | OMDBfetch/MainForm.cs:927-942 | cleaning a cleaned name changes nothing |
| FileNames.WithoutClean | OMDBfetch/MainForm.cs:927-942 | a name without forbidden characters is returned unchanged |
| FileNames.WithoutKeepsAllowed | OMDBfetch/MainForm.cs:927-942 | every allowed character occurs in the result as often as in the input |
| FileNames.RemoveNext | OMDBfetch/MainForm.cs:935-938 | one more pass of the loop removes the next listed character on top of the earlier ones |
| FileNames.GetValidFilePathName | OMDBfetch/MainForm.cs:927-942 | the loop's result is the raw name with every invalid file-name and path character removed |
| Int32Text.TryParse | OMDBfetch/MainForm.cs:695 | a parsed value lies in the 32-bit range and the text held a digit |
| Int32Text.ParseCore | OMDBfetch/MainForm.cs:695 | the sign-and-digits part of the parse gives a 32-bit value, and only for an optional sign followed by one or more digits and nothing else |
| Int32Text.TryParseSigned | OMDBfetch/MainForm.cs:695 | white space, an optional "+" or "-", digits and white space parse to the signed value of the digits when it fits in 32 bits, and to None when it does not |
| Int32Text.TrimSplit | OMDBfetch/MainForm.cs:695 | trimming cuts a text into leading white space, the trimmed text and trailing white space |
| Int32Text.TryParseShape | OMDBfetch/MainForm.cs:695 | a text that parses is white space, an optional sign, one or more digits, then white space (the converse of TryParseSigned) |
| Int32Text.TryParseRejectsOthers | OMDBfetch/MainForm.cs:695 | text holding any character that is not white space, a digit or a sign does not parse |
| Int32Text.IntToString | OMDBfetch/MainForm.cs:683 | ToString gives a non-empty text that starts with "-" exactly for negative values and is all digits after that |
| Int32Text.NatDigits | OMDBfetch/MainForm.cs:683 | the decimal digits of n, without leading zeros, denote n |
| Int32Text.ParseToString | OMDBfetch/MainForm.cs:683-695 | parsing the text that ToString writes for a 32-bit value gives that value back |
| Paging.ResultRow | OMDBfetch/MainForm.cs:348-355 | a result's row carries its IMDb ID and poster, and lists (IDs hidden) as "Title Year (Type)" |
| Paging.PageRows | OMDBfetch/MainForm.cs:346-359 | a page gives one row per result, in order: (ImdbId, Title, "Year (Type)", Poster) |
| Paging.PageRunSkipsFull | OMDBfetch/MainForm.cs:337-376 | after k full pages within the limit, the loop continues as a run from page 1 would |
| Paging.PageRun | OMDBfetch/MainForm.cs:337-376 | the page loop after `done` pages: how many pages it ends with and whether it ends on a thrown request; its properties are stated by PageRunRequests |
| Paging.PageRunRequests | OMDBfetch/MainForm.cs:337-376 | from page done+1 the loop asks for consecutive pages, never past the limit; every page before the last is full, and so is the last when the next one throws; it ends at the limit, after the first short page, or before the first page that throws |
| Paging.SearchPagesRequested | OMDBfetch/MainForm.cs:337-376 | a search requests pages 1..k with k at most SearchPages (none when SearchPages is not positive), all answered, every one but the last full (the last too when page k+1 throws), stopping at the limit, after a short page or when page k+1 throws |
| Paging.Validate | OMDBfetch/MainForm.cs:279-304 | a search passes exactly when the term is non-empty, the directory exists and the API key is non-empty; an empty term is reported whenever it occurs, a missing directory exactly when the term is non-empty, and a missing key only when both earlier checks pass |
| Form.CopyRows | OMDBfetch/MainForm.cs:214-228 | the copy loops give the rows in order, or reversed under DESC |
| Form.Toggled | OMDBfetch/MainForm.cs:729-743 | a click on an Options item flips exactly that item's flag in the settings and leaves every other field as it was |
| Form.ToggleTwice | OMDBfetch/MainForm.cs:723-743 | clicking the same Options item twice restores the settings |
| Form.SearchPagesAfterEdit | OMDBfetch/MainForm.cs:680-716 | an empty or unparsable entry keeps the count; 0 becomes 1, above 100 becomes 100, and any other value, negatives included, is stored as parsed |
| Form.ConfirmShownPages | OMDBfetch/MainForm.cs:683-708 | confirming the editor's pre-filled text keeps the count exactly when the count is neither 0 nor above 100 |
| Form.DefaultsRenderInsertionOrder | OMDBfetch/SettingsData.cs:54-78 | with default settings the list is the rows in insertion order, each as "Title Description" without the ID |
| Form.DefaultsRejectSearch | OMDBfetch/SettingsData.cs:66 | with default settings every search is rejected, by the API-key check when term and directory pass |
| SettingsData.Defaults | OMDBfetch/SettingsData.cs:30-78 | a fresh record: AlwaysOnTop false, Directory empty, Location and Size (0,0), SortRadioButton "rawRadioButton", Desc false, ApiKey empty, SearchResults 10, HideIdsInList true; SearchPages and FullPlot as supplied |
| Form.MainForm.constructor | OMDBfetch/MainForm.cs:92-187 | the form starts with an empty table and list, zero counters, the loaded settings, and menu check marks equal to them (those marks are set from the settings by the form's Load handler, lines 958-960) |
| Form.MainForm.Render | OMDBfetch/MainForm.cs:192-269 | an empty table leaves the list as it was; otherwise the list becomes the render of the table under the current settings |
| Form.MainForm.UpdateApiCalls | OMDBfetch/MainForm.cs:592-599 | the local API-call count goes up by one |
| Form.MainForm.Search | OMDBfetch/MainForm.cs:276-395 | a rejected search changes nothing. Otherwise the table is the rows of the pages the run requested, the API-call count rises by the number of answered pages, the fetched count rises by one unless a page threw, and the list shows the render of the table |
| Form.MainForm.FetchPages | OMDBfetch/MainForm.cs:333-376 | the page loop ends where the page run says, with the table equal to the answered pages' rows, one API call counted per answered page, and the list rendered from the table |
| Form.MainForm.AddPage | OMDBfetch/MainForm.cs:346-368 | an answered page's rows are appended, the list is re-rendered and one API call is counted |
| Form.MainForm.ChooseSort | OMDBfetch/MainForm.cs:621-628 | only the sort choice changes in the settings, and the list is re-rendered |
| Form.MainForm.SetDesc | OMDBfetch/MainForm.cs:635-642 | only Desc changes in the settings, and the list is re-rendered |
| Form.MainForm.ToggleOption | OMDBfetch/MainForm.cs:723-751 | exactly the clicked flag flips in the settings and the check marks; the list is re-rendered only for Hide IDs |
| Form.MainForm.EditSearchPages | OMDBfetch/MainForm.cs:680-716 | only SearchPages changes, to the edited value described by SearchPagesAfterEdit |
| Form.MainForm.EditApiKey | OMDBfetch/MainForm.cs:649-673 | an empty entry keeps the settings; any other entry becomes the API key and nothing else changes |
| Form.MainForm.New | OMDBfetch/MainForm.cs:758-774 | the list and the fetched count are emptied; the table is not touched |
| Form.NewThenChooseSort | OMDBfetch/MainForm.cs:758-774 | because New keeps the table, a later sort choice refills the list with one line per old row |

## Left out

- Network: the search client, the detail lookup, and the image download with its extra
  API-call count at `OMDBfetch/MainForm.cs:548`. The search client is a parameter. The
  detail view (`OMDBfetch/MainForm.cs:402-552`) and its reflection-based rendering are not
  part of this model.
- File I/O: loading and saving the settings as XML, the first-run bootstrap built on
  `File.Exists`, and appending to the error log. The constructor takes the loaded settings
  as a parameter. A search whose page throws ends as `Failed` with nothing logged.
- Window effects: TopMost, focus, enabling and disabling controls, status-label texts,
  message boxes, drag and drop, links, the About box, and `MainForm.Designer.cs`.
- async/await: the model runs every handler to completion, one at a time. So it does not
  capture editing SearchPages while a search is in progress.
- The search client is created once, with the API key set at the first search. Later key
  edits do not reach it. The model's search function takes no key.
- `Listing.RenderSorted`: the order of rows with equal keys is not stated. The DataView's
  culture-aware, case-insensitive comparison is left abstract as a total preorder.
- `Form.MainForm.UpdateApiCalls`: does not model 32-bit wrap-around of the counters,
  because reaching 2^31 calls is out of reach in practice. The same goes for
  `Form.MainForm.Search` and `fetchedCount`.
- `Int32Text.TryParse`: does not accept trailing NUL characters or culture-specific sign
  symbols.
- The radio buttons' CheckedChanged events also fire for the button being unchecked. The
  model treats one sort choice as one `ChooseSort`, which renders with the final choice.
- The DESC check box is modelled by `settings.desc`: the constructor sets the box from the
  setting and the handler copies the box back, so both always agree.
- The platform's lists of invalid file-name and path characters are parameters of
  `FileNames.GetValidFilePathName`.
