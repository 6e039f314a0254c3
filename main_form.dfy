/**
 * The state of the OMDBfetch main window that its logic works on (OMDBfetch/MainForm.cs):
 * the result table, the lines of the result list, the two counters, the settings record
 * and the check marks of the Options menu, with the handlers that change them.
 */
module Form {
  import opened Wrappers
  import opened SettingsData
  import opened Listing
  import opened Int32Text
  import opened Paging

  /** The three check items of the Options menu. */
  datatype OptionItem = AlwaysOnTopItem | HideIdsItem | FullPlotItem

  /** How a click on Fetch ended. */
  datatype SearchOutcome =
    | Rejected(reason: Rejection)   // a message box, nothing cleared
    | Completed(pages: nat)         // the page loop ran to its end
    | Failed(pages: nat)            // page pages+1 threw; the exception was logged

  /**
   * The rows imported into the view's table: in table order, or from the last row to the
   * first when DESC is set.
   */
  method CopyRows(rows: seq<Row>, desc: bool) returns (copied: seq<Row>)
    ensures copied == if desc then Reversed(rows) else rows
  {
    copied := [];
    if desc {
      var i := |rows| - 1;
      while i >= 0
        invariant -1 <= i < |rows|
        invariant |copied| == |rows| - 1 - i
        invariant forall k :: 0 <= k < |copied| ==> copied[k] == rows[|rows| - 1 - k]
      {
        copied := copied + [rows[i]];
        i := i - 1;
      }
    } else {
      for i := 0 to |rows|
        invariant copied == rows[..i]
      {
        copied := copied + [rows[i]];
      }
      assert rows[..|rows|] == rows;
    }
  }

  /** The settings after a click on `item`: that one flag flipped. */
  function Toggled(s: Settings, item: OptionItem): (t: Settings)
    ensures t.alwaysOnTop != s.alwaysOnTop <==> item == AlwaysOnTopItem
    ensures t.hideIdsInList != s.hideIdsInList <==> item == HideIdsItem
    ensures t.fullPlot != s.fullPlot <==> item == FullPlotItem
    ensures t.(alwaysOnTop := s.alwaysOnTop, hideIdsInList := s.hideIdsInList, fullPlot := s.fullPlot) == s
  {
    match item
    case AlwaysOnTopItem => s.(alwaysOnTop := !s.alwaysOnTop)
    case HideIdsItem => s.(hideIdsInList := !s.hideIdsInList)
    case FullPlotItem => s.(fullPlot := !s.fullPlot)
  }

  /** Clicking the same item twice restores the settings. */
  lemma ToggleTwice(s: Settings, item: OptionItem)
    ensures Toggled(Toggled(s, item), item) == s
  {
  }

  /**
   * The page count after the search-pages editor returns `input`: unchanged for an empty
   * or unparsable entry; otherwise the parsed value, with 0 read as 1 and anything above
   * 100 as 100 (negative values are kept).
   */
  function SearchPagesAfterEdit(current: int, input: string): (pages: int)
    ensures input == "" || TryParse(input).None? ==> pages == current
    ensures TryParse(input) == Some(0) ==> pages == 1
    ensures TryParse(input).Some? && TryParse(input).value > 100 ==> pages == 100
    ensures TryParse(input).Some? && TryParse(input).value != 0 && TryParse(input).value <= 100
            ==> pages == TryParse(input).value
    ensures pages == current || (Int32Min <= pages <= 100 && pages != 0)
  {
    if |input| == 0 then current
    else
      match TryParse(input)
      case None => current
      case Some(p) => if p == 0 then 1 else if p > 100 then 100 else p
  }

  /**
   * Confirming the editor with the value it was opened with (the current count) keeps the
   * count exactly when it is not 0 and not above 100.
   */
  lemma ConfirmShownPages(current: int)
    requires Int32Min <= current <= Int32Max
    ensures SearchPagesAfterEdit(current, IntToString(current)) == current <==> current != 0 && current <= 100
  {
    ParseToString(current);
  }

  /** A fresh settings record renders in insertion order, without IDs. */
  lemma DefaultsRenderInsertionOrder(rows: seq<Row>, searchPages: int, fullPlot: bool,
                                     le: (string, string) -> bool)
    ensures var d := Defaults(searchPages, fullPlot);
      var lines := RenderLines(rows, d.sortRadioButton, d.desc, d.hideIdsInList, le);
      && |lines| == |rows|
      && forall i :: 0 <= i < |rows| ==> lines[i] == rows[i].title + " " + rows[i].description
  {
    var d := Defaults(searchPages, fullPlot);
    RenderUnsorted(rows, d.sortRadioButton, d.desc, d.hideIdsInList, le);
  }

  /** With a fresh settings record every search is refused, by the API-key check at the latest. */
  lemma DefaultsRejectSearch(term: string, directoryExists: bool, searchPages: int, fullPlot: bool)
    ensures var r := Validate(term, directoryExists, Defaults(searchPages, fullPlot).apiKey);
      && r.Some?
      && (term != "" && directoryExists ==> r == Some(MissingApiKey))
  {
  }

  class MainForm {
    /** The result table, rows in the order they were fetched. */
    var dataTable: seq<Row>
    /** The lines of the result list box. */
    var listItems: seq<string>
    var fetchedCount: int
    var localApiCalls: int
    var settingsData: Settings
    /** The check marks of the Options menu items. */
    var alwaysOnTopChecked: bool
    var hideIdsChecked: bool
    var fullPlotChecked: bool
    /** The string comparison the sorted view uses. */
    const compare: (string, string) -> bool

    /** The comparison is a total preorder, and the menu check marks mirror the settings. */
    ghost predicate Valid()
      reads this
    {
      && TotalPreorder(compare)
      && alwaysOnTopChecked == settingsData.alwaysOnTop
      && hideIdsChecked == settingsData.hideIdsInList
      && fullPlotChecked == settingsData.fullPlot
    }

    /** The list the table renders to under the current settings. */
    ghost function Rendered(): seq<string>
      reads this
    {
      RenderLines(dataTable, settingsData.sortRadioButton, settingsData.desc, settingsData.hideIdsInList, compare)
    }

    /** The form as constructed and loaded with the settings read from disk. */
    constructor (loaded: Settings, compare: (string, string) -> bool)
      requires TotalPreorder(compare)
      ensures Valid()
      ensures settingsData == loaded && dataTable == [] && listItems == []
      ensures fetchedCount == 0 && localApiCalls == 0
    {
      this.compare := compare;
      dataTable := [];
      listItems := [];
      fetchedCount := 0;
      localApiCalls := 0;
      settingsData := loaded;
      alwaysOnTopChecked := loaded.alwaysOnTop;
      hideIdsChecked := loaded.hideIdsInList;
      fullPlotChecked := loaded.fullPlot;
    }

    /**
     * Refill the list from the table: nothing at all for an empty table, otherwise one
     * line per row in the order of the sorted view.
     */
    method Render()
      modifies this`listItems
      ensures listItems == if dataTable == [] then old(listItems) else Rendered()
    {
      if |dataTable| == 0 {
        return;
      }
      listItems := [];
      var desc := settingsData.desc;
      var hideIds := settingsData.hideIdsInList;
      var copied := CopyRows(dataTable, desc);
      var view := match SortColumn(settingsData.sortRadioButton)
        case None => copied
        case Some(col) => SortOn(copied, col, desc, compare);
      assert view == Arrange(dataTable, settingsData.sortRadioButton, desc, compare);
      for i := 0 to |view|
        invariant |listItems| == i
        invariant forall k :: 0 <= k < i ==> listItems[k] == Line(view[k], hideIds)
      {
        listItems := listItems + [Line(view[i], hideIds)];
      }
      assert listItems == Lines(view, hideIds);
    }

    method UpdateApiCalls()
      modifies this`localApiCalls
      ensures localApiCalls == old(localApiCalls) + 1
    {
      localApiCalls := localApiCalls + 1;
    }

    /**
     * A click on Fetch. The term, whether the directory exists and the API client's answers
     * are inputs.
     */
    method Search(term: string, directoryExists: bool, fetch: Fetch) returns (outcome: SearchOutcome)
      requires Valid()
      modifies this`dataTable, this`listItems, this`localApiCalls, this`fetchedCount
      ensures Valid()
      ensures Validate(term, directoryExists, settingsData.apiKey).Some? ==>
        && outcome == Rejected(Validate(term, directoryExists, settingsData.apiKey).value)
        && dataTable == old(dataTable) && listItems == old(listItems)
        && fetchedCount == old(fetchedCount) && localApiCalls == old(localApiCalls)
      ensures Validate(term, directoryExists, settingsData.apiKey).None? ==>
        var run := PageRun(term, fetch, settingsData.searchPages, 0);
        && outcome == (if run.failed then Failed(run.pages) else Completed(run.pages))
        && dataTable == PagesRows(term, fetch, run.pages)
        && localApiCalls == old(localApiCalls) + run.pages
        && fetchedCount == old(fetchedCount) + (if run.failed then 0 else 1)
        && listItems == (if dataTable == [] then [] else Rendered())
    {
      var rejection := Validate(term, directoryExists, settingsData.apiKey);
      if rejection.Some? {
        return Rejected(rejection.value);
      }
      listItems := [];
      dataTable := [];
      var pages, failed := FetchPages(term, fetch);
      assert PageRun(term, fetch, settingsData.searchPages, 0) == RunEnd(pages, failed);
      if failed {
        return Failed(pages);
      }
      fetchedCount := fetchedCount + 1;
      outcome := Completed(pages);
    }

    /**
     * The page loop, started on an empty table and list: pages 1, 2, ... are appended and
     * rendered one after the other until a short page, the page limit or a failure.
     */
    method FetchPages(term: string, fetch: Fetch) returns (pages: nat, failed: bool)
      requires dataTable == [] && listItems == []
      modifies this`dataTable, this`listItems, this`localApiCalls
      ensures RunEnd(pages, failed) == PageRun(term, fetch, settingsData.searchPages, 0)
      ensures dataTable == PagesRows(term, fetch, pages)
      ensures localApiCalls == old(localApiCalls) + pages
      ensures listItems == if dataTable == [] then [] else Rendered()
    {
      var limit := settingsData.searchPages;
      var i := 0;
      while i < limit
        invariant 0 <= i && (i == 0 || i <= limit)
        invariant FullPages(term, fetch, i)
        invariant dataTable == PagesRows(term, fetch, i)
        invariant localApiCalls == old(localApiCalls) + i
        invariant listItems == if dataTable == [] then [] else Rendered()
      {
        var page := fetch(term, i + 1);
        if page.None? {
          PageRunSkipsFull(term, fetch, limit, i);
          return i, true;
        }
        var results := page.value;
        AddPage(results);
        i := i + 1;
        if |results| < PageSize {
          PageRunSkipsFull(term, fetch, limit, i - 1);
          return i, false;
        }
      }
      if i == 0 {
        assert PageRun(term, fetch, limit, 0) == RunEnd(0, false);
      } else {
        PageRunSkipsFull(term, fetch, limit, i);
      }
      return i, false;
    }

    /** One answered page: its rows appended, the list re-rendered, the call counted. */
    method AddPage(results: seq<SearchResult>)
      requires listItems == if dataTable == [] then [] else Rendered()
      modifies this`dataTable, this`listItems, this`localApiCalls
      ensures dataTable == old(dataTable) + PageRows(results)
      ensures localApiCalls == old(localApiCalls) + 1
      ensures listItems == if dataTable == [] then [] else Rendered()
    {
      dataTable := dataTable + PageRows(results);
      Render();
      UpdateApiCalls();
    }

    /** A click on a sort radio button: remember its name and re-render. */
    method ChooseSort(name: string)
      requires Valid()
      modifies this`settingsData, this`listItems
      ensures Valid()
      ensures settingsData == old(settingsData).(sortRadioButton := name)
      ensures listItems == if dataTable == [] then old(listItems) else Rendered()
    {
      settingsData := settingsData.(sortRadioButton := name);
      Render();
    }

    /** A change of the DESC check box: remember it and re-render. */
    method SetDesc(checked: bool)
      requires Valid()
      modifies this`settingsData, this`listItems
      ensures Valid()
      ensures settingsData == old(settingsData).(desc := checked)
      ensures listItems == if dataTable == [] then old(listItems) else Rendered()
    {
      settingsData := settingsData.(desc := checked);
      Render();
    }

    /**
     * A click on an Options item: flip its check mark, copy all three marks into the
     * settings, and re-render only for the hide-IDs item.
     */
    method ToggleOption(item: OptionItem)
      requires Valid()
      modifies this`alwaysOnTopChecked, this`hideIdsChecked, this`fullPlotChecked
      modifies this`settingsData, this`listItems
      ensures Valid()
      ensures settingsData == Toggled(old(settingsData), item)
      ensures listItems == if item == HideIdsItem && dataTable != [] then Rendered() else old(listItems)
    {
      match item {
        case AlwaysOnTopItem => alwaysOnTopChecked := !alwaysOnTopChecked;
        case HideIdsItem => hideIdsChecked := !hideIdsChecked;
        case FullPlotItem => fullPlotChecked := !fullPlotChecked;
      }
      settingsData := settingsData.(alwaysOnTop := alwaysOnTopChecked);
      settingsData := settingsData.(hideIdsInList := hideIdsChecked);
      settingsData := settingsData.(fullPlot := fullPlotChecked);
      if item == HideIdsItem {
        Render();
      }
    }

    /** The search-pages editor returned `input` ("" when cancelled). */
    method EditSearchPages(input: string)
      requires Valid()
      modifies this`settingsData
      ensures Valid()
      ensures settingsData == old(settingsData).(searchPages := SearchPagesAfterEdit(old(settingsData.searchPages), input))
    {
      if |input| == 0 {
        return;
      }
      var parsed := TryParse(input);
      if parsed.Some? {
        var pages := parsed.value;
        if pages == 0 {
          pages := 1;
        } else if pages > 100 {
          pages := 100;
        }
        settingsData := settingsData.(searchPages := pages);
      }
    }

    /** The API-key editor returned `input` ("" when cancelled): any non-empty key is kept. */
    method EditApiKey(input: string)
      requires Valid()
      modifies this`settingsData
      ensures Valid()
      ensures settingsData == if input == "" then old(settingsData) else old(settingsData).(apiKey := input)
    {
      if |input| == 0 {
        return;
      }
      settingsData := settingsData.(apiKey := input);
    }

    /** File/New: empty the list and the fetched count; the table itself is kept. */
    method New()
      modifies this`listItems, this`fetchedCount
      ensures listItems == [] && fetchedCount == 0
    {
      listItems := [];
      fetchedCount := 0;
    }
  }

  /**
   * Because New keeps the table, choosing a sort order afterwards brings the previous
   * search's rows back into the emptied list.
   */
  method NewThenChooseSort(form: MainForm, name: string)
    requires form.Valid() && form.dataTable != []
    modifies form
    ensures form.listItems != [] && |form.listItems| == |old(form.dataTable)|
  {
    form.New();
    form.ChooseSort(name);
    RenderOneLinePerRow(form.dataTable, name, form.settingsData.desc, form.settingsData.hideIdsInList, form.compare);
  }
}
