/**
 * The persisted user settings of OMDBfetch (OMDBfetch/SettingsData.cs), plus the two
 * properties that the form reads and writes but that the record as shown does not declare.
 */
module SettingsData {

  datatype Point = Point(x: int, y: int)

  datatype Size = Size(width: int, height: int)

  /** One settings record. Every field the form reads or writes is here. */
  datatype Settings = Settings(
    alwaysOnTop: bool,
    directory: string,
    location: Point,
    size: Size,
    sortRadioButton: string,
    desc: bool,
    apiKey: string,
    searchResults: int,
    hideIdsInList: bool,
    // Read and written by the form, but not declared in SettingsData.cs:
    searchPages: int,
    fullPlot: bool)

  /**
   * A freshly constructed record. The initial values of searchPages and fullPlot are not
   * visible in the source, so the caller supplies them.
   */
  function Defaults(searchPages: int, fullPlot: bool): (d: Settings)
    ensures !d.alwaysOnTop && d.directory == "" && d.location == Point(0, 0) && d.size == Size(0, 0)
    ensures d.sortRadioButton == "rawRadioButton" && !d.desc && d.apiKey == ""
    ensures d.searchResults == 10 && d.hideIdsInList
    ensures d.searchPages == searchPages && d.fullPlot == fullPlot
  {
    Settings(
      alwaysOnTop := false,
      directory := "",
      location := Point(0, 0),
      size := Size(0, 0),
      sortRadioButton := "rawRadioButton",
      desc := false,
      apiKey := "",
      searchResults := 10,
      hideIdsInList := true,
      searchPages := searchPages,
      fullPlot := fullPlot)
  }
}
