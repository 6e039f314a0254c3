/**
 * Recovering the table row behind a list line (GetSelectedItemIdAndTitle in
 * OMDBfetch/MainForm.cs). With IDs hidden the line is looked up in the table;
 * with IDs shown it is cut at its first space.
 */
module Selection {
  import opened Wrappers
  import opened Listing

  /** The "ID" and "Title" entries of the dictionary the source returns. */
  datatype Selected = Selected(id: string, title: string)

  /** String.Split on ' ' with a count of 2: the text up to the first space and the rest. */
  function SplitAtFirstSpace(s: string): (parts: seq<string>)
    ensures |parts| == 1 || |parts| == 2
    ensures |parts| == 1 <==> ' ' !in s
    ensures |parts| == 1 ==> parts[0] == s
    ensures |parts| == 2 ==> ' ' !in parts[0] && s == parts[0] + " " + parts[1]
  {
    if s == [] then [s]
    else if s[0] == ' ' then ["", s[1..]]
    else
      var p := SplitAtFirstSpace(s[1..]);
      if |p| == 1 then [s]
      else
        assert s == [s[0]] + s[1..];
        [[s[0]] + p[0], p[1]]
  }

  /** The index of the first row, in table order, whose hidden-ID line is `item`. */
  function FirstMatch(table: seq<Row>, item: string): (k: Option<nat>)
    ensures k.None? ==> forall j :: 0 <= j < |table| ==> Line(table[j], true) != item
    ensures k.Some? ==> k.value < |table| && Line(table[k.value], true) == item
    ensures k.Some? ==> forall j :: 0 <= j < k.value ==> Line(table[j], true) != item
  {
    if table == [] then None
    else if Line(table[0], true) == item then Some(0)
    else
      match FirstMatch(table[1..], item)
      case None => None
      case Some(k) => Some(k + 1)
  }

  /**
   * The ID and title behind the selected line `item`; None where the source throws
   * (no matching row for First(), or no second part after Split).
   */
  function SelectedIdAndTitle(item: string, hideIds: bool, table: seq<Row>): (r: Option<Selected>)
    ensures hideIds ==> (r.Some? <==> exists k :: 0 <= k < |table| && Line(table[k], true) == item)
    ensures hideIds && r.Some? ==>
      && r.value.title == item
      && exists k :: 0 <= k < |table| && table[k].id == r.value.id && Line(table[k], true) == item
                     && forall j :: 0 <= j < k ==> Line(table[j], true) != item
    ensures !hideIds ==> (r.Some? <==> ' ' in item)
    ensures !hideIds && r.Some? ==> ' ' !in r.value.id && item == r.value.id + " " + r.value.title
  {
    if hideIds then
      match FirstMatch(table, item)
      case None => None
      case Some(k) => Some(Selected(table[k].id, item))
    else
      var parts := SplitAtFirstSpace(item);
      if |parts| < 2 then None else Some(Selected(parts[0], parts[1]))
  }

  /** A space-free head before a space is determined by the string. */
  lemma {:induction false} SpaceCutUnique(p: string, q: string, u: string, v: string)
    requires ' ' !in p && ' ' !in u
    requires p + " " + q == u + " " + v
    ensures p == u && q == v
  {
    var w := p + " " + q;
    if |p| < |u| {
      SpaceAfter(p, q);
      assert false;
    } else if |u| < |p| {
      SpaceAfter(u, v);
      assert false;
    } else {
      assert p == w[..|p|] == u;
      assert q == w[|p| + 1..] == v;
    }
  }

  lemma SpaceAfter(p: string, q: string)
    ensures (p + " " + q)[|p|] == ' '
  {
  }

  /**
   * With IDs shown, the line of a row whose ID has no space gives back that ID and,
   * as the title, the rest of the line ("title description").
   */
  lemma ShownLineRoundTrip(r: Row, table: seq<Row>)
    requires ' ' !in r.id
    ensures SelectedIdAndTitle(Line(r, false), false, table)
            == Some(Selected(r.id, r.title + " " + r.description))
  {
    var item := Line(r, false);
    var rest := r.title + " " + r.description;
    assert item == r.id + " " + rest;
    assert item[|r.id|] == ' ';
    var s := SelectedIdAndTitle(item, false, table);
    SpaceCutUnique(s.value.id, s.value.title, r.id, rest);
  }

  /** With IDs hidden, every line of a rendered list leads back to a row of the table. */
  lemma HiddenRenderedLineSelectsRow(table: seq<Row>, choice: string, desc: bool,
                                     le: (string, string) -> bool, i: nat)
    requires i < |RenderLines(table, choice, desc, true, le)|
    ensures var item := RenderLines(table, choice, desc, true, le)[i];
      var s := SelectedIdAndTitle(item, true, table);
      && s.Some? && s.value.title == item
      && exists k :: 0 <= k < |table| && table[k].id == s.value.id && Line(table[k], true) == item
  {
    var lines := RenderLines(table, choice, desc, true, le);
    RenderOneLinePerRow(table, choice, desc, true, le);
    assert lines[i] in multiset(Lines(table, true));
    var k :| 0 <= k < |table| && Lines(table, true)[k] == lines[i];
    assert Line(table[k], true) == lines[i];
  }

  /**
   * With IDs shown and no ID containing a space, every line of a rendered list gives the
   * ID and "title description" of a row of the table.
   */
  lemma ShownRenderedLineSelectsRow(table: seq<Row>, choice: string, desc: bool,
                                    le: (string, string) -> bool, i: nat)
    requires forall k :: 0 <= k < |table| ==> ' ' !in table[k].id
    requires i < |RenderLines(table, choice, desc, false, le)|
    ensures var item := RenderLines(table, choice, desc, false, le)[i];
      var s := SelectedIdAndTitle(item, false, table);
      && s.Some?
      && exists k :: 0 <= k < |table| && s.value == Selected(table[k].id, table[k].title + " " + table[k].description)
  {
    var lines := RenderLines(table, choice, desc, false, le);
    RenderOneLinePerRow(table, choice, desc, false, le);
    assert lines[i] in multiset(Lines(table, false));
    var k :| 0 <= k < |table| && Lines(table, false)[k] == lines[i];
    assert Line(table[k], false) == lines[i];
    ShownLineRoundTrip(table[k], table);
  }
}
