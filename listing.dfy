/**
 * The result table and the rule that turns it into the lines of the result list
 * (SortedDataTableToListBox in OMDBfetch/MainForm.cs): copy the rows, reversed when DESC
 * is set, let the view sort them on the chosen column, and format one line per row.
 */
module Listing {
  import opened Wrappers

  /** One row of the result table: its ID, Title, Description and Image columns. */
  datatype Row = Row(id: string, title: string, description: string, image: string)

  /** The columns a sort choice can name. */
  datatype Column = IdColumn | TitleColumn | DescriptionColumn

  function Key(r: Row, col: Column): string {
    match col
    case IdColumn => r.id
    case TitleColumn => r.title
    case DescriptionColumn => r.description
  }

  /** The column a sort choice selects; any other name selects no sort at all. */
  function SortColumn(choice: string): (col: Option<Column>)
    ensures col.Some? <==>
      choice == "idRadioButton" || choice == "titleRadioButton" || choice == "descriptionRadioButton"
    ensures col == Some(IdColumn) <==> choice == "idRadioButton"
    ensures col == Some(TitleColumn) <==> choice == "titleRadioButton"
    ensures col == Some(DescriptionColumn) <==> choice == "descriptionRadioButton"
  {
    if choice == "idRadioButton" then Some(IdColumn)
    else if choice == "descriptionRadioButton" then Some(DescriptionColumn)
    else if choice == "titleRadioButton" then Some(TitleColumn)
    else None
  }

  /**
   * The view's string comparison is culture-aware and not modelled; all the model assumes
   * is that `le` ("sorts no later than") is total and transitive.
   */
  ghost predicate TotalPreorder(le: (string, string) -> bool) {
    && (forall a, b :: le(a, b) || le(b, a))
    && (forall a, b, c {:trigger Chain(le, a, b, c)} :: Chain(le, a, b, c) ==> le(a, c))
  }

  /** `a`, `b`, `c` in that order under `le`; the term on which transitivity is instantiated. */
  ghost predicate Chain(le: (string, string) -> bool, a: string, b: string, c: string) {
    le(a, b) && le(b, c)
  }

  /** Row `a` may precede row `b` in a view sorted on `col`, descending when `desc`. */
  predicate Before(a: Row, b: Row, col: Column, desc: bool, le: (string, string) -> bool) {
    if desc then le(Key(b, col), Key(a, col)) else le(Key(a, col), Key(b, col))
  }

  /** Non-decreasing on `col` without DESC, non-increasing with DESC. */
  ghost predicate Sorted(s: seq<Row>, col: Column, desc: bool, le: (string, string) -> bool) {
    forall i, j :: 0 <= i < j < |s| ==> Before(s[i], s[j], col, desc, le)
  }

  function Reversed<T>(s: seq<T>): seq<T> {
    seq(|s|, i requires 0 <= i < |s| => s[|s| - 1 - i])
  }

  lemma {:induction false} ReversedPermutes<T>(s: seq<T>)
    ensures multiset(Reversed(s)) == multiset(s)
  {
    if s != [] {
      ReversedPermutes(s[1..]);
      assert Reversed(s) == Reversed(s[1..]) + [s[0]];
      assert s == [s[0]] + s[1..];
    }
  }

  /** Places `x` before the first element it may precede. */
  function Insert(x: Row, s: seq<Row>, col: Column, desc: bool, le: (string, string) -> bool): (r: seq<Row>)
    ensures multiset(r) == multiset(s) + multiset{x}
  {
    if s == [] || Before(x, s[0], col, desc, le) then [x] + s
    else
      assert s == [s[0]] + s[1..];
      [s[0]] + Insert(x, s[1..], col, desc, le)
  }

  lemma BeforeTotal(a: Row, b: Row, col: Column, desc: bool, le: (string, string) -> bool)
    requires TotalPreorder(le)
    ensures Before(a, b, col, desc, le) || Before(b, a, col, desc, le)
  {
  }

  lemma BeforeTransitive(a: Row, b: Row, c: Row, col: Column, desc: bool, le: (string, string) -> bool)
    requires TotalPreorder(le)
    requires Before(a, b, col, desc, le) && Before(b, c, col, desc, le)
    ensures Before(a, c, col, desc, le)
  {
    if desc {
      assert Chain(le, Key(c, col), Key(b, col), Key(a, col));
    } else {
      assert Chain(le, Key(a, col), Key(b, col), Key(c, col));
    }
  }

  /** Inserting in front of a sorted sequence whose head `x` may precede keeps it sorted. */
  lemma InsertAtFront(x: Row, s: seq<Row>, col: Column, desc: bool, le: (string, string) -> bool)
    requires TotalPreorder(le) && Sorted(s, col, desc, le)
    requires s == [] || Before(x, s[0], col, desc, le)
    ensures Sorted([x] + s, col, desc, le)
  {
    var r := [x] + s;
    forall i, j | 0 <= i < j < |r|
      ensures Before(r[i], r[j], col, desc, le)
    {
      if i == 0 && j > 1 {
        BeforeTransitive(x, s[0], s[j - 1], col, desc, le);
      }
    }
  }

  /** Prepending `y` to a sorted sequence keeps it sorted when `y` may precede all of it. */
  lemma PrependSmallest(y: Row, t: seq<Row>, col: Column, desc: bool, le: (string, string) -> bool)
    requires Sorted(t, col, desc, le)
    requires forall k :: 0 <= k < |t| ==> Before(y, t[k], col, desc, le)
    ensures Sorted([y] + t, col, desc, le)
  {
    var r := [y] + t;
    forall i, j | 0 <= i < j < |r|
      ensures Before(r[i], r[j], col, desc, le)
    {
      assert r[j] == t[j - 1];
      if i > 0 {
        assert r[i] == t[i - 1];
      }
    }
  }

  lemma {:induction false} InsertSorted(x: Row, s: seq<Row>, col: Column, desc: bool, le: (string, string) -> bool)
    requires TotalPreorder(le) && Sorted(s, col, desc, le)
    ensures Sorted(Insert(x, s, col, desc, le), col, desc, le)
  {
    if s == [] || Before(x, s[0], col, desc, le) {
      InsertAtFront(x, s, col, desc, le);
    } else {
      var tail := s[1..];
      InsertSorted(x, tail, col, desc, le);
      var t := Insert(x, tail, col, desc, le);
      forall k | 0 <= k < |t|
        ensures Before(s[0], t[k], col, desc, le)
      {
        assert t[k] in multiset(t);
        if t[k] == x {
          BeforeTotal(x, s[0], col, desc, le);
        } else {
          assert t[k] in multiset(tail);
          var m :| 0 <= m < |tail| && tail[m] == t[k];
          assert s[m + 1] == t[k];
        }
      }
      PrependSmallest(s[0], t, col, desc, le);
    }
  }

  /**
   * The model's stand-in for the view's sort (an insertion sort); the source promises
   * nothing about rows with equal keys, and neither do the lemmas about it.
   */
  function SortOn(s: seq<Row>, col: Column, desc: bool, le: (string, string) -> bool): (r: seq<Row>)
    ensures multiset(r) == multiset(s)
  {
    if s == [] then []
    else
      assert s == [s[0]] + s[1..];
      Insert(s[0], SortOn(s[1..], col, desc, le), col, desc, le)
  }

  lemma {:induction false} SortOnSorted(s: seq<Row>, col: Column, desc: bool, le: (string, string) -> bool)
    requires TotalPreorder(le)
    ensures Sorted(SortOn(s, col, desc, le), col, desc, le)
  {
    if s != [] {
      SortOnSorted(s[1..], col, desc, le);
      InsertSorted(s[0], SortOn(s[1..], col, desc, le), col, desc, le);
    }
  }

  /** The rows in the order the view returns them: exactly the table's rows, whatever the sort choice. */
  function Arrange(rows: seq<Row>, choice: string, desc: bool, le: (string, string) -> bool): (view: seq<Row>)
    ensures multiset(view) == multiset(rows)
  {
    ReversedPermutes(rows);
    var copied := if desc then Reversed(rows) else rows;
    match SortColumn(choice)
    case None => copied
    case Some(col) => SortOn(copied, col, desc, le)
  }

  /** The list line of one row: "{ID} {Title} {Description}", without the ID when hidden. */
  function Line(r: Row, hideIds: bool): (line: string)
    ensures |line| == (if hideIds then 0 else |r.id| + 1) + |r.title| + 1 + |r.description|
    ensures !hideIds ==> line[..|r.id|] == r.id && line[|r.id|] == ' '
    ensures line[|line| - |r.description|..] == r.description
  {
    (if hideIds then "" else r.id + " ") + r.title + " " + r.description
  }

  function Lines(rows: seq<Row>, hideIds: bool): seq<string> {
    seq(|rows|, i requires 0 <= i < |rows| => Line(rows[i], hideIds))
  }

  /** The lines the result list holds after a render of a non-empty table: one per row. */
  function RenderLines(rows: seq<Row>, choice: string, desc: bool, hideIds: bool,
                       le: (string, string) -> bool): (lines: seq<string>)
    ensures |lines| == |rows|
  {
    var view := Arrange(rows, choice, desc, le);
    assert |view| == |multiset(view)| == |multiset(rows)| == |rows|;
    Lines(view, hideIds)
  }

  function Map<A, B>(s: seq<A>, f: A -> B): seq<B> {
    seq(|s|, i requires 0 <= i < |s| => f(s[i]))
  }

  lemma MapConcat<A, B>(a: seq<A>, b: seq<A>, f: A -> B)
    ensures Map(a + b, f) == Map(a, f) + Map(b, f)
  {
  }

  /** Mapping two permutations of each other gives permutations of each other. */
  lemma {:induction false} MapOfPermutation<A, B>(a: seq<A>, b: seq<A>, f: A -> B)
    requires multiset(a) == multiset(b)
    ensures multiset(Map(a, f)) == multiset(Map(b, f))
  {
    if a != [] {
      assert a[0] in multiset(b);
      var j :| 0 <= j < |b| && b[j] == a[0];
      var before, after := b[..j], b[j + 1..];
      var rest := before + after;
      assert b == before + [b[j]] + after;
      assert a == [a[0]] + a[1..];
      assert multiset(a[1..]) == multiset(rest) by {
        assert multiset(a[1..]) == multiset(a) - multiset{a[0]};
        assert multiset(rest) == multiset(b) - multiset{b[j]};
      }
      MapOfPermutation(a[1..], rest, f);
      MapConcat([a[0]], a[1..], f);
      MapConcat(before + [b[j]], after, f);
      MapConcat(before, [b[j]], f);
      MapConcat(before, after, f);
    }
  }

  lemma LinesOfPermutation(a: seq<Row>, b: seq<Row>, hideIds: bool)
    requires multiset(a) == multiset(b)
    ensures multiset(Lines(a, hideIds)) == multiset(Lines(b, hideIds))
  {
    var f := (r: Row) => Line(r, hideIds);
    MapOfPermutation(a, b, f);
    assert Lines(a, hideIds) == Map(a, f);
    assert Lines(b, hideIds) == Map(b, f);
  }

  /**
   * One line per table row: the list is a permutation of the rows' own lines,
   * so its length is the row count.
   */
  lemma RenderOneLinePerRow(rows: seq<Row>, choice: string, desc: bool, hideIds: bool,
                            le: (string, string) -> bool)
    ensures |RenderLines(rows, choice, desc, hideIds, le)| == |rows|
    ensures multiset(RenderLines(rows, choice, desc, hideIds, le)) == multiset(Lines(rows, hideIds))
  {
    var view := Arrange(rows, choice, desc, le);
    LinesOfPermutation(view, rows, hideIds);
  }

  /** Without a column sort the list is the rows in insertion order, reversed under DESC. */
  lemma RenderUnsorted(rows: seq<Row>, choice: string, desc: bool, hideIds: bool,
                       le: (string, string) -> bool)
    requires SortColumn(choice).None?
    ensures var lines := RenderLines(rows, choice, desc, hideIds, le);
      && |lines| == |rows|
      && forall i :: 0 <= i < |rows| ==>
           lines[i] == Line(if desc then rows[|rows| - 1 - i] else rows[i], hideIds)
  {
  }

  /**
   * With a column sort the view is a permutation of the rows, non-decreasing on that
   * column without DESC and non-increasing with DESC.
   */
  lemma RenderSorted(rows: seq<Row>, choice: string, desc: bool, le: (string, string) -> bool)
    requires TotalPreorder(le) && SortColumn(choice).Some?
    ensures var view := Arrange(rows, choice, desc, le);
      var col := SortColumn(choice).value;
      && multiset(view) == multiset(rows)
      && (!desc ==> forall i, j :: 0 <= i < j < |view| ==> le(Key(view[i], col), Key(view[j], col)))
      && (desc ==> forall i, j :: 0 <= i < j < |view| ==> le(Key(view[j], col), Key(view[i], col)))
  {
    var view := Arrange(rows, choice, desc, le);
    var col := SortColumn(choice).value;
    var copied := if desc then Reversed(rows) else rows;
    SortOnSorted(copied, col, desc, le);
    assert Sorted(view, col, desc, le);
    forall i, j | 0 <= i < j < |view|
      ensures Before(view[i], view[j], col, desc, le)
    {
    }
  }
}
