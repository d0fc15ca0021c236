/**
 * ExcelHandler: writes the file names found for each title back into the
 * "Movies" sheet. A row is reached through the cleaned form of its title, and
 * the poster and still names go two and three columns to the right of it.
 */
module Excel {
  import opened Optional
  import opened Text
  import Dict

  /**
   * The cells of one sheet row that the tool reads or writes: the title
   * (column B), the poster file name (column D) and the still file name
   * (column E). An empty cell is `None`.
   */
  datatype Row = Row(title: Option<string>, poster: Option<string>, still: Option<string>)

  /** The `{"Poster": ..., "Still": ...}` record kept per title. */
  datatype Images = Images(poster: Option<string>, still: Option<string>)

  datatype Column = PosterColumn | StillColumn

  function Cell(row: Row, col: Column): Option<string> {
    match col
    case PosterColumn => row.poster
    case StillColumn => row.still
  }

  function ImageFor(images: Images, col: Column): Option<string> {
    match col
    case PosterColumn => images.poster
    case StillColumn => images.still
  }

  /** The key a row is filed under: the cleaned title, for a row whose title cell is truthy. */
  function RowKey(row: Row): Option<string> {
    if Truthy(row.title) then Some(CleanString(row.title.value)) else None
  }

  /** The key of every row, in sheet order. */
  function RowKeys(rows: seq<Row>): (keys: seq<Option<string>>)
    ensures |keys| == |rows| && forall i :: 0 <= i < |rows| ==> keys[i] == RowKey(rows[i])
  {
    seq(|rows|, i requires 0 <= i < |rows| => RowKey(rows[i]))
  }

  /**
   * From a sequence of optional keys, the map from each key present below
   * position 0 to the last position that carries it.
   */
  function LastIndex(keys: seq<Option<string>>): (m: map<string, nat>)
    ensures forall k :: k in m ==> 1 <= m[k] < |keys| && keys[m[k]] == Some(k)
    ensures forall i :: 1 <= i < |keys| && keys[i].Some? ==> keys[i].value in m && i <= m[keys[i].value]
  {
    if |keys| <= 1 then map[]
    else
      var m := LastIndex(keys[..|keys| - 1]);
      var k := keys[|keys| - 1];
      if k.Some? then m[k.value := |keys| - 1] else m
  }

  /**
   * `sheet_title_map` over the rows below the header: a key is present exactly
   * when some row carries it, and it leads to the last such row.
   */
  function TitleIndex(rows: seq<Row>): map<string, nat> {
    LastIndex(RowKeys(rows))
  }

  lemma LastIndexSnoc(keys: seq<Option<string>>, i: nat)
    requires 1 <= i < |keys|
    ensures LastIndex(keys[..i + 1]) == if keys[i].Some? then LastIndex(keys[..i])[keys[i].value := i] else LastIndex(keys[..i])
  {
    assert keys[..i + 1][..i] == keys[..i];
  }

  /** The row a results title is written to, if the index holds its cleaned form. */
  function Target(index: map<string, nat>, title: string): Option<nat> {
    var k := CleanString(title);
    if k in index then Some(index[k]) else None
  }

  /** Writing one record into a row: each truthy name replaces its cell, a falsy one leaves the cell alone. */
  function Write(row: Row, images: Images): Row {
    row.(poster := if Truthy(images.poster) then images.poster else row.poster,
         still := if Truthy(images.still) then images.still else row.still)
  }

  function ApplyOne(rows: seq<Row>, index: map<string, nat>, e: Dict.Entry<Images>): seq<Row> {
    var t := Target(index, e.key);
    if t.Some? && t.value < |rows| then rows[t.value := Write(rows[t.value], e.value)] else rows
  }

  /** The rows after the results have been written one record after the other, in dict order. */
  function ApplyAll(rows: seq<Row>, index: map<string, nat>, data: seq<Dict.Entry<Images>>): (r: seq<Row>)
    ensures |r| == |rows| && forall i :: 0 <= i < |rows| ==> r[i].title == rows[i].title
  {
    if data == [] then rows
    else ApplyOne(ApplyAll(rows, index, data[..|data| - 1]), index, data[|data| - 1])
  }

  /** A record writes into row `i`, column `col`. */
  predicate WritesTo(index: map<string, nat>, e: Dict.Entry<Images>, i: nat, col: Column) {
    Target(index, e.key) == Some(i) && Truthy(ImageFor(e.value, col))
  }

  /** One record changes a cell of row `i` exactly when it writes to it, and then to its name. */
  lemma CellAfterOne(rows: seq<Row>, index: map<string, nat>, e: Dict.Entry<Images>, i: nat, col: Column)
    requires i < |rows|
    ensures |ApplyOne(rows, index, e)| == |rows|
    ensures Cell(ApplyOne(rows, index, e)[i], col) == if WritesTo(index, e, i, col) then ImageFor(e.value, col) else Cell(rows[i], col)
  {
  }

  /** A cell that no record writes to keeps its value. */
  lemma {:induction false} CellUntouched(rows: seq<Row>, index: map<string, nat>, data: seq<Dict.Entry<Images>>, i: nat, col: Column)
    requires i < |rows|
    requires forall j :: 0 <= j < |data| ==> !WritesTo(index, data[j], i, col)
    ensures Cell(ApplyAll(rows, index, data)[i], col) == Cell(rows[i], col)
  {
    if data != [] {
      var n := |data| - 1;
      var prev := ApplyAll(rows, index, data[..n]);
      assert forall j :: 0 <= j < n ==> data[..n][j] == data[j];
      CellUntouched(rows, index, data[..n], i, col);
      CellAfterOne(prev, index, data[n], i, col);
    }
  }

  /** A cell ends up holding the name from the last record that writes to it. */
  lemma {:induction false} LastWriteWins(rows: seq<Row>, index: map<string, nat>, data: seq<Dict.Entry<Images>>, i: nat, col: Column, j: nat)
    requires i < |rows| && j < |data|
    requires WritesTo(index, data[j], i, col)
    requires forall j' :: j < j' < |data| ==> !WritesTo(index, data[j'], i, col)
    ensures Cell(ApplyAll(rows, index, data)[i], col) == ImageFor(data[j].value, col)
  {
    var n := |data| - 1;
    var front := data[..n];
    CellAfterOne(ApplyAll(rows, index, front), index, data[n], i, col);
    if j < n {
      assert front[j] == data[j];
      assert forall j' :: j < j' < n ==> front[j'] == data[j'];
      LastWriteWins(rows, index, front, i, col, j);
    }
  }

  /**
   * update_images: every record whose cleaned title names a row of the sheet
   * writes its truthy names into that row; a row is only ever written when it
   * is the last row carrying its key and some results title has that key, so
   * every other row, the header and every title cell are left as they were.
   */
  lemma UpdateSpec(rows: seq<Row>, data: seq<Dict.Entry<Images>>, i: nat)
    requires i < |rows|
    ensures var r := ApplyAll(rows, TitleIndex(rows), data);
            && |r| == |rows| && r[i].title == rows[i].title
            && (r[i] != rows[i] ==>
                  && 1 <= i && RowKey(rows[i]).Some?
                  && (exists j :: 0 <= j < |data| && CleanString(data[j].key) == RowKey(rows[i]).value)
                  && forall i' :: i < i' < |rows| ==> RowKey(rows[i']) != RowKey(rows[i]))
  {
    var index := TitleIndex(rows);
    var keys := RowKeys(rows);
    var r := ApplyAll(rows, index, data);
    if r[i] != rows[i] {
      var col: Column;
      if forall j :: 0 <= j < |data| ==> !WritesTo(index, data[j], i, PosterColumn) {
        CellUntouched(rows, index, data, i, PosterColumn);
        if forall j :: 0 <= j < |data| ==> !WritesTo(index, data[j], i, StillColumn) {
          CellUntouched(rows, index, data, i, StillColumn);
          assert false;
        }
        col := StillColumn;
      } else {
        col := PosterColumn;
      }
      var j :| 0 <= j < |data| && WritesTo(index, data[j], i, col);
      var k := CleanString(data[j].key);
      assert k in index && index[k] == i;
    }
  }

  class ExcelHandler {
    /** The "Movies" sheet, row 0 being the header. */
    const sheet: array<Row>

    constructor (sheet: array<Row>)
      ensures this.sheet == sheet
    {
      this.sheet := sheet;
    }

    /**
     * The first loop of update_images: `sheet_title_map`, from the cleaned
     * title of every row below the header whose title cell is truthy to the
     * last such row.
     */
    method TitleRows() returns (index: map<string, nat>)
      ensures index == TitleIndex(sheet[..])
    {
      ghost var keys := RowKeys(sheet[..]);
      index := map[];
      var i := 1;
      while i < sheet.Length
        invariant 1 <= i
        invariant sheet.Length == 0 ==> index == map[]
        invariant sheet.Length >= 1 ==> i <= sheet.Length && index == LastIndex(keys[..i])
      {
        LastIndexSnoc(keys, i);
        var title := sheet[i].title;
        if title.Some? && title.value != "" {
          index := index[CleanString(title.value) := i];
        }
        i := i + 1;
      }
      assert sheet.Length >= 1 ==> keys[..i] == keys;
    }

    /** The body of update_images' second loop: one record written into the row its title leads to. */
    method WriteRecord(index: map<string, nat>, e: Dict.Entry<Images>)
      requires forall k :: k in index ==> index[k] < sheet.Length
      modifies sheet
      ensures sheet[..] == ApplyOne(old(sheet[..]), index, e)
    {
      var cleaned := CleanString(e.key);
      if cleaned in index {
        var row := index[cleaned];
        var images := e.value;
        ghost var before := sheet[..];
        if images.poster.Some? && images.poster.value != "" {
          sheet[row] := sheet[row].(poster := images.poster);
        }
        if images.still.Some? && images.still.value != "" {
          sheet[row] := sheet[row].(still := images.still);
        }
        assert sheet[..] == before[row := Write(before[row], images)];
      }
    }

    /** update_images (saving the workbook is not modelled). */
    method UpdateImages(movieData: seq<Dict.Entry<Images>>)
      modifies sheet
      ensures sheet[..] == ApplyAll(old(sheet[..]), TitleIndex(old(sheet[..])), movieData)
    {
      ghost var rows := sheet[..];
      var index := TitleRows();
      var j := 0;
      while j < |movieData|
        invariant 0 <= j <= |movieData|
        invariant index == TitleIndex(rows)
        invariant sheet[..] == ApplyAll(rows, index, movieData[..j])
      {
        assert movieData[..j + 1][..j] == movieData[..j];
        WriteRecord(index, movieData[j]);
        j := j + 1;
      }
      assert movieData[..j] == movieData;
    }
  }
}
