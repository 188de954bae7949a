/** `create_web_gallery`: the HTML table of a picture gallery, one cell per
    picture linking its thumbnail, `numberOfColumns` cells to a row, and the
    thumbnail names the pictures get. */
module CreateWebGallery {
  import opened Results
  import Strings
  import StringOrder

  const ROW_OPEN := "\t<tr>\n"
  const ROW_CLOSE := "\t</tr>\n"

  /** The subdirectory prefix: `subdir + "/"` when a non-empty subdirectory
      is given, otherwise nothing. */
  function SubdirPrefix(subdir: Option<string>): (r: string)
    ensures subdir.Some? && subdir.value != [] ==> r == subdir.value + "/"
    ensures subdir.None? || subdir.value == [] ==> r == ""
  {
    if subdir.Some? && subdir.value != [] then subdir.value + "/" else ""
  }

  /** One table cell: the picture as a link around its thumbnail, both
      under the subdirectory prefix. */
  function Cell(subdir: string, picture: string, target: string, thumbnail: string): string {
    "\t<td><a href=\"" + subdir + picture + "\" " + target + ">\n" +
    "\t\t<font color=\"black\"><img border=\"2\" src=\"" + subdir + thumbnail + "\">\n" +
    "\t</a></td>\n"
  }

  /** Text joined without separator. */
  function Concat(parts: seq<string>): string {
    if parts == [] then "" else Concat(parts[..|parts| - 1]) + parts[|parts| - 1]
  }

  /** The cells split into rows of `cols`: every row holds one to `cols`
      cells, and every row but the last is full. */
  function Chunks(cells: seq<string>, cols: nat): (rows: seq<seq<string>>)
    requires cols >= 1
    ensures forall j :: 0 <= j < |rows| ==> 1 <= |rows[j]| <= cols
    ensures forall j :: 0 <= j < |rows| - 1 ==> |rows[j]| == cols
    decreases |cells|
  {
    if cells == [] then []
    else if |cells| <= cols then [cells]
    else [cells[..cols]] + Chunks(cells[cols..], cols)
  }

  /** There are as many rows as `cols` goes into the number of cells,
      rounded up. */
  lemma {:induction false} ChunksCount(cells: seq<string>, cols: nat)
    requires cols >= 1
    ensures |Chunks(cells, cols)| == (|cells| + cols - 1) / cols
    decreases |cells|
  {
    var n := |cells|;
    if cells == [] {
      DivUnique(cols - 1, cols, 0, cols - 1);
    } else if n <= cols {
      DivUnique(n + cols - 1, cols, 1, n - 1);
    } else {
      ChunksCount(cells[cols..], cols);
      DivPlusOne(n - 1, cols);
    }
  }

  lemma {:induction false} MulMono(k: int, b: int)
    requires k >= 1 && b > 0
    ensures k * b >= b
  {
    if k > 1 {
      MulMono(k - 1, b);
      assert k * b == (k - 1) * b + b;
    }
  }

  lemma {:induction false} DivUnique(x: int, b: int, m: int, r: int)
    requires b > 0 && 0 <= r < b && x == m * b + r
    ensures x / b == m
  {
    var q, s := x / b, x % b;
    assert x == q * b + s;
    assert (q - m) * b == r - s;
    if q > m {
      MulMono(q - m, b);
    } else if q < m {
      MulMono(m - q, b);
    }
  }

  lemma {:induction false} DivPlusOne(a: int, b: int)
    requires a >= 0 && b > 0
    ensures (a + b) / b == a / b + 1
  {
    var q, r := a / b, a % b;
    assert a == q * b + r;
    assert a + b == (q + 1) * b + r;
    DivUnique(a + b, b, q + 1, r);
  }

  /** The rows put back together give the cells. */
  lemma {:induction false} ChunksFlatten(cells: seq<string>, cols: nat)
    requires cols >= 1
    ensures Flatten(Chunks(cells, cols)) == cells
    decreases |cells|
  {
    if cells != [] && |cells| > cols {
      ChunksFlatten(cells[cols..], cols);
      FlattenCons(cells[..cols], Chunks(cells[cols..], cols));
      assert cells[..cols] + cells[cols..] == cells;
    } else if cells != [] {
      assert Flatten([cells]) == Flatten([]) + cells;
    }
  }

  function Flatten(rows: seq<seq<string>>): seq<string> {
    if rows == [] then [] else Flatten(rows[..|rows| - 1]) + rows[|rows| - 1]
  }

  lemma {:induction false} FlattenCons(r: seq<string>, rows: seq<seq<string>>)
    ensures Flatten([r] + rows) == r + Flatten(rows)
    decreases |rows|
  {
    if rows == [] {
      assert [r] + rows == [r];
      assert Flatten([r]) == Flatten([]) + r;
    } else {
      var q := rows[..|rows| - 1];
      assert ([r] + rows)[..|rows|] == [r] + q;
      FlattenCons(r, q);
    }
  }

  /** A row: opened, its cells, closed. */
  function Row(cells: seq<string>): string {
    ROW_OPEN + Concat(cells) + ROW_CLOSE
  }

  function RowsText(rows: seq<seq<string>>): string {
    if rows == [] then "" else RowsText(rows[..|rows| - 1]) + Row(rows[|rows| - 1])
  }

  /** The table body for `cols >= 1`: each row opened and closed once. With
      a column count below one no row is ever closed: the cells follow a
      single opening tag. */
  function Table(cells: seq<string>, cols: int): string {
    if cols >= 1 then RowsText(Chunks(cells, cols))
    else if cells == [] then ""
    else ROW_OPEN + Concat(cells)
  }

  /** The cells of the sorted pictures. */
  function Cells(pics: map<string, string>, keys: seq<string>, subdir: string, target: string): (r: seq<string>)
    requires forall k :: k in keys ==> k in pics
    ensures |r| == |keys|
    ensures forall i :: 0 <= i < |keys| ==> r[i] == Cell(subdir, keys[i], target, pics[keys[i]])
  {
    seq(|keys|, i requires 0 <= i < |keys| => Cell(subdir, keys[i], target, pics[keys[i]]))
  }

  /** The row still open: its opening tag and its cells so far, or nothing
      when no row is open. */
  function OpenRow(row: seq<string>): string {
    if row == [] then "" else ROW_OPEN + Concat(row)
  }

  lemma {:induction false} OpenRowFirst(c: string)
    ensures OpenRow([c]) == ROW_OPEN + c
  {
    assert [c][..0] == [];
    assert Concat([c]) == "" + c;
  }

  lemma {:induction false} OpenRowSnoc(row: seq<string>, c: string)
    requires row != []
    ensures OpenRow(row + [c]) == OpenRow(row) + c
  {
    var r := row + [c];
    assert r[..|r| - 1] == row;
    assert Concat(r) == Concat(row) + c;
    Strings.AppendAssoc(ROW_OPEN, Concat(row), c);
  }


  /** Closing the open row adds it to the finished rows. */
  lemma {:induction false} CloseRow(rows: seq<seq<string>>, row: seq<string>)
    requires row != []
    ensures RowsText(rows) + OpenRow(row) + ROW_CLOSE == RowsText(rows + [row])
  {
    var closed := rows + [row];
    assert closed[..|rows|] == rows;
    assert RowsText(closed) == RowsText(rows) + (ROW_OPEN + Concat(row) + ROW_CLOSE);
  }

  /** Full rows followed by a partial one are the way `Chunks` splits their
      cells. */
  lemma {:induction false} ChunksOfRows(rows: seq<seq<string>>, row: seq<string>, cols: nat)
    requires cols >= 1 && |row| <= cols
    requires Full(rows, cols)
    ensures Chunks(Flatten(rows) + row, cols) == rows + (if row == [] then [] else [row])
    decreases |rows|
  {
    if rows == [] {
      assert Flatten(rows) + row == row;
    } else {
      var rest := rows[1..];
      assert [rows[0]] + rest == rows;
      FlattenCons(rows[0], rest);
      ChunksOfRows(rest, row, cols);
      var x := Flatten(rest) + row;
      assert Flatten(rows) + row == rows[0] + x;
      assert (rows[0] + x)[..cols] == rows[0];
      assert (rows[0] + x)[cols..] == x;
      if x == [] {
        assert rows[0] + x == rows[0];
        assert rest == [] by {
          if rest != [] {
            FlattenLength(rest);
          }
        }
      }
    }
  }

  lemma {:induction false} FlattenLength(rows: seq<seq<string>>)
    requires rows != [] && |rows[|rows| - 1]| > 0
    ensures |Flatten(rows)| > 0
  {
  }

  /** Every finished row holds `cols` cells. */
  predicate Full(rows: seq<seq<string>>, cols: int) {
    forall j :: 0 <= j < |rows| ==> |rows[j]| == cols
  }

  /** The rows so far are well formed for `cols`: finished rows are full and
      the open row is not (with fewer than one column no row is ever
      finished). */
  predicate Shaped(rows: seq<seq<string>>, row: seq<string>, cols: int) {
    Full(rows, cols) && (cols >= 1 ==> |row| < cols) && (cols < 1 ==> rows == [])
  }

  /** Emitting cell `c`: it joins the open row (opening it first when none
      is open), and the row is closed once it holds `cols` cells. */
  lemma {:induction false} Push(rows: seq<seq<string>>, row: seq<string>, c: string, cols: int)
    returns (rows': seq<seq<string>>, row': seq<string>)
    requires Shaped(rows, row, cols)
    ensures Shaped(rows', row', cols)
    ensures Flatten(rows') + row' == Flatten(rows) + row + [c]
    ensures |row'| == (if |row| + 1 == cols then 0 else |row| + 1)
    ensures var before, after := RowsText(rows) + OpenRow(row), RowsText(rows') + OpenRow(row');
      if row == [] && |row| + 1 == cols then after == before + ROW_OPEN + c + ROW_CLOSE
      else if row == [] then after == before + ROW_OPEN + c
      else if |row| + 1 == cols then after == before + c + ROW_CLOSE
      else after == before + c
  {
    if |row| + 1 == cols {
      rows', row' := rows + [row + [c]], [];
      assert rows'[..|rows|] == rows;
      PushClosing(rows, row, c);
    } else {
      rows', row' := rows, row + [c];
      PushOpen(rows, row, c);
    }
  }

  lemma {:induction false} PushOpen(rows: seq<seq<string>>, row: seq<string>, c: string)
    ensures var before, after := RowsText(rows) + OpenRow(row), RowsText(rows) + OpenRow(row + [c]);
      if row == [] then after == before + ROW_OPEN + c else after == before + c
  {
    if row == [] {
      OpenRowFirst(c);
      assert RowsText(rows) + OpenRow(row) == RowsText(rows);
    } else {
      OpenRowSnoc(row, c);
    }
  }

  lemma {:induction false} PushClosing(rows: seq<seq<string>>, row: seq<string>, c: string)
    ensures var before, after := RowsText(rows) + OpenRow(row), RowsText(rows + [row + [c]]) + OpenRow([]);
      if row == [] then after == before + ROW_OPEN + c + ROW_CLOSE else after == before + c + ROW_CLOSE
  {
    CloseRow(rows, row + [c]);
    PushOpen(rows, row, c);
    assert RowsText(rows + [row + [c]]) + OpenRow([]) == RowsText(rows + [row + [c]]);
  }

  /** `createHTMLTable`: the pictures in sorted order, a row opened before
      the first cell of a row and closed after `numberOfColumns` cells, a
      trailing partial row closed once. */
  method CreateHTMLTable(pics: map<string, string>, numberOfColumns: int, target: string, subdir: Option<string>)
    returns (keys: seq<string>, result: string)
    ensures StringOrder.Sorted(keys) && StringOrder.Distinct(keys) && (forall k :: k in keys <==> k in pics)
    ensures result == Table(Cells(pics, keys, SubdirPrefix(subdir), target), numberOfColumns)
  {
    var prefix := SubdirPrefix(subdir);
    keys := StringOrder.SortSet(pics.Keys);
    result := WriteTable(pics, keys, prefix, target, numberOfColumns);
  }

  /** The loop of `createHTMLTable` over the sorted keys. */
  method WriteTable(pics: map<string, string>, keys: seq<string>, prefix: string, target: string, numberOfColumns: int)
    returns (result: string)
    requires forall k :: k in keys ==> k in pics
    ensures result == Table(Cells(pics, keys, prefix, target), numberOfColumns)
  {
    result := "";
    ghost var cells := Cells(pics, keys, prefix, target);
    ghost var rows: seq<seq<string>> := [];
    ghost var row: seq<string> := [];
    var counter := 0;
    var i := 0;
    while i < |keys|
      invariant i <= |keys|
      invariant counter == |row|
      invariant Flatten(rows) + row == cells[..i]
      invariant Shaped(rows, row, numberOfColumns)
      invariant result == RowsText(rows) + OpenRow(row)
    {
      var key := keys[i];
      var tmp := Cell(prefix, key, target, pics[key]);
      assert cells[..i + 1] == cells[..i] + [tmp] by {
        assert cells[i] == tmp;
      }
      result, counter, rows, row := AddCell(result, counter, tmp, numberOfColumns, rows, row);
      i := i + 1;
    }
    assert Flatten(rows) + row == cells by {
      assert cells[..i] == cells;
    }
    Finish(rows, row, numberOfColumns);
    if counter > 0 && counter < numberOfColumns {
      result := result + ROW_CLOSE;
    }
  }

  /** One pass of `createHTMLTable`'s loop: cell `tmp` is written, after a
      row opening when the counter is 0, and the row is closed when the
      counter reaches `numberOfColumns`. */
  method AddCell(result: string, counter: int, tmp: string, numberOfColumns: int, ghost rows: seq<seq<string>>, ghost row: seq<string>)
    returns (result': string, counter': int, ghost rows': seq<seq<string>>, ghost row': seq<string>)
    requires counter == |row| && Shaped(rows, row, numberOfColumns)
    requires result == RowsText(rows) + OpenRow(row)
    ensures counter' == |row'| && Shaped(rows', row', numberOfColumns)
    ensures result' == RowsText(rows') + OpenRow(row')
    ensures Flatten(rows') + row' == Flatten(rows) + row + [tmp]
  {
    rows', row' := Push(rows, row, tmp, numberOfColumns);
    result' := result;
    counter' := counter;
    if counter' == 0 {
      result' := result' + ROW_OPEN;
    }
    result' := result' + tmp;
    counter' := counter' + 1;
    if counter' == numberOfColumns {
      counter' := 0;
      result' := result' + ROW_CLOSE;
    }
  }

  /** The rows at the end, the open one closed when there is one, are the
      table of all cells. */
  lemma {:induction false} Finish(rows: seq<seq<string>>, row: seq<string>, cols: int)
    requires Shaped(rows, row, cols)
    ensures RowsText(rows) + OpenRow(row) + (if row != [] && |row| < cols then ROW_CLOSE else "")
         == Table(Flatten(rows) + row, cols)
  {
    if cols >= 1 {
      ChunksOfRows(rows, row, cols);
      if row != [] {
        CloseRow(rows, row);
      } else {
        assert rows + [] == rows;
      }
    } else {
      assert Flatten(rows) + row == row;
    }
  }

  /** No pictures, no table. */
  lemma {:induction false} EmptyTable(cols: int)
    ensures Table([], cols) == ""
  {
    if cols >= 1 {
      assert Chunks([], cols) == [];
    }
  }

  /** `p[:-4] + "-thumb.jpg"`: the picture name without its last four
      characters (its extension with the dot) and the thumbnail suffix. */
  function ThumbName(p: string): (r: string)
    ensures Strings.EndsWith(r, "-thumb.jpg")
    ensures Strings.StartsWith(p, r[..|r| - 10])
    ensures |r| == (if |p| < 4 then 0 else |p| - 4) + 10
  {
    var r := Strings.DropLastN(p, 4) + "-thumb.jpg";
    assert r[..|r| - 10] == Strings.DropLastN(p, 4);
    r
  }

  /** A name with a four-character extension keeps its stem. */
  lemma {:induction false} ThumbNameOfStem(stem: string, ext: string)
    requires |ext| == 4
    ensures ThumbName(stem + ext) == stem + "-thumb.jpg"
  {
    assert (stem + ext)[..|stem|] == stem;
  }

  /** The thumbnails of `main`: each picture maps to its thumbnail name. */
  function ThumbPics(pics: seq<string>): (r: map<string, string>)
    ensures forall p :: p in r <==> p in pics
    ensures forall p :: p in r ==> r[p] == ThumbName(p)
  {
    map p | p in pics :: ThumbName(p)
  }
}
