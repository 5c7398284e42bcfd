/** The extent table of the database: rows in insertion order, selected and deleted by inode.  */
module Tables {
  import opened Merge

  datatype ExtentRow = ExtentRow(inode: Inode, extent: Extent)

  /** SELECT ... WHERE inode = i  */
  function RowsFor(rows: seq<ExtentRow>, i: Inode): seq<Extent> {
    if rows == [] then []
    else
      var last := rows[|rows| - 1];
      RowsFor(rows[..|rows| - 1], i) + (if last.inode == i then [last.extent] else [])
  }

  /** DELETE ... WHERE inode = i  */
  function Without(rows: seq<ExtentRow>, i: Inode): seq<ExtentRow> {
    if rows == [] then []
    else
      var last := rows[|rows| - 1];
      Without(rows[..|rows| - 1], i) + (if last.inode == i then [] else [last])
  }

  lemma RowsForSnoc(rows: seq<ExtentRow>, r: ExtentRow, i: Inode)
    ensures RowsFor(rows + [r], i) == RowsFor(rows, i) + (if r.inode == i then [r.extent] else [])
  {
    assert (rows + [r])[..|rows|] == rows;
  }

  lemma {:induction false} DeletedRowsAreGone(rows: seq<ExtentRow>, i: Inode, j: Inode)
    ensures RowsFor(Without(rows, i), j) == if j == i then [] else RowsFor(rows, j)
  {
    if rows != [] {
      var n := |rows| - 1;
      DeletedRowsAreGone(rows[..n], i, j);
      if rows[n].inode == i {
        assert Without(rows, i) == Without(rows[..n], i);
      } else {
        RowsForSnoc(Without(rows[..n], i), rows[n], j);
      }
    }
  }

  lemma {:induction false} DeletingAddsNoRows(rows: seq<ExtentRow>, i: Inode)
    ensures forall r :: r in Without(rows, i) ==> r in rows
  {
    if rows != [] {
      DeletingAddsNoRows(rows[..|rows| - 1], i);
    }
  }

  lemma {:induction false} NoRowsForStrangers(rows: seq<ExtentRow>, i: Inode)
    requires forall r :: r in rows ==> r.inode != i
    ensures RowsFor(rows, i) == []
  {
    if rows != [] {
      assert rows[|rows| - 1] in rows;
      NoRowsForStrangers(rows[..|rows| - 1], i);
    }
  }
}
