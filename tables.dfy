/**
 * The data frame the scripts read from CSV, reduced to what they use: an
 * ordered list of column names and a fixed number of rows, each row a map
 * from column name to the cell's text. Cells are strings throughout; the
 * type inference of the CSV reader (empty cells read as NaN) is not modelled.
 */
module Tables {

  type Row = map<string, string>

  /**
   * `row.get(k, "")` on a row, and `addr.get(k)` on an address object: a
   * missing key reads as the empty string (both are false in an `or` chain).
   */
  function Cell(row: Row, k: string): string
  {
    if k in row then row[k] else ""
  }

  function Names(cols: seq<string>): set<string>
  {
    set c | c in cols
  }

  /**
   * The column list after `for c in cols: if c not in df.columns: df[c] = ""`:
   * each missing name is appended, in the order of `cols`.
   */
  function WithColumns(columns: seq<string>, cols: seq<string>): seq<string>
  {
    if cols == [] then columns
    else
      var w := WithColumns(columns, cols[..|cols| - 1]);
      if cols[|cols| - 1] in w then w else w + [cols[|cols| - 1]]
  }

  /** A row after the columns in `added` were created: each holds `""`, the rest is kept. */
  function Extended(row: Row, added: set<string>): (r: Row)
    ensures r.Keys == row.Keys + added
  {
    map k | k in row.Keys + added :: if k in added then "" else row[k]
  }

  /** Every row has exactly the columns `columns`, as the rows of a data frame do. */
  predicate Shaped(rows: seq<Row>, columns: seq<string>)
  {
    forall i :: 0 <= i < |rows| ==> rows[i].Keys == Names(columns)
  }

  class Table {
    var columns: seq<string>
    const rows: array<Row>

    /** Every row has exactly the table's columns. */
    predicate Valid()
      reads this, rows
    {
      Shaped(rows[..], columns)
    }

    constructor (columns: seq<string>, contents: seq<Row>)
      ensures this.columns == columns
      ensures rows[..] == contents && fresh(rows)
      ensures Valid() <==> Shaped(contents, columns)
    {
      this.columns := columns;
      rows := new Row[|contents|](i requires 0 <= i < |contents| => contents[i]);
    }

    /** `df[c] = ""` for a new column `c`: appended to the columns, `""` in every row. */
    method AddColumn(c: string)
      requires c !in columns
      modifies this, rows
      ensures columns == old(columns) + [c]
      ensures forall i :: 0 <= i < rows.Length ==> rows[i] == old(rows[i])[c := ""]
      ensures old(Valid()) ==> Valid()
    {
      NamesAppend(columns, c);
      columns := columns + [c];
      for i := 0 to rows.Length
        invariant columns == old(columns) + [c]
        invariant forall k :: 0 <= k < i ==> rows[k] == old(rows[k])[c := ""]
        invariant forall k :: i <= k < rows.Length ==> rows[k] == old(rows[k])
      {
        rows[i] := rows[i][c := ""];
      }
    }

    /** One turn of `ensure_columns`: `c` is appended and filled with `""` when it is missing. */
    method EnsureColumn(c: string)
      modifies this, rows
      ensures columns == WithColumns(old(columns), [c])
      ensures forall i :: 0 <= i < rows.Length ==>
                rows[i] == Extended(old(rows[i]), Names([c]) - Names(old(columns)))
      ensures old(Valid()) ==> Valid()
    {
      assert [c][..0] == [];
      InNames([c], c);
      if c !in columns {
        assert Names([c]) - Names(columns) == {c} by {
          NamesAppend([], c);
        }
        forall i | 0 <= i < rows.Length ensures rows[i][c := ""] == Extended(rows[i], {c}) {
          ExtendedNothing(rows[i]);
          ExtendOne(rows[i], {}, c);
        }
        AddColumn(c);
      } else {
        assert c in Names(columns);
        forall i | 0 <= i < rows.Length ensures rows[i] == Extended(rows[i], {}) {
          ExtendedNothing(rows[i]);
        }
      }
    }

    /**
     * `ensure_columns(df, cols)`: every listed column that is missing is
     * appended and filled with `""` in every row; nothing else changes.
     */
    method EnsureColumns(cols: seq<string>)
      modifies this, rows
      ensures columns == WithColumns(old(columns), cols)
      ensures forall i :: 0 <= i < rows.Length ==>
                rows[i] == Extended(old(rows[i]), Names(cols) - Names(old(columns)))
      ensures old(Valid()) ==> Valid()
    {
      ghost var before := columns;
      ghost var was := rows[..];
      ghost var valid := Valid();
      for j := 0 to |cols|
        invariant columns == WithColumns(before, cols[..j])
        invariant valid ==> Valid()
        invariant forall i :: 0 <= i < rows.Length ==>
                    rows[i] == Extended(was[i], Names(cols[..j]) - Names(before))
      {
        var c := cols[j];
        ghost var added := Names(cols[..j]) - Names(before);
        ghost var missing := Names([c]) - Names(columns);
        assert cols[..j + 1] == cols[..j] + [c];
        NamesAppend(cols[..j], c);
        WithColumnsNames(before, cols[..j]);
        assert added + missing == Names(cols[..j + 1]) - Names(before) by {
          NamesAppend([], c);
        }
        forall i | 0 <= i < rows.Length
          ensures Extended(rows[i], missing) == Extended(was[i], added + missing)
        {
          ExtendTwice(was[i], added, missing);
        }
        EnsureColumn(c);
      }
      assert cols[..|cols|] == cols;
    }
  }

  /** Extending by no column leaves the row as it is. */
  lemma ExtendedNothing(row: Row)
    ensures Extended(row, {}) == row
  {
  }

  /** Extending by `a`, then by `b`, is extending by both at once. */
  lemma ExtendTwice(row: Row, a: set<string>, b: set<string>)
    ensures Extended(Extended(row, a), b) == Extended(row, a + b)
  {
  }

  /** Adding one more column to an extended row. */
  lemma ExtendOne(row: Row, added: set<string>, c: string)
    ensures Extended(row, added)[c := ""] == Extended(row, added + {c})
  {
  }

  // ---------------------------------------------------------------------------
  // Properties of `ensure_columns`

  /** The old columns keep their place, and the new names follow them. */
  lemma {:induction false} WithColumnsExtends(columns: seq<string>, cols: seq<string>)
    ensures columns <= WithColumns(columns, cols)
  {
    if cols != [] {
      WithColumnsExtends(columns, cols[..|cols| - 1]);
    }
  }

  lemma InNames(s: seq<string>, x: string)
    requires x in s
    ensures x in Names(s)
  {
  }

  lemma NamesAppend(s: seq<string>, x: string)
    ensures Names(s + [x]) == Names(s) + {x}
  {
  }

  /** Afterwards the columns are the old ones together with all the listed ones, and no others. */
  lemma {:induction false} WithColumnsNames(columns: seq<string>, cols: seq<string>)
    ensures Names(WithColumns(columns, cols)) == Names(columns) + Names(cols)
  {
    if cols != [] {
      var init := cols[..|cols| - 1];
      WithColumnsNames(columns, init);
      assert cols == init + [cols[|cols| - 1]];
      NamesAppend(init, cols[|cols| - 1]);
      NamesAppend(WithColumns(columns, init), cols[|cols| - 1]);
    }
  }

  predicate Distinct(s: seq<string>)
  {
    forall i, j :: 0 <= i < j < |s| ==> s[i] != s[j]
  }

  /** No name is listed twice afterwards when none was before. */
  lemma {:induction false} WithColumnsDistinct(columns: seq<string>, cols: seq<string>)
    requires Distinct(columns)
    ensures Distinct(WithColumns(columns, cols))
  {
    if cols != [] {
      var w, x := WithColumns(columns, cols[..|cols| - 1]), cols[|cols| - 1];
      WithColumnsDistinct(columns, cols[..|cols| - 1]);
      assert Distinct(w);
      if x !in w {
        forall i, j | 0 <= i < j < |w + [x]| ensures (w + [x])[i] != (w + [x])[j] {
          assert (w + [x])[i] == w[i];
          if j < |w| {
            assert (w + [x])[j] == w[j];
          } else {
            assert w[i] in w;
          }
        }
      }
    }
  }

  /** A column that already exists keeps every value; a created one holds `""` in every row. */
  lemma ExtendedCells(row: Row, added: set<string>, k: string)
    ensures k in added ==> Extended(row, added)[k] == ""
    ensures k !in added && k in row ==> Extended(row, added)[k] == row[k]
    ensures k !in added && k !in row ==> k !in Extended(row, added)
  {
  }

  /** Running `ensure_columns` a second time with the same names adds nothing. */
  lemma {:induction false} WithColumnsIdempotent(columns: seq<string>, cols: seq<string>)
    ensures WithColumns(WithColumns(columns, cols), cols) == WithColumns(columns, cols)
  {
    var w := WithColumns(columns, cols);
    WithColumnsNames(columns, cols);
    NoneMissing(w, cols);
  }

  lemma {:induction false} NoneMissing(columns: seq<string>, cols: seq<string>)
    requires Names(cols) <= Names(columns)
    ensures WithColumns(columns, cols) == columns
  {
    if cols != [] {
      var init := cols[..|cols| - 1];
      assert cols == init + [cols[|cols| - 1]];
      assert Names(init) <= Names(cols);
      NoneMissing(columns, init);
      assert cols[|cols| - 1] in Names(cols);
    }
  }
}
