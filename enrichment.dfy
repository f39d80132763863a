/**
 * What one pass of the enrichment loop does to each row, shared by the three
 * scripts: a row whose `CEP` is already filled is skipped, a row whose
 * coordinates do not parse is skipped, any other row is looked up and the
 * reply is merged into it. The five-field script merges five address columns;
 * the postcode scripts write `CEP` alone.
 *
 * The functions here specify the loops of the scripts (modules
 * AddressFiller, CepFiller and CepFillerMinimal), which are proved to compute
 * them.
 */
module RowEnrichment {
  import opened Wrappers
  import opened Text
  import opened Tables
  import opened ReverseGeocode
  import opened Progress
  import opened ColumnDetector

  /**
   * What a run depends on besides the table: the detected coordinate columns,
   * `float()` on a cell (`None` when it raises), and the geocoding service,
   * as a function of the coordinate pair.
   */
  datatype Env = Env(latCol: string, lonCol: string, parse: string -> Option<real>, lookup: (real, real) -> Reply)

  /** Which script's merge applies: five address fields, or the postcode alone. */
  datatype Mode = Addresses | Postcodes

  /** `str(row.get("CEP", "")).strip()` is true: the row already has a postcode. */
  predicate HasCep(row: Row)
  {
    !IsBlank(Cell(row, "CEP"))
  }

  /** `float(row[lat_col])`, then `float(row[lon_col])`; `None` when either raises. */
  function Coordinates(row: Row, env: Env): Option<(real, real)>
  {
    var lat := env.parse(Cell(row, env.latCol));
    var lon := env.parse(Cell(row, env.lonCol));
    if lat.None? || lon.None? then None else Some((lat.value, lon.value))
  }

  /** The branch of the loop a row takes. */
  datatype Step = Skipped | Invalid | Queried(reply: Reply)

  function StepOf(row: Row, env: Env): Step
  {
    if HasCep(row) then Skipped
    else match Coordinates(row, env)
      case None => Invalid
      case Some((lat, lon)) => Queried(env.lookup(lat, lon))
  }

  /** The merge writes `info[k]` into column `k`: a non-empty value over a blank cell. */
  predicate Writes(row: Row, info: map<string, string>, k: string)
  {
    k in info && info[k] != "" && IsBlank(Cell(row, k))
  }

  /**
   * `for k, v in info.items(): if v and str(row.get(k, '')).strip() == '':
   * df.at[idx, k] = v`, over the keys `keys` in order. The test reads the row
   * as it was before the merge (`row` is a copy taken by `iterrows`).
   */
  function Merge(row: Row, info: map<string, string>, keys: seq<string>): Row
  {
    if keys == [] then row
    else
      var r := Merge(row, info, keys[..|keys| - 1]);
      var k := keys[|keys| - 1];
      if Writes(row, info, k) then r[k := info[k]] else r
  }

  /** The row after its turn in the loop. */
  function RowAfter(row: Row, env: Env, mode: Mode): Row
  {
    match StepOf(row, env)
    case Queried(reply) =>
      if mode == Addresses then
        (match LookupFields(reply)
         case Some(info) => Merge(row, info, FieldNames)
         case None => row)
      else
        (match LookupPostcode(reply)
         case Some(p) => if p != "" then row["CEP" := p] else row
         case None => row)
    case _ => row
  }

  /** Every row of the frame after the whole loop. */
  function RowsAfter(rows: seq<Row>, env: Env, mode: Mode): (r: seq<Row>)
    ensures |r| == |rows|
  {
    seq(|rows|, i requires 0 <= i < |rows| => RowAfter(rows[i], env, mode))
  }

  /** `filled += 1` runs for this row: the lookup succeeded with a non-empty postcode. */
  predicate Fills(row: Row, env: Env, mode: Mode)
  {
    match StepOf(row, env)
    case Queried(reply) =>
      if mode == Addresses then
        LookupFields(reply).Some? && LookupFields(reply).value["CEP"] != ""
      else
        LookupPostcode(reply).Some? && LookupPostcode(reply).value != ""
    case _ => false
  }

  /** `filled` after the rows `rows`. */
  function FilledCount(rows: seq<Row>, env: Env, mode: Mode): (n: nat)
    ensures n <= |rows|
  {
    if rows == [] then 0
    else FilledCount(rows[..|rows| - 1], env, mode) + (if Fills(rows[|rows| - 1], env, mode) then 1 else 0)
  }

  /** The positions of the rows for which the service was called, in order. */
  function QueriedRows(rows: seq<Row>, env: Env): (q: seq<nat>)
    ensures |q| <= |rows|
  {
    if rows == [] then []
    else
      var q := QueriedRows(rows[..|rows| - 1], env);
      if StepOf(rows[|rows| - 1], env).Queried? then q + [|rows| - 1] else q
  }

  /** The coordinates sent to the service for this row: one pair if it is looked up, none otherwise. */
  function CallOf(row: Row, env: Env): (c: seq<(real, real)>)
    ensures |c| <= 1
    ensures |c| == 1 <==> StepOf(row, env).Queried?
  {
    if HasCep(row) then []
    else match Coordinates(row, env)
      case None => []
      case Some(c) => [c]
  }

  /** The coordinates sent to the service while processing `rows`, in order. */
  function Calls(rows: seq<Row>, env: Env): (c: seq<(real, real)>)
    ensures |c| <= |rows|
  {
    if rows == [] then [] else Calls(rows[..|rows| - 1], env) + CallOf(rows[|rows| - 1], env)
  }

  /**
   * The progress line, if any, printed for the `n`-th row, with `filled` the
   * count after that row.
   */
  function LineOf(row: Row, env: Env, mode: Mode, n: nat, total: nat, filled: nat, verbose: bool, logEvery: int): (r: seq<LogLine>)
    requires verbose ==> logEvery != 0
    ensures |r| <= 1
    ensures forall l <- r :: l.processed == n && l.total == total && l.filled == filled
  {
    match StepOf(row, env)
    case Skipped =>
      if ProgressDue(verbose, n, logEvery, total, false) then [LogLine(Skip, n, total, filled)] else []
    case Invalid =>
      if ProgressDue(verbose, n, logEvery, total, false) then [LogLine(InvalidCoordinates, n, total, filled)] else []
    case Queried(_) =>
      if ProgressDue(verbose, n, logEvery, total, true)
      then [LogLine(LastCep(Cell(RowAfter(row, env, mode), "CEP")), n, total, filled)]
      else []
  }

  /** The progress lines printed while processing `rows`, out of `total` rows. */
  function ProgressLog(rows: seq<Row>, env: Env, mode: Mode, total: nat, verbose: bool, logEvery: int): seq<LogLine>
    requires verbose ==> logEvery != 0
  {
    if rows == [] then []
    else
      ProgressLog(rows[..|rows| - 1], env, mode, total, verbose, logEvery)
      + LineOf(rows[|rows| - 1], env, mode, |rows|, total, FilledCount(rows, env, mode), verbose, logEvery)
  }

  /**
   * One more row of the pass: `filled` grows by at most one, the service is
   * called at most once, and at most one progress line is printed, which
   * carries the row's number, the total and the updated `filled`.
   */
  lemma PassStep(s: seq<Row>, i: nat, env: Env, mode: Mode, total: nat, verbose: bool, logEvery: int)
    requires i < |s| && (verbose ==> logEvery != 0)
    ensures FilledCount(s[..i + 1], env, mode) ==
              FilledCount(s[..i], env, mode) + if Fills(s[i], env, mode) then 1 else 0
    ensures Calls(s[..i + 1], env) == Calls(s[..i], env) + CallOf(s[i], env)
    ensures |CallOf(s[i], env)| <= 1
    ensures ProgressLog(s[..i + 1], env, mode, total, verbose, logEvery) ==
              ProgressLog(s[..i], env, mode, total, verbose, logEvery)
              + LineOf(s[i], env, mode, i + 1, total, FilledCount(s[..i + 1], env, mode), verbose, logEvery)
    ensures var lines := LineOf(s[i], env, mode, i + 1, total, FilledCount(s[..i + 1], env, mode), verbose, logEvery);
            && |lines| <= 1
            && forall l <- lines :: l.processed == i + 1 && l.total == total && l.filled == FilledCount(s[..i + 1], env, mode)
  {
    var p := s[..i + 1];
    assert |p| == i + 1 && p[..i] == s[..i] && p[i] == s[i];
  }

  /** How a run ends: stopped for want of coordinate columns, or with the counters and the progress lines. */
  datatype Outcome = Aborted | Completed(filled: nat, total: nat, log: seq<LogLine>)

  /** The rows of a table with columns `columns` after `ensure_columns(df, cols)`. */
  function Prepared(rows: seq<Row>, columns: seq<string>, cols: seq<string>): (r: seq<Row>)
    ensures |r| == |rows|
  {
    seq(|rows|, i requires 0 <= i < |rows| => Extended(rows[i], Names(cols) - Names(columns)))
  }

  /** The environment of a run whose coordinate columns were found. */
  function EnvOf(columns: seq<string>, parse: string -> Option<real>, lookup: (real, real) -> Reply): Env
    requires ResolveLatLon(columns).Found?
  {
    Env(ResolveLatLon(columns).lat, ResolveLatLon(columns).lon, parse, lookup)
  }

  // ---------------------------------------------------------------------------
  // One row

  /** A row with a postcode is left exactly as it is, is not looked up and does not count. */
  lemma SkippedRowUnchanged(row: Row, env: Env, mode: Mode)
    requires HasCep(row)
    ensures StepOf(row, env) == Skipped
    ensures RowAfter(row, env, mode) == row && !Fills(row, env, mode)
  {
  }

  /** So is a row whose coordinates do not parse. */
  lemma InvalidRowUnchanged(row: Row, env: Env, mode: Mode)
    requires !HasCep(row) && Coordinates(row, env).None?
    ensures StepOf(row, env) == Invalid
    ensures RowAfter(row, env, mode) == row && !Fills(row, env, mode)
  {
  }

  /**
   * A lookup that raises leaves the row unchanged and uncounted: an HTTP
   * error, any other failure of the request, or a reply the script cannot
   * read (`.get` on a value that is not a dictionary).
   */
  lemma FailedLookupUnchanged(row: Row, env: Env, mode: Mode)
    requires StepOf(row, env).Queried?
    requires mode == Addresses ==> LookupFields(StepOf(row, env).reply).None?
    requires mode == Postcodes ==> LookupPostcode(StepOf(row, env).reply).None?
    ensures RowAfter(row, env, mode) == row && !Fills(row, env, mode)
  {
  }

  /**
   * The merge is cell by cell: a cell takes the returned value exactly when
   * its column is one of the merged keys, the value is non-empty and the cell
   * was blank; every other cell keeps its value (or stays absent).
   */
  lemma {:induction false} MergeCells(row: Row, info: map<string, string>, keys: seq<string>, k: string)
    ensures k in Merge(row, info, keys) <==> k in row || (k in keys && Writes(row, info, k))
    ensures k in Merge(row, info, keys) ==>
              Merge(row, info, keys)[k] == if k in keys && Writes(row, info, k) then info[k] else row[k]
  {
    if keys != [] {
      MergeCells(row, info, keys[..|keys| - 1], k);
      assert keys == keys[..|keys| - 1] + [keys[|keys| - 1]];
    }
  }

  /** A non-blank cell is never overwritten, whatever the reply. */
  lemma NeverOverwrites(row: Row, env: Env, mode: Mode, k: string)
    requires !IsBlank(Cell(row, k))
    ensures Cell(RowAfter(row, env, mode), k) == Cell(row, k)
  {
    if StepOf(row, env).Queried? && mode == Addresses && LookupFields(StepOf(row, env).reply).Some? {
      MergeCells(row, LookupFields(StepOf(row, env).reply).value, FieldNames, k);
    }
  }

  /** Only the five address columns can change, and the postcode scripts change `CEP` only. */
  lemma OnlyOutputColumnsChange(row: Row, env: Env, mode: Mode, k: string)
    requires k !in FieldNames || (mode == Postcodes && k != "CEP")
    ensures Cell(RowAfter(row, env, mode), k) == Cell(row, k)
  {
    if StepOf(row, env).Queried? && mode == Addresses && LookupFields(StepOf(row, env).reply).Some? {
      MergeCells(row, LookupFields(StepOf(row, env).reply).value, FieldNames, k);
    }
  }

  /**
   * A row that has the columns the script writes (`CEP`, and for the
   * five-field script all five) has the same columns afterwards.
   */
  lemma ColumnsKept(row: Row, env: Env, mode: Mode)
    requires "CEP" in row
    requires mode == Addresses ==> forall k :: k in FieldNames ==> k in row
    ensures RowAfter(row, env, mode).Keys == row.Keys
  {
    if StepOf(row, env).Queried? && mode == Addresses && LookupFields(StepOf(row, env).reply).Some? {
      var info := LookupFields(StepOf(row, env).reply).value;
      forall k ensures k in Merge(row, info, FieldNames) <==> k in row {
        MergeCells(row, info, FieldNames, k);
      }
    }
  }

  /** Rows that all have the table's columns, among them the written ones, still do afterwards. */
  lemma RowsKeepColumns(rows: seq<Row>, env: Env, mode: Mode, columns: seq<string>)
    requires Shaped(rows, columns)
    requires "CEP" in Names(columns)
    requires mode == Addresses ==> Names(FieldNames) <= Names(columns)
    ensures Shaped(RowsAfter(rows, env, mode), columns)
  {
    forall i | 0 <= i < |rows| ensures RowAfter(rows[i], env, mode).Keys == Names(columns) {
      if mode == Addresses {
        assert forall k :: k in FieldNames ==> k in Names(FieldNames);
      }
      ColumnsKept(rows[i], env, mode);
    }
  }

  /**
   * `filled` counts exactly the rows whose blank `CEP` cell was written with a
   * non-empty postcode; in every other row the `CEP` cell keeps its value.
   */
  lemma FilledMeansCepWritten(row: Row, env: Env, mode: Mode)
    ensures Fills(row, env, mode) ==>
              IsBlank(Cell(row, "CEP")) && Cell(RowAfter(row, env, mode), "CEP") != ""
    ensures !Fills(row, env, mode) ==> Cell(RowAfter(row, env, mode), "CEP") == Cell(row, "CEP")
  {
    if StepOf(row, env).Queried? && mode == Addresses && LookupFields(StepOf(row, env).reply).Some? {
      MergeCells(row, LookupFields(StepOf(row, env).reply).value, FieldNames, "CEP");
    }
  }

  /** With an empty `CEP` cell, as `ensure_columns` creates it, `filled` counts exactly the changed cells. */
  lemma FilledIffCepChanged(row: Row, env: Env, mode: Mode)
    requires Cell(row, "CEP") == ""
    ensures Fills(row, env, mode) <==> Cell(RowAfter(row, env, mode), "CEP") != Cell(row, "CEP")
  {
    FilledMeansCepWritten(row, env, mode);
  }

  /** The five-field script and the postcode scripts write the same `CEP` and count the same rows. */
  lemma ModesAgreeOnCep(row: Row, env: Env)
    ensures Fills(row, env, Addresses) == Fills(row, env, Postcodes)
    ensures Cell(RowAfter(row, env, Addresses), "CEP") == Cell(RowAfter(row, env, Postcodes), "CEP")
  {
    FilledMeansCepWritten(row, env, Addresses);
    FilledMeansCepWritten(row, env, Postcodes);
    if StepOf(row, env).Queried? && StepOf(row, env).reply.Response? {
      var js := StepOf(row, env).reply.body;
      PostcodeAgrees(js);
      if LookupFields(StepOf(row, env).reply).Some? {
        MergeCells(row, LookupFields(StepOf(row, env).reply).value, FieldNames, "CEP");
      }
    }
  }

  // ---------------------------------------------------------------------------
  // The whole pass

  /** At most one lookup per row, and at most one filled row per lookup: `filled <= lookups <= processed`. */
  lemma {:induction false} FilledAtMostQueried(rows: seq<Row>, env: Env, mode: Mode)
    ensures FilledCount(rows, env, mode) <= |Calls(rows, env)| <= |rows|
  {
    if rows != [] {
      FilledAtMostQueried(rows[..|rows| - 1], env, mode);
    }
  }

  /**
   * The calls to the service are those of the looked-up rows, in the same
   * order: the `j`-th call sends the coordinates of the `j`-th looked-up row.
   */
  lemma {:induction false} CallsOfQueriedRows(rows: seq<Row>, env: Env)
    ensures |Calls(rows, env)| == |QueriedRows(rows, env)|
    ensures forall j :: 0 <= j < |Calls(rows, env)| ==>
              QueriedRows(rows, env)[j] < |rows| && Coordinates(rows[QueriedRows(rows, env)[j]], env) == Some(Calls(rows, env)[j])
  {
    if rows != [] {
      var n := |rows|;
      var init := rows[..n - 1];
      CallsOfQueriedRows(init, env);
      var c, q := Calls(init, env), QueriedRows(init, env);
      var cs, qs := Calls(rows, env), QueriedRows(rows, env);
      var last := rows[n - 1];
      if StepOf(last, env).Queried? {
        assert CallOf(last, env) == [Coordinates(last, env).value];
        assert cs == c + [Coordinates(last, env).value] && qs == q + [n - 1];
      } else {
        assert cs == c && qs == q;
      }
      forall j | 0 <= j < |cs| ensures qs[j] < n && Coordinates(rows[qs[j]], env) == Some(cs[j]) {
        if j < |c| {
          assert cs[j] == c[j] && qs[j] == q[j];
          assert rows[q[j]] == init[q[j]];
        }
      }
    }
  }

  /** Positions in strictly increasing order. */
  predicate Increasing(q: seq<nat>)
  {
    forall j, k :: 0 <= j < k < |q| ==> q[j] < q[k]
  }

  /** Every looked-up position is a row without a postcode and with valid coordinates. */
  predicate AllEligible(q: seq<nat>, rows: seq<Row>, env: Env)
  {
    forall j :: 0 <= j < |q| ==> q[j] < |rows| && StepOf(rows[q[j]], env).Queried?
  }

  /** Only rows without a postcode and with valid coordinates are looked up, in table order. */
  lemma {:induction false} QueriedRowsAreEligible(rows: seq<Row>, env: Env)
    ensures AllEligible(QueriedRows(rows, env), rows, env)
    ensures Increasing(QueriedRows(rows, env))
  {
    if rows != [] {
      var n := |rows|;
      var init := rows[..n - 1];
      QueriedRowsAreEligible(init, env);
      var q := QueriedRows(init, env);
      forall j | 0 <= j < |q| ensures q[j] < n - 1 && StepOf(rows[q[j]], env).Queried? {
        assert rows[q[j]] == init[q[j]];
      }
      if StepOf(rows[n - 1], env).Queried? {
        var q' := q + [n - 1];
        assert QueriedRows(rows, env) == q';
        forall j | 0 <= j < |q'| ensures q'[j] < n && StepOf(rows[q'[j]], env).Queried? {
          if j < |q| { assert q'[j] == q[j]; }
        }
        forall j, k | 0 <= j < k < |q'| ensures q'[j] < q'[k] {
          assert q'[j] == q[j];
        }
      }
    }
  }

  /** A table whose rows all have a postcode is a fixed point: no lookups, nothing filled, only skip lines. */
  lemma {:induction false} AllFilledIsFixedPoint(rows: seq<Row>, env: Env, mode: Mode, total: nat, verbose: bool, logEvery: int)
    requires verbose ==> logEvery != 0
    requires forall i :: 0 <= i < |rows| ==> HasCep(rows[i])
    ensures FilledCount(rows, env, mode) == 0 && Calls(rows, env) == []
    ensures forall i :: 0 <= i < |rows| ==> RowAfter(rows[i], env, mode) == rows[i]
    ensures forall j :: 0 <= j < |ProgressLog(rows, env, mode, total, verbose, logEvery)| ==>
              ProgressLog(rows, env, mode, total, verbose, logEvery)[j].event == Skip
  {
    forall i | 0 <= i < |rows| ensures RowAfter(rows[i], env, mode) == rows[i] {
      SkippedRowUnchanged(rows[i], env, mode);
    }
    if rows != [] {
      var init := rows[..|rows| - 1];
      assert forall i :: 0 <= i < |init| ==> init[i] == rows[i];
      AllFilledIsFixedPoint(init, env, mode, total, verbose, logEvery);
      SkippedRowUnchanged(rows[|rows| - 1], env, mode);
    }
  }

  /** Without `--verbose` nothing is printed. */
  lemma {:induction false} QuietLog(rows: seq<Row>, env: Env, mode: Mode, total: nat, logEvery: int)
    ensures ProgressLog(rows, env, mode, total, false, logEvery) == []
  {
    if rows != [] {
      QuietLog(rows[..|rows| - 1], env, mode, total, logEvery);
    }
  }

  /** A progress line reports a row already processed, out of `total`, with `filled` up to that row. */
  predicate Reports(line: LogLine, rows: seq<Row>, env: Env, mode: Mode, total: nat)
  {
    && 1 <= line.processed <= |rows|
    && line.total == total
    && line.filled == FilledCount(rows[..line.processed], env, mode)
  }

  /** Rows beyond the reported ones do not change what a line reports. */
  lemma ReportsExtend(line: LogLine, rows: seq<Row>, env: Env, mode: Mode, total: nat)
    requires |rows| > 0 && Reports(line, rows[..|rows| - 1], env, mode, total)
    ensures Reports(line, rows, env, mode, total)
  {
    assert rows[..|rows| - 1][..line.processed] == rows[..line.processed];
  }

  /** The lines come in row order. */
  predicate InRowOrder(log: seq<LogLine>)
  {
    forall j, k :: 0 <= j < k < |log| ==> log[j].processed < log[k].processed
  }

  /**
   * Every progress line reports a row already processed, with the `filled`
   * count up to that row, and the lines come in row order.
   */
  lemma {:induction false} LogLinesConsistent(rows: seq<Row>, env: Env, mode: Mode, total: nat, verbose: bool, logEvery: int)
    requires verbose ==> logEvery != 0
    ensures forall j :: 0 <= j < |ProgressLog(rows, env, mode, total, verbose, logEvery)| ==>
              Reports(ProgressLog(rows, env, mode, total, verbose, logEvery)[j], rows, env, mode, total)
    ensures InRowOrder(ProgressLog(rows, env, mode, total, verbose, logEvery))
  {
    if rows != [] {
      var init := rows[..|rows| - 1];
      LogLinesConsistent(init, env, mode, total, verbose, logEvery);
      var prev := ProgressLog(init, env, mode, total, verbose, logEvery);
      var log := ProgressLog(rows, env, mode, total, verbose, logEvery);
      forall j | 0 <= j < |prev| ensures Reports(prev[j], rows, env, mode, total) && prev[j].processed < |rows| {
        ReportsExtend(prev[j], rows, env, mode, total);
      }
      assert rows[..|rows|] == rows;
      assert log == prev || (|log| == |prev| + 1 && log[..|prev|] == prev && log[|prev|].processed == |rows|);
      forall j | 0 <= j < |log| ensures Reports(log[j], rows, env, mode, total) {
        if j < |prev| {
          assert log[j] == prev[j];
        }
      }
    }
  }
}
