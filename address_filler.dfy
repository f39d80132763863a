/**
 * The five-field enrichment script: detect the coordinate columns (abort when
 * either is missing), create the five address columns, then walk the rows,
 * looking up every row without a postcode and merging the reply into it.
 */
module AddressFiller {
  import opened Wrappers
  import opened Text
  import opened Tables
  import opened ReverseGeocode
  import opened Progress
  import opened ColumnDetector
  import opened RowEnrichment

  /**
   * `for k, v in info.items(): if v and str(row.get(k, '')).strip() == '':
   * df.at[idx, k] = v`: the test reads the copy `row`, the write goes to the
   * table.
   */
  method MergeInto(t: Table, i: nat, row: Row, info: map<string, string>)
    requires i < t.rows.Length && t.rows[i] == row
    modifies t.rows
    ensures t.rows[i] == Merge(row, info, FieldNames)
    ensures forall k :: 0 <= k < t.rows.Length && k != i ==> t.rows[k] == old(t.rows[k])
  {
    for j := 0 to |FieldNames|
      invariant t.rows[i] == Merge(row, info, FieldNames[..j])
      invariant forall k :: 0 <= k < t.rows.Length && k != i ==> t.rows[k] == old(t.rows[k])
    {
      var key := FieldNames[j];
      assert FieldNames[..j + 1][..j] == FieldNames[..j];
      if key in info && info[key] != "" && IsBlank(Cell(row, key)) {
        t.rows[i] := t.rows[i][key := info[key]];
      }
    }
    assert FieldNames[..|FieldNames|] == FieldNames;
  }

  /**
   * One turn of the loop, for the `processed`-th row `i`: skip a row with a
   * postcode, skip a row whose coordinates do not parse, otherwise look it
   * up, merge the reply and count it when the reply has a postcode; then
   * the progress line, if one is due.
   */
  method VisitRow(t: Table, svc: Service, i: nat, env: Env, processed: nat, total: nat, filled: nat, verbose: bool, logEvery: int)
    returns (filled': nat, lines: seq<LogLine>)
    requires i < t.rows.Length && (verbose ==> logEvery != 0)
    requires svc.answer == env.lookup
    modifies t.rows, svc
    ensures svc.calls == old(svc.calls) + CallOf(old(t.rows[i]), env)
    ensures t.rows[i] == RowAfter(old(t.rows[i]), env, Addresses)
    ensures forall k :: 0 <= k < t.rows.Length && k != i ==> t.rows[k] == old(t.rows[k])
    ensures filled' == filled + if Fills(old(t.rows[i]), env, Addresses) then 1 else 0
    ensures lines == LineOf(old(t.rows[i]), env, Addresses, processed, total, filled', verbose, logEvery)
  {
    var row := t.rows[i];
    filled', lines := filled, [];
    if !IsBlank(Cell(row, "CEP")) {
      SkippedRowUnchanged(row, env, Addresses);
      if ProgressDue(verbose, processed, logEvery, total, false) {
        lines := [LogLine(Skip, processed, total, filled')];
      }
      return;
    }
    var lat := env.parse(Cell(row, env.latCol));
    var lon := env.parse(Cell(row, env.lonCol));
    if lat.None? || lon.None? {
      InvalidRowUnchanged(row, env, Addresses);
      if ProgressDue(verbose, processed, logEvery, total, false) {
        lines := [LogLine(InvalidCoordinates, processed, total, filled')];
      }
      return;
    }
    var reply := svc.Lookup(lat.value, lon.value);
    assert StepOf(row, env) == Queried(reply);
    var info := LookupFields(reply);
    if info.Some? {
      MergeInto(t, i, row, info.value);
      if info.value["CEP"] != "" {
        filled' := filled' + 1;
      }
    }
    if ProgressDue(verbose, processed, logEvery, total, true) {
      lines := [LogLine(LastCep(Cell(t.rows[i], "CEP")), processed, total, filled')];
    }
  }

  /**
   * The loop over `df.iterrows()`: every row ends as `RowAfter` says, and
   * `filled` and the progress lines are those of the specification.
   */
  method FillAddresses(t: Table, svc: Service, env: Env, verbose: bool, logEvery: int) returns (filled: nat, log: seq<LogLine>)
    requires verbose ==> logEvery != 0
    requires svc.answer == env.lookup
    modifies t.rows, svc
    ensures svc.calls == old(svc.calls) + Calls(old(t.rows[..]), env)
    ensures t.rows[..] == RowsAfter(old(t.rows[..]), env, Addresses)
    ensures filled == FilledCount(old(t.rows[..]), env, Addresses)
    ensures log == ProgressLog(old(t.rows[..]), env, Addresses, t.rows.Length, verbose, logEvery)
  {
    ghost var orig := t.rows[..];
    ghost var calls := svc.calls;
    var total := t.rows.Length;
    filled, log := 0, [];
    var processed := 0;
    for i := 0 to t.rows.Length
      invariant processed == i
      invariant forall k :: 0 <= k < i ==> t.rows[k] == RowAfter(orig[k], env, Addresses)
      invariant forall k :: i <= k < t.rows.Length ==> t.rows[k] == orig[k]
      invariant filled == FilledCount(orig[..i], env, Addresses)
      invariant log == ProgressLog(orig[..i], env, Addresses, total, verbose, logEvery)
      invariant svc.calls == calls + Calls(orig[..i], env)
    {
      processed := processed + 1;
      PassStep(orig, i, env, Addresses, total, verbose, logEvery);
      var lines;
      filled, lines := VisitRow(t, svc, i, env, processed, total, filled, verbose, logEvery);
      log := log + lines;
    }
    assert orig[..t.rows.Length] == orig;
    assert t.rows[..] == RowsAfter(orig, env, Addresses);
  }

  /**
   * `main` from the detection to the end of the loop: without both
   * coordinate columns nothing changes and the run stops; otherwise the five
   * columns are ensured and every row is enriched. A table whose rows all
   * have its columns keeps that shape.
   */
  method Run(t: Table, parse: string -> Option<real>, svc: Service, verbose: bool, logEvery: int)
    returns (outcome: Outcome)
    requires verbose ==> logEvery != 0
    modifies t, t.rows, svc
    ensures outcome.Aborted? <==> ResolveLatLon(old(t.columns)).Abort?
    ensures outcome.Aborted? ==> t.columns == old(t.columns) && t.rows[..] == old(t.rows[..]) && svc.calls == old(svc.calls)
    ensures outcome.Completed? ==> t.columns == WithColumns(old(t.columns), FieldNames)
    ensures outcome.Completed? ==>
              var env := EnvOf(old(t.columns), parse, svc.answer);
              var before := Prepared(old(t.rows[..]), old(t.columns), FieldNames);
              && outcome.total == t.rows.Length
              && outcome.filled == FilledCount(before, env, Addresses)
              && outcome.log == ProgressLog(before, env, Addresses, t.rows.Length, verbose, logEvery)
              && svc.calls == old(svc.calls) + Calls(before, env)
              && t.rows[..] == RowsAfter(before, env, Addresses)
    ensures old(t.Valid()) ==> t.Valid()
  {
    var found := ResolveLatLon(t.columns);
    if found.Abort? {
      return Aborted;
    }
    ghost var columns := t.columns;
    ghost var env := EnvOf(columns, parse, svc.answer);
    t.EnsureColumns(FieldNames);
    ghost var before := t.rows[..];
    assert before == Prepared(old(t.rows[..]), columns, FieldNames);
    ghost var valid := t.Valid();
    var filled, log := FillAddresses(t, svc, Env(found.lat, found.lon, parse, svc.answer), verbose, logEvery);
    outcome := Completed(filled, t.rows.Length, log);
    if valid {
      WithColumnsNames(columns, FieldNames);
      InNames(FieldNames, "CEP");
      RowsKeepColumns(before, env, Addresses, t.columns);
    }
  }
}
