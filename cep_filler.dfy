/**
 * The postcode script with progress lines: create the `CEP` column when it is
 * missing, detect the coordinate columns (abort when either is missing), then
 * walk the rows, looking up every row without a postcode and writing the
 * postcode the service returns.
 */
module CepFiller {
  import opened Wrappers
  import opened Text
  import opened Tables
  import opened ReverseGeocode
  import opened Progress
  import opened ColumnDetector
  import opened RowEnrichment

  /**
   * One turn of the loop, for the `processed`-th row `i`: skip a row with a
   * postcode, skip a row whose coordinates do not parse, otherwise look it
   * up and write a non-empty postcode, counting it; then the progress line,
   * if one is due.
   */
  method VisitRow(t: Table, svc: Service, i: nat, env: Env, processed: nat, total: nat, filled: nat, verbose: bool, logEvery: int)
    returns (filled': nat, lines: seq<LogLine>)
    requires i < t.rows.Length && (verbose ==> logEvery != 0)
    requires svc.answer == env.lookup
    modifies t.rows, svc
    ensures svc.calls == old(svc.calls) + CallOf(old(t.rows[i]), env)
    ensures t.rows[i] == RowAfter(old(t.rows[i]), env, Postcodes)
    ensures forall k :: 0 <= k < t.rows.Length && k != i ==> t.rows[k] == old(t.rows[k])
    ensures filled' == filled + if Fills(old(t.rows[i]), env, Postcodes) then 1 else 0
    ensures lines == LineOf(old(t.rows[i]), env, Postcodes, processed, total, filled', verbose, logEvery)
  {
    var row := t.rows[i];
    filled', lines := filled, [];
    if !IsBlank(Cell(row, "CEP")) {
      SkippedRowUnchanged(row, env, Postcodes);
      if ProgressDue(verbose, processed, logEvery, total, false) {
        lines := [LogLine(Skip, processed, total, filled')];
      }
      return;
    }
    var lat := env.parse(Cell(row, env.latCol));
    var lon := env.parse(Cell(row, env.lonCol));
    if lat.None? || lon.None? {
      InvalidRowUnchanged(row, env, Postcodes);
      if ProgressDue(verbose, processed, logEvery, total, false) {
        lines := [LogLine(InvalidCoordinates, processed, total, filled')];
      }
      return;
    }
    var reply := svc.Lookup(lat.value, lon.value);
    assert StepOf(row, env) == Queried(reply);
    var cep := LookupPostcode(reply);
    if cep.Some? && cep.value != "" {
      t.rows[i] := t.rows[i]["CEP" := cep.value];
      filled' := filled' + 1;
    }
    if ProgressDue(verbose, processed, logEvery, total, true) {
      lines := [LogLine(LastCep(Cell(t.rows[i], "CEP")), processed, total, filled')];
    }
  }

  /**
   * The loop over `df.iterrows()`: every row ends as `RowAfter` says, and
   * `filled` and the progress lines are those of the specification.
   */
  method FillPostcodes(t: Table, svc: Service, env: Env, verbose: bool, logEvery: int) returns (filled: nat, log: seq<LogLine>)
    requires verbose ==> logEvery != 0
    requires svc.answer == env.lookup
    modifies t.rows, svc
    ensures svc.calls == old(svc.calls) + Calls(old(t.rows[..]), env)
    ensures t.rows[..] == RowsAfter(old(t.rows[..]), env, Postcodes)
    ensures filled == FilledCount(old(t.rows[..]), env, Postcodes)
    ensures log == ProgressLog(old(t.rows[..]), env, Postcodes, t.rows.Length, verbose, logEvery)
  {
    ghost var orig := t.rows[..];
    ghost var calls := svc.calls;
    var total := t.rows.Length;
    filled, log := 0, [];
    var processed := 0;
    for i := 0 to t.rows.Length
      invariant processed == i
      invariant forall k :: 0 <= k < i ==> t.rows[k] == RowAfter(orig[k], env, Postcodes)
      invariant forall k :: i <= k < t.rows.Length ==> t.rows[k] == orig[k]
      invariant filled == FilledCount(orig[..i], env, Postcodes)
      invariant log == ProgressLog(orig[..i], env, Postcodes, total, verbose, logEvery)
      invariant svc.calls == calls + Calls(orig[..i], env)
    {
      processed := processed + 1;
      PassStep(orig, i, env, Postcodes, total, verbose, logEvery);
      var lines;
      filled, lines := VisitRow(t, svc, i, env, processed, total, filled, verbose, logEvery);
      log := log + lines;
    }
    assert orig[..t.rows.Length] == orig;
    assert t.rows[..] == RowsAfter(orig, env, Postcodes);
  }

  /**
   * `if "CEP" not in df.columns: df["CEP"] = ""` is `ensure_columns` with the
   * one name `CEP`.
   */
  method AddCepColumn(t: Table)
    modifies t, t.rows
    ensures t.columns == WithColumns(old(t.columns), ["CEP"])
    ensures t.rows[..] == Prepared(old(t.rows[..]), old(t.columns), ["CEP"])
    ensures old(t.Valid()) ==> t.Valid()
  {
    ghost var was := t.rows[..];
    t.EnsureColumn("CEP");
    assert t.rows[..] == Prepared(was, old(t.columns), ["CEP"]);
  }

  /** Creating the `CEP` column first does not change what the detection finds. */
  lemma CepColumnKeepsResolution(cols: seq<string>)
    ensures ResolveLatLon(WithColumns(cols, ["CEP"])) == ResolveLatLon(cols)
  {
    assert ["CEP"][..0] == [];
    if "CEP" !in cols {
      CepColumnDoesNotDisturbDetection(cols);
    }
  }

  /**
   * `main` from the creation of `CEP` to the end of the loop: the column is
   * created in every case; without both coordinate columns the run stops
   * there; otherwise every row is looked up as the specification says. A
   * table whose rows all have its columns keeps that shape.
   */
  method Run(t: Table, parse: string -> Option<real>, svc: Service, verbose: bool, logEvery: int)
    returns (outcome: Outcome)
    requires verbose ==> logEvery != 0
    modifies t, t.rows, svc
    ensures outcome.Aborted? <==> ResolveLatLon(old(t.columns)).Abort?
    ensures t.columns == WithColumns(old(t.columns), ["CEP"])
    ensures outcome.Aborted? ==>
              t.rows[..] == Prepared(old(t.rows[..]), old(t.columns), ["CEP"]) && svc.calls == old(svc.calls)
    ensures outcome.Completed? ==>
              var env := EnvOf(old(t.columns), parse, svc.answer);
              var before := Prepared(old(t.rows[..]), old(t.columns), ["CEP"]);
              && outcome.total == t.rows.Length
              && outcome.filled == FilledCount(before, env, Postcodes)
              && outcome.log == ProgressLog(before, env, Postcodes, t.rows.Length, verbose, logEvery)
              && svc.calls == old(svc.calls) + Calls(before, env)
              && t.rows[..] == RowsAfter(before, env, Postcodes)
    ensures old(t.Valid()) ==> t.Valid()
  {
    ghost var columns := t.columns;
    AddCepColumn(t);
    ghost var before := t.rows[..];
    CepColumnKeepsResolution(columns);
    var found := ResolveLatLon(t.columns);
    if found.Abort? {
      return Aborted;
    }
    ghost var env := EnvOf(columns, parse, svc.answer);
    ghost var valid := t.Valid();
    var filled, log := FillPostcodes(t, svc, Env(found.lat, found.lon, parse, svc.answer), verbose, logEvery);
    outcome := Completed(filled, t.rows.Length, log);
    if valid {
      WithColumnsNames(columns, ["CEP"]);
      InNames(["CEP"], "CEP");
      RowsKeepColumns(before, env, Postcodes, t.columns);
    }
  }
}
