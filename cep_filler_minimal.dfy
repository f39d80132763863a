/**
 * The first, minimal version of the postcode script: the same steps as
 * `CepFiller` without progress lines or a count of processed rows.
 */
module CepFillerMinimal {
  import opened Wrappers
  import opened Text
  import opened Tables
  import opened ReverseGeocode
  import opened ColumnDetector
  import opened RowEnrichment
  import CepFiller

  /**
   * One turn of the loop: skip a row with a postcode, skip a row whose
   * coordinates do not parse, otherwise look it up and write a non-empty
   * postcode, counting it.
   */
  method VisitRow(t: Table, svc: Service, i: nat, env: Env, filled: nat) returns (filled': nat)
    requires i < t.rows.Length && svc.answer == env.lookup
    modifies t.rows, svc
    ensures svc.calls == old(svc.calls) + CallOf(old(t.rows[i]), env)
    ensures t.rows[i] == RowAfter(old(t.rows[i]), env, Postcodes)
    ensures forall k :: 0 <= k < t.rows.Length && k != i ==> t.rows[k] == old(t.rows[k])
    ensures filled' == filled + if Fills(old(t.rows[i]), env, Postcodes) then 1 else 0
  {
    var row := t.rows[i];
    filled' := filled;
    if !IsBlank(Cell(row, "CEP")) {
      SkippedRowUnchanged(row, env, Postcodes);
      return;
    }
    var lat := env.parse(Cell(row, env.latCol));
    var lon := env.parse(Cell(row, env.lonCol));
    if lat.None? || lon.None? {
      InvalidRowUnchanged(row, env, Postcodes);
      return;
    }
    var reply := svc.Lookup(lat.value, lon.value);
    assert StepOf(row, env) == Queried(reply);
    var cep := LookupPostcode(reply);
    if cep.Some? && cep.value != "" {
      t.rows[i] := t.rows[i]["CEP" := cep.value];
      filled' := filled' + 1;
    }
  }

  /** The loop over `df.iterrows()`: every row ends as `RowAfter` says, and `filled` is `FilledCount`. */
  method FillPostcodes(t: Table, svc: Service, env: Env) returns (filled: nat)
    requires svc.answer == env.lookup
    modifies t.rows, svc
    ensures svc.calls == old(svc.calls) + Calls(old(t.rows[..]), env)
    ensures t.rows[..] == RowsAfter(old(t.rows[..]), env, Postcodes)
    ensures filled == FilledCount(old(t.rows[..]), env, Postcodes)
  {
    ghost var orig := t.rows[..];
    ghost var calls := svc.calls;
    filled := 0;
    for i := 0 to t.rows.Length
      invariant forall k :: 0 <= k < i ==> t.rows[k] == RowAfter(orig[k], env, Postcodes)
      invariant forall k :: i <= k < t.rows.Length ==> t.rows[k] == orig[k]
      invariant filled == FilledCount(orig[..i], env, Postcodes)
      invariant svc.calls == calls + Calls(orig[..i], env)
    {
      PassStep(orig, i, env, Postcodes, t.rows.Length, false, 0);
      filled := VisitRow(t, svc, i, env, filled);
    }
    assert orig[..t.rows.Length] == orig;
    assert t.rows[..] == RowsAfter(orig, env, Postcodes);
  }

  /**
   * `main` from the creation of `CEP` to the end of the loop. It ends as the
   * script with progress lines does when that one runs without `--verbose`.
   */
  method Run(t: Table, parse: string -> Option<real>, svc: Service) returns (outcome: Outcome)
    modifies t, t.rows, svc
    ensures outcome.Aborted? <==> ResolveLatLon(old(t.columns)).Abort?
    ensures t.columns == WithColumns(old(t.columns), ["CEP"])
    ensures outcome.Aborted? ==>
              t.rows[..] == Prepared(old(t.rows[..]), old(t.columns), ["CEP"]) && svc.calls == old(svc.calls)
    ensures outcome.Completed? ==>
              var env := EnvOf(old(t.columns), parse, svc.answer);
              var before := Prepared(old(t.rows[..]), old(t.columns), ["CEP"]);
              && outcome.total == t.rows.Length
              && outcome.filled == FilledCount(before, env, Postcodes)
              && outcome.log == ProgressLog(before, env, Postcodes, t.rows.Length, false, 0)
              && svc.calls == old(svc.calls) + Calls(before, env)
              && t.rows[..] == RowsAfter(before, env, Postcodes)
  {
    ghost var columns := t.columns;
    CepFiller.AddCepColumn(t);
    ghost var before := t.rows[..];
    CepFiller.CepColumnKeepsResolution(columns);
    var found := ResolveLatLon(t.columns);
    if found.Abort? {
      return Aborted;
    }
    ghost var env := EnvOf(columns, parse, svc.answer);
    var filled := FillPostcodes(t, svc, Env(found.lat, found.lon, parse, svc.answer));
    QuietLog(before, env, Postcodes, t.rows.Length, 0);
    outcome := Completed(filled, t.rows.Length, []);
  }
}
