/**
 * The optional progress lines of the enrichment loops (`--verbose`,
 * `--log-every`). Elapsed time, rate and ETA are wall-clock figures and are
 * not modelled; a line keeps what the loop itself knows.
 */
module Progress {

  /** Which branch of the loop printed the line. */
  datatype Event = Skip | InvalidCoordinates | LastCep(cep: string)

  /** `[processadas/total] <event> | filled=<filled> | ...` */
  datatype LogLine = LogLine(event: Event, processed: nat, total: nat, filled: nat)

  /**
   * `args.verbose and (processadas % args.log_every == 0 ...)`, where the
   * `or processadas == total` alternative exists on the lookup path only.
   * With `--verbose` and `--log-every 0` the scripts stop with a division
   * by zero, which callers must avoid.
   */
  function ProgressDue(verbose: bool, processed: int, logEvery: int, total: int, lookupPath: bool): bool
    requires verbose ==> logEvery != 0
  {
    verbose && (processed % logEvery == 0 || (lookupPath && processed == total))
  }

  /**
   * The test `processed % logEvery == 0` means that `logEvery` divides
   * `processed`, for negative `logEvery` as well (Python's `%` takes the sign
   * of the divisor, Dafny's is never negative, and both are zero exactly on
   * multiples).
   */
  lemma DueOnMultiples(verbose: bool, processed: int, logEvery: int, total: int)
    requires logEvery != 0
    ensures ProgressDue(verbose, processed, logEvery, total, false) <==>
            verbose && exists q :: processed == q * logEvery
  {
    if verbose && processed % logEvery == 0 {
      assert processed == (processed / logEvery) * logEvery;
    }
    if q :| processed == q * logEvery {
      MultipleModulo(q, logEvery);
    }
  }

  lemma MultipleModulo(q: int, d: int)
    requires d != 0
    ensures (q * d) % d == 0
  {
    var r := (q * d) % d;
    var p := (q * d) / d;
    assert (q - p) * d == r;
    if q != p {
      ProductBound(q - p, d);
    }
  }

  /** A non-zero multiple of `d` is at least `|d|` away from zero. */
  lemma ProductBound(k: int, d: int)
    requires k != 0 && d != 0
    ensures k * d >= (if d > 0 then d else -d) || k * d <= -(if d > 0 then d else -d)
  {
    var m := if k > 0 then k else -k;
    var e := if d > 0 then d else -d;
    PositiveProduct(m, e);
    assert k * d == m * e || k * d == -(m * e);
  }

  lemma {:induction false} PositiveProduct(m: int, e: int)
    requires m >= 1 && e >= 1
    ensures m * e >= e
  {
    if m > 1 {
      PositiveProduct(m - 1, e);
      assert m * e == (m - 1) * e + e;
    }
  }

  /** Without `--verbose` nothing is printed. */
  lemma QuietWithoutVerbose(processed: int, logEvery: int, total: int, lookupPath: bool)
    ensures !ProgressDue(false, processed, logEvery, total, lookupPath)
  {
  }

  /** On the lookup path the last row always prints ... */
  lemma LastLookupPrints(total: int, logEvery: int)
    requires logEvery != 0
    ensures ProgressDue(true, total, logEvery, total, true)
  {
  }

  /**
   * ... while a last row that is skipped, or whose coordinates are invalid,
   * prints nothing unless `total` is a multiple of `logEvery`.
   */
  lemma SkippedLastRowNoFinalLine(total: int, logEvery: int)
    requires logEvery != 0 && total % logEvery != 0
    ensures !ProgressDue(true, total, logEvery, total, false)
  {
  }
}
