/**
 * Detection of the latitude and longitude columns among the headers of the
 * table (`detect_column` / `detect`, written out identically in three
 * scripts). A first pass looks for a header that equals a candidate name after
 * trimming, possibly ignoring case; only when that fails, a second pass looks
 * for a header whose lower-cased, trimmed form contains one of a few partial
 * keys. Either pass returns the ORIGINAL header, untrimmed.
 */
module ColumnDetector {
  import opened Wrappers
  import opened Text

  const LatCandidates: seq<string> := ["latitude", "lat", "Latitude", "LATITUDE", "Lat"]
  const LonCandidates: seq<string> := ["longitude", "lon", "lng", "Longitude", "LONGITUDE", "Long", "LON", "LNG"]
  const LatPartials: seq<string> := ["lat"]
  const LonPartials: seq<string> := ["lon", "lng", "long"]

  /** `str(c).lower().strip()` */
  function Normal(h: string): string
  {
    Strip(Lower(h))
  }

  /** The test of the first pass: trimmed header among the candidates, or the same ignoring case. */
  predicate ExactHit(h: string, cands: seq<string>)
  {
    Strip(h) in cands || Normal(h) in LowerAll(cands)
  }

  /** The test of the second pass: some partial key occurs in the normalised header. */
  predicate PartialHit(h: string, partials: seq<string>)
  {
    exists p :: p in partials && IsSubstring(p, Normal(h))
  }

  /** The first header, in column order, that the first pass accepts. */
  function FirstExact(cols: seq<string>, cands: seq<string>): (r: Option<string>)
    ensures r.Some? ==> ExactHit(r.value, cands)
  {
    if cols == [] then None
    else if ExactHit(cols[0], cands) then Some(cols[0])
    else FirstExact(cols[1..], cands)
  }

  /** The first header, in column order, that the second pass accepts. */
  function FirstPartial(cols: seq<string>, partials: seq<string>): (r: Option<string>)
    ensures r.Some? ==> PartialHit(r.value, partials)
  {
    if cols == [] then None
    else if PartialHit(cols[0], partials) then Some(cols[0])
    else FirstPartial(cols[1..], partials)
  }

  /** `detect_column(df, candidates, partial_keys)` on the header list `cols`. */
  function Detect(cols: seq<string>, cands: seq<string>, partials: seq<string>): (r: Option<string>)
    ensures r.Some? ==> ExactHit(r.value, cands) || PartialHit(r.value, partials)
  {
    if FirstExact(cols, cands).Some? then FirstExact(cols, cands) else FirstPartial(cols, partials)
  }

  /** What `detect_lat_lon` leads to: both headers, or the abort of the script. */
  datatype Resolution = Found(lat: string, lon: string) | Abort

  /**
   * `detect_lat_lon` followed by the `if not lat_col or not longitude_centro`
   * test: a missing or empty header aborts the run.
   */
  function ResolveLatLon(cols: seq<string>): (r: Resolution)
    ensures r.Found? ==> r.lat != "" && r.lon != ""
  {
    var lat := Detect(cols, LatCandidates, LatPartials);
    var lon := Detect(cols, LonCandidates, LonPartials);
    if lat.None? || lon.None? || lat.value == "" || lon.value == "" then Abort
    else Found(lat.value, lon.value)
  }

  // ---------------------------------------------------------------------------
  // First-match characterisation

  /** `FirstExact` finds the first accepted header and nothing else. */
  lemma {:induction false} FirstExactIsFirst(cols: seq<string>, cands: seq<string>, i: nat)
    requires i < |cols| && ExactHit(cols[i], cands)
    requires forall j :: 0 <= j < i ==> !ExactHit(cols[j], cands)
    ensures FirstExact(cols, cands) == Some(cols[i])
  {
    if i > 0 {
      FirstExactIsFirst(cols[1..], cands, i - 1);
    }
  }

  lemma {:induction false} FirstPartialIsFirst(cols: seq<string>, partials: seq<string>, i: nat)
    requires i < |cols| && PartialHit(cols[i], partials)
    requires forall j :: 0 <= j < i ==> !PartialHit(cols[j], partials)
    ensures FirstPartial(cols, partials) == Some(cols[i])
  {
    if i > 0 {
      FirstPartialIsFirst(cols[1..], partials, i - 1);
    }
  }

  lemma {:induction false} FirstExactNone(cols: seq<string>, cands: seq<string>)
    ensures FirstExact(cols, cands).None? <==> forall j :: 0 <= j < |cols| ==> !ExactHit(cols[j], cands)
  {
    if cols != [] {
      FirstExactNone(cols[1..], cands);
      if !ExactHit(cols[0], cands) {
        forall j | 0 <= j < |cols| && FirstExact(cols, cands).None?
          ensures !ExactHit(cols[j], cands)
        {
          if j > 0 {
            assert cols[j] == cols[1..][j - 1];
          }
        }
      }
    }
  }

  lemma {:induction false} FirstPartialNone(cols: seq<string>, partials: seq<string>)
    ensures FirstPartial(cols, partials).None? <==> forall j :: 0 <= j < |cols| ==> !PartialHit(cols[j], partials)
  {
    if cols != [] {
      FirstPartialNone(cols[1..], partials);
      if !PartialHit(cols[0], partials) {
        forall j | 0 <= j < |cols| && FirstPartial(cols, partials).None?
          ensures !PartialHit(cols[j], partials)
        {
          if j > 0 {
            assert cols[j] == cols[1..][j - 1];
          }
        }
      }
    }
  }

  /** A header found by either pass is one of the headers, at the position the lemma returns. */
  lemma {:induction false} FirstExactWitness(cols: seq<string>, cands: seq<string>) returns (i: nat)
    requires FirstExact(cols, cands).Some?
    ensures i < |cols| && cols[i] == FirstExact(cols, cands).value
    ensures forall j :: 0 <= j < i ==> !ExactHit(cols[j], cands)
  {
    if ExactHit(cols[0], cands) {
      i := 0;
    } else {
      var k := FirstExactWitness(cols[1..], cands);
      i := k + 1;
      forall j | 0 < j < i ensures !ExactHit(cols[j], cands) {
        assert cols[j] == cols[1..][j - 1];
      }
    }
  }

  lemma {:induction false} FirstPartialWitness(cols: seq<string>, partials: seq<string>) returns (i: nat)
    requires FirstPartial(cols, partials).Some?
    ensures i < |cols| && cols[i] == FirstPartial(cols, partials).value
    ensures forall j :: 0 <= j < i ==> !PartialHit(cols[j], partials)
  {
    if PartialHit(cols[0], partials) {
      i := 0;
    } else {
      var k := FirstPartialWitness(cols[1..], partials);
      i := k + 1;
      forall j | 0 < j < i ensures !PartialHit(cols[j], partials) {
        assert cols[j] == cols[1..][j - 1];
      }
    }
  }

  /**
   * The exact pass wins: when some header is accepted by it, `Detect` returns
   * the first such header, whatever the partial keys.
   */
  lemma DetectExact(cols: seq<string>, cands: seq<string>, partials: seq<string>, i: nat)
    requires i < |cols| && ExactHit(cols[i], cands)
    requires forall j :: 0 <= j < i ==> !ExactHit(cols[j], cands)
    ensures Detect(cols, cands, partials) == Some(cols[i])
  {
    FirstExactIsFirst(cols, cands, i);
  }

  /**
   * The partial pass runs only when no header is accepted exactly, and then
   * returns the first header that contains a partial key.
   */
  lemma DetectPartial(cols: seq<string>, cands: seq<string>, partials: seq<string>, i: nat)
    requires forall j :: 0 <= j < |cols| ==> !ExactHit(cols[j], cands)
    requires i < |cols| && PartialHit(cols[i], partials)
    requires forall j :: 0 <= j < i ==> !PartialHit(cols[j], partials)
    ensures Detect(cols, cands, partials) == Some(cols[i])
  {
    FirstExactNone(cols, cands);
    FirstPartialIsFirst(cols, partials, i);
  }

  /** `None` exactly when neither pass accepts any header. */
  lemma DetectNone(cols: seq<string>, cands: seq<string>, partials: seq<string>)
    ensures Detect(cols, cands, partials).None? <==>
            forall j :: 0 <= j < |cols| ==> !ExactHit(cols[j], cands) && !PartialHit(cols[j], partials)
  {
    FirstExactNone(cols, cands);
    FirstPartialNone(cols, partials);
  }

  /**
   * Conversely, a found header is the first exact hit, or, when there is no
   * exact hit at all, the first partial hit.
   */
  lemma DetectWitness(cols: seq<string>, cands: seq<string>, partials: seq<string>) returns (i: nat)
    requires Detect(cols, cands, partials).Some?
    ensures i < |cols| && cols[i] == Detect(cols, cands, partials).value
    ensures || (ExactHit(cols[i], cands) && forall j :: 0 <= j < i ==> !ExactHit(cols[j], cands))
            || (&& (forall j :: 0 <= j < |cols| ==> !ExactHit(cols[j], cands))
                && PartialHit(cols[i], partials)
                && forall j :: 0 <= j < i ==> !PartialHit(cols[j], partials))
  {
    if FirstExact(cols, cands).Some? {
      i := FirstExactWitness(cols, cands);
    } else {
      FirstExactNone(cols, cands);
      i := FirstPartialWitness(cols, partials);
    }
  }

  /**
   * The case-sensitive test of the first pass adds nothing: a header is
   * accepted exactly when its lower-cased, trimmed form is a lower-cased
   * candidate.
   */
  lemma ExactHitIgnoresCase(h: string, cands: seq<string>)
    ensures ExactHit(h, cands) <==> Normal(h) in LowerAll(cands)
  {
    if Strip(h) in cands {
      var k :| 0 <= k < |cands| && cands[k] == Strip(h);
      StripLowerCommute(h);
      assert LowerAll(cands)[k] == Normal(h);
    }
  }

  // ---------------------------------------------------------------------------
  // The candidate lists of the scripts

  /** A key that occurs in a string brings all its characters along. */
  lemma {:induction false} SubstringChars(p: string, s: string, c: char)
    requires IsSubstring(p, s) && c in p
    ensures c in s
  {
    if p <= s {
      assert p == s[..|p|];
    } else {
      SubstringChars(p, s[1..], c);
    }
  }

  /** Nothing non-empty occurs in the empty string. */
  lemma NoSubstringOfEmpty(p: string)
    requires p != ""
    ensures !IsSubstring(p, "")
  {
  }

  /**
   * With the keys of the scripts an empty header is never returned, so the
   * abort happens exactly when a column is not found.
   */
  lemma DetectNeverEmpty(cols: seq<string>)
    ensures Detect(cols, LatCandidates, LatPartials) != Some("")
    ensures Detect(cols, LonCandidates, LonPartials) != Some("")
  {
    assert Normal("") == "";
    assert Strip("") == "";
    assert !ExactHit("", LatCandidates) && !ExactHit("", LonCandidates);
    forall p | p in LatPartials + LonPartials ensures !IsSubstring(p, "") {
      NoSubstringOfEmpty(p);
    }
  }

  /** The script aborts exactly when either detection fails. */
  lemma ResolveAbortsIffMissing(cols: seq<string>)
    ensures ResolveLatLon(cols).Abort? <==>
            Detect(cols, LatCandidates, LatPartials).None? || Detect(cols, LonCandidates, LonPartials).None?
    ensures ResolveLatLon(cols).Found? ==>
            && Detect(cols, LatCandidates, LatPartials) == Some(ResolveLatLon(cols).lat)
            && Detect(cols, LonCandidates, LonPartials) == Some(ResolveLatLon(cols).lon)
  {
    DetectNeverEmpty(cols);
  }

  /** A string with no whitespace at either end is its own `Strip`. */
  lemma StripTrimmed(s: string)
    requires s != [] ==> !IsSpace(s[0]) && !IsSpace(s[|s| - 1])
    ensures Strip(s) == s
  {
  }

  lemma NormalOfY()
    ensures Normal("Y") == "y"
  {
    assert Lower("Y") == "y";
    StripTrimmed("y");
  }

  lemma NormalOfLngCentro()
    ensures Normal("LNG_centro") == "lng_centro"
  {
    assert Lower("LNG_centro") == "lng_centro";
    StripTrimmed("lng_centro");
  }

  lemma NotExactY(cands: seq<string>)
    requires cands == LatCandidates || cands == LonCandidates
    ensures !ExactHit("Y", cands)
  {
    NormalOfY();
    StripTrimmed("Y");
    ExactHitIgnoresCase("Y", cands);
    forall k | 0 <= k < |cands| ensures LowerAll(cands)[k] != "y" {
    }
  }

  lemma NotExactLngCentro(cands: seq<string>)
    requires cands == LatCandidates || cands == LonCandidates
    ensures !ExactHit("LNG_centro", cands)
  {
    NormalOfLngCentro();
    ExactHitIgnoresCase("LNG_centro", cands);
    forall k | 0 <= k < |cands| ensures LowerAll(cands)[k] != "lng_centro" {
    }
  }

  lemma NotExactLatitude()
    ensures !ExactHit("Latitude", LonCandidates)
  {
    assert Lower("Latitude") == "latitude";
    StripTrimmed("latitude");
    ExactHitIgnoresCase("Latitude", LonCandidates);
    assert forall c <- LonCandidates :: |c| != 8;
    NoKeyOfLength("latitude", LonCandidates);
  }

  /** A lowered key has the length of the key, so no key of another length matches. */
  lemma NoKeyOfLength(n: string, cands: seq<string>)
    requires forall c <- cands :: |c| != |n|
    ensures n !in LowerAll(cands)
  {
    forall k | 0 <= k < |cands| ensures LowerAll(cands)[k] != n {
      assert cands[k] in cands;
    }
  }

  /** A header whose normal form lacks a character that every key contains hits no key. */
  lemma NoPartialHit(h: string, partials: seq<string>, c: char)
    requires forall p :: p in partials ==> c in p
    requires c !in Normal(h)
    ensures !PartialHit(h, partials)
  {
    forall p | p in partials ensures !IsSubstring(p, Normal(h)) {
      if IsSubstring(p, Normal(h)) {
        SubstringChars(p, Normal(h), c);
      }
    }
  }

  /**
   * Headers `Y` and `LNG_centro`: the longitude is found by the partial key
   * `lng` ...
   */
  lemma LongitudeByPartialKey()
    ensures Detect(["Y", "LNG_centro"], LonCandidates, LonPartials) == Some("LNG_centro")
  {
    var cols := ["Y", "LNG_centro"];
    forall j | 0 <= j < |cols| ensures !ExactHit(cols[j], LonCandidates) {
      if j == 0 {
        NotExactY(LonCandidates);
      } else {
        NotExactLngCentro(LonCandidates);
      }
    }
    LngCentroHasKey();
    NoLonKeyInY();
    assert cols[0] == "Y" && cols[1] == "LNG_centro";
    assert forall j :: 0 <= j < 1 ==> !PartialHit(cols[j], LonPartials);
    DetectPartial(cols, LonCandidates, LonPartials, 1);
  }

  lemma LngCentroHasKey()
    ensures PartialHit("LNG_centro", LonPartials)
  {
    NormalOfLngCentro();
    assert "lng" <= "lng_centro";
    assert "lng" in LonPartials;
  }

  lemma NoLonKeyInY()
    ensures !PartialHit("Y", LonPartials)
  {
    NormalOfY();
    assert 'l' !in "y";
    NoPartialHit("Y", LonPartials, 'l');
  }

  /** ... and the latitude is not found at all, so the script aborts. */
  lemma LatitudeMissing()
    ensures Detect(["Y", "LNG_centro"], LatCandidates, LatPartials) == None
  {
    NotExactY(LatCandidates);
    NotExactLngCentro(LatCandidates);
    NormalOfY();
    NormalOfLngCentro();
    NoLatKey("Y", "y");
    NoLatKey("LNG_centro", "lng_centro");
    DetectNone(["Y", "LNG_centro"], LatCandidates, LatPartials);
  }

  lemma NoLatKey(h: string, n: string)
    requires n == "y" || n == "lng_centro"
    requires Normal(h) == n
    ensures !PartialHit(h, LatPartials)
  {
    if n == "y" {
      assert |n| == 1 && n[0] == 'y';
    } else {
      assert |n| == 10;
      assert n[0] == 'l' && n[1] == 'n' && n[2] == 'g' && n[3] == '_' && n[4] == 'c';
      assert n[5] == 'e' && n[6] == 'n' && n[7] == 't' && n[8] == 'r' && n[9] == 'o';
    }
    assert forall i :: 0 <= i < |n| ==> n[i] != 'a';
    NoPartialHit(h, LatPartials, 'a');
  }

  lemma MissingLatitudeAborts()
    ensures ResolveLatLon(["Y", "LNG_centro"]) == Abort
  {
    LatitudeMissing();
    ResolveAbortsIffMissing(["Y", "LNG_centro"]);
  }

  /** Headers `Latitude` and `lon` are both found by the exact pass. */
  lemma HeadersExact()
    ensures Detect(["Latitude", "lon"], LatCandidates, LatPartials) == Some("Latitude")
    ensures Detect(["Latitude", "lon"], LonCandidates, LonPartials) == Some("lon")
    ensures ResolveLatLon(["Latitude", "lon"]) == Found("Latitude", "lon")
  {
    var cols := ["Latitude", "lon"];
    StripTrimmed("Latitude");
    StripTrimmed("lon");
    DetectExact(cols, LatCandidates, LatPartials, 0);
    NotExactLatitude();
    DetectExact(cols, LonCandidates, LonPartials, 1);
  }

  /**
   * Columns appended after the existing ones that neither pass accepts do
   * not change the result (the output columns the scripts add).
   */
  lemma {:induction false} DetectIgnoresAppended(cols: seq<string>, extra: seq<string>, cands: seq<string>, partials: seq<string>)
    requires forall j :: 0 <= j < |extra| ==> !ExactHit(extra[j], cands) && !PartialHit(extra[j], partials)
    ensures Detect(cols + extra, cands, partials) == Detect(cols, cands, partials)
  {
    FirstExactAppend(cols, extra, cands);
    FirstPartialAppend(cols, extra, partials);
  }

  lemma {:induction false} FirstExactAppend(cols: seq<string>, extra: seq<string>, cands: seq<string>)
    requires forall j :: 0 <= j < |extra| ==> !ExactHit(extra[j], cands)
    ensures FirstExact(cols + extra, cands) == FirstExact(cols, cands)
  {
    if cols == [] {
      assert cols + extra == extra;
      FirstExactNone(extra, cands);
    } else {
      assert (cols + extra)[1..] == cols[1..] + extra;
      FirstExactAppend(cols[1..], extra, cands);
    }
  }

  lemma {:induction false} FirstPartialAppend(cols: seq<string>, extra: seq<string>, partials: seq<string>)
    requires forall j :: 0 <= j < |extra| ==> !PartialHit(extra[j], partials)
    ensures FirstPartial(cols + extra, partials) == FirstPartial(cols, partials)
  {
    if cols == [] {
      assert cols + extra == extra;
      FirstPartialNone(extra, partials);
    } else {
      assert (cols + extra)[1..] == cols[1..] + extra;
      FirstPartialAppend(cols[1..], extra, partials);
    }
  }

  lemma NotExactCep(cands: seq<string>)
    requires cands == LatCandidates || cands == LonCandidates
    ensures !ExactHit("CEP", cands)
  {
    assert Lower("CEP") == "cep";
    StripTrimmed("cep");
    StripTrimmed("CEP");
    ExactHitIgnoresCase("CEP", cands);
    forall k | 0 <= k < |cands| ensures LowerAll(cands)[k] != "cep" {
      if |cands[k]| == 3 {
        assert LowerAll(cands)[k][0] == LowerChar(cands[k][0]) == 'l';
      }
    }
  }

  lemma NoKeyInCep(partials: seq<string>)
    requires partials == LatPartials || partials == LonPartials
    ensures !PartialHit("CEP", partials)
  {
    assert Lower("CEP") == "cep";
    StripTrimmed("cep");
    assert 'l' !in "cep";
    NoPartialHit("CEP", partials, 'l');
  }

  /**
   * Adding the `CEP` column before the detection, as the postcode scripts do,
   * does not change which columns are detected.
   */
  lemma CepColumnDoesNotDisturbDetection(cols: seq<string>)
    ensures Detect(cols + ["CEP"], LatCandidates, LatPartials) == Detect(cols, LatCandidates, LatPartials)
    ensures Detect(cols + ["CEP"], LonCandidates, LonPartials) == Detect(cols, LonCandidates, LonPartials)
  {
    NotExactCep(LatCandidates);
    NotExactCep(LonCandidates);
    NoKeyInCep(LatPartials);
    NoKeyInCep(LonPartials);
    DetectIgnoresAppended(cols, ["CEP"], LatCandidates, LatPartials);
    DetectIgnoresAppended(cols, ["CEP"], LonCandidates, LonPartials);
  }
}
