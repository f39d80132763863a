/**
 * Repair of coordinate cells that lost their decimal point
 * (`-2362866310850830` becomes `-23.62866310850830`): first reduce the cell to
 * ASCII digits and one sign, then put a `.` after a fixed number of integer
 * digits. The model stops at the string level; the numeric coercion that
 * follows is not part of it.
 */
module LatLonRepair {
  import opened Text

  /** The complement of the class `[^0-9\-]`. */
  predicate IsDigitOrDash(c: char)
  {
    IsDigit(c) || c == '-'
  }

  /** `re.sub(r"[^0-9\-]", "", s)`: keep digits and `-`, in order. */
  function KeepDigitsAndDash(s: string): string
  {
    Filter(s, IsDigitOrDash)
  }

  /** The digits of `s`, in order. */
  function Digits(s: string): string
  {
    Filter(s, IsDigit)
  }

  /**
   * `clean_to_digits_and_sign`: blank cells become empty; otherwise every
   * character but digits and `-` is dropped, and when more than one `-`
   * remains the value becomes `-` followed by the digits after the first `-`.
   */
  function CleanToDigitsAndSign(x: string): string
  {
    var s := Strip(x);
    if s == "" then "" else CollapseDashes(KeepDigitsAndDash(s))
  }

  /** The last step of the cleaning: several `-` collapse into one leading `-`. */
  function CollapseDashes(k: string): string
  {
    if CountChar(k, '-') > 1 then
      CountCharPositive(k, '-');
      FindFound(k, '-');
      var first := Find(k, '-');
      "-" + RemoveChar(k[first + 1..], '-')
    else
      k
  }

  /** `raw.startswith("-")` decides the sign ... */
  function Sign(raw: string): string
  {
    if |raw| > 0 && raw[0] == '-' then "-" else ""
  }

  /** ... and the body is what follows it. */
  function Body(raw: string): string
  {
    if |raw| > 0 && raw[0] == '-' then raw[1..] else raw
  }

  /** Python's `str.isdigit()` on ASCII text: non-empty and digits only. */
  predicate IsDigits(s: string)
  {
    |s| > 0 && forall i :: 0 <= i < |s| ==> IsDigit(s[i])
  }

  /**
   * Where Python's slice `body[:d]` stops on a string of length `n`: a
   * negative `d` counts from the end.
   */
  function SliceStop(d: int, n: nat): (k: nat)
    ensures k <= n
    ensures 0 <= d <= n ==> k == d
    ensures d < 0 && n + d >= 0 ==> k == n + d
    ensures 0 < n && d < n ==> k < n
  {
    if d >= 0 then (if d <= n then d else n)
    else if n + d >= 0 then n + d else 0
  }

  /**
   * `insert_decimal`: put a `.` after `degDigits` digits of the body. An
   * empty input, a lone sign and a body with any non-digit (a `-` that is not
   * leading, say) give `""`; a body too short for the point is returned as it
   * is.
   */
  function InsertDecimal(raw: string, degDigits: int): string
  {
    if raw == "" then ""
    else
      var sign := Sign(raw);
      var body := Body(raw);
      if !IsDigits(body) then ""
      else if |body| <= degDigits then sign + body
      else
        var k := SliceStop(degDigits, |body|);
        sign + body[..k] + "." + body[k..]
  }

  /** `fix_column` before `pd.to_numeric`: repair each value of the column in turn. */
  method FixColumn(series: seq<string>, degDigits: int) returns (fixed: seq<string>)
    ensures |fixed| == |series|
    ensures forall i :: 0 <= i < |series| ==>
              fixed[i] == InsertDecimal(CleanToDigitsAndSign(series[i]), degDigits)
  {
    fixed := [];
    for j := 0 to |series|
      invariant |fixed| == j
      invariant forall i :: 0 <= i < j ==>
                  fixed[i] == InsertDecimal(CleanToDigitsAndSign(series[i]), degDigits)
    {
      var cleaned := CleanToDigitsAndSign(series[j]);
      fixed := fixed + [InsertDecimal(cleaned, degDigits)];
    }
  }

  // ---------------------------------------------------------------------------
  // Properties of the cleaning step

  lemma {:induction false} FilterStrip(x: string, keep: char -> bool)
    requires forall c :: IsSpace(c) ==> !keep(c)
    ensures Filter(Strip(x), keep) == Filter(x, keep)
  {
    var a, b := StripSplit(x);
    assert x == x[..a] + x[a..b] + x[b..];
    FilterAppend(x[..a] + x[a..b], x[b..], keep);
    FilterAppend(x[..a], x[a..b], keep);
    FilterNoneKept(x[..a], keep);
    FilterNoneKept(x[b..], keep);
  }

  lemma {:induction false} CountCharFilter(s: string, keep: char -> bool, c: char)
    requires keep(c)
    ensures CountChar(Filter(s, keep), c) == CountChar(s, c)
  {
    if s != [] {
      var s' := s[..|s| - 1];
      CountCharFilter(s', keep, c);
      CountCharAppend(Filter(s', keep), if keep(s[|s| - 1]) then [s[|s| - 1]] else [], c);
    }
  }

  /** Removing `-` from the kept characters leaves exactly the digits. */
  lemma {:induction false} RemoveDashKeepsDigits(s: string)
    ensures RemoveChar(KeepDigitsAndDash(s), '-') == Digits(s)
  {
    if s != [] {
      var s' := s[..|s| - 1];
      var last: string := if IsDigitOrDash(s[|s| - 1]) then [s[|s| - 1]] else [];
      RemoveDashKeepsDigits(s');
      RemoveCharAppend(KeepDigitsAndDash(s'), last, '-');
    }
  }

  lemma {:induction false} FindAfterPrefix(a: string, c: char, b: string)
    requires c !in a
    ensures Find(a + [c] + b, c) == |a|
  {
    if a != [] {
      assert (a + [c] + b)[1..] == a[1..] + [c] + b;
      FindAfterPrefix(a[1..], c, b);
    }
  }

  /** An empty or whitespace-only cell cleans to the empty string. */
  lemma CleanBlank(x: string)
    requires AllSpace(x)
    ensures CleanToDigitsAndSign(x) == ""
  {
    StripEmpty(x);
  }

  /** Blank or not, only the kept characters of the cell matter. */
  lemma CleanIgnoresStrip(x: string)
    ensures KeepDigitsAndDash(Strip(x)) == KeepDigitsAndDash(x)
    ensures Strip(x) == "" ==> KeepDigitsAndDash(x) == ""
  {
    FilterStrip(x, IsDigitOrDash);
  }

  /**
   * With at most one `-` in the cell, cleaning keeps exactly the digits and
   * the `-`, in their original order.
   */
  lemma CleanWithAtMostOneDash(x: string)
    requires CountChar(x, '-') <= 1
    ensures CleanToDigitsAndSign(x) == KeepDigitsAndDash(x)
  {
    CleanIgnoresStrip(x);
    CountCharFilter(x, IsDigitOrDash, '-');
  }

  /**
   * With several `-`, the result is `-` followed by the digits that come after
   * the first `-`: the digits before it are lost.
   */
  lemma CleanWithSeveralDashes(x: string)
    requires CountChar(x, '-') > 1
    ensures Find(x, '-') >= 0
    ensures CleanToDigitsAndSign(x) == "-" + Digits(x[Find(x, '-') + 1..])
  {
    CountCharPositive(x, '-');
    FindFound(x, '-');
    CleanOfNonBlank(x, Find(x, '-'));
    CountCharFilter(x, IsDigitOrDash, '-');
    CollapseKept(x);
  }

  /** Collapsing the kept characters of a cell with several `-`. */
  lemma CollapseKept(x: string)
    requires '-' in x
    requires CountChar(KeepDigitsAndDash(x), '-') > 1
    ensures Find(x, '-') >= 0
    ensures CollapseDashes(KeepDigitsAndDash(x)) == "-" + Digits(x[Find(x, '-') + 1..])
  {
    FindFound(x, '-');
    var post := x[Find(x, '-') + 1..];
    var k := KeepDigitsAndDash(x);
    CollapseSeveral(k);
    KeptAfterFirstDash(x);
    RemoveDashKeepsDigits(post);
  }

  lemma CollapseSeveral(k: string)
    requires CountChar(k, '-') > 1
    ensures Find(k, '-') >= 0
    ensures CollapseDashes(k) == "-" + RemoveChar(k[Find(k, '-') + 1..], '-')
  {
    CountCharPositive(k, '-');
    FindFound(k, '-');
  }

  /** A cell with a non-space character is cleaned by collapsing its kept characters. */
  lemma CleanOfNonBlank(x: string, i: nat)
    requires i < |x| && !IsSpace(x[i])
    ensures CleanToDigitsAndSign(x) == CollapseDashes(KeepDigitsAndDash(x))
  {
    CleanIgnoresStrip(x);
  }

  /** What follows the first kept `-` is what the cell keeps after its first `-`. */
  lemma KeptAfterFirstDash(x: string)
    requires '-' in x
    ensures Find(KeepDigitsAndDash(x), '-') >= 0
    ensures var k := KeepDigitsAndDash(x);
            k[Find(k, '-') + 1..] == KeepDigitsAndDash(x[Find(x, '-') + 1..])
  {
    var f := Find(x, '-');
    FindIsFirst(x, '-');
    var pre, post := x[..f], x[f + 1..];
    var pre' := x[..f + 1];
    assert x == pre' + post;
    assert pre'[..|pre'| - 1] == pre;
    var kPre, kPost := KeepDigitsAndDash(pre), KeepDigitsAndDash(post);
    assert KeepDigitsAndDash(pre') == kPre + ['-'];
    FilterAppend(pre', post, IsDigitOrDash);
    var k := KeepDigitsAndDash(x);
    assert k == kPre + ['-'] + kPost;
    FilterSubset(pre, IsDigitOrDash);
    assert '-' !in kPre;
    FindAfterPrefix(kPre, '-', kPost);
    FindFound(k, '-');
  }

  /**
   * Whatever the cell, the cleaned value holds at most one `-`, and when the
   * cell had several the kept one leads.
   */
  lemma CleanHasAtMostOneDash(x: string)
    ensures CountChar(CleanToDigitsAndSign(x), '-') <= 1
    ensures CountChar(x, '-') > 1 ==> "-" <= CleanToDigitsAndSign(x)
  {
    if CountChar(x, '-') > 1 {
      CleanWithSeveralDashes(x);
      var d := Digits(x[Find(x, '-') + 1..]);
      FilterKeeps(x[Find(x, '-') + 1..], IsDigit);
      assert '-' !in d;
      CountCharPositive(d, '-');
      CountCharAppend("-", d, '-');
    } else {
      CleanWithAtMostOneDash(x);
      CountCharFilter(x, IsDigitOrDash, '-');
    }
  }

  /** The cleaned value holds only ASCII digits and `-`. */
  lemma CleanAlphabet(x: string)
    ensures forall i :: 0 <= i < |CleanToDigitsAndSign(x)| ==> IsDigitOrDash(CleanToDigitsAndSign(x)[i])
  {
    if CountChar(x, '-') > 1 {
      CleanWithSeveralDashes(x);
      FilterKeeps(x[Find(x, '-') + 1..], IsDigit);
    } else {
      CleanWithAtMostOneDash(x);
      FilterKeeps(x, IsDigitOrDash);
    }
  }

  // ---------------------------------------------------------------------------
  // Properties of the decimal insertion

  /**
   * The result is empty exactly when the body is not a non-empty run of
   * digits: for an empty input, a lone `-`, and an input with a `-` anywhere
   * but in front.
   */
  lemma InsertDecimalRejects(raw: string, degDigits: int)
    ensures InsertDecimal(raw, degDigits) == "" <==> !IsDigits(Body(raw))
    ensures raw == "" || raw == "-" ==> InsertDecimal(raw, degDigits) == ""
    ensures (exists i :: 0 < i < |raw| && raw[i] == '-') ==> InsertDecimal(raw, degDigits) == ""
  {
    if i :| 0 < i < |raw| && raw[i] == '-' {
      if raw[0] == '-' {
        assert Body(raw)[i - 1] == '-';
      } else {
        assert Body(raw)[i] == '-';
      }
    }
  }

  /** A body with no more than `degDigits` digits is returned unchanged. */
  lemma InsertDecimalShortBody(raw: string, degDigits: int)
    requires IsDigits(Body(raw)) && |Body(raw)| <= degDigits
    ensures InsertDecimal(raw, degDigits) == raw
  {
    assert Sign(raw) + Body(raw) == raw;
  }

  /**
   * When the point is inserted there is exactly one `.` in the result, and
   * deleting it gives back the input; for a non-negative `degDigits` exactly
   * `degDigits` digits precede it.
   */
  lemma InsertDecimalRoundTrip(raw: string, degDigits: int)
    requires IsDigits(Body(raw)) && |Body(raw)| > degDigits
    ensures CountChar(InsertDecimal(raw, degDigits), '.') == 1
    ensures RemoveChar(InsertDecimal(raw, degDigits), '.') == raw
    ensures 0 <= degDigits ==> InsertDecimal(raw, degDigits)[|Sign(raw)| + degDigits] == '.'
  {
    var sign, body := Sign(raw), Body(raw);
    var k := SliceStop(degDigits, |body|);
    assert InsertDecimal(raw, degDigits) == sign + body[..k] + "." + body[k..];
    DigitsHaveNoDot(body);
    SplitHasNoDot(sign, body, k);
    DotBetween(sign + body[..k], body[k..]);
    assert sign + body[..k] + body[k..] == raw by {
      assert raw == sign + body;
    }
  }

  lemma DigitsHaveNoDot(s: string)
    requires forall i :: 0 <= i < |s| ==> IsDigit(s[i])
    ensures '.' !in s
  {
  }

  lemma SplitHasNoDot(sign: string, body: string, k: nat)
    requires sign == "" || sign == "-"
    requires '.' !in body && k <= |body|
    ensures '.' !in sign + body[..k] && '.' !in body[k..]
  {
    assert forall c :: c in body[..k] ==> c in body;
    assert forall c :: c in body[k..] ==> c in body;
  }

  /** A single `.` between two dot-free strings is counted once and removed cleanly. */
  lemma DotBetween(a: string, b: string)
    requires '.' !in a && '.' !in b
    ensures CountChar(a + "." + b, '.') == 1
    ensures RemoveChar(a + "." + b, '.') == a + b
  {
    var a' := a + ".";
    assert a'[..|a'| - 1] == a;
    CountCharPositive(a, '.');
    assert CountChar(a', '.') == 1;
    RemoveAbsentChar(a, '.');
    assert RemoveChar(a', '.') == a;
    CountCharAppend(a', b, '.');
    RemoveCharAppend(a', b, '.');
    RemoveAbsentChar(b, '.');
  }

  /**
   * A value `pd.to_numeric` can read as a decimal number: an optional leading
   * `-`, then digits with at most one `.`, ending in a digit.
   */
  predicate DecimalLiteral(v: string)
  {
    var b := Body(v);
    && |b| > 0
    && IsDigit(b[|b| - 1])
    && CountChar(b, '.') <= 1
    && forall i :: 0 <= i < |b| ==> IsDigit(b[i]) || b[i] == '.'
  }

  /**
   * Each repaired value is either empty (read back as missing) or a decimal
   * literal.
   */
  lemma InsertDecimalShape(raw: string, degDigits: int)
    ensures var r := InsertDecimal(raw, degDigits);
            r == "" || DecimalLiteral(r)
  {
    var r := InsertDecimal(raw, degDigits);
    if r != "" {
      var sign, body := Sign(raw), Body(raw);
      if |body| <= degDigits {
        assert r == sign + body;
        UndottedIsLiteral(sign, body);
      } else {
        var k := SliceStop(degDigits, |body|);
        assert r == sign + (body[..k] + "." + body[k..]);
        DottedIsLiteral(sign, body[..k], body[k..]);
      }
    }
  }

  /** A sign followed by digits is a decimal literal. */
  lemma UndottedIsLiteral(sign: string, body: string)
    requires sign == "" || sign == "-"
    requires IsDigits(body)
    ensures DecimalLiteral(sign + body)
  {
    assert Body(sign + body) == body;
    DigitsHaveNoDot(body);
    CountCharPositive(body, '.');
  }

  /** A sign, digits, a `.` and at least one digit form a decimal literal. */
  lemma DottedIsLiteral(sign: string, a: string, b: string)
    requires sign == "" || sign == "-"
    requires forall i :: 0 <= i < |a| ==> IsDigit(a[i])
    requires IsDigits(b)
    ensures DecimalLiteral(sign + (a + "." + b))
  {
    var t := a + "." + b;
    assert Body(sign + t) == t by {
      assert t[0] == if |a| > 0 then a[0] else '.';
    }
    DigitsHaveNoDot(a);
    DigitsHaveNoDot(b);
    DotBetween(a, b);
    assert t[|t| - 1] == b[|b| - 1];
    DottedAlphabet(a, b);
  }

  lemma DottedAlphabet(a: string, b: string)
    requires forall i :: 0 <= i < |a| ==> IsDigit(a[i])
    requires forall i :: 0 <= i < |b| ==> IsDigit(b[i])
    ensures var t := a + "." + b;
            forall i :: 0 <= i < |t| ==> IsDigit(t[i]) || t[i] == '.'
  {
    var t := a + "." + b;
    forall i | 0 <= i < |t| ensures IsDigit(t[i]) || t[i] == '.' {
      if i < |a| {
        assert t[i] == a[i];
      } else if |a| < i {
        assert t[i] == b[i - |a| - 1];
      }
    }
  }
}
