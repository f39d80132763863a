/**
 * The clean-up of the `renda_media` column: each value, read as text, goes
 * through four rewrites in turn: every `R$` is removed, a `.` is put after
 * each digit that starts a whole number of three-digit groups ending at a
 * `,`, every `,` becomes `.`, and every `.` becomes `,`.
 *
 * The last two steps together turn every separator into `,`, so `R$1234,56`
 * ends as `1,234,56`, not in the `milhares,centavos` form the script's
 * comments describe, and a decimal point cannot be told from a comma.
 */
module IncomeFormat {
  import opened Text
  import opened Tables

  // ---------------------------------------------------------------------------
  // Step 1: `str.replace('R\$', '', regex=True)`

  /** One left-to-right pass that deletes each non-overlapping `R$`. */
  function RemoveCurrency(s: string): (r: string)
    ensures |r| <= |s|
    decreases |s|
  {
    if |s| >= 2 && s[0] == 'R' && s[1] == '$' then RemoveCurrency(s[2..])
    else if s == [] then []
    else [s[0]] + RemoveCurrency(s[1..])
  }

  /** How many `R$` the pass deletes. */
  function CurrencyMatches(s: string): nat
    decreases |s|
  {
    if |s| >= 2 && s[0] == 'R' && s[1] == '$' then 1 + CurrencyMatches(s[2..])
    else if s == [] then 0
    else CurrencyMatches(s[1..])
  }

  /** Neither of the characters of `R$`. */
  predicate Untouched(c: char)
  {
    c != 'R' && c != '$'
  }

  /** Every character other than `R` and `$` survives, in order. */
  lemma {:induction false} CurrencyKeepsOthers(s: string)
    ensures Filter(RemoveCurrency(s), Untouched) == Filter(s, Untouched)
    decreases |s|
  {
    if |s| >= 2 && s[0] == 'R' && s[1] == '$' {
      CurrencyKeepsOthers(s[2..]);
      assert s == s[..2] + s[2..];
      FilterAppend(s[..2], s[2..], Untouched);
      FilterNoneKept(s[..2], Untouched);
    } else if s != [] {
      CurrencyKeepsOthers(s[1..]);
      assert s == [s[0]] + s[1..];
      FilterAppend([s[0]], s[1..], Untouched);
      FilterAppend([s[0]], RemoveCurrency(s[1..]), Untouched);
    }
  }

  /** Each deletion takes away one `R` and one `$` ... */
  lemma {:induction false} CurrencyCounts(s: string, c: char)
    requires c == 'R' || c == '$'
    ensures CountChar(s, c) == CountChar(RemoveCurrency(s), c) + CurrencyMatches(s)
    decreases |s|
  {
    if |s| >= 2 && s[0] == 'R' && s[1] == '$' {
      CurrencyCounts(s[2..], c);
      assert s == s[..2] + s[2..];
      CountCharAppend(s[..2], s[2..], c);
      assert s[..2][..1] == "R";
    } else if s != [] {
      CurrencyCounts(s[1..], c);
      assert s == [s[0]] + s[1..];
      CountCharAppend([s[0]], s[1..], c);
      CountCharAppend([s[0]], RemoveCurrency(s[1..]), c);
    }
  }

  /** ... and nothing else: two characters per deletion. */
  lemma {:induction false} CurrencyLength(s: string)
    ensures |RemoveCurrency(s)| == |s| - 2 * CurrencyMatches(s)
    decreases |s|
  {
    if |s| >= 2 && s[0] == 'R' && s[1] == '$' {
      CurrencyLength(s[2..]);
    } else if s != [] {
      CurrencyLength(s[1..]);
    }
  }

  /** A value with no `R$` in it is left as it is. */
  lemma {:induction false} CurrencyAbsent(s: string)
    requires forall k :: 0 <= k < |s| - 1 ==> !(s[k] == 'R' && s[k + 1] == '$')
    ensures RemoveCurrency(s) == s
    decreases |s|
  {
    if s != [] {
      assert !(|s| >= 2 && s[0] == 'R' && s[1] == '$');
      CurrencyAbsent(s[1..]);
    }
  }

  /** A single pass: `RR$$` loses its inner `R$` and keeps the `R$` that this leaves behind. */
  lemma SinglePass()
    ensures RemoveCurrency("RR$$") == "R$"
  {
    assert "RR$$"[1..] == "R$$";
    assert "R$$"[2..] == "$";
    assert RemoveCurrency("$") == "$";
  }

  // ---------------------------------------------------------------------------
  // Step 2: `str.replace(r'(\d)(?=(\d{3})+(\,))', r'\1.', regex=True)`

  /** The length of the run of digits that starts at `j`. */
  function DigitRun(s: string, j: nat): (n: nat)
    requires j <= |s|
    ensures j + n <= |s|
    decreases |s| - j
  {
    if j < |s| && IsDigit(s[j]) then 1 + DigitRun(s, j + 1) else 0
  }

  /**
   * The digit at `i` is followed by a run of digits whose length is a
   * positive multiple of three and which ends at a `,`.
   */
  predicate Mark(s: string, i: nat)
    requires i < |s|
  {
    var n := DigitRun(s, i + 1);
    IsDigit(s[i]) && n > 0 && n % 3 == 0 && i + 1 + n < |s| && s[i + 1 + n] == ','
  }

  /**
   * The regular expression read directly: a digit, then one or more groups
   * of three digits, then a `,`.
   */
  predicate Lookahead(s: string, i: nat)
    requires i < |s|
  {
    && IsDigit(s[i])
    && exists n :: 0 < n && n % 3 == 0 && i + 1 + n < |s| && s[i + 1 + n] == ','
                   && forall m :: i + 1 <= m < i + 1 + n ==> IsDigit(s[m])
  }

  /** The rewritten value from position `i` on: a `.` after every marked digit. */
  function Thousands(s: string, i: nat): string
    requires i <= |s|
    decreases |s| - i
  {
    if i == |s| then "" else [s[i]] + (if Mark(s, i) then "." else "") + Thousands(s, i + 1)
  }

  function InsertThousands(s: string): string
  {
    Thousands(s, 0)
  }

  lemma {:induction false} DigitRunDigits(s: string, j: nat)
    requires j <= |s|
    ensures forall m :: j <= m < j + DigitRun(s, j) ==> IsDigit(s[m])
    ensures j + DigitRun(s, j) < |s| ==> !IsDigit(s[j + DigitRun(s, j)])
    decreases |s| - j
  {
    if j < |s| && IsDigit(s[j]) {
      DigitRunDigits(s, j + 1);
    }
  }

  lemma {:induction false} DigitRunExact(s: string, j: nat, n: nat)
    requires j + n <= |s|
    requires forall m :: j <= m < j + n ==> IsDigit(s[m])
    requires j + n < |s| ==> !IsDigit(s[j + n])
    ensures DigitRun(s, j) == n
    decreases n
  {
    if n > 0 {
      DigitRunExact(s, j + 1, n - 1);
    }
  }

  /** The position test is exactly the regular expression's lookahead, with backtracking over the group count. */
  lemma MarkIffLookahead(s: string, i: nat)
    requires i < |s|
    ensures Mark(s, i) <==> Lookahead(s, i)
  {
    DigitRunDigits(s, i + 1);
    if Lookahead(s, i) {
      var n :| 0 < n && n % 3 == 0 && i + 1 + n < |s| && s[i + 1 + n] == ','
               && forall m :: i + 1 <= m < i + 1 + n ==> IsDigit(s[m]);
      DigitRunExact(s, i + 1, n);
    }
  }

  /** How many positions in `[i, j)` are marked, that is, how many dots are inserted there. */
  function Marks(s: string, i: nat, j: nat): (n: nat)
    requires i <= j <= |s|
    ensures n <= j - i
    decreases j - i
  {
    if i == j then 0 else (if Mark(s, i) then 1 else 0) + Marks(s, i + 1, j)
  }

  /**
   * The character at `j` of `s` sits in `t`, the rewrite from `i` on, after
   * the `j - i` characters before it and the dots inserted among them, and a
   * marked digit is directly followed by its `.`.
   */
  predicate Lands(s: string, i: nat, j: nat, t: string)
    requires i <= j < |s|
  {
    var k := j - i + Marks(s, i, j);
    && k < |t| && t[k] == s[j]
    && (Mark(s, j) ==> k + 1 < |t| && t[k + 1] == '.')
  }

  /**
   * Where each character of the value lands: the character at `j`, a `.`
   * included, is found after the `j - i` characters before it and the dots
   * inserted before it; a marked digit is directly followed by the new `.`;
   * and the value grows by exactly one character per mark.
   */
  lemma {:induction false} ThousandsLayout(s: string, i: nat)
    requires i <= |s|
    ensures |Thousands(s, i)| == |s| - i + Marks(s, i, |s|)
    ensures forall j :: i <= j < |s| ==> Lands(s, i, j, Thousands(s, i))
    decreases |s| - i
  {
    if i < |s| {
      ThousandsLayout(s, i + 1);
      ThousandsShift(s, i);
      MarksFrom(s, i, |s|);
      LandsFirst(s, i);
      forall j | i < j < |s| ensures Lands(s, i, j, Thousands(s, i)) {
        LandsShifted(s, i, j);
      }
    }
  }

  /** The first character of the rewrite is `s[i]`, followed by its dot when marked. */
  lemma LandsFirst(s: string, i: nat)
    requires i < |s|
    ensures Lands(s, i, i, Thousands(s, i))
  {
    ThousandsShift(s, i);
    assert Marks(s, i, i) == 0;
  }

  /** A character after `i` lands one or two places further on than in the rewrite from `i + 1`. */
  lemma LandsShifted(s: string, i: nat, j: nat)
    requires i < j < |s|
    requires Lands(s, i + 1, j, Thousands(s, i + 1))
    ensures Lands(s, i, j, Thousands(s, i))
  {
    ThousandsShift(s, i);
    MarksFrom(s, i, j);
    var t := Thousands(s, i);
    var p := if Mark(s, i) then 1 else 0;
    var k := j - (i + 1) + Marks(s, i + 1, j);
    assert t[1 + p + k] == t[1 + p..][k];
    if Mark(s, j) {
      assert t[1 + p + k + 1] == t[1 + p..][k + 1];
    }
  }

  /** Counting the marks from `i` on: the mark at `i`, then the others. */
  lemma MarksFrom(s: string, i: nat, j: nat)
    requires i < j <= |s|
    ensures Marks(s, i, j) == (if Mark(s, i) then 1 else 0) + Marks(s, i + 1, j)
  {
  }

  /** One step of the insertion: the first character, its dot if marked, then the rest shifted by one or two. */
  lemma ThousandsShift(s: string, i: nat)
    requires i < |s|
    ensures var p := if Mark(s, i) then 1 else 0;
            && |Thousands(s, i)| == 1 + p + |Thousands(s, i + 1)|
            && Thousands(s, i)[0] == s[i]
            && (Mark(s, i) ==> Thousands(s, i)[1] == '.')
            && Thousands(s, i)[1 + p..] == Thousands(s, i + 1)
  {
    var rest := Thousands(s, i + 1);
    if Mark(s, i) {
      assert Thousands(s, i) == [s[i]] + "." + rest;
    } else {
      assert Thousands(s, i) == [s[i]] + rest;
    }
  }

  /** Deleting every `.` on both sides gives the same text: the characters other than `.` keep their order. */
  lemma {:induction false} ThousandsOnlyAddsDots(s: string, i: nat)
    requires i <= |s|
    ensures RemoveChar(Thousands(s, i), '.') == RemoveChar(s[i..], '.')
    decreases |s| - i
  {
    if i < |s| {
      ThousandsOnlyAddsDots(s, i + 1);
      var piece := [s[i]] + (if Mark(s, i) then "." else "");
      assert Thousands(s, i) == piece + Thousands(s, i + 1);
      DotDropped(s[i], Mark(s, i));
      RemoveCharAppend(piece, Thousands(s, i + 1), '.');
      assert s[i..] == [s[i]] + s[i + 1..];
      RemoveCharAppend([s[i]], s[i + 1..], '.');
    }
  }

  /** The dot placed after a character disappears again when dots are removed. */
  lemma DotDropped(c: char, marked: bool)
    ensures RemoveChar([c] + (if marked then "." else ""), '.') == RemoveChar([c], '.')
  {
    if marked {
      assert ([c] + ".")[..1] == [c];
    } else {
      assert [c] + "" == [c];
    }
  }

  /** Without a `,` nothing is inserted. */
  lemma {:induction false} ThousandsNeedComma(s: string, i: nat)
    requires i <= |s| && ',' !in s
    ensures Thousands(s, i) == s[i..]
    decreases |s| - i
  {
    if i < |s| {
      ThousandsNeedComma(s, i + 1);
      assert !Mark(s, i) by {
        var n := DigitRun(s, i + 1);
        if i + 1 + n < |s| {
          assert s[i + 1 + n] in s;
        }
      }
      assert s[i..] == [s[i]] + s[i + 1..];
    }
  }

  /** A value already written with a `.` for thousands: no digit starts three digits before the `,`, so nothing is inserted. */
  lemma DottedExample()
    ensures InsertThousands("1.234,56") == "1.234,56"
  {
    var s := "1.234,56";
    DigitRunExact(s, 8, 0);
    assert Thousands(s, 7) == "6";
    DigitRunExact(s, 7, 1);
    assert Thousands(s, 6) == "56";
    assert Thousands(s, 5) == ",56";
    DigitRunExact(s, 5, 0);
    assert Thousands(s, 4) == "4,56";
    DigitRunExact(s, 4, 1);
    assert Thousands(s, 3) == "34,56";
    DigitRunExact(s, 3, 2);
    assert Thousands(s, 2) == "234,56";
    assert Thousands(s, 1) == ".234,56";
    DigitRunExact(s, 1, 0);
  }

  // ---------------------------------------------------------------------------
  // Steps 3 and 4: `str.replace(',', '.')`, then `str.replace('.', ',')`

  function UnifySeparators(t: string): string
  {
    ReplaceChar(ReplaceChar(t, ',', '.'), '.', ',')
  }

  /**
   * The two replacements turn both separators into `,` and change nothing
   * else: no `.` is left, and there are as many `,` as there were `,` and `.`.
   */
  lemma {:induction false} UnifySeparatorsShape(t: string)
    ensures |UnifySeparators(t)| == |t|
    ensures forall i :: 0 <= i < |t| ==>
              UnifySeparators(t)[i] == if t[i] == ',' || t[i] == '.' then ',' else t[i]
    ensures '.' !in UnifySeparators(t)
    ensures CountChar(UnifySeparators(t), ',') == CountChar(t, ',') + CountChar(t, '.')
    decreases |t|
  {
    var r := UnifySeparators(t);
    if t != [] {
      var t' := t[..|t| - 1];
      UnifySeparatorsShape(t');
      assert r[..|r| - 1] == UnifySeparators(t');
    }
  }

  // ---------------------------------------------------------------------------
  // The whole rewrite

  /** The value after lines 11, 14, 15 and 18. */
  function Normalize(v: string): string
  {
    UnifySeparators(InsertThousands(RemoveCurrency(v)))
  }

  /** The result never holds a `.`, and it counts one `,` per separator after the thousands step. */
  lemma NormalizeSeparators(v: string)
    ensures '.' !in Normalize(v)
    ensures var t := InsertThousands(RemoveCurrency(v));
            CountChar(Normalize(v), ',') == CountChar(t, ',') + CountChar(t, '.')
  {
    UnifySeparatorsShape(InsertThousands(RemoveCurrency(v)));
  }

  /** `R$1234,56` becomes `1,234,56`: the decimal comma and the thousands mark look the same. */
  lemma NormalizeExample()
    ensures Normalize("R$1234,56") == "1,234,56"
  {
    CurrencyExample();
    ThousandsExample();
    UnifyExample();
  }

  lemma CurrencyExample()
    ensures RemoveCurrency("R$1234,56") == "1234,56"
  {
    assert "R$1234,56"[2..] == "1234,56";
    CurrencyAbsent("1234,56");
  }

  lemma UnifyExample()
    ensures UnifySeparators("1.234,56") == "1,234,56"
  {
    var u := ReplaceChar("1.234,56", ',', '.');
    assert u[0] == '1' && u[1] == '.' && u[2] == '2' && u[3] == '3' && u[4] == '4' && u[5] == '.' && u[6] == '5' && u[7] == '6';
    var r := ReplaceChar(u, '.', ',');
    assert r[0] == '1' && r[1] == ',' && r[2] == '2' && r[3] == '3' && r[4] == '4' && r[5] == ',' && r[6] == '5' && r[7] == '6';
  }

  /** Only the `1`, which starts the group `234` before the comma, is marked. */
  lemma ThousandsExample()
    ensures InsertThousands("1234,56") == "1.234,56"
  {
    var s := "1234,56";
    DigitRunExact(s, 7, 0);
    assert Thousands(s, 6) == "6";
    DigitRunExact(s, 6, 1);
    assert Thousands(s, 5) == "56";
    assert Thousands(s, 4) == ",56";
    DigitRunExact(s, 4, 0);
    assert Thousands(s, 3) == "4,56";
    DigitRunExact(s, 3, 1);
    assert Thousands(s, 2) == "34,56";
    DigitRunExact(s, 2, 2);
    assert Thousands(s, 1) == "234,56";
    DigitRunExact(s, 1, 3);
    assert Mark(s, 0);
  }

  /** A decimal point and a decimal comma give the same result: `123.456` and `123,456` both end as `123,456`. */
  lemma PointAndCommaConflated()
    ensures Normalize("123.456") == Normalize("123,456") == "123,456"
  {
    NoCurrencyThreeThree();
    NoCommaExample();
    NoMarkExample();
    UnifyThreeThree();
  }

  lemma NoCurrencyThreeThree()
    ensures RemoveCurrency("123.456") == "123.456"
    ensures RemoveCurrency("123,456") == "123,456"
  {
    NoRIn("123.456");
    NoRIn("123,456");
  }

  /** A seven-character value with no `R` holds no `R$`. */
  lemma NoRIn(s: string)
    requires |s| == 7
    requires s[0] != 'R' && s[1] != 'R' && s[2] != 'R' && s[3] != 'R' && s[4] != 'R' && s[5] != 'R'
    ensures RemoveCurrency(s) == s
  {
    CurrencyAbsent(s);
  }

  /** In `123.456` there is no comma, so nothing is inserted. */
  lemma NoCommaExample()
    ensures InsertThousands("123.456") == "123.456"
  {
    var p := "123.456";
    ThousandsNeedComma(p, 0);
    assert p[0..] == p;
  }

  lemma UnifyThreeThree()
    ensures UnifySeparators("123.456") == "123,456"
    ensures UnifySeparators("123,456") == "123,456"
  {
    var u := ReplaceChar("123.456", ',', '.');
    assert u[0] == '1' && u[1] == '2' && u[2] == '3' && u[3] == '.' && u[4] == '4' && u[5] == '5' && u[6] == '6';
    var r := ReplaceChar(u, '.', ',');
    assert r[0] == '1' && r[1] == '2' && r[2] == '3' && r[3] == ',' && r[4] == '4' && r[5] == '5' && r[6] == '6';
    var v := ReplaceChar("123,456", ',', '.');
    assert v == u;
  }

  /** In `123,456` no digit starts a group of three before the comma. */
  lemma NoMarkExample()
    ensures InsertThousands("123,456") == "123,456"
  {
    var s := "123,456";
    DigitRunExact(s, 7, 0);
    assert Thousands(s, 6) == "6";
    DigitRunExact(s, 6, 1);
    assert Thousands(s, 5) == "56";
    DigitRunExact(s, 5, 2);
    assert Thousands(s, 4) == "456";
    assert Thousands(s, 3) == ",456";
    DigitRunExact(s, 3, 0);
    assert Thousands(s, 2) == "3,456";
    DigitRunExact(s, 2, 1);
    assert Thousands(s, 1) == "23,456";
    DigitRunExact(s, 1, 2);
  }

  /** `R$1.234,56` also becomes `1,234,56`: the thousands dot survives step 2 and turns into `,`. */
  lemma DottedNormalizeExample()
    ensures Normalize("R$1.234,56") == "1,234,56"
  {
    assert "R$1.234,56"[2..] == "1.234,56";
    CurrencyAbsent("1.234,56");
    DottedExample();
    UnifyExample();
  }

  // ---------------------------------------------------------------------------
  // The column

  const IncomeColumn: string := "renda_media"

  /** `df['renda_media'] = ...` for each step: the value of every row is rewritten; a missing column raises. */
  function NormalizeColumn(rows: seq<Row>): (r: seq<Row>)
    requires forall i :: 0 <= i < |rows| ==> IncomeColumn in rows[i]
    ensures |r| == |rows|
  {
    seq(|rows|, i requires 0 <= i < |rows| => rows[i][IncomeColumn := Normalize(rows[i][IncomeColumn])])
  }

  /** Only the income cell of each row changes, and the rows keep their columns. */
  lemma NormalizeColumnLocal(rows: seq<Row>, i: nat, k: string)
    requires forall j :: 0 <= j < |rows| ==> IncomeColumn in rows[j]
    requires i < |rows|
    ensures NormalizeColumn(rows)[i].Keys == rows[i].Keys
    ensures k != IncomeColumn ==> Cell(NormalizeColumn(rows)[i], k) == Cell(rows[i], k)
    ensures NormalizeColumn(rows)[i][IncomeColumn] == Normalize(rows[i][IncomeColumn])
  {
  }
}
