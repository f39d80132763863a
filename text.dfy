/**
 * The few Python string operations the scripts rely on: `str.strip()`,
 * `str.lower()`, `sub in s`, `str.count`, `str.replace` of one character and
 * `str.find` of one character.
 */
module Text {

  /** Python's `str.isspace` for one character (the complete Unicode set Python uses). */
  predicate IsSpace(c: char)
  {
    || c == ' ' || '\t' <= c <= '\r' || '\U{001C}' <= c <= '\U{001F}'
    || c == '\U{0085}' || c == '\U{00A0}' || c == '\U{1680}' || '\U{2000}' <= c <= '\U{200A}'
    || c == '\U{2028}' || c == '\U{2029}' || c == '\U{202F}' || c == '\U{205F}' || c == '\U{3000}'
  }

  /** An ASCII digit: the regular-expression class `[0-9]`. */
  predicate IsDigit(c: char)
  {
    '0' <= c <= '9'
  }

  predicate AllSpace(s: string)
  {
    forall i :: 0 <= i < |s| ==> IsSpace(s[i])
  }

  /** Number of leading whitespace characters. */
  function LeadCount(s: string): (n: nat)
    ensures n <= |s|
  {
    if |s| > 0 && IsSpace(s[0]) then 1 + LeadCount(s[1..]) else 0
  }

  /** Number of trailing whitespace characters. */
  function TrailCount(s: string): (n: nat)
    ensures n <= |s|
  {
    if |s| > 0 && IsSpace(s[|s| - 1]) then 1 + TrailCount(s[..|s| - 1]) else 0
  }

  /** Python's `s.strip()`: drop leading and trailing whitespace. */
  function Strip(s: string): (r: string)
    ensures |r| <= |s|
  {
    var t := s[LeadCount(s)..];
    t[..|t| - TrailCount(t)]
  }

  predicate IsBlank(s: string)
  {
    Strip(s) == ""
  }

  /** Lower-casing of one character (ASCII letters only). */
  function LowerChar(c: char): (d: char)
    ensures 'A' <= c <= 'Z' ==> d as int == c as int + 32
    ensures !('A' <= c <= 'Z') ==> d == c
  {
    if 'A' <= c <= 'Z' then (c as int + 32) as char else c
  }

  /** Python's `s.lower()` restricted to ASCII letters. */
  function Lower(s: string): (r: string)
    ensures |r| == |s|
    ensures forall i :: 0 <= i < |s| ==> r[i] == LowerChar(s[i])
  {
    seq(|s|, i requires 0 <= i < |s| => LowerChar(s[i]))
  }

  /** `[x.lower() for x in xs]` */
  function LowerAll(xs: seq<string>): (r: seq<string>)
    ensures |r| == |xs|
    ensures forall i :: 0 <= i < |xs| ==> r[i] == Lower(xs[i])
  {
    seq(|xs|, i requires 0 <= i < |xs| => Lower(xs[i]))
  }

  /** Python's `p in s` for strings: `p` occurs as a contiguous piece of `s`. */
  predicate IsSubstring(p: string, s: string)
  {
    p <= s || (|s| > 0 && IsSubstring(p, s[1..]))
  }

  /** Python's `s.count(c)` for a one-character `c`. */
  function CountChar(s: string, c: char): (n: nat)
    ensures n <= |s|
  {
    if s == [] then 0 else CountChar(s[..|s| - 1], c) + (if s[|s| - 1] == c then 1 else 0)
  }

  /** Python's `s.replace(a, b)` for one-character `a` and `b`. */
  function ReplaceChar(s: string, a: char, b: char): (r: string)
    ensures |r| == |s|
    ensures forall i :: 0 <= i < |s| ==> r[i] == if s[i] == a then b else s[i]
  {
    seq(|s|, i requires 0 <= i < |s| => if s[i] == a then b else s[i])
  }

  /** The characters of `s` that satisfy `keep`, in order. */
  function Filter(s: string, keep: char -> bool): (r: string)
    ensures |r| <= |s|
  {
    if s == [] then [] else Filter(s[..|s| - 1], keep) + (if keep(s[|s| - 1]) then [s[|s| - 1]] else [])
  }

  /** Python's `s.replace(c, "")` for a one-character `c`. */
  function RemoveChar(s: string, c: char): (r: string)
    ensures |r| == |s| - CountChar(s, c)
  {
    if s == [] then [] else RemoveChar(s[..|s| - 1], c) + (if s[|s| - 1] == c then [] else [s[|s| - 1]])
  }

  /** Python's `s.find(c)`: index of the first `c`, or -1. */
  function Find(s: string, c: char): (k: int)
    ensures -1 <= k < |s|
    ensures k >= 0 ==> s[k] == c
  {
    if s == [] then -1
    else if s[0] == c then 0
    else var k := Find(s[1..], c); if k == -1 then -1 else k + 1
  }

  // ---------------------------------------------------------------------------
  // Lemmas

  /** A character is counted exactly when it occurs. */
  lemma {:induction false} CountCharPositive(s: string, c: char)
    ensures CountChar(s, c) > 0 <==> c in s
  {
    if s != [] {
      CountCharPositive(s[..|s| - 1], c);
      assert s == s[..|s| - 1] + [s[|s| - 1]];
    }
  }

  /** `Find` fails exactly when the character does not occur. */
  lemma {:induction false} FindFound(s: string, c: char)
    ensures Find(s, c) >= 0 <==> c in s
  {
    if s != [] && s[0] != c {
      FindFound(s[1..], c);
      assert s == [s[0]] + s[1..];
    }
  }

  /** `Find` gives the first occurrence: none precedes it. */
  lemma {:induction false} FindIsFirst(s: string, c: char)
    requires c in s
    ensures 0 <= Find(s, c)
    ensures c !in s[..Find(s, c)]
  {
    FindFound(s, c);
    if s[0] != c {
      assert s == [s[0]] + s[1..];
      FindIsFirst(s[1..], c);
      assert s[..Find(s, c)] == [s[0]] + s[1..][..Find(s[1..], c)];
    }
  }

  lemma {:induction false} FilterAppend(a: string, b: string, keep: char -> bool)
    ensures Filter(a + b, keep) == Filter(a, keep) + Filter(b, keep)
    decreases |b|
  {
    if b == [] {
      assert a + b == a;
    } else {
      var b' := b[..|b| - 1];
      assert (a + b)[..|a + b| - 1] == a + b';
      FilterAppend(a, b', keep);
    }
  }

  lemma {:induction false} CountCharAppend(a: string, b: string, c: char)
    ensures CountChar(a + b, c) == CountChar(a, c) + CountChar(b, c)
    decreases |b|
  {
    if b == [] {
      assert a + b == a;
    } else {
      var b' := b[..|b| - 1];
      assert (a + b)[..|a + b| - 1] == a + b';
      CountCharAppend(a, b', c);
    }
  }

  lemma {:induction false} RemoveCharAppend(a: string, b: string, c: char)
    ensures RemoveChar(a + b, c) == RemoveChar(a, c) + RemoveChar(b, c)
    decreases |b|
  {
    if b == [] {
      assert a + b == a;
    } else {
      var b' := b[..|b| - 1];
      assert (a + b)[..|a + b| - 1] == a + b';
      RemoveCharAppend(a, b', c);
    }
  }

  /** Every character `Filter` keeps satisfies the predicate. */
  lemma {:induction false} FilterKeeps(s: string, keep: char -> bool)
    ensures forall i :: 0 <= i < |Filter(s, keep)| ==> keep(Filter(s, keep)[i])
  {
    if s != [] {
      FilterKeeps(s[..|s| - 1], keep);
    }
  }

  /** `Filter` only keeps characters of its input. */
  lemma {:induction false} FilterSubset(s: string, keep: char -> bool)
    ensures forall c :: c in Filter(s, keep) ==> c in s
  {
    if s != [] {
      FilterSubset(s[..|s| - 1], keep);
      assert s == s[..|s| - 1] + [s[|s| - 1]];
    }
  }

  /** `RemoveChar` leaves no occurrence of the character and adds no other. */
  lemma {:induction false} RemoveCharRemoves(s: string, c: char)
    ensures c !in RemoveChar(s, c)
    ensures forall d :: d in RemoveChar(s, c) ==> d in s
  {
    if s != [] {
      RemoveCharRemoves(s[..|s| - 1], c);
      assert s == s[..|s| - 1] + [s[|s| - 1]];
    }
  }

  /** Removing a character that does not occur changes nothing. */
  lemma {:induction false} RemoveAbsentChar(s: string, c: char)
    requires c !in s
    ensures RemoveChar(s, c) == s
  {
    if s != [] {
      assert s == s[..|s| - 1] + [s[|s| - 1]];
      RemoveAbsentChar(s[..|s| - 1], c);
    }
  }

  /** Filtering with a predicate that every character satisfies changes nothing. */
  lemma {:induction false} FilterAllKept(s: string, keep: char -> bool)
    requires forall i :: 0 <= i < |s| ==> keep(s[i])
    ensures Filter(s, keep) == s
  {
    if s != [] {
      assert s == s[..|s| - 1] + [s[|s| - 1]];
      FilterAllKept(s[..|s| - 1], keep);
    }
  }

  /** Filtering with a predicate that no character satisfies leaves nothing. */
  lemma {:induction false} FilterNoneKept(s: string, keep: char -> bool)
    requires forall i :: 0 <= i < |s| ==> !keep(s[i])
    ensures Filter(s, keep) == []
  {
    if s != [] {
      FilterNoneKept(s[..|s| - 1], keep);
    }
  }

  /** `LeadCount` counts exactly the whitespace run at the front. */
  lemma {:induction false} LeadCountSpaces(s: string)
    ensures forall i :: 0 <= i < LeadCount(s) ==> IsSpace(s[i])
    ensures LeadCount(s) < |s| ==> !IsSpace(s[LeadCount(s)])
  {
    if |s| > 0 && IsSpace(s[0]) {
      LeadCountSpaces(s[1..]);
      forall i | 1 <= i < LeadCount(s) ensures IsSpace(s[i]) {
        assert s[i] == s[1..][i - 1];
      }
    }
  }

  /** `TrailCount` counts exactly the whitespace run at the back. */
  lemma {:induction false} TrailCountSpaces(s: string)
    ensures forall i :: |s| - TrailCount(s) <= i < |s| ==> IsSpace(s[i])
    ensures TrailCount(s) < |s| ==> !IsSpace(s[|s| - 1 - TrailCount(s)])
  {
    if |s| > 0 && IsSpace(s[|s| - 1]) {
      var s' := s[..|s| - 1];
      TrailCountSpaces(s');
      forall i | |s| - TrailCount(s) <= i < |s| - 1 ensures IsSpace(s[i]) {
        assert s[i] == s'[i];
      }
    }
  }

  /** `Strip(s)` is `s` with some all-whitespace prefix and suffix removed. */
  lemma StripSplit(s: string) returns (a: nat, b: nat)
    ensures a <= b <= |s|
    ensures Strip(s) == s[a..b]
    ensures AllSpace(s[..a]) && AllSpace(s[b..])
  {
    a := LeadCount(s);
    LeadCountSpaces(s);
    var t := s[a..];
    TrailCountSpaces(t);
    b := a + |t| - TrailCount(t);
    assert Strip(s) == t[..|t| - TrailCount(t)] == s[a..b];
    forall i | 0 <= i < |s[b..]| ensures IsSpace(s[b..][i]) {
      assert s[b..][i] == t[|t| - TrailCount(t) + i];
    }
  }

  /** Stripping leaves nothing exactly when the string is all whitespace. */
  lemma StripEmpty(s: string)
    ensures Strip(s) == "" <==> AllSpace(s)
  {
    LeadCountSpaces(s);
    if LeadCount(s) < |s| {
      var t := s[LeadCount(s)..];
      TrailCountSpaces(t);
      assert !IsSpace(t[0]);
    }
  }

  /** A non-empty stripped string starts and ends with a non-whitespace character. */
  lemma StripEnds(s: string)
    ensures Strip(s) != "" ==> !IsSpace(Strip(s)[0]) && !IsSpace(Strip(s)[|Strip(s)| - 1])
  {
    LeadCountSpaces(s);
    var t := s[LeadCount(s)..];
    TrailCountSpaces(t);
    if Strip(s) != "" {
      assert Strip(s)[0] == t[0];
    }
  }

  /** Lower-casing neither creates nor removes whitespace. */
  lemma LowerKeepsSpace(c: char)
    ensures IsSpace(LowerChar(c)) == IsSpace(c)
  {
  }

  lemma {:induction false} LeadCountLower(s: string)
    ensures LeadCount(Lower(s)) == LeadCount(s)
  {
    if |s| > 0 {
      LowerKeepsSpace(s[0]);
      assert Lower(s)[1..] == Lower(s[1..]);
      LeadCountLower(s[1..]);
    }
  }

  lemma {:induction false} TrailCountLower(s: string)
    ensures TrailCount(Lower(s)) == TrailCount(s)
  {
    if |s| > 0 {
      LowerKeepsSpace(s[|s| - 1]);
      assert Lower(s)[..|s| - 1] == Lower(s[..|s| - 1]);
      TrailCountLower(s[..|s| - 1]);
    }
  }

  /**
   * `s.lower().strip() == s.strip().lower()`: the order in which the scripts
   * apply the two operations does not matter.
   */
  lemma StripLowerCommute(s: string)
    ensures Strip(Lower(s)) == Lower(Strip(s))
  {
    LeadCountLower(s);
    var a := LeadCount(s);
    assert Lower(s)[a..] == Lower(s[a..]);
    TrailCountLower(s[a..]);
  }
}
