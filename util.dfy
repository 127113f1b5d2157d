/** The statistics helpers and tables of src/util.ts: the Mann-Whitney
    score and U statistic, the z-test, the critical-value table, the
    divisor table and `formatNumber`. Scores come in halves, so they are
    carried doubled, as natural numbers. */
module Util {
  import opened Types
  import Text

  /** Twice the points one opponent `y` gives `x`: none when `y > x`, a
      whole point when `y < x`, half a point for a tie. */
  function Points(x: int, y: int): (p: nat)
    ensures p <= 2
    ensures p == 0 <==> y > x
  {
    if y > x then 0 else if y < x then 2 else 1
  }

  /** Twice `getScore(x, b)`. */
  function Score(x: int, b: seq<int>): (s: nat)
    ensures s <= 2 * |b|
  {
    if b == [] then 0 else Points(x, b[0]) + Score(x, b[1..])
  }

  /** `getScore(x, b)` as the source computes it, in halves. */
  function ScoreReal(x: int, b: seq<int>): real
  {
    if b == [] then 0.0
    else (if b[0] > x then 0.0 else if b[0] < x then 1.0 else 0.5) + ScoreReal(x, b[1..])
  }

  /** Twice `getU(a, b)`. */
  function U(a: seq<int>, b: seq<int>): nat
  {
    if a == [] then 0 else Score(a[0], b) + U(a[1..], b)
  }

  /** `getU(a, b)` as the source computes it, in halves. */
  function UReal(a: seq<int>, b: seq<int>): real
  {
    if a == [] then 0.0 else ScoreReal(a[0], b) + UReal(a[1..], b)
  }

  /** The doubled score is exactly twice the source's fractional score. */
  lemma {:induction false} ScoreIsDoubled(x: int, b: seq<int>)
    ensures ScoreReal(x, b) * 2.0 == Score(x, b) as real
  {
    if b != [] {
      ScoreIsDoubled(x, b[1..]);
    }
  }

  /** The doubled U is exactly twice the source's fractional U. */
  lemma {:induction false} UIsDoubled(a: seq<int>, b: seq<int>)
    ensures UReal(a, b) * 2.0 == U(a, b) as real
  {
    if a != [] {
      ScoreIsDoubled(a[0], b);
      UIsDoubled(a[1..], b);
    }
  }

  /** A score is zero exactly when every opponent is strictly greater. */
  lemma {:induction false} ScoreZero(x: int, b: seq<int>)
    ensures Score(x, b) == 0 <==> forall j :: 0 <= j < |b| ==> x < b[j]
  {
    if b != [] {
      ScoreZero(x, b[1..]);
      assert forall j :: 1 <= j < |b| ==> b[j] == b[1..][j - 1];
    }
  }

  /** `getU(a, b)` is zero exactly when every element of `a` is strictly
      below every element of `b` (vacuously so when either is empty). */
  lemma {:induction false} UZero(a: seq<int>, b: seq<int>)
    ensures U(a, b) == 0 <==> forall i, j :: 0 <= i < |a| && 0 <= j < |b| ==> a[i] < b[j]
  {
    if a != [] {
      ScoreZero(a[0], b);
      UZero(a[1..], b);
      assert forall i :: 1 <= i < |a| ==> a[i] == a[1..][i - 1];
    }
  }

  /** `getU(a, b)` lies between 0 and `|a|·|b|`. */
  lemma {:induction false} UBound(a: seq<int>, b: seq<int>)
    ensures U(a, b) <= 2 * |a| * |b|
  {
    if a != [] {
      UBound(a[1..], b);
      assert 2 * |a| * |b| == 2 * |b| + 2 * (|a| - 1) * |b|;
    }
  }

  /** Twice the points `a` collects against each element of `b`. */
  function Against(b: seq<int>, x: int): nat
  {
    if b == [] then 0 else Points(b[0], x) + Against(b[1..], x)
  }

  /** What `x` scores against `b` and what `b` scores against `x` sum to `|b|`. */
  lemma {:induction false} ScoreAgainst(x: int, b: seq<int>)
    ensures Score(x, b) + Against(b, x) == 2 * |b|
  {
    if b != [] {
      ScoreAgainst(x, b[1..]);
    }
  }

  /** Peeling the first element off the second sample of `getU`. */
  lemma {:induction false} UCons(b: seq<int>, x: int, a: seq<int>)
    ensures U(b, [x] + a) == Against(b, x) + U(b, a)
  {
    if b != [] {
      assert ([x] + a)[1..] == a;
      UCons(b[1..], x, a);
    }
  }

  /** `getU(a, b) + getU(b, a) == |a|·|b|`. */
  lemma {:induction false} USum(a: seq<int>, b: seq<int>)
    ensures U(a, b) + U(b, a) == 2 * |a| * |b|
  {
    if a != [] {
      var n, m := |a| - 1, |b|;
      assert U(a[1..], b) + U(b, a[1..]) == 2 * n * m by { USum(a[1..], b); }
      assert Score(a[0], b) + Against(b, a[0]) == 2 * m by { ScoreAgainst(a[0], b); }
      assert U(b, a) == Against(b, a[0]) + U(b, a[1..]) by {
        assert [a[0]] + a[1..] == a;
        UCons(b, a[0], a[1..]);
      }
      assert U(a, b) == Score(a[0], b) + U(a[1..], b);
      ProductStep(n, m);
    } else {
      UNil(b);
    }
  }

  lemma ProductStep(n: int, m: int)
    ensures 2 * (n + 1) * m == 2 * m + 2 * n * m
  {
  }

  lemma {:induction false} UNil(b: seq<int>)
    ensures U(b, []) == 0
  {
    if b != [] {
      UNil(b[1..]);
    }
  }

  /** The test `|getZ(u, n1, n2)| > 1.96` in squared form over the reals,
      where `u2` is twice `u`. When `n1·n2 == 0` the source divides zero
      by zero and the resulting NaN is never above 1.96. */
  function ZTest(u2: nat, n1: nat, n2: nat): bool
  {
    var deviation := (u2 as real) / 2.0 - ((n1 * n2) as real) / 2.0;
    var variance := ((n1 * n2 * (n1 + n2 + 1)) as real) / 12.0;
    variance > 0.0 && deviation * deviation > 1.96 * 1.96 * variance
  }

  /** The same test in whole numbers: with `d = 2u − n1·n2`, the squared
      deviation is `d²/4`, and `d²/4 > 3.8416·n1·n2·(n1 + n2 + 1)/12` is
      `30000·d² > 38416·n1·n2·(n1 + n2 + 1)`. */
  function ZSignificant(u2: nat, n1: nat, n2: nat): bool
  {
    var p := n1 * n2;
    var d := u2 - p;
    p > 0 && 30000 * (d * d) > 38416 * (p * (n1 + n2 + 1))
  }

  /** The whole-number test decides exactly what the real one does. */
  lemma ZSignificantExact(u2: nat, n1: nat, n2: nat)
    ensures ZSignificant(u2, n1, n2) == ZTest(u2, n1, n2)
  {
    var p := n1 * n2;
    var d := u2 - p;
    var q := p * (n1 + n2 + 1);
    assert n1 * n2 * (n1 + n2 + 1) == q;
    var dr := d as real;
    var deviation := (u2 as real) / 2.0 - (p as real) / 2.0;
    assert deviation == dr / 2.0;
    assert deviation * deviation == dr * dr / 4.0 by { SquareHalf(dr); }
    assert (d * d) as real == dr * dr by { SquareCast(d); }
    assert q > 0 <==> p > 0 by {
      if p > 0 {
        assert q >= p;
      }
    }
    ScaledCompare(dr * dr, q as real);
  }

  lemma SquareHalf(x: real)
    ensures (x / 2.0) * (x / 2.0) == x * x / 4.0
  {
  }

  lemma SquareCast(d: int)
    ensures (d * d) as real == (d as real) * (d as real)
  {
  }

  /** `x/4 > 1.96²·q/12` scaled by 30000 on both sides. */
  lemma ScaledCompare(x: real, q: real)
    ensures x / 4.0 > 1.96 * 1.96 * (q / 12.0) <==> 30000.0 * x > 38416.0 * q
  {
  }

  /** At the centre of the distribution the test never fires. */
  lemma ZCentre(n1: nat, n2: nat)
    ensures !ZSignificant(n1 * n2, n1, n2)
  {
  }

  /** The critical Mann-Whitney U values for 95% confidence: row `n` is for
      the larger sample size `n`, its entry `j` for the smaller size `j + 3`. */
  const Row5: seq<nat> := [0, 1, 2]
  const Row6: seq<nat> := [1, 2, 3, 5]
  const Row7: seq<nat> := [1, 3, 5, 6, 8]
  const Row8: seq<nat> := [2, 4, 6, 8, 10, 13]
  const Row9: seq<nat> := [2, 4, 7, 10, 12, 15, 17]
  const Row10: seq<nat> := [3, 5, 8, 11, 14, 17, 20, 23]
  const Row11: seq<nat> := [3, 6, 9, 13, 16, 19, 23, 26, 30]
  const Row12: seq<nat> := [4, 7, 11, 14, 18, 22, 26, 29, 33, 37]
  const Row13: seq<nat> := [4, 8, 12, 16, 20, 24, 28, 33, 37, 41, 45]
  const Row14: seq<nat> := [5, 9, 13, 17, 22, 26, 31, 36, 40, 45, 50, 55]
  const Row15: seq<nat> := [5, 10, 14, 19, 24, 29, 34, 39, 44, 49, 54, 59, 64]
  const Row16: seq<nat> := [6, 11, 15, 21, 26, 31, 37, 42, 47, 53, 59, 64, 70, 75]
  const Row17: seq<nat> := [6, 11, 17, 22, 28, 34, 39, 45, 51, 57, 63, 67, 75, 81, 87]
  const Row18: seq<nat> := [7, 12, 18, 24, 30, 36, 42, 48, 55, 61, 67, 74, 80, 86, 93, 99]
  const Row19: seq<nat> := [7, 13, 19, 25, 32, 38, 45, 52, 58, 65, 72, 78, 85, 92, 99, 106, 113]
  const Row20: seq<nat> := [8, 14, 20, 27, 34, 41, 48, 55, 62, 69, 76, 83, 90, 98, 105, 112, 119, 127]
  const Row21: seq<nat> := [8, 15, 22, 29, 36, 43, 50, 58, 65, 73, 80, 88, 96, 103, 111, 119, 126, 134, 142]
  const Row22: seq<nat> := [9, 16, 23, 30, 38, 45, 53, 61, 69, 77, 85, 93, 101, 109, 117, 125, 133, 141, 150, 158]
  const Row23: seq<nat> := [9, 17, 24, 32, 40, 48, 56, 64, 73, 81, 89, 98, 106, 115, 123, 132, 140, 149, 157, 166, 175]
  const Row24: seq<nat> := [10, 17, 25, 33, 42, 50, 59, 67, 76, 85, 94, 102, 111, 120, 129, 138, 147, 156, 165, 174, 183, 192]
  const Row25: seq<nat> := [10, 18, 27, 35, 44, 53, 62, 71, 80, 89, 98, 107, 117, 126, 135, 145, 154, 163, 173, 182, 192, 201, 211]
  const Row26: seq<nat> := [11, 19, 28, 37, 46, 55, 64, 74, 83, 93, 102, 112, 122, 132, 141, 151, 161, 171, 181, 191, 200, 210, 220, 230]
  const Row27: seq<nat> := [11, 20, 29, 38, 48, 57, 67, 77, 87, 97, 107, 118, 125, 138, 147, 158, 168, 178, 188, 199, 209, 219, 230, 240, 250]
  const Row28: seq<nat> := [12, 21, 30, 40, 50, 60, 70, 80, 90, 101, 111, 122, 132, 143, 154, 164, 175, 186, 196, 207, 218, 228, 239, 250, 261, 272]
  const Row29: seq<nat> := [13, 22, 32, 42, 52, 62, 73, 83, 94, 105, 116, 127, 138, 149, 160, 171, 182, 193, 204, 215, 226, 238, 249, 260, 271, 282, 294]
  const Row30: seq<nat> := [13, 23, 33, 43, 54, 65, 76, 87, 98, 109, 120, 131, 143, 154, 166, 177, 189, 200, 212, 223, 235, 247, 258, 270, 282, 293, 305, 317]

  /** `uTable`, keyed from 5: entry `k` is row `k + 5`. */
  const UTable: seq<seq<nat>> := [
    Row5, Row6, Row7, Row8, Row9, Row10,
    Row11, Row12, Row13, Row14, Row15, Row16,
    Row17, Row18, Row19, Row20, Row21, Row22,
    Row23, Row24, Row25, Row26, Row27, Row28,
    Row29, Row30]

  /** What each row of `uTable` satisfies: row `n` holds `n - 2` values,
      they are non-decreasing, and each lies strictly below the centre
      `n·m/2` of the U distribution for sizes `n` and `m`. */
  ghost predicate RowFacts(row: seq<nat>, n: int)
  {
    && |row| == n - 2
    && (forall j :: 0 < j < |row| ==> row[j - 1] <= row[j])
    && (forall j :: 0 <= j < |row| ==> 2 * row[j] < n * (j + 3))
  }

  lemma Row5Facts() ensures RowFacts(Row5, 5) {}
  lemma Row6Facts() ensures RowFacts(Row6, 6) {}
  lemma Row7Facts() ensures RowFacts(Row7, 7) {}
  lemma Row8Facts() ensures RowFacts(Row8, 8) {}
  lemma Row9Facts() ensures RowFacts(Row9, 9) {}
  lemma Row10Facts() ensures RowFacts(Row10, 10) {}
  lemma Row11Facts() ensures RowFacts(Row11, 11) {}
  lemma Row12Facts() ensures RowFacts(Row12, 12) {}
  lemma Row13Facts() ensures RowFacts(Row13, 13) {}
  lemma Row14Facts() ensures RowFacts(Row14, 14) {}
  lemma Row15Facts() ensures RowFacts(Row15, 15) {}
  lemma Row16Facts() ensures RowFacts(Row16, 16) {}
  lemma Row17Facts() ensures RowFacts(Row17, 17) {}
  lemma Row18Facts() ensures RowFacts(Row18, 18) {}
  lemma Row19Facts() ensures RowFacts(Row19, 19) {}
  lemma Row20Facts() ensures RowFacts(Row20, 20) {}
  lemma Row21Facts() ensures RowFacts(Row21, 21) {}
  lemma Row22Facts() ensures RowFacts(Row22, 22) {}
  lemma Row23Facts() ensures RowFacts(Row23, 23) {}
  lemma Row24Facts() ensures RowFacts(Row24, 24) {}
  lemma Row25Facts() ensures RowFacts(Row25, 25) {}
  lemma Row26Facts() ensures RowFacts(Row26, 26) {}
  lemma Row27Facts() ensures RowFacts(Row27, 27) {}
  lemma Row28Facts() ensures RowFacts(Row28, 28) {}
  lemma Row29Facts() ensures RowFacts(Row29, 29) {}
  lemma Row30Facts() ensures RowFacts(Row30, 30) {}

  /** Every row `n` in 5..30 of `uTable` has the shape `RowFacts` states. */
  lemma UTableRows(n: int)
    requires 5 <= n <= 30
    ensures |UTable| == 26 && RowFacts(UTable[n - 5], n)
  {
    if n == 5 { Row5Facts(); }
    else if n == 6 { Row6Facts(); }
    else if n == 7 { Row7Facts(); }
    else if n == 8 { Row8Facts(); }
    else if n == 9 { Row9Facts(); }
    else if n == 10 { Row10Facts(); }
    else if n == 11 { Row11Facts(); }
    else if n == 12 { Row12Facts(); }
    else if n == 13 { Row13Facts(); }
    else if n == 14 { Row14Facts(); }
    else if n == 15 { Row15Facts(); }
    else if n == 16 { Row16Facts(); }
    else if n == 17 { Row17Facts(); }
    else if n == 18 { Row18Facts(); }
    else if n == 19 { Row19Facts(); }
    else if n == 20 { Row20Facts(); }
    else if n == 21 { Row21Facts(); }
    else if n == 22 { Row22Facts(); }
    else if n == 23 { Row23Facts(); }
    else if n == 24 { Row24Facts(); }
    else if n == 25 { Row25Facts(); }
    else if n == 26 { Row26Facts(); }
    else if n == 27 { Row27Facts(); }
    else if n == 28 { Row28Facts(); }
    else if n == 29 { Row29Facts(); }
    else if n == 30 { Row30Facts(); }
  }

  /** The `critical` value `compare` tests `u` against, for sample sizes
      whose sum is at most 30: 0 outside the table, the table entry inside. */
  function Critical(maxSize: nat, minSize: nat): (c: nat)
    requires minSize <= maxSize && minSize + maxSize <= 30
    ensures maxSize < 5 || minSize < 3 ==> c == 0
    ensures 5 <= maxSize && 3 <= minSize ==> 2 * c < maxSize * minSize
  {
    if maxSize < 5 || minSize < 3 then 0
    else
      UTableRows(maxSize);
      UTable[maxSize - 5][minSize - 3]
  }

  /** `divisors`: defined for cycle indices 1..5 only. */
  function Divisor(cycle: int): (d: Option<nat>)
    ensures d.Some? <==> 1 <= cycle <= 5
    ensures cycle == 5 ==> d == Some(0)
  {
    if cycle == 1 then Some(4096)
    else if cycle == 2 then Some(512)
    else if cycle == 3 then Some(64)
    else if cycle == 4 then Some(8)
    else if cycle == 5 then Some(0)
    else None
  }

  /** The divisors strictly decrease along the cycle indices. */
  lemma DivisorsDecrease(i: int, j: int)
    requires 1 <= i < j <= 5
    ensures Divisor(i).value > Divisor(j).value
  {
  }

  /** `\d` */
  predicate IsDigit(ch: char)
  {
    '0' <= ch <= '9'
  }

  /** `\w` */
  predicate IsWordChar(ch: char)
  {
    IsDigit(ch) || 'a' <= ch <= 'z' || 'A' <= ch <= 'Z' || ch == '_'
  }

  predicate AllDigits(s: string)
  {
    forall i :: 0 <= i < |s| ==> IsDigit(s[i])
  }

  /** Where `/(?=(?:\d{3})+$)(?!\b)/` matches: the rest of the text is a
      positive multiple of three digits, and the position is not a word
      boundary, which (the next character being a digit) means the previous
      character exists and is a word character. */
  predicate CommaAt(s: string, p: nat)
    requires p < |s|
  {
    0 < p && AllDigits(s[p..]) && (|s| - p) % 3 == 0 && IsWordChar(s[p - 1])
  }

  /** `s[p..]` after the global replace, which puts a comma at each match. */
  function Group(s: string, p: nat): string
    requires p <= |s|
    decreases |s| - p
  {
    if p == |s| then ""
    else (if CommaAt(s, p) then [','] else []) + [s[p]] + Group(s, p + 1)
  }

  /** Text without digits is left as it is. */
  lemma {:induction false} GroupNoDigits(s: string, p: nat)
    requires p <= |s|
    requires forall i :: p <= i < |s| ==> !IsDigit(s[i])
    ensures Group(s, p) == s[p..]
    decreases |s| - p
  {
    if p < |s| {
      assert !AllDigits(s[p..]) by { assert !IsDigit(s[p..][0]); }
      GroupNoDigits(s, p + 1);
      assert s[p..] == [s[p]] + s[p + 1..];
    }
  }

  /** `formatNumber(n)`: group the part before the first `.`, and keep the
      part after it, if that part is non-empty. */
  function FormatNumber(n: string): string
  {
    var num := Text.Split(n, '.');
    Group(num[0], 0) + (if |num| > 1 && num[1] != "" then "." + num[1] else "")
  }

  function Strip(s: string): (r: string)
    ensures ',' !in r
  {
    if s == [] then "" else (if s[0] == ',' then "" else [s[0]]) + Strip(s[1..])
  }

  lemma {:induction false} StripAppend(a: string, b: string)
    ensures Strip(a + b) == Strip(a) + Strip(b)
  {
    if a != [] {
      assert (a + b)[0] == a[0];
      assert (a + b)[1..] == a[1..] + b;
      StripAppend(a[1..], b);
    } else {
      assert a + b == b;
    }
  }

  /** Grouping only inserts commas. */
  lemma {:induction false} GroupStrip(s: string, p: nat)
    requires p <= |s|
    ensures Strip(Group(s, p)) == Strip(s[p..])
    decreases |s| - p
  {
    if p < |s| {
      var c: string := if CommaAt(s, p) then [','] else [];
      calc {
        Strip(Group(s, p));
        Strip(c + [s[p]] + Group(s, p + 1));
        { StripAppend(c + [s[p]], Group(s, p + 1)); }
        Strip(c + [s[p]]) + Strip(Group(s, p + 1));
        { StripAppend(c, [s[p]]); GroupStrip(s, p + 1); }
        Strip(c) + Strip([s[p]]) + Strip(s[p + 1..]);
        { assert Strip(c) == ""; }
        Strip([s[p]]) + Strip(s[p + 1..]);
        { StripAppend([s[p]], s[p + 1..]); assert s[p..] == [s[p]] + s[p + 1..]; }
        Strip(s[p..]);
      }
    }
  }

  /** With its commas deleted, `formatNumber(n)` is the text before the
      first `.`, then `.` and the second piece if that piece is non-empty;
      a trailing `.` and everything from a second `.` on are dropped. */
  lemma FormatNumberStrip(n: string)
    ensures var num := Text.Split(n, '.');
      Strip(FormatNumber(n)) ==
        Strip(num[0]) + (if |num| > 1 && num[1] != "" then Strip("." + num[1]) else "")
  {
    var num := Text.Split(n, '.');
    GroupStrip(num[0], 0);
    assert num[0][0..] == num[0];
    StripAppend(Group(num[0], 0), if |num| > 1 && num[1] != "" then "." + num[1] else "");
  }

  /** The reference grouping of a digit string: from the right, in threes. */
  function Thousands(s: string): string
  {
    if |s| <= 3 then s else Thousands(s[..|s| - 3]) + "," + s[|s| - 3..]
  }

  /** Within the last three characters, and in a text of three, there is
      no comma. */
  lemma {:induction false} GroupTail(s: string, p: nat)
    requires p <= |s| && (|s| - p < 3 || (p == 0 && |s| == 3))
    ensures Group(s, p) == s[p..]
    decreases |s| - p
  {
    if p < |s| {
      GroupTail(s, p + 1);
      assert s[p..] == [s[p]] + s[p + 1..];
    }
  }

  /** In a digit string, dropping the last three digits keeps every
      comma position before them. */
  lemma CommaAtPrefix(s: string, p: nat)
    requires AllDigits(s) && |s| > 3 && p < |s| - 3
    ensures CommaAt(s, p) == CommaAt(s[..|s| - 3], p)
  {
    var t := s[..|s| - 3];
    assert AllDigits(s[p..]) by {
      forall i | 0 <= i < |s[p..]| ensures IsDigit(s[p..][i]) { assert s[p..][i] == s[p + i]; }
    }
    assert AllDigits(t[p..]) by {
      forall i | 0 <= i < |t[p..]| ensures IsDigit(t[p..][i]) { assert t[p..][i] == s[p + i]; }
    }
    assert (|s| - p) % 3 == (|t| - p) % 3 by { assert |s| - p == (|t| - p) + 3; }
    if 0 < p {
      assert s[p - 1] == t[p - 1];
    }
  }

  /** Grouping a digit string splits off its last three digits. */
  lemma {:induction false} GroupSplitLast(s: string, p: nat)
    requires AllDigits(s) && |s| > 3 && p <= |s| - 3
    ensures Group(s, p) == Group(s[..|s| - 3], p) + "," + s[|s| - 3..]
    decreases |s| - p
  {
    var t := s[..|s| - 3];
    var last := s[|s| - 3..];
    if p == |t| {
      assert Group(t, p) == "";
      GroupLastThree(s);
    } else {
      assert Group(s, p + 1) == Group(t, p + 1) + "," + last by {
        GroupSplitLast(s, p + 1);
      }
      assert CommaAt(s, p) == CommaAt(t, p) by {
        CommaAtPrefix(s, p);
      }
      GroupCons(s, t, p, last);
    }
  }

  /** Two texts that agree at `p`, both in the character and in whether a
      comma goes before it, keep a common comma-separated ending. */
  lemma GroupCons(s: string, t: string, p: nat, last: string)
    requires p < |t| && p < |s| && s[p] == t[p] && CommaAt(s, p) == CommaAt(t, p)
    requires Group(s, p + 1) == Group(t, p + 1) + "," + last
    ensures Group(s, p) == Group(t, p) + "," + last
  {
    var c: string := if CommaAt(s, p) then [','] else [];
    var g := Group(t, p + 1);
    assert Group(s, p) == c + [s[p]] + (g + "," + last);
    assert Group(t, p) == c + [t[p]] + g;
    assert c + [t[p]] + (g + "," + last) == (c + [t[p]] + g) + "," + last;
  }

  /** The last three digits of a longer digit string get one comma in
      front of them. */
  lemma GroupLastThree(s: string)
    requires AllDigits(s) && |s| > 3
    ensures Group(s, |s| - 3) == "," + s[|s| - 3..]
  {
    var p := |s| - 3;
    assert CommaAt(s, p) by {
      DigitsSlice(s, p, |s|);
      assert s[p..] == s[p..|s|];
      assert IsDigit(s[p - 1]);
    }
    assert Group(s, p + 1) == s[p + 1..] by { GroupTail(s, p + 1); }
    assert s[p..] == [s[p]] + s[p + 1..];
  }

  lemma DigitsSlice(s: string, i: nat, j: nat)
    requires AllDigits(s) && i <= j <= |s|
    ensures AllDigits(s[i..j])
  {
    forall k | 0 <= k < j - i ensures IsDigit(s[i..j][k]) { assert s[i..j][k] == s[i + k]; }
  }

  /** For a digit string, the regex grouping is the reference grouping:
      commas exactly before the positions `0 < i < L` with `(L - i) % 3 == 0`. */
  lemma {:induction false} GroupDigits(s: string)
    requires AllDigits(s)
    ensures Group(s, 0) == Thousands(s)
    decreases |s|
  {
    if |s| <= 3 {
      GroupTail(s, 0);
      assert s[0..] == s;
    } else {
      var t := s[..|s| - 3];
      GroupSplitLast(s, 0);
      DigitsSlice(s, 0, |s| - 3);
      GroupDigits(t);
    }
  }

  /** The pieces between commas: a first group of one to three digits,
      then groups of exactly three, `(n + 2) / 3` groups in all. */
  ghost predicate Grouped(g: seq<string>, n: nat)
  {
    && 1 <= |g|
    && 1 <= |g[0]| <= 3
    && (forall i :: 1 <= i < |g| ==> |g[i]| == 3)
    && |g| == (n + 2) / 3
  }

  /** `Thousands` yields a first group of one to three digits and then
      groups of exactly three, each preceded by a comma, and dropping the
      commas gives the digits back. */
  lemma ThousandsShape(s: string)
    requires AllDigits(s) && s != []
    ensures var g := Text.Split(Thousands(s), ',');
      && 1 <= |g[0]| <= 3
      && (forall i :: 1 <= i < |g| ==> |g[i]| == 3)
      && |g| == (|s| + 2) / 3
      && Strip(Thousands(s)) == s
  {
    ThousandsGroups(s);
    ThousandsStrip(s);
  }

  lemma {:induction false} ThousandsGroups(s: string)
    requires AllDigits(s) && s != []
    ensures Grouped(Text.Split(Thousands(s), ','), |s|)
    decreases |s|
  {
    if |s| <= 3 {
      assert ',' !in s by { assert forall i :: 0 <= i < |s| ==> IsDigit(s[i]); }
      Text.SplitNone(s, ',');
    } else {
      var t := s[..|s| - 3];
      var last := s[|s| - 3..];
      DigitsSlice(s, 0, |s| - 3);
      DigitsSlice(s, |s| - 3, |s|);
      assert last == s[|s| - 3..|s|];
      ThousandsGroups(t);
      assert ',' !in last by { assert forall i :: 0 <= i < |last| ==> IsDigit(last[i]); }
      var r := Thousands(t);
      assert Thousands(s) == r + "," + last;
      SplitSnoc(r, last);
      var gt := Text.Split(r, ',');
      var g := gt + [last];
      assert g[0] == gt[0];
      forall i | 1 <= i < |g| ensures |g[i]| == 3 {
        if i < |gt| { assert g[i] == gt[i]; }
      }
      assert |g| == (|s| + 2) / 3 by { assert |s| == |t| + 3; }
      assert Grouped(g, |s|);
    }
  }

  lemma {:induction false} ThousandsStrip(s: string)
    requires AllDigits(s)
    ensures Strip(Thousands(s)) == s
    decreases |s|
  {
    if |s| <= 3 {
      assert ',' !in s by { assert forall i :: 0 <= i < |s| ==> IsDigit(s[i]); }
      StripNone(s);
    } else {
      var t := s[..|s| - 3];
      var last := s[|s| - 3..];
      DigitsSlice(s, 0, |s| - 3);
      ThousandsStrip(t);
      assert ',' !in last by {
        DigitsSlice(s, |s| - 3, |s|);
        assert last == s[|s| - 3..|s|];
        assert forall i :: 0 <= i < |last| ==> IsDigit(last[i]);
      }
      StripGroupThenLast(Thousands(t), last);
      SliceJoin(s, |s| - 3);
    }
  }

  /** Dropping the commas of `r,last` drops those of `r` and keeps `last`
      when it has none. */
  lemma StripGroupThenLast(r: string, last: string)
    requires ',' !in last
    ensures Strip(r + "," + last) == Strip(r) + last
  {
    StripAppend(r + ",", last);
    StripAppend(r, ",");
    StripNone(last);
  }

  lemma SliceJoin(s: string, k: nat)
    requires k <= |s|
    ensures s[..k] + s[k..] == s
  {
  }

  lemma {:induction false} StripNone(s: string)
    requires ',' !in s
    ensures Strip(s) == s
  {
    if s != [] {
      StripNone(s[1..]);
      assert [s[0]] + s[1..] == s;
    }
  }

  /** Splitting off a trailing comma-free piece. */
  lemma {:induction false} SplitSnoc(r: string, last: string)
    requires ',' !in last
    ensures Text.Split(r + "," + last, ',') == Text.Split(r, ',') + [last]
  {
    if r == [] {
      assert r + "," + last == [','] + last;
      assert ([','] + last)[1..] == last;
      Text.SplitNone(last, ',');
    } else {
      SplitSnoc(r[1..], last);
      assert (r + "," + last)[1..] == r[1..] + "," + last;
    }
  }
}
