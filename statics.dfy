/** The pure members of src/benchmark.ts: `compare`, the static `filter`
    and `join`, `toString`, the option merge of `run` and `clone`, and the
    count-adaptation rule of `cycle`. A benchmark is seen through the
    fields these members read. */
module Statics {
  import opened Types
  import Util
  import Text

  /** What `compare`, `filter` and `toString` read of a benchmark. `self`
      is the instance itself, for `===`; `failed` is whether `error` is
      set; `sample` is `stats.sample`. */
  datatype BenchView = BenchView(
    self: object,
    cycles: nat,
    hz: Extended<real>,
    failed: bool,
    mean: real,
    moe: real,
    sample: seq<int>)

  // ---------------------------------------------------------------------
  // compare

  /** `compare` on two distinct instances: the Mann-Whitney U test of their
      samples. 1 means the first is faster (its U is the smaller one). */
  function CompareSamples(s1: seq<int>, s2: seq<int>): (r: CompareResult)
    ensures r == 1 ==> Util.U(s1, s2) <= Util.U(s2, s1)
    ensures r == -1 ==> Util.U(s2, s1) < Util.U(s1, s2)
  {
    var n1 := |s1|;
    var n2 := |s2|;
    var maxSize := if n1 >= n2 then n1 else n2;
    var minSize := if n1 <= n2 then n1 else n2;
    var u1 := Util.U(s1, s2);
    var u2 := Util.U(s2, s1);
    var u := if u1 <= u2 then u1 else u2;
    if n1 + n2 > 30 then
      if Util.ZSignificant(u, n1, n2) then (if u == u1 then 1 else -1) else 0
    else
      if u <= 2 * Util.Critical(maxSize, minSize) then (if u == u1 then 1 else -1) else 0
  }

  /** `a.compare(b)`: indeterminate for the same instance. */
  function Compare(a: BenchView, b: BenchView): (r: CompareResult)
    ensures a.self == b.self ==> r == 0
    ensures a.self != b.self ==> r == CompareSamples(a.sample, b.sample)
    ensures r == 1 ==> a.self != b.self && Util.U(a.sample, b.sample) <= Util.U(b.sample, a.sample)
    ensures r == -1 ==> a.self != b.self && Util.U(b.sample, a.sample) < Util.U(a.sample, b.sample)
  {
    if a.self == b.self then 0 else CompareSamples(a.sample, b.sample)
  }

  /** The z-test does not depend on the order of the sizes. */
  lemma ZSymmetric(u2: nat, n1: nat, n2: nat)
    ensures Util.ZSignificant(u2, n1, n2) == Util.ZSignificant(u2, n2, n1)
  {
    assert n1 * n2 == n2 * n1;
    assert n1 * n2 * (n1 + n2 + 1) == n2 * n1 * (n2 + n1 + 1);
  }

  /** Swapping the operands swaps `u1` and `u2` and nothing else, so when
      they differ the verdict flips. */
  lemma CompareSwap(s1: seq<int>, s2: seq<int>)
    requires Util.U(s1, s2) != Util.U(s2, s1)
    ensures CompareSamples(s2, s1) == -CompareSamples(s1, s2)
  {
    ZSymmetric(if Util.U(s1, s2) <= Util.U(s2, s1) then Util.U(s1, s2) else Util.U(s2, s1), |s1|, |s2|);
  }

  /** When `u1 == u2` both directions give the same verdict. */
  lemma CompareTie(s1: seq<int>, s2: seq<int>)
    requires Util.U(s1, s2) == Util.U(s2, s1)
    ensures CompareSamples(s2, s1) == CompareSamples(s1, s2)
  {
    ZSymmetric(Util.U(s1, s2), |s1|, |s2|);
  }

  /** For two non-empty samples `compare` is antisymmetric: a tie of the U
      values sits at the centre, where neither the table nor the z-test
      fires. */
  lemma CompareAntisymmetric(s1: seq<int>, s2: seq<int>)
    requires s1 != [] && s2 != []
    ensures CompareSamples(s2, s1) == -CompareSamples(s1, s2)
  {
    if Util.U(s1, s2) != Util.U(s2, s1) {
      CompareSwap(s1, s2);
    } else {
      CompareTie(s1, s2);
      TieIsIndeterminate(s1, s2);
    }
  }

  /** Equal U values of two non-empty samples give 0. */
  lemma TieIsIndeterminate(s1: seq<int>, s2: seq<int>)
    requires s1 != [] && s2 != [] && Util.U(s1, s2) == Util.U(s2, s1)
    ensures CompareSamples(s1, s2) == 0
  {
    var n1, n2 := |s1|, |s2|;
    TieAtCentre(Util.U(s1, s2), Util.U(s2, s1), n1, n2) by { Util.USum(s1, s2); }
    if n1 + n2 > 30 {
      Util.ZCentre(n1, n2);
    } else {
      CentreAboveCritical(n1, n2);
    }
  }

  /** Two U values summing to `n1·n2` (doubled) are equal only at the centre. */
  lemma TieAtCentre(u1: nat, u2: nat, n1: nat, n2: nat)
    requires u1 == u2 && u1 + u2 == 2 * n1 * n2
    ensures u1 == n1 * n2
  {
    assert 2 * n1 * n2 == 2 * (n1 * n2);
  }

  /** The centre of the U distribution (doubled) lies above every critical
      value the table gives. */
  lemma CentreAboveCritical(n1: nat, n2: nat)
    requires 1 <= n1 && 1 <= n2 && n1 + n2 <= 30
    ensures n1 * n2 > 2 * Util.Critical(if n1 >= n2 then n1 else n2, if n1 <= n2 then n1 else n2)
  {
    var maxSize := if n1 >= n2 then n1 else n2;
    var minSize := if n1 <= n2 then n1 else n2;
    assert maxSize * minSize == n1 * n2;
    assert 0 < n1 * n2;
  }

  /** With an empty sample `u1 == u2 == 0`: up to a combined size of 30 the
      forced `critical` of 0 makes both directions report 1; beyond it the
      z-test divides zero by zero and both directions report 0. */
  lemma CompareEmpty(s: seq<int>)
    ensures |s| <= 30 ==> CompareSamples([], s) == 1 && CompareSamples(s, []) == 1
    ensures |s| > 30 ==> CompareSamples([], s) == 0 && CompareSamples(s, []) == 0
  {
    Util.UNil(s);
    assert Util.U([], s) == 0;
  }

  /** The z-test fires when one sample lies wholly below the other and both
      have at least two elements: then `3·n1·n2 > 3.8416·(n1 + n2 + 1)`. */
  lemma ZExtreme(n1: nat, n2: nat)
    requires n1 >= 2 && n2 >= 2 && n1 + n2 > 30
    ensures Util.ZSignificant(0, n1, n2)
  {
    var p := n1 * n2;
    var t := n1 + n2 + 1;
    assert (n1 - 2) * (n2 - 2) >= 0;
    assert p >= 2 * (n1 + n2) - 4;
    assert 30000 * p > 38416 * t;
    assert p > 0;
    assert 30000 * (p * p) > 38416 * (p * t) by {
      assert (30000 * p) * p > (38416 * t) * p;
    }
    assert (0 - p) * (0 - p) == p * p;
  }

  /** A sample wholly below the other (every period shorter) is reported
      faster, and the other one slower, within the table and, for samples
      of at least two elements, by the z-test. */
  lemma CompareAllBelow(s1: seq<int>, s2: seq<int>)
    requires s1 != [] && s2 != []
    requires forall i, j :: 0 <= i < |s1| && 0 <= j < |s2| ==> s1[i] < s2[j]
    requires |s1| + |s2| <= 30 || (|s1| >= 2 && |s2| >= 2)
    ensures CompareSamples(s1, s2) == 1
    ensures CompareSamples(s2, s1) == -1
  {
    Util.UZero(s1, s2);
    Util.USum(s1, s2);
    assert Util.U(s1, s2) == 0;
    assert 0 < |s1| * |s2|;
    if |s1| + |s2| > 30 {
      ZExtreme(|s1|, |s2|);
    }
    CompareSwap(s1, s2);
  }

  /** Five ones against five twos: U is 0 and the table entry for sizes
      (5, 5) is 2, so the verdict is definite. */
  lemma CompareFiveAgainstFive()
    ensures CompareSamples([1, 1, 1, 1, 1], [2, 2, 2, 2, 2]) == 1
    ensures CompareSamples([2, 2, 2, 2, 2], [1, 1, 1, 1, 1]) == -1
  {
    var a: seq<int> := [1, 1, 1, 1, 1];
    var b: seq<int> := [2, 2, 2, 2, 2];
    assert forall i, j :: 0 <= i < |a| && 0 <= j < |b| ==> a[i] < b[j];
    CompareAllBelow(a, b);
  }

  // ---------------------------------------------------------------------
  // filter

  /** `_.filter(array, f)` for a predicate `f`: the elements it accepts, in
      their order. */
  function Keep(arr: seq<BenchView>, f: BenchView -> bool): (r: seq<BenchView>)
    ensures |r| <= |arr|
    ensures forall i :: 0 <= i < |r| ==> f(r[i]) && r[i] in arr
  {
    if arr == [] then []
    else (if f(arr[0]) then [arr[0]] else []) + Keep(arr[1..], f)
  }

  /** Filtering a concatenation filters each part. */
  lemma {:induction false} KeepAppend(a: seq<BenchView>, b: seq<BenchView>, f: BenchView -> bool)
    ensures Keep(a + b, f) == Keep(a, f) + Keep(b, f)
  {
    if a == [] {
      assert a + b == b;
    } else {
      assert (a + b)[0] == a[0];
      assert (a + b)[1..] == a[1..] + b;
      KeepAppend(a[1..], b, f);
    }
  }

  /** Every accepted element is kept. */
  lemma {:induction false} KeepMembers(arr: seq<BenchView>, f: BenchView -> bool, x: BenchView)
    ensures x in Keep(arr, f) <==> x in arr && f(x)
  {
    if arr != [] {
      KeepMembers(arr[1..], f, x);
      assert arr == [arr[0]] + arr[1..];
    }
  }

  /** What is kept is a subsequence: pairs keep their relative order. */
  lemma {:induction false} KeepOrder(arr: seq<BenchView>, f: BenchView -> bool, P: (BenchView, BenchView) -> bool)
    requires forall i, j :: 0 <= i < j < |arr| ==> P(arr[i], arr[j])
    ensures forall i, j :: 0 <= i < j < |Keep(arr, f)| ==> P(Keep(arr, f)[i], Keep(arr, f)[j])
  {
    if arr != [] {
      var tail := arr[1..];
      var rest := Keep(tail, f);
      assert forall i, j :: 0 <= i < j < |tail| ==> P(tail[i], tail[j]) by {
        forall i, j | 0 <= i < j < |tail|
          ensures P(tail[i], tail[j])
        {
          assert tail[i] == arr[i + 1] && tail[j] == arr[j + 1];
        }
      }
      KeepOrder(tail, f, P);
      assert forall i, j :: 0 <= i < j < |rest| ==> P(rest[i], rest[j]);
      if f(arr[0]) {
        var r := [arr[0]] + rest;
        assert Keep(arr, f) == r;
        forall i, j | 0 <= i < j < |r|
          ensures P(r[i], r[j])
        {
          if i == 0 {
            var y := rest[j - 1];
            assert r[0] == arr[0] && r[j] == y;
            assert y in tail;
            var k :| 0 <= k < |tail| && tail[k] == y;
            assert arr[k + 1] == y;
            assert P(arr[0], arr[k + 1]);
          } else {
            assert r[i] == rest[i - 1] && r[j] == rest[j - 1];
            assert P(rest[i - 1], rest[j - 1]);
          }
        }
      } else {
        assert Keep(arr, f) == rest;
      }
    }
  }

  /** Keeping from a list whose head is accepted keeps that head first. */
  lemma KeepHead(arr: seq<BenchView>, f: BenchView -> bool)
    requires arr != [] && f(arr[0])
    ensures Keep(arr, f) != [] && Keep(arr, f)[0] == arr[0]
  {
    assert Keep(arr, f) == [arr[0]] + Keep(arr[1..], f);
  }

  /** The predicate `filter(array, 'successful')` is meant to use: at least
      one cycle, a finite `hz` and no error. */
  predicate IsSuccessful(b: BenchView)
  {
    b.cycles != 0 && b.hz.Finite? && !b.failed
  }

  /** `mean + moe`, the key `fastest` and `slowest` sort by. */
  function Key(b: BenchView): real
  {
    b.mean + b.moe
  }

  /** `a` may precede `b`: ascending keys for `fastest`, descending for
      `slowest`. */
  predicate Before(a: BenchView, b: BenchView, fastest: bool)
  {
    if fastest then Key(a) <= Key(b) else Key(a) >= Key(b)
  }

  predicate SortedBy(s: seq<BenchView>, fastest: bool)
  {
    forall i, j :: 0 <= i < j < |s| ==> Before(s[i], s[j], fastest)
  }

  function Insert(x: BenchView, s: seq<BenchView>, fastest: bool): (r: seq<BenchView>)
    ensures multiset(r) == multiset(s) + multiset{x}
  {
    if s == [] || Before(x, s[0], fastest) then [x] + s
    else
      assert s == [s[0]] + s[1..];
      [s[0]] + Insert(x, s[1..], fastest)
  }

  /** Inserting into a sorted list keeps it sorted. */
  lemma {:induction false} InsertSorted(x: BenchView, s: seq<BenchView>, fastest: bool)
    requires SortedBy(s, fastest)
    ensures SortedBy(Insert(x, s, fastest), fastest)
  {
    if s == [] {
    } else if Before(x, s[0], fastest) {
      forall k | 0 <= k < |s| ensures Before(x, s[k], fastest) {
        assert k == 0 || Before(s[0], s[k], fastest);
      }
      ConsSorted(x, s, fastest);
    } else {
      var rest := Insert(x, s[1..], fastest);
      InsertSorted(x, s[1..], fastest);
      HeadBeforeInserted(x, s, fastest);
      ConsSorted(s[0], rest, fastest);
    }
  }

  /** A sorted list stays sorted under a head that precedes all of it. */
  lemma ConsSorted(x: BenchView, s: seq<BenchView>, fastest: bool)
    requires SortedBy(s, fastest)
    requires forall k :: 0 <= k < |s| ==> Before(x, s[k], fastest)
    ensures SortedBy([x] + s, fastest)
  {
    var r := [x] + s;
    forall i, j | 0 <= i < j < |r|
      ensures Before(r[i], r[j], fastest)
    {
      if i == 0 {
        assert r[j] == s[j - 1];
      } else {
        assert r[i] == s[i - 1] && r[j] == s[j - 1];
      }
    }
  }

  /** When `x` does not go before the head of a sorted list, that head
      precedes everything `x` is inserted among. */
  lemma HeadBeforeInserted(x: BenchView, s: seq<BenchView>, fastest: bool)
    requires SortedBy(s, fastest) && s != [] && !Before(x, s[0], fastest)
    ensures forall k :: 0 <= k < |Insert(x, s[1..], fastest)| ==>
      Before(s[0], Insert(x, s[1..], fastest)[k], fastest)
  {
    var tail := s[1..];
    var rest := Insert(x, tail, fastest);
    forall k | 0 <= k < |rest|
      ensures Before(s[0], rest[k], fastest)
    {
      var y := rest[k];
      assert y in multiset(rest);
      if y != x {
        assert y in multiset(tail);
        var m :| 0 <= m < |tail| && tail[m] == y;
        assert s[m + 1] == y;
      }
    }
  }

  /** The `.sort` of `fastest`/`slowest`: a permutation of its input that
      is ordered by `mean + moe`. */
  function SortBy(s: seq<BenchView>, fastest: bool): (r: seq<BenchView>)
    ensures SortedBy(r, fastest)
    ensures multiset(r) == multiset(s)
  {
    if s == [] then []
    else
      assert s == [s[0]] + s[1..];
      var rest := SortBy(s[1..], fastest);
      InsertSorted(s[0], rest, fastest);
      Insert(s[0], rest, fastest)
  }

  /** A possible outcome of the engine's `.sort` on the successful
      benchmarks: ordered by `mean + moe` and a permutation of them. The
      source's comparator never answers 0, so the engine alone decides the
      order of equal keys; any such order is one of these. */
  predicate SortOf(r: seq<BenchView>, arr: seq<BenchView>, fastest: bool)
  {
    SortedBy(r, fastest) && multiset(r) == multiset(Keep(arr, IsSuccessful))
  }

  /** The last step of `fastest`/`slowest` on a sorted `result`: the
      elements `compare` cannot tell apart from its head. */
  function HeadTies(result: seq<BenchView>): seq<BenchView>
  {
    if result == [] then []
    else Keep(result, b => Compare(result[0], b) == 0)
  }

  /** `fastest` (or `slowest`) under the model's own choice of order for
      equal keys (`SortBy` keeps input order); the `HeadTies` lemmas below
      hold for every `SortOf` order. */
  function Extreme(arr: seq<BenchView>, fastest: bool): seq<BenchView>
  {
    HeadTies(SortBy(Keep(arr, IsSuccessful), fastest))
  }

  /** The second argument of `filter`. */
  datatype Callback =
    | Predicate(f: BenchView -> bool)
    | SuccessfulAlias
    | FastestAlias
    | SlowestAlias

  /** `Benchmark.filter(array, callback)` as it is evidently meant to work:
      the `'successful'` alias filters with the predicate it builds. */
  function Filter(arr: seq<BenchView>, callback: Callback): seq<BenchView>
  {
    match callback
    case Predicate(f) => Keep(arr, f)
    case SuccessfulAlias => Keep(arr, IsSuccessful)
    case FastestAlias => Extreme(arr, true)
    case SlowestAlias => Extreme(arr, false)
  }

  /** `Benchmark.filter` as written: for `'successful'` the predicate is
      built but the alias string itself is handed to `_.filter`, whose
      property shorthand then reads a `successful` field no benchmark has;
      `fastest` and `slowest` start from that empty result. */
  function FilterAsWritten(arr: seq<BenchView>, callback: Callback): seq<BenchView>
  {
    match callback
    case Predicate(f) => Keep(arr, f)
    case _ => Keep(arr, b => false)
  }

  /** As written, every alias yields an empty array. */
  lemma AliasesAsWrittenAreEmpty(arr: seq<BenchView>, callback: Callback)
    requires !callback.Predicate?
    ensures FilterAsWritten(arr, callback) == []
  {
    KeepNothing(arr, b => false);
  }

  /** A predicate that holds of nothing keeps nothing. */
  lemma {:induction false} KeepNothing(arr: seq<BenchView>, f: BenchView -> bool)
    requires forall b :: !f(b)
    ensures Keep(arr, f) == []
  {
    if arr != [] {
      KeepNothing(arr[1..], f);
    }
  }

  /** One successful benchmark is enough to tell the two apart. */
  lemma FilterAsWrittenDiffers(arr: seq<BenchView>, i: nat)
    requires i < |arr| && IsSuccessful(arr[i])
    ensures Filter(arr, SuccessfulAlias) != FilterAsWritten(arr, SuccessfulAlias)
    ensures Filter(arr, FastestAlias) != FilterAsWritten(arr, FastestAlias)
  {
    AliasesAsWrittenAreEmpty(arr, SuccessfulAlias);
    AliasesAsWrittenAreEmpty(arr, FastestAlias);
    KeepMembers(arr, IsSuccessful, arr[i]);
    ExtremeHead(arr, true);
  }

  /** `filter(array, 'successful')` keeps exactly the successful elements. */
  lemma FilterSuccessful(arr: seq<BenchView>, x: BenchView)
    ensures x in Filter(arr, SuccessfulAlias) <==> x in arr && IsSuccessful(x)
  {
    KeepMembers(arr, IsSuccessful, x);
  }

  /** Whatever order the engine gives equal keys, `fastest`/`slowest` keep
      only successful elements of the input. */
  lemma HeadTiesMembers(arr: seq<BenchView>, fastest: bool, r: seq<BenchView>)
    requires SortOf(r, arr, fastest)
    ensures forall i :: 0 <= i < |HeadTies(r)| ==>
      HeadTies(r)[i] in arr && IsSuccessful(HeadTies(r)[i])
  {
    var t := HeadTies(r);
    forall i | 0 <= i < |t|
      ensures t[i] in arr && IsSuccessful(t[i])
    {
      KeepMembers(r, b => Compare(r[0], b) == 0, t[i]);
      assert t[i] in multiset(Keep(arr, IsSuccessful));
      KeepMembers(arr, IsSuccessful, t[i]);
    }
  }

  /** Under any sorted order the result is sorted by `mean + moe`, and
      `compare` cannot tell any of it from the head. */
  lemma HeadTiesSortedTies(r: seq<BenchView>, fastest: bool)
    requires SortedBy(r, fastest)
    ensures SortedBy(HeadTies(r), fastest)
    ensures forall i :: 0 <= i < |HeadTies(r)| ==> Compare(HeadTies(r)[0], HeadTies(r)[i]) == 0
  {
    if r != [] {
      var f := b => Compare(r[0], b) == 0;
      KeepOrder(r, f, (a, b) => Before(a, b, fastest));
      KeepHead(r, f);
    }
  }

  /** Under any order the engine may give equal keys, a successful
      benchmark of the input is kept exactly when `compare` cannot tell it
      from the head. */
  lemma HeadTiesComplete(arr: seq<BenchView>, fastest: bool, r: seq<BenchView>, x: BenchView)
    requires SortOf(r, arr, fastest)
    requires x in arr && IsSuccessful(x)
    ensures HeadTies(r) != []
    ensures x in HeadTies(r) <==> Compare(HeadTies(r)[0], x) == 0
  {
    KeepMembers(arr, IsSuccessful, x);
    assert x in multiset(r);
    var f := b => Compare(r[0], b) == 0;
    KeepHead(r, f);
    KeepMembers(r, f, x);
  }

  /** Under any order the engine may give equal keys, when anything is
      successful the result is non-empty and its head is a successful
      element at the extreme of `mean + moe`. */
  lemma HeadTiesHead(arr: seq<BenchView>, fastest: bool, r: seq<BenchView>)
    requires SortOf(r, arr, fastest)
    requires exists i :: 0 <= i < |arr| && IsSuccessful(arr[i])
    ensures HeadTies(r) != []
    ensures forall y :: y in arr && IsSuccessful(y) ==> Before(HeadTies(r)[0], y, fastest)
  {
    var i :| 0 <= i < |arr| && IsSuccessful(arr[i]);
    KeepMembers(arr, IsSuccessful, arr[i]);
    assert arr[i] in multiset(r);
    var f := b => Compare(r[0], b) == 0;
    KeepHead(r, f);
    forall y | y in arr && IsSuccessful(y)
      ensures Before(r[0], y, fastest)
    {
      KeepMembers(arr, IsSuccessful, y);
      assert y in multiset(r);
      var k :| 0 <= k < |r| && r[k] == y;
      if k == 0 {
        assert Before(y, y, fastest);
      }
    }
  }

  /** Two orders the engine may produce lead to heads with the same
      `mean + moe`: only which of the tied benchmarks heads the result,
      and so which others `compare` ties with it, is the engine's choice. */
  lemma HeadTiesHeadKey(arr: seq<BenchView>, fastest: bool, r1: seq<BenchView>, r2: seq<BenchView>)
    requires SortOf(r1, arr, fastest) && SortOf(r2, arr, fastest)
    requires exists i :: 0 <= i < |arr| && IsSuccessful(arr[i])
    ensures HeadTies(r1) != [] && HeadTies(r2) != []
    ensures Key(HeadTies(r1)[0]) == Key(HeadTies(r2)[0])
  {
    HeadTiesHead(arr, fastest, r1);
    HeadTiesHead(arr, fastest, r2);
    HeadTiesMembers(arr, fastest, r1);
    HeadTiesMembers(arr, fastest, r2);
    var h1, h2 := HeadTies(r1)[0], HeadTies(r2)[0];
    assert Before(h1, h2, fastest) && Before(h2, h1, fastest);
  }

  /** `fastest`/`slowest` keep only successful elements of the input. */
  lemma ExtremeMembers(arr: seq<BenchView>, fastest: bool)
    ensures forall i :: 0 <= i < |Extreme(arr, fastest)| ==>
      Extreme(arr, fastest)[i] in arr && IsSuccessful(Extreme(arr, fastest)[i])
  {
    HeadTiesMembers(arr, fastest, SortBy(Keep(arr, IsSuccessful), fastest));
  }

  /** `fastest`/`slowest` are ordered by `mean + moe`, and `compare` cannot
      tell any of them from the head. */
  lemma ExtremeSortedTies(arr: seq<BenchView>, fastest: bool)
    ensures SortedBy(Extreme(arr, fastest), fastest)
    ensures forall i :: 0 <= i < |Extreme(arr, fastest)| ==>
      Compare(Extreme(arr, fastest)[0], Extreme(arr, fastest)[i]) == 0
  {
    HeadTiesSortedTies(SortBy(Keep(arr, IsSuccessful), fastest), fastest);
  }

  /** A successful benchmark of the input is in `fastest`/`slowest` exactly
      when `compare` cannot tell it from the head, so every tie is kept. */
  lemma ExtremeComplete(arr: seq<BenchView>, fastest: bool, x: BenchView)
    requires x in arr && IsSuccessful(x)
    ensures Extreme(arr, fastest) != []
    ensures x in Extreme(arr, fastest) <==> Compare(Extreme(arr, fastest)[0], x) == 0
  {
    HeadTiesComplete(arr, fastest, SortBy(Keep(arr, IsSuccessful), fastest), x);
  }

  /** When any benchmark is successful, `fastest`/`slowest` is non-empty and
      its head is a successful element at the extreme of `mean + moe`. */
  lemma ExtremeHead(arr: seq<BenchView>, fastest: bool)
    requires exists i :: 0 <= i < |arr| && IsSuccessful(arr[i])
    ensures Extreme(arr, fastest) != []
    ensures forall y :: y in arr && IsSuccessful(y) ==> Before(Extreme(arr, fastest)[0], y, fastest)
  {
    HeadTiesHead(arr, fastest, SortBy(Keep(arr, IsSuccessful), fastest));
  }

  // ---------------------------------------------------------------------
  // join

  /** The first argument of `join`: an array (its elements already passed
      through `String`) or an object's entries as key and value text. */
  datatype Joinable = Items(values: seq<string>) | Entries(pairs: seq<(string, string)>)

  const DefaultPairSeparator: string := ","
  const DefaultKeyValueSeparator: string := ": "

  /** Each entry as `key + separator2 + value`. */
  function Pairs(pairs: seq<(string, string)>, separator2: string): (r: seq<string>)
    ensures |r| == |pairs|
    ensures forall i :: 0 <= i < |r| ==> r[i] == pairs[i].0 + separator2 + pairs[i].1
  {
    if pairs == [] then []
    else [pairs[0].0 + separator2 + pairs[0].1] + Pairs(pairs[1..], separator2)
  }

  /** `Benchmark.join(value, separator1, separator2)`. */
  function Join(value: Joinable, separator1: string, separator2: string): (r: string)
    ensures value == Items([]) || value == Entries([]) ==> r == ""
  {
    match value
    case Items(values) => Text.Join(values, separator1)
    case Entries(pairs) => Text.Join(Pairs(pairs, separator2), separator1)
  }

  /** Splitting a joined array on a one-character separator that occurs in
      no element gives the elements back. */
  lemma JoinItemsSplit(values: seq<string>, c: char, separator2: string)
    requires values != []
    requires forall i :: 0 <= i < |values| ==> c !in values[i]
    ensures Text.Split(Join(Items(values), [c], separator2), c) == values
  {
    Text.SplitJoin(values, c);
  }

  /** Splitting a joined object on such a separator gives one
      `key + separator2 + value` piece per entry, in entry order. */
  lemma JoinEntriesSplit(pairs: seq<(string, string)>, c: char, separator2: string)
    requires pairs != []
    requires c !in separator2
    requires forall i :: 0 <= i < |pairs| ==> c !in pairs[i].0 && c !in pairs[i].1
    ensures Text.Split(Join(Entries(pairs), [c], separator2), c) == Pairs(pairs, separator2)
  {
    var ps := Pairs(pairs, separator2);
    forall i | 0 <= i < |ps|
      ensures c !in ps[i]
    {
      assert ps[i] == pairs[i].0 + separator2 + pairs[i].1;
    }
    Text.SplitJoin(ps, c);
  }

  // ---------------------------------------------------------------------
  // toString

  /** The `error` of a benchmark: a primitive, shown with `String`, or an
      object, shown with `join` and its default separators. */
  datatype ErrorValue = Primitive(text: string) | Fields(pairs: seq<(string, string)>)

  function DigitChar(d: nat): (c: char)
    requires d < 10
    ensures Util.IsDigit(c)
  {
    "0123456789"[d]
  }

  /** `String(n)` for a natural number. */
  function DecimalString(n: nat): (s: string)
    ensures s != [] && Util.AllDigits(s)
  {
    if n < 10 then [DigitChar(n)] else DecimalString(n / 10) + [DigitChar(n % 10)]
  }

  function DigitValue(c: char): nat
  {
    if Util.IsDigit(c) then (c as int - '0' as int) else 0
  }

  /** The value of a digit string, read from the left. */
  function ParseDecimal(s: string): nat
  {
    if s == [] then 0 else ParseDecimal(s[..|s| - 1]) * 10 + DigitValue(s[|s| - 1])
  }

  /** Reading back the decimal text of `n` gives `n`. */
  lemma {:induction false} DecimalRoundTrip(n: nat)
    ensures ParseDecimal(DecimalString(n)) == n
  {
    if n < 10 {
      assert "0123456789"[n] as int - '0' as int == n;
    } else {
      DecimalRoundTrip(n / 10);
      var s := DecimalString(n);
      assert s[..|s| - 1] == DecimalString(n / 10);
      assert "0123456789"[n % 10] as int - '0' as int == n % 10;
    }
  }

  /** `this.name || this.id`; the id is always a string, so the `<Test #…>`
      form is never used. */
  function Label(name: string, id: string): string
  {
    if name != "" then name else id
  }

  /** The closing words of a throughput line: `run`, pluralised unless
      exactly one period was sampled. */
  function RunsSampled(size: nat): string
  {
    " run" + (if size == 1 then "" else "s") + " sampled)"
  }

  /** The text after the title of a benchmark without an error, given
      the formatted `hz` and `rme`. */
  function Throughput(hzText: string, rmeText: string, size: nat): string
  {
    " x " + hzText + " ops/sec " + ['\U{00B1}'] + rmeText + "% (" + DecimalString(size) + RunsSampled(size)
  }

  /** `hz.toFixed(hz < 100 ? 2 : 0)`; an infinite `hz` prints as
      `Infinity`. */
  function HzFixed(hz: Extended<real>, toFixed: (real, nat) -> string): string
  {
    match hz
    case Infinity => "Infinity"
    case Finite(x) => toFixed(x, if x < 100.0 then 2 else 0)
  }

  /** `toString()`. `toFixed(x, d)` is `x.toFixed(d)` for a finite `x`,
      which the model leaves abstract. */
  function ToString(name: string, id: string, error: Option<ErrorValue>, hz: Extended<real>, rme: real,
                    size: nat, toFixed: (real, nat) -> string): string
  {
    Label(name, id) +
      match error
      case Some(Primitive(text)) => ": " + text
      case Some(Fields(pairs)) => ": " + Join(Entries(pairs), DefaultPairSeparator, DefaultKeyValueSeparator)
      case None =>
        Throughput(Util.FormatNumber(HzFixed(hz, toFixed)), toFixed(rme, 2), size)
  }

  predicate EndsWith(s: string, suffix: string)
  {
    |suffix| <= |s| && s[|s| - |suffix|..] == suffix
  }

  lemma EndsWithAppend(a: string, b: string)
    ensures EndsWith(a + b, b)
  {
    assert (a + b)[|a + b| - |b|..] == b;
  }

  /** A throughput line ends in `runs sampled)` exactly when the sample
      size is not one, and in `(1 run sampled)` when it is. */
  lemma ThroughputPlural(hzText: string, rmeText: string, size: nat)
    ensures EndsWith(Throughput(hzText, rmeText, size), "runs sampled)") <==> size != 1
    ensures size == 1 ==> EndsWith(Throughput(hzText, rmeText, size), "(1 run sampled)")
  {
    var head := " x " + hzText + " ops/sec " + ['\U{00B1}'] + rmeText + "% ";
    var prefix := head + "(" + DecimalString(size);
    assert Throughput(hzText, rmeText, size) == prefix + RunsSampled(size);
    if size == 1 {
      SingularTail(prefix);
      assert prefix + RunsSampled(size) == head + "(1 run sampled)" by {
        assert DecimalString(1) == "1";
      }
      EndsWithAppend(head, "(1 run sampled)");
    } else {
      PluralTail(prefix, size);
    }
  }

  /** `a + b` ends in a suffix as long as `b` exactly when `b` is it. */
  lemma EndsWithSameLength(a: string, b: string, suffix: string)
    requires |b| == |suffix|
    ensures EndsWith(a + b, suffix) <==> b == suffix
  {
    assert (a + b)[|a + b| - |suffix|..] == b;
  }

  lemma SingularTail(prefix: string)
    ensures !EndsWith(prefix + RunsSampled(1), "runs sampled)")
  {
    var tail := RunsSampled(1);
    assert tail == " run sampled)";
    assert tail[0] != "runs sampled)"[0];
    EndsWithSameLength(prefix, tail, "runs sampled)");
  }

  lemma PluralTail(prefix: string, size: nat)
    requires size != 1
    ensures EndsWith(prefix + RunsSampled(size), "runs sampled)")
  {
    assert prefix + RunsSampled(size) == (prefix + " ") + "runs sampled)";
    EndsWithAppend(prefix + " ", "runs sampled)");
  }

  /** The summary starts with the title, followed by `: ` and the error
      when there is one and by the throughput line otherwise. */
  lemma ToStringShape(name: string, id: string, error: Option<ErrorValue>, hz: Extended<real>, rme: real,
                      size: nat, toFixed: (real, nat) -> string)
    ensures |Label(name, id)| <= |ToString(name, id, error, hz, rme, size, toFixed)|
    ensures ToString(name, id, error, hz, rme, size, toFixed)[..|Label(name, id)|] == Label(name, id)
    ensures error.None? ==>
      (EndsWith(ToString(name, id, error, hz, rme, size, toFixed), "runs sampled)") <==> size != 1)
    ensures error.Some? ==> ToString(name, id, error, hz, rme, size, toFixed)[|Label(name, id)|..][..2] == ": "
  {
    var title := Label(name, id);
    var rest := match error
      case Some(Primitive(text)) => ": " + text
      case Some(Fields(pairs)) => ": " + Join(Entries(pairs), DefaultPairSeparator, DefaultKeyValueSeparator)
      case None =>
        Throughput(Util.FormatNumber(HzFixed(hz, toFixed)), toFixed(rme, 2), size);
    var r := ToString(name, id, error, hz, rme, size, toFixed);
    assert r == title + rest;
    assert r[..|title|] == title;
    assert r[|title|..] == rest;
    if error.None? {
      ThroughputPlural(Util.FormatNumber(HzFixed(hz, toFixed)), toFixed(rme, 2), size);
      assert r[|r| - 13..] == rest[|rest| - 13..];
    }
  }

  /** `formatNumber('1234')` is `'1,234'`. */
  lemma FormatNumberExample()
    ensures Util.FormatNumber("1234") == "1,234"
  {
    assert Text.Split("1234", '.') == ["1234"] by {
      Text.SplitNone("1234", '.');
    }
    Util.GroupDigits("1234");
    assert Util.Thousands("1234") == "1,234";
  }

  /** A benchmark whose `hz` overflowed, as a zero clock makes it, prints
      `Infinity` ungrouped: `formatNumber` only puts commas between digits. */
  lemma ToStringInfinite(name: string, id: string, rme: real, size: nat, toFixed: (real, nat) -> string)
    ensures ToString(name, id, None, Infinity, rme, size, toFixed)
      == Label(name, id) + Throughput("Infinity", toFixed(rme, 2), size)
  {
    assert Util.FormatNumber("Infinity") == "Infinity" by {
      Text.SplitNone("Infinity", '.');
      InfinityHasNoDigits();
    }
  }

  lemma InfinityHasNoDigits()
    ensures Util.Group("Infinity", 0) == "Infinity"
  {
    var s := "Infinity";
    assert forall i :: 0 <= i < |s| ==> !Util.IsDigit(s[i]);
    Util.GroupNoDigits(s, 0);
  }


  /** `"sort"` with a throughput whose fixed text is `1234`, an `rme` whose
      fixed text is `2.34` and seven samples. */
  lemma ToStringExample(toFixed: (real, nat) -> string)
    requires toFixed(1234.0, 0) == "1234" && toFixed(2.34, 2) == "2.34"
    ensures ToString("sort", "id", None, Finite(1234.0), 2.34, 7, toFixed)
      == "sort x 1,234 ops/sec " + ['\U{00B1}'] + "2.34% (7 runs sampled)"
  {
    var hzText := Util.FormatNumber(toFixed(1234.0, 0));
    assert hzText == "1,234" by { FormatNumberExample(); }
    calc {
      ToString("sort", "id", None, Finite(1234.0), 2.34, 7, toFixed);
      "sort" + Throughput(hzText, "2.34", 7);
      { ThroughputExample(); }
      "sort" + (" x 1,234 ops/sec " + ['\U{00B1}'] + "2.34% (7 runs sampled)");
    }
  }

  lemma ThroughputExample()
    ensures Throughput("1,234", "2.34", 7) == " x 1,234 ops/sec " + ['\U{00B1}'] + "2.34% (7 runs sampled)"
  {
    assert DecimalString(7) == "7";
  }

  // ---------------------------------------------------------------------
  // options

  /** `{ ...base, ...over }`, where an absent `over` spreads nothing. */
  function Merge<V>(base: map<string, V>, over: Option<map<string, V>>): (r: map<string, V>)
    ensures over.None? ==> r == base
    ensures over.Some? ==> r.Keys == base.Keys + over.value.Keys
    ensures over.Some? ==> forall k :: k in over.value ==> r[k] == over.value[k]
    ensures forall k :: k in base && (over.None? || k !in over.value) ==> k in r && r[k] == base[k]
  {
    if over.None? then base else base + over.value
  }

  /** Merging the same overrides twice changes nothing more. */
  lemma MergeIdempotent<V>(base: map<string, V>, over: Option<map<string, V>>)
    ensures Merge(Merge(base, over), over) == Merge(base, over)
  {
  }

  // ---------------------------------------------------------------------
  // the count rule of `cycle`

  /** `Math.ceil`. */
  function Ceil(x: real): (c: int)
    ensures x <= c as real < x + 1.0
  {
    -((-x).Floor)
  }

  /** What one live cycle leaves behind: the period and `hz` recorded on
      the original, the new count and whether the clone keeps running. */
  datatype Adapted = Adapted(period: real, hz: Extended<real>, count: Extended<int>, running: bool)

  /** The count rule for a clone that ran `count` times in `clocked`
      seconds during cycle `cycles`. `minTime` is absent when unset, and
      `clocked < undefined` is false. */
  function CountStep(count: int, clocked: real, minTime: Option<real>, cycles: int): (a: Adapted)
    requires count >= 1 && clocked >= 0.0
    ensures a.period * (count as real) == clocked
  {
    var period := clocked / (count as real);
    var hz := if period == 0.0 then Infinity else Finite(1.0 / period);
    if !(minTime.Some? && clocked < minTime.value) then Adapted(period, hz, Finite(count), false)
    else
      var divisor := Util.Divisor(cycles);
      var start: Extended<int> :=
        if clocked == 0.0 && divisor.Some? then
          (if divisor.value == 0 then Infinity else Finite(4000000 / divisor.value))
        else Finite(count);
      var next: Extended<int> :=
        if period == 0.0 || start.Infinity? then Infinity
        else Finite(start.value + Ceil((minTime.value - clocked) / period));
      Adapted(period, hz, next, next != Infinity)
  }

  /** What one live cycle leaves behind when the count may be 0: the period
      is then `clocked / 0`, which is `Infinity`. */
  datatype AdaptedAsWritten = AdaptedAsWritten(period: Extended<real>, hz: Extended<real>, count: Extended<int>, running: bool)

  /** The count rule as written, for the counts a clone can start with: the
      field `initCount` defaults to 0 and is never read from the options,
      so `run` starts every clone at a count of 0. A zero clock with a zero
      count, whose period is `0 / 0`, is not modelled. */
  function CountStepAsWritten(count: int, clocked: real, minTime: Option<real>, cycles: int): (a: AdaptedAsWritten)
    requires count >= 0 && clocked >= 0.0
    requires count == 0 ==> clocked > 0.0
    ensures count >= 1 ==> a.period == Finite(clocked / (count as real))
  {
    var period: Extended<real> := if count == 0 then Infinity else Finite(clocked / (count as real));
    var hz: Extended<real> :=
      match period
      case Infinity => Finite(0.0)
      case Finite(p) => if p == 0.0 then Infinity else Finite(1.0 / p);
    if !(minTime.Some? && clocked < minTime.value) then AdaptedAsWritten(period, hz, Finite(count), false)
    else
      var divisor := Util.Divisor(cycles);
      var start: Extended<int> :=
        if clocked == 0.0 && divisor.Some? then
          (if divisor.value == 0 then Infinity else Finite(4000000 / divisor.value))
        else Finite(count);
      var next: Extended<int> :=
        match period
        // `Math.ceil(x / Infinity)` is 0 for the finite `x`.
        case Infinity => start
        case Finite(p) =>
          if p == 0.0 || start.Infinity? then Infinity
          else Finite(start.value + Ceil((minTime.value - clocked) / p));
      AdaptedAsWritten(period, hz, next, next != Infinity)
  }

  /** From the count of 0 that `run` gives a clone, the rule never leaves
      0 and `hz` is recorded as 0. With `minTime` unset the clone stops;
      only a `minTime` above the clock, which no reachable line sets, would
      keep it cycling at a count of 0. */
  lemma ZeroCountStalls(clocked: real, minTime: Option<real>, cycles: int)
    requires clocked > 0.0
    ensures var a := CountStepAsWritten(0, clocked, minTime, cycles);
      a.period == Infinity && a.hz == Finite(0.0) && a.count == Finite(0)
      && (a.running <==> minTime.Some? && clocked < minTime.value)
  {
  }

  /** From a count of at least 1, the count `initCount` is meant to start
      from (its option default is 1), the rule as written is `CountStep`. */
  lemma CountStepAsWrittenFromOne(count: int, clocked: real, minTime: Option<real>, cycles: int)
    requires count >= 1 && clocked >= 0.0
    ensures var a := CountStepAsWritten(count, clocked, minTime, cycles);
      var b := CountStep(count, clocked, minTime, cycles);
      a.period == Finite(b.period) && a.hz == b.hz && a.count == b.count && a.running == b.running
  {
  }

  /** The clone keeps running exactly when it measured some time, but less
      than `minTime`. */
  lemma CountStepRunning(count: int, clocked: real, minTime: Option<real>, cycles: int)
    requires count >= 1 && clocked >= 0.0
    ensures CountStep(count, clocked, minTime, cycles).running <==>
      minTime.Some? && 0.0 < clocked < minTime.value
  {
  }

  /** `hz` is the reciprocal of the period, and infinite for a zero clock. */
  lemma CountStepHz(count: int, clocked: real, minTime: Option<real>, cycles: int)
    requires count >= 1 && clocked >= 0.0
    ensures var a := CountStep(count, clocked, minTime, cycles);
      (clocked == 0.0 <==> a.hz == Infinity) &&
      (a.hz.Finite? ==> a.hz.value * a.period == 1.0 && a.hz.value * clocked == count as real)
  {
    var a := CountStep(count, clocked, minTime, cycles);
    if clocked > 0.0 {
      assert a.period > 0.0;
      assert a.hz.value * a.period == 1.0;
      calc {
        a.hz.value * clocked;
        a.hz.value * (a.period * (count as real));
        (a.hz.value * a.period) * (count as real);
      }
    }
  }

  /** A continuing clone's count grows by at least one, to the smallest
      count whose projected time at the measured period reaches `minTime`. */
  lemma CountStepGrowth(count: int, clocked: real, minTime: Option<real>, cycles: int)
    requires count >= 1 && clocked >= 0.0
    requires CountStep(count, clocked, minTime, cycles).running
    ensures var a := CountStep(count, clocked, minTime, cycles);
      && a.count.Finite?
      && a.count.value > count
      && (a.count.value as real) * a.period >= minTime.value
      && ((a.count.value - 1) as real) * a.period < minTime.value
  {
    var a := CountStep(count, clocked, minTime, cycles);
    CountStepRunning(count, clocked, minTime, cycles);
    var m := minTime.value;
    var p := a.period;
    assert p > 0.0;
    var q := (m - clocked) / p;
    assert q > 0.0;
    var k := Ceil(q);
    assert a.count == Finite(count + k);
    assert k >= 1;
    assert q * p == m - clocked;
    assert (k as real) * p >= q * p;
    assert ((k - 1) as real) * p < q * p;
    assert ((count + k) as real) * p == (count as real) * p + (k as real) * p;
    assert ((count + k - 1) as real) * p == (count as real) * p + ((k - 1) as real) * p;
  }

  /** A zero clock ends the run: the period is 0, the divisor table makes
      no difference, and with a positive `minTime` the count overflows. */
  lemma CountStepZeroClock(count: int, minTime: Option<real>, cycles: int)
    requires count >= 1
    ensures var a := CountStep(count, 0.0, minTime, cycles);
      !a.running && a.hz == Infinity &&
      (minTime.Some? && minTime.value > 0.0 ==> a.count == Infinity) &&
      (!(minTime.Some? && minTime.value > 0.0) ==> a.count == Finite(count))
  {
  }

  /** Once `minTime` is reached (or when it is unset) the count stays. */
  lemma CountStepStops(count: int, clocked: real, minTime: Option<real>, cycles: int)
    requires count >= 1 && clocked >= 0.0
    requires !(minTime.Some? && clocked < minTime.value)
    ensures CountStep(count, clocked, minTime, cycles).count == Finite(count)
  {
  }
}
