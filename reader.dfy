/**
 * The list operation: the candidates the store returns (at most 300 of the fixed market,
 * most recent first) are filtered by title, discount and price, sorted by discount, and cut
 * to one page.
 */
module Reader {
  import opened Wrappers
  import opened Text
  import opened Normalizer
  import opened Deals

  /** The most deals one answer holds. */
  const PageSize := 100

  /** The price ceiling used when the query gives none. */
  const DefaultMaxPrice: real := 999999.0

  /**
   * A numeric query parameter as `Number(qs.x || default)` sees it: absent (or empty), a
   * number, or text that is not a number.
   */
  datatype NumParam = Absent | Number(value: real) | NotANumber

  /** The threshold a parameter yields; `None` is NaN, against which every comparison is false. */
  function Threshold(p: NumParam, default: real): Option<real> {
    match p
    case Absent => Some(default)
    case Number(v) => Some(v)
    case NotANumber => None
  }

  /** `d.cut || 0`: a missing discount counts as 0. */
  function CutOf(d: Deal): int {
    d.cut.GetOr(0)
  }

  /** `d.priceEur || 0`: a missing price counts as 0. */
  function PriceOf(d: Deal): real {
    d.priceEur.GetOr(0.0)
  }

  /** The three in-memory filters, in the order the list operation applies them. */
  datatype Criterion =
    | TitleContains(q: string)
    | CutAtLeast(minDiscount: Option<real>)
    | PriceAtMost(maxPrice: Option<real>)

  predicate Keeps(c: Criterion, d: Deal)
    ensures c.TitleContains? && c.q == [] ==> Keeps(c, d)
  {
    match c
    case TitleContains(q) => Includes(NormalizeField(d.title), q)
    case CutAtLeast(m) => m.Some? && CutOf(d) as real >= m.value
    case PriceAtMost(m) => m.Some? && PriceOf(d) <= m.value
  }

  /** `s.filter(...)`: the deals of `s` that `c` keeps, in their order. */
  function Filter(s: seq<Deal>, c: Criterion): (r: seq<Deal>)
    ensures |r| <= |s|
    ensures forall x :: x in r ==> Keeps(c, x)
  {
    if s == [] then []
    else
      assert s == [s[0]] + s[1..];
      (if Keeps(c, s[0]) then [s[0]] else []) + Filter(s[1..], c)
  }

  /** What the query string asks for, once read: the normalised search text and the two thresholds. */
  datatype Query = Query(text: string, minDiscount: Option<real>, maxPrice: Option<real>)

  /**
   * `normalize(qs.q || "")`, `Number(qs.minDiscount || 0)` and `Number(qs.maxPrice || 999999)`.
   */
  function ParseQuery(q: Option<string>, minParam: NumParam, maxParam: NumParam): (r: Query)
    ensures Canonical(r.text)
    ensures q.None? ==> r.text == ""
    ensures r.minDiscount.None? <==> minParam.NotANumber?
    ensures r.maxPrice.None? <==> maxParam.NotANumber?
    ensures minParam.Absent? ==> r.minDiscount == Some(0.0)
    ensures maxParam.Absent? ==> r.maxPrice == Some(DefaultMaxPrice)
  {
    Query(NormalizeField(q), Threshold(minParam, 0.0), Threshold(maxParam, DefaultMaxPrice))
  }

  /** Everything a deal must satisfy to be listed; the title test applies only to a non-empty search. */
  predicate Wanted(query: Query, d: Deal) {
    && (query.text == [] || Keeps(TitleContains(query.text), d))
    && Keeps(CutAtLeast(query.minDiscount), d)
    && Keeps(PriceAtMost(query.maxPrice), d)
  }

  /** The candidates that pass the filters, in the order the store returned them. */
  function Matching(candidates: seq<Deal>, query: Query): (r: seq<Deal>)
    ensures |r| <= |candidates|
  {
    var byTitle := if query.text != [] then Filter(candidates, TitleContains(query.text)) else candidates;
    Filter(Filter(byTitle, CutAtLeast(query.minDiscount)), PriceAtMost(query.maxPrice))
  }

  // ---- Sorting by discount, highest first, stable ----

  ghost predicate SortedByCut(s: seq<Deal>) {
    forall i, j :: 0 <= i < j < |s| ==> CutOf(s[i]) >= CutOf(s[j])
  }

  /** `x` placed after every deal of `t` whose discount is at least its own, scanning from the back. */
  function Insert(t: seq<Deal>, x: Deal): (r: seq<Deal>)
    ensures |r| == |t| + 1
    decreases |t|
  {
    if t == [] || CutOf(t[|t| - 1]) >= CutOf(x) then t + [x]
    else
      assert t == t[..|t| - 1] + [t[|t| - 1]];
      Insert(t[..|t| - 1], x) + [t[|t| - 1]]
  }

  /**
   * `deals.sort((a, b) => (b.cut || 0) - (a.cut || 0))`: a stable sort by discount, highest
   * first, written as an insertion sort.
   */
  function SortByCut(s: seq<Deal>): (r: seq<Deal>)
    ensures |r| == |s|
  {
    if s == [] then []
    else
      assert s == s[..|s| - 1] + [s[|s| - 1]];
      Insert(SortByCut(s[..|s| - 1]), s[|s| - 1])
  }

  /** The deals of `s` whose discount is `k`, in their order. */
  function WithCut(s: seq<Deal>, k: int): seq<Deal> {
    if s == [] then []
    else WithCut(s[..|s| - 1], k) + (if CutOf(s[|s| - 1]) == k then [s[|s| - 1]] else [])
  }

  lemma {:induction false} InsertPermutes(t: seq<Deal>, x: Deal)
    ensures multiset(Insert(t, x)) == multiset(t) + multiset{x}
    decreases |t|
  {
    if t != [] && CutOf(t[|t| - 1]) < CutOf(x) {
      InsertPermutes(t[..|t| - 1], x);
      assert t == t[..|t| - 1] + [t[|t| - 1]];
    }
  }

  /** The sort only reorders: it yields the same deals, each as often. */
  lemma {:induction false} SortByCutPermutes(s: seq<Deal>)
    ensures multiset(SortByCut(s)) == multiset(s)
  {
    if s != [] {
      SortByCutPermutes(s[..|s| - 1]);
      InsertPermutes(SortByCut(s[..|s| - 1]), s[|s| - 1]);
      assert s == s[..|s| - 1] + [s[|s| - 1]];
    }
  }

  lemma {:induction false} InsertSorted(t: seq<Deal>, x: Deal)
    requires SortedByCut(t)
    ensures SortedByCut(Insert(t, x))
    decreases |t|
  {
    if t == [] || CutOf(t[|t| - 1]) >= CutOf(x) {
    } else {
      var t', y := t[..|t| - 1], t[|t| - 1];
      InsertSorted(t', x);
      InsertPermutes(t', x);
      var r' := Insert(t', x);
      forall i | 0 <= i < |r'| ensures CutOf(r'[i]) >= CutOf(y) {
        assert r'[i] in multiset(r');
        if r'[i] != x {
          assert r'[i] in multiset(t');
          var j :| 0 <= j < |t'| && t'[j] == r'[i];
          assert t[j] == t'[j];
        }
      }
      assert Insert(t, x) == r' + [y];
    }
  }

  /** The sort yields a non-increasing sequence of discounts. */
  lemma {:induction false} SortByCutSorted(s: seq<Deal>)
    ensures SortedByCut(SortByCut(s))
  {
    if s != [] {
      SortByCutSorted(s[..|s| - 1]);
      InsertSorted(SortByCut(s[..|s| - 1]), s[|s| - 1]);
    }
  }

  lemma {:induction false} InsertStable(t: seq<Deal>, x: Deal, k: int)
    ensures WithCut(Insert(t, x), k) == WithCut(t, k) + (if CutOf(x) == k then [x] else [])
    decreases |t|
  {
    if t == [] || CutOf(t[|t| - 1]) >= CutOf(x) {
      assert (t + [x])[..|t|] == t;
    } else {
      var t', y := t[..|t| - 1], t[|t| - 1];
      InsertStable(t', x, k);
      var r := Insert(t', x) + [y];
      assert r[..|r| - 1] == Insert(t', x);
    }
  }

  /**
   * The sort is stable: for every discount value, the deals with that discount come out in
   * the order they went in.
   */
  lemma {:induction false} SortByCutStable(s: seq<Deal>, k: int)
    ensures WithCut(SortByCut(s), k) == WithCut(s, k)
  {
    if s != [] {
      SortByCutStable(s[..|s| - 1], k);
      InsertStable(SortByCut(s[..|s| - 1]), s[|s| - 1], k);
    }
  }

  /** Keeping a prefix keeps a prefix of every discount class. */
  lemma {:induction false} WithCutPrefix(s: seq<Deal>, m: nat, k: int)
    requires m <= |s|
    ensures IsPrefix(WithCut(s[..m], k), WithCut(s, k))
    decreases |s|
  {
    if m < |s| {
      var s' := s[..|s| - 1];
      assert s[..m] == s'[..m];
      WithCutPrefix(s', m, k);
    } else {
      assert s[..m] == s;
    }
  }

  lemma InsertStep(t: seq<Deal>, x: Deal, j: nat)
    requires 0 < j <= |t| && CutOf(t[j - 1]) < CutOf(x)
    ensures Insert(t[..j], x) + t[j..] == Insert(t[..j - 1], x) + t[j - 1..]
  {
    assert t[..j][..j - 1] == t[..j - 1];
    assert t[j - 1..] == [t[j - 1]] + t[j..];
  }

  lemma InsertStart(t: seq<Deal>, x: Deal)
    ensures Insert(t, x) == Insert(t[..|t|], x) + t[|t|..]
  {
    assert t[..|t|] == t;
    assert t[|t|..] == [];
  }

  lemma InsertStop(t: seq<Deal>, x: Deal, j: nat)
    requires j <= |t| && (j == 0 || CutOf(t[j - 1]) >= CutOf(x))
    ensures Insert(t[..j], x) + t[j..] == t[..j] + [x] + t[j..]
  {
  }

  lemma SplitAt(b: seq<Deal>, i: nat)
    requires i < |b|
    ensures b == b[..i][..i] + [b[i]] + b[..i][i..] + b[i + 1..]
  {
    assert b[..i][..i] == b[..i] && b[..i][i..] == [];
    assert b == b[..i] + [b[i]] + b[i + 1..];
  }

  /** Where the deals sit while `x` moves down. */
  lemma Arranged(t: seq<Deal>, x: Deal, rest: seq<Deal>, j: nat)
    requires 0 < j <= |t|
    ensures (t[..j] + [x] + t[j..] + rest)[j - 1] == t[j - 1]
    ensures (t[..j] + [x] + t[j..] + rest)[j] == x
  {
  }

  /** Swapping `x` with the deal before it moves it one place towards the front. */
  lemma SwapStep(t: seq<Deal>, x: Deal, rest: seq<Deal>, j: nat)
    requires 0 < j <= |t|
    ensures (t[..j] + [x] + t[j..] + rest)[j - 1 := x][j := t[j - 1]] == t[..j - 1] + [x] + t[j - 1..] + rest
  {
    var b := (t[..j] + [x] + t[j..] + rest)[j - 1 := x][j := t[j - 1]];
    var c := t[..j - 1] + [x] + t[j - 1..] + rest;
    assert |b| == |c|;
    forall k | 0 <= k < |b| ensures b[k] == c[k] {
      if k < j - 1 {
      } else if k == j - 1 {
      } else if k == j {
      } else if k <= |t| {
        assert b[k] == t[k - 1];
      } else {
        assert b[k] == rest[k - |t| - 1];
      }
    }
  }

  /**
   * One insertion step: `a[i]` is swapped down past the deals of `a[..i]` with a smaller
   * discount.
   */
  method InsertInPlace(a: array<Deal>, i: nat)
    requires i < a.Length
    modifies a
    ensures a[..] == Insert(old(a[..i]), old(a[i])) + old(a[i + 1..])
  {
    ghost var t := a[..i];
    ghost var rest := a[i + 1..];
    var x := a[i];
    var j := i;
    SplitAt(a[..], i);
    InsertStart(t, x);
    while j > 0 && CutOf(a[j - 1]) < CutOf(x)
      invariant 0 <= j <= i
      invariant a[..] == t[..j] + [x] + t[j..] + rest
      invariant Insert(t, x) == Insert(t[..j], x) + t[j..]
    {
      Arranged(t, x, rest, j);
      InsertStep(t, x, j);
      SwapStep(t, x, rest, j);
      a[j - 1], a[j] := a[j], a[j - 1];
      j := j - 1;
    }
    InsertStop(t, x, j);
  }

  /** The array of the sorting loop, split at the next deal to insert. */
  lemma SortSplit(b: seq<Deal>, s: seq<Deal>, i: nat)
    requires i < |s|
    requires b == SortByCut(s[..i]) + s[i..]
    ensures b[..i] == SortByCut(s[..i]) && b[i] == s[i] && b[i + 1..] == s[i + 1..]
  {
    assert |SortByCut(s[..i])| == i;
  }

  /** Inserting the next deal into the sorted prefix sorts one more deal. */
  lemma SortExtend(s: seq<Deal>, i: nat)
    requires i < |s|
    ensures Insert(SortByCut(s[..i]), s[i]) + s[i + 1..] == SortByCut(s[..i + 1]) + s[i + 1..]
  {
    assert s[..i + 1] == s[..i] + [s[i]];
  }

  /** In-place insertion sort of `a` by discount, highest first; equal discounts keep their order. */
  method SortByCutInPlace(a: array<Deal>)
    modifies a
    ensures a[..] == SortByCut(old(a[..]))
  {
    ghost var s := a[..];
    var i := 0;
    while i < a.Length
      invariant 0 <= i <= a.Length
      invariant a[..] == SortByCut(s[..i]) + s[i..]
    {
      SortSplit(a[..], s, i);
      InsertInPlace(a, i);
      SortExtend(s, i);
      i := i + 1;
    }
    assert s[..a.Length] == s;
  }

  function Min(a: int, b: int): (m: int)
    ensures m <= a && m <= b && (m == a || m == b)
  {
    if a <= b then a else b
  }

  /** The answer to a query over the store's candidates: the matches, sorted, cut to one page. */
  function Listing(candidates: seq<Deal>, query: Query): (page: seq<Deal>)
    ensures |page| <= PageSize && |page| <= |candidates|
  {
    var sorted := SortByCut(Matching(candidates, query));
    sorted[..Min(PageSize, |sorted|)]
  }

  /** A fresh array holding `s`. */
  method ToArray(s: seq<Deal>) returns (a: array<Deal>)
    ensures fresh(a) && a[..] == s
  {
    a := new Deal[|s|](i requires 0 <= i < |s| => s[i]);
  }

  /** The pipeline over the candidates: filter by reassigning the list, sort the array in place, take a page. */
  method ListMatches(candidates: seq<Deal>, query: Query) returns (page: seq<Deal>)
    ensures page == Listing(candidates, query)
  {
    var deals := candidates;
    if query.text != [] {
      deals := Filter(deals, TitleContains(query.text));
    }
    deals := Filter(Filter(deals, CutAtLeast(query.minDiscount)), PriceAtMost(query.maxPrice));
    var a := ToArray(deals);
    SortByCutInPlace(a);
    var sorted := a[..];
    page := sorted[..Min(PageSize, |sorted|)];
  }

  /** The list operation as the handler runs it: read the query string, then run the pipeline. */
  method ListDeals(candidates: seq<Deal>, qParam: Option<string>, minParam: NumParam, maxParam: NumParam)
    returns (page: seq<Deal>)
    ensures page == Listing(candidates, ParseQuery(qParam, minParam, maxParam))
  {
    var query := ParseQuery(qParam, minParam, maxParam);
    page := ListMatches(candidates, query);
  }

  // ---- What the filters keep ----

  /** A filter keeps exactly the deals that pass its test. */
  lemma {:induction false} FilterMembers(s: seq<Deal>, c: Criterion, x: Deal)
    ensures x in Filter(s, c) <==> x in s && Keeps(c, x)
  {
    if s != [] {
      FilterMembers(s[1..], c, x);
      assert Filter(s, c) == (if Keeps(c, s[0]) then [s[0]] else []) + Filter(s[1..], c);
      assert x in s <==> x == s[0] || x in s[1..];
    }
  }

  /** A NaN threshold keeps nothing. */
  lemma {:induction false} FilterAgainstNaN(s: seq<Deal>, c: Criterion)
    requires (c.CutAtLeast? && c.minDiscount.None?) || (c.PriceAtMost? && c.maxPrice.None?)
    ensures Filter(s, c) == []
  {
    if s != [] {
      FilterAgainstNaN(s[1..], c);
    }
  }

  /** A candidate is among the matches exactly when it is wanted. */
  lemma MatchingMembers(candidates: seq<Deal>, query: Query, x: Deal)
    ensures x in Matching(candidates, query) <==> x in candidates && Wanted(query, x)
  {
    var byTitle := if query.text != [] then Filter(candidates, TitleContains(query.text)) else candidates;
    if query.text != [] {
      FilterMembers(candidates, TitleContains(query.text), x);
    }
    FilterMembers(byTitle, CutAtLeast(query.minDiscount), x);
    FilterMembers(Filter(byTitle, CutAtLeast(query.minDiscount)), PriceAtMost(query.maxPrice), x);
  }

  /** A deal is on the page only if it is a candidate that passes every filter. */
  lemma ListingSound(candidates: seq<Deal>, query: Query, d: Deal)
    requires d in Listing(candidates, query)
    ensures d in candidates && Wanted(query, d)
  {
    var m := Matching(candidates, query);
    var sorted := SortByCut(m);
    assert d in sorted;
    SortByCutPermutes(m);
    assert d in multiset(m);
    MatchingMembers(candidates, query, d);
  }

  /**
   * A candidate that passes every filter is on the page, unless the page is full of deals
   * whose discount is at least its own.
   */
  lemma ListingComplete(candidates: seq<Deal>, query: Query, d: Deal)
    requires d in candidates && Wanted(query, d)
    ensures var page := Listing(candidates, query);
      d in page || (|page| == PageSize && forall e :: e in page ==> CutOf(e) >= CutOf(d))
  {
    var m := Matching(candidates, query);
    var sorted := SortByCut(m);
    var page := Listing(candidates, query);
    MatchingMembers(candidates, query, d);
    SortByCutPermutes(m);
    assert d in multiset(sorted);
    var j :| 0 <= j < |sorted| && sorted[j] == d;
    if j >= PageSize {
      SortByCutSorted(m);
      forall e | e in page ensures CutOf(e) >= CutOf(d) {
        var i :| 0 <= i < |page| && page[i] == e;
        assert sorted[i] == e;
      }
    } else {
      assert page[j] == d;
    }
  }

  /** The page lists deals by discount, highest first. */
  lemma ListingSorted(candidates: seq<Deal>, query: Query)
    ensures SortedByCut(Listing(candidates, query))
  {
    SortByCutSorted(Matching(candidates, query));
  }

  /** The page holds every match when there are at most a hundred, and a hundred otherwise. */
  lemma ListingLength(candidates: seq<Deal>, query: Query)
    ensures |Listing(candidates, query)| == Min(PageSize, |Matching(candidates, query)|)
  {
  }

  /**
   * Deals with equal discounts appear in the order the store returned them: for every
   * discount, the page's deals with it are the first matches with it.
   */
  lemma ListingStable(candidates: seq<Deal>, query: Query, k: int)
    ensures IsPrefix(WithCut(Listing(candidates, query), k), WithCut(Matching(candidates, query), k))
    ensures IsPrefix(WithCut(Listing(candidates, query), k), Matching(WithCut(candidates, k), query))
  {
    MatchingWithCut(candidates, query, k);
    var m := Matching(candidates, query);
    var sorted := SortByCut(m);
    WithCutPrefix(sorted, Min(PageSize, |sorted|), k);
    SortByCutStable(m, k);
  }

  // ---- Store order ----

  lemma {:induction false} WithCutAppend(a: seq<Deal>, b: seq<Deal>, k: int)
    ensures WithCut(a + b, k) == WithCut(a, k) + WithCut(b, k)
    decreases |b|
  {
    if b == [] {
      assert a + b == a;
    } else {
      var b' := b[..|b| - 1];
      assert (a + b)[..|a + b| - 1] == a + b';
      WithCutAppend(a, b', k);
    }
  }

  lemma WithCutCons(x: Deal, s: seq<Deal>, k: int)
    ensures WithCut([x] + s, k) == (if CutOf(x) == k then [x] else []) + WithCut(s, k)
  {
    WithCutAppend([x], s, k);
    assert [x][..0] == [];
  }

  lemma FilterCons(x: Deal, s: seq<Deal>, c: Criterion)
    ensures Filter([x] + s, c) == (if Keeps(c, x) then [x] else []) + Filter(s, c)
  {
    assert ([x] + s)[0] == x && ([x] + s)[1..] == s;
  }

  /** One filter decision on `x`, shared by two sequences that `x` heads. */
  lemma FilterConsBoth(x: Deal, s: seq<Deal>, t: seq<Deal>, c: Criterion) returns (h: seq<Deal>)
    ensures h == [] || h == [x]
    ensures Filter([x] + s, c) == h + Filter(s, c)
    ensures Filter([x] + t, c) == h + Filter(t, c)
  {
    FilterCons(x, s, c);
    FilterCons(x, t, c);
    h := if Keeps(c, x) then [x] else [];
  }

  /** Taking one discount class and filtering can be done in either order. */
  lemma {:induction false} FilterWithCut(s: seq<Deal>, c: Criterion, k: int)
    ensures WithCut(Filter(s, c), k) == Filter(WithCut(s, k), c)
    decreases |s|
  {
    if s != [] {
      var x, s' := s[0], s[1..];
      assert s == [x] + s';
      FilterWithCut(s', c, k);
      var w := WithCut(s', k);
      WithCutCons(x, s', k);
      var h := FilterConsBoth(x, s', w, c);
      WithCutAppend(h, Filter(s', c), k);
      if h == [x] {
        WithCutCons(x, [], k);
        assert [x] + [] == [x];
      }
      if CutOf(x) == k {
        assert WithCut(h, k) == h;
        assert WithCut(s, k) == [x] + w;
      } else {
        assert WithCut(h, k) == [];
        assert WithCut(s, k) == w;
      }
    }
  }

  /** The matches with one discount are the matches among the candidates with that discount. */
  lemma MatchingWithCut(candidates: seq<Deal>, query: Query, k: int)
    ensures WithCut(Matching(candidates, query), k) == Matching(WithCut(candidates, k), query)
  {
    var byTitle := if query.text != [] then Filter(candidates, TitleContains(query.text)) else candidates;
    if query.text != [] {
      FilterWithCut(candidates, TitleContains(query.text), k);
    }
    FilterWithCut(byTitle, CutAtLeast(query.minDiscount), k);
    FilterWithCut(Filter(byTitle, CutAtLeast(query.minDiscount)), PriceAtMost(query.maxPrice), k);
  }

  /** A deal is in one discount class exactly when it is in the sequence with that discount. */
  lemma {:induction false} WithCutMembers(s: seq<Deal>, k: int, x: Deal)
    ensures x in WithCut(s, k) <==> x in s && CutOf(x) == k
  {
    if s != [] {
      var s' := s[..|s| - 1];
      WithCutMembers(s', k, x);
      assert s == s' + [s[|s| - 1]];
    }
  }

  /** A wanted deal at the head of the candidates heads the matches. */
  lemma MatchingFirst(d: Deal, others: seq<Deal>, query: Query)
    requires Wanted(query, d)
    ensures Matching([d] + others, query) == [d] + Matching(others, query)
  {
    if query.text != [] {
      FilterCons(d, others, TitleContains(query.text));
    }
    var byTitle := if query.text != [] then Filter(others, TitleContains(query.text)) else others;
    FilterCons(d, byTitle, CutAtLeast(query.minDiscount));
    FilterCons(d, Filter(byTitle, CutAtLeast(query.minDiscount)), PriceAtMost(query.maxPrice));
  }

  /**
   * The newest candidate, when wanted, is on the page, unless the page is full of deals with
   * a strictly larger discount: among equal discounts the store's order decides, and it
   * comes first.
   */
  lemma ListingFirst(d: Deal, others: seq<Deal>, query: Query)
    requires Wanted(query, d)
    ensures var page := Listing([d] + others, query);
      d in page || (|page| == PageSize && forall e :: e in page ==> CutOf(e) > CutOf(d))
  {
    var candidates := [d] + others;
    var page := Listing(candidates, query);
    var k := CutOf(d);
    ListingComplete(candidates, query, d);
    if d !in page {
      forall e | e in page ensures CutOf(e) > CutOf(d) {
        if CutOf(e) == k {
          WithCutMembers(page, k, e);
          ListingStable(candidates, query, k);
          MatchingFirst(d, others, query);
          WithCutAppend([d], Matching(others, query), k);
          assert WithCut([d], k) == [d];
          var w := WithCut(page, k);
          assert w[0] == d;
          WithCutMembers(page, k, d);
          assert false;
        }
      }
    }
  }

  /** A threshold that is not a number leaves no match. */
  lemma MatchingNotANumber(candidates: seq<Deal>, query: Query)
    requires query.minDiscount.None? || query.maxPrice.None?
    ensures Matching(candidates, query) == []
  {
    var byTitle := if query.text != [] then Filter(candidates, TitleContains(query.text)) else candidates;
    if query.minDiscount.None? {
      FilterAgainstNaN(byTitle, CutAtLeast(query.minDiscount));
    } else {
      FilterAgainstNaN(Filter(byTitle, CutAtLeast(query.minDiscount)), PriceAtMost(query.maxPrice));
    }
  }

  /** A discount or price parameter that is not a number compares false with every deal. */
  lemma ListingNotANumber(candidates: seq<Deal>, q: Option<string>, minParam: NumParam, maxParam: NumParam)
    requires minParam.NotANumber? || maxParam.NotANumber?
    ensures Listing(candidates, ParseQuery(q, minParam, maxParam)) == []
  {
    MatchingNotANumber(candidates, ParseQuery(q, minParam, maxParam));
  }
}
