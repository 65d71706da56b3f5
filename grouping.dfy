/** The LINQ pipeline that turns the pooled detail records into comparisons:
    `GroupBy` on a string key, `OrderBy(price).First()` in each group, and two
    `ToDictionary` calls keyed by provider name. */
module Grouping {
  import opened Models

  /** The grouping key `$"{Title}_{Year}"`. */
  function GroupKey(d: MovieDetail): string
  {
    d.title + "_" + d.year
  }

  /** The first underscore of a key ends the title when the title has none. */
  lemma FirstUnderscore(d: MovieDetail)
    requires '_' !in d.title
    ensures |d.title| < |GroupKey(d)| && GroupKey(d)[|d.title|] == '_'
    ensures forall i :: 0 <= i < |d.title| ==> GroupKey(d)[i] != '_'
  {
  }

  /** When titles contain no underscore the key is faithful: two records
      share a key exactly when they share title and year. `KeyCollision`
      shows what goes wrong otherwise. */
  lemma GroupKeyDeterminesTitleYear(a: MovieDetail, b: MovieDetail)
    requires '_' !in a.title && '_' !in b.title
    ensures GroupKey(a) == GroupKey(b) <==> a.title == b.title && a.year == b.year
  {
    if GroupKey(a) == GroupKey(b) {
      var k := GroupKey(a);
      FirstUnderscore(a);
      FirstUnderscore(b);
      assert |a.title| == |b.title|;
      assert a.title == k[..|a.title|] == b.title;
      assert a.year == k[|a.title| + 1..] == b.year;
    }
  }

  predicate HasKey(ds: seq<MovieDetail>, k: string)
  {
    exists i :: 0 <= i < |ds| && GroupKey(ds[i]) == k
  }

  predicate NoDuplicates<T(==)>(s: seq<T>)
  {
    forall i, j :: 0 <= i < j < |s| ==> s[i] != s[j]
  }

  /** The keys of `ds` in order of first occurrence, each once: the order in
      which `GroupBy` yields its groups. */
  function DistinctKeys(ds: seq<MovieDetail>): (ks: seq<string>)
    ensures NoDuplicates(ks)
    ensures forall k :: k in ks <==> HasKey(ds, k)
  {
    if |ds| == 0 then []
    else
      var init := ds[..|ds| - 1];
      var ks0 := DistinctKeys(init);
      assert forall k :: HasKey(ds, k) <==> HasKey(init, k) || k == GroupKey(ds[|ds| - 1]) by {
        forall k ensures HasKey(ds, k) <==> HasKey(init, k) || k == GroupKey(ds[|ds| - 1]) {
          if HasKey(ds, k) {
            var i :| 0 <= i < |ds| && GroupKey(ds[i]) == k;
            if i < |ds| - 1 { assert init[i] == ds[i]; }
          }
          if HasKey(init, k) {
            var i :| 0 <= i < |init| && GroupKey(init[i]) == k;
            assert ds[i] == init[i];
          }
        }
      }
      if GroupKey(ds[|ds| - 1]) in ks0 then ks0 else ks0 + [GroupKey(ds[|ds| - 1])]
  }

  /** The elements of `ds` whose key is `k`, in their original order: one
      group of `GroupBy`. */
  function Group(ds: seq<MovieDetail>, k: string): (g: seq<MovieDetail>)
    ensures forall x :: x in g <==> x in ds && GroupKey(x) == k
    ensures |g| > 0 <==> HasKey(ds, k)
  {
    if |ds| == 0 then []
    else
      var init := ds[..|ds| - 1];
      var last := ds[|ds| - 1];
      assert ds == init + [last];
      assert HasKey(ds, k) <==> HasKey(init, k) || GroupKey(last) == k by {
        if HasKey(ds, k) {
          var i :| 0 <= i < |ds| && GroupKey(ds[i]) == k;
          if i < |ds| - 1 { assert init[i] == ds[i]; }
        }
        if HasKey(init, k) {
          var i :| 0 <= i < |init| && GroupKey(init[i]) == k;
          assert ds[i] == init[i];
        }
      }
      if GroupKey(last) == k then Group(init, k) + [last] else Group(init, k)
  }

  /** `GroupBy(GroupKey)`: one non-empty group per distinct key, in order of
      the key's first occurrence. */
  function GroupBy(ds: seq<MovieDetail>): (groups: seq<seq<MovieDetail>>)
    ensures |groups| == |DistinctKeys(ds)|
    ensures forall i :: 0 <= i < |groups| ==> groups[i] == Group(ds, DistinctKeys(ds)[i]) && |groups[i]| > 0
  {
    var ks := DistinctKeys(ds);
    seq(|ks|, i requires 0 <= i < |ks| => Group(ds, ks[i]))
  }

  /** `OrderBy(m => m.Price).First()` as an index: the earliest record whose
      price is minimal (OrderBy is a stable sort). */
  function CheapestIndex(g: seq<MovieDetail>): (i: nat)
    requires |g| > 0
    ensures i < |g|
    ensures forall j :: 0 <= j < |g| ==> g[i].price <= g[j].price
    ensures forall j :: 0 <= j < i ==> g[j].price > g[i].price
  {
    if |g| == 1 then 0
    else
      var k := 1 + CheapestIndex(g[1..]);
      if g[0].price <= g[k].price then 0 else k
  }

  /** `ToDictionary(m => m.Provider, value)`: `None` when a provider occurs
      twice (the call throws `ArgumentException`). */
  function ToDictionary<V>(g: seq<MovieDetail>, value: MovieDetail -> V): (r: Option<map<string, V>>)
    ensures r.Some? <==> ProvidersDistinct(g)
    ensures r.Some? ==> r.value.Keys == Providers(g)
    ensures r.Some? ==> forall i :: 0 <= i < |g| ==> r.value[g[i].provider] == value(g[i])
  {
    if |g| == 0 then Some(map[])
    else
      var init := g[..|g| - 1];
      var last := g[|g| - 1];
      ProvidersSnoc(g);
      match ToDictionary(init, value)
      case None => None
      case Some(m) =>
        if last.provider in m then None
        else
          AddLast(g, value, m);
          Some(m[last.provider := value(last)])
  }

  /** Adding the last record's entry to the dictionary of the others gives
      the dictionary of the whole group. */
  lemma AddLast<V>(g: seq<MovieDetail>, value: MovieDetail -> V, m: map<string, V>)
    requires |g| > 0
    requires m.Keys == Providers(g[..|g| - 1])
    requires forall i :: 0 <= i < |g| - 1 ==> m[g[i].provider] == value(g[i])
    requires g[|g| - 1].provider !in m
    ensures m[g[|g| - 1].provider := value(g[|g| - 1])].Keys == Providers(g)
    ensures forall i :: 0 <= i < |g| ==>
              m[g[|g| - 1].provider := value(g[|g| - 1])][g[i].provider] == value(g[i])
  {
    ProvidersSnoc(g);
    var init := g[..|g| - 1];
    forall i | 0 <= i < |g| - 1 ensures g[i].provider != g[|g| - 1].provider {
      assert init[i] == g[i];
      assert g[i].provider in Providers(init);
    }
  }

  /** How the providers of `g` relate to those of `g` without its last record. */
  lemma ProvidersSnoc(g: seq<MovieDetail>)
    requires |g| > 0
    ensures forall i :: 0 <= i < |g| - 1 ==> g[..|g| - 1][i] == g[i]
    ensures Providers(g) == Providers(g[..|g| - 1]) + {g[|g| - 1].provider}
    ensures ProvidersDistinct(g) <==>
              ProvidersDistinct(g[..|g| - 1]) && g[|g| - 1].provider !in Providers(g[..|g| - 1])
  {
    var init := g[..|g| - 1];
    var last := g[|g| - 1];
    assert forall i :: 0 <= i < |init| ==> g[i] == init[i];
    if ProvidersDistinct(init) && last.provider in Providers(init) {
      var j :| 0 <= j < |init| && init[j].provider == last.provider;
      assert g[j].provider == g[|g| - 1].provider;
    }
  }

  /** The providers that own the records of `g`. */
  function Providers(g: seq<MovieDetail>): set<string>
  {
    set i | 0 <= i < |g| :: g[i].provider
  }

  predicate ProvidersDistinct(g: seq<MovieDetail>)
  {
    forall i, j :: 0 <= i < j < |g| ==> g[i].provider != g[j].provider
  }

  /** `c` is the comparison of group `g`: identity, provider and price of
      the cheapest record, one price and one availability entry per provider
      of the group. */
  predicate Summarizes(c: MovieComparison, g: seq<MovieDetail>)
    requires |g| > 0
  {
    var cheapest := g[CheapestIndex(g)];
    && c.movieId == cheapest.id && c.title == cheapest.title && c.year == cheapest.year
    && c.poster == cheapest.poster && c.cheapestProvider == cheapest.provider
    && c.cheapestPrice == Some(cheapest.price)
    && c.providerPrices.Keys == Providers(g) && c.providerAvailability.Keys == Providers(g)
    && (forall i :: 0 <= i < |g| ==> c.providerPrices[g[i].provider] == Some(g[i].price))
    && (forall p :: p in c.providerAvailability ==> c.providerAvailability[p])
  }

  /** The comparison for one group, or `None` when a provider occurs twice in
      it and `ToDictionary` throws. */
  function BuildComparison(g: seq<MovieDetail>): (r: Option<MovieComparison>)
    requires |g| > 0
    ensures r.Some? <==> ProvidersDistinct(g)
    ensures r.Some? ==> Summarizes(r.value, g)
  {
    var cheapest := g[CheapestIndex(g)];
    match ToDictionary(g, (d: MovieDetail) => Some(d.price))
    case None => None
    case Some(prices) =>
      match ToDictionary(g, (d: MovieDetail) => true)
      case None => None
      case Some(availability) =>
        Some(MovieComparison(cheapest.id, cheapest.title, cheapest.year, cheapest.poster,
                             availability, prices, cheapest.provider, Some(cheapest.price)))
  }

  /** `ToList()` over a lazily selected sequence: every element is
      evaluated in order and the first one that throws (`None`) aborts the
      whole list. */
  function CollectAll<T>(xs: seq<Option<T>>): (r: Option<seq<T>>)
    ensures r.Some? <==> forall i :: 0 <= i < |xs| ==> xs[i].Some?
    ensures r.Some? ==> |r.value| == |xs| && forall i :: 0 <= i < |xs| ==> xs[i] == Some(r.value[i])
  {
    if |xs| == 0 then Some([])
    else
      match xs[0]
      case None => None
      case Some(x) =>
        match CollectAll(xs[1..])
        case None =>
          var j :| 0 <= j < |xs[1..]| && xs[1..][j].None?;
          assert xs[j + 1].None?;
          None
        case Some(rest) =>
          assert forall i :: 0 < i < |xs| ==> xs[i] == xs[1..][i - 1];
          Some([x] + rest)
  }

  /** `Select(BuildComparison).ToList()` over the groups: `None` as soon as
      one group's dictionaries cannot be built. */
  function BuildAll(groups: seq<seq<MovieDetail>>): (r: Option<seq<MovieComparison>>)
    requires forall i :: 0 <= i < |groups| ==> |groups[i]| > 0
    ensures r.Some? <==> forall i :: 0 <= i < |groups| ==> ProvidersDistinct(groups[i])
    ensures r.Some? ==> |r.value| == |groups| &&
                        forall i :: 0 <= i < |groups| ==> BuildComparison(groups[i]) == Some(r.value[i])
  {
    var built := seq(|groups|, i requires 0 <= i < |groups| => BuildComparison(groups[i]));
    assert forall i :: 0 <= i < |groups| ==> (built[i].Some? <==> ProvidersDistinct(groups[i]));
    CollectAll(built)
  }

  /** The whole pipeline from the pooled records to the comparison list;
      `None` stands for the exception `ToDictionary` throws. */
  function Comparisons(ds: seq<MovieDetail>): (r: Option<seq<MovieComparison>>)
    ensures r.Some? <==> forall k :: HasKey(ds, k) ==> ProvidersDistinct(Group(ds, k))
    ensures r.Some? ==> |r.value| == |DistinctKeys(ds)|
  {
    var ks := DistinctKeys(ds);
    assert (forall k :: HasKey(ds, k) ==> ProvidersDistinct(Group(ds, k))) <==>
           (forall i :: 0 <= i < |ks| ==> ProvidersDistinct(Group(ds, ks[i]))) by {
      assert forall k :: HasKey(ds, k) ==> exists i :: 0 <= i < |ks| && ks[i] == k;
    }
    BuildAll(GroupBy(ds))
  }

  /** Whether `g` is in ascending order of price. */
  predicate SortedByPrice(g: seq<MovieDetail>)
  {
    forall i, j :: 0 <= i < j < |g| ==> g[i].price <= g[j].price
  }

  /** Inserts `x` before the first element that is not cheaper than it. */
  function InsertByPrice(x: MovieDetail, s: seq<MovieDetail>): (r: seq<MovieDetail>)
    ensures multiset(r) == multiset(s) + multiset{x}
    ensures |r| == |s| + 1
    ensures r[0] == if |s| == 0 || x.price <= s[0].price then x else s[0]
  {
    if |s| == 0 || x.price <= s[0].price then [x] + s
    else
      assert s == [s[0]] + s[1..];
      [s[0]] + InsertByPrice(x, s[1..])
  }

  lemma {:induction false} InsertKeepsSorted(x: MovieDetail, s: seq<MovieDetail>)
    requires SortedByPrice(s)
    ensures SortedByPrice(InsertByPrice(x, s))
  {
    if |s| > 0 && x.price > s[0].price {
      var rest := InsertByPrice(x, s[1..]);
      InsertKeepsSorted(x, s[1..]);
      var r := [s[0]] + rest;
      assert r == InsertByPrice(x, s);
      forall j | 0 <= j < |rest| ensures s[0].price <= rest[j].price {
        InsertedFrom(x, s[1..], rest[j]);
        if rest[j] != x {
          var t :| 0 <= t < |s[1..]| && s[1..][t] == rest[j];
          assert s[t + 1] == rest[j];
        }
      }
      forall i, j | 0 <= i < j < |r| ensures r[i].price <= r[j].price {
        assert r[j] == rest[j - 1];
        if i > 0 {
          assert r[i] == rest[i - 1];
        }
      }
    }
  }

  /** Every record of `InsertByPrice(x, s)` is `x` or a record of `s`. */
  lemma InsertedFrom(x: MovieDetail, s: seq<MovieDetail>, y: MovieDetail)
    requires y in InsertByPrice(x, s)
    ensures y == x || y in s
  {
    assert y in multiset(InsertByPrice(x, s));
  }

  /** A sort by price, as a reference definition of `OrderBy(m => m.Price)`:
      insertion from the back, so that an earlier record stays ahead of a
      later one of equal price. Its contract is a sorted permutation; the
      one consequence of stability the service uses, which record `First()`
      returns, is `OrderByFirstIsCheapest`. */
  function OrderByPrice(g: seq<MovieDetail>): (r: seq<MovieDetail>)
    ensures multiset(r) == multiset(g)
    ensures SortedByPrice(r)
  {
    if |g| == 0 then []
    else
      assert g == [g[0]] + g[1..];
      InsertKeepsSorted(g[0], OrderByPrice(g[1..]));
      InsertByPrice(g[0], OrderByPrice(g[1..]))
  }

  /** `OrderBy(m => m.Price).First()` is the record `CheapestIndex` picks. */
  lemma {:induction false} OrderByFirstIsCheapest(g: seq<MovieDetail>)
    requires |g| > 0
    ensures |OrderByPrice(g)| == |g|
    ensures OrderByPrice(g)[0] == g[CheapestIndex(g)]
  {
    assert |OrderByPrice(g)| == |multiset(OrderByPrice(g))| == |multiset(g)| == |g|;
    if |g| > 1 {
      OrderByFirstIsCheapest(g[1..]);
    }
  }

  /** The keys of a prefix of `ds` are a prefix of the keys of `ds`: groups
      appear in order of their key's first occurrence. */
  lemma {:induction false} DistinctKeysPrefix(ds: seq<MovieDetail>, n: nat)
    requires n <= |ds|
    ensures DistinctKeys(ds[..n]) <= DistinctKeys(ds)
    decreases |ds|
  {
    if n < |ds| {
      var init := ds[..|ds| - 1];
      assert init[..n] == ds[..n];
      DistinctKeysPrefix(init, n);
    } else {
      assert ds[..n] == ds;
    }
  }

  /** When group `a` comes before group `b`, every prefix of the records
      that already holds `b`'s key holds `a`'s key too. */
  lemma FirstOccurrenceOrder(ds: seq<MovieDetail>, a: nat, b: nat, n: nat)
    requires a < b < |DistinctKeys(ds)|
    requires n <= |ds| && HasKey(ds[..n], DistinctKeys(ds)[b])
    ensures HasKey(ds[..n], DistinctKeys(ds)[a])
  {
    var ks := DistinctKeys(ds);
    var pre := DistinctKeys(ds[..n]);
    DistinctKeysPrefix(ds, n);
    var b' :| 0 <= b' < |pre| && pre[b'] == ks[b];
    assert ks[b'] == ks[b];
    assert b' == b;
    assert pre[a] == ks[a];
  }

  /** `Group` keeps the relative order of the records it collects. */
  lemma {:induction false} GroupKeepsOrder(ds: seq<MovieDetail>, k: string, i: nat, j: nat)
    returns (a: nat, b: nat)
    requires i < j < |ds| && GroupKey(ds[i]) == k && GroupKey(ds[j]) == k
    ensures a < b < |Group(ds, k)|
    ensures Group(ds, k)[a] == ds[i] && Group(ds, k)[b] == ds[j]
    decreases |ds|
  {
    var init := ds[..|ds| - 1];
    if j < |ds| - 1 {
      assert init[i] == ds[i] && init[j] == ds[j];
      a, b := GroupKeepsOrder(init, k, i, j);
    } else {
      assert init[i] == ds[i];
      assert ds[i] in Group(init, k);
      a :| 0 <= a < |Group(init, k)| && Group(init, k)[a] == ds[i];
      b := |Group(init, k)|;
    }
  }

  /** Two pooled records with the same key and the same provider make
      `ToDictionary` throw, so no comparison list is produced. */
  lemma DuplicateProviderFails(ds: seq<MovieDetail>, i: nat, j: nat)
    requires i < j < |ds|
    requires GroupKey(ds[i]) == GroupKey(ds[j]) && ds[i].provider == ds[j].provider
    ensures Comparisons(ds) == None
  {
    var k := GroupKey(ds[i]);
    var a, b := GroupKeepsOrder(ds, k, i, j);
    var g := Group(ds, k);
    assert g[a].provider == g[b].provider;
    var ks := DistinctKeys(ds);
    assert HasKey(ds, k);
    var idx :| 0 <= idx < |ks| && ks[idx] == k;
    var groups := GroupBy(ds);
    assert groups[idx] == g;
    assert !ProvidersDistinct(groups[idx]);
    assert BuildAll(groups).None?;
  }

  /** The comparison at position `i` is the one built from the group of the
      `i`-th distinct key. */
  lemma ComparisonOfGroup(ds: seq<MovieDetail>, cs: seq<MovieComparison>, i: nat)
    requires Comparisons(ds) == Some(cs)
    requires i < |DistinctKeys(ds)|
    ensures |cs| == |DistinctKeys(ds)|
    ensures BuildComparison(Group(ds, DistinctKeys(ds)[i])) == Some(cs[i])
  {
    assert GroupBy(ds)[i] == Group(ds, DistinctKeys(ds)[i]);
  }

  /** One comparison per distinct key, in order of first occurrence, and the
      comparison's own title and year spell that key. */
  lemma ComparisonsPerKey(ds: seq<MovieDetail>, cs: seq<MovieComparison>, i: nat)
    requires Comparisons(ds) == Some(cs)
    requires i < |DistinctKeys(ds)|
    ensures |cs| == |DistinctKeys(ds)|
    ensures cs[i].title + "_" + cs[i].year == DistinctKeys(ds)[i]
  {
    ComparisonOfGroup(ds, cs, i);
    var g := Group(ds, DistinctKeys(ds)[i]);
    assert g[CheapestIndex(g)] in g;
  }

  /** `m` is the earliest pooled record with key `k` at the minimum price of
      that key: every record with the key costs at least as much, and every
      earlier one strictly more. */
  predicate EarliestCheapest(ds: seq<MovieDetail>, k: string, m: int)
  {
    && 0 <= m < |ds| && GroupKey(ds[m]) == k
    && (forall n :: 0 <= n < |ds| && GroupKey(ds[n]) == k ==> ds[m].price <= ds[n].price)
    && (forall n :: 0 <= n < m && GroupKey(ds[n]) == k ==> ds[n].price > ds[m].price)
  }

  /** Identity, provider and price of comparison `c` are those of record `d`. */
  predicate TakenFrom(c: MovieComparison, d: MovieDetail)
  {
    && c.movieId == d.id && c.title == d.title && c.year == d.year && c.poster == d.poster
    && c.cheapestProvider == d.provider && c.cheapestPrice == Some(d.price)
  }

  /** The comparison of each key takes its identity, its cheapest provider
      and its cheapest price from the earliest pooled record with that key
      at the key's minimum price: ties go to the record pooled first. */
  lemma ComparisonCheapest(ds: seq<MovieDetail>, cs: seq<MovieComparison>, i: nat)
    requires Comparisons(ds) == Some(cs)
    requires i < |DistinctKeys(ds)|
    ensures |cs| == |DistinctKeys(ds)|
    ensures exists m :: EarliestCheapest(ds, DistinctKeys(ds)[i], m) && TakenFrom(cs[i], ds[m])
  {
    ComparisonOfGroup(ds, cs, i);
    var k := DistinctKeys(ds)[i];
    assert HasKey(ds, k);
    var g := Group(ds, k);
    assert TakenFrom(cs[i], g[CheapestIndex(g)]);
    CheapestInPool(ds, k, cs[i]);
  }

  /** The record a group's summary is taken from, read back in terms of
      all the records. */
  lemma CheapestInPool(ds: seq<MovieDetail>, k: string, c: MovieComparison)
    requires HasKey(ds, k) && TakenFrom(c, Group(ds, k)[CheapestIndex(Group(ds, k))])
    ensures exists m :: EarliestCheapest(ds, k, m) && TakenFrom(c, ds[m])
  {
    var g := Group(ds, k);
    var ci := CheapestIndex(g);
    var m := GroupSource(ds, k, ci);
    forall n | 0 <= n < |ds| && GroupKey(ds[n]) == k
      ensures ds[m].price <= ds[n].price
    {
      assert ds[n] in g;
      var j :| 0 <= j < |g| && g[j] == ds[n];
    }
    forall n | 0 <= n < m && GroupKey(ds[n]) == k
      ensures ds[n].price > ds[m].price
    {
      EarlierInGroup(ds, k, n, m);
    }
    assert EarliestCheapest(ds, k, m);
  }

  /** An earlier record with the key sits earlier in the group. */
  lemma EarlierInGroup(ds: seq<MovieDetail>, k: string, n: nat, m: nat)
    requires n < m < |ds| && GroupKey(ds[n]) == k
    ensures |Group(ds[..n], k)| < |Group(ds[..m], k)|
    ensures |Group(ds[..n], k)| < |Group(ds, k)| && Group(ds, k)[|Group(ds[..n], k)|] == ds[n]
  {
    GroupLengthGrows(ds, k, n + 1, m);
    GroupPosition(ds, k, n);
  }

  /** A longer prefix has a group at least as long. */
  lemma GroupLengthGrows(ds: seq<MovieDetail>, k: string, a: nat, b: nat)
    requires a <= b <= |ds|
    ensures |Group(ds[..a], k)| <= |Group(ds[..b], k)|
  {
    var p := ds[..b];
    assert p[..a] == ds[..a];
    GroupPrefix(p, k, a);
  }

  /** The group of a prefix of the records is a prefix of the group. */
  lemma {:induction false} GroupPrefix(ds: seq<MovieDetail>, k: string, n: nat)
    requires n <= |ds|
    ensures Group(ds[..n], k) <= Group(ds, k)
    decreases |ds|
  {
    if n < |ds| {
      var init := ds[..|ds| - 1];
      assert init[..n] == ds[..n];
      GroupPrefix(init, k, n);
    } else {
      assert ds[..n] == ds;
    }
  }

  /** One more record extends the group exactly when it has the key. */
  lemma GroupStep(ds: seq<MovieDetail>, k: string, n: nat)
    requires n < |ds|
    ensures Group(ds[..n + 1], k)
              == if GroupKey(ds[n]) == k then Group(ds[..n], k) + [ds[n]] else Group(ds[..n], k)
  {
    var p := ds[..n + 1];
    assert p[..|p| - 1] == ds[..n];
    assert p[|p| - 1] == ds[n];
  }

  /** A record with the key sits in the group at the position given by the
      number of records with the key before it. */
  lemma GroupPosition(ds: seq<MovieDetail>, k: string, n: nat)
    requires n < |ds| && GroupKey(ds[n]) == k
    ensures |Group(ds[..n + 1], k)| == |Group(ds[..n], k)| + 1
    ensures |Group(ds[..n], k)| < |Group(ds, k)| && Group(ds, k)[|Group(ds[..n], k)|] == ds[n]
  {
    GroupStep(ds, k, n);
    GroupPrefix(ds, k, n + 1);
  }

  /** Each position of the group comes from a record with the key, with
      exactly that many records with the key before it. */
  lemma {:induction false} GroupSource(ds: seq<MovieDetail>, k: string, t: nat) returns (m: nat)
    requires t < |Group(ds, k)|
    ensures m < |ds| && GroupKey(ds[m]) == k && ds[m] == Group(ds, k)[t]
    ensures |Group(ds[..m], k)| == t
    decreases |ds|
  {
    var init := ds[..|ds| - 1];
    GroupPrefix(ds, k, |ds| - 1);
    if t < |Group(init, k)| {
      m := GroupSource(init, k, t);
      assert init[..m] == ds[..m] && init[m] == ds[m];
    } else {
      m := |ds| - 1;
      assert ds[..m] == init;
    }
  }

  /** The price map has exactly one entry per provider among the records
      with the comparison's key, holding that record's price; the
      availability map has the same keys, all true. */
  lemma ComparisonPrices(ds: seq<MovieDetail>, cs: seq<MovieComparison>, i: nat)
    requires Comparisons(ds) == Some(cs)
    requires i < |DistinctKeys(ds)|
    ensures |cs| == |DistinctKeys(ds)|
    ensures forall n :: 0 <= n < |ds| && GroupKey(ds[n]) == DistinctKeys(ds)[i] ==>
              ds[n].provider in cs[i].providerPrices &&
              cs[i].providerPrices[ds[n].provider] == Some(ds[n].price)
    ensures forall p :: p in cs[i].providerPrices ==>
              exists n :: 0 <= n < |ds| && GroupKey(ds[n]) == DistinctKeys(ds)[i] && ds[n].provider == p
    ensures cs[i].providerAvailability.Keys == cs[i].providerPrices.Keys
    ensures forall p :: p in cs[i].providerAvailability ==> cs[i].providerAvailability[p]
  {
    ComparisonOfGroup(ds, cs, i);
    var k := DistinctKeys(ds)[i];
    assert HasKey(ds, k);
    SummaryPrices(ds, k, cs[i]);
  }

  /** The price map of a group's summary, read back in terms of all the
      records. */
  lemma SummaryPrices(ds: seq<MovieDetail>, k: string, c: MovieComparison)
    requires HasKey(ds, k) && Summarizes(c, Group(ds, k))
    ensures forall n :: 0 <= n < |ds| && GroupKey(ds[n]) == k ==>
              ds[n].provider in c.providerPrices && c.providerPrices[ds[n].provider] == Some(ds[n].price)
    ensures forall p :: p in c.providerPrices ==>
              exists n :: 0 <= n < |ds| && GroupKey(ds[n]) == k && ds[n].provider == p
  {
    var g := Group(ds, k);
    forall n | 0 <= n < |ds| && GroupKey(ds[n]) == k
      ensures ds[n].provider in c.providerPrices && c.providerPrices[ds[n].provider] == Some(ds[n].price)
    {
      assert ds[n] in g;
      var t :| 0 <= t < |g| && g[t] == ds[n];
    }
    forall p | p in c.providerPrices
      ensures exists n :: 0 <= n < |ds| && GroupKey(ds[n]) == k && ds[n].provider == p
    {
      var t :| 0 <= t < |g| && g[t].provider == p;
      assert g[t] in ds;
      var n :| 0 <= n < |ds| && ds[n] == g[t];
    }
  }

  /** No records, no groups: an empty comparison list. */
  lemma NoRecordsNoComparisons()
    ensures Comparisons([]) == Some([])
  {
  }

  /** Two records with one key form a single group. */
  lemma SameKeyOneGroup(r1: MovieDetail, r2: MovieDetail)
    requires GroupKey(r1) == GroupKey(r2)
    ensures GroupBy([r1, r2]) == [[r1, r2]]
  {
    var ds := [r1, r2];
    var k := GroupKey(r1);
    assert ds[..1] == [r1] && [r1][..0] == [];
    assert DistinctKeys([r1]) == [k];
    assert DistinctKeys(ds) == [k];
    assert Group([r1], k) == [r1];
    assert Group(ds, k) == ds;
  }

  /** A single group yields a single comparison. */
  lemma OneGroupOneComparison(ds: seq<MovieDetail>)
    requires |ds| > 0 && GroupBy(ds) == [ds] && ProvidersDistinct(ds)
    ensures Comparisons(ds) == Some([BuildComparison(ds).value])
  {
    var groups: seq<seq<MovieDetail>> := [ds];
    assert ProvidersDistinct(groups[0]);
    var cs := BuildAll(groups).value;
    assert |cs| == 1 && BuildComparison(groups[0]) == Some(cs[0]);
    assert cs == [cs[0]];
  }

  /** Two records with one key and different providers give one comparison
      that prices both. */
  lemma OneKeyTwoProviders(r1: MovieDetail, r2: MovieDetail)
    requires GroupKey(r1) == GroupKey(r2) && r1.provider != r2.provider
    ensures Comparisons([r1, r2]).Some? && |Comparisons([r1, r2]).value| == 1
    ensures Comparisons([r1, r2]).value[0].providerPrices ==
              map[r1.provider := Some(r1.price), r2.provider := Some(r2.price)]
  {
    var ds := [r1, r2];
    SameKeyOneGroup(r1, r2);
    assert ProvidersDistinct(ds);
    OneGroupOneComparison(ds);
    PricesOfTwo(BuildComparison(ds).value, r1, r2);
  }

  lemma PricesOfTwo(c: MovieComparison, r1: MovieDetail, r2: MovieDetail)
    requires r1.provider != r2.provider && Summarizes(c, [r1, r2])
    ensures c.providerPrices == map[r1.provider := Some(r1.price), r2.provider := Some(r2.price)]
  {
    var g := [r1, r2];
    assert Providers(g) == {r1.provider, r2.provider} by {
      assert g[0] == r1 && g[1] == r2;
    }
    assert c.providerPrices[g[0].provider] == Some(r1.price);
    assert c.providerPrices[g[1].provider] == Some(r2.price);
  }

  /** The key is a concatenated string, not a pair: a title "A_B" with
      year "C" and a title "A" with year "B_C" fall into one group, so two
      different movies produce a single comparison. */
  lemma KeyCollision()
    ensures var r1 := MovieDetail("1", "A_B", "", "C", "", "P", 1.0);
            var r2 := MovieDetail("2", "A", "", "B_C", "", "Q", 2.0);
            && (r1.title, r1.year) != (r2.title, r2.year)
            && Comparisons([r1, r2]).Some?
            && |Comparisons([r1, r2]).value| == 1
            && Comparisons([r1, r2]).value[0].providerPrices == map["P" := Some(1.0), "Q" := Some(2.0)]
  {
    var r1 := MovieDetail("1", "A_B", "", "C", "", "P", 1.0);
    var r2 := MovieDetail("2", "A", "", "B_C", "", "Q", 2.0);
    assert GroupKey(r1) == GroupKey(r2) by {
      assert GroupKey(r1) == "A_B_C" == GroupKey(r2);
    }
    OneKeyTwoProviders(r1, r2);
  }
}
