/** The site lists the list maker fills, and the cross-source tally its
    `main` builds from them: every appearance of a title in any list adds one
    to that title's count. */
module Aggregation {
  import opened Sites

  // ---------------------------------------------------------------------
  // reference definitions

  /** All titles in the order the counting loop visits them. */
  function Flatten(lists: seq<seq<string>>): seq<string>
  {
    if |lists| == 0 then [] else Flatten(lists[..|lists| - 1]) + lists[|lists| - 1]
  }

  /** How often `t` occurs across all lists, repeats inside one list included. */
  function Occurrences(lists: seq<seq<string>>, t: string): nat
  {
    if |lists| == 0 then 0
    else Occurrences(lists[..|lists| - 1], t) + multiset(lists[|lists| - 1])[t]
  }

  /** `t` appears in some list. */
  predicate Listed(lists: seq<seq<string>>, t: string)
  {
    exists i :: 0 <= i < |lists| && t in lists[i]
  }

  // ---------------------------------------------------------------------
  // the counting loop

  /** One step of the loop body: a title not yet in the map gets count 1,
      one already there gets its count raised by one. */
  function Bump(m: map<string, nat>, t: string): (r: map<string, nat>)
    ensures r.Keys == m.Keys + {t}
    ensures r[t] == (if t in m then m[t] else 0) + 1
    ensures forall u :: u in m && u != t ==> r[u] == m[u]
  {
    if t !in m then m[t := 1] else m[t := m[t] + 1]
  }

  /** The inner loop over one site list, starting from the map `m`. */
  function CountList(m: map<string, nat>, items: seq<string>): map<string, nat>
  {
    if |items| == 0 then m
    else Bump(CountList(m, items[..|items| - 1]), items[|items| - 1])
  }

  /** Counting a list adds its titles to the keys and raises every count by
      the number of times its title occurs in the list. */
  lemma {:induction false} CountListCounts(m: map<string, nat>, items: seq<string>)
    ensures forall t :: t in CountList(m, items) <==> t in m || t in items
    ensures forall t :: t in CountList(m, items) ==>
      CountList(m, items)[t] == (if t in m then m[t] else 0) + multiset(items)[t]
  {
    if |items| > 0 {
      var n := |items| - 1;
      CountListCounts(m, items[..n]);
      LastItem(items);
    }
  }

  /** A list is its prefix and its last item, as a sequence and as a multiset. */
  lemma LastItem(items: seq<string>)
    requires |items| > 0
    ensures items == items[..|items| - 1] + [items[|items| - 1]]
    ensures multiset(items) == multiset(items[..|items| - 1]) + multiset{items[|items| - 1]}
    ensures forall t :: t in items <==> t in items[..|items| - 1] || t == items[|items| - 1]
  {
    var n := |items| - 1;
    assert items == items[..n] + [items[n]];
  }

  /** The tally of `main`: both loops run over all site lists. Its keys are
      exactly the listed titles, and each count is the number of occurrences
      of its title across all lists, so at least one. */
  function Tally(lists: seq<seq<string>>): (r: map<string, nat>)
    ensures forall t :: t in r <==> Listed(lists, t)
    ensures forall t :: t in r ==> r[t] == Occurrences(lists, t)
    ensures forall t :: t in r ==> r[t] >= 1
    ensures forall t :: t !in r ==> Occurrences(lists, t) == 0
  {
    if |lists| == 0 then map[]
    else
      var n := |lists| - 1;
      ListedSnoc(lists);
      CountListCounts(Tally(lists[..n]), lists[n]);
      CountListPositive(Tally(lists[..n]), lists[n]);
      CountList(Tally(lists[..n]), lists[n])
  }

  /** A title is listed in a non-empty sequence of lists exactly when it is
      listed before the last list or in the last list. */
  lemma ListedSnoc(lists: seq<seq<string>>)
    requires |lists| > 0
    ensures forall t :: Listed(lists, t) <==> Listed(lists[..|lists| - 1], t) || t in lists[|lists| - 1]
  {
    var n := |lists| - 1;
    assert forall i :: 0 <= i < n ==> lists[..n][i] == lists[i];
  }

  /** Counting a list into a map of positive counts leaves every count positive. */
  lemma CountListPositive(m: map<string, nat>, items: seq<string>)
    requires forall t :: t in m ==> m[t] >= 1
    ensures forall t :: t in CountList(m, items) ==> CountList(m, items)[t] >= 1
  {
    CountListCounts(m, items);
    forall t | t in CountList(m, items)
      ensures CountList(m, items)[t] >= 1
    {
      if t !in m {
        assert t in items;
      }
    }
  }

  /** The inner loop of `main` over one site list. */
  method CountItems(m: map<string, nat>, items: seq<string>) returns (master: map<string, nat>)
    ensures master == CountList(m, items)
  {
    master := m;
    var j := 0;
    while j < |items|
      invariant j <= |items|
      invariant master == CountList(m, items[..j])
    {
      var movie := items[j];
      ghost var before := master;
      assert items[..j + 1][..j] == items[..j];
      assert CountList(m, items[..j + 1]) == Bump(before, movie);
      if movie !in master {
        master := master[movie := 1];
      } else {
        master := master[movie := master[movie] + 1];
      }
      j := j + 1;
    }
    assert items[..j] == items;
  }

  /** The tally as `main` computes it, with the two nested loops. */
  method CountTitles(lists: seq<seq<string>>) returns (master: map<string, nat>)
    ensures forall t :: t in master <==> Listed(lists, t)
    ensures forall t :: t in master ==> master[t] == Occurrences(lists, t)
  {
    master := map[];
    var i := 0;
    while i < |lists|
      invariant i <= |lists|
      invariant master == Tally(lists[..i])
    {
      master := CountItems(master, lists[i]);
      assert lists[..i + 1][..i] == lists[..i];
      i := i + 1;
    }
    assert lists[..i] == lists;
  }

  /** `t` is on at least one of the five site lists. */
  predicate OnSomeSite(s: SiteLists, t: string)
  {
    t in s.imdb || t in s.hollywoodReporter || t in s.empire || t in s.tomatoes || t in s.wikiGross
  }

  /** The number of times `t` appears on the five site lists together. */
  function SiteCount(s: SiteLists, t: string): nat
  {
    multiset(s.imdb)[t] + multiset(s.hollywoodReporter)[t] + multiset(s.empire)[t]
    + multiset(s.tomatoes)[t] + multiset(s.wikiGross)[t]
  }

  /** The tally over the five site lists `main` gathers: its titles are
      those on some site, and a title's count is the number of times it
      appears on the five sites together. */
  function MasterList(s: SiteLists): (r: map<string, nat>)
    ensures forall t :: t in r <==> OnSomeSite(s, t)
    ensures forall t :: t in r ==> r[t] == SiteCount(s, t)
  {
    FiveSites(s);
    Tally(SiteOrder(s))
  }

  /** Listing and occurrences over the five site lists, site by site. */
  lemma FiveSites(s: SiteLists)
    ensures forall t :: Listed(SiteOrder(s), t) <==> OnSomeSite(s, t)
    ensures forall t :: Occurrences(SiteOrder(s), t) == SiteCount(s, t)
  {
    var lists := SiteOrder(s);
    assert lists[..4] == [s.imdb, s.hollywoodReporter, s.empire, s.tomatoes];
    assert lists[..4][..3] == [s.imdb, s.hollywoodReporter, s.empire];
    assert lists[..4][..3][..2] == [s.imdb, s.hollywoodReporter];
    assert lists[..4][..3][..2][..1] == [s.imdb];
    assert lists[..4][..3][..2][..1][..0] == [];
    forall t
      ensures Listed(lists, t) <==> OnSomeSite(s, t)
      ensures Occurrences(lists, t) == SiteCount(s, t)
    {
      if Listed(lists, t) {
        var i :| 0 <= i < |lists| && t in lists[i];
      }
      if t in s.imdb { assert t in lists[0]; }
      if t in s.hollywoodReporter { assert t in lists[1]; }
      if t in s.empire { assert t in lists[2]; }
      if t in s.tomatoes { assert t in lists[3]; }
      if t in s.wikiGross { assert t in lists[4]; }
      var m0, m1, m2, m3, m4 := multiset(s.imdb)[t], multiset(s.hollywoodReporter)[t],
        multiset(s.empire)[t], multiset(s.tomatoes)[t], multiset(s.wikiGross)[t];
      assert Occurrences(lists[..4][..3][..2][..1], t) == m0;
      assert Occurrences(lists[..4][..3][..2], t) == m0 + m1;
      assert Occurrences(lists[..4][..3], t) == m0 + m1 + m2;
      assert Occurrences(lists[..4], t) == m0 + m1 + m2 + m3;
      assert Occurrences(lists, t) == m0 + m1 + m2 + m3 + m4;
    }
  }

  // ---------------------------------------------------------------------
  // properties of the tally

  /** Occurrences across the lists are occurrences in the flattened list. */
  lemma {:induction false} OccurrencesFlatten(lists: seq<seq<string>>, t: string)
    ensures Occurrences(lists, t) == multiset(Flatten(lists))[t]
  {
    if |lists| > 0 {
      OccurrencesFlatten(lists[..|lists| - 1], t);
    }
  }

  /** The sum of the lengths of all lists. */
  function TotalLength(lists: seq<seq<string>>): nat
  {
    if |lists| == 0 then 0 else TotalLength(lists[..|lists| - 1]) + |lists[|lists| - 1]|
  }

  /** The flattened list has the total length of all lists. */
  lemma {:induction false} TotalLengthFlatten(lists: seq<seq<string>>)
    ensures |Flatten(lists)| == TotalLength(lists)
  {
    if |lists| > 0 {
      TotalLengthFlatten(lists[..|lists| - 1]);
    }
  }

  /** The sum of the counts of `m` over the titles in `keys`. */
  ghost function SumOver(m: map<string, nat>, keys: set<string>): nat
    requires keys <= m.Keys
  {
    if keys == {} then 0
    else
      var k :| k in keys;
      m[k] + SumOver(m, keys - {k})
  }

  /** The sum of all counts of a tally map. */
  ghost function Total(m: map<string, nat>): nat
  {
    SumOver(m, m.Keys)
  }

  /** The sum over a key set can be taken starting from any of its keys. */
  lemma {:induction false} SumOverRemove(m: map<string, nat>, keys: set<string>, k: string)
    requires keys <= m.Keys && k in keys
    ensures SumOver(m, keys) == m[k] + SumOver(m, keys - {k})
    decreases keys
  {
    var k' :| k' in keys && SumOver(m, keys) == m[k'] + SumOver(m, keys - {k'});
    if k' != k {
      SumOverRemove(m, keys - {k'}, k);
      SumOverRemove(m, keys - {k}, k');
      assert keys - {k'} - {k} == keys - {k} - {k'};
    }
  }

  /** The sum over a key set depends only on the counts of those keys. */
  lemma {:induction false} SumOverAgree(m1: map<string, nat>, m2: map<string, nat>, keys: set<string>)
    requires keys <= m1.Keys && keys <= m2.Keys
    requires forall k :: k in keys ==> m1[k] == m2[k]
    ensures SumOver(m1, keys) == SumOver(m2, keys)
    decreases keys
  {
    if keys != {} {
      var k :| k in keys && SumOver(m1, keys) == m1[k] + SumOver(m1, keys - {k});
      SumOverAgree(m1, m2, keys - {k});
      SumOverRemove(m2, keys, k);
    }
  }

  /** One step of the loop raises the sum of the counts by one. */
  lemma TotalBump(m: map<string, nat>, t: string)
    ensures Total(Bump(m, t)) == Total(m) + 1
  {
    var r := Bump(m, t);
    SumOverRemove(r, r.Keys, t);
    assert r.Keys - {t} == m.Keys - {t};
    SumOverAgree(r, m, m.Keys - {t});
    if t in m {
      SumOverRemove(m, m.Keys, t);
    } else {
      assert m.Keys - {t} == m.Keys;
    }
  }

  /** Counting one list raises the sum of the counts by its length. */
  lemma {:induction false} TotalCountList(m: map<string, nat>, items: seq<string>)
    ensures Total(CountList(m, items)) == Total(m) + |items|
  {
    if |items| > 0 {
      var n := |items| - 1;
      TotalCountList(m, items[..n]);
      TotalBump(CountList(m, items[..n]), items[n]);
    }
  }

  /** The counts of the tally sum to the total length of all lists. */
  lemma {:induction false} TallyTotal(lists: seq<seq<string>>)
    ensures Total(Tally(lists)) == TotalLength(lists)
  {
    if |lists| == 0 {
      assert Tally(lists) == map[];
    } else {
      var n := |lists| - 1;
      TallyTotal(lists[..n]);
      TotalCountList(Tally(lists[..n]), lists[n]);
    }
  }

  /** A title is listed exactly when it occurs at least once. */
  lemma {:induction false} ListedIffOccurs(lists: seq<seq<string>>, t: string)
    ensures Listed(lists, t) <==> Occurrences(lists, t) > 0
  {
    if |lists| > 0 {
      var n := |lists| - 1;
      ListedIffOccurs(lists[..n], t);
      assert forall i :: 0 <= i < n ==> lists[..n][i] == lists[i];
      assert Listed(lists, t) <==> Listed(lists[..n], t) || t in lists[n];
    }
  }

  /** The tally depends only on which titles occur how often: lists whose
      flattened contents are permutations of each other have the same tally. */
  lemma TallyPermutation(a: seq<seq<string>>, b: seq<seq<string>>)
    requires multiset(Flatten(a)) == multiset(Flatten(b))
    ensures Tally(a) == Tally(b)
  {
    forall t
      ensures t in Tally(a) <==> t in Tally(b)
      ensures t in Tally(a) ==> Tally(a)[t] == Tally(b)[t]
    {
      OccurrencesFlatten(a, t);
      OccurrencesFlatten(b, t);
      ListedIffOccurs(a, t);
      ListedIffOccurs(b, t);
    }
  }

  /** Flattening a concatenation of list sequences concatenates the flattenings. */
  lemma {:induction false} FlattenAppend(u: seq<seq<string>>, v: seq<seq<string>>)
    ensures Flatten(u + v) == Flatten(u) + Flatten(v)
    decreases |v|
  {
    if |v| > 0 {
      var n := |v| - 1;
      assert (u + v)[..|u + v| - 1] == u + v[..n];
      FlattenAppend(u, v[..n]);
    } else {
      assert u + v == u;
    }
  }

  /** Visiting the site lists in another order gives the same tally. */
  lemma {:induction false} TallySiteOrder(a: seq<seq<string>>, b: seq<seq<string>>)
    requires multiset(a) == multiset(b)
    ensures multiset(Flatten(a)) == multiset(Flatten(b))
    ensures Tally(a) == Tally(b)
    decreases |a|
  {
    if |a| > 0 {
      var n := |a| - 1;
      var x := a[n];
      assert x in multiset(b);
      var k :| 0 <= k < |b| && b[k] == x;
      var b' := b[..k] + b[k + 1..];
      RemoveMatching(a, b, k);
      TallySiteOrder(a[..n], b');
      FlattenRemove(b, k);
    } else {
      assert |multiset(b)| == |b|;
      assert b == [];
    }
    TallyPermutation(a, b);
  }

  /** Taking the last list off `a` and a list equal to it off `b` keeps
      the two sequences permutations of each other. */
  lemma RemoveMatching(a: seq<seq<string>>, b: seq<seq<string>>, k: nat)
    requires multiset(a) == multiset(b)
    requires 0 < |a| && k < |b| && b[k] == a[|a| - 1]
    ensures multiset(a[..|a| - 1]) == multiset(b[..k] + b[k + 1..])
  {
    var n := |a| - 1;
    var x := a[n];
    var b' := b[..k] + b[k + 1..];
    assert a == a[..n] + [x];
    assert b == b[..k] + [x] + b[k + 1..];
    assert multiset(a) == multiset(a[..n]) + multiset{x};
    assert multiset(b) == multiset(b') + multiset{x};
    forall y
      ensures multiset(a[..n])[y] == multiset(b')[y]
    {
      assert multiset(a)[y] == multiset(b)[y];
    }
  }

  /** The titles of `b` are those of `b` without its `k`-th list, plus that list. */
  lemma FlattenRemove(b: seq<seq<string>>, k: nat)
    requires k < |b|
    ensures multiset(Flatten(b)) == multiset(Flatten(b[..k] + b[k + 1..])) + multiset(b[k])
  {
    var x, p, q := b[k], b[..k], b[k + 1..];
    AroundIndex(b, k);
    FlattenAround(p, x, q);
    FlattenAppend(p, q);
    MultisetOfThree(Flatten(p), x, Flatten(q));
  }

  /** A list of lists is its part before index `k`, the list at `k` and its part after. */
  lemma AroundIndex(b: seq<seq<string>>, k: nat)
    requires k < |b|
    ensures b == b[..k] + [b[k]] + b[k + 1..]
  {
  }

  /** Concatenating around one list concatenates around its items. */
  lemma FlattenAround(p: seq<seq<string>>, x: seq<string>, q: seq<seq<string>>)
    ensures Flatten(p + [x] + q) == Flatten(p) + x + Flatten(q)
  {
    FlattenAppend(p + [x], q);
    FlattenAppend(p, [x]);
    FlattenOne(x);
  }

  /** The multiset of a concatenation is the sum of the multisets of its parts. */
  lemma MultisetOfThree(u: seq<string>, v: seq<string>, w: seq<string>)
    ensures multiset(u + v + w) == multiset(u) + multiset(v) + multiset(w)
    ensures multiset(u + w) == multiset(u) + multiset(w)
  {
  }

  /** Concatenating a single list gives that list. */
  lemma FlattenOne(x: seq<string>)
    ensures Flatten([x]) == x
  {
    assert [x][..0] == [];
  }

  /** Reordering the titles inside each site list gives the same tally. */
  lemma {:induction false} TallyItemOrder(a: seq<seq<string>>, b: seq<seq<string>>)
    requires |a| == |b|
    requires forall i :: 0 <= i < |a| ==> multiset(a[i]) == multiset(b[i])
    ensures multiset(Flatten(a)) == multiset(Flatten(b))
    ensures Tally(a) == Tally(b)
  {
    if |a| > 0 {
      var n := |a| - 1;
      TallyItemOrder(a[..n], b[..n]);
    }
    TallyPermutation(a, b);
  }

  /** A title that two site lists each hold once is counted twice. */
  lemma TallyTwoSites(t: string)
    ensures Tally([[t], [t]]) == map[t := 2]
  {
    var lists := [[t], [t]];
    var r := Tally(lists);
    assert lists[..1] == [[t]];
    assert lists[..1][..0] == [];
    assert Occurrences([[t]], t) == 1;
    assert Occurrences(lists, t) == 2;
    assert Listed(lists, t) by {
      assert t in lists[0];
    }
    assert forall u :: u in r ==> u == t;
  }
}
