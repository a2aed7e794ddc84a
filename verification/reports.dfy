/**
 * The four stream-pipeline reports, each returning the data it prints:
 * top three cities per state, lowest city per state, cities sharing a name,
 * and the cities of Arkansas.
 */
module Reports {
  import opened CityRecords
  import opened Sorting
  import opened Grouping

  /** The one state the last two reports look at. */
  const Arkansas: string := "AR"

  function Min(a: int, b: int): int { if a <= b then a else b }

  /** The cities of state `st`, in input order: the group `groupingBy(City::getState)` builds for it. */
  function InState(cities: seq<City>, st: string): seq<City>
  {
    WithKey(cities, StateOf, st)
  }

  /** `limit(3)`. */
  function TakeThree(s: seq<City>): (r: seq<City>)
    ensures |r| == Min(3, |s|) && IsPrefix(r, s)
  {
    if |s| <= 3 then s else s[..3]
  }

  // ------------------------------------------------ top three per state

  /** `printTopThreeCitiesByState`: per state present, the first three of its cities sorted by descending population. */
  function TopThreeByState(cities: seq<City>): (r: map<string, seq<City>>)
    ensures r.Keys == KeysOf(cities, StateOf)
    ensures forall st :: st in r ==> r[st] == TakeThree(SortDesc(InState(cities, st)))
  {
    var groups := GroupBy(cities, StateOf);
    map st | st in groups :: TakeThree(SortDesc(groups[st]))
  }

  /**
   * For each state present, the report lists min(3, n) of its n cities, in
   * non-increasing population order, ties in input order, and no city of that
   * state left out has a larger population than one listed.
   */
  lemma TopThreePerState(cities: seq<City>, st: string)
    requires st in KeysOf(cities, StateOf)
    ensures var top := TopThreeByState(cities)[st];
      && |top| == Min(3, |InState(cities, st)|)
      && |top| >= 1
      && SortedDesc(top)
      && (forall c :: c in top ==> c in cities && c.state == st)
      && IsPrefix(top, SortDesc(InState(cities, st)))
      && (forall p :: IsPrefix(WithPopulation(top, p), WithPopulation(InState(cities, st), p)))
      && (forall c, d :: c in top && d in multiset(InState(cities, st)) - multiset(top) ==>
            c.population >= d.population)
  {
    var c0 :| c0 in cities && c0.state == st;
    assert c0 in InState(cities, st);
    TopThreeOfGroup(InState(cities, st));
  }

  /** The properties of `sorted(...).limit(3)` over one group. */
  lemma TopThreeOfGroup(group: seq<City>)
    ensures var top := TakeThree(SortDesc(group));
      && SortedDesc(top)
      && (forall c :: c in top ==> c in group)
      && (forall p :: IsPrefix(WithPopulation(top, p), WithPopulation(group, p)))
      && (forall c, d :: c in top && d in multiset(group) - multiset(top) ==> c.population >= d.population)
  {
    var sorted := SortDesc(group);
    var top := TakeThree(sorted);
    SortDescMembers(group);
    forall p ensures IsPrefix(WithPopulation(top, p), WithPopulation(group, p)) {
      TopThreeStable(group, p);
    }
    TopThreeDominates(group);
  }

  lemma TopThreeStable(group: seq<City>, p: int)
    ensures var top := TakeThree(SortDesc(group));
      IsPrefix(WithPopulation(top, p), WithPopulation(group, p))
  {
    var sorted := SortDesc(group);
    var top := TakeThree(sorted);
    var rest := sorted[|top|..];
    assert sorted == top + rest;
    CountsAppend(top, rest, p);
    SortDescStable(group, p);
  }

  lemma TopThreeDominates(group: seq<City>)
    ensures var top := TakeThree(SortDesc(group));
      forall c, d :: c in top && d in multiset(group) - multiset(top) ==> c.population >= d.population
  {
    var sorted := SortDesc(group);
    var top := TakeThree(sorted);
    var rest := sorted[|top|..];
    assert sorted == top + rest;
    assert multiset(group) - multiset(top) == multiset(rest) by {
      assert multiset(sorted) == multiset(top) + multiset(rest);
    }
    SplitDominates(top, rest);
    forall d | d in multiset(group) - multiset(top) ensures d in rest {
      assert d in multiset(rest);
    }
  }

  // ------------------------------------------------ lowest per state

  /**
   * The `minBy` reduction over a group, left to right: the running minimum
   * is kept unless a later city is strictly smaller, so on a tie the first
   * city met wins.
   */
  function FirstMinimum(s: seq<City>): (m: City)
    requires s != []
    ensures m in s
    ensures forall c :: c in s ==> m.population <= c.population
    ensures WithPopulation(s, m.population) != [] && WithPopulation(s, m.population)[0] == m
  {
    if |s| == 1 then
      assert WithPopulation(s, s[0].population) == [s[0]];
      s[0]
    else
      var init, last := s[..|s| - 1], s[|s| - 1];
      var m := FirstMinimum(init);
      assert s == init + [last];
      if m.population <= last.population then
        WithPopulationSnoc(init, last, m.population);
        m
      else
        WithPopulationSnoc(init, last, last.population);
        NoneWithPopulation(init, last.population);
        last
  }

  lemma WithPopulationSnoc(init: seq<City>, last: City, p: int)
    ensures WithPopulation(init + [last], p) ==
      WithPopulation(init, p) + (if last.population == p then [last] else [])
  {
    CountsAppend(init, [last], p);
    assert [last][1..] == [];
  }

  lemma NoneWithPopulation(s: seq<City>, p: int)
    requires forall c :: c in s ==> c.population != p
    ensures WithPopulation(s, p) == []
  {
  }

  /** `printLowestCityByState`: per state present, the `minBy` of its cities. */
  function LowestByState(cities: seq<City>): (r: map<string, City>)
    ensures r.Keys == KeysOf(cities, StateOf)
    ensures forall st :: st in r ==> r[st] == FirstMinimum(InState(cities, st))
  {
    var groups := GroupBy(cities, StateOf);
    map st | st in groups :: FirstMinimum(groups[st])
  }

  /**
   * Exactly one city per state present: a city of that state whose
   * population no city of the state undercuts, and the first such city in
   * input order.
   */
  lemma LowestPerState(cities: seq<City>, st: string)
    requires st in KeysOf(cities, StateOf)
    ensures var low := LowestByState(cities)[st];
      && low in cities && low.state == st
      && (forall c :: c in cities && c.state == st ==> low.population <= c.population)
      && WithPopulation(InState(cities, st), low.population)[0] == low
  {
    var c0 :| c0 in cities && c0.state == st;
    var group := InState(cities, st);
    assert c0 in group;
    var low := FirstMinimum(group);
    assert LowestByState(cities)[st] == low;
    forall c | c in cities && c.state == st ensures low.population <= c.population {
      assert c in group;
    }
  }

  // ------------------------------------------------ shared names

  /** `printCitiesWithSameName`: the name groups holding more than one city. */
  function SharedNames(cities: seq<City>): (r: map<string, seq<City>>)
    ensures forall n :: n in r <==> |WithKey(cities, NameOf, n)| > 1
    ensures forall n :: n in r ==> r[n] == WithKey(cities, NameOf, n)
  {
    var groups := GroupBy(cities, NameOf);
    assert forall n :: |WithKey(cities, NameOf, n)| > 1 ==> n in groups by {
      forall n | |WithKey(cities, NameOf, n)| > 1 ensures n in groups {
        var c := WithKey(cities, NameOf, n)[0];
        assert c in WithKey(cities, NameOf, n);
      }
    }
    map n | n in groups && |groups[n]| > 1 :: groups[n]
  }

  /**
   * A name is reported exactly when two different records carry it, and its
   * group is every city of that name, in input order.
   */
  lemma SharedNamesExact(cities: seq<City>, n: string)
    ensures n in SharedNames(cities) <==>
      exists i, j :: 0 <= i < j < |cities| && cities[i].name == n && cities[j].name == n
    ensures n in SharedNames(cities) ==>
      && |SharedNames(cities)[n]| >= 2
      && (forall c :: c in SharedNames(cities)[n] <==> c in cities && c.name == n)
  {
    TwoWithKey(cities, NameOf, n);
  }

  // ------------------------------------------------ cities of Arkansas

  /** What `printArkansasCities` prints: "No cities found" or a count and a list. */
  datatype StateListing = NotFound | Found(count: nat, cities: seq<City>)

  /** `printArkansasCities`: the "AR" cities sorted by descending population, or none found. */
  function ArkansasCities(cities: seq<City>): (r: StateListing)
    ensures r.NotFound? <==> forall c :: c in cities ==> c.state != Arkansas
    ensures r.Found? ==> r.count == |r.cities| && r.cities == SortDesc(InState(cities, Arkansas))
  {
    var arCities := SortDesc(InState(cities, Arkansas));
    assert arCities == [] ==> InState(cities, Arkansas) == [];
    assert arCities != [] ==> arCities[0] in InState(cities, Arkansas) by {
      if arCities != [] {
        assert arCities[0] in multiset(arCities);
      }
    }
    if arCities == [] then NotFound else Found(|arCities|, arCities)
  }

  /**
   * When Arkansas cities exist, the list holds each of them as often as the
   * repository does and nothing else, in non-increasing population order with
   * ties in input order, and the count is how many there are.
   */
  lemma ArkansasListing(cities: seq<City>)
    requires exists c :: c in cities && c.state == Arkansas
    ensures ArkansasCities(cities).Found?
    ensures var list := ArkansasCities(cities).cities;
      && ArkansasCities(cities).count == |InState(cities, Arkansas)| > 0
      && multiset(list) == multiset(InState(cities, Arkansas))
      && (forall c :: c in list <==> c in cities && c.state == Arkansas)
      && SortedDesc(list)
      && (forall p :: WithPopulation(list, p) == WithPopulation(InState(cities, Arkansas), p))
  {
    var list := ArkansasCities(cities).cities;
    forall c ensures c in list <==> c in InState(cities, Arkansas) {
      assert c in list <==> c in multiset(list);
    }
    forall p ensures WithPopulation(list, p) == WithPopulation(InState(cities, Arkansas), p) {
      SortDescStable(InState(cities, Arkansas), p);
    }
  }
}
