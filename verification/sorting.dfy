/**
 * The ordering every report uses: `sorted((c1, c2) -> c2.getPopulation() -
 * c1.getPopulation())`, a stable sort into descending population.
 */
module Sorting {
  import opened CityRecords

  // --------------------------------------------------------- comparator

  /** Java `int` arithmetic: a result is reduced modulo 2^32 into the `int` range. */
  function Wrap32(x: int): (r: int)
    ensures IsInt32(r)
    ensures IsInt32(x) ==> r == x
    ensures (x - r) % 0x1_0000_0000 == 0
  {
    (x - Int32Min) % 0x1_0000_0000 + Int32Min
  }

  /**
   * The source's comparator, `c2.getPopulation() - c1.getPopulation()` in
   * `int` arithmetic. For populations in [0, 2^31 - 1] the subtraction never
   * wraps, so the comparator puts the larger population first and calls
   * equal populations equal.
   */
  function Compare(c1: City, c2: City): (r: int)
    requires IsInt32(c1.population) && IsInt32(c2.population)
    ensures IsInt32(r)
    ensures ValidPopulation(c1.population) && ValidPopulation(c2.population) ==>
      && r == c2.population - c1.population
      && (r < 0 <==> c1.population > c2.population)
      && (r == 0 <==> c1.population == c2.population)
  {
    Wrap32(c2.population - c1.population)
  }

  /**
   * Outside the population range the subtraction can wrap, whenever the
   * exact difference leaves the `int` range; for populations -2^31 and 1 it
   * wraps and the comparator inverts the order.
   */
  lemma CompareWrapsOnNegativePopulation()
    ensures Compare(City("a", "X", Int32Min), City("b", "X", 1)) < 0
  {
  }

  // --------------------------------------------------------- stable sort

  predicate SortedDesc(s: seq<City>)
  {
    forall i, j :: 0 <= i < j < |s| ==> s[i].population >= s[j].population
  }

  /**
   * Puts `x` before the first city whose population is not larger: ahead of
   * the cities with its own population, since `x` came before them in the input.
   */
  function Insert(x: City, s: seq<City>): (r: seq<City>)
    ensures |r| == |s| + 1
    ensures forall c :: c in r <==> c == x || c in s
    ensures multiset(r) == multiset(s) + multiset{x}
    ensures SortedDesc(s) ==> SortedDesc(r)
  {
    if s == [] || x.population >= s[0].population then [x] + s
    else
      var rest := Insert(x, s[1..]);
      assert s == [s[0]] + s[1..];
      ConsSorted(s, rest);
      [s[0]] + rest
  }

  /** Putting the head of a descending sequence before a descending rearrangement of its tail keeps it descending. */
  lemma ConsSorted(s: seq<City>, rest: seq<City>)
    requires s != []
    requires forall c :: c in rest ==> c in s[1..] || c.population < s[0].population
    requires SortedDesc(s) ==> SortedDesc(rest)
    ensures SortedDesc(s) ==> SortedDesc([s[0]] + rest)
  {
    if SortedDesc(s) {
      forall j | 0 <= j < |rest| ensures rest[j].population <= s[0].population {
        assert rest[j] in rest;
        if rest[j] in s[1..] {
          var i :| 0 <= i < |s[1..]| && s[1..][i] == rest[j];
          assert s[i + 1] == rest[j];
        }
      }
    }
  }

  /** The cities in descending order of population, ties in input order (insertion sort from the back). */
  function SortDesc(s: seq<City>): (r: seq<City>)
    ensures |r| == |s|
    ensures multiset(r) == multiset(s)
    ensures SortedDesc(r)
  {
    if s == [] then []
    else
      assert s == [s[0]] + s[1..];
      Insert(s[0], SortDesc(s[1..]))
  }

  /** Sorting neither adds nor loses a city. */
  lemma SortDescMembers(s: seq<City>)
    ensures forall c :: c in SortDesc(s) <==> c in s
  {
    forall c ensures c in SortDesc(s) <==> c in s {
      assert c in SortDesc(s) <==> c in multiset(SortDesc(s));
    }
  }

  /** In a descending order, every city of a prefix is at least as populous as every city after it. */
  lemma SplitDominates(top: seq<City>, rest: seq<City>)
    requires SortedDesc(top + rest)
    ensures forall c, d :: c in top && d in rest ==> c.population >= d.population
  {
    forall c, d | c in top && d in rest ensures c.population >= d.population {
      var i :| 0 <= i < |top| && top[i] == c;
      var j :| 0 <= j < |rest| && rest[j] == d;
      assert (top + rest)[i] == c && (top + rest)[|top| + j] == d;
    }
  }

  /**
   * For valid populations the sorted order is the order the source's
   * comparator asks for: no pair of cities is out of order under `Compare`.
   */
  lemma SortDescFollowsCompare(s: seq<City>)
    requires forall c :: c in s ==> ValidPopulation(c.population)
    ensures forall i, j :: 0 <= i < j < |SortDesc(s)| ==>
      && ValidPopulation(SortDesc(s)[i].population) && ValidPopulation(SortDesc(s)[j].population)
      && Compare(SortDesc(s)[i], SortDesc(s)[j]) <= 0
  {
    SortDescMembers(s);
    forall i, j | 0 <= i < j < |SortDesc(s)|
      ensures ValidPopulation(SortDesc(s)[i].population) && ValidPopulation(SortDesc(s)[j].population)
    {
      assert SortDesc(s)[i] in SortDesc(s) && SortDesc(s)[j] in SortDesc(s);
    }
  }

  /** The cities with population `p`, in their order in `s`. */
  function WithPopulation(s: seq<City>, p: int): (r: seq<City>)
    ensures |r| <= |s|
    ensures forall c :: c in r <==> c in s && c.population == p
  {
    if s == [] then []
    else if s[0].population == p then [s[0]] + WithPopulation(s[1..], p)
    else WithPopulation(s[1..], p)
  }

  lemma {:induction false} InsertWithPopulation(x: City, s: seq<City>, p: int)
    ensures WithPopulation(Insert(x, s), p) ==
      (if x.population == p then [x] else []) + WithPopulation(s, p)
    decreases |s|
  {
    if s == [] || x.population >= s[0].population {
      assert ([x] + s)[1..] == s;
    } else {
      InsertWithPopulation(x, s[1..], p);
      assert ([s[0]] + Insert(x, s[1..]))[1..] == Insert(x, s[1..]);
    }
  }

  /**
   * Stability: among the cities of any one population, the sorted order is
   * the input order.
   */
  lemma {:induction false} SortDescStable(s: seq<City>, p: int)
    ensures WithPopulation(SortDesc(s), p) == WithPopulation(s, p)
    decreases |s|
  {
    if s != [] {
      SortDescStable(s[1..], p);
      InsertWithPopulation(s[0], SortDesc(s[1..]), p);
    }
  }

  lemma HeadHasPopulation(s: seq<City>)
    ensures s != [] ==> WithPopulation(s, s[0].population) != []
  {
  }

  /**
   * Two descending orders with the same cities at every population, in the
   * same order, are the same sequence.
   */
  lemma {:induction false} SortedWithSamePopulationsEqual(r: seq<City>, q: seq<City>)
    requires SortedDesc(r) && SortedDesc(q)
    requires forall p :: WithPopulation(r, p) == WithPopulation(q, p)
    ensures r == q
    decreases |r|
  {
    if r == [] || q == [] {
      HeadHasPopulation(r);
      HeadHasPopulation(q);
    } else {
      var a, b := r[0], q[0];
      assert a in WithPopulation(q, a.population);
      assert b in WithPopulation(r, b.population);
      assert a.population == b.population;
      assert WithPopulation(r, a.population)[0] == a;
      assert WithPopulation(q, a.population)[0] == b;
      forall p ensures WithPopulation(r[1..], p) == WithPopulation(q[1..], p) {
        if p == a.population {
          assert WithPopulation(r[1..], p) == WithPopulation(r, p)[1..];
          assert WithPopulation(q[1..], p) == WithPopulation(q, p)[1..];
        } else {
          assert WithPopulation(r[1..], p) == WithPopulation(r, p);
          assert WithPopulation(q[1..], p) == WithPopulation(q, p);
        }
      }
      SortedWithSamePopulationsEqual(r[1..], q[1..]);
      assert r == [a] + r[1..];
      assert q == [b] + q[1..];
    }
  }

  /**
   * SortDesc is the one stable descending order: any descending arrangement
   * that keeps every population's cities in input order equals it, whatever
   * stable algorithm produced it.
   */
  lemma StableSortIsUnique(s: seq<City>, r: seq<City>)
    requires SortedDesc(r)
    requires forall p :: WithPopulation(r, p) == WithPopulation(s, p)
    ensures r == SortDesc(s)
  {
    forall p ensures WithPopulation(r, p) == WithPopulation(SortDesc(s), p) {
      SortDescStable(s, p);
    }
    SortedWithSamePopulationsEqual(r, SortDesc(s));
  }

  // ------------------------------------------------------ rank counting

  /** How many cities have a population strictly above `p`. */
  function CountAbove(s: seq<City>, p: int): (n: nat)
    ensures n <= |s|
  {
    if s == [] then 0
    else (if s[0].population > p then 1 else 0) + CountAbove(s[1..], p)
  }

  lemma {:induction false} InsertCountAbove(x: City, s: seq<City>, p: int)
    ensures CountAbove(Insert(x, s), p) == (if x.population > p then 1 else 0) + CountAbove(s, p)
    decreases |s|
  {
    if s == [] || x.population >= s[0].population {
      assert ([x] + s)[1..] == s;
    } else {
      InsertCountAbove(x, s[1..], p);
      assert ([s[0]] + Insert(x, s[1..]))[1..] == Insert(x, s[1..]);
    }
  }

  /** Sorting does not change how many cities lie above a population. */
  lemma {:induction false} SortDescCountAbove(s: seq<City>, p: int)
    ensures CountAbove(SortDesc(s), p) == CountAbove(s, p)
    decreases |s|
  {
    if s != [] {
      SortDescCountAbove(s[1..], p);
      InsertCountAbove(s[0], SortDesc(s[1..]), p);
    }
  }

  lemma {:induction false} CountsAppend(a: seq<City>, b: seq<City>, p: int)
    ensures CountAbove(a + b, p) == CountAbove(a, p) + CountAbove(b, p)
    ensures WithPopulation(a + b, p) == WithPopulation(a, p) + WithPopulation(b, p)
    decreases |a|
  {
    if a == [] {
      assert a + b == b;
    } else {
      assert (a + b)[0] == a[0];
      assert (a + b)[1..] == a[1..] + b;
      CountsAppend(a[1..], b, p);
    }
  }

  /** In a sequence whose populations are all at least `p`, each city is above `p` or at it. */
  lemma {:induction false} CountsAtLeast(s: seq<City>, p: int)
    requires forall c :: c in s ==> c.population >= p
    ensures CountAbove(s, p) + |WithPopulation(s, p)| == |s|
    decreases |s|
  {
    if s != [] {
      assert s[0] in s;
      assert forall c :: c in s[1..] ==> c in s;
      CountsAtLeast(s[1..], p);
    }
  }

  lemma {:induction false} CountAboveNone(s: seq<City>, p: int)
    requires forall c :: c in s ==> c.population <= p
    ensures CountAbove(s, p) == 0
    decreases |s|
  {
    if s != [] {
      assert s[0] in s;
      assert forall c :: c in s[1..] ==> c in s;
      CountAboveNone(s[1..], p);
    }
  }

  /**
   * In a descending order, the city at position k has exactly the cities of
   * larger population before it, plus some of the cities of its own
   * population (itself excluded): k counts the larger ones and the tied ones
   * placed ahead of it.
   */
  lemma SortedPosition(r: seq<City>, k: nat)
    requires SortedDesc(r) && k < |r|
    ensures k == CountAbove(r, r[k].population) + |WithPopulation(r[..k], r[k].population)|
    ensures k < CountAbove(r, r[k].population) + |WithPopulation(r, r[k].population)|
  {
    var p := r[k].population;
    assert r == r[..k] + r[k..];
    CountsAppend(r[..k], r[k..], p);
    assert forall c :: c in r[..k] ==> c.population >= p;
    CountsAtLeast(r[..k], p);
    assert forall c :: c in r[k..] ==> c.population <= p;
    CountAboveNone(r[k..], p);
    assert r[k..][0] == r[k];
    assert r[k] in WithPopulation(r[k..], p);
  }
}
