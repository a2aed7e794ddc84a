/**
 * The `CityAnalysis` object: its constructor loads the repository once, and
 * the national-rank report scans the sorted repository with an index loop.
 * The other four reports are the functions of module Reports applied to
 * `cities`.
 */
module Analysis {
  import opened CityRecords
  import opened Parsing
  import opened Sorting
  import opened Reports

  /** What `printArkansasLargestCityRank` prints: a city and its 1-based national rank. */
  datatype NationalRank = NationalRank(city: City, rank: nat)

  class CityAnalysis {
    /** The repository, assigned once by the constructor. */
    var cities: seq<City>

    /** Loads the repository from the lines of the input file. */
    constructor (lines: seq<string>)
      ensures cities == Load(lines)
    {
      cities := Load(lines);
    }

    /**
     * `printArkansasLargestCityRank`: sort the whole repository by descending
     * population and report the first "AR" city with its 1-based position;
     * report nothing when there is no "AR" city. Every city ranked ahead of it
     * is outside Arkansas and at least as populous, no Arkansas city is more
     * populous, and the rank is one more than the number of more populous
     * cities plus the equally populous ones placed ahead of it.
     */
    method ArkansasLargestCityRank() returns (r: Option<NationalRank>)
      ensures r.None? <==> forall c :: c in cities ==> c.state != Arkansas
      ensures r.Some? ==> IsArkansasRank(cities, r.value)
    {
      var sorted := SortDesc(cities);
      var i := 0;
      while i < |sorted|
        invariant 0 <= i <= |sorted|
        invariant forall j :: 0 <= j < i ==> sorted[j].state != Arkansas
      {
        if sorted[i].state == Arkansas {
          FirstInStateIsRank(cities, i);
          return Some(NationalRank(sorted[i], i + 1));
        }
        i := i + 1;
      }
      NoneInState(cities);
      return None;
    }
  }

  /**
   * `rank` is the 1-based position of `city` in the sorted repository, `city`
   * is from Arkansas, every city ranked ahead of it is outside Arkansas and at
   * least as populous, no Arkansas city is more populous, and the rank is one
   * more than the number of more populous cities plus the equally populous
   * ones placed ahead of it (exactly one more than the more populous ones when
   * no other city shares its population).
   */
  predicate IsArkansasRank(cities: seq<City>, r: NationalRank)
  {
    IsFirstInState(cities, r) && CountsBeforeRank(cities, r)
  }

  /** `city` sits at position `rank` of the sorted repository and is its first, and largest, "AR" city. */
  predicate IsFirstInState(cities: seq<City>, r: NationalRank)
  {
    var sorted := SortDesc(cities);
    && 1 <= r.rank <= |sorted|
    && sorted[r.rank - 1] == r.city
    && r.city in cities
    && r.city.state == Arkansas
    && (forall i :: 0 <= i < r.rank - 1 ==>
          sorted[i].state != Arkansas && sorted[i].population >= r.city.population)
    && (forall c :: c in cities && c.state == Arkansas ==> c.population <= r.city.population)
  }

  /** The cities ranked ahead are the more populous ones and some of the equally populous ones. */
  predicate CountsBeforeRank(cities: seq<City>, r: NationalRank)
  {
    var p := r.city.population;
    && CountAbove(cities, p) < r.rank <= CountAbove(cities, p) + |WithPopulation(cities, p)|
    && (|WithPopulation(cities, p)| == 1 ==> r.rank == CountAbove(cities, p) + 1)
  }

  /** The first "AR" city of the sorted repository, at position k, has national rank k + 1. */
  lemma FirstInStateIsRank(cities: seq<City>, k: nat)
    requires k < |SortDesc(cities)|
    requires SortDesc(cities)[k].state == Arkansas
    requires forall j :: 0 <= j < k ==> SortDesc(cities)[j].state != Arkansas
    ensures IsArkansasRank(cities, NationalRank(SortDesc(cities)[k], k + 1))
  {
    LargestInState(cities, k);
    RankCounts(cities, k);
  }

  /** The rank report has one possible answer: two rankings meeting its description are equal. */
  lemma ArkansasRankUnique(cities: seq<City>, r1: NationalRank, r2: NationalRank)
    requires IsArkansasRank(cities, r1) && IsArkansasRank(cities, r2)
    ensures r1 == r2
  {
  }

  /** A city ahead of every other "AR" city in the sorted repository is the most populous "AR" city. */
  lemma LargestInState(cities: seq<City>, k: nat)
    requires k < |SortDesc(cities)|
    requires SortDesc(cities)[k].state == Arkansas
    requires forall j :: 0 <= j < k ==> SortDesc(cities)[j].state != Arkansas
    ensures IsFirstInState(cities, NationalRank(SortDesc(cities)[k], k + 1))
  {
    var sorted := SortDesc(cities);
    FirstInStateIsLargest(sorted, k);
    SortDescMembers(cities);
    assert sorted[k] in sorted;
  }

  /** In a descending order, the first "AR" city is at least as populous as every "AR" city. */
  lemma FirstInStateIsLargest(r: seq<City>, k: nat)
    requires SortedDesc(r) && k < |r|
    requires forall j :: 0 <= j < k ==> r[j].state != Arkansas
    ensures forall i :: 0 <= i < k ==> r[i].population >= r[k].population
    ensures forall c :: c in r && c.state == Arkansas ==> c.population <= r[k].population
  {
    forall c | c in r && c.state == Arkansas ensures c.population <= r[k].population {
      var j :| 0 <= j < |r| && r[j] == c;
    }
  }

  /** A sorted repository without "AR" cities comes from a repository without them. */
  lemma NoneInState(cities: seq<City>)
    requires forall j :: 0 <= j < |SortDesc(cities)| ==> SortDesc(cities)[j].state != Arkansas
    ensures forall c :: c in cities ==> c.state != Arkansas
  {
    SortDescMembers(cities);
  }

  /**
   * Position k of the sorted repository counts the more populous cities and
   * the equally populous ones placed ahead of it; with no tie it counts only
   * the more populous ones.
   */
  lemma RankCounts(cities: seq<City>, k: nat)
    requires k < |SortDesc(cities)|
    ensures CountsBeforeRank(cities, NationalRank(SortDesc(cities)[k], k + 1))
  {
    var sorted := SortDesc(cities);
    var p := sorted[k].population;
    SortedPosition(sorted, k);
    SortedPrefixWithPopulation(sorted, k);
    SortDescCountAbove(cities, p);
    SortDescStable(cities, p);
  }

  /** The cities of population p before position k and the one at k are distinct entries of the whole. */
  lemma SortedPrefixWithPopulation(sorted: seq<City>, k: nat)
    requires k < |sorted|
    ensures |WithPopulation(sorted[..k], sorted[k].population)| + 1 <= |WithPopulation(sorted, sorted[k].population)|
  {
    var p := sorted[k].population;
    assert sorted == sorted[..k] + sorted[k..];
    CountsAppend(sorted[..k], sorted[k..], p);
    assert sorted[k..][0] == sorted[k];
    assert sorted[k] in WithPopulation(sorted[k..], p);
  }
}
