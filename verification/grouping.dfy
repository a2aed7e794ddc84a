/**
 * `Collectors.groupingBy(key)`: a left-to-right pass that appends each city
 * to the list of its key, creating the list on the key's first occurrence.
 * Groups live in a map; the iteration order of the source's `HashMap` is not
 * modelled.
 */
module Grouping {
  import opened CityRecords

  /** The cities whose key is `k`, in input order. */
  function WithKey(s: seq<City>, key: City -> string, k: string): (r: seq<City>)
    ensures |r| <= |s|
    ensures forall c :: c in r <==> c in s && key(c) == k
  {
    if s == [] then []
    else
      var last := s[|s| - 1];
      assert s == s[..|s| - 1] + [last];
      WithKey(s[..|s| - 1], key, k) + (if key(last) == k then [last] else [])
  }

  /** The keys that occur in `s`. */
  function KeysOf(s: seq<City>, key: City -> string): set<string>
  {
    set c | c in s :: key(c)
  }

  lemma WithKeyEmpty(s: seq<City>, key: City -> string, k: string)
    requires k !in KeysOf(s, key)
    ensures WithKey(s, key, k) == []
  {
  }

  /**
   * The map `groupingBy` builds: one entry per key that occurs, holding every
   * city with that key in input order.
   */
  function GroupBy(s: seq<City>, key: City -> string): (g: map<string, seq<City>>)
    ensures g.Keys == KeysOf(s, key)
    ensures forall k :: k in g ==> g[k] == WithKey(s, key, k)
  {
    if s == [] then map[]
    else
      var init, last := s[..|s| - 1], s[|s| - 1];
      var g := GroupBy(init, key);
      var k := key(last);
      assert s == init + [last];
      KeysOfSnoc(init, last, key);
      assert k !in g ==> WithKey(init, key, k) == [] by {
        if k !in g { WithKeyEmpty(init, key, k); }
      }
      g[k := (if k in g then g[k] else []) + [last]]
  }

  lemma KeysOfSnoc(init: seq<City>, last: City, key: City -> string)
    ensures KeysOf(init + [last], key) == KeysOf(init, key) + {key(last)}
  {
    assert forall c :: c in init + [last] <==> c in init || c == last;
  }

  /** Appending a city extends its key's group and no other. */
  lemma WithKeySnoc(init: seq<City>, last: City, key: City -> string, k: string)
    ensures WithKey(init + [last], key, k) == WithKey(init, key, k) + (if key(last) == k then [last] else [])
  {
    assert (init + [last])[..|init|] == init;
  }

  /**
   * A key occurs at least twice exactly when two different positions of the
   * sequence hold cities with that key.
   */
  lemma TwoWithKey(s: seq<City>, key: City -> string, k: string)
    ensures |WithKey(s, key, k)| >= 2 <==>
      exists i, j :: 0 <= i < j < |s| && key(s[i]) == k && key(s[j]) == k
  {
    if |WithKey(s, key, k)| >= 2 {
      TwoWithKeyPositions(s, key, k);
    }
    if exists i, j :: 0 <= i < j < |s| && key(s[i]) == k && key(s[j]) == k {
      PositionsTwoWithKey(s, key, k);
    }
  }

  lemma {:induction false} TwoWithKeyPositions(s: seq<City>, key: City -> string, k: string)
    requires |WithKey(s, key, k)| >= 2
    ensures exists i, j :: 0 <= i < j < |s| && key(s[i]) == k && key(s[j]) == k
    decreases |s|
  {
    var init, last := s[..|s| - 1], s[|s| - 1];
    if key(last) == k && |WithKey(init, key, k)| == 1 {
      var c := WithKey(init, key, k)[0];
      assert c in WithKey(init, key, k);
      var i :| 0 <= i < |init| && init[i] == c;
      assert s[i] == c && s[|s| - 1] == last;
    } else {
      TwoWithKeyPositions(init, key, k);
      var i, j :| 0 <= i < j < |init| && key(init[i]) == k && key(init[j]) == k;
      assert s[i] == init[i] && s[j] == init[j];
    }
  }

  lemma {:induction false} PositionsTwoWithKey(s: seq<City>, key: City -> string, k: string)
    requires exists i, j :: 0 <= i < j < |s| && key(s[i]) == k && key(s[j]) == k
    ensures |WithKey(s, key, k)| >= 2
    decreases |s|
  {
    var init, last := s[..|s| - 1], s[|s| - 1];
    assert s == init + [last];
    WithKeySnoc(init, last, key, k);
    var i, j :| 0 <= i < j < |s| && key(s[i]) == k && key(s[j]) == k;
    assert init[i] == s[i];
    if j < |s| - 1 {
      assert init[j] == s[j];
      PositionsTwoWithKey(init, key, k);
    } else {
      assert s[i] in WithKey(init, key, k);
    }
  }
}
