/** The in-process distance table of `search_radius`, which stands in front
    of the external service, and the search that uses it. */
module DistanceCache {
  import opened Results
  import opened SearchHelpers

  /** Miles from a search center (outer key) to a postal code (inner key). */
  function Distances(): (table: map<string, map<string, real>>) {
    map[
      "94612" := map[
        "94109" := 11.2468, "94612" := 0.0, "94040" := 45.4221, "94115" := 13.2973,
        "95376" := 53.1893, "94043" := 39.0842, "10013" := 2899.3124],
      "94109" := map[
        "94109" := 0.0, "94612" := 10.9361, "94040" := 38.9599, "94115" := 1.2427,
        "95376" := 62.137, "10013" := 2904.9047, "94043" := 37.2201]
    ]
  }

  /** `search_radius`: the search over the table above. */
  method SearchRadius(searchCenter: string, postalcodes: seq<PostalRow>, radius: int,
                      service: DistanceService) returns (r: Result<seq<string>>)
    ensures r == SearchRadiusResult(Distances(), searchCenter, postalcodes, radius, service)
  {
    r := SearchWithTable(Distances(), searchCenter, postalcodes, radius, service);
  }

  function TestRows(): (rows: seq<PostalRow>) {
    [PostalRow("94612"), PostalRow("94109"), PostalRow("94040"), PostalRow("95376"), PostalRow("10013")]
  }

  lemma TestCodes()
    ensures RowCodes(TestRows()) == ["94612", "94109", "94040", "95376", "10013"]
  {
    var codes: seq<string> := ["94612", "94109", "94040", "95376", "10013"];
    forall i | 0 <= i < 5 ensures RowCodes(TestRows())[i] == codes[i] {
      RowCodesAt(TestRows(), i);
    }
  }

  /** The cached hits over five codes, one code at a time. */
  lemma CachedHitsOfFive(table: map<string, real>, a: string, b: string, c: string, d: string, e: string, radius: int)
    requires a in table && b in table && c in table && d in table && e in table
    ensures CachedWithin(table, [a, b, c, d, e], radius)
         == (if table[a] <= radius as real then [a] else [])
          + (if table[b] <= radius as real then [b] else [])
          + (if table[c] <= radius as real then [c] else [])
          + (if table[d] <= radius as real then [d] else [])
          + (if table[e] <= radius as real then [e] else [])
  {
    assert [a, b, c, d, e] == [a, b, c, d] + [e];
    assert [a, b, c, d] == [a, b, c] + [d];
    assert [a, b, c] == [a, b] + [c];
    assert [a, b] == [a] + [b];
    CachedWithinAppend(table, [a, b, c, d], [e], radius);
    CachedWithinAppend(table, [a, b, c], [d], radius);
    CachedWithinAppend(table, [a, b], [c], radius);
    CachedWithinAppend(table, [a], [b], radius);
    CachedWithinOne(table, a, radius);
    CachedWithinOne(table, b, radius);
    CachedWithinOne(table, c, radius);
    CachedWithinOne(table, d, radius);
    CachedWithinOne(table, e, radius);
  }

  /** Both test centers are cached, and so are all five test codes: the
      results come from the table alone. */
  lemma TestSearchFromOakland(service: DistanceService)
    ensures SearchRadiusResult(Distances(), "94612", TestRows(), 20, service) == Ok(["94612", "94109"])
    ensures SearchRadiusResult(Distances(), "94612", TestRows(), 60, service)
         == Ok(["94612", "94109", "94040", "95376"])
  {
    var table := Distances()["94612"];
    assert table["94612"] == 0.0 && table["94109"] == 11.2468 && table["94040"] == 45.4221;
    assert table["95376"] == 53.1893 && table["10013"] == 2899.3124;
    TestCodes();
    CachedHitsOfFive(table, "94612", "94109", "94040", "95376", "10013", 20);
    CachedHitsOfFive(table, "94612", "94109", "94040", "95376", "10013", 60);
    assert CachedWithin(table, RowCodes(TestRows()), 20) == ["94612", "94109"];
    assert CachedWithin(table, RowCodes(TestRows()), 60) == ["94612", "94109", "94040", "95376"];
    AllCachedNeedsNoService(Distances(), "94612", TestRows(), 20, service, service);
    AllCachedNeedsNoService(Distances(), "94612", TestRows(), 60, service, service);
  }

  /** From 94109, 95376 lies 62.137 miles away: outside a 60-mile search. */
  lemma TestSearchFromSanFrancisco(service: DistanceService)
    ensures SearchRadiusResult(Distances(), "94109", TestRows(), 20, service) == Ok(["94612", "94109"])
    ensures SearchRadiusResult(Distances(), "94109", TestRows(), 60, service) == Ok(["94612", "94109", "94040"])
  {
    var table := Distances()["94109"];
    assert table["94612"] == 10.9361 && table["94109"] == 0.0 && table["94040"] == 38.9599;
    assert table["95376"] == 62.137 && table["10013"] == 2904.9047;
    TestCodes();
    CachedHitsOfFive(table, "94612", "94109", "94040", "95376", "10013", 20);
    CachedHitsOfFive(table, "94612", "94109", "94040", "95376", "10013", 60);
    assert CachedWithin(table, RowCodes(TestRows()), 20) == ["94612", "94109"];
    assert CachedWithin(table, RowCodes(TestRows()), 60) == ["94612", "94109", "94040"];
    AllCachedNeedsNoService(Distances(), "94109", TestRows(), 20, service, service);
    AllCachedNeedsNoService(Distances(), "94109", TestRows(), 60, service, service);
  }
}
