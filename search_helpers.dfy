/** The search pipeline of the site: which postal codes lie within a radius
    of a search center, which listed products are available for the whole
    requested interval, the optional category/brand filter, and the grouping
    of the results by category name. A search request runs them in that
    order: radius, owners in the area, dates, filter, categories. */
module SearchHelpers {
  import opened Results
  import opened Model
  import opened PyText

  // ---------------------------------------------------------------------
  // Subsequences

  /** `a` is `b` with some elements left out and the rest in their order. */
  predicate IsSubseq<T(==)>(a: seq<T>, b: seq<T>)
    decreases |b|
  {
    if b == [] then a == []
    else
      (a != [] && a[|a| - 1] == b[|b| - 1] && IsSubseq(a[..|a| - 1], b[..|b| - 1]))
      || IsSubseq(a, b[..|b| - 1])
  }

  lemma {:induction false} SubseqRefl<T>(s: seq<T>)
    ensures IsSubseq(s, s)
  {
    if s != [] {
      SubseqRefl(s[..|s| - 1]);
    }
  }

  /** Keeping a common last element. */
  lemma SubseqSnoc<T>(a: seq<T>, b: seq<T>, x: T)
    requires IsSubseq(a, b)
    ensures IsSubseq(a + [x], b + [x])
  {
    assert (a + [x])[..|a|] == a;
    assert (b + [x])[..|b|] == b;
  }

  /** Leaving out a last element. */
  lemma SubseqSkip<T>(a: seq<T>, b: seq<T>, x: T)
    requires IsSubseq(a, b)
    ensures IsSubseq(a, b + [x])
  {
    assert (b + [x])[..|b|] == b;
  }

  lemma {:induction false} SubseqMembers<T>(a: seq<T>, b: seq<T>)
    requires IsSubseq(a, b)
    ensures forall x :: x in a ==> x in b
  {
    if b != [] {
      if a != [] && a[|a| - 1] == b[|b| - 1] && IsSubseq(a[..|a| - 1], b[..|b| - 1]) {
        SubseqMembers(a[..|a| - 1], b[..|b| - 1]);
        assert a == a[..|a| - 1] + [a[|a| - 1]];
        assert b == b[..|b| - 1] + [b[|b| - 1]];
      } else {
        SubseqMembers(a, b[..|b| - 1]);
        assert b == b[..|b| - 1] + [b[|b| - 1]];
      }
    }
  }

  lemma {:induction false} SubseqOfEmpty<T>(a: seq<T>)
    requires IsSubseq(a, [])
    ensures a == []
  {
  }

  lemma {:induction false} SubseqConcat<T>(a1: seq<T>, b1: seq<T>, a2: seq<T>, b2: seq<T>)
    requires IsSubseq(a1, b1) && IsSubseq(a2, b2)
    ensures IsSubseq(a1 + a2, b1 + b2)
    decreases |b2|
  {
    if b2 == [] {
      SubseqOfEmpty(a2);
      assert a1 + a2 == a1 && b1 + b2 == b1;
    } else {
      var b := b1 + b2;
      assert b[..|b| - 1] == b1 + b2[..|b2| - 1];
      if a2 != [] && a2[|a2| - 1] == b2[|b2| - 1] && IsSubseq(a2[..|a2| - 1], b2[..|b2| - 1]) {
        SubseqConcat(a1, b1, a2[..|a2| - 1], b2[..|b2| - 1]);
        var a := a1 + a2;
        assert a[..|a| - 1] == a1 + a2[..|a2| - 1];
      } else {
        SubseqConcat(a1, b1, a2, b2[..|b2| - 1]);
      }
    }
  }

  // ---------------------------------------------------------------------
  // search_radius


  /** A one-column row of the distinct postal codes in the database. */
  datatype PostalRow = PostalRow(postalcode: string)

  /** One entry of the distance matrix the external service returns: the
      destination's address text and its distance from the origin. */
  datatype DistanceItem = DistanceItem(destination: string, miles: real)

  /** The external distance service: origins and destinations to matrix
      entries. What it returns is not modelled; it is a parameter. */
  type DistanceService = (seq<string>, seq<string>) -> seq<DistanceItem>

  /** The postal code column of the rows, in order. */
  function RowCodes(rows: seq<PostalRow>): (codes: seq<string>)
    ensures |codes| == |rows|
  {
    if rows == [] then [] else RowCodes(rows[..|rows| - 1]) + [rows[|rows| - 1].postalcode]
  }

  /** Codes the table covers whose cached distance is within the radius. */
  function CachedWithin(table: map<string, real>, codes: seq<string>, radius: int): (hits: seq<string>) {
    if codes == [] then []
    else
      var pc := codes[|codes| - 1];
      CachedWithin(table, codes[..|codes| - 1], radius)
        + (if pc in table && table[pc] <= radius as real then [pc] else [])
  }

  /** Codes the table covers (the codes to remove from the hand-off). */
  function CachedCodes(table: map<string, real>, codes: seq<string>): (cached: seq<string>) {
    if codes == [] then []
    else
      var pc := codes[|codes| - 1];
      CachedCodes(table, codes[..|codes| - 1]) + (if pc in table then [pc] else [])
  }

  /** Codes the table does not cover. */
  function Uncached(table: map<string, real>, codes: seq<string>): (missing: seq<string>) {
    if codes == [] then []
    else
      var pc := codes[|codes| - 1];
      Uncached(table, codes[..|codes| - 1]) + (if pc !in table then [pc] else [])
  }

  /** The codes of `codes` that do not occur in `removed`, in order. */
  function Without(codes: seq<string>, removed: seq<string>): (rest: seq<string>) {
    if codes == [] then []
    else
      var pc := codes[|codes| - 1];
      Without(codes[..|codes| - 1], removed) + (if pc !in removed then [pc] else [])
  }

  /** The codes whose distance is asked of the external service. */
  function Forwarded(distances: map<string, map<string, real>>, center: string, codes: seq<string>): (forwarded: seq<string>) {
    if center in distances then Uncached(distances[center], codes) else codes
  }

  /** The matrix entries within the radius. */
  function NearItems(items: seq<DistanceItem>, radius: int): (near: seq<DistanceItem>) {
    if items == [] then []
    else
      var item := items[|items| - 1];
      NearItems(items[..|items| - 1], radius) + (if item.miles <= radius as real then [item] else [])
  }

  function Destinations(items: seq<DistanceItem>): (ds: seq<string>)
    ensures |ds| == |items|
  {
    if items == [] then [] else Destinations(items[..|items| - 1]) + [items[|items| - 1].destination]
  }

  /** The postal code in a destination address such as "Oakland, CA 94612,
      USA": the second-to-last whitespace-separated word with its commas
      removed; None where the address has fewer than two words (the source
      then raises IndexError). */
  function ParseDestination(destination: string): (code: Option<string>) {
    var line := Split(destination);
    if |line| < 2 then None else Some(RemoveAll(line[|line| - 2], ','))
  }

  /** Every destination parsed, in order; None as soon as one fails. */
  function ParseAll(destinations: seq<string>): (parsed: Option<seq<string>>) {
    if destinations == [] then Some([])
    else
      match ParseAll(destinations[..|destinations| - 1])
      case None => None
      case Some(codes) =>
        match ParseDestination(destinations[|destinations| - 1])
        case None => None
        case Some(pc) => Some(codes + [pc])
  }

  /** What a radius search returns: the cached hits, followed by the parsed
      destinations of the service's entries within the radius when some
      code had to be forwarded. */
  function SearchRadiusResult(distances: map<string, map<string, real>>, searchCenter: string,
                              postalcodes: seq<PostalRow>, radius: int, service: DistanceService): (outcome: Result<seq<string>>)
  {
    var codes := RowCodes(postalcodes);
    var hits := if searchCenter in distances then CachedWithin(distances[searchCenter], codes, radius) else [];
    var forwarded := Forwarded(distances, searchCenter, codes);
    if forwarded == [] then Ok(hits)
    else
      match ParseAll(Destinations(NearItems(service([searchCenter], forwarded), radius)))
      case None => Err(IndexError)
      case Some(parsed) => Ok(hits + parsed)
  }

  lemma {:induction false} CachedSplit(table: map<string, real>, codes: seq<string>)
    ensures |CachedCodes(table, codes)| + |Uncached(table, codes)| == |codes|
    ensures forall pc :: pc in CachedCodes(table, codes) <==> pc in codes && pc in table
  {
    if codes != [] {
      CachedSplit(table, codes[..|codes| - 1]);
      assert codes == codes[..|codes| - 1] + [codes[|codes| - 1]];
    }
  }

  /** The list comprehension over the codes not yet removed yields exactly
      the uncached codes. */
  lemma {:induction false} WithoutCachedIsUncached(table: map<string, real>, codes: seq<string>, removed: seq<string>)
    requires forall pc :: pc in codes ==> (pc in removed <==> pc in table)
    ensures Without(codes, removed) == Uncached(table, codes)
  {
    if codes != [] {
      assert codes[|codes| - 1] in codes;
      assert forall pc :: pc in codes[..|codes| - 1] ==> pc in codes;
      WithoutCachedIsUncached(table, codes[..|codes| - 1], removed);
    }
  }

  /** The body of `search_radius` for a given table. The table is consulted
      first when it holds the center; the codes it does not cover (or all of
      them, for an uncached center) go to the service, whose entries within
      the radius are parsed back into postal codes. */
  method SearchWithTable(distances: map<string, map<string, real>>, searchCenter: string,
                         postalcodes: seq<PostalRow>, radius: int, service: DistanceService)
    returns (r: Result<seq<string>>)
    ensures r == SearchRadiusResult(distances, searchCenter, postalcodes, radius, service)
  {
    var postalcodesInDb := UnwrapRows(postalcodes);
    var distinctPostalcodes := postalcodesInDb;
    var postalcodesWithinRadius := [];

    if searchCenter in distances {
      var table := distances[searchCenter];
      distinctPostalcodes := [];
      var postalcodesToRemove;
      postalcodesWithinRadius, postalcodesToRemove := LookUpCached(table, postalcodesInDb, radius);
      CachedSplit(table, postalcodesInDb);
      if |postalcodesInDb| > |postalcodesToRemove| {
        WithoutCachedIsUncached(table, postalcodesInDb, postalcodesToRemove);
        distinctPostalcodes := Without(postalcodesInDb, postalcodesToRemove);
      }
    }

    if distinctPostalcodes != [] {
      var items := service([searchCenter], distinctPostalcodes);
      var parsed := CodesWithinRadius(items, radius);
      if parsed.None? {
        return Err(IndexError);
      }
      postalcodesWithinRadius := postalcodesWithinRadius + parsed.value;
    }
    return Ok(postalcodesWithinRadius);
  }

  /** The first loop of `search_radius`: the postal code column of the rows. */
  method UnwrapRows(postalcodes: seq<PostalRow>) returns (codes: seq<string>)
    ensures codes == RowCodes(postalcodes)
  {
    codes := [];
    for i := 0 to |postalcodes|
      invariant codes == RowCodes(postalcodes[..i])
    {
      assert postalcodes[..i + 1][..i] == postalcodes[..i];
      codes := codes + [postalcodes[i].postalcode];
    }
    assert postalcodes[..|postalcodes|] == postalcodes;
  }

  /** The cached pass of `search_radius`: the covered codes within the
      radius, and every covered code (to be removed from the hand-off). */
  method LookUpCached(table: map<string, real>, codes: seq<string>, radius: int)
    returns (within: seq<string>, toRemove: seq<string>)
    ensures within == CachedWithin(table, codes, radius)
    ensures toRemove == CachedCodes(table, codes)
  {
    within, toRemove := [], [];
    for i := 0 to |codes|
      invariant within == CachedWithin(table, codes[..i], radius)
      invariant toRemove == CachedCodes(table, codes[..i])
    {
      assert codes[..i + 1][..i] == codes[..i];
      var postalcode := codes[i];
      if postalcode in table {
        if table[postalcode] <= radius as real {
          within := within + [postalcode];
        }
        toRemove := toRemove + [postalcode];
      }
    }
    assert codes[..|codes|] == codes;
  }

  /** The service pass of `search_radius`: the entries within the radius,
      their destinations, and the postal code parsed from each; None where
      a destination has fewer than two words (IndexError in the source). */
  method CodesWithinRadius(items: seq<DistanceItem>, radius: int) returns (parsed: Option<seq<string>>)
    ensures parsed == ParseAll(Destinations(NearItems(items, radius)))
  {
    var matrixEntries := KeepNear(items, radius);
    var destinations := TakeDestinations(matrixEntries);
    parsed := ParseDestinations(destinations);
  }

  /** The first loop of the service pass: the entries within the radius. */
  method KeepNear(items: seq<DistanceItem>, radius: int) returns (matrixEntries: seq<DistanceItem>)
    ensures matrixEntries == NearItems(items, radius)
  {
    matrixEntries := [];
    for i := 0 to |items|
      invariant matrixEntries == NearItems(items[..i], radius)
    {
      assert items[..i + 1][..i] == items[..i];
      if items[i].miles <= radius as real {
        matrixEntries := matrixEntries + [items[i]];
      }
    }
    assert items[..|items|] == items;
  }

  /** The second loop: the destination address of every entry. */
  method TakeDestinations(matrixEntries: seq<DistanceItem>) returns (destinations: seq<string>)
    ensures destinations == Destinations(matrixEntries)
  {
    destinations := [];
    for i := 0 to |matrixEntries|
      invariant destinations == Destinations(matrixEntries[..i])
    {
      assert matrixEntries[..i + 1][..i] == matrixEntries[..i];
      destinations := destinations + [matrixEntries[i].destination];
    }
    assert matrixEntries[..|matrixEntries|] == matrixEntries;
  }

  /** The third loop: the postal code of every destination, stopping at
      the first one with fewer than two words. */
  method ParseDestinations(destinations: seq<string>) returns (parsed: Option<seq<string>>)
    ensures parsed == ParseAll(destinations)
  {
    var codes := [];
    for i := 0 to |destinations|
      invariant ParseAll(destinations[..i]) == Some(codes)
    {
      assert destinations[..i + 1][..i] == destinations[..i];
      var line := Split(destinations[i]);
      if |line| < 2 {
        ParseAllFailsAfter(destinations, i + 1);
        return None;
      }
      var postalcode := RemoveAll(line[|line| - 2], ',');
      codes := codes + [postalcode];
    }
    assert destinations[..|destinations|] == destinations;
    return Some(codes);
  }

  lemma {:induction false} ParseAllFailsAfter(destinations: seq<string>, k: nat)
    requires k <= |destinations| && ParseAll(destinations[..k]) == None
    ensures ParseAll(destinations) == None
    decreases |destinations| - k
  {
    if k < |destinations| {
      var d := destinations[..k + 1];
      assert d[..k] == destinations[..k];
      ParseAllFailsAfter(destinations, k + 1);
    } else {
      assert destinations[..k] == destinations;
    }
  }

  /** The destinations parse exactly when every one of them has at least
      two words, and then each one yields its own code, in order. */
  lemma {:induction false} ParseAllParsesEach(destinations: seq<string>)
    ensures ParseAll(destinations).Some? <==>
              forall i :: 0 <= i < |destinations| ==> |Split(destinations[i])| >= 2
    ensures ParseAll(destinations).Some? ==>
              |ParseAll(destinations).value| == |destinations|
              && forall i :: 0 <= i < |destinations| ==>
                   ParseAll(destinations).value[i] == ParseDestination(destinations[i]).value
  {
    if destinations != [] {
      var prefix, last := destinations[..|destinations| - 1], destinations[|destinations| - 1];
      ParseAllParsesEach(prefix);
      if ParseAll(prefix).None? {
        var i :| 0 <= i < |prefix| && |Split(prefix[i])| < 2;
        assert destinations[i] == prefix[i];
      } else if ParseDestination(last).None? {
        assert |Split(destinations[|destinations| - 1])| < 2;
      } else {
        var codes := ParseAll(prefix).value + [ParseDestination(last).value];
        assert ParseAll(destinations) == Some(codes);
        forall i | 0 <= i < |destinations|
          ensures |Split(destinations[i])| >= 2 && codes[i] == ParseDestination(destinations[i]).value
        {
          if i < |prefix| {
            assert destinations[i] == prefix[i];
            assert codes[i] == ParseAll(prefix).value[i];
          } else {
            assert destinations[i] == last && codes[i] == ParseDestination(last).value;
          }
        }
      }
    }
  }

  /** An entry is kept exactly when it is a service entry within the radius. */
  lemma {:induction false} NearItemsMembers(items: seq<DistanceItem>, radius: int, item: DistanceItem)
    ensures item in NearItems(items, radius) <==> item in items && item.miles <= radius as real
  {
    if items != [] {
      var prefix := items[..|items| - 1];
      NearItemsMembers(prefix, radius, item);
      assert items == prefix + [items[|items| - 1]];
    }
  }

  /** The i-th destination is the i-th entry's address. */
  lemma {:induction false} DestinationsAt(items: seq<DistanceItem>, i: nat)
    requires i < |items|
    ensures Destinations(items)[i] == items[i].destination
  {
    if i < |items| - 1 {
      DestinationsAt(items[..|items| - 1], i);
    }
  }

  /** A cached code is returned exactly when its table distance is within
      the radius. */
  lemma {:induction false} CachedWithinMembers(table: map<string, real>, codes: seq<string>, radius: int, pc: string)
    ensures pc in CachedWithin(table, codes, radius) <==> pc in codes && pc in table && table[pc] <= radius as real
  {
    if codes != [] {
      CachedWithinMembers(table, codes[..|codes| - 1], radius, pc);
      assert codes == codes[..|codes| - 1] + [codes[|codes| - 1]];
    }
  }

  lemma {:induction false} CachedWithinAppend(table: map<string, real>, a: seq<string>, b: seq<string>, radius: int)
    ensures CachedWithin(table, a + b, radius) == CachedWithin(table, a, radius) + CachedWithin(table, b, radius)
  {
    if b == [] {
      assert a + b == a;
    } else {
      assert (a + b)[..|a + b| - 1] == a + b[..|b| - 1];
      CachedWithinAppend(table, a, b[..|b| - 1], radius);
    }
  }

  lemma CachedWithinOne(table: map<string, real>, pc: string, radius: int)
    ensures CachedWithin(table, [pc], radius) == if pc in table && table[pc] <= radius as real then [pc] else []
  {
    assert [pc][..0] == [];
  }

  /** Widening the radius only adds cached hits, and keeps their order. */
  lemma {:induction false} CachedWithinMonotone(table: map<string, real>, codes: seq<string>, r1: int, r2: int)
    requires r1 <= r2
    ensures IsSubseq(CachedWithin(table, codes, r1), CachedWithin(table, codes, r2))
  {
    if codes != [] {
      var pc := codes[|codes| - 1];
      var prefix := codes[..|codes| - 1];
      var c1 := CachedWithin(table, prefix, r1);
      var c2 := CachedWithin(table, prefix, r2);
      CachedWithinMonotone(table, prefix, r1, r2);
      var hit1 := pc in table && table[pc] <= r1 as real;
      var hit2 := pc in table && table[pc] <= r2 as real;
      assert CachedWithin(table, codes, r1) == c1 + (if hit1 then [pc] else []);
      assert CachedWithin(table, codes, r2) == c2 + (if hit2 then [pc] else []);
      if hit1 {
        assert hit2;
        SubseqSnoc(c1, c2, pc);
      } else if hit2 {
        assert c1 + [] == c1;
        SubseqSkip(c1, c2, pc);
      } else {
        assert c2 + [] == c2 && c1 + [] == c1;
      }
    }
  }

  /** The hand-off to the service: exactly the codes the center's table
      lacks, or every code when the center is not cached. */
  lemma {:induction false} ForwardedMembers(distances: map<string, map<string, real>>, center: string,
                                            codes: seq<string>, pc: string)
    ensures center in distances ==> (pc in Forwarded(distances, center, codes) <==> pc in codes && pc !in distances[center])
    ensures center !in distances ==> Forwarded(distances, center, codes) == codes
  {
    if center in distances {
      UncachedMembers(distances[center], codes, pc);
    }
  }

  lemma {:induction false} UncachedMembers(table: map<string, real>, codes: seq<string>, pc: string)
    ensures pc in Uncached(table, codes) <==> pc in codes && pc !in table
  {
    if codes != [] {
      UncachedMembers(table, codes[..|codes| - 1], pc);
      assert codes == codes[..|codes| - 1] + [codes[|codes| - 1]];
    }
  }

  lemma {:induction false} UncachedEmpty(table: map<string, real>, codes: seq<string>)
    requires forall pc :: pc in codes ==> pc in table
    ensures Uncached(table, codes) == []
  {
    if codes != [] {
      assert codes[|codes| - 1] in codes;
      assert forall pc :: pc in codes[..|codes| - 1] ==> pc in codes;
      UncachedEmpty(table, codes[..|codes| - 1]);
    }
  }

  lemma {:induction false} RowCodesAt(rows: seq<PostalRow>, i: nat)
    requires i < |rows|
    ensures RowCodes(rows)[i] == rows[i].postalcode
  {
    if i < |rows| - 1 {
      RowCodesAt(rows[..|rows| - 1], i);
    }
  }

  lemma {:induction false} RowCodesMembers(rows: seq<PostalRow>, pc: string)
    ensures pc in RowCodes(rows) <==> exists row :: row in rows && row.postalcode == pc
  {
    if rows != [] {
      RowCodesMembers(rows[..|rows| - 1], pc);
      assert rows == rows[..|rows| - 1] + [rows[|rows| - 1]];
    }
  }

  /** When the center and every code are cached, nothing is forwarded: the
      result is the cached hits, whatever the service would answer. */
  lemma AllCachedNeedsNoService(distances: map<string, map<string, real>>, searchCenter: string,
                                postalcodes: seq<PostalRow>, radius: int,
                                service1: DistanceService, service2: DistanceService)
    requires searchCenter in distances
    requires forall row :: row in postalcodes ==> row.postalcode in distances[searchCenter]
    ensures SearchRadiusResult(distances, searchCenter, postalcodes, radius, service1)
         == SearchRadiusResult(distances, searchCenter, postalcodes, radius, service2)
         == Ok(CachedWithin(distances[searchCenter], RowCodes(postalcodes), radius))
  {
    var codes := RowCodes(postalcodes);
    forall pc | pc in codes ensures pc in distances[searchCenter] {
      RowCodesMembers(postalcodes, pc);
    }
    UncachedEmpty(distances[searchCenter], codes);
  }

  lemma {:induction false} NearItemsMonotone(items: seq<DistanceItem>, r1: int, r2: int)
    requires r1 <= r2
    ensures IsSubseq(NearItems(items, r1), NearItems(items, r2))
  {
    if items != [] {
      var item := items[|items| - 1];
      var n1 := NearItems(items[..|items| - 1], r1);
      var n2 := NearItems(items[..|items| - 1], r2);
      NearItemsMonotone(items[..|items| - 1], r1, r2);
      if item.miles <= r1 as real {
        SubseqSnoc(n1, n2, item);
      } else if item.miles <= r2 as real {
        SubseqSkip(n1, n2, item);
        assert n1 + [] == n1;
      } else {
        assert n2 + [] == n2 && n1 + [] == n1;
      }
    }
  }

  lemma {:induction false} DestinationsSubseq(a: seq<DistanceItem>, b: seq<DistanceItem>)
    requires IsSubseq(a, b)
    ensures IsSubseq(Destinations(a), Destinations(b))
    decreases |b|
  {
    if b != [] {
      if a != [] && a[|a| - 1] == b[|b| - 1] && IsSubseq(a[..|a| - 1], b[..|b| - 1]) {
        DestinationsSubseq(a[..|a| - 1], b[..|b| - 1]);
      } else {
        DestinationsSubseq(a, b[..|b| - 1]);
      }
    }
  }

  /** Parsing a subsequence of destinations that all parse succeeds, and
      gives a subsequence of the parsed codes. */
  lemma {:induction false} ParseAllSubseq(a: seq<string>, b: seq<string>, pb: seq<string>)
    requires IsSubseq(a, b) && ParseAll(b) == Some(pb)
    ensures ParseAll(a).Some? && IsSubseq(ParseAll(a).value, pb)
    decreases |b|
  {
    if b == [] {
      SubseqOfEmpty(a);
    } else {
      var init, last := b[..|b| - 1], b[|b| - 1];
      assert ParseAll(init).Some? && ParseDestination(last).Some?;
      var pb', code := ParseAll(init).value, ParseDestination(last).value;
      assert pb == pb' + [code];
      assert pb[..|pb| - 1] == pb';
      if a != [] && a[|a| - 1] == last && IsSubseq(a[..|a| - 1], init) {
        var front := a[..|a| - 1];
        ParseAllSubseq(front, init, pb');
        var pa := ParseAll(front).value + [code];
        assert ParseAll(a) == Some(pa);
        assert pa[..|pa| - 1] == ParseAll(front).value;
      } else {
        ParseAllSubseq(a, init, pb');
      }
    }
  }

  /** Monotonicity of the whole search for a fixed service answer: if the
      search with the wider radius succeeds, so does the narrower one, and
      its codes are a subsequence of the wider one's. */
  lemma SearchRadiusMonotone(distances: map<string, map<string, real>>, searchCenter: string,
                             postalcodes: seq<PostalRow>, r1: int, r2: int, service: DistanceService)
    requires r1 <= r2
    requires SearchRadiusResult(distances, searchCenter, postalcodes, r2, service).Ok?
    ensures SearchRadiusResult(distances, searchCenter, postalcodes, r1, service).Ok?
    ensures IsSubseq(SearchRadiusResult(distances, searchCenter, postalcodes, r1, service).value,
                     SearchRadiusResult(distances, searchCenter, postalcodes, r2, service).value)
  {
    var codes := RowCodes(postalcodes);
    var hits1 := if searchCenter in distances then CachedWithin(distances[searchCenter], codes, r1) else [];
    var hits2 := if searchCenter in distances then CachedWithin(distances[searchCenter], codes, r2) else [];
    if searchCenter in distances {
      CachedWithinMonotone(distances[searchCenter], codes, r1, r2);
    } else {
      SubseqRefl(hits1);
    }
    var forwarded := Forwarded(distances, searchCenter, codes);
    if forwarded != [] {
      var items := service([searchCenter], forwarded);
      NearItemsMonotone(items, r1, r2);
      DestinationsSubseq(NearItems(items, r1), NearItems(items, r2));
      var p2 := ParseAll(Destinations(NearItems(items, r2))).value;
      ParseAllSubseq(Destinations(NearItems(items, r1)), Destinations(NearItems(items, r2)), p2);
      SubseqConcat(hits1, hits2, ParseAll(Destinations(NearItems(items, r1))).value, p2);
    }
  }

  /** A destination address of words separated by single spaces yields its
      second-to-last word without commas. */
  lemma ParseDestinationOfWords(words: seq<string>)
    requires |words| >= 2
    requires forall w :: w in words ==> w != [] && NoSpace(w)
    ensures ParseDestination(JoinSpaced(words)) == Some(RemoveAll(words[|words| - 2], ','))
  {
    SplitJoinSpaced(words);
    ParseDestinationOfSplit(JoinSpaced(words), words);
  }

  /** A destination whose words are known yields its second-to-last word
      without commas. */
  lemma ParseDestinationOfSplit(destination: string, words: seq<string>)
    requires |words| >= 2 && Split(destination) == words
    ensures ParseDestination(destination) == Some(RemoveAll(words[|words| - 2], ','))
  {
  }

  /** The address form the service returns, "<city>, <state> <zip>,
      <country>" (for instance "Oakland, CA 94612, USA"), yields the zip. */
  lemma ParseCityStateZipCountry(city: string, state: string, zip: string, country: string)
    requires city != [] && NoSpace(city)
    requires state != [] && NoSpace(state)
    requires zip != [] && NoSpace(zip) && ',' !in zip
    requires country != [] && NoSpace(country)
    ensures ParseDestination(JoinSpaced([city + ",", state, zip + ",", country])) == Some(zip)
  {
    var words := [city + ",", state, zip + ",", country];
    forall w | w in words ensures w != [] && NoSpace(w) {
      if w == city + "," {
        assert forall i :: 0 <= i < |city| ==> w[i] == city[i];
      } else if w == zip + "," {
        assert forall i :: 0 <= i < |zip| ==> w[i] == zip[i];
      }
    }
    ParseDestinationOfWords(words);
    assert words[|words| - 2] == zip + ",";
    RemoveAllAppend(zip, ",", ',');
    RemoveAllAbsent(zip, ',');
    assert RemoveAll(",", ',') == [];
    assert zip + [] == zip;
  }

  // ---------------------------------------------------------------------
  // filter_products

  /** The inclusion rule, chosen by the ids as the three loops are: a
      positive category with a negative brand filters on the category, a
      negative category with a positive brand on the brand, and every other
      combination (a zero id included) on both. */
  predicate Matches(p: Product, categoryId: int, brandId: int) {
    if categoryId > 0 && brandId < 0 then p.catId == categoryId
    else if categoryId < 0 && brandId > 0 then p.brandId == brandId
    else p.catId == categoryId && p.brandId == brandId
  }

  /** The products that match, in order. */
  function Kept(products: seq<Product>, categoryId: int, brandId: int): (kept: seq<Product>) {
    if products == [] then []
    else
      var p := products[|products| - 1];
      Kept(products[..|products| - 1], categoryId, brandId)
        + (if Matches(p, categoryId, brandId) then [p] else [])
  }

  /** What `filter_products` returns: the list itself when both ids are
      negative (absent), the matching products otherwise. */
  function FilteredProducts(products: seq<Product>, categoryId: int, brandId: int): (filtered: seq<Product>) {
    if categoryId < 0 && brandId < 0 then products else Kept(products, categoryId, brandId)
  }

  /** `filter_products`. */
  method FilterProducts(products: seq<Product>, categoryId: int, brandId: int) returns (filtered: seq<Product>)
    ensures categoryId < 0 && brandId < 0 ==> filtered == products
    ensures filtered == FilteredProducts(products, categoryId, brandId)
  {
    if categoryId < 0 && brandId < 0 {
      return products;
    }
    filtered := [];
    if categoryId > 0 && brandId < 0 {
      for i := 0 to |products|
        invariant filtered == Kept(products[..i], categoryId, brandId)
      {
        assert products[..i + 1][..i] == products[..i];
        if products[i].catId == categoryId {
          filtered := filtered + [products[i]];
        }
      }
    } else if categoryId < 0 && brandId > 0 {
      for i := 0 to |products|
        invariant filtered == Kept(products[..i], categoryId, brandId)
      {
        assert products[..i + 1][..i] == products[..i];
        if products[i].brandId == brandId {
          filtered := filtered + [products[i]];
        }
      }
    } else {
      for i := 0 to |products|
        invariant filtered == Kept(products[..i], categoryId, brandId)
      {
        assert products[..i + 1][..i] == products[..i];
        if products[i].catId == categoryId && products[i].brandId == brandId {
          filtered := filtered + [products[i]];
        }
      }
    }
    assert products[..|products|] == products;
  }

  lemma {:induction false} KeptSubseq(products: seq<Product>, categoryId: int, brandId: int)
    ensures IsSubseq(Kept(products, categoryId, brandId), products)
  {
    if products != [] {
      var rest := products[..|products| - 1];
      var p := products[|products| - 1];
      KeptSubseq(rest, categoryId, brandId);
      assert products == rest + [p];
      if Matches(p, categoryId, brandId) {
        SubseqSnoc(Kept(rest, categoryId, brandId), rest, p);
      } else {
        SubseqSkip(Kept(rest, categoryId, brandId), rest, p);
        assert Kept(rest, categoryId, brandId) + [] == Kept(rest, categoryId, brandId);
      }
    }
  }

  /** The filter keeps the input's order: its result is a subsequence. */
  lemma FilteredIsSubseq(products: seq<Product>, categoryId: int, brandId: int)
    ensures IsSubseq(FilteredProducts(products, categoryId, brandId), products)
  {
    if categoryId < 0 && brandId < 0 {
      SubseqRefl(products);
    } else {
      KeptSubseq(products, categoryId, brandId);
    }
  }

  /** With at least one id present, a product is in the result exactly when
      it is in the input and matches the rule for those ids. */
  lemma {:induction false} FilteredMembers(products: seq<Product>, categoryId: int, brandId: int, p: Product)
    requires !(categoryId < 0 && brandId < 0)
    ensures p in FilteredProducts(products, categoryId, brandId) <==> p in products && Matches(p, categoryId, brandId)
  {
    KeptMembers(products, categoryId, brandId, p);
  }

  lemma {:induction false} KeptMembers(products: seq<Product>, categoryId: int, brandId: int, p: Product)
    ensures p in Kept(products, categoryId, brandId) <==> p in products && Matches(p, categoryId, brandId)
  {
    if products != [] {
      KeptMembers(products[..|products| - 1], categoryId, brandId, p);
      assert products == products[..|products| - 1] + [products[|products| - 1]];
    }
  }

  // ---------------------------------------------------------------------
  // get_products_within_dates

  /** A product is offered for the whole request when it is available and
      its window contains the requested interval, both ends inclusive. */
  predicate AvailableWithin(p: Product, startDate: int, endDate: int) {
    p.available && p.availStartDate <= startDate && p.availEndDate >= endDate
  }

  /** One owner's products that are offered for the whole request, in order. */
  function OfferedProducts(products: seq<Product>, startDate: int, endDate: int): (offered: seq<Product>) {
    if products == [] then []
    else
      var p := products[|products| - 1];
      OfferedProducts(products[..|products| - 1], startDate, endDate)
        + (if AvailableWithin(p, startDate, endDate) then [p] else [])
  }

  /** The offered products of the active users, user by user. */
  function ProductsWithinDates(startDate: int, endDate: int, users: seq<User>): (available: seq<Product>) {
    if users == [] then []
    else
      var u := users[|users| - 1];
      ProductsWithinDates(startDate, endDate, users[..|users| - 1])
        + (if u.active then OfferedProducts(u.products, startDate, endDate) else [])
  }

  /** `get_products_within_dates`. */
  method GetProductsWithinDates(startDate: int, endDate: int, users: seq<User>) returns (availableProducts: seq<Product>)
    ensures availableProducts == ProductsWithinDates(startDate, endDate, users)
  {
    availableProducts := [];
    for i := 0 to |users|
      invariant availableProducts == ProductsWithinDates(startDate, endDate, users[..i])
    {
      assert users[..i + 1][..i] == users[..i];
      var user := users[i];
      if user.active {
        ghost var before := availableProducts;
        for j := 0 to |user.products|
          invariant availableProducts == before + OfferedProducts(user.products[..j], startDate, endDate)
        {
          assert user.products[..j + 1][..j] == user.products[..j];
          var product := user.products[j];
          if product.available && product.availStartDate <= startDate && product.availEndDate >= endDate {
            availableProducts := availableProducts + [product];
          }
        }
        assert user.products[..|user.products|] == user.products;
      }
    }
    assert users[..|users|] == users;
  }

  lemma {:induction false} OfferedMembers(products: seq<Product>, startDate: int, endDate: int, p: Product)
    ensures p in OfferedProducts(products, startDate, endDate) <==> p in products && AvailableWithin(p, startDate, endDate)
  {
    if products != [] {
      OfferedMembers(products[..|products| - 1], startDate, endDate, p);
      assert products == products[..|products| - 1] + [products[|products| - 1]];
    }
  }

  /** A product is returned exactly when an active user in the list lists
      it and it is available with a window containing the request. */
  lemma {:induction false} ProductsWithinDatesMembers(startDate: int, endDate: int, users: seq<User>, p: Product)
    ensures p in ProductsWithinDates(startDate, endDate, users)
        <==> AvailableWithin(p, startDate, endDate) && exists u :: u in users && u.active && p in u.products
  {
    if users != [] {
      var u := users[|users| - 1];
      var rest := users[..|users| - 1];
      ProductsWithinDatesMembers(startDate, endDate, rest, p);
      OfferedMembers(u.products, startDate, endDate, p);
      assert users == rest + [u];
      if AvailableWithin(p, startDate, endDate) && (exists v :: v in users && v.active && p in v.products) {
        var v :| v in users && v.active && p in v.products;
        assert v == u || v in rest;
      }
    }
  }

  /** The inclusive bounds: a window equal to the request qualifies, one
      that ends a day early does not. */
  lemma WindowBoundaries(p: Product, startDate: int, endDate: int)
    requires p.available
    ensures p.availStartDate == startDate && p.availEndDate == endDate ==> AvailableWithin(p, startDate, endDate)
    ensures p.availEndDate == endDate - 1 ==> !AvailableWithin(p, startDate, endDate)
  {
  }

  // ---------------------------------------------------------------------
  // categorize_products

  function CategoryNames(categories: seq<Category>): (categoryNames: set<string>) {
    if categories == [] then {}
    else CategoryNames(categories[..|categories| - 1]) + {categories[|categories| - 1].catName}
  }

  /** The names are those of the given categories. */
  lemma {:induction false} CategoryNamesMembers(categories: seq<Category>, name: string)
    ensures name in CategoryNames(categories) <==> exists c :: c in categories && c.catName == name
  {
    if categories != [] {
      var prefix := categories[..|categories| - 1];
      CategoryNamesMembers(prefix, name);
      assert categories == prefix + [categories[|categories| - 1]];
    }
  }

  /** The products of one category, in input order. */
  function InCategory(products: seq<Product>, name: string): (bucket: seq<Product>) {
    if products == [] then []
    else
      var p := products[|products| - 1];
      InCategory(products[..|products| - 1], name) + (if p.catName == name then [p] else [])
  }

  /** The dictionary after the first loop: an empty list per name. */
  function EmptyBuckets(categories: seq<Category>): (buckets: map<string, seq<Product>>) {
    if categories == [] then map[]
    else EmptyBuckets(categories[..|categories| - 1])[categories[|categories| - 1].catName := []]
  }

  /** The dictionary after the second loop: each product appended to the
      list of its category name, KeyError at the first product whose name
      is not a key. */
  function Categorized(categories: seq<Category>, products: seq<Product>): (inventory: Result<map<string, seq<Product>>>) {
    if products == [] then Ok(EmptyBuckets(categories))
    else match Categorized(categories, products[..|products| - 1])
      case Err(e) => Err(e)
      case Ok(inventory) =>
        var p := products[|products| - 1];
        if p.catName in inventory then Ok(inventory[p.catName := inventory[p.catName] + [p]])
        else Err(KeyError(p.catName))
  }

  /** The first loop of `categorize_products`. */
  method EmptyInventory(categories: seq<Category>) returns (inventory: map<string, seq<Product>>)
    ensures inventory == EmptyBuckets(categories)
  {
    inventory := map[];
    for i := 0 to |categories|
      invariant inventory == EmptyBuckets(categories[..i])
    {
      assert categories[..i + 1][..i] == categories[..i];
      inventory := inventory[categories[i].catName := []];
    }
    assert categories[..|categories|] == categories;
  }

  /** `categorize_products`. */
  method CategorizeProducts(categories: seq<Category>, products: seq<Product>)
    returns (r: Result<map<string, seq<Product>>>)
    ensures r == Categorized(categories, products)
  {
    var inventory := EmptyInventory(categories);
    for j := 0 to |products|
      invariant Categorized(categories, products[..j]) == Ok(inventory)
    {
      assert products[..j + 1][..j] == products[..j];
      var name := products[j].catName;
      if name !in inventory {
        CategorizedFailsAfter(categories, products, j + 1);
        return Err(KeyError(name));
      }
      inventory := inventory[name := inventory[name] + [products[j]]];
    }
    assert products[..|products|] == products;
    return Ok(inventory);
  }

  lemma {:induction false} CategorizedFailsAfter(categories: seq<Category>, products: seq<Product>, k: nat)
    requires k <= |products| && Categorized(categories, products[..k]).Err?
    ensures Categorized(categories, products) == Categorized(categories, products[..k])
    decreases |products| - k
  {
    if k < |products| {
      assert products[..k + 1][..k] == products[..k];
      CategorizedFailsAfter(categories, products, k + 1);
    } else {
      assert products[..k] == products;
    }
  }

  /** The first loop gives every category name, and only those, an empty
      list. */
  lemma {:induction false} EmptyBucketsKeys(categories: seq<Category>)
    ensures EmptyBuckets(categories).Keys == CategoryNames(categories)
    ensures forall name :: name in EmptyBuckets(categories) ==> EmptyBuckets(categories)[name] == []
  {
    if categories != [] {
      EmptyBucketsKeys(categories[..|categories| - 1]);
    }
  }

  /** The grouping succeeds exactly when every product's category name is
      among the category names. Then the keys are the category names and
      each list holds the products of that category in input order. */
  lemma {:induction false} CategorizedBuckets(categories: seq<Category>, products: seq<Product>)
    ensures Categorized(categories, products).Ok? <==>
              forall k :: 0 <= k < |products| ==> products[k].catName in CategoryNames(categories)
    ensures Categorized(categories, products).Ok? ==>
              Categorized(categories, products).value.Keys == CategoryNames(categories)
    ensures Categorized(categories, products).Ok? ==>
              forall name :: name in Categorized(categories, products).value ==>
                Categorized(categories, products).value[name] == InCategory(products, name)
  {
    if products == [] {
      EmptyBucketsKeys(categories);
    } else {
      var prefix := products[..|products| - 1];
      var p := products[|products| - 1];
      CategorizedBuckets(categories, prefix);
      assert forall k :: 0 <= k < |prefix| ==> prefix[k] == products[k];
      if Categorized(categories, prefix).Ok? && p.catName in Categorized(categories, prefix).value {
        var inventory := Categorized(categories, prefix).value;
        var out := inventory[p.catName := inventory[p.catName] + [p]];
        assert Categorized(categories, products) == Ok(out);
        forall name | name in out
          ensures out[name] == InCategory(products, name)
        {
          assert InCategory(products, name) == InCategory(prefix, name) + (if p.catName == name then [p] else []);
        }
      }
    }
  }

  /** A KeyError names the first product whose category name is missing. */
  lemma {:induction false} CategorizedKeyError(categories: seq<Category>, products: seq<Product>)
    requires Categorized(categories, products).Err?
    ensures exists i :: 0 <= i < |products| && products[i].catName !in CategoryNames(categories)
              && Categorized(categories, products).error == KeyError(products[i].catName)
              && forall j :: 0 <= j < i ==> products[j].catName in CategoryNames(categories)
  {
    var prefix := products[..|products| - 1];
    assert forall k :: 0 <= k < |prefix| ==> prefix[k] == products[k];
    if Categorized(categories, prefix).Err? {
      CategorizedKeyError(categories, prefix);
      var i :| 0 <= i < |prefix| && prefix[i].catName !in CategoryNames(categories)
                && Categorized(categories, prefix).error == KeyError(prefix[i].catName)
                && forall j :: 0 <= j < i ==> prefix[j].catName in CategoryNames(categories);
      assert products[i] == prefix[i];
    } else {
      CategorizedBuckets(categories, prefix);
      assert products[|products| - 1].catName !in CategoryNames(categories);
    }
  }

  lemma {:induction false} InCategoryMembers(products: seq<Product>, name: string, p: Product)
    ensures p in InCategory(products, name) <==> p in products && p.catName == name
  {
    if products != [] {
      InCategoryMembers(products[..|products| - 1], name, p);
      assert products == products[..|products| - 1] + [products[|products| - 1]];
    }
  }

  /** The total size of the buckets of the given names. */
  function BucketTotal(names: seq<string>, products: seq<Product>): (total: nat) {
    if names == [] then 0 else |InCategory(products, names[0])| + BucketTotal(names[1..], products)
  }

  function Occurrences(names: seq<string>, name: string): (count: nat) {
    if names == [] then 0 else (if names[0] == name then 1 else 0) + Occurrences(names[1..], name)
  }

  lemma {:induction false} BucketTotalAppend(names: seq<string>, products: seq<Product>, p: Product)
    ensures BucketTotal(names, products + [p]) == BucketTotal(names, products) + Occurrences(names, p.catName)
  {
    assert (products + [p])[..|products|] == products;
    if names != [] {
      BucketTotalAppend(names[1..], products, p);
    }
  }

  lemma {:induction false} OccursOnce(names: seq<string>, name: string)
    requires forall i, j :: 0 <= i < j < |names| ==> names[i] != names[j]
    requires name in names
    ensures Occurrences(names, name) == 1
  {
    if names[0] == name {
      OccursNever(names[1..], name);
    } else {
      OccursOnce(names[1..], name);
    }
  }

  lemma {:induction false} OccursNever(names: seq<string>, name: string)
    requires name !in names
    ensures Occurrences(names, name) == 0
  {
    if names != [] {
      OccursNever(names[1..], name);
    }
  }

  /** Partition: over distinct category names that cover every product,
      the bucket sizes add up to the number of products. */
  lemma {:induction false} BucketsPartition(names: seq<string>, products: seq<Product>)
    requires forall i, j :: 0 <= i < j < |names| ==> names[i] != names[j]
    requires forall p :: p in products ==> p.catName in names
    ensures BucketTotal(names, products) == |products|
  {
    if products == [] {
      BucketsEmpty(names);
    } else {
      var rest := products[..|products| - 1];
      var p := products[|products| - 1];
      assert products == rest + [p];
      BucketsPartition(names, rest);
      BucketTotalAppend(names, rest, p);
      OccursOnce(names, p.catName);
    }
  }

  lemma {:induction false} BucketsEmpty(names: seq<string>)
    ensures BucketTotal(names, []) == 0
  {
    if names != [] {
      BucketsEmpty(names[1..]);
    }
  }

  /** The total size of the buckets `names` picks out of an inventory. */
  function InventorySize(names: seq<string>, inventory: map<string, seq<Product>>): (size: nat)
    requires forall name :: name in names ==> name in inventory
  {
    if names == [] then 0 else |inventory[names[0]]| + InventorySize(names[1..], inventory)
  }

  lemma {:induction false} InventorySizeOfBuckets(names: seq<string>, products: seq<Product>,
                                                  inventory: map<string, seq<Product>>)
    requires forall name :: name in names ==> name in inventory && inventory[name] == InCategory(products, name)
    ensures InventorySize(names, inventory) == BucketTotal(names, products)
  {
    if names != [] {
      InventorySizeOfBuckets(names[1..], products, inventory);
    }
  }

  /** Every product lands in exactly one bucket of the returned dictionary:
      over any duplicate-free listing of its keys, the bucket sizes add up
      to the number of products. */
  lemma CategorizedPartition(categories: seq<Category>, products: seq<Product>, names: seq<string>)
    requires Categorized(categories, products).Ok?
    requires forall i, j :: 0 <= i < j < |names| ==> names[i] != names[j]
    requires forall name :: name in names <==> name in Categorized(categories, products).value
    ensures InventorySize(names, Categorized(categories, products).value) == |products|
  {
    var inventory := Categorized(categories, products).value;
    CategorizedBuckets(categories, products);
    InventorySizeOfBuckets(names, products, inventory);
    forall p | p in products
      ensures p.catName in names
    {
      var k :| 0 <= k < |products| && products[k] == p;
      assert products[k].catName in CategoryNames(categories);
    }
    BucketsPartition(names, products);
  }

  // ---------------------------------------------------------------------
  // The search request (server.py composes the helpers)

  /** Whatever the filter ids, every product the search shows is available,
      offered for the whole request, and listed by an active user. */
  lemma SearchShowsOnlyOfferedProducts(startDate: int, endDate: int, users: seq<User>,
                                       categoryId: int, brandId: int, p: Product)
    requires p in FilteredProducts(ProductsWithinDates(startDate, endDate, users), categoryId, brandId)
    ensures p.available && p.availStartDate <= startDate && p.availEndDate >= endDate
    ensures exists u :: u in users && u.active && p in u.products
  {
    var offered := ProductsWithinDates(startDate, endDate, users);
    FilteredIsSubseq(offered, categoryId, brandId);
    SubseqMembers(FilteredProducts(offered, categoryId, brandId), offered);
    ProductsWithinDatesMembers(startDate, endDate, users, p);
  }
}
