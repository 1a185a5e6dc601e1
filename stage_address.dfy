/**
 * Loading STG_DB.stg_address (INSERT_STG_ADDRESS_SQL): the union of three
 * address projections — accident locations, taxi trip origins and taxi trip
 * destinations — with zip codes cut to five characters, the taxi rows
 * guarded by length checks, only all-digit zip codes kept, and NULL city or
 * state replaced by the empty string.
 */
module StageAddress {
  import opened Sql

  /** The columns of SRC_DB.stg_src_us_accidents that the statement reads. */
  datatype AccidentSource = AccidentSource(city: Option<string>, state: Option<string>, zipcode: Option<string>)

  /** The columns of SRC_DB.stg_src_dc_taxi_trips that the statement reads. */
  datatype TripSource = TripSource(originCity: Option<string>, originState: Option<string>, originZip: Option<string>,
                                   destinationCity: Option<string>, destinationState: Option<string>,
                                   destinationZip: Option<string>)

  /** A row of the derived table A, before the WHERE and the COALESCE. */
  datatype Candidate = Candidate(city: Option<string>, state: Option<string>, zipcode: Option<string>)

  /** A row of stg_address: its primary key is all three columns. */
  datatype Address = Address(city: string, state: string, zipcode: string)

  /** SUBSTR on a nullable column: NULL stays NULL. */
  function SubstrOrNull(x: Option<string>, n: nat): (r: Option<string>)
    ensures r.Some? <==> x.Some?
    ensures r.Some? ==> |r.value| <= n && r.value == Prefix(x.value, n)
  {
    match x
    case None => None
    case Some(s) => Some(Prefix(s, n))
  }

  // ---------------------------------------------------------------------------
  // The three branches of the UNION
  // ---------------------------------------------------------------------------

  function FromAccident(a: AccidentSource): Candidate
  {
    Candidate(a.city, a.state, SubstrOrNull(a.zipcode, 5))
  }

  /** The first branch: every accident, with its zip code cut to five characters. */
  function AccidentCandidates(accidents: seq<AccidentSource>): (r: seq<Candidate>)
    ensures |r| == |accidents|
    ensures forall i :: 0 <= i < |r| ==> r[i] == FromAccident(accidents[i])
    ensures forall i :: 0 <= i < |r| ==> r[i].city == accidents[i].city && r[i].state == accidents[i].state
    ensures forall i :: 0 <= i < |r| ==> (r[i].zipcode.Some? <==> accidents[i].zipcode.Some?)
    ensures forall i :: 0 <= i < |r| && r[i].zipcode.Some? ==>
              accidents[i].zipcode.Some?
              && |r[i].zipcode.value| == (if |accidents[i].zipcode.value| <= 5 then |accidents[i].zipcode.value| else 5)
              && r[i].zipcode.value == accidents[i].zipcode.value[..|r[i].zipcode.value|]
  {
    seq(|accidents|, i requires 0 <= i < |accidents| => FromAccident(accidents[i]))
  }

  /**
   * WHERE LENGTH(state) = 2 AND LENGTH(city) > 2 AND zip <> '0': a comparison
   * with NULL is not true, so a row with any of the three NULL is dropped.
   */
  predicate TaxiGuard(city: Option<string>, state: Option<string>, zip: Option<string>)
  {
    city.Some? && state.Some? && zip.Some?
    && |state.value| == 2 && |city.value| > 2 && zip.value != "0"
  }

  predicate OriginKept(t: TripSource)
  {
    TaxiGuard(t.originCity, t.originState, t.originZip)
  }

  predicate DestinationKept(t: TripSource)
  {
    TaxiGuard(t.destinationCity, t.destinationState, t.destinationZip)
  }

  function FromOrigin(t: TripSource): Candidate
  {
    Candidate(t.originCity, t.originState, SubstrOrNull(t.originZip, 5))
  }

  function FromDestination(t: TripSource): Candidate
  {
    Candidate(t.destinationCity, t.destinationState, SubstrOrNull(t.destinationZip, 5))
  }

  /** The second branch: the origins of the trips that pass the guard. */
  function OriginCandidates(trips: seq<TripSource>): (r: seq<Candidate>)
    ensures |r| <= |trips|
  {
    if |trips| == 0 then []
    else
      var t := trips[|trips| - 1];
      OriginCandidates(trips[..|trips| - 1]) + (if OriginKept(t) then [FromOrigin(t)] else [])
  }

  /** The third branch: the destinations of the trips that pass the guard. */
  function DestinationCandidates(trips: seq<TripSource>): (r: seq<Candidate>)
    ensures |r| <= |trips|
  {
    if |trips| == 0 then []
    else
      var t := trips[|trips| - 1];
      DestinationCandidates(trips[..|trips| - 1]) + (if DestinationKept(t) then [FromDestination(t)] else [])
  }

  /** A taxi origin reaches the union exactly when its trip passes the guard. */
  lemma {:induction false} OriginCandidatesSelect(trips: seq<TripSource>)
    ensures forall c :: c in OriginCandidates(trips) <==>
      exists i :: 0 <= i < |trips| && OriginKept(trips[i]) && c == FromOrigin(trips[i])
  {
    if |trips| > 0 {
      var front := trips[..|trips| - 1];
      OriginCandidatesSelect(front);
      forall c | (exists i :: 0 <= i < |trips| && OriginKept(trips[i]) && c == FromOrigin(trips[i]))
        ensures c in OriginCandidates(trips)
      {
        var i :| 0 <= i < |trips| && OriginKept(trips[i]) && c == FromOrigin(trips[i]);
        if i < |trips| - 1 {
          assert front[i] == trips[i];
        }
      }
      forall c | c in OriginCandidates(trips)
        ensures exists i :: 0 <= i < |trips| && OriginKept(trips[i]) && c == FromOrigin(trips[i])
      {
        if c in OriginCandidates(front) {
          var i :| 0 <= i < |front| && OriginKept(front[i]) && c == FromOrigin(front[i]);
          assert trips[i] == front[i];
        } else {
          assert OriginKept(trips[|trips| - 1]) && c == FromOrigin(trips[|trips| - 1]);
        }
      }
    }
  }

  /** A taxi destination reaches the union exactly when its trip passes the guard. */
  lemma {:induction false} DestinationCandidatesSelect(trips: seq<TripSource>)
    ensures forall c :: c in DestinationCandidates(trips) <==>
      exists i :: 0 <= i < |trips| && DestinationKept(trips[i]) && c == FromDestination(trips[i])
  {
    if |trips| > 0 {
      var front := trips[..|trips| - 1];
      DestinationCandidatesSelect(front);
      forall c | (exists i :: 0 <= i < |trips| && DestinationKept(trips[i]) && c == FromDestination(trips[i]))
        ensures c in DestinationCandidates(trips)
      {
        var i :| 0 <= i < |trips| && DestinationKept(trips[i]) && c == FromDestination(trips[i]);
        if i < |trips| - 1 {
          assert front[i] == trips[i];
        }
      }
      forall c | c in DestinationCandidates(trips)
        ensures exists i :: 0 <= i < |trips| && DestinationKept(trips[i]) && c == FromDestination(trips[i])
      {
        if c in DestinationCandidates(front) {
          var i :| 0 <= i < |front| && DestinationKept(front[i]) && c == FromDestination(front[i]);
          assert trips[i] == front[i];
        } else {
          assert DestinationKept(trips[|trips| - 1]) && c == FromDestination(trips[|trips| - 1]);
        }
      }
    }
  }

  // ---------------------------------------------------------------------------
  // UNION, the zip-code pattern and COALESCE
  // ---------------------------------------------------------------------------

  predicate NoDuplicates<T(==)>(xs: seq<T>)
  {
    forall i, j :: 0 <= i < j < |xs| ==> xs[i] != xs[j]
  }

  /** UNION's duplicate elimination (NULLs compare as equal here); the first occurrence is kept. */
  function Distinct(xs: seq<Candidate>): (r: seq<Candidate>)
    ensures |r| <= |xs|
  {
    if |xs| == 0 then []
    else
      var front := Distinct(xs[..|xs| - 1]);
      var x := xs[|xs| - 1];
      if x in front then front else front + [x]
  }

  /** UNION keeps every row of its branches, each exactly once. */
  lemma {:induction false} DistinctSpec(xs: seq<Candidate>)
    ensures forall c :: c in Distinct(xs) <==> c in xs
    ensures NoDuplicates(Distinct(xs))
  {
    if |xs| > 0 {
      var init := xs[..|xs| - 1];
      DistinctSpec(init);
      assert xs == init + [xs[|xs| - 1]];
    }
  }

  /** zipcode ~ '^[0-9]+$': at least one character, all of them digits. NULL does not match. */
  predicate ZipMatches(zip: Option<string>)
  {
    zip.Some? && |zip.value| > 0 && forall i :: 0 <= i < |zip.value| ==> IsDigit(zip.value[i])
  }

  /** The outer WHERE. */
  function MatchingZip(cs: seq<Candidate>): (r: seq<Candidate>)
    ensures forall c :: c in r <==> c in cs && ZipMatches(c.zipcode)
    ensures NoDuplicates(cs) ==> NoDuplicates(r)
  {
    if |cs| == 0 then []
    else
      var c := cs[|cs| - 1];
      assert cs == cs[..|cs| - 1] + [c];
      MatchingZip(cs[..|cs| - 1]) + (if ZipMatches(c.zipcode) then [c] else [])
  }

  /** The outer SELECT list: COALESCE(City,''), COALESCE(State,''), COALESCE(Zipcode,''). */
  function ToAddress(c: Candidate): Address
  {
    Address(Coalesce(c.city, ""), Coalesce(c.state, ""), Coalesce(c.zipcode, ""))
  }

  /** The rows of the derived table A. */
  function UnionOfBranches(accidents: seq<AccidentSource>, trips: seq<TripSource>): seq<Candidate>
  {
    Distinct(AccidentCandidates(accidents) + OriginCandidates(trips) + DestinationCandidates(trips))
  }

  /** The rows the SELECT of INSERT_STG_ADDRESS_SQL produces. */
  function StagedAddresses(accidents: seq<AccidentSource>, trips: seq<TripSource>): (r: seq<Address>)
  {
    var kept := MatchingZip(UnionOfBranches(accidents, trips));
    seq(|kept|, i requires 0 <= i < |kept| => ToAddress(kept[i]))
  }

  /** A zip code a source row supplies, in whichever of the three branches. */
  predicate SourceZip(accidents: seq<AccidentSource>, trips: seq<TripSource>, z: string)
  {
    (exists i :: 0 <= i < |accidents| && accidents[i].zipcode == Some(z))
    || (exists i :: 0 <= i < |trips| && OriginKept(trips[i]) && trips[i].originZip == Some(z))
    || (exists i :: 0 <= i < |trips| && DestinationKept(trips[i]) && trips[i].destinationZip == Some(z))
  }

  /** The candidates that reach the WHERE are those of the three branches. */
  lemma UnionMembers(accidents: seq<AccidentSource>, trips: seq<TripSource>, c: Candidate)
    ensures c in UnionOfBranches(accidents, trips) <==>
      (exists i :: 0 <= i < |accidents| && c == FromAccident(accidents[i]))
      || (exists i :: 0 <= i < |trips| && OriginKept(trips[i]) && c == FromOrigin(trips[i]))
      || (exists i :: 0 <= i < |trips| && DestinationKept(trips[i]) && c == FromDestination(trips[i]))
  {
    var all := AccidentCandidates(accidents) + OriginCandidates(trips) + DestinationCandidates(trips);
    DistinctSpec(all);
    OriginCandidatesSelect(trips);
    DestinationCandidatesSelect(trips);
    if exists i :: 0 <= i < |accidents| && c == FromAccident(accidents[i]) {
      var i :| 0 <= i < |accidents| && c == FromAccident(accidents[i]);
      assert AccidentCandidates(accidents)[i] == c;
    }
  }

  /**
   * Every staged zip code is one to five digits and is the first five
   * characters of a zip code some kept source row supplies.
   */
  lemma StagedZipCodes(accidents: seq<AccidentSource>, trips: seq<TripSource>, a: Address)
    requires a in StagedAddresses(accidents, trips)
    ensures 1 <= |a.zipcode| <= 5
    ensures forall i :: 0 <= i < |a.zipcode| ==> IsDigit(a.zipcode[i])
    ensures exists z :: SourceZip(accidents, trips, z) && a.zipcode == Prefix(z, 5)
  {
    var kept := MatchingZip(UnionOfBranches(accidents, trips));
    var k :| 0 <= k < |kept| && StagedAddresses(accidents, trips)[k] == a;
    var c := kept[k];
    assert c in kept;
    UnionMembers(accidents, trips, c);
    if exists i :: 0 <= i < |accidents| && c == FromAccident(accidents[i]) {
      var i :| 0 <= i < |accidents| && c == FromAccident(accidents[i]);
      assert SourceZip(accidents, trips, accidents[i].zipcode.value);
    } else if exists i :: 0 <= i < |trips| && OriginKept(trips[i]) && c == FromOrigin(trips[i]) {
      var i :| 0 <= i < |trips| && OriginKept(trips[i]) && c == FromOrigin(trips[i]);
      assert SourceZip(accidents, trips, trips[i].originZip.value);
    } else {
      var i :| 0 <= i < |trips| && DestinationKept(trips[i]) && c == FromDestination(trips[i]);
      assert SourceZip(accidents, trips, trips[i].destinationZip.value);
    }
  }

  /** An address is staged exactly when some branch row with an all-digit zip code coalesces to it. */
  lemma StagedAddressesExactly(accidents: seq<AccidentSource>, trips: seq<TripSource>, a: Address)
    ensures a in StagedAddresses(accidents, trips) <==>
      exists c :: c in UnionOfBranches(accidents, trips) && ZipMatches(c.zipcode) && ToAddress(c) == a
  {
    var kept := MatchingZip(UnionOfBranches(accidents, trips));
    var staged := StagedAddresses(accidents, trips);
    if a in staged {
      var k :| 0 <= k < |kept| && staged[k] == a;
      assert kept[k] in kept;
    }
    if exists c :: c in UnionOfBranches(accidents, trips) && ZipMatches(c.zipcode) && ToAddress(c) == a {
      var c :| c in UnionOfBranches(accidents, trips) && ZipMatches(c.zipcode) && ToAddress(c) == a;
      var k :| 0 <= k < |kept| && kept[k] == c;
      assert staged[k] == a;
    }
  }

  /**
   * When no city or state in the union is NULL, COALESCE changes nothing that
   * could merge two rows, so the staged rows are already distinct.
   */
  lemma StagedAddressesDistinct(accidents: seq<AccidentSource>, trips: seq<TripSource>)
    requires forall c :: c in UnionOfBranches(accidents, trips) ==> c.city.Some? && c.state.Some?
    ensures NoDuplicates(StagedAddresses(accidents, trips))
  {
    var u := UnionOfBranches(accidents, trips);
    DistinctSpec(AccidentCandidates(accidents) + OriginCandidates(trips) + DestinationCandidates(trips));
    var kept := MatchingZip(u);
    var staged := StagedAddresses(accidents, trips);
    forall i, j | 0 <= i < j < |staged|
      ensures staged[i] != staged[j]
    {
      assert kept[i] in kept && kept[j] in kept;
      assert kept[i] != kept[j];
    }
  }

  // ---------------------------------------------------------------------------
  // The INSERT
  // ---------------------------------------------------------------------------

  /**
   * INSERT INTO "STG_DB".stg_address: the new rows are appended, unless some
   * row would repeat a (City, State, Zipcode) already present or inserted, in
   * which case the primary key rejects the whole statement (None).
   */
  function InsertStgAddress(existing: seq<Address>, accidents: seq<AccidentSource>, trips: seq<TripSource>): (r: Option<seq<Address>>)
    ensures r.Some? <==> NoDuplicates(existing + StagedAddresses(accidents, trips))
    ensures r.Some? ==> r.value == existing + StagedAddresses(accidents, trips)
    ensures NoDuplicates(existing) ==>
              (r.None? <==> !NoDuplicates(StagedAddresses(accidents, trips))
                            || exists a :: a in existing && a in StagedAddresses(accidents, trips))
  {
    var staged := StagedAddresses(accidents, trips);
    NoDuplicatesAppend(existing, staged);
    var all := existing + staged;
    if NoDuplicates(all) then Some(all) else None
  }

  /** A concatenation is duplicate-free iff both parts are and they share no element. */
  lemma NoDuplicatesAppend<T>(a: seq<T>, b: seq<T>)
    ensures NoDuplicates(a + b) <==> NoDuplicates(a) && NoDuplicates(b) && forall x :: x in a ==> x !in b
  {
    var ab := a + b;
    if NoDuplicates(a) && NoDuplicates(b) && forall x :: x in a ==> x !in b {
      forall i, j | 0 <= i < j < |ab|
        ensures ab[i] != ab[j]
      {
        if j >= |a| && i < |a| {
          assert ab[i] in a && ab[j] == b[j - |a|];
        } else if i >= |a| {
          assert ab[i] == b[i - |a|] && ab[j] == b[j - |a|];
        }
      }
    }
    if NoDuplicates(ab) {
      forall i, j | 0 <= i < j < |a|
        ensures a[i] != a[j]
      {
        assert ab[i] == a[i] && ab[j] == a[j];
      }
      forall i, j | 0 <= i < j < |b|
        ensures b[i] != b[j]
      {
        assert ab[|a| + i] == b[i] && ab[|a| + j] == b[j];
      }
      forall i, j | 0 <= i < |a| && 0 <= j < |b|
        ensures a[i] != b[j]
      {
        assert ab[i] == a[i] && ab[|a| + j] == b[j];
      }
    }
  }

  /** Into an empty table, the load succeeds whenever no city or state in the union is NULL. */
  lemma InsertIntoEmptySucceeds(accidents: seq<AccidentSource>, trips: seq<TripSource>)
    requires forall c :: c in UnionOfBranches(accidents, trips) ==> c.city.Some? && c.state.Some?
    ensures InsertStgAddress([], accidents, trips) == Some(StagedAddresses(accidents, trips))
  {
    StagedAddressesDistinct(accidents, trips);
    assert [] + StagedAddresses(accidents, trips) == StagedAddresses(accidents, trips);
  }

  /** A NULL city and an empty city in otherwise equal rows collide after COALESCE. */
  lemma NullAndEmptyCityCollide(state: string, zip: string)
    requires |state| == 2 && |zip| == 5 && forall i :: 0 <= i < 5 ==> IsDigit(zip[i])
    ensures var accidents := [AccidentSource(None, Some(state), Some(zip)), AccidentSource(Some(""), Some(state), Some(zip))];
            InsertStgAddress([], accidents, []) == None
  {
    var accidents := [AccidentSource(None, Some(state), Some(zip)), AccidentSource(Some(""), Some(state), Some(zip))];
    var c0, c1 := FromAccident(accidents[0]), FromAccident(accidents[1]);
    assert c0 != c1;
    assert OriginCandidates([]) == [] && DestinationCandidates([]) == [];
    var all := AccidentCandidates(accidents) + OriginCandidates([]) + DestinationCandidates([]);
    assert all == [c0, c1];
    assert [c0, c1][..1] == [c0];
    assert Distinct([c0]) == [c0];
    assert Distinct([c0, c1]) == [c0, c1];
    assert MatchingZip([c0]) == [c0];
    assert MatchingZip([c0, c1]) == [c0, c1];
    var staged := StagedAddresses(accidents, []);
    assert |staged| == 2 && staged[0] == staged[1];
    assert ([] + staged)[0] == ([] + staged)[1];
  }
}
