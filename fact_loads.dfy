/**
 * The two fact loads (INSERT_UPDATE_FACT_ACCIDENT_SQL, INSERT_UPDATE_FACT_TRIP_SQL):
 * the same insert-if-absent shape as the dimensions, keyed by the business ID,
 * where each new fact row carries foreign keys resolved against the dimension
 * tables as they stand when the statement runs.
 *
 * Date foreign keys are computed, not looked up: the YYYYMMDD integer of the
 * timestamp's date. Time foreign keys join dim_time on Time_Desc and have no
 * default, so a timestamp without a matching row gives NULL. Every other
 * foreign key defaults to -1 when no row matches.
 */
module FactLoads {
  import opened Sql
  import opened CoreTable
  import opened StageAddress
  import opened DimensionLoads
  import DimDate
  import DimTime

  type Hour = h: int | 0 <= h < 24
  type Minute = m: int | 0 <= m < 60
  type Second = s: int | 0 <= s < 60
  type CalendarDate = d: DimDate.Date | DimDate.ValidDate(d) witness DimDate.Date(2010, 1, 1)

  /** A TIMESTAMP column value, to the whole second. */
  datatype Timestamp = Timestamp(date: CalendarDate, hour: Hour, minute: Minute, second: Second)

  // ---------------------------------------------------------------------------
  // Foreign-key expressions shared by both loads
  // ---------------------------------------------------------------------------

  /** CAST(TO_CHAR(CAST(ts AS DATE), 'YYYYMMDD') AS INTEGER); NULL stays NULL. */
  function DateFk(ts: Option<Timestamp>): (r: Option<int>)
    ensures r.Some? <==> ts.Some?
    ensures r.Some? ==> DimDate.SkDate(r.value) == ts.value.date
  {
    match ts
    case None => None
    case Some(t) =>
      DimDate.SkDateRoundTrip(t.date);
      Some(DimDate.DateSk(t.date))
  }

  /** LEFT OUTER JOIN dim_time ON TO_CHAR(ts, 'HH24:MI:SS') = time_desc, taking Time_SK. */
  function TimeFk(time: seq<Row<DimTime.TimeAttrs>>, ts: Option<Timestamp>): (r: Option<int>)
    ensures ts.None? ==> r.None?
    ensures ts.Some? ==>
              var desc := DimTime.ToCharHH24MISS(ts.value.hour, ts.value.minute, ts.value.second);
              (r.Some? <==> HasKey(time, DimTime.TimeDescOf, desc))
              && (r.Some? ==> SkOfKey(time, DimTime.TimeDescOf, desc, r.value))
  {
    match ts
    case None => None
    case Some(t) => LookupSk(time, DimTime.TimeDescOf, DimTime.ToCharHH24MISS(t.hour, t.minute, t.second))
  }

  /**
   * Against the dim_time the generator produces, every timestamp resolves, to
   * the second of the day: Time_SK = hour * 3600 + minute * 60 + second.
   */
  lemma TimeFkGenerated(t: Timestamp)
    ensures TimeFk(DimTime.GeneratedTimeRows(), Some(t)) == Some(t.hour * 3600 + t.minute * 60 + t.second)
  {
    var k := t.hour * 3600 + t.minute * 60 + t.second;
    var rows := DimTime.GeneratedTimeRows();
    SecondOfDayFields(t.hour, t.minute, t.second);
    DimTime.GeneratedTimeRowAt(k);
    var desc := DimTime.TimeDesc(t.hour, t.minute, t.second);
    assert DimTime.TimeDescOf(rows[k].attrs) == desc;
    DimTime.TimeDescIsZeroPadded(t.hour, t.minute, t.second);
    DimTime.GeneratedTimeRowsUnique();
    LookupFindsUniqueMatch(rows, DimTime.TimeDescOf, k);
  }

  lemma SecondOfDayFields(h: Hour, m: Minute, s: Second)
    ensures var k := h * 3600 + m * 60 + s;
      k / 3600 == h && (k / 60) % 60 == m && k % 60 == s
  {
    var k := h * 3600 + m * 60 + s;
    assert k == (h * 60 + m) * 60 + s;
    assert k / 60 == h * 60 + m;
    assert (h * 60 + m) / 60 == h;
  }

  /** Against the generated dim_date, every date FK of 2010 .. 2030 is the key of a row. */
  lemma DateFkGenerated(t: Timestamp)
    requires !DimDate.Before(t.date, DimDate.First) && !DimDate.Before(DimDate.Last, t.date)
    ensures HasSk(DimDate.GeneratedDateRows(), DateFk(Some(t)).value)
  {
    DimDate.GeneratedDateRowsCover(t.date);
  }

  // ---------------------------------------------------------------------------
  // The address join
  // ---------------------------------------------------------------------------

  /** The address key as the fact joins build it: COALESCE of each raw column, the zip code uncut. */
  function RawAddressKey(city: Option<string>, state: Option<string>, zip: Option<string>): (r: Address)
    ensures r.city == Coalesce(city, "") && r.state == Coalesce(state, "") && r.zipcode == Coalesce(zip, "")
  {
    Address(Coalesce(city, ""), Coalesce(state, ""), Coalesce(zip, ""))
  }

  /** The address key as stg_address stores it: the zip code cut to five characters first. */
  function StagedAddressKey(city: Option<string>, state: Option<string>, zip: Option<string>): (r: Address)
    ensures r.city == Coalesce(city, "") && r.state == Coalesce(state, "")
    ensures |r.zipcode| <= 5 && |r.zipcode| <= |Coalesce(zip, "")| && r.zipcode == Coalesce(zip, "")[..|r.zipcode|]
    ensures ShortZip(zip) ==> r.zipcode == Coalesce(zip, "")
  {
    ToAddress(Candidate(city, state, SubstrOrNull(zip, 5)))
  }

  /**
   * The staged key of an accident location is exactly the stg_address row the
   * address staging derives from it, whenever its zip code is kept there.
   */
  lemma StagedAddressKeyMatchesStaging(accidents: seq<AccidentSource>, trips: seq<TripSource>, i: nat)
    requires i < |accidents| && ZipMatches(FromAccident(accidents[i]).zipcode)
    ensures StagedAddressKey(accidents[i].city, accidents[i].state, accidents[i].zipcode)
            in StagedAddresses(accidents, trips)
  {
    var c := FromAccident(accidents[i]);
    UnionMembers(accidents, trips, c);
    StagedAddressesExactly(accidents, trips, ToAddress(c));
  }

  /** COALESCE(dim_add.Address_SK-1) as written: one below the matching key, NULL without a match. */
  function AddressFkAsWritten(address: seq<Row<Address>>, k: Address): (r: Option<int>)
    ensures r.None? <==> !HasKey(address, AddressKey, k)
    ensures r.Some? ==> SkOfKey(address, AddressKey, k, r.value + 1)
  {
    match LookupSk(address, AddressKey, k)
    case None => None
    case Some(sk) => Some(sk - 1)
  }

  /** The intended address foreign key: the matching Address_SK, or -1. */
  function AddressFk(address: seq<Row<Address>>, k: Address): (r: int)
    ensures !HasKey(address, AddressKey, k) ==> r == -1
    ensures HasKey(address, AddressKey, k) ==> SkOfKey(address, AddressKey, k, r)
  {
    ResolveFk(address, AddressKey, k)
  }

  /** A one-row dim_address holding the given address under key 1. */
  function SingleAddress(a: Address): seq<Row<Address>>
  {
    [Row(1, a)]
  }

  /**
   * As written, an accident at the only stored address gets Address_FK 0,
   * which is no Address_SK at all, and a ZIP+4 accident gets NULL even though
   * its five-digit address is stored; the intended key resolves both to 1.
   */
  lemma AddressFkAsWrittenMisses()
    ensures var stored := Address("Dayton", "OH", "45424");
            var plain := RawAddressKey(Some("Dayton"), Some("OH"), Some("45424"));
            var zipPlus4 := RawAddressKey(Some("Dayton"), Some("OH"), Some("45424-2012"));
            AddressFkAsWritten(SingleAddress(stored), plain) == Some(0)
            && !HasSk(SingleAddress(stored), 0)
            && AddressFkAsWritten(SingleAddress(stored), zipPlus4) == None
            && AddressFk(SingleAddress(stored), StagedAddressKey(Some("Dayton"), Some("OH"), Some("45424-2012"))) == 1
  {
    var stored := Address("Dayton", "OH", "45424");
    var zipPlus4 := RawAddressKey(Some("Dayton"), Some("OH"), Some("45424-2012"));
    assert zipPlus4.zipcode != stored.zipcode by {
      assert |zipPlus4.zipcode| == 10;
    }
    assert StagedAddressKey(Some("Dayton"), Some("OH"), Some("45424-2012")) == stored by {
      assert Prefix("45424-2012", 5) == "45424";
    }
    LookupFindsUniqueMatch(SingleAddress(stored), AddressKey, 0);
  }

  /**
   * The intended address key finds the dim_address row of every staged
   * location: in a well-keyed dimension it is that row's Address_SK, never -1.
   */
  lemma AddressFkResolves(address: seq<Row<Address>>, city: Option<string>, state: Option<string>, zip: Option<string>, i: nat)
    requires WellKeyed(address, AddressKey)
    requires i < |address| && address[i].attrs == StagedAddressKey(city, state, zip)
    ensures AddressFk(address, StagedAddressKey(city, state, zip)) == address[i].sk >= 1
  {
    ResolveFkWellKeyed(address, AddressKey, StagedAddressKey(city, state, zip));
  }

  /** A zip code SUBSTR(zip,1,5) leaves unchanged: NULL or at most five characters. */
  predicate ShortZip(zip: Option<string>)
  {
    zip.None? || |zip.value| <= 5
  }

  /** On a zip code of at most five characters, the raw join key is the staged one. */
  lemma RawKeyIsStagedKey(city: Option<string>, state: Option<string>, zip: Option<string>)
    ensures ShortZip(zip) <==> RawAddressKey(city, state, zip) == StagedAddressKey(city, state, zip)
  {
    if !ShortZip(zip) {
      assert |RawAddressKey(city, state, zip).zipcode| > 5;
    }
  }

  /**
   * A zip code longer than five characters never matches a dim_address whose
   * zip codes, like those stg_address stages, have at most five: the as-written
   * joins miss it.
   */
  lemma LongZipNeverMatches(address: seq<Row<Address>>, city: Option<string>, state: Option<string>, zip: Option<string>)
    requires !ShortZip(zip)
    requires forall i :: 0 <= i < |address| ==> |address[i].attrs.zipcode| <= 5
    ensures !HasKey(address, AddressKey, RawAddressKey(city, state, zip))
    ensures AddressFkAsWritten(address, RawAddressKey(city, state, zip)).None?
  {
  }

  // ---------------------------------------------------------------------------
  // fact_accident
  // ---------------------------------------------------------------------------

  /** The seventeen accident-condition columns of stg_accident, each nullable. */
  datatype AccCondColumns = AccCondColumns(
    amenity: Option<bool>, bump: Option<bool>, crossing: Option<bool>, giveWay: Option<bool>,
    junction: Option<bool>, noExit: Option<bool>, railway: Option<bool>, roundabout: Option<bool>,
    station: Option<bool>, stop: Option<bool>, trafficCalming: Option<bool>, trafficSignal: Option<bool>,
    turningLoop: Option<bool>,
    sunriseSunset: Option<string>, civilTwilight: Option<string>, nauticalTwilight: Option<string>,
    astronomicalTwilight: Option<string>)

  /** The dim_acc_cond join key: flags default to False, daylight columns to ''. */
  function AccCondJoinKey(c: AccCondColumns): AccCond
  {
    AccCond(Coalesce(c.amenity, false), Coalesce(c.bump, false), Coalesce(c.crossing, false),
            Coalesce(c.giveWay, false), Coalesce(c.junction, false), Coalesce(c.noExit, false),
            Coalesce(c.railway, false), Coalesce(c.roundabout, false), Coalesce(c.station, false),
            Coalesce(c.stop, false), Coalesce(c.trafficCalming, false), Coalesce(c.trafficSignal, false),
            Coalesce(c.turningLoop, false),
            Coalesce(c.sunriseSunset, ""), Coalesce(c.civilTwilight, ""), Coalesce(c.nauticalTwilight, ""),
            Coalesce(c.astronomicalTwilight, ""))
  }

  /** The columns of stg_accident the load reads, other than measures carried through. */
  datatype AccidentStg = AccidentStg(
    id: string, source: Option<string>,
    city: Option<string>, state: Option<string>, zipcode: Option<string>,
    airportCode: Option<string>, windDirection: Option<string>, weatherCondition: Option<string>,
    conditions: AccCondColumns,
    startTime: Option<Timestamp>, endTime: Option<Timestamp>, weatherTimestamp: Option<Timestamp>)

  /** The keys of a fact_accident row; Accident_ID is its natural key. */
  datatype FactAccident = FactAccident(
    sourceFk: int, addressFk: int, airportFk: int, weatherCondFk: int, accCondFk: int,
    startDateFk: Option<int>, startTimeFk: Option<int>,
    endDateFk: Option<int>, endTimeFk: Option<int>,
    weatherDateFk: Option<int>, weatherTimeFk: Option<int>,
    accidentId: string)

  /** The dimension tables the accident load joins, as they stand when it runs. */
  datatype AccidentDims = AccidentDims(
    source: seq<Row<string>>, address: seq<Row<Address>>, airport: seq<Row<Airport>>,
    weather: seq<Row<WeatherCond>>, accCond: seq<Row<AccCond>>, time: seq<Row<DimTime.TimeAttrs>>)

  function AccidentIdOf(f: FactAccident): string { f.accidentId }
  function AccidentStgId(s: AccidentStg): string { s.id }

  /** The SELECT list of the accident load for one staging row, with the intended Address_FK. */
  function ProjectAccident(d: AccidentDims, s: AccidentStg): (f: FactAccident)
    ensures f.accidentId == s.id
    ensures var k := Coalesce(s.source, "");
            if HasKey(d.source, NameKey, k) then SkOfKey(d.source, NameKey, k, f.sourceFk) else f.sourceFk == -1
    ensures var k := StagedAddressKey(s.city, s.state, s.zipcode);
            if HasKey(d.address, AddressKey, k) then SkOfKey(d.address, AddressKey, k, f.addressFk) else f.addressFk == -1
    ensures var k := Coalesce(s.airportCode, "");
            if HasKey(d.airport, AirportKey, k) then SkOfKey(d.airport, AirportKey, k, f.airportFk) else f.airportFk == -1
    ensures var k := WeatherCond(Coalesce(s.windDirection, ""), Coalesce(s.weatherCondition, ""));
            if HasKey(d.weather, WeatherCondKey, k) then SkOfKey(d.weather, WeatherCondKey, k, f.weatherCondFk) else f.weatherCondFk == -1
    ensures var k := AccCondJoinKey(s.conditions);
            if HasKey(d.accCond, AccCondKey, k) then SkOfKey(d.accCond, AccCondKey, k, f.accCondFk) else f.accCondFk == -1
    ensures f.startDateFk == DateFk(s.startTime) && f.endDateFk == DateFk(s.endTime)
            && f.weatherDateFk == DateFk(s.weatherTimestamp)
    ensures f.startTimeFk == TimeFk(d.time, s.startTime) && f.endTimeFk == TimeFk(d.time, s.endTime)
            && f.weatherTimeFk == TimeFk(d.time, s.weatherTimestamp)
  {
    FactAccident(
      ResolveFk(d.source, NameKey, Coalesce(s.source, "")),
      AddressFk(d.address, StagedAddressKey(s.city, s.state, s.zipcode)),
      ResolveFk(d.airport, AirportKey, Coalesce(s.airportCode, "")),
      ResolveFk(d.weather, WeatherCondKey, WeatherCond(Coalesce(s.windDirection, ""), Coalesce(s.weatherCondition, ""))),
      ResolveFk(d.accCond, AccCondKey, AccCondJoinKey(s.conditions)),
      DateFk(s.startTime), TimeFk(d.time, s.startTime),
      DateFk(s.endTime), TimeFk(d.time, s.endTime),
      DateFk(s.weatherTimestamp), TimeFk(d.time, s.weatherTimestamp),
      s.id)
  }

  /** The projection the load applies to every new staging row. */
  function AccidentProjector(d: AccidentDims): AccidentStg -> FactAccident
  {
    s => ProjectAccident(d, s)
  }

  /**
   * INSERT_UPDATE_FACT_ACCIDENT_SQL: the staging accidents whose ID is not yet
   * an Accident_ID are appended, numbered from the largest Accident_SK.
   */
  method LoadFactAccident(fact: Table<FactAccident, string>, stg: seq<AccidentStg>, d: AccidentDims)
    requires fact.key == AccidentIdOf
    requires WellKeyed(fact.rows, AccidentIdOf) && UniqueStagingKeys(stg, AccidentStgId)
    modifies fact
    ensures fact.rows == Load(old(fact.rows), AccidentIdOf, stg, AccidentStgId, AccidentProjector(d))
    ensures WellKeyed(fact.rows, AccidentIdOf)
    ensures forall s :: s in stg ==> HasKey(fact.rows, AccidentIdOf, s.id)
  {
    LoadKeepsWellKeyed(fact.rows, AccidentIdOf, stg, AccidentStgId, AccidentProjector(d));
    fact.InsertAbsent(stg, AccidentStgId, AccidentProjector(d));
  }

  /** A second run on the same staging accidents inserts nothing. */
  lemma FactAccidentReloadNoop(rows: seq<Row<FactAccident>>, stg: seq<AccidentStg>, d: AccidentDims, d2: AccidentDims)
    ensures var once := Load(rows, AccidentIdOf, stg, AccidentStgId, AccidentProjector(d));
            Load(once, AccidentIdOf, stg, AccidentStgId, AccidentProjector(d2)) == once
  {
    LoadIdempotent(rows, AccidentIdOf, stg, AccidentStgId, AccidentProjector(d), AccidentProjector(d2));
  }

  /** Address_FK of the accident load as written: COALESCE(dim_add.Address_SK-1) joined on the raw zip. */
  function AccidentAddressFkAsWritten(d: AccidentDims, s: AccidentStg): (r: Option<int>)
    ensures var k := RawAddressKey(s.city, s.state, s.zipcode);
            (r.None? <==> !HasKey(d.address, AddressKey, k)) && (r.Some? ==> SkOfKey(d.address, AddressKey, k, r.value + 1))
  {
    AddressFkAsWritten(d.address, RawAddressKey(s.city, s.state, s.zipcode))
  }

  /**
   * Where the two joins agree (a zip of at most five characters), the address
   * key the accident load writes is NULL when the loaded row has -1, and one
   * below the loaded key otherwise.
   */
  lemma AccidentAddressFkAsWrittenAgrees(d: AccidentDims, s: AccidentStg)
    requires ShortZip(s.zipcode)
    ensures var f := ProjectAccident(d, s);
            AccidentAddressFkAsWritten(d, s) == if HasKey(d.address, AddressKey, StagedAddressKey(s.city, s.state, s.zipcode))
                                               then Some(f.addressFk - 1) else None
  {
    RawKeyIsStagedKey(s.city, s.state, s.zipcode);
  }

  // ---------------------------------------------------------------------------
  // fact_trip
  // ---------------------------------------------------------------------------

  /** The columns of stg_trip the load reads, other than measures carried through. */
  datatype TripStg = TripStg(
    id: string, providerName: Option<string>,
    originCity: Option<string>, originState: Option<string>, originZip: Option<string>,
    destinationCity: Option<string>, destinationState: Option<string>, destinationZip: Option<string>,
    startDateTime: Option<Timestamp>, dateCreated: Option<Timestamp>,
    startDateTime1: Option<Timestamp>, endDateTime: Option<Timestamp>)

  /** The keys of a fact_trip row; Trip_ID is its natural key. */
  datatype FactTrip = FactTrip(
    providerFk: int, originAddressFk: int, destinationAddressFk: int,
    startDateFk: Option<int>, startTimeFk: Option<int>,
    dateCreatedDateFk: Option<int>, dateCreatedTimeFk: Option<int>,
    start1DateFk: Option<int>, start1TimeFk: Option<int>,
    endDateFk: Option<int>, endTimeFk: Option<int>,
    tripId: string)

  /** The dimension tables the trip load joins. */
  datatype TripDims = TripDims(provider: seq<Row<string>>, address: seq<Row<Address>>, time: seq<Row<DimTime.TimeAttrs>>)

  function TripIdOf(f: FactTrip): string { f.tripId }
  function TripStgId(s: TripStg): string { s.id }

  /** The SELECT list of the trip load for one staging row, with the intended address keys. */
  function ProjectTrip(d: TripDims, s: TripStg): (f: FactTrip)
    ensures f.tripId == s.id
    ensures var k := Coalesce(s.providerName, "");
            if HasKey(d.provider, NameKey, k) then SkOfKey(d.provider, NameKey, k, f.providerFk) else f.providerFk == -1
    ensures var k := StagedAddressKey(s.originCity, s.originState, s.originZip);
            if HasKey(d.address, AddressKey, k) then SkOfKey(d.address, AddressKey, k, f.originAddressFk) else f.originAddressFk == -1
    ensures var k := StagedAddressKey(s.destinationCity, s.destinationState, s.destinationZip);
            if HasKey(d.address, AddressKey, k) then SkOfKey(d.address, AddressKey, k, f.destinationAddressFk) else f.destinationAddressFk == -1
    ensures f.startDateFk == DateFk(s.startDateTime) && f.endDateFk == DateFk(s.endDateTime)
            && f.dateCreatedDateFk == DateFk(s.dateCreated) && f.start1DateFk == DateFk(s.startDateTime1)
    ensures f.startTimeFk == TimeFk(d.time, s.startDateTime) && f.dateCreatedTimeFk == TimeFk(d.time, s.dateCreated)
            && f.start1TimeFk == TimeFk(d.time, s.startDateTime1) && f.endTimeFk == TimeFk(d.time, s.endDateTime)
  {
    FactTrip(
      ResolveFk(d.provider, NameKey, Coalesce(s.providerName, "")),
      AddressFk(d.address, StagedAddressKey(s.originCity, s.originState, s.originZip)),
      AddressFk(d.address, StagedAddressKey(s.destinationCity, s.destinationState, s.destinationZip)),
      DateFk(s.startDateTime), TimeFk(d.time, s.startDateTime),
      DateFk(s.dateCreated), TimeFk(d.time, s.dateCreated),
      DateFk(s.startDateTime1), TimeFk(d.time, s.startDateTime1),
      DateFk(s.endDateTime), TimeFk(d.time, s.endDateTime),
      s.id)
  }

  function TripProjector(d: TripDims): TripStg -> FactTrip
  {
    s => ProjectTrip(d, s)
  }

  /**
   * INSERT_UPDATE_FACT_TRIP_SQL: the staging trips whose ID is not yet a
   * Trip_ID are appended, numbered from the largest Trip_SK.
   */
  method LoadFactTrip(fact: Table<FactTrip, string>, stg: seq<TripStg>, d: TripDims)
    requires fact.key == TripIdOf
    requires WellKeyed(fact.rows, TripIdOf) && UniqueStagingKeys(stg, TripStgId)
    modifies fact
    ensures fact.rows == Load(old(fact.rows), TripIdOf, stg, TripStgId, TripProjector(d))
    ensures WellKeyed(fact.rows, TripIdOf)
    ensures forall s :: s in stg ==> HasKey(fact.rows, TripIdOf, s.id)
  {
    LoadKeepsWellKeyed(fact.rows, TripIdOf, stg, TripStgId, TripProjector(d));
    fact.InsertAbsent(stg, TripStgId, TripProjector(d));
  }

  /** Origin_Address_FK or Destination_Address_FK as written: COALESCE(dim_add.Address_SK,-1) joined on the raw zip. */
  function TripAddressFkAsWritten(address: seq<Row<Address>>, city: Option<string>, state: Option<string>, zip: Option<string>): (r: int)
    ensures var k := RawAddressKey(city, state, zip);
            (!HasKey(address, AddressKey, k) ==> r == -1) && (HasKey(address, AddressKey, k) ==> SkOfKey(address, AddressKey, k, r))
  {
    ResolveFk(address, AddressKey, RawAddressKey(city, state, zip))
  }

  /**
   * The trip load's address keys as written equal the loaded ones whenever the
   * zip code has at most five characters, the only zips stg_address keeps.
   */
  lemma TripAddressFksAsWrittenAgree(d: TripDims, s: TripStg)
    ensures ShortZip(s.originZip) ==>
            TripAddressFkAsWritten(d.address, s.originCity, s.originState, s.originZip) == ProjectTrip(d, s).originAddressFk
    ensures ShortZip(s.destinationZip) ==>
            TripAddressFkAsWritten(d.address, s.destinationCity, s.destinationState, s.destinationZip) == ProjectTrip(d, s).destinationAddressFk
  {
    RawKeyIsStagedKey(s.originCity, s.originState, s.originZip);
    RawKeyIsStagedKey(s.destinationCity, s.destinationState, s.destinationZip);
  }
}
