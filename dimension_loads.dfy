/**
 * The six dimension and lookup loads of CORE_DB (INSERT_UPDATE_DIM_ADDRESS_SQL,
 * ..._DIM_ACC_COND_SQL, ..._DIM_AIRPORT_SQL, ..._DIM_WTHR_COND_SQL,
 * INSERT_UPDATE_LKP_PROVIDER_SQL, INSERT_UPDATE_LKP_SOURCE_SQL). Each copies
 * the staging rows whose natural key is not yet in the target, numbering them
 * from the target's largest surrogate key.
 *
 * The staging tables' primary keys make their key columns NOT NULL, so the
 * COALESCE(x, '') and COALESCE(x, 'False') on both sides of each join compare
 * plain values here: a dimension row's natural-key columns are never NULL.
 * The staging sequence is taken to be in the order of the ROW_NUMBER() window.
 */
module DimensionLoads {
  import opened Sql
  import opened CoreTable
  import opened StageAddress

  /** A row of stg_accident_condition / dim_acc_cond: 13 road-feature flags and 4 daylight columns. */
  datatype AccCond = AccCond(
    amenity: bool, bump: bool, crossing: bool, giveWay: bool, junction: bool, noExit: bool,
    railway: bool, roundabout: bool, station: bool, stop: bool, trafficCalming: bool,
    trafficSignal: bool, turningLoop: bool,
    sunriseSunset: string, civilTwilight: string, nauticalTwilight: string, astronomicalTwilight: string)

  /** A row of stg_airport / dim_airport: only ID is in the primary key. */
  datatype Airport = Airport(id: string, city: Option<string>, name: Option<string>)

  /** A row of stg_weather_condition / dim_wthr_cond. */
  datatype WeatherCond = WeatherCond(windDirection: string, weatherCondition: string)

  // Natural keys (the join columns) and the row copy of each load.

  function AddressKey(a: Address): Address { a }
  function AccCondKey(c: AccCond): AccCond { c }
  function WeatherCondKey(w: WeatherCond): WeatherCond { w }
  function NameKey(n: string): string { n }
  function AirportKey(a: Airport): string { a.id }
  function CopyAirport(a: Airport): Airport { a }

  /** INSERT_UPDATE_DIM_ADDRESS_SQL: joined on (City, State, Zipcode). */
  method LoadDimAddress(dim: Table<Address, Address>, stg: seq<Address>)
    requires dim.key == AddressKey
    requires WellKeyed(dim.rows, AddressKey) && UniqueStagingKeys(stg, AddressKey)
    modifies dim
    ensures dim.rows == Load(old(dim.rows), AddressKey, stg, AddressKey, AddressKey)
    ensures WellKeyed(dim.rows, AddressKey)
    ensures forall a :: a in stg ==> HasKey(dim.rows, AddressKey, a)
  {
    LoadKeepsWellKeyed(dim.rows, AddressKey, stg, AddressKey, AddressKey);
    dim.InsertAbsent(stg, AddressKey, AddressKey);
  }

  /** INSERT_UPDATE_DIM_ACC_COND_SQL: joined on all seventeen columns. */
  method LoadDimAccCond(dim: Table<AccCond, AccCond>, stg: seq<AccCond>)
    requires dim.key == AccCondKey
    requires WellKeyed(dim.rows, AccCondKey) && UniqueStagingKeys(stg, AccCondKey)
    modifies dim
    ensures dim.rows == Load(old(dim.rows), AccCondKey, stg, AccCondKey, AccCondKey)
    ensures WellKeyed(dim.rows, AccCondKey)
    ensures forall c :: c in stg ==> HasKey(dim.rows, AccCondKey, c)
  {
    LoadKeepsWellKeyed(dim.rows, AccCondKey, stg, AccCondKey, AccCondKey);
    dim.InsertAbsent(stg, AccCondKey, AccCondKey);
  }

  /** INSERT_UPDATE_DIM_AIRPORT_SQL: joined on ID alone; City and Name are copied. */
  method LoadDimAirport(dim: Table<Airport, string>, stg: seq<Airport>)
    requires dim.key == AirportKey
    requires WellKeyed(dim.rows, AirportKey) && UniqueStagingKeys(stg, AirportKey)
    modifies dim
    ensures dim.rows == Load(old(dim.rows), AirportKey, stg, AirportKey, CopyAirport)
    ensures WellKeyed(dim.rows, AirportKey)
    ensures forall a :: a in stg ==> HasKey(dim.rows, AirportKey, a.id)
  {
    LoadKeepsWellKeyed(dim.rows, AirportKey, stg, AirportKey, CopyAirport);
    dim.InsertAbsent(stg, AirportKey, CopyAirport);
  }

  /** INSERT_UPDATE_DIM_WTHR_COND_SQL: joined on (Wind_Direction, Weather_Condition). */
  method LoadDimWthrCond(dim: Table<WeatherCond, WeatherCond>, stg: seq<WeatherCond>)
    requires dim.key == WeatherCondKey
    requires WellKeyed(dim.rows, WeatherCondKey) && UniqueStagingKeys(stg, WeatherCondKey)
    modifies dim
    ensures dim.rows == Load(old(dim.rows), WeatherCondKey, stg, WeatherCondKey, WeatherCondKey)
    ensures WellKeyed(dim.rows, WeatherCondKey)
    ensures forall w :: w in stg ==> HasKey(dim.rows, WeatherCondKey, w)
  {
    LoadKeepsWellKeyed(dim.rows, WeatherCondKey, stg, WeatherCondKey, WeatherCondKey);
    dim.InsertAbsent(stg, WeatherCondKey, WeatherCondKey);
  }

  /** INSERT_UPDATE_LKP_PROVIDER_SQL: joined on Provider_Name. */
  method LoadLkpProvider(lkp: Table<string, string>, stg: seq<string>)
    requires lkp.key == NameKey
    requires WellKeyed(lkp.rows, NameKey) && UniqueStagingKeys(stg, NameKey)
    modifies lkp
    ensures lkp.rows == Load(old(lkp.rows), NameKey, stg, NameKey, NameKey)
    ensures WellKeyed(lkp.rows, NameKey)
    ensures forall n :: n in stg ==> HasKey(lkp.rows, NameKey, n)
  {
    LoadKeepsWellKeyed(lkp.rows, NameKey, stg, NameKey, NameKey);
    lkp.InsertAbsent(stg, NameKey, NameKey);
  }

  /** INSERT_UPDATE_LKP_SOURCE_SQL: joined on Source_Name. */
  method LoadLkpSource(lkp: Table<string, string>, stg: seq<string>)
    requires lkp.key == NameKey
    requires WellKeyed(lkp.rows, NameKey) && UniqueStagingKeys(stg, NameKey)
    modifies lkp
    ensures lkp.rows == Load(old(lkp.rows), NameKey, stg, NameKey, NameKey)
    ensures WellKeyed(lkp.rows, NameKey)
    ensures forall n :: n in stg ==> HasKey(lkp.rows, NameKey, n)
  {
    LoadKeepsWellKeyed(lkp.rows, NameKey, stg, NameKey, NameKey);
    lkp.InsertAbsent(stg, NameKey, NameKey);
  }

  /**
   * Running the address load a second time on the same staging rows inserts
   * nothing; the same holds for the other five loads, which share the shape.
   */
  lemma DimAddressReloadNoop(rows: seq<Row<Address>>, stg: seq<Address>)
    ensures var once := Load(rows, AddressKey, stg, AddressKey, AddressKey);
            Load(once, AddressKey, stg, AddressKey, AddressKey) == once
  {
    LoadIdempotent(rows, AddressKey, stg, AddressKey, AddressKey, AddressKey);
  }

  /** The airport load keeps the first City and Name seen for an ID: a later run never rewrites them. */
  lemma DimAirportKeepsExisting(rows: seq<Row<Airport>>, stg: seq<Airport>)
    ensures Load(rows, AirportKey, stg, AirportKey, CopyAirport)[..|rows|] == rows
    ensures forall a :: a in stg && HasKey(rows, AirportKey, a.id) ==>
      a !in AntiJoin(rows, AirportKey, stg, AirportKey)
  {
    AntiJoinSelects(rows, AirportKey, stg, AirportKey);
  }
}
