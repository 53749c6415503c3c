// The rows of the three raw tables and the constraints their migrations declare.
module Rows {
  import opened Prelude

  datatype Source = CarbonIntensity | GenerationMix | AgilePrice

  // Natural keys: (region_id, period_start_utc), or period_start_utc alone for the mix.
  datatype Key =
    | RegionKey(region: int, start: int)
    | PeriodKey(start: int)

  datatype Fuels = Fuels(gas: real, coal: real, nuclear: real, wind: real, windEmbedded: real, hydro: real,
                         imports: real, biomass: real, other: real, solar: real, storage: real)

  // The columns outside the key, without ingested_at_utc.
  datatype Data =
    | Carbon(end: int, forecast: int, actual: Option<int>, index: string)
    | Mix(fuels: Fuels, total: real, nesoIntensity: real)
    | Price(end: int, incVat: real, excVat: real)

  datatype Row = Row(key: Key, data: Data)

  predicate SmallInt(n: int) {
    -0x8000 <= n < 0x8000
  }

  predicate KnownIndex(index: string) {
    index in ["very low", "low", "moderate", "high", "very high"]
  }

  // What Postgres accepts into each raw table: the column types, the CHECKs and the
  // foreign key to ref.dno_region, whose seed is regions 0..14.
  predicate Admissible(src: Source, row: Row) {
    match src
    case CarbonIntensity =>
      && row.key.RegionKey? && row.data.Carbon?
      && 0 <= row.key.region <= 14
      && row.data.end > row.key.start
      && KnownIndex(row.data.index)
      && SmallInt(row.data.forecast)
      && (row.data.actual.Some? ==> SmallInt(row.data.actual.value))
    case GenerationMix =>
      row.key.PeriodKey? && row.data.Mix?
    case AgilePrice =>
      && row.key.RegionKey? && row.data.Price?
      && 1 <= row.key.region <= 14
      && row.data.end > row.key.start
  }

  predicate AllAdmissible(src: Source, rows: seq<Row>) {
    forall i :: 0 <= i < |rows| ==> Admissible(src, rows[i])
  }
}
