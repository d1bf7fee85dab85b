/**
 * The tables the analysis queries read. Only the columns some query
 * computes with are modelled; the remaining columns of each table are
 * copied through unchanged by `SELECT *` or the projection list and do not
 * affect any result.
 */
module Schema {
  import opened Wrappers

  /** One row of `aircraft_states`; `timePosition` is in epoch seconds. */
  datatype StateRow = StateRow(
    icao24: Option<string>,
    timePosition: Option<int>,
    baroAltitude: Option<real>,
    onGround: Option<bool>,
    velocity: Option<real>,
    verticalRate: Option<real>)

  /** One row of `airframes` (static reference data keyed by `icao24`). */
  datatype AirframeRow = AirframeRow(
    icao24: Option<string>,
    typecode: Option<string>,
    icaoAircraftType: Option<string>)

  /** One row of `model_database` (static reference data keyed by `Designator`). */
  datatype ModelRow = ModelRow(
    designator: Option<string>,
    modelFullName: Option<string>)

  /**
   * One row of `enriched_aircraft_states`: the state columns, the matched
   * airframe and model rows (`None` when the LEFT JOIN found nothing, so
   * that all their columns read NULL) and the two derived columns.
   */
  datatype EnrichedRow = EnrichedRow(
    state: StateRow,
    airframe: Option<AirframeRow>,
    model: Option<ModelRow>,
    climbRateRatio: Option<real>,
    altitudeKm: Option<real>)
  {
    /** The `typecode` column: NULL when no airframe matched. */
    function Typecode(): Option<string> {
      if airframe.Some? then airframe.value.typecode else None
    }

    /** The `icaoaircrafttype` column. */
    function IcaoAircraftType(): Option<string> {
      if airframe.Some? then airframe.value.icaoAircraftType else None
    }

    /** The `ModelFullName` column. */
    function ModelFullName(): Option<string> {
      if model.Some? then model.value.modelFullName else None
    }
  }
}
