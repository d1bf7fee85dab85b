/**
 * The population-baseline engine (src/Db_work/transform.py).
 *
 * `create_enriched_aircraft_table` left-joins every state row to its
 * airframe and aircraft-model reference rows and derives two guarded
 * columns; `create_anomaly_features_table` computes per-type statistics
 * over groups of at least ten complete observations; `flag_anomalies`
 * compares every observation with each baseline of its type.
 *
 * The engine's STDDEV aggregate is a parameter `sd`; the only facts used of
 * it are those of `IsStddev`, where a lemma needs them.
 */
module Transform {
  import opened Wrappers
  import opened Sql
  import opened Schema
  import Sorting

  // ---------------------------------------------------------------------
  // create_enriched_aircraft_table
  // ---------------------------------------------------------------------

  /** The airframes for which `s.icao24 = af.icao24` is TRUE (never for a NULL key). */
  function AirframeMatches(s: StateRow, airframes: seq<AirframeRow>): (r: seq<AirframeRow>)
    ensures forall af :: af in r <==> af in airframes && When(Eq(s.icao24, af.icao24))
  {
    if airframes == [] then []
    else (if When(Eq(s.icao24, airframes[0].icao24)) then [airframes[0]] else [])
         + AirframeMatches(s, airframes[1..])
  }

  /** `af.typecode = md.Designator OR af.icaoaircrafttype = md.Designator` */
  predicate ModelJoin(af: AirframeRow, md: ModelRow) {
    When(Or(Eq(af.typecode, md.designator), Eq(af.icaoAircraftType, md.designator)))
  }

  /** The model rows that join an airframe. */
  function ModelMatches(af: AirframeRow, models: seq<ModelRow>): (r: seq<ModelRow>)
    ensures forall md :: md in r <==> md in models && ModelJoin(af, md)
  {
    if models == [] then []
    else (if ModelJoin(af, models[0]) then [models[0]] else []) + ModelMatches(af, models[1..])
  }

  /** `NULLIF(a, 0)` */
  function NullIfZero(a: Option<real>): (r: Option<real>)
    ensures r.Some? <==> a.Some? && a.value != 0.0
    ensures r.Some? ==> r.value == a.value
  {
    if a.Some? && a.value != 0.0 then a else None
  }

  /** `a / b` where `b` is never a non-null zero. */
  function Div(a: Option<real>, b: Option<real>): (r: Option<real>)
    requires b.Some? ==> b.value != 0.0
    ensures r.Some? <==> a.Some? && b.Some?
    ensures r.Some? ==> r.value == a.value / b.value
  {
    if a.Some? && b.Some? then Some(a.value / b.value) else None
  }

  /**
   * `climb_rate_ratio`: `|vertical_rate| / velocity` only for a positive
   * velocity and a positive barometric altitude, otherwise NULL.
   */
  function ClimbRateRatio(s: StateRow): (r: Option<real>)
    ensures r.Some? <==> && s.velocity.Some? && s.velocity.value > 0.0
                         && s.baroAltitude.Some? && s.baroAltitude.value > 0.0
                         && s.verticalRate.Some?
    ensures r.Some? ==> r.value == AbsReal(s.verticalRate.value) / s.velocity.value
  {
    if When(And(Gt(s.velocity, Some(0.0)), Gt(s.baroAltitude, Some(0.0)))) then
      Div(Abs(s.verticalRate), NullIfZero(s.velocity))
    else None
  }

  /** `altitude_km`: the barometric altitude in km when it is positive, otherwise NULL. */
  function AltitudeKm(s: StateRow): (r: Option<real>)
    ensures r.Some? <==> s.baroAltitude.Some? && s.baroAltitude.value > 0.0
    ensures r.Some? ==> r.value * 1000.0 == s.baroAltitude.value
  {
    if When(And(Some(IsNotNull(s.baroAltitude)), Gt(s.baroAltitude, Some(0.0)))) then
      Some(s.baroAltitude.value / 1000.0)
    else None
  }

  function Enriched(s: StateRow, af: Option<AirframeRow>, md: Option<ModelRow>): EnrichedRow {
    EnrichedRow(s, af, md, ClimbRateRatio(s), AltitudeKm(s))
  }

  /** The second LEFT JOIN for the state `s` already joined to each of `afs`. */
  function JoinModels(s: StateRow, afs: seq<AirframeRow>, models: seq<ModelRow>): (r: seq<EnrichedRow>)
    ensures |r| >= |afs|
    ensures forall e :: e in r ==> && e.state == s && e.airframe.Some? && e.airframe.value in afs
                                   && e.climbRateRatio == ClimbRateRatio(s) && e.altitudeKm == AltitudeKm(s)
                                   && (e.model.Some? ==> e.model.value in models && ModelJoin(e.airframe.value, e.model.value))
                                   && (e.model.None? ==> ModelMatches(e.airframe.value, models) == [])
    ensures forall af, md :: af in afs && md in models && ModelJoin(af, md) ==> Enriched(s, Some(af), Some(md)) in r
    ensures forall af :: af in afs && ModelMatches(af, models) == [] ==> Enriched(s, Some(af), None) in r
  {
    if afs == [] then []
    else
      var af := afs[0];
      var ms := ModelMatches(af, models);
      var here := AirframeRows(s, af, models);
      assert forall md :: md in ms ==> Enriched(s, Some(af), Some(md)) in here by {
        forall md | md in ms ensures Enriched(s, Some(af), Some(md)) in here {
          var i :| 0 <= i < |ms| && ms[i] == md;
          assert here[i] == Enriched(s, Some(af), Some(md));
        }
      }
      here + JoinModels(s, afs[1..], models)
  }

  /** The rows the state `s` yields through the one airframe `af`: one per joining model, or one without a model. */
  function AirframeRows(s: StateRow, af: AirframeRow, models: seq<ModelRow>): seq<EnrichedRow> {
    var ms := ModelMatches(af, models);
    if ms == [] then [Enriched(s, Some(af), None)] else ModelRows(s, af, ms)
  }

  /** The state `s` joined to the airframe `af` and to each of the model rows `ms`, in order. */
  function ModelRows(s: StateRow, af: AirframeRow, ms: seq<ModelRow>): (r: seq<EnrichedRow>)
    ensures |r| == |ms|
    ensures forall i :: 0 <= i < |ms| ==> r[i] == Enriched(s, Some(af), Some(ms[i]))
  {
    if ms == [] then [] else [Enriched(s, Some(af), Some(ms[0]))] + ModelRows(s, af, ms[1..])
  }

  /** The enriched rows one state row yields. */
  function EnrichState(s: StateRow, airframes: seq<AirframeRow>, models: seq<ModelRow>): (r: seq<EnrichedRow>)
    ensures |r| >= 1
    ensures forall e :: e in r ==> e.state == s && e.climbRateRatio == ClimbRateRatio(s) && e.altitudeKm == AltitudeKm(s)
    ensures AirframeMatches(s, airframes) == [] ==> r == [Enriched(s, None, None)]
    ensures forall e :: e in r && e.airframe.Some? ==> e.airframe.value in AirframeMatches(s, airframes)
    ensures forall e :: e in r && e.model.Some? ==>
              e.airframe.Some? && e.model.value in models && ModelJoin(e.airframe.value, e.model.value)
    ensures forall e :: e in r && e.airframe.Some? && e.model.None? ==> ModelMatches(e.airframe.value, models) == []
    ensures forall af, md :: (af in AirframeMatches(s, airframes) && md in models && ModelJoin(af, md)) ==>
              Enriched(s, Some(af), Some(md)) in r
    ensures AirframeMatches(s, airframes) != [] ==> forall e :: e in r ==> e.airframe.Some?
    ensures forall af :: af in AirframeMatches(s, airframes) && ModelMatches(af, models) == [] ==>
              Enriched(s, Some(af), None) in r
  {
    var afs := AirframeMatches(s, airframes);
    if afs == [] then [Enriched(s, None, None)] else JoinModels(s, afs, models)
  }

  /** `create_enriched_aircraft_table`, state rows in input order. */
  function CreateEnriched(states: seq<StateRow>, airframes: seq<AirframeRow>, models: seq<ModelRow>): (r: seq<EnrichedRow>)
    ensures forall e :: e in r <==> exists i :: 0 <= i < |states| && e in EnrichState(states[i], airframes, models)
    ensures |r| >= |states|
  {
    if states == [] then []
    else
      var rest := CreateEnriched(states[1..], airframes, models);
      EnrichedMembersCons(states, airframes, models, rest);
      EnrichState(states[0], airframes, models) + rest
  }

  /** The rows of the first state row followed by those of the others are the rows of all of them. */
  lemma EnrichedMembersCons(states: seq<StateRow>, airframes: seq<AirframeRow>, models: seq<ModelRow>,
                            rest: seq<EnrichedRow>)
    requires states != []
    requires forall e :: e in rest <==> exists i :: 0 <= i < |states[1..]| && e in EnrichState(states[1..][i], airframes, models)
    ensures forall e :: e in EnrichState(states[0], airframes, models) + rest <==>
              exists i :: 0 <= i < |states| && e in EnrichState(states[i], airframes, models)
  {
    assert forall i :: 0 < i < |states| ==> states[i] == states[1..][i - 1];
  }

  /** Some row of `r` carries state row `s`. */
  ghost predicate HasRowFor(r: seq<EnrichedRow>, s: StateRow) {
    exists e :: e in r && e.state == s
  }

  /**
   * The join keeps every state row at least once and invents none, and each
   * enriched row carries its own state's derived columns.
   */
  lemma EnrichmentKeepsEveryState(states: seq<StateRow>, airframes: seq<AirframeRow>, models: seq<ModelRow>)
    ensures var r := CreateEnriched(states, airframes, models);
      && (forall i :: 0 <= i < |states| ==> HasRowFor(r, states[i]))
      && (forall e :: e in r ==> e.state in states)
      && (forall e :: e in r ==> e.climbRateRatio == ClimbRateRatio(e.state) && e.altitudeKm == AltitudeKm(e.state))
  {
    EveryStateIsEnriched(states, airframes, models);
    EnrichedRowsComeFromStates(states, airframes, models);
  }

  lemma EveryStateIsEnriched(states: seq<StateRow>, airframes: seq<AirframeRow>, models: seq<ModelRow>)
    ensures forall i :: 0 <= i < |states| ==> HasRowFor(CreateEnriched(states, airframes, models), states[i])
  {
    forall i | 0 <= i < |states|
      ensures HasRowFor(CreateEnriched(states, airframes, models), states[i])
    {
      var e := StateRowIsEnriched(states, airframes, models, i);
    }
  }

  lemma EnrichedRowsComeFromStates(states: seq<StateRow>, airframes: seq<AirframeRow>, models: seq<ModelRow>)
    ensures var r := CreateEnriched(states, airframes, models);
      forall e :: e in r ==>
        e.state in states && e.climbRateRatio == ClimbRateRatio(e.state) && e.altitudeKm == AltitudeKm(e.state)
  {
    var r := CreateEnriched(states, airframes, models);
    forall e | e in r
      ensures e.state in states
      ensures e.climbRateRatio == ClimbRateRatio(e.state) && e.altitudeKm == AltitudeKm(e.state)
    {
      var i :| 0 <= i < |states| && e in EnrichState(states[i], airframes, models);
    }
  }

  /** The first row a state yields is in the enriched table. */
  lemma StateRowIsEnriched(states: seq<StateRow>, airframes: seq<AirframeRow>, models: seq<ModelRow>, i: nat)
      returns (e: EnrichedRow)
    requires i < |states|
    ensures e in CreateEnriched(states, airframes, models) && e.state == states[i]
  {
    var block := EnrichState(states[i], airframes, models);
    e := block[0];
    assert e in block;
  }

  /**
   * Every enriched row honours both join conditions: a state without an
   * airframe match carries NULL airframe and model columns, an attached
   * airframe satisfies `s.icao24 = af.icao24`, an attached model satisfies
   * the OR condition, and an airframe without a model match carries NULL
   * model columns.
   */
  lemma EnrichedRowsHonourJoins(states: seq<StateRow>, airframes: seq<AirframeRow>, models: seq<ModelRow>)
    ensures var r := CreateEnriched(states, airframes, models);
      && (forall e :: e in r && AirframeMatches(e.state, airframes) == [] ==> e.airframe.None? && e.model.None?)
      && (forall e :: e in r && AirframeMatches(e.state, airframes) != [] ==> e.airframe.Some?)
      && (forall e :: e in r && e.airframe.Some? ==>
            e.airframe.value in airframes && When(Eq(e.state.icao24, e.airframe.value.icao24)))
      && (forall e :: e in r && e.model.Some? ==>
            e.airframe.Some? && e.model.value in models && ModelJoin(e.airframe.value, e.model.value))
      && (forall e :: e in r && e.airframe.Some? && e.model.None? ==> ModelMatches(e.airframe.value, models) == [])
  {
    var r := CreateEnriched(states, airframes, models);
    forall e | e in r
      ensures AirframeMatches(e.state, airframes) == [] ==> e.airframe.None? && e.model.None?
      ensures AirframeMatches(e.state, airframes) != [] ==> e.airframe.Some?
      ensures e.airframe.Some? ==> e.airframe.value in airframes && When(Eq(e.state.icao24, e.airframe.value.icao24))
    {
      var i :| 0 <= i < |states| && e in EnrichState(states[i], airframes, models);
    }
  }

  /** Every pair of matches of both joins appears in the enriched table. */
  lemma EnrichmentIsComplete(states: seq<StateRow>, airframes: seq<AirframeRow>, models: seq<ModelRow>,
                             s: StateRow, af: AirframeRow, md: ModelRow)
    requires s in states && af in airframes && When(Eq(s.icao24, af.icao24))
    requires md in models && ModelJoin(af, md)
    ensures Enriched(s, Some(af), Some(md)) in CreateEnriched(states, airframes, models)
  {
    var i :| 0 <= i < |states| && states[i] == s;
    assert af in AirframeMatches(s, airframes);
    assert Enriched(s, Some(af), Some(md)) in EnrichState(states[i], airframes, models);
  }

  /**
   * An airframe match whose airframe joins no model still yields a row, with
   * the airframe attached and NULL model columns: the second LEFT JOIN never
   * drops the first one's match.
   */
  lemma EnrichmentKeepsAirframeWithoutModel(states: seq<StateRow>, airframes: seq<AirframeRow>, models: seq<ModelRow>,
                                            s: StateRow, af: AirframeRow)
    requires s in states && af in airframes && When(Eq(s.icao24, af.icao24))
    requires ModelMatches(af, models) == []
    ensures Enriched(s, Some(af), None) in CreateEnriched(states, airframes, models)
  {
    var i :| 0 <= i < |states| && states[i] == s;
    assert af in AirframeMatches(s, airframes);
    assert Enriched(s, Some(af), None) in EnrichState(states[i], airframes, models);
  }

  /**
   * `n` copies of a count `k`, i.e. the product `n * k` (`CopiesIsProduct`),
   * unfolded one copy at a time so that bag counts stay linear arithmetic.
   */
  function Copies(n: int, k: int): int
    decreases n
  {
    if n <= 0 then 0 else k + Copies(n - 1, k)
  }

  lemma {:induction false} CopiesIsProduct(n: nat, k: int)
    ensures Copies(n, k) == n * k
  {
    if n > 0 {
      CopiesIsProduct(n - 1, k);
      assert n * k == (n - 1) * k + k;
    }
  }

  lemma {:induction false} CopiesOfNone(n: nat)
    ensures Copies(n, 0) == 0
  {
    if n > 0 {
      CopiesOfNone(n - 1);
    }
  }

  /** The airframe join as a bag: each matching airframe occurrence is kept, the others dropped. */
  lemma {:induction false} AirframeMatchesBag(s: StateRow, airframes: seq<AirframeRow>, af: AirframeRow)
    ensures multiset(AirframeMatches(s, airframes))[af] ==
              if When(Eq(s.icao24, af.icao24)) then multiset(airframes)[af] else 0
  {
    if airframes != [] {
      AirframeMatchesBag(s, airframes[1..], af);
      assert airframes == [airframes[0]] + airframes[1..];
    }
  }

  /** A group's members as a bag: every row of the group as often as it occurs, no other row. */
  lemma {:induction false} MembersBag(rows: seq<EnrichedRow>, k: GroupKey, e: EnrichedRow)
    ensures multiset(Members(rows, k))[e] == if KeyOf(e) == k then multiset(rows)[e] else 0
  {
    if rows != [] {
      MembersBag(rows[1..], k, e);
      assert rows == [rows[0]] + rows[1..];
    }
  }

  /** The model join as a bag: each joining model occurrence is kept, the others dropped. */
  lemma {:induction false} ModelMatchesBag(af: AirframeRow, models: seq<ModelRow>, md: ModelRow)
    ensures multiset(ModelMatches(af, models))[md] == if ModelJoin(af, md) then multiset(models)[md] else 0
  {
    if models != [] {
      ModelMatchesBag(af, models[1..], md);
      assert models == [models[0]] + models[1..];
    }
  }

  /** Each model row of `ms` yields one row joined to it, as often as it occurs. */
  lemma {:induction false} ModelRowsBag(s: StateRow, af: AirframeRow, ms: seq<ModelRow>, md: ModelRow)
    ensures multiset(ModelRows(s, af, ms))[Enriched(s, Some(af), Some(md))] == multiset(ms)[md]
  {
    if ms != [] {
      ModelRowsBag(s, af, ms[1..], md);
      var r := ModelRows(s, af, ms);
      assert r[1..] == ModelRows(s, af, ms[1..]);
      CountCons(r, Enriched(s, Some(af), Some(md)));
      CountCons(ms, md);
    }
  }

  /**
   * The second LEFT JOIN as a bag: each joined airframe occurrence yields one
   * row per joining model occurrence, or exactly one row with NULL model
   * columns when no model joins it.
   */
  lemma {:induction false} JoinModelsBag(s: StateRow, afs: seq<AirframeRow>, models: seq<ModelRow>,
                                         af: AirframeRow, md: ModelRow)
    ensures multiset(JoinModels(s, afs, models))[Enriched(s, Some(af), Some(md))] ==
              Copies(multiset(afs)[af], multiset(ModelMatches(af, models))[md])
    ensures multiset(JoinModels(s, afs, models))[Enriched(s, Some(af), None)] ==
              if ModelMatches(af, models) == [] then multiset(afs)[af] else 0
  {
    if afs != [] {
      JoinModelsBag(s, afs[1..], models, af, md);
      JoinModelsCons(s, afs, models, Enriched(s, Some(af), Some(md)));
      JoinModelsCons(s, afs, models, Enriched(s, Some(af), None));
      CountCons(afs, af);
      AirframeRowsBag(s, afs[0], models, af, md);
    }
  }

  /** The second join is the first airframe's rows followed by the rest's. */
  lemma JoinModelsCons(s: StateRow, afs: seq<AirframeRow>, models: seq<ModelRow>, x: EnrichedRow)
    requires afs != []
    ensures multiset(JoinModels(s, afs, models))[x] ==
              multiset(AirframeRows(s, afs[0], models))[x] + multiset(JoinModels(s, afs[1..], models))[x]
  {
  }

  /** One airframe's rows as a bag: one per joining model occurrence, or a single row without a model. */
  lemma AirframeRowsBag(s: StateRow, a: AirframeRow, models: seq<ModelRow>, af: AirframeRow, md: ModelRow)
    ensures multiset(AirframeRows(s, a, models))[Enriched(s, Some(af), Some(md))] ==
              if a == af then multiset(ModelMatches(af, models))[md] else 0
    ensures multiset(AirframeRows(s, a, models))[Enriched(s, Some(af), None)] ==
              if a == af && ModelMatches(af, models) == [] then 1 else 0
  {
    var ms := ModelMatches(a, models);
    if ms != [] {
      ModelRowsBag(s, a, ms, md);
      ModelRowsOnlyTheirAirframe(s, a, ms, af, md);
    } else if a == af {
      assert md !in ms;
    }
  }

  /** Rows joined to the airframe `a` are never rows of another airframe, nor rows without a model. */
  lemma ModelRowsOnlyTheirAirframe(s: StateRow, a: AirframeRow, ms: seq<ModelRow>, af: AirframeRow, md: ModelRow)
    ensures Enriched(s, Some(af), None) !in ModelRows(s, a, ms)
    ensures a != af ==> Enriched(s, Some(af), Some(md)) !in ModelRows(s, a, ms)
  {
  }

  /**
   * Both LEFT JOINs for one state row as a bag: a matching airframe
   * occurrence and a joining model occurrence give one row per pair, a
   * matching airframe no model joins gives one row per occurrence, and a
   * state without airframe match gives exactly one all-NULL row.
   */
  lemma EnrichStateBag(s: StateRow, airframes: seq<AirframeRow>, models: seq<ModelRow>, af: AirframeRow, md: ModelRow)
    ensures multiset(EnrichState(s, airframes, models))[Enriched(s, Some(af), Some(md))] ==
              if When(Eq(s.icao24, af.icao24)) && ModelJoin(af, md) then Copies(multiset(airframes)[af], multiset(models)[md]) else 0
    ensures multiset(EnrichState(s, airframes, models))[Enriched(s, Some(af), None)] ==
              if When(Eq(s.icao24, af.icao24)) && ModelMatches(af, models) == [] then multiset(airframes)[af] else 0
    ensures multiset(EnrichState(s, airframes, models))[Enriched(s, None, None)] ==
              if AirframeMatches(s, airframes) == [] then 1 else 0
  {
    var afs := AirframeMatches(s, airframes);
    AirframeMatchesBag(s, airframes, af);
    ModelMatchesBag(af, models, md);
    CopiesOfNone(multiset(afs)[af]);
    if afs == [] {
      assert multiset(afs)[af] == 0;
    } else {
      JoinModelsBag(s, afs, models, af, md);
      assert Enriched(s, None, None) !in EnrichState(s, airframes, models);
    }
  }

  /** A state's rows all carry that state, so no other state's row is among them. */
  lemma EnrichStateOnlyItsOwn(s: StateRow, airframes: seq<AirframeRow>, models: seq<ModelRow>, e: EnrichedRow)
    requires e.state != s
    ensures multiset(EnrichState(s, airframes, models))[e] == 0
  {
  }

  /** Taking the first element off a sequence takes one occurrence of it out of the bag. */
  lemma CountCons<T>(xs: seq<T>, x: T)
    requires xs != []
    ensures multiset(xs)[x] == multiset(xs[1..])[x] + (if x == xs[0] then 1 else 0)
  {
    assert xs == [xs[0]] + xs[1..];
  }

  /** The enriched table is the first state's rows followed by the rest's. */
  lemma CreateEnrichedCons(states: seq<StateRow>, airframes: seq<AirframeRow>, models: seq<ModelRow>, e: EnrichedRow)
    requires states != []
    ensures multiset(CreateEnriched(states, airframes, models))[e] ==
              multiset(EnrichState(states[0], airframes, models))[e] + multiset(CreateEnriched(states[1..], airframes, models))[e]
  {
  }

  /** The enriched table as a bag: each state occurrence contributes its own rows once. */
  lemma {:induction false} CreateEnrichedBag(states: seq<StateRow>, airframes: seq<AirframeRow>, models: seq<ModelRow>,
                                             e: EnrichedRow)
    ensures multiset(CreateEnriched(states, airframes, models))[e] ==
              Copies(multiset(states)[e.state], multiset(EnrichState(e.state, airframes, models))[e])
  {
    if states != [] {
      CreateEnrichedBag(states[1..], airframes, models, e);
      CreateEnrichedCons(states, airframes, models, e);
      CountCons(states, e.state);
      if e.state != states[0] {
        EnrichStateOnlyItsOwn(states[0], airframes, models, e);
      }
    }
  }

  /**
   * The OR join condition can duplicate a state row: an airframe whose
   * typecode and ICAO type code each name a different model row joins both.
   */
  lemma OrJoinDuplicatesState(s: StateRow)
    requires s.icao24 == Some("4ca7b3")
    ensures var af := AirframeRow(Some("4ca7b3"), Some("B738"), Some("L2J"));
            var m1, m2 := ModelRow(Some("B738"), Some("Boeing 737-800")), ModelRow(Some("L2J"), Some("Generic twinjet"));
            CreateEnriched([s], [af], [m1, m2]) == [Enriched(s, Some(af), Some(m1)), Enriched(s, Some(af), Some(m2))]
  {
    var af := AirframeRow(Some("4ca7b3"), Some("B738"), Some("L2J"));
    var m1, m2 := ModelRow(Some("B738"), Some("Boeing 737-800")), ModelRow(Some("L2J"), Some("Generic twinjet"));
    assert AirframeMatches(s, [af]) == [af];
    assert ModelJoin(af, m1) && ModelJoin(af, m2);
    assert ModelMatches(af, [m2]) == [m2];
    assert ModelMatches(af, [m1, m2]) == [m1, m2];
    assert [af][1..] == [];
    assert JoinModels(s, [af], [m1, m2]) == [Enriched(s, Some(af), Some(m1)), Enriched(s, Some(af), Some(m2))];
    assert [s][1..] == [];
  }

  // ---------------------------------------------------------------------
  // create_anomaly_features_table (type statistics)
  // ---------------------------------------------------------------------

  /** The `GROUP BY typecode, icaoaircrafttype, ModelFullName` key; NULLs group together. */
  datatype GroupKey = GroupKey(typecode: Option<string>, icaoAircraftType: Option<string>, modelFullName: Option<string>)

  function KeyOf(e: EnrichedRow): GroupKey {
    GroupKey(e.Typecode(), e.IcaoAircraftType(), e.ModelFullName())
  }

  /** `typecode IS NOT NULL AND velocity IS NOT NULL AND baro_altitude IS NOT NULL` */
  predicate InBaseline(e: EnrichedRow) {
    e.Typecode().Some? && e.state.velocity.Some? && e.state.baroAltitude.Some?
  }

  /** The rows the statistics read. */
  function BaselineInput(rows: seq<EnrichedRow>): (r: seq<EnrichedRow>)
    ensures forall e :: e in r <==> e in rows && InBaseline(e)
    ensures forall e :: multiset(r)[e] == if InBaseline(e) then multiset(rows)[e] else 0
  {
    assert rows != [] ==> rows == [rows[0]] + rows[1..];
    if rows == [] then []
    else (if InBaseline(rows[0]) then [rows[0]] else []) + BaselineInput(rows[1..])
  }

  /** The rows of one group. */
  function Members(rows: seq<EnrichedRow>, k: GroupKey): (r: seq<EnrichedRow>)
    ensures forall e :: e in r <==> e in rows && KeyOf(e) == k
  {
    if rows == [] then []
    else (if KeyOf(rows[0]) == k then [rows[0]] else []) + Members(rows[1..], k)
  }

  /** The group keys present, each once. */
  function DistinctKeys(rows: seq<EnrichedRow>): (r: seq<GroupKey>)
    ensures forall k :: k in r <==> exists e :: e in rows && KeyOf(e) == k
    ensures NoDuplicates(r)
  {
    if rows == [] then []
    else
      var rest := DistinctKeys(rows[1..]);
      assert forall e :: e in rows <==> e == rows[0] || e in rows[1..];
      if KeyOf(rows[0]) in rest then rest else [KeyOf(rows[0])] + rest
  }

  /** One row of the type-statistics `anomaly_features` table. */
  datatype TypeStats = TypeStats(
    key: GroupKey,
    observationCount: nat,
    avgVelocity: real,
    stddevVelocity: real,
    avgAltitude: real,
    stddevAltitude: real,
    avgVerticalRate: Option<real>,
    p95Velocity: real,
    p95Altitude: real)

  function Sum(xs: seq<real>): real {
    if xs == [] then 0.0 else xs[0] + Sum(xs[1..])
  }

  /** `AVG` over non-NULL values: never below the smallest value nor above the largest. */
  function Mean(xs: seq<real>): (r: real)
    requires |xs| > 0
    ensures Min(xs) <= r <= Max(xs)
  {
    AverageBetween(xs, Min(xs), Max(xs));
    Sum(xs) / (|xs| as real)
  }

  function Min(xs: seq<real>): (m: real)
    requires |xs| > 0
    ensures m in xs && forall x :: x in xs ==> m <= x
  {
    if |xs| == 1 then xs[0]
    else
      var t := Min(xs[1..]);
      assert forall x :: x in xs ==> x == xs[0] || x in xs[1..];
      if xs[0] <= t then xs[0] else t
  }

  function Max(xs: seq<real>): (m: real)
    requires |xs| > 0
    ensures m in xs && forall x :: x in xs ==> x <= m
  {
    if |xs| == 1 then xs[0]
    else
      var t := Max(xs[1..]);
      assert forall x :: x in xs ==> x == xs[0] || x in xs[1..];
      if xs[0] >= t then xs[0] else t
  }

  predicate AllEqual(xs: seq<real>) {
    forall i, j :: 0 <= i < |xs| && 0 <= j < |xs| ==> xs[i] == xs[j]
  }

  /** What is assumed of STDDEV: never negative, and zero exactly for a group of equal values. */
  ghost predicate IsStddev(sd: seq<real> -> real) {
    forall xs: seq<real> :: sd(xs) >= 0.0 && (sd(xs) == 0.0 <==> AllEqual(xs))
  }

  function Identity(x: real): real {
    x
  }

  /**
   * `PERCENTILE_CONT(0.95)` over values already in ascending order: linear
   * interpolation between the values at floor and ceiling of `0.95·(n-1)`.
   */
  function Quantile95(s: seq<real>): real
    requires |s| > 0
  {
    var rn := 0.95 * ((|s| - 1) as real);
    var lo := rn.Floor;
    if lo as real == rn then s[lo]
    else Interpolate(s[lo], s[lo + 1], rn - lo as real)
  }

  /** The point a fraction `t` of the way from `a` to `b`. */
  function Interpolate(a: real, b: real, t: real): real {
    a + t * (b - a)
  }

  /** `PERCENTILE_CONT(0.95)`: the values sorted, then interpolated; never outside their range. */
  function Percentile95(xs: seq<real>): (r: real)
    requires |xs| > 0
    ensures Min(xs) <= r <= Max(xs)
  {
    var s := Sorting.SortBy(xs, Identity);
    assert forall i, j :: 0 <= i < j < |s| ==> s[i] <= s[j] by {
      forall i, j | 0 <= i < j < |s| ensures s[i] <= s[j] {
        assert Identity(s[i]) <= Identity(s[j]);
      }
    }
    Quantile95Between(s);
    assert s[0] in multiset(xs) && s[|s| - 1] in multiset(xs);
    assert s[0] in xs && s[|s| - 1] in xs;
    Quantile95(s)
  }

  function Velocities(ms: seq<EnrichedRow>): (vs: seq<real>)
    requires forall e :: e in ms ==> InBaseline(e)
    ensures |vs| == |ms|
  {
    if ms == [] then []
    else
      assert ms[0] in ms && InBaseline(ms[0]) && ms[0].state.velocity.Some?;
      [ms[0].state.velocity.value] + Velocities(ms[1..])
  }

  function Altitudes(ms: seq<EnrichedRow>): (vs: seq<real>)
    requires forall e :: e in ms ==> InBaseline(e)
    ensures |vs| == |ms|
  {
    if ms == [] then []
    else
      assert ms[0] in ms && InBaseline(ms[0]) && ms[0].state.baroAltitude.Some?;
      [ms[0].state.baroAltitude.value] + Altitudes(ms[1..])
  }

  /** The non-NULL values of `ABS(vertical_rate)`, the ones `AVG` reads. */
  function AbsVerticalRates(ms: seq<EnrichedRow>): seq<real> {
    if ms == [] then []
    else (if ms[0].state.verticalRate.Some? then [AbsReal(ms[0].state.verticalRate.value)] else [])
         + AbsVerticalRates(ms[1..])
  }

  /** The aggregates of one group (`ms` non-empty, with its velocity and altitude present). */
  function GroupStats(k: GroupKey, ms: seq<EnrichedRow>, sd: seq<real> -> real): (r: TypeStats)
    requires |ms| > 0 && forall e :: e in ms ==> InBaseline(e)
    ensures r.key == k && r.observationCount == |ms|
    ensures r.stddevVelocity == sd(Velocities(ms)) && r.stddevAltitude == sd(Altitudes(ms))
  {
    var vs, alts, vrs := Velocities(ms), Altitudes(ms), AbsVerticalRates(ms);
    TypeStats(k, |ms|, Mean(vs), sd(vs), Mean(alts), sd(alts),
              if vrs == [] then None else Some(Mean(vrs)),
              Percentile95(vs), Percentile95(alts))
  }

  /** `HAVING COUNT(*) >= 10` over the groups `keys` of `input`. */
  function StatsRows(input: seq<EnrichedRow>, keys: seq<GroupKey>, sd: seq<real> -> real): (r: seq<TypeStats>)
    requires forall e :: e in input ==> InBaseline(e)
    ensures forall b :: b in r ==>
              (b.key in keys && |Members(input, b.key)| >= 10 && b == GroupStats(b.key, Members(input, b.key), sd))
  {
    if keys == [] then []
    else
      var ms := Members(input, keys[0]);
      (if |ms| >= 10 then [GroupStats(keys[0], ms, sd)] else []) + StatsRows(input, keys[1..], sd)
  }

  function CountRank(b: TypeStats): real {
    -(b.observationCount as real)
  }

  /** `create_anomaly_features_table`: the type statistics, `ORDER BY observation_count DESC`. */
  function CreateTypeStats(rows: seq<EnrichedRow>, sd: seq<real> -> real): (r: seq<TypeStats>)
    ensures var input := BaselineInput(rows); multiset(r) == multiset(StatsRows(input, DistinctKeys(input), sd))
    ensures forall i, j :: 0 <= i < j < |r| ==> r[i].observationCount >= r[j].observationCount
  {
    var input := BaselineInput(rows);
    var r := Sorting.SortBy(StatsRows(input, DistinctKeys(input), sd), CountRank);
    assert forall i, j :: 0 <= i < j < |r| ==> r[i].observationCount >= r[j].observationCount by {
      forall i, j | 0 <= i < j < |r| ensures r[i].observationCount >= r[j].observationCount {
        assert CountRank(r[i]) <= CountRank(r[j]);
      }
    }
    r
  }

  /** No key occurs twice. */
  predicate NoDuplicates(keys: seq<GroupKey>) {
    forall i, j :: 0 <= i < j < |keys| ==> keys[i] != keys[j]
  }

  lemma DistinctTail(keys: seq<GroupKey>)
    requires keys != [] && NoDuplicates(keys)
    ensures NoDuplicates(keys[1..]) && keys[0] !in keys[1..]
  {
    var tail := keys[1..];
    forall i, j | 0 <= i < j < |tail| ensures tail[i] != tail[j] {
      assert tail[i] == keys[i + 1] && tail[j] == keys[j + 1];
    }
    forall j | 0 <= j < |tail| ensures tail[j] != keys[0] {
      assert tail[j] == keys[j + 1];
    }
  }

  /** The first key's contribution to the statistics rows: its group's row, if the group is large enough. */
  function HeadStats(input: seq<EnrichedRow>, key: GroupKey, sd: seq<real> -> real): seq<TypeStats>
    requires forall e :: e in input ==> InBaseline(e)
  {
    var ms := Members(input, key);
    if |ms| >= 10 then [GroupStats(key, ms, sd)] else []
  }

  lemma HeadStatsCount(input: seq<EnrichedRow>, key: GroupKey, sd: seq<real> -> real, k: GroupKey)
    requires forall e :: e in input ==> InBaseline(e)
    requires |Members(input, k)| > 0
    ensures multiset(HeadStats(input, key, sd))[GroupStats(k, Members(input, k), sd)] ==
            if k == key && |Members(input, k)| >= 10 then 1 else 0
  {
    var x := GroupStats(k, Members(input, k), sd);
    if k != key {
      HeadStatsKey(input, key, sd);
      assert x !in HeadStats(input, key, sd);
    } else if |Members(input, k)| >= 10 {
      assert HeadStats(input, key, sd) == [x];
    } else {
      assert HeadStats(input, key, sd) == [];
    }
  }

  /** The first key's contribution carries that key. */
  lemma HeadStatsKey(input: seq<EnrichedRow>, key: GroupKey, sd: seq<real> -> real)
    requires forall e :: e in input ==> InBaseline(e)
    ensures forall y :: y in HeadStats(input, key, sd) ==> y.key == key
  {
  }

  lemma {:induction false} StatsRowsCount(input: seq<EnrichedRow>, keys: seq<GroupKey>, sd: seq<real> -> real, k: GroupKey)
    requires forall e :: e in input ==> InBaseline(e)
    requires NoDuplicates(keys)
    requires |Members(input, k)| > 0
    ensures multiset(StatsRows(input, keys, sd))[GroupStats(k, Members(input, k), sd)] ==
            if k in keys && |Members(input, k)| >= 10 then 1 else 0
  {
    if keys != [] {
      StatsRowsCons(input, keys, sd, GroupStats(k, Members(input, k), sd));
      InCons(keys, k);
      DistinctTail(keys);
      StatsRowsCount(input, keys[1..], sd, k);
      HeadStatsCount(input, keys[0], sd, k);
    }
  }

  /** The statistics rows are the first key's contribution followed by the rest's. */
  lemma StatsRowsCons(input: seq<EnrichedRow>, keys: seq<GroupKey>, sd: seq<real> -> real, x: TypeStats)
    requires forall e :: e in input ==> InBaseline(e)
    requires keys != []
    ensures multiset(StatsRows(input, keys, sd))[x] ==
              multiset(HeadStats(input, keys[0], sd))[x] + multiset(StatsRows(input, keys[1..], sd))[x]
  {
  }

  /** An element of a non-empty sequence is its head or an element of its tail. */
  lemma InCons<T>(xs: seq<T>, x: T)
    requires xs != []
    ensures x in xs <==> x == xs[0] || x in xs[1..]
  {
    assert xs == [xs[0]] + xs[1..];
  }

  /**
   * The baselines read only complete, typed rows: every baseline row's group
   * has a typecode and at least ten members, its count is the size of its
   * group, it exists exactly for the groups of at least ten rows (so a group
   * of nine yields none and a group of ten yields one), once each, and the
   * rows come in non-increasing count.
   */
  lemma TypeStatsAreCountedGroups(rows: seq<EnrichedRow>, sd: seq<real> -> real)
    ensures var input, r := BaselineInput(rows), CreateTypeStats(rows, sd);
      && (forall b :: b in r ==>
            && b.key.typecode.Some?
            && b.observationCount == |Members(input, b.key)| >= 10
            && b == GroupStats(b.key, Members(input, b.key), sd))
      && (forall k :: |Members(input, k)| >= 10 ==> multiset(r)[GroupStats(k, Members(input, k), sd)] == 1)
      && (forall k :: |Members(input, k)| < 10 ==> forall b :: b in r ==> b.key != k)
      && (forall i, j :: 0 <= i < j < |r| ==> r[i].observationCount >= r[j].observationCount)
  {
    var input := BaselineInput(rows);
    var keys := DistinctKeys(input);
    var unsorted := StatsRows(input, keys, sd);
    var r := CreateTypeStats(rows, sd);
    assert multiset(r) == multiset(unsorted);
    forall b | b in r
      ensures b.key.typecode.Some? && b.observationCount == |Members(input, b.key)| >= 10
      ensures b == GroupStats(b.key, Members(input, b.key), sd)
    {
      assert b in multiset(unsorted);
      var ms := Members(input, b.key);
      assert ms[0] in ms && InBaseline(ms[0]) && ms[0].state.velocity.Some?;
    }
    forall k | |Members(input, k)| >= 10
      ensures multiset(r)[GroupStats(k, Members(input, k), sd)] == 1
    {
      var ms := Members(input, k);
      assert ms[0] in ms && ms[0] in input;
      StatsRowsCount(input, keys, sd, k);
    }
    forall i, j | 0 <= i < j < |r| ensures r[i].observationCount >= r[j].observationCount {
      assert CountRank(r[i]) <= CountRank(r[j]);
    }
  }

  /** `n` copies of `x` added up, i.e. the product `n * x` (`TimesIsProduct`), kept linear for the sum bounds. */
  function Times(n: nat, x: real): real {
    if n == 0 then 0.0 else x + Times(n - 1, x)
  }

  lemma {:induction false} TimesIsProduct(n: nat, x: real)
    ensures Times(n, x) == (n as real) * x
  {
    if n > 0 {
      TimesIsProduct(n - 1, x);
      OneMoreTimes((n - 1) as real, x);
    }
  }

  lemma OneMoreTimes(n: real, x: real)
    ensures (n + 1.0) * x == n * x + x
  {
  }

  lemma {:induction false} SumBetween(xs: seq<real>, lo: real, hi: real)
    requires forall x :: x in xs ==> lo <= x <= hi
    ensures Times(|xs|, lo) <= Sum(xs) <= Times(|xs|, hi)
  {
    if xs != [] {
      assert xs[0] in xs;
      assert forall x :: x in xs[1..] ==> x in xs;
      SumBetween(xs[1..], lo, hi);
    }
  }

  /** The sum over the count lies within any bounds of the values. */
  lemma AverageBetween(xs: seq<real>, lo: real, hi: real)
    requires |xs| > 0 && forall x :: x in xs ==> lo <= x <= hi
    ensures lo <= Sum(xs) / (|xs| as real) <= hi
  {
    SumBetween(xs, lo, hi);
    TimesIsProduct(|xs|, lo);
    TimesIsProduct(|xs|, hi);
    DivBetween(Sum(xs), |xs| as real, lo, hi);
  }

  lemma DivBetween(a: real, n: real, lo: real, hi: real)
    requires n > 0.0 && n * lo <= a <= n * hi
    ensures lo <= a / n <= hi
  {
  }

  /** `AVG` lies within any bounds of its values. */
  lemma MeanBetween(xs: seq<real>, lo: real, hi: real)
    requires |xs| > 0
    requires forall x :: x in xs ==> lo <= x <= hi
    ensures lo <= Mean(xs) <= hi
  {
    assert lo <= Min(xs) && Max(xs) <= hi;
  }

  lemma MulNonNegative(x: real, y: real)
    requires x >= 0.0 && y >= 0.0
    ensures x * y >= 0.0
  {
  }

  lemma FractionOfGap(a: real, b: real, t: real)
    requires a <= b && 0.0 <= t <= 1.0
    ensures a <= Interpolate(a, b, t) <= b
  {
    var d := b - a;
    MulNonNegative(t, d);
    MulNonNegative(1.0 - t, d);
    assert (1.0 - t) * d == d - t * d;
  }

  /**
   * The rank `0.95 * (n - 1)` lies in `[0, n - 1]`; when it is fractional its
   * floor has a successor position and the fraction is in `[0, 1]`.
   */
  lemma RankBounds(n: nat)
    requires n > 0
    ensures var rn := 0.95 * ((n - 1) as real);
      && 0 <= rn.Floor <= n - 1
      && (rn.Floor as real != rn ==> rn.Floor + 1 <= n - 1 && 0.0 <= rn - rn.Floor as real <= 1.0)
  {
    var rn := 0.95 * ((n - 1) as real);
    assert 0.0 <= rn <= (n - 1) as real;
  }

  /** On ascending values the interpolated 95th percentile lies between the first and the last. */
  lemma Quantile95Between(s: seq<real>)
    requires |s| > 0
    requires forall i, j :: 0 <= i < j < |s| ==> s[i] <= s[j]
    ensures s[0] <= Quantile95(s) <= s[|s| - 1]
  {
    var n := |s|;
    var rn := 0.95 * ((n - 1) as real);
    var lo := rn.Floor;
    RankBounds(n);
    assert s[0] <= s[lo] <= s[n - 1];
    if lo as real != rn {
      assert s[lo] <= s[lo + 1] <= s[n - 1];
      FractionOfGap(s[lo], s[lo + 1], rn - lo as real);
      assert Quantile95(s) == Interpolate(s[lo], s[lo + 1], rn - lo as real);
    } else {
      assert Quantile95(s) == s[lo];
    }
  }

  /** The interpolated percentile lies within any bounds of its values. */
  lemma Percentile95Between(xs: seq<real>, lo: real, hi: real)
    requires |xs| > 0
    requires forall x :: x in xs ==> lo <= x <= hi
    ensures lo <= Percentile95(xs) <= hi
  {
    assert lo <= Min(xs) && Max(xs) <= hi;
  }

  /** Each baseline's averages and 95th percentiles lie within its group's range of values. */
  lemma StatsWithinGroupRange(rows: seq<EnrichedRow>, sd: seq<real> -> real)
    ensures var input := BaselineInput(rows);
      forall b :: b in CreateTypeStats(rows, sd) ==>
        var ms := Members(input, b.key);
        && |ms| > 0 && (forall e :: e in ms ==> InBaseline(e))
        && Min(Velocities(ms)) <= b.avgVelocity <= Max(Velocities(ms))
        && Min(Velocities(ms)) <= b.p95Velocity <= Max(Velocities(ms))
        && Min(Altitudes(ms)) <= b.avgAltitude <= Max(Altitudes(ms))
        && Min(Altitudes(ms)) <= b.p95Altitude <= Max(Altitudes(ms))
  {
    TypeStatsAreCountedGroups(rows, sd);
    var input := BaselineInput(rows);
    forall b | b in CreateTypeStats(rows, sd)
      ensures var ms := Members(input, b.key);
        && |ms| > 0 && (forall e :: e in ms ==> InBaseline(e))
        && Min(Velocities(ms)) <= b.avgVelocity <= Max(Velocities(ms))
        && Min(Velocities(ms)) <= b.p95Velocity <= Max(Velocities(ms))
        && Min(Altitudes(ms)) <= b.avgAltitude <= Max(Altitudes(ms))
        && Min(Altitudes(ms)) <= b.p95Altitude <= Max(Altitudes(ms))
    {
      var ms := Members(input, b.key);
      MeanBetween(Velocities(ms), Min(Velocities(ms)), Max(Velocities(ms)));
      MeanBetween(Altitudes(ms), Min(Altitudes(ms)), Max(Altitudes(ms)));
      Percentile95Between(Velocities(ms), Min(Velocities(ms)), Max(Velocities(ms)));
      Percentile95Between(Altitudes(ms), Min(Altitudes(ms)), Max(Altitudes(ms)));
    }
  }

  // ---------------------------------------------------------------------
  // flag_anomalies (against the type statistics)
  // ---------------------------------------------------------------------

  /** One row of `flagged_anomalies`: the observation, its baseline and the seven flags. */
  datatype TypeFlagRow = TypeFlagRow(
    observation: EnrichedRow,
    baseline: TypeStats,
    highSpeedAnomaly: bool,
    lowSpeedAnomaly: bool,
    highAltitudeAnomaly: bool,
    lowAltitudeAnomaly: bool,
    extremeSpeedAnomaly: bool,
    extremeAltitudeAnomaly: bool,
    unusualVerticalRate: bool)

  /** `e.typecode = af.typecode OR e.icaoaircrafttype = af.icaoaircrafttype` */
  predicate BaselineJoin(e: EnrichedRow, b: TypeStats) {
    When(Or(Eq(e.Typecode(), b.key.typecode), Eq(e.IcaoAircraftType(), b.key.icaoAircraftType)))
  }

  /** The seven CASE expressions of the SELECT list for observation `e` against baseline `b`. */
  function FlagAgainst(e: EnrichedRow, b: TypeStats): (r: TypeFlagRow)
    ensures r.observation == e && r.baseline == b
    ensures r.highSpeedAnomaly <==> e.state.velocity.Some? && b.stddevVelocity > 0.0 &&
                                     e.state.velocity.value > b.avgVelocity + 3.0 * b.stddevVelocity
    ensures r.lowSpeedAnomaly <==> e.state.velocity.Some? && b.stddevVelocity > 0.0 &&
                                    e.state.velocity.value < b.avgVelocity - 3.0 * b.stddevVelocity
    ensures r.highAltitudeAnomaly <==> e.state.baroAltitude.Some? && b.stddevAltitude > 0.0 &&
                                        e.state.baroAltitude.value > b.avgAltitude + 3.0 * b.stddevAltitude
    ensures r.lowAltitudeAnomaly <==> e.state.baroAltitude.Some? && b.stddevAltitude > 0.0 &&
                                       e.state.baroAltitude.value < b.avgAltitude - 3.0 * b.stddevAltitude &&
                                       e.state.onGround == Some(false)
    ensures r.extremeSpeedAnomaly <==> e.state.velocity.Some? && e.state.velocity.value > b.p95Velocity * 1.2
    ensures r.extremeAltitudeAnomaly <==> e.state.baroAltitude.Some? && e.state.baroAltitude.value > b.p95Altitude * 1.2
    ensures r.unusualVerticalRate <==> e.state.verticalRate.Some? && e.state.velocity.Some? &&
                                        AbsReal(e.state.verticalRate.value) > 50.0 && e.state.velocity.value < 100.0
    ensures b.stddevVelocity == 0.0 ==> !r.highSpeedAnomaly && !r.lowSpeedAnomaly
    ensures b.stddevAltitude == 0.0 ==> !r.highAltitudeAnomaly && !r.lowAltitudeAnomaly
    ensures !(r.highSpeedAnomaly && r.lowSpeedAnomaly) && !(r.highAltitudeAnomaly && r.lowAltitudeAnomaly)
  {
    var v, alt := e.state.velocity, e.state.baroAltitude;
    var sdV, sdA := Some(b.stddevVelocity), Some(b.stddevAltitude);
    TypeFlagRow(
      e, b,
      When(And(Gt(v, Some(b.avgVelocity + 3.0 * b.stddevVelocity)), Gt(sdV, Some(0.0)))),
      When(And(Lt(v, Some(b.avgVelocity - 3.0 * b.stddevVelocity)), Gt(sdV, Some(0.0)))),
      When(And(Gt(alt, Some(b.avgAltitude + 3.0 * b.stddevAltitude)), Gt(sdA, Some(0.0)))),
      When(And(And(Lt(alt, Some(b.avgAltitude - 3.0 * b.stddevAltitude)), Gt(sdA, Some(0.0))),
               EqBool(e.state.onGround, false))),
      When(Gt(v, Some(b.p95Velocity * 1.2))),
      When(Gt(alt, Some(b.p95Altitude * 1.2))),
      When(And(Gt(Abs(e.state.verticalRate), Some(50.0)), Lt(v, Some(100.0)))))
  }

  /** The baselines `e` joins that survive `WHERE af.typecode IS NOT NULL`, in table order. */
  function MatchingBaselines(e: EnrichedRow, baselines: seq<TypeStats>): (r: seq<TypeStats>)
    ensures forall b :: b in r <==> b in baselines && BaselineJoin(e, b) && b.key.typecode.Some?
  {
    if baselines == [] then []
    else (if BaselineJoin(e, baselines[0]) && IsNotNull(baselines[0].key.typecode) then [baselines[0]] else [])
         + MatchingBaselines(e, baselines[1..])
  }

  /** Observation `e` set against each of `ms` in turn. */
  function FlagEach(e: EnrichedRow, ms: seq<TypeStats>): (r: seq<TypeFlagRow>)
    ensures |r| == |ms|
    ensures forall i :: 0 <= i < |r| ==> r[i] == FlagAgainst(e, ms[i])
  {
    if ms == [] then [] else [FlagAgainst(e, ms[0])] + FlagEach(e, ms[1..])
  }

  /** All rows of observation `e`: one per matching baseline. */
  function FlagRowsFor(e: EnrichedRow, baselines: seq<TypeStats>): (r: seq<TypeFlagRow>)
    ensures |r| == |MatchingBaselines(e, baselines)|
    ensures forall i :: 0 <= i < |r| ==> r[i] == FlagAgainst(e, MatchingBaselines(e, baselines)[i])
  {
    FlagEach(e, MatchingBaselines(e, baselines))
  }

  /** `flag_anomalies`, observations in input order. */
  function FlagTypeAnomalies(rows: seq<EnrichedRow>, baselines: seq<TypeStats>): (r: seq<TypeFlagRow>)
    ensures forall x :: x in r <==> exists i :: 0 <= i < |rows| && x in FlagRowsFor(rows[i], baselines)
  {
    if rows == [] then []
    else
      var rest := FlagTypeAnomalies(rows[1..], baselines);
      assert forall i :: 0 < i < |rows| ==> rows[i] == rows[1..][i - 1];
      FlagRowsFor(rows[0], baselines) + rest
  }

  /**
   * The flagged table holds a row for every pair of an observation and a
   * baseline it joins, and no other row: observations with no baseline of
   * their type do not appear at all, and every row's flags are those of its
   * own pair. How often each row occurs is `FlagTypeAnomaliesBag`.
   */
  lemma FlaggedRowsAreJoinedPairs(rows: seq<EnrichedRow>, baselines: seq<TypeStats>)
    ensures var r := FlagTypeAnomalies(rows, baselines);
      && (forall x :: x in r ==>
            && x.observation in rows && x.baseline in baselines
            && BaselineJoin(x.observation, x.baseline) && x.baseline.key.typecode.Some?
            && x == FlagAgainst(x.observation, x.baseline))
      && (forall e, b :: e in rows && b in baselines && BaselineJoin(e, b) && b.key.typecode.Some? ==>
            FlagAgainst(e, b) in r)
  {
    var r := FlagTypeAnomalies(rows, baselines);
    forall x | x in r
      ensures x.observation in rows && x.baseline in baselines
      ensures BaselineJoin(x.observation, x.baseline) && x.baseline.key.typecode.Some?
      ensures x == FlagAgainst(x.observation, x.baseline)
    {
      var i :| 0 <= i < |rows| && x in FlagRowsFor(rows[i], baselines);
      var fs := FlagRowsFor(rows[i], baselines);
      var j :| 0 <= j < |fs| && fs[j] == x;
      assert MatchingBaselines(rows[i], baselines)[j] in MatchingBaselines(rows[i], baselines);
    }
    forall e, b | e in rows && b in baselines && BaselineJoin(e, b) && b.key.typecode.Some?
      ensures FlagAgainst(e, b) in r
    {
      var i :| 0 <= i < |rows| && rows[i] == e;
      var ms := MatchingBaselines(e, baselines);
      var j :| 0 <= j < |ms| && ms[j] == b;
      assert FlagRowsFor(e, baselines)[j] == FlagAgainst(e, b);
    }
  }

  /** The matching baselines as a bag: every occurrence of a joining, typed baseline is kept once. */
  lemma {:induction false} MatchingBaselinesBag(e: EnrichedRow, baselines: seq<TypeStats>, b: TypeStats)
    ensures multiset(MatchingBaselines(e, baselines))[b] ==
              if BaselineJoin(e, b) && b.key.typecode.Some? then multiset(baselines)[b] else 0
  {
    if baselines != [] {
      MatchingBaselinesBag(e, baselines[1..], b);
      CountCons(baselines, b);
    }
  }

  /** Setting `e` against `ms` as a bag: one row per occurrence of each baseline, with that pair's flags. */
  lemma {:induction false} FlagEachBag(e: EnrichedRow, ms: seq<TypeStats>, x: TypeFlagRow)
    ensures multiset(FlagEach(e, ms))[x] ==
              if x.observation == e && x == FlagAgainst(e, x.baseline) then multiset(ms)[x.baseline] else 0
  {
    if ms != [] {
      FlagEachBag(e, ms[1..], x);
      CountCons(ms, x.baseline);
    }
  }

  /** The rows of one observation as a bag: each occurrence of a baseline it joins gives one row. */
  lemma FlagRowsForBag(e: EnrichedRow, baselines: seq<TypeStats>, x: TypeFlagRow)
    ensures multiset(FlagRowsFor(e, baselines))[x] ==
              if x.observation == e && x == FlagAgainst(e, x.baseline) &&
                 BaselineJoin(e, x.baseline) && x.baseline.key.typecode.Some?
              then multiset(baselines)[x.baseline] else 0
  {
    FlagEachBag(e, MatchingBaselines(e, baselines), x);
    MatchingBaselinesBag(e, baselines, x.baseline);
  }

  /** Taking the first observation off splits the flagged table into its rows and the rest's. */
  lemma FlagTypeAnomaliesCons(rows: seq<EnrichedRow>, baselines: seq<TypeStats>, x: TypeFlagRow)
    requires rows != []
    ensures multiset(FlagTypeAnomalies(rows, baselines))[x] ==
              multiset(FlagRowsFor(rows[0], baselines))[x] + multiset(FlagTypeAnomalies(rows[1..], baselines))[x]
  {
  }

  /**
   * The flagged table as a bag: the row of a joined pair occurs once for
   * every occurrence of the observation times every occurrence of the
   * baseline, and no other row occurs.
   */
  lemma {:induction false} FlagTypeAnomaliesBag(rows: seq<EnrichedRow>, baselines: seq<TypeStats>, x: TypeFlagRow)
    ensures multiset(FlagTypeAnomalies(rows, baselines))[x] ==
              if x == FlagAgainst(x.observation, x.baseline) &&
                 BaselineJoin(x.observation, x.baseline) && x.baseline.key.typecode.Some?
              then Copies(multiset(rows)[x.observation], multiset(baselines)[x.baseline]) else 0
  {
    if rows != [] {
      FlagTypeAnomaliesBag(rows[1..], baselines, x);
      FlagTypeAnomaliesCons(rows, baselines, x);
      FlagRowsForBag(rows[0], baselines, x);
      CountCons(rows, x.observation);
    }
  }

  /** `unusual_vertical_rate` depends on the observation only, never on the baseline. */
  lemma UnusualVerticalRateIgnoresBaseline(e: EnrichedRow, b1: TypeStats, b2: TypeStats)
    ensures FlagAgainst(e, b1).unusualVerticalRate == FlagAgainst(e, b2).unusualVerticalRate
  {
  }

  /**
   * The whole pass of `main`: enrich, compute the baselines, flag. Every
   * flagged row is an observation of some input state, set against a
   * typed baseline of at least ten observations, with that pair's flags.
   */
  function RunTransform(states: seq<StateRow>, airframes: seq<AirframeRow>, models: seq<ModelRow>,
                        sd: seq<real> -> real): (r: seq<TypeFlagRow>)
    ensures forall x :: x in r ==>
              && x.observation.state in states
              && x.baseline.key.typecode.Some? && x.baseline.observationCount >= 10
              && BaselineJoin(x.observation, x.baseline)
              && x == FlagAgainst(x.observation, x.baseline)
  {
    var enriched := CreateEnriched(states, airframes, models);
    var stats := CreateTypeStats(enriched, sd);
    PassRows(states, airframes, models, sd);
    FlagTypeAnomalies(enriched, stats)
  }

  lemma EnrichedRowState(states: seq<StateRow>, airframes: seq<AirframeRow>, models: seq<ModelRow>, e: EnrichedRow)
    requires e in CreateEnriched(states, airframes, models)
    ensures e.state in states
  {
    var i :| 0 <= i < |states| && e in EnrichState(states[i], airframes, models);
  }

  lemma BaselineIsLarge(rows: seq<EnrichedRow>, sd: seq<real> -> real, b: TypeStats)
    requires b in CreateTypeStats(rows, sd)
    ensures b.key.typecode.Some? && b.observationCount >= 10
  {
    TypeStatsAreCountedGroups(rows, sd);
  }

  lemma PassRows(states: seq<StateRow>, airframes: seq<AirframeRow>, models: seq<ModelRow>, sd: seq<real> -> real)
    ensures var enriched := CreateEnriched(states, airframes, models);
      forall x :: x in FlagTypeAnomalies(enriched, CreateTypeStats(enriched, sd)) ==>
        && x.observation.state in states
        && x.baseline.key.typecode.Some? && x.baseline.observationCount >= 10
        && BaselineJoin(x.observation, x.baseline)
        && x == FlagAgainst(x.observation, x.baseline)
  {
    var enriched := CreateEnriched(states, airframes, models);
    var stats := CreateTypeStats(enriched, sd);
    FlaggedRowsAreJoinedPairs(enriched, stats);
    forall x | x in FlagTypeAnomalies(enriched, stats)
      ensures x.observation.state in states
      ensures x.baseline.key.typecode.Some? && x.baseline.observationCount >= 10
    {
      EnrichedRowState(states, airframes, models, x.observation);
      BaselineIsLarge(enriched, sd, x.baseline);
    }
  }

  /**
   * When STDDEV behaves as `IsStddev` says, a type whose observations all
   * share one velocity never flags anyone as too fast or too slow.
   */
  lemma UniformVelocityGroupNeverFlagsSpeed(rows: seq<EnrichedRow>, sd: seq<real> -> real, e: EnrichedRow, b: TypeStats)
    requires IsStddev(sd)
    requires b in CreateTypeStats(rows, sd)
    requires var ms := Members(BaselineInput(rows), b.key);
             (forall x :: x in ms ==> InBaseline(x)) && AllEqual(Velocities(ms))
    ensures !FlagAgainst(e, b).highSpeedAnomaly && !FlagAgainst(e, b).lowSpeedAnomaly
  {
    TypeStatsAreCountedGroups(rows, sd);
  }
}
