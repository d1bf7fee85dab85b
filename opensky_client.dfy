/**
 * The telemetry record normaliser of src/ingest/opensky_client.py: the
 * `_sanitize` cleaning of one cell, the fixed renaming of
 * `OpenSkyClient._row_to_dict`, and the record list `get_states_dict` builds
 * from what the REST fetch returned. The REST call itself is a parameter.
 */
module OpenSkyClient {
  import opened Wrappers
  import opened Calendar

  /** A cell of the fetched data frame, as far as `_sanitize` tells them apart. */
  datatype Value =
    | Null                          // Python None
    | NaN                           // a float NaN
    | NaT                           // pandas.NaT
    | NA                            // pandas.NA
    | Text(s: string)
    | Number(x: real)
    | Boolean(b: bool)
    | Time(at: Instant, utc: bool)  // a pandas.Timestamp, naive or in UTC
    | Unprobed(repr: string)        // a value on which `pd.isna` raises TypeError

  /** The pandas missing-value markers. */
  predicate IsMissing(v: Value) {
    v.Null? || v.NaN? || v.NaT? || v.NA?
  }

  /** `pd.isna(value)`, or None where that call raises TypeError. */
  function IsNa(v: Value): Option<bool> {
    match v
    case Unprobed(_) => None
    case Null => Some(true)
    case NaN => Some(true)
    case NaT => Some(true)
    case NA => Some(true)
    case _ => Some(false)
  }

  /** `Timestamp.isoformat()` at second resolution: `YYYY-MM-DDTHH:MM:SS`, then `+00:00` when in UTC. */
  function IsoFormat(t: Instant, utc: bool): string {
    IsoDate(t) + "T" + IsoClock(t) + (if utc then "+00:00" else "")
  }

  /** The `YYYY-MM-DD` half of an ISO string. */
  function IsoDate(t: Instant): string {
    assert Pow10(4) == 10000 && Pow10(2) == 100;
    Pad(t.year, 4) + "-" + Pad(t.month, 2) + "-" + Pad(t.day, 2)
  }

  /** The `HH:MM:SS` half of an ISO string. */
  function IsoClock(t: Instant): string {
    assert Pow10(2) == 100;
    Pad(t.hour, 2) + ":" + Pad(t.minute, 2) + ":" + Pad(t.second, 2)
  }

  /**
   * `_sanitize(value)`: missing markers become None, a Timestamp its ISO
   * string, and every other value, including one the probe rejects, is
   * returned unchanged. The result is never a missing marker other than
   * None and never a Timestamp, so it serialises to JSON.
   */
  function Sanitize(v: Value): (r: Value)
    ensures IsMissing(v) ==> r == Null
    ensures v.Time? ==> r == Text(IsoFormat(v.at, v.utc))
    ensures !IsMissing(v) && !v.Time? ==> r == v
    ensures !(r.NaN? || r.NaT? || r.NA? || r.Time?)
  {
    match IsNa(v)
    case None => v
    case Some(missing) =>
      if missing then Null
      else if v.Time? then Text(IsoFormat(v.at, v.utc))
      else v
  }

  /** Sanitising twice is sanitising once. */
  lemma SanitizeIdempotent(v: Value)
    ensures Sanitize(Sanitize(v)) == Sanitize(v)
  {
  }

  /**
   * The ISO string has its separators at fixed offsets, and each date and
   * clock field is that field of the instant in zero-padded digits (so it
   * reads back, by `Pad`'s contract).
   */
  lemma IsoFormatLayout(t: Instant, utc: bool)
    ensures Pow10(4) == 10000 && Pow10(2) == 100
    ensures var s := IsoFormat(t, utc);
      && |s| == (if utc then 25 else 19)
      && s[4] == '-' && s[7] == '-' && s[10] == 'T' && s[13] == ':' && s[16] == ':'
      && s[0..4] == Pad(t.year, 4) && s[5..7] == Pad(t.month, 2) && s[8..10] == Pad(t.day, 2)
      && s[11..13] == Pad(t.hour, 2) && s[14..16] == Pad(t.minute, 2) && s[17..19] == Pad(t.second, 2)
      && s[19..] == (if utc then "+00:00" else "")
  {
    IsoDateLayout(t);
    IsoClockLayout(t);
    IsoJoin(IsoFormat(t, utc), IsoDate(t), IsoClock(t), if utc then "+00:00" else "");
  }

  /** A ten-character date, `T`, an eight-character clock and a suffix: where each piece lands. */
  lemma IsoJoin(s: string, date: string, clock: string, tz: string)
    requires |date| == 10 && |clock| == 8 && s == date + "T" + clock + tz
    ensures |s| == 19 + |tz| && s[10] == 'T' && s[19..] == tz
    ensures s[4] == date[4] && s[7] == date[7] && s[13] == clock[2] && s[16] == clock[5]
    ensures s[0..4] == date[0..4] && s[5..7] == date[5..7] && s[8..10] == date[8..10]
    ensures s[11..13] == clock[0..2] && s[14..16] == clock[3..5] && s[17..19] == clock[6..8]
  {
    assert s[0..10] == date && s[11..19] == clock by {
      SplitAt(date + "T", clock + tz);
      SplitAt(date, "T");
      SplitAt(clock, tz);
      assert s == (date + "T") + (clock + tz);
    }
    SliceOfSlice(s, 0, date, 0, 4);
    SliceOfSlice(s, 0, date, 5, 7);
    SliceOfSlice(s, 0, date, 8, 10);
    SliceOfSlice(s, 11, clock, 0, 2);
    SliceOfSlice(s, 11, clock, 3, 5);
    SliceOfSlice(s, 11, clock, 6, 8);
  }

  lemma IsoDateLayout(t: Instant)
    ensures Pow10(4) == 10000 && Pow10(2) == 100
    ensures var d := IsoDate(t);
      && |d| == 10 && d[4] == '-' && d[7] == '-'
      && d[0..4] == Pad(t.year, 4) && d[5..7] == Pad(t.month, 2) && d[8..10] == Pad(t.day, 2)
  {
    assert Pow10(4) == 10000 && Pow10(2) == 100;
    ThreeFields(IsoDate(t), Pad(t.year, 4), '-', Pad(t.month, 2), '-', Pad(t.day, 2));
  }

  lemma IsoClockLayout(t: Instant)
    ensures Pow10(2) == 100
    ensures var c := IsoClock(t);
      && |c| == 8 && c[2] == ':' && c[5] == ':'
      && c[0..2] == Pad(t.hour, 2) && c[3..5] == Pad(t.minute, 2) && c[6..8] == Pad(t.second, 2)
  {
    assert Pow10(2) == 100;
    ThreeFields(IsoClock(t), Pad(t.hour, 2), ':', Pad(t.minute, 2), ':', Pad(t.second, 2));
  }

  /** The two parts of a concatenation are its slices at the seam. */
  lemma SplitAt(a: string, b: string)
    ensures (a + b)[..|a|] == a && (a + b)[|a|..] == b
  {
  }

  /** Three fields joined by two separators: each field and separator sits at its offset. */
  lemma ThreeFields(s: string, f1: string, c1: char, f2: string, c2: char, f3: string)
    requires s == f1 + [c1] + f2 + [c2] + f3
    ensures s[..|f1|] == f1 && s[|f1|] == c1
    ensures s[|f1| + 1..|f1| + 1 + |f2|] == f2 && s[|f1| + 1 + |f2|] == c2
    ensures s[|f1| + 2 + |f2|..] == f3
  {
    assert s == (f1 + [c1]) + (f2 + [c2]) + f3;
  }

  /** A slice of a part that sits at offset `at` of `s` is the slice of `s` shifted by `at`. */
  lemma SliceOfSlice(s: string, at: nat, part: string, lo: nat, hi: nat)
    requires at + |part| <= |s| && s[at..at + |part|] == part && lo <= hi <= |part|
    ensures s[at + lo..at + hi] == part[lo..hi]
  {
    forall i | 0 <= i < hi - lo
      ensures s[at + lo..at + hi][i] == part[lo..hi][i]
    {
      assert s[at + lo + i] == s[at..at + |part|][lo + i];
    }
  }

  /** A data-frame row: column name to cell. */
  type Row = map<string, Value>

  /** `row.get(column)`: None for a column the row does not have. */
  function Get(row: Row, column: string): (v: Value)
    ensures column in row ==> v == row[column]
    ensures column !in row ==> v == Null
  {
    if column in row then row[column] else Null
  }

  /** The keys of a normalised record, in the order the record lists them. */
  const OutputFields: seq<string> := [
    "icao24", "callsign", "origin_country", "time_position", "last_contact", "longitude", "latitude",
    "baro_altitude", "on_ground", "velocity", "true_track", "vertical_rate", "sensors", "geo_altitude",
    "squawk", "spi", "position_source"]

  /** The source column each output key reads: seven renamed keys, the rest read their own name. */
  function SourceColumn(field: string): string {
    if field == "time_position" then "timestamp"
    else if field == "last_contact" then "last_position"
    else if field == "baro_altitude" then "altitude"
    else if field == "on_ground" then "onground"
    else if field == "velocity" then "groundspeed"
    else if field == "true_track" then "track"
    else if field == "geo_altitude" then "geoaltitude"
    else field
  }

  /** The column each output key reads, position by position. */
  const SourceColumns: seq<string> := [
    "icao24", "callsign", "origin_country", "timestamp", "last_position", "longitude", "latitude",
    "altitude", "onground", "groundspeed", "track", "vertical_rate", "sensors", "geoaltitude",
    "squawk", "spi", "position_source"]

  /** The column list is the rename table applied to the output keys. */
  lemma SourceColumnsAreRenames()
    ensures |SourceColumns| == |OutputFields|
    ensures forall i :: 0 <= i < |OutputFields| ==> SourceColumns[i] == SourceColumn(OutputFields[i])
  {
    forall i | 0 <= i < |OutputFields| ensures SourceColumns[i] == SourceColumn(OutputFields[i]) {
      if i < 3 {
        assert SourceColumn(OutputFields[i]) == OutputFields[i];
      } else if i < 11 {
        assert i == 3 || i == 4 || i == 5 || i == 6 || i == 7 || i == 8 || i == 9 || i == 10;
      } else {
        assert i == 11 || i == 12 || i == 13 || i == 14 || i == 15 || i == 16;
      }
    }
  }

  /** One key of a normalised record and its value. */
  datatype Field = Field(key: string, value: Value)

  /** A normalised record: its key/value pairs in the dict's insertion order. */
  datatype Record = Record(fields: seq<Field>)

  /** Output keys are pairwise distinct, so a record is a dict with seventeen keys. */
  lemma OutputFieldsDistinct()
    ensures |OutputFields| == 17
    ensures forall i, j :: 0 <= i < j < |OutputFields| ==> OutputFields[i] != OutputFields[j]
  {
  }

  /**
   * `_row_to_dict(row)`: the seventeen output keys in order, each holding
   * the sanitised cell of its source column, None where the row lacks it.
   * The dict literal is written as the two position-aligned tables above.
   */
  function RowToDict(row: Row): (r: Record)
    ensures |r.fields| == |OutputFields|
    ensures forall i :: 0 <= i < |r.fields| ==> r.fields[i].key == OutputFields[i]
    ensures forall i :: 0 <= i < |r.fields| ==> r.fields[i].value == Sanitize(Get(row, SourceColumns[i]))
  {
    Record(seq(|OutputFields|, i requires 0 <= i < |OutputFields| =>
      Field(OutputFields[i], Sanitize(Get(row, SourceColumns[i])))))
  }

  /**
   * Every key of a normalised record holds the sanitised cell of the column
   * the rename table names for it, and None when the row lacks that column.
   */
  lemma RowToDictFollowsRenames(row: Row)
    ensures var r := RowToDict(row);
      && (forall i :: 0 <= i < |r.fields| ==> r.fields[i].value == Sanitize(Get(row, SourceColumn(r.fields[i].key))))
      && (forall i :: 0 <= i < |r.fields| && SourceColumn(r.fields[i].key) !in row ==> r.fields[i].value == Null)
  {
    SourceColumnsAreRenames();
  }

  /** What the REST call did: it raised, or it returned a data frame or None. */
  datatype FetchOutcome = Raised | Returned(frame: Option<seq<Row>>)

  /** `fetch_states()`: an exception becomes None. */
  function FetchStates(outcome: FetchOutcome): (r: Option<seq<Row>>)
    ensures outcome.Raised? ==> r.None?
    ensures outcome.Returned? ==> r == outcome.frame
  {
    match outcome
    case Raised => None
    case Returned(frame) => frame
  }

  /**
   * `get_states_dict()`: no records when the fetch failed or returned None,
   * otherwise one normalised record per row, in row order.
   */
  method GetStatesDict(outcome: FetchOutcome) returns (records: seq<Record>)
    ensures FetchStates(outcome).None? ==> records == []
    ensures FetchStates(outcome).Some? ==>
              var rows := FetchStates(outcome).value;
              |records| == |rows| && forall i :: 0 <= i < |rows| ==> records[i] == RowToDict(rows[i])
  {
    var df := FetchStates(outcome);
    if df.None? {
      return [];
    }
    var rows := df.value;
    records := [];
    var i := 0;
    while i < |rows|
      invariant 0 <= i <= |rows|
      invariant |records| == i && forall j :: 0 <= j < i ==> records[j] == RowToDict(rows[j])
    {
      var next := records + [RowToDict(rows[i])];
      assert forall j :: 0 <= j < i ==> next[j] == records[j];
      records := next;
      i := i + 1;
    }
  }
}
