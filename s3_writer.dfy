/**
 * The S3 sink (src/streaming/consumer_s3_writer.py): the object key built
 * from the wall clock, the empty-batch guard, and the append-then-flush
 * policy of the consumer loop. Kafka, pandas, the parquet file and the
 * boto3 upload are not modelled; a flush is recorded as the upload it
 * would request.
 */
module S3Writer {
  import opened Wrappers
  import opened Calendar

  const BatchSize: nat := 5000
  const BatchTimeout: real := 50.0

  // ---------------------------------------------------------------------
  // make_s3_key
  // ---------------------------------------------------------------------

  /** `now.strftime("%Y/%m/%d")` */
  function DatePath(t: Instant): string {
    assert Pow10(4) == 10000 && Pow10(2) == 100;
    Pad(t.year, 4) + "/" + Pad(t.month, 2) + "/" + Pad(t.day, 2)
  }

  /** `%Y%m%d` */
  function DateDigits(t: Instant): string {
    assert Pow10(4) == 10000 && Pow10(2) == 100;
    Pad(t.year, 4) + Pad(t.month, 2) + Pad(t.day, 2)
  }

  /** `%H%M%S` */
  function ClockDigits(t: Instant): string {
    assert Pow10(2) == 100;
    Pad(t.hour, 2) + Pad(t.minute, 2) + Pad(t.second, 2)
  }

  /** `now.strftime("%Y%m%dT%H%M%S")` */
  function Stamp(t: Instant): string {
    DateDigits(t) + "T" + ClockDigits(t)
  }

  /** `f"{S3_PREFIX}/date={date_path}/aircraft_states_{timestamp}.parquet"` */
  function MakeS3Key(t: Instant): string {
    "processed" + "/date=" + DatePath(t) + "/aircraft_states_" + Stamp(t) + ".parquet"
  }

  predicate AllDigits(s: string) {
    forall i :: 0 <= i < |s| ==> IsDigit(s[i])
  }

  lemma Split3(a: string, b: string, c: string)
    ensures var s := a + b + c;
      && s[..|a|] == a && s[|a|..|a| + |b|] == b && s[|a| + |b|..] == c && |s| == |a| + |b| + |c|
  {
  }

  /** `%Y/%m/%d` is ten characters: the three fields readable back, slashes at 4 and 7. */
  lemma DatePathLayout(t: Instant)
    ensures var p := DatePath(t);
      && |p| == 10 && p[4] == '/' && p[7] == '/'
      && AllDigits(p[..4]) && DecimalValue(p[..4]) == t.year
      && AllDigits(p[5..7]) && DecimalValue(p[5..7]) == t.month
      && AllDigits(p[8..]) && DecimalValue(p[8..]) == t.day
  {
    assert Pow10(4) == 10000 && Pow10(2) == 100;
    var y, mo, d := Pad(t.year, 4), Pad(t.month, 2), Pad(t.day, 2);
    var p := DatePath(t);
    Split3(y + "/", mo, "/" + d);
    assert p == (y + "/") + mo + ("/" + d);
    assert p[..4] == y;
    assert p[8..] == d;
  }

  /**
   * `%Y%m%dT%H%M%S` is fifteen characters: its first eight are the date
   * path without its slashes, a `T` follows, and the three clock fields
   * are readable back.
   */
  lemma StampLayout(t: Instant)
    ensures var p, s := DatePath(t), Stamp(t);
      && |s| == 15 && s[8] == 'T'
      && s[..8] == p[..4] + p[5..7] + p[8..]
      && AllDigits(s[9..11]) && DecimalValue(s[9..11]) == t.hour
      && AllDigits(s[11..13]) && DecimalValue(s[11..13]) == t.minute
      && AllDigits(s[13..]) && DecimalValue(s[13..]) == t.second
  {
    StampDate(t);
    StampClock(t);
  }

  /** The date half of the timestamp is the date path without its slashes, then `T`. */
  lemma StampDate(t: Instant)
    ensures var p, s := DatePath(t), Stamp(t);
      |s| == 15 && s[8] == 'T' && s[..8] == p[..4] + p[5..7] + p[8..]
  {
    assert Pow10(4) == 10000 && Pow10(2) == 100;
    var y, mo, d := Pad(t.year, 4), Pad(t.month, 2), Pad(t.day, 2);
    var p := DatePath(t);
    Split3(y + "/", mo, "/" + d);
    assert p == (y + "/") + mo + ("/" + d);
    assert p[..4] == y && p[5..7] == mo && p[8..] == d;
    Split3(DateDigits(t), "T", ClockDigits(t));
    Split3(y, mo, d);
  }

  /** The clock half of the timestamp: three two-digit fields after the `T`. */
  lemma StampClock(t: Instant)
    ensures var s := Stamp(t);
      && |s| == 15
      && s[9..11] == Pad(t.hour, 2) && s[11..13] == Pad(t.minute, 2) && s[13..] == Pad(t.second, 2)
  {
    assert Pow10(4) == 10000 && Pow10(2) == 100;
    var h, mi, sec := Pad(t.hour, 2), Pad(t.minute, 2), Pad(t.second, 2);
    var s := Stamp(t);
    Split3(DateDigits(t), "T", ClockDigits(t));
    Split3(h, mi, sec);
    assert s[9..] == ClockDigits(t);
    assert s[9..11] == s[9..][..2];
    assert s[11..13] == s[9..][2..4];
    assert s[13..] == s[9..][4..];
  }

  /**
   * The key is 65 characters: `processed/date=`, the date path, the
   * `/aircraft_states_` infix, the timestamp and `.parquet`, at fixed offsets.
   */
  lemma KeyLayout(t: Instant)
    ensures var k := MakeS3Key(t);
      && |k| == 65
      && k[..15] == "processed/date=" && k[15..25] == DatePath(t)
      && k[25..42] == "/aircraft_states_" && k[42..57] == Stamp(t) && k[57..] == ".parquet"
  {
    DatePathLayout(t);
    StampLayout(t);
    assert "processed" + "/date=" == "processed/date=";
    KeyJoin(MakeS3Key(t), DatePath(t), Stamp(t));
  }

  /** The key's constant pieces around a ten-character date path and a fifteen-character stamp. */
  lemma KeyJoin(k: string, path: string, stamp: string)
    requires |path| == 10 && |stamp| == 15
    requires k == "processed/date=" + path + "/aircraft_states_" + stamp + ".parquet"
    ensures |k| == 65
    ensures k[..15] == "processed/date=" && k[15..25] == path
    ensures k[25..42] == "/aircraft_states_" && k[42..57] == stamp && k[57..] == ".parquet"
  {
    var h := "processed/date=" + path + "/aircraft_states_";
    Split3(h, stamp, ".parquet");
    Split3("processed/date=", path, "/aircraft_states_");
    assert k[15..25] == k[..42][15..25];
    assert k[25..42] == k[..42][25..42];
  }

  predicate DateBefore(a: Instant, b: Instant) {
    || a.year < b.year
    || (a.year == b.year && a.month < b.month)
    || (a.year == b.year && a.month == b.month && a.day < b.day)
  }

  predicate SameDate(a: Instant, b: Instant) {
    a.year == b.year && a.month == b.month && a.day == b.day
  }

  predicate ClockBefore(a: Instant, b: Instant) {
    || a.hour < b.hour
    || (a.hour == b.hour && a.minute < b.minute)
    || (a.hour == b.hour && a.minute == b.minute && a.second < b.second)
  }

  /** Appending a zero-padded field refines the order of equal-length heads. */
  lemma ExtendPad(a: string, b: string, x: nat, y: nat, w: nat)
    requires |a| == |b| && x < Pow10(w) && y < Pow10(w)
    ensures LexLess(a + Pad(x, w), b + Pad(y, w)) <==> LexLess(a, b) || (a == b && x < y)
    ensures a + Pad(x, w) == b + Pad(y, w) <==> a == b && x == y
  {
    PadOrder(x, y, w);
    LexLessIrreflexive(a);
    LexAppend(a, Pad(x, w), b, Pad(y, w));
  }

  /** Appending one separator keeps the order of equal-length heads. */
  lemma ExtendSep(a: string, b: string, sep: string)
    requires |a| == |b|
    ensures LexLess(a + sep, b + sep) <==> LexLess(a, b)
    ensures a + sep == b + sep <==> a == b
  {
    LexLessIrreflexive(sep);
    LexLessIrreflexive(a);
    LexAppend(a, sep, b, sep);
  }

  /** `%Y/%m`, the head of the date path. */
  function YearMonthPath(t: Instant): (r: string)
    ensures |r| == 7
  {
    assert Pow10(4) == 10000 && Pow10(2) == 100;
    Pad(t.year, 4) + "/" + Pad(t.month, 2)
  }

  lemma YearMonthPathOrder(a: Instant, b: Instant)
    ensures LexLess(YearMonthPath(a), YearMonthPath(b)) <==>
              a.year < b.year || (a.year == b.year && a.month < b.month)
    ensures YearMonthPath(a) == YearMonthPath(b) <==> a.year == b.year && a.month == b.month
  {
    assert Pow10(4) == 10000 && Pow10(2) == 100;
    var pa, pb := Pad(a.year, 4), Pad(b.year, 4);
    PadOrder(a.year, b.year, 4);
    ExtendSep(pa, pb, "/");
    ExtendPad(pa + "/", pb + "/", a.month, b.month, 2);
  }

  /** The date path orders by date and names one date. */
  lemma DatePathOrder(a: Instant, b: Instant)
    ensures LexLess(DatePath(a), DatePath(b)) <==> DateBefore(a, b)
    ensures DatePath(a) == DatePath(b) <==> SameDate(a, b)
  {
    assert Pow10(2) == 100;
    var qa, qb := YearMonthPath(a), YearMonthPath(b);
    assert DatePath(a) == qa + "/" + Pad(a.day, 2);
    assert DatePath(b) == qb + "/" + Pad(b.day, 2);
    YearMonthPathOrder(a, b);
    ExtendSep(qa, qb, "/");
    ExtendPad(qa + "/", qb + "/", a.day, b.day, 2);
  }

  lemma DateDigitsOrder(a: Instant, b: Instant)
    ensures DateDigits(a) == DateDigits(b) <==> SameDate(a, b)
  {
    assert Pow10(4) == 10000 && Pow10(2) == 100;
    var pa, pb := Pad(a.year, 4), Pad(b.year, 4);
    var qa, qb := pa + Pad(a.month, 2), pb + Pad(b.month, 2);
    assert qa == qb <==> a.year == b.year && a.month == b.month by {
      PadOrder(a.year, b.year, 4);
      ExtendPad(pa, pb, a.month, b.month, 2);
    }
    assert DateDigits(a) == qa + Pad(a.day, 2) && DateDigits(b) == qb + Pad(b.day, 2);
    ExtendPad(qa, qb, a.day, b.day, 2);
  }

  lemma ClockDigitsOrder(a: Instant, b: Instant)
    ensures LexLess(ClockDigits(a), ClockDigits(b)) <==> ClockBefore(a, b)
    ensures ClockDigits(a) == ClockDigits(b) <==> a.hour == b.hour && a.minute == b.minute && a.second == b.second
  {
    assert Pow10(2) == 100;
    PadOrder(a.hour, b.hour, 2);
    var pa, pb := Pad(a.hour, 2), Pad(b.hour, 2);
    ExtendPad(pa, pb, a.minute, b.minute, 2);
    ExtendPad(pa + Pad(a.minute, 2), pb + Pad(b.minute, 2), a.second, b.second, 2);
  }

  /** On a shared date the timestamps order by the time of day. */
  lemma StampOrder(a: Instant, b: Instant)
    requires SameDate(a, b)
    ensures LexLess(Stamp(a), Stamp(b)) <==> ClockBefore(a, b)
    ensures Stamp(a) == Stamp(b) <==> a == b
  {
    DateDigitsOrder(a, b);
    ClockDigitsOrder(a, b);
    LexAppend(DateDigits(a) + "T", ClockDigits(a), DateDigits(b) + "T", ClockDigits(b));
  }

  /**
   * Lexicographic order of keys is chronological order of the instants
   * they were made from (all years have four digits here), and keys made at
   * different seconds differ.
   */
  lemma KeyOrderIsChronological(a: Instant, b: Instant)
    ensures LexLess(MakeS3Key(a), MakeS3Key(b)) <==> Before(a, b)
    ensures MakeS3Key(a) == MakeS3Key(b) <==> a == b
  {
    DatePathLayout(a);
    DatePathLayout(b);
    StampLayout(a);
    StampLayout(b);
    FieldsOrder("processed" + "/date=", "/aircraft_states_", ".parquet", DatePath(a), Stamp(a), DatePath(b), Stamp(b));
    DatePathOrder(a, b);
    if SameDate(a, b) {
      StampOrder(a, b);
    }
  }

  /**
   * Strings built from the same three separators around fields of equal
   * widths compare by their first field, then by their second.
   */
  lemma {:induction false} FieldsOrder(c1: string, c2: string, c3: string, pa: string, sa: string, pb: string, sb: string)
    requires |pa| == |pb| && |sa| == |sb|
    ensures LexLess(c1 + pa + c2 + sa + c3, c1 + pb + c2 + sb + c3) ==
              (if pa == pb then LexLess(sa, sb) else LexLess(pa, pb))
    ensures (c1 + pa + c2 + sa + c3 == c1 + pb + c2 + sb + c3) == (pa == pb && sa == sb)
  {
    LexLessIrreflexive(c1);
    LexLessIrreflexive(c2);
    LexLessIrreflexive(c3);
    LexLessIrreflexive(pa);
    LexLessIrreflexive(sa);
    LexAppend(c1, pa, c1, pb);
    var h1, h2 := c1 + pa, c1 + pb;
    LexAppend(h1, c2, h2, c2);
    LexAppend(h1 + c2, sa, h2 + c2, sb);
    LexAppend(h1 + c2 + sa, c3, h2 + c2 + sb, c3);
  }

  // ---------------------------------------------------------------------
  // write_batch_to_s3 and the consumer loop
  // ---------------------------------------------------------------------

  /** One requested upload: the object key and the records of the parquet file. */
  datatype Upload<T> = Upload(key: string, records: seq<T>)

  /** `write_batch_to_s3(batch)` at wall-clock time `now`; nothing for an empty batch. */
  function WriteBatch<T>(batch: seq<T>, now: Instant): (r: Option<Upload<T>>)
    ensures r.None? <==> batch == []
    ensures r.Some? ==> r.value.records == batch && r.value.key == MakeS3Key(now)
  {
    if batch == [] then None else Some(Upload(MakeS3Key(now), batch))
  }

  /** All uploaded records, upload after upload. */
  function Flatten<T>(us: seq<Upload<T>>): seq<T> {
    if us == [] then [] else Flatten(us[..|us| - 1]) + us[|us| - 1].records
  }

  /** One more upload appends its records to everything uploaded. */
  lemma FlattenSnoc<T>(us: seq<Upload<T>>, u: Upload<T>)
    ensures Flatten(us + [u]) == Flatten(us) + u.records
  {
    assert (us + [u])[..|us|] == us;
  }

  /** `len(batch) >= BATCH_SIZE or (current_time - last_flush_time) >= BATCH_TIMEOUT` */
  predicate ShouldFlush(batchLength: nat, elapsed: real) {
    batchLength >= BatchSize || elapsed >= BatchTimeout
  }

  /** The state of the consumer loop in `main`. */
  class BatchWriter<T> {
    var batch: seq<T>
    var lastFlushTime: real
    var uploads: seq<Upload<T>>
    /** Every record appended so far, in arrival order. */
    ghost var received: seq<T>

    /**
     * No record lost or duplicated, the open batch below the size bound,
     * every flushed batch non-empty and within the bound.
     */
    ghost predicate Valid()
      reads this
    {
      && Flatten(uploads) + batch == received
      && |batch| < BatchSize
      && forall u :: u in uploads ==> 0 < |u.records| <= BatchSize
    }

    /** `batch = []` and `last_flush_time = time.time()` */
    constructor (startTime: real)
      ensures Valid()
      ensures batch == [] && uploads == [] && received == [] && lastFlushTime == startTime
    {
      batch := [];
      lastFlushTime := startTime;
      uploads := [];
      received := [];
    }

    /** One iteration of `for message in consumer`, reading `current_time` and, on a flush, `now`. */
    method OnMessage(record: T, currentTime: real, now: Instant)
      requires Valid()
      modifies this
      ensures Valid()
      ensures received == old(received) + [record]
      ensures ShouldFlush(|old(batch)| + 1, currentTime - old(lastFlushTime)) ==>
                && uploads == old(uploads) + [Upload(MakeS3Key(now), old(batch) + [record])]
                && batch == [] && lastFlushTime == currentTime
      ensures !ShouldFlush(|old(batch)| + 1, currentTime - old(lastFlushTime)) ==>
                uploads == old(uploads) && batch == old(batch) + [record] && lastFlushTime == old(lastFlushTime)
    {
      var flush := ShouldFlush(|batch| + 1, currentTime - lastFlushTime);
      batch := batch + [record];
      received := received + [record];
      if flush {
        var u := WriteBatch(batch, now);
        FlattenSnoc(uploads, u.value);
        uploads := uploads + [u.value];
        batch := [];
        lastFlushTime := currentTime;
      }
    }
  }

  /** A consumed Kafka message with the two clock readings its iteration makes. */
  datatype Message<T> = Message(record: T, receivedAt: real, wallClock: Instant)

  function Records<T>(ms: seq<Message<T>>): (r: seq<T>)
    ensures |r| == |ms| && forall i :: 0 <= i < |ms| ==> r[i] == ms[i].record
  {
    seq(|ms|, i requires 0 <= i < |ms| => ms[i].record)
  }

  /** One more message appends its record. */
  lemma RecordsSnoc<T>(ms: seq<Message<T>>, i: nat)
    requires i < |ms|
    ensures Records(ms[..i + 1]) == Records(ms[..i]) + [ms[i].record]
  {
    assert ms[..i + 1] == ms[..i] + [ms[i]];
  }

  /** Every record of the open batch, the last `open` of the first `i` messages, arrived less than the timeout after `last`. */
  ghost predicate OpenWithinTimeout<T>(ms: seq<Message<T>>, i: nat, open: nat, last: real)
    requires open <= i <= |ms|
  {
    forall j :: i - open <= j < i ==> ms[j].receivedAt - last < BatchTimeout
  }

  /** A message either flushes, leaving nothing open, or joins the open batch within the timeout. */
  lemma OpenWithinTimeoutStep<T>(ms: seq<Message<T>>, i: nat, open: nat, last: real)
    requires open <= i < |ms| && OpenWithinTimeout(ms, i, open, last)
    ensures ShouldFlush(open + 1, ms[i].receivedAt - last) ==> OpenWithinTimeout(ms, i + 1, 0, ms[i].receivedAt)
    ensures !ShouldFlush(open + 1, ms[i].receivedAt - last) ==> OpenWithinTimeout(ms, i + 1, open + 1, last)
  {
  }

  /**
   * The loop of `main` over a finite stream of messages. Uploads followed
   * by the open batch are exactly the records in arrival order; every
   * upload is non-empty and within the size bound, the open batch is below
   * it, and every record still open arrived less than the timeout after the
   * last flush.
   */
  method Consume<T>(startTime: real, messages: seq<Message<T>>)
    returns (uploads: seq<Upload<T>>, pending: seq<T>, lastFlushTime: real)
    ensures Flatten(uploads) + pending == Records(messages)
    ensures |pending| < BatchSize
    ensures forall u :: u in uploads ==> 0 < |u.records| <= BatchSize
    ensures forall i :: |messages| - |pending| <= i < |messages| ==>
              messages[i].receivedAt - lastFlushTime < BatchTimeout
    ensures uploads == [] ==> lastFlushTime == startTime
  {
    var w := new BatchWriter<T>(startTime);
    var i := 0;
    while i < |messages|
      invariant 0 <= i <= |messages|
      invariant w.Valid() && w.received == Records(messages[..i])
      invariant |w.batch| <= i
      invariant OpenWithinTimeout(messages, i, |w.batch|, w.lastFlushTime)
      invariant w.uploads == [] ==> w.lastFlushTime == startTime
    {
      var m := messages[i];
      OpenWithinTimeoutStep(messages, i, |w.batch|, w.lastFlushTime);
      w.OnMessage(m.record, m.receivedAt, m.wallClock);
      RecordsSnoc(messages, i);
      i := i + 1;
    }
    assert messages[..i] == messages;
    uploads, pending, lastFlushTime := w.uploads, w.batch, w.lastFlushTime;
  }
}
