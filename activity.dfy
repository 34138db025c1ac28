/** What importing one activity produces, as pure definitions: the activity's
    summary fields, its laps, and the heart-rate track and GPS route read from
    the tagged sample stream with a running cursor. The imperative
    `ImportActivity` in module Interpreter is proved equal to `ImportSpec`. */
module Activity {
  import opened Common
  import opened Calendar
  import opened Records

  /** Where the lap records start, and where the sample stream starts, relative
      to the activity's first page. */
  const LapsOffset := 0x40
  const SamplesOffset := 0x1000

  /** The running state of the sample loop: the current time and the last
      absolute position, which compact samples move by deltas. */
  datatype Cursor = Cursor(time: DateTime, lon: int, lat: int, alt: int)

  predicate CursorValid(c: Cursor)
  {
    Valid(c.time) && IsInt32(c.lon) && IsInt32(c.lat) && IsInt16(c.alt)
  }

  datatype HeartRatePoint = HeartRatePoint(time: DateTime, bpm: byte)
  datatype GpsPoint = GpsPoint(time: DateTime, lat: int, lon: int, alt: int)
  datatype Track = Track(heartRate: seq<HeartRatePoint>, route: seq<GpsPoint>)

  /** A lap, with its start and its duration in milliseconds; the start is
      counted from the activity's start time. */
  datatype Lap = Lap(startMs: int, durationMs: int, distance: int, avgHeartRate: byte)

  /** The activity handed to the host: the summary fields in their raw device
      units, the laps, the heart-rate track and the route (an empty track or
      route is one the host never created). */
  datatype ActivityData = ActivityData(
    start: DateTime, avgHeartRate: byte, calories: int, distance: int, totalSeconds: int,
    laps: seq<Lap>, heartRate: seq<HeartRatePoint>, route: seq<GpsPoint>)

  /** `ImportActivity` answers false (Rejected) or true with the activity it added. */
  datatype ImportResult = Rejected | Imported(activity: ActivityData)

  /** A device time stamp as a DateTime; the constructor raises on an impossible field. */
  function StampTime(t: Stamp): (r: Outcome<DateTime>)
    ensures r.Returned? ==> Valid(r.value) && r.value.year == 2000 + t.year
  {
    MakeDateTime(2000 + t.year, t.month, t.day, t.hour, t.minute, t.second)
  }

  // ---------------------------------------------------------------------
  // Laps
  // ---------------------------------------------------------------------

  /** A lap's split time (since the activity start) in milliseconds; the BCD
      byte counts hundredths of a second. With a valid BCD byte the whole
      seconds are the record's clock reading and the milliseconds part is ten
      times the hundredths; a byte that is not BCD still adds at most 1650 ms. */
  function SplitMs(l: LapRecord): (ms: int)
    ensures 0 <= ms
    ensures IsBcd(l.hundredths) ==>
              && ms / 1000 == (l.hours * 60 + l.minutes) * 60 + l.seconds
              && ms % 1000 == 10 * BcdValue(l.hundredths)
    ensures ((l.hours * 60 + l.minutes) * 60 + l.seconds) * 1000 <= ms
            <= ((l.hours * 60 + l.minutes) * 60 + l.seconds) * 1000 + 1650
  {
    ((l.hours * 60 + l.minutes) * 60 + l.seconds) * 1000 + 10 * BcdValue(l.hundredths)
  }

  /** The lap record j places after addr. */
  function LapAt(image: seq<byte>, addr: nat, j: nat): LapRecord
    requires addr + LapSize * (j + 1) <= |image|
  {
    DecodeLap(image[addr + LapSize * j..addr + LapSize * (j + 1)])
  }

  /** The lap loop, with the previous lap's end (its split) and the laps so far:
      each lap starts where the previous ended and lasts until its own split. */
  function Laps(image: seq<byte>, addr: nat, remaining: nat, prevSplit: int, acc: seq<Lap>): Outcome<seq<Lap>>
    decreases remaining
  {
    if remaining == 0 then Returned(acc)
    else
      match ReadRecord(image, addr, LapSize)
      case Threw(e) => Threw(e)
      case Returned(rec) =>
        var l := DecodeLap(rec);
        var split := SplitMs(l);
        Laps(image, addr + LapSize, remaining - 1, split, acc + [Lap(prevSplit, split - prevSplit, l.distance, l.avgHeartRate)])
  }

  /** The lap loop raises exactly when one of its records runs past the image. */
  lemma {:induction false} LapsRaise(image: seq<byte>, addr: nat, m: nat, prev: int, acc: seq<Lap>)
    ensures Laps(image, addr, m, prev, acc).Threw? <==> m > 0 && addr + LapSize * m > |image|
    ensures Laps(image, addr, m, prev, acc).Threw? ==> Laps(image, addr, m, prev, acc).error == Argument
    decreases m
  {
    if m > 0 && addr + LapSize <= |image| {
      var l := DecodeLap(image[addr..addr + LapSize]);
      LapsRaise(image, addr + LapSize, m - 1, SplitMs(l), acc + [Lap(prev, SplitMs(l) - prev, l.distance, l.avgHeartRate)]);
    }
  }

  /** The lap loop appends one lap per record to the laps it started with. */
  lemma {:induction false} LapsCount(image: seq<byte>, addr: nat, m: nat, prev: int, acc: seq<Lap>)
    requires Laps(image, addr, m, prev, acc).Returned?
    ensures |Laps(image, addr, m, prev, acc).value| == |acc| + m
    ensures Laps(image, addr, m, prev, acc).value[..|acc|] == acc
    decreases m
  {
    if m > 0 {
      var l := DecodeLap(image[addr..addr + LapSize]);
      var acc' := acc + [Lap(prev, SplitMs(l) - prev, l.distance, l.avgHeartRate)];
      LapsCount(image, addr + LapSize, m - 1, SplitMs(l), acc');
      var L := Laps(image, addr + LapSize, m - 1, SplitMs(l), acc').value;
      assert L[..|acc|] == L[..|acc'|][..|acc|];
    }
  }

  /** Lap j of a successful loop is read from the j-th record: it ends at that
      record's split, and the next lap starts there (the first lap starts at
      prevSplit). */
  lemma {:induction false} LapsRead(image: seq<byte>, addr: nat, m: nat, prev: int, acc: seq<Lap>)
    requires Laps(image, addr, m, prev, acc).Returned?
    ensures m > 0 ==> addr + LapSize * m <= |image|
    ensures |Laps(image, addr, m, prev, acc).value| == |acc| + m
    ensures var L := Laps(image, addr, m, prev, acc).value;
      (m > 0 ==> L[|acc|].startMs == prev)
      && forall j {:trigger LapAt(image, addr, j)} :: 0 <= j < m ==>
           L[|acc| + j].startMs + L[|acc| + j].durationMs == SplitMs(LapAt(image, addr, j))
           && L[|acc| + j].distance == LapAt(image, addr, j).distance
           && L[|acc| + j].avgHeartRate == LapAt(image, addr, j).avgHeartRate
           && (j + 1 < m ==> L[|acc| + j + 1].startMs == SplitMs(LapAt(image, addr, j)))
    decreases m
  {
    LapsRaise(image, addr, m, prev, acc);
    LapsCount(image, addr, m, prev, acc);
    if m > 0 {
      var rec := image[addr..addr + LapSize];
      var split := SplitMs(DecodeLap(rec));
      var acc' := acc + [Lap(prev, split - prev, DecodeLap(rec).distance, DecodeLap(rec).avgHeartRate)];
      LapsRead(image, addr + LapSize, m - 1, split, acc');
      LapsCount(image, addr + LapSize, m - 1, split, acc');
      var L := Laps(image, addr + LapSize, m - 1, split, acc').value;
      assert L[|acc|] == L[..|acc'|][|acc|] == acc'[|acc|];
      assert LapAt(image, addr, 0) == DecodeLap(rec);
      forall j {:trigger LapAt(image, addr, j)} | 1 <= j < m
        ensures L[|acc| + j].startMs + L[|acc| + j].durationMs == SplitMs(LapAt(image, addr, j))
        ensures L[|acc| + j].distance == LapAt(image, addr, j).distance
        ensures L[|acc| + j].avgHeartRate == LapAt(image, addr, j).avgHeartRate
        ensures j + 1 < m ==> L[|acc| + j + 1].startMs == SplitMs(LapAt(image, addr, j))
      {
        assert LapAt(image, addr + LapSize, j - 1) == LapAt(image, addr, j);
        assert |acc| + j == |acc'| + (j - 1);
      }
    }
  }

  function TotalDuration(laps: seq<Lap>): int
  {
    if laps == [] then 0 else TotalDuration(laps[..|laps| - 1]) + laps[|laps| - 1].durationMs
  }

  /** Laps that follow one another without gap: their durations add up to the
      time from the first start to the last end. */
  lemma {:induction false} DurationsTelescope(laps: seq<Lap>)
    requires |laps| >= 1
    requires forall j :: 0 <= j < |laps| - 1 ==> laps[j + 1].startMs == laps[j].startMs + laps[j].durationMs
    ensures TotalDuration(laps) == laps[|laps| - 1].startMs + laps[|laps| - 1].durationMs - laps[0].startMs
  {
    if |laps| > 1 {
      var init := laps[..|laps| - 1];
      DurationsTelescope(init);
    }
  }

  /** An activity's laps together last exactly until the last lap's split time. */
  lemma LapsTelescope(image: seq<byte>, addr: nat, m: nat)
    requires Laps(image, addr, m, 0, []).Returned? && m >= 1
    requires addr + LapSize * m <= |image|
    ensures TotalDuration(Laps(image, addr, m, 0, []).value) == SplitMs(LapAt(image, addr, m - 1))
  {
    LapsRead(image, addr, m, 0, []);
    var L := Laps(image, addr, m, 0, []).value;
    forall j | 0 <= j < |L| - 1
      ensures L[j + 1].startMs == L[j].startMs + L[j].durationMs
    {
      assert LapAt(image, addr, j) == LapAt(image, addr, j);
    }
    assert LapAt(image, addr, m - 1) == LapAt(image, addr, m - 1);
    DurationsTelescope(L);
  }

  // ---------------------------------------------------------------------
  // Samples
  // ---------------------------------------------------------------------

  /** Reading the sample at addr: its tag picks the record, and a tag that is
      none of the four (0xFF closes the stream) gives None. Reading the tag past
      the end of the image raises IndexOutOfRange; a record that does not fit
      raises ArgumentException. */
  function ReadSample(image: seq<byte>, addr: nat): (r: Outcome<Option<Sample>>)
    ensures addr >= |image| ==> r == Threw(IndexOutOfRange)
    ensures r.Returned? && r.value.Some? ==>
      addr + SampleSize(r.value.value) <= |image|
      && (image[addr] == Tag(r.value.value) || (r.value.value.Full? && image[addr] == 0x80))
    ensures addr < |image| && image[addr] !in {0x00, 0x80, 0x01, 0x03, 0x02} ==> r == Returned(None)
  {
    if addr >= |image| then Threw(IndexOutOfRange)
    else
      var tag := image[addr];
      if tag == 0x80 || tag == 0x00 then
        match ReadRecord(image, addr, FullSize)
        case Threw(e) => Threw(e)
        case Returned(rec) => Returned(Some(DecodeFull(rec)))
      else if tag == 0x01 then
        match ReadRecord(image, addr, ShortSize)
        case Threw(e) => Threw(e)
        case Returned(rec) => Returned(Some(DecodeShort(rec)))
      else if tag == 0x03 then
        match ReadRecord(image, addr, EmptySize)
        case Threw(e) => Threw(e)
        case Returned(rec) => Returned(Some(DecodeEmpty(rec)))
      else if tag == 0x02 then
        match ReadRecord(image, addr, NoDataSize)
        case Threw(e) => Threw(e)
        case Returned(rec) => Returned(Some(DecodeNoData(rec)))
      else Returned(None)
  }

  /** An encoded sample is read back as the sample it encodes, wherever it sits. */
  lemma ReadSampleRoundTrip(before: seq<byte>, s: Sample, fullTag: byte, after: seq<byte>)
    requires SampleFields(s) && (fullTag == 0x00 || fullTag == 0x80)
    ensures ReadSample(before + EncodeSample(s, fullTag) + after, |before|) == Returned(Some(s))
  {
    var e := EncodeSample(s, fullTag);
    var image := before + e + after;
    assert image[|before|..|before| + |e|] == e;
  }

  /** The cursor after a sample: a Full sample resets time and position to its
      absolute values; a Short sample rolls the time over and moves the position
      by its deltas with Int32 and Int16 wrap-around; Empty and NoData samples
      change only the time. */
  function Advance(c: Cursor, s: Sample): (r: Outcome<Cursor>)
    requires Valid(c.time)
    ensures r.Returned? ==> Valid(r.value.time)
    ensures r.Returned? && (s.Empty? || s.NoData?) ==> r.value == c.(time := r.value.time)
    ensures r.Returned? && s.Full? ==> r.value == Cursor(r.value.time, s.lon, s.lat, s.alt)
    ensures r.Threw? ==> r.error == ArgumentOutOfRange
  {
    match s
    case Full(_, stamp, lon, lat, alt, _) =>
      (match StampTime(stamp)
       case Threw(e) => Threw(e)
       case Returned(t) => Returned(Cursor(t, lon, lat, alt)))
    case Short(_, minute, second, dLon, dLat, dAlt, _) =>
      (match SetNewTime(c.time, minute, second)
       case Threw(e) => Threw(e)
       case Returned(t) => Returned(Cursor(t, Wrap32(c.lon + dLon), Wrap32(c.lat + dLat), Wrap16(c.alt + dAlt))))
    case Empty(stamp, _) =>
      (match StampTime(stamp)
       case Threw(e) => Threw(e)
       case Returned(t) => Returned(c.(time := t)))
    case NoData(minute, second) =>
      (match SetNewTime(c.time, minute, second)
       case Threw(e) => Threw(e)
       case Returned(t) => Returned(c.(time := t)))
  }

  /** The cursor stays within the Int32 / Int16 ranges of its C# variables. */
  lemma AdvanceKeepsRange(c: Cursor, s: Sample)
    requires CursorValid(c) && SampleFields(s) && Advance(c, s).Returned?
    ensures CursorValid(Advance(c, s).value)
  {
  }

  /** A Short sample moves the position by its deltas modulo the variables' widths. */
  lemma AdvanceShortMoves(c: Cursor, s: Sample)
    requires Valid(c.time) && s.Short? && Advance(c, s).Returned?
    ensures (Advance(c, s).value.lon - (c.lon + s.dLon)) % 0x1_0000_0000 == 0
    ensures (Advance(c, s).value.lat - (c.lat + s.dLat)) % 0x1_0000_0000 == 0
    ensures (Advance(c, s).value.alt - (c.alt + s.dAlt)) % 0x1_0000 == 0
    ensures Advance(c, s).value.time == SetNewTime(c.time, s.minute, s.second).value
  {
  }

  /** The heart-rate point a sample contributes: Full, Short and Empty samples
      with a nonzero heart rate contribute one, at the cursor's new time. */
  function HeartRatePoints(c: Cursor, s: Sample): (p: seq<HeartRatePoint>)
    ensures |p| <= 1
    ensures |p| == 1 <==> !s.NoData? && s.heartRate > 0
    ensures |p| == 1 ==> p[0] == HeartRatePoint(c.time, s.heartRate)
  {
    if !s.NoData? && s.heartRate > 0 then [HeartRatePoint(c.time, s.heartRate)] else []
  }

  /** The route point a sample contributes: Full and Short samples whose
      satellite byte has a nonzero low nibble contribute the cursor's position. */
  function RoutePoints(c: Cursor, s: Sample): (p: seq<GpsPoint>)
    ensures |p| <= 1
    ensures |p| == 1 <==> (s.Full? || s.Short?) && s.sat % 16 != 0
    ensures |p| == 1 ==> p[0] == GpsPoint(c.time, c.lat, c.lon, c.alt)
  {
    if (s.Full? || s.Short?) && s.sat % 16 != 0 then [GpsPoint(c.time, c.lat, c.lon, c.alt)] else []
  }

  /** One iteration of the sample loop: it stops on a tag it does not know,
      raises when the record or its time stamp does, and otherwise moves the
      cursor by the sample it read. */
  datatype Step = Stop | Raise(error: Exception) | Next(sample: Sample, cursor: Cursor)

  function SampleStep(image: seq<byte>, addr: nat, c: Cursor): (st: Step)
    requires Valid(c.time)
    ensures st.Next? ==> Valid(st.cursor.time)
  {
    match ReadSample(image, addr)
    case Threw(e) => Raise(e)
    case Returned(None) => Stop
    case Returned(Some(s)) =>
      match Advance(c, s)
      case Threw(e) => Raise(e)
      case Returned(c') => Next(s, c')
  }

  /** The sample loop, with at most `remaining` iterations left, the cursor, and
      the track so far. It stops early, without error, on a tag it does not know. */
  function Samples(image: seq<byte>, addr: nat, remaining: nat, c: Cursor, acc: Track): Outcome<Track>
    requires Valid(c.time)
    decreases remaining, 1
  {
    if remaining == 0 then Returned(acc) else Pass(image, addr, remaining, c, acc)
  }

  /** One pass of the sample loop, and the passes after it. */
  function Pass(image: seq<byte>, addr: nat, remaining: nat, c: Cursor, acc: Track): Outcome<Track>
    requires Valid(c.time) && remaining > 0
    decreases remaining, 0
  {
    match SampleStep(image, addr, c)
    case Raise(e) => Threw(e)
    case Stop => Returned(acc)
    case Next(s, c') =>
      Samples(image, addr + SampleSize(s), remaining - 1, c',
              Track(acc.heartRate + HeartRatePoints(c', s), acc.route + RoutePoints(c', s)))
  }

  /** One pass of the sample loop, as the loop's body sees it. */
  lemma SamplesStep(image: seq<byte>, addr: nat, m: nat, c: Cursor, acc: Track, st: Step)
    requires Valid(c.time) && m > 0 && st == SampleStep(image, addr, c)
    ensures st.Stop? ==> Samples(image, addr, m, c, acc) == Returned(acc)
    ensures st.Raise? ==> Samples(image, addr, m, c, acc) == Threw(st.error)
    ensures st.Next? ==>
      Samples(image, addr, m, c, acc)
        == Samples(image, addr + SampleSize(st.sample), m - 1, st.cursor,
                   Track(acc.heartRate + HeartRatePoints(st.cursor, st.sample), acc.route + RoutePoints(st.cursor, st.sample)))
  {
  }

  lemma PrefixChain<T>(t: seq<T>, mid: seq<T>, a: seq<T>, k: nat)
    requires |mid| <= |t| <= |mid| + k && t[..|mid|] == mid
    requires |a| <= |mid| <= |a| + 1 && mid[..|a|] == a
    ensures |a| <= |t| <= |a| + k + 1 && t[..|a|] == a
  {
    assert t[..|a|] == t[..|mid|][..|a|];
  }

  /** The loop only appends, and at most one heart-rate and one route point per iteration. */
  lemma {:induction false} SamplesAppend(image: seq<byte>, addr: nat, m: nat, c: Cursor, acc: Track)
    requires Valid(c.time) && Samples(image, addr, m, c, acc).Returned?
    ensures var t := Samples(image, addr, m, c, acc).value;
      |acc.heartRate| <= |t.heartRate| <= |acc.heartRate| + m && t.heartRate[..|acc.heartRate|] == acc.heartRate
      && |acc.route| <= |t.route| <= |acc.route| + m && t.route[..|acc.route|] == acc.route
    decreases m
  {
    if m > 0 {
      var st := SampleStep(image, addr, c);
      SamplesStep(image, addr, m, c, acc, st);
      if st.Next? {
        var s, c' := st.sample, st.cursor;
        var acc' := Track(acc.heartRate + HeartRatePoints(c', s), acc.route + RoutePoints(c', s));
        assert Samples(image, addr, m, c, acc) == Samples(image, addr + SampleSize(s), m - 1, c', acc');
        SamplesAppend(image, addr + SampleSize(s), m - 1, c', acc');
        var t := Samples(image, addr + SampleSize(s), m - 1, c', acc').value;
        PrefixChain(t.heartRate, acc'.heartRate, acc.heartRate, m - 1);
        PrefixChain(t.route, acc'.route, acc.route, m - 1);
      }
    }
  }

  /** A closing tag (0xFF, or any tag the loop does not know) ends the loop with
      the track as it is, however many iterations the count still allows. */
  lemma SamplesStop(image: seq<byte>, addr: nat, m: nat, c: Cursor, acc: Track)
    requires Valid(c.time) && m > 0
    requires addr < |image| && image[addr] !in {0x00, 0x80, 0x01, 0x03, 0x02}
    ensures Samples(image, addr, m, c, acc) == Returned(acc)
  {
  }

  /** A NoData sample only moves the clock: nothing is recorded for it. */
  lemma NoDataRecordsNothing(image: seq<byte>, addr: nat, m: nat, c: Cursor, acc: Track)
    requires Valid(c.time) && m > 0
    requires ReadSample(image, addr).Returned? && ReadSample(image, addr).value.Some?
    requires ReadSample(image, addr).value.value.NoData?
    requires SetNewTime(c.time, image[addr + 1], image[addr + 2]).Returned?
    ensures Samples(image, addr, m, c, acc)
         == Samples(image, addr + NoDataSize, m - 1, c.(time := SetNewTime(c.time, image[addr + 1], image[addr + 2]).value), acc)
  {
    var s := ReadSample(image, addr).value.value;
    assert s == NoData(image[addr + 1], image[addr + 2]);
    assert acc == Track(acc.heartRate + [], acc.route + []);
  }

  // ---------------------------------------------------------------------
  // One activity
  // ---------------------------------------------------------------------

  /** Importing activity n, whose first page starts at adrlist[n]: an index
      outside the list or a summary that does not fit in the image is answered
      with false; the summary's start time, then the laps and the samples may
      raise. */
  function ImportSpec(adrlist: seq<nat>, image: seq<byte>, n: int): Outcome<ImportResult>
  {
    if n < 0 || n >= |adrlist| then Returned(Rejected)
    else
      var a := adrlist[n];
      match ReadRecord(image, a, SummarySize)
      case Threw(_) => Returned(Rejected)
      case Returned(rec) =>
        var s := DecodeSummary(rec);
        match StampTime(s.start)
        case Threw(e) => Threw(e)
        case Returned(start) =>
          match Laps(image, a + LapsOffset, s.lapCount, 0, [])
          case Threw(e) => Threw(e)
          case Returned(laps) =>
            match Samples(image, a + SamplesOffset, s.sampleCount, Cursor(start, 0, 0, 0), Track([], []))
            case Threw(e) => Threw(e)
            case Returned(t) =>
              Returned(Imported(ActivityData(start, s.avgHeartRate, s.calories, s.distance,
                (s.elapsedHours * 60 + s.elapsedMinutes) * 60 + s.elapsedSeconds,
                laps, t.heartRate, t.route)))
  }

  /** ImportActivity answers false exactly when the index is outside the list
      or the summary at its offset runs past the end of the image. */
  lemma ImportRejected(adrlist: seq<nat>, image: seq<byte>, n: int)
    ensures ImportSpec(adrlist, image, n) == Returned(Rejected)
        <==> n < 0 || n >= |adrlist| || adrlist[n] + SummarySize > |image|
  {
  }

  /** An imported activity carries its summary and the laps and track the
      loops read: one lap per lap record, and at most one heart-rate and one
      route point per sample the summary counts. */
  lemma ImportedShape(adrlist: seq<nat>, image: seq<byte>, n: int)
    requires ImportSpec(adrlist, image, n).Returned? && ImportSpec(adrlist, image, n).value.Imported?
    ensures 0 <= n < |adrlist| && adrlist[n] + SummarySize <= |image|
    ensures var s := DecodeSummary(image[adrlist[n]..adrlist[n] + SummarySize]);
      var act := ImportSpec(adrlist, image, n).value.activity;
      Returned(act.start) == StampTime(s.start)
      && |act.laps| == s.lapCount
      && |act.heartRate| <= s.sampleCount && |act.route| <= s.sampleCount
      && act.totalSeconds == 3600 * s.elapsedHours + 60 * s.elapsedMinutes + s.elapsedSeconds
  {
    var a := adrlist[n];
    var s := DecodeSummary(image[a..a + SummarySize]);
    var start := StampTime(s.start).value;
    LapsRead(image, a + LapsOffset, s.lapCount, 0, []);
    SamplesAppend(image, a + SamplesOffset, s.sampleCount, Cursor(start, 0, 0, 0), Track([], []));
  }
}
