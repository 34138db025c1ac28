/** The memory-image decoder: the list of activity offsets read from the index
    table, and the import of one activity with its lap loop and its sample loop
    over a running cursor. Each method is proved equal to the definition in
    module Header or module Activity that states what it computes. */
module Interpreter {
  import opened Common
  import opened Header
  import opened Calendar
  import opened Records
  import opened Activity

  /** Offsets that start a page a byte page number can name. */
  predicate PageStarts(list: seq<nat>)
  {
    forall k :: 0 <= k < |list| ==> list[k] % PageSize == 0 && list[k] <= 0xFF000
  }

  lemma PageStartsAppend(list: seq<nat>, pages: seq<byte>)
    requires PageStarts(list)
    ensures PageStarts(list + Offsets(pages))
  {
    OffsetsOnPageBoundaries(pages);
  }

  /** What one pass of the sample loop's body reports for the step st taken
      at ulAdr: a valid cursor time; false exactly when the loop stops; the
      exception when the step raises; and otherwise true, the moved cursor, the
      address of the next sample, and flags that select exactly the heart-rate
      and route points the step contributes. */
  predicate Reports(st: Step, ulAdr: nat, status: Outcome<bool>, c: Cursor, herz: byte, validHerz: bool, validGps: bool, next: nat)
  {
    Calendar.Valid(c.time)
    && (st.Stop? <==> status == Returned(false))
    && (st.Raise? ==> status == Threw(st.error))
    && (st.Next? ==>
          status == Returned(true) && c == st.cursor && next == ulAdr + SampleSize(st.sample)
          && HeartRatePoints(st.cursor, st.sample) == (if validHerz then [HeartRatePoint(c.time, herz)] else [])
          && RoutePoints(st.cursor, st.sample) == (if validGps then [GpsPoint(c.time, c.lat, c.lon, c.alt)] else []))
  }

  lemma SeqAssoc<T>(a: seq<T>, b: seq<T>, c: seq<T>)
    ensures a + (b + c) == (a + b) + c
  {
  }

  class NavRunInterpreter {
    /** Start offsets of the activities found so far, in table order. */
    var adrlist: seq<nat>

    /** Every offset is the start of a page a byte page number can name, so
        the 32-bit address arithmetic on it never wraps. */
    predicate Valid()
      reads this
    {
      PageStarts(adrlist)
    }

    constructor()
      ensures adrlist == [] && Valid()
    {
      adrlist := [];
    }

    /** Appends the offset of every activity of the index table to `adrlist`
        and returns their number. The walk raises when the table runs off the
        end of the image; the offsets found until then stay appended. */
    method GetNumberOfActivities(data: seq<byte>) returns (r: Outcome<int>)
      requires Valid()
      modifies this
      ensures Valid()
      ensures adrlist == old(adrlist) + Offsets(ActivityPages(data).entries)
      ensures r == if ActivityPages(data).complete then Returned(|ActivityPages(data).entries|)
                   else Threw(IndexOutOfRange)
    {
      var actCount := 0;
      var aktAdr := TableStart;
      var bFertig := false;

      if |data| < HeaderSize {
        return Returned(0);
      }
      if data[aktAdr] == Terminator {
        return Returned(0);
      }

      actCount := actCount + 1;
      adrlist := adrlist + [PageOffset(data[aktAdr])];
      ghost var pages := [data[aktAdr]];

      while !bFertig
        invariant TableStart <= aktAdr < |data|
        invariant actCount == |pages|
        invariant adrlist == old(adrlist) + Offsets(pages)
        invariant !bFertig ==> data[aktAdr] != Terminator
        invariant !bFertig ==>
          ActivityPages(data) == Walk(pages + WalkFrom(data, aktAdr).entries, WalkFrom(data, aktAdr).complete)
        invariant bFertig ==> ActivityPages(data) == Walk(pages, true)
        decreases |data| - aktAdr, !bFertig
      {
        ghost var w := WalkFrom(data, aktAdr);
        var next := SkipActivity(data, aktAdr);
        if next.Threw? {
          PageStartsAppend(old(adrlist), pages);
          return Threw(next.error);
        }
        aktAdr := next.value;
        if data[aktAdr] != Terminator {
          actCount := actCount + 1;
          OffsetsAppend(pages, data[aktAdr]);
          adrlist := adrlist + [PageOffset(data[aktAdr])];
          SeqAssoc(pages, [data[aktAdr]], WalkFrom(data, aktAdr).entries);
          pages := pages + [data[aktAdr]];
        } else {
          bFertig := true;
        }
      }
      PageStartsAppend(old(adrlist), pages);
      return Returned(actCount);
    }

    /** The inner scan of GetNumberOfActivities: from an activity's first page
        entry to the byte after the terminator that ends its list, which raises
        when the image ends first. */
    method SkipActivity(data: seq<byte>, entry: nat) returns (next: Outcome<nat>)
      requires entry < |data| && data[entry] != Terminator
      ensures next.Threw? <==> WalkFrom(data, entry) == Walk([], false)
      ensures next.Threw? ==> next.error == IndexOutOfRange
      ensures next.Returned? ==> entry < next.value < |data| && next.value == NextTerminator(data, entry) + 1
      ensures next.Returned? && data[next.value] == Terminator ==> WalkFrom(data, entry) == Walk([], true)
      ensures next.Returned? && data[next.value] != Terminator ==>
        WalkFrom(data, entry) == Walk([data[next.value]] + WalkFrom(data, next.value).entries, WalkFrom(data, next.value).complete)
    {
      var aktAdr := entry;
      while aktAdr < |data| && data[aktAdr] != Terminator
        invariant entry <= aktAdr <= |data|
        invariant NextTerminator(data, aktAdr) == NextTerminator(data, entry)
      {
        aktAdr := aktAdr + 1;
      }
      if aktAdr == |data| {
        return Threw(IndexOutOfRange);
      }
      aktAdr := aktAdr + 1;
      if aktAdr == |data| {
        return Threw(IndexOutOfRange);
      }
      return Returned(aktAdr);
    }

    /** Copies the `size` bytes at `offset` into a fresh buffer, or raises
        ArgumentException when they run past the end of the image. */
    method ByteArrayToStruct(image: seq<byte>, offset: nat, size: nat) returns (r: Outcome<seq<byte>>)
      ensures r == ReadRecord(image, offset, size)
    {
      if |image| < offset + size {
        return Threw(Argument);
      }
      var tmp := new byte[size];
      var k := 0;
      while k < size
        invariant 0 <= k <= size
        invariant tmp[..k] == image[offset..offset + k]
      {
        tmp[k] := image[offset + k];
        k := k + 1;
      }
      assert tmp[..] == tmp[..size];
      return Returned(tmp[..]);
    }

    /** Imports activity n: false for an index outside the list or a summary
        that does not fit, otherwise the activity the lap and sample loops
        build, unless a record or a time stamp on the way raises. */
    method ImportActivity(data: seq<byte>, n: int) returns (r: Outcome<ImportResult>)
      requires Valid()
      ensures r == ImportSpec(adrlist, data, n)
    {
      if n >= |adrlist| {
        return Returned(Rejected);
      }
      if n < 0 {
        return Returned(Rejected);
      }
      var record := ByteArrayToStruct(data, adrlist[n], SummarySize);
      if record.Threw? {
        return Returned(Rejected);
      }
      var summary := DecodeSummary(record.value);
      var started := MakeDateTime(2000 + summary.start.year, summary.start.month, summary.start.day,
                                  summary.start.hour, summary.start.minute, summary.start.second);
      if started.Threw? {
        return Threw(started.error);
      }
      var aktDateTime := started.value;
      var trainingTime := (summary.elapsedHours * 60 + summary.elapsedMinutes) * 60 + summary.elapsedSeconds;

      var laps := ReadLaps(data, adrlist[n], summary.lapCount);
      if laps.Threw? {
        return Threw(laps.error);
      }
      var track := ReadSamples(data, adrlist[n], summary.sampleCount, aktDateTime);
      if track.Threw? {
        return Threw(track.error);
      }
      return Returned(Imported(ActivityData(aktDateTime, summary.avgHeartRate, summary.calories,
        summary.distance, trainingTime, laps.value, track.value.heartRate, track.value.route)));
    }

    /** The lap loop of ImportActivity: lap records from start + 0x40 on, each
        lap running from the previous split (the activity start for the first)
        to its own. */
    method ReadLaps(data: seq<byte>, start: nat, lapCount: byte) returns (r: Outcome<seq<Lap>>)
      requires start <= 0xFF000
      ensures r == Laps(data, start + LapsOffset, lapCount, 0, [])
    {
      var rundenStart := 0;
      var ulAdr: nat := start + LapsOffset;
      var laps: seq<Lap> := [];
      var runde := 0;
      while runde < lapCount
        invariant 0 <= runde <= lapCount
        invariant Laps(data, start + LapsOffset, lapCount, 0, []) == Laps(data, ulAdr, lapCount - runde, rundenStart, laps)
      {
        var record := ByteArrayToStruct(data, ulAdr, LapSize);
        if record.Threw? {
          return Threw(record.error);
        }
        var l := DecodeLap(record.value);
        var zwischenzeit := ((l.hours * 60 + l.minutes) * 60 + l.seconds) * 1000 + 10 * BcdValue(l.hundredths);
        var rundenEnde := zwischenzeit;
        var dauer := rundenEnde - rundenStart;
        laps := laps + [Lap(rundenStart, dauer, l.distance, l.avgHeartRate)];
        rundenStart := rundenEnde;
        ulAdr := ulAdr + LapSize;
        runde := runde + 1;
      }
      return Returned(laps);
    }

    /** The sample loop of ImportActivity: at most sampleCount samples from
        start + 0x1000 on, each moving the cursor and adding the heart-rate and
        route points it carries; a closing or unknown tag ends the loop. */
    method ReadSamples(data: seq<byte>, start: nat, sampleCount: int, startTime: DateTime) returns (r: Outcome<Track>)
      requires start <= 0xFF000 && 0 <= sampleCount < 0x1_0000 && Calendar.Valid(startTime)
      ensures r == Samples(data, start + SamplesOffset, sampleCount, Cursor(startTime, 0, 0, 0), Track([], []))
    {
      var aktDateTime := startTime;
      var aktLaenge, aktBreite, aktHoehe := 0, 0, 0;
      var heartRate: seq<HeartRatePoint> := [];
      var route: seq<GpsPoint> := [];
      var ulAdr: nat := start + SamplesOffset;
      var i := 0;
      ghost var total := Samples(data, ulAdr, sampleCount, Cursor(startTime, 0, 0, 0), Track([], []));
      ghost var rest: nat := sampleCount;
      while i < sampleCount
        invariant 0 <= i <= sampleCount && rest == sampleCount - i && Calendar.Valid(aktDateTime)
        invariant total == Samples(data, ulAdr, rest, Cursor(aktDateTime, aktLaenge, aktBreite, aktHoehe), Track(heartRate, route))
      {
        var status;
        status, aktDateTime, aktLaenge, aktBreite, aktHoehe, heartRate, route, ulAdr
          := SampleIteration(data, ulAdr, rest, aktDateTime, aktLaenge, aktBreite, aktHoehe, heartRate, route, total);
        if status.Threw? {
          return Threw(status.error);
        }
        if !status.value {
          break;
        }
        i, rest := i + 1, rest - 1;
      }
      return Returned(Track(heartRate, route));
    }

    /** One pass of the sample loop's body, with m passes still allowed and
        total the outcome the loop has from here on: the sample read, the cursor
        moved, and the track extended by what it carries. It raises what the
        loop raises, answers false where the loop ends with the track as it is,
        and otherwise leaves total to the remaining m - 1 passes. */
    method SampleIteration(data: seq<byte>, ulAdr: nat, ghost m: nat, time: DateTime, lon: int, lat: int, alt: int,
                           heartRate: seq<HeartRatePoint>, route: seq<GpsPoint>, ghost total: Outcome<Track>)
      returns (status: Outcome<bool>, aktDateTime: DateTime, aktLaenge: int, aktBreite: int, aktHoehe: int,
               heartRate': seq<HeartRatePoint>, route': seq<GpsPoint>, next: nat)
      requires Calendar.Valid(time) && m > 0
      requires total == Samples(data, ulAdr, m, Cursor(time, lon, lat, alt), Track(heartRate, route))
      ensures Calendar.Valid(aktDateTime)
      ensures status.Threw? ==> total == Threw(status.error)
      ensures status == Returned(false) ==> total == Returned(Track(heartRate', route'))
      ensures status == Returned(true) ==>
        total == Samples(data, next, m - 1, Cursor(aktDateTime, aktLaenge, aktBreite, aktHoehe), Track(heartRate', route'))
    {
      var aktHerz, bValidHerz, bValidGPS;
      ghost var st := SampleStep(data, ulAdr, Cursor(time, lon, lat, alt));
      status, aktDateTime, aktLaenge, aktBreite, aktHoehe, aktHerz, bValidHerz, bValidGPS, next
        := NextSample(data, ulAdr, time, lon, lat, alt);
      SamplesStep(data, ulAdr, m, Cursor(time, lon, lat, alt), Track(heartRate, route), st);
      heartRate', route' := heartRate, route;
      if status != Returned(true) {
        return;
      }
      if bValidHerz {
        heartRate' := heartRate' + [HeartRatePoint(aktDateTime, aktHerz)];
      }
      if bValidGPS {
        route' := route' + [GpsPoint(aktDateTime, aktBreite, aktLaenge, aktHoehe)];
      }
      assert heartRate' == heartRate + HeartRatePoints(st.cursor, st.sample);
      assert route' == route + RoutePoints(st.cursor, st.sample);
    }

    /** One pass of the sample loop's body: reads the sample at ulAdr by its tag
        and moves the cursor (time, longitude, latitude, altitude) by it. The
        status is false for the tags that end the loop. The flags say whether
        the sample carries a heart rate and a GPS fix to record. */
    method NextSample(data: seq<byte>, ulAdr: nat, time: DateTime, lon: int, lat: int, alt: int)
      returns (status: Outcome<bool>, aktDateTime: DateTime, aktLaenge: int, aktBreite: int, aktHoehe: int,
               aktHerz: byte, bValidHerz: bool, bValidGPS: bool, next: nat)
      requires Calendar.Valid(time)
      ensures Reports(SampleStep(data, ulAdr, Cursor(time, lon, lat, alt)), ulAdr, status, Cursor(aktDateTime, aktLaenge, aktBreite, aktHoehe), aktHerz, bValidHerz, bValidGPS, next)
    {
      if ulAdr >= |data| {
        aktDateTime, aktLaenge, aktBreite, aktHoehe := time, lon, lat, alt;
        aktHerz, bValidHerz, bValidGPS, next := 0, false, false, ulAdr;
        status := Threw(IndexOutOfRange);
        return;
      }
      var tag := data[ulAdr];
      if tag == 0x80 || tag == 0x00 {
        status, aktDateTime, aktLaenge, aktBreite, aktHoehe, aktHerz, bValidHerz, bValidGPS, next
          := FullSample(data, ulAdr, time, lon, lat, alt);
      } else if tag == 0x01 {
        status, aktDateTime, aktLaenge, aktBreite, aktHoehe, aktHerz, bValidHerz, bValidGPS, next
          := ShortSample(data, ulAdr, time, lon, lat, alt);
      } else if tag == 0x03 {
        status, aktDateTime, aktLaenge, aktBreite, aktHoehe, aktHerz, bValidHerz, bValidGPS, next
          := EmptySample(data, ulAdr, time, lon, lat, alt);
      } else if tag == 0x02 {
        status, aktDateTime, aktLaenge, aktBreite, aktHoehe, aktHerz, bValidHerz, bValidGPS, next
          := NoDataSample(data, ulAdr, time, lon, lat, alt);
      } else {
        // 0xFF closes the stream; any other tag ends the loop the same way
        aktDateTime, aktLaenge, aktBreite, aktHoehe := time, lon, lat, alt;
        aktHerz, bValidHerz, bValidGPS, next := 0, false, false, ulAdr;
        status := Returned(false);
      }
    }

    /** A full sample (tag 0x80 or 0x00): absolute time stamp and position. */
    method FullSample(data: seq<byte>, ulAdr: nat, time: DateTime, lon: int, lat: int, alt: int)
      returns (status: Outcome<bool>, aktDateTime: DateTime, aktLaenge: int, aktBreite: int, aktHoehe: int,
               aktHerz: byte, bValidHerz: bool, bValidGPS: bool, next: nat)
      requires Calendar.Valid(time) && ulAdr < |data| && (data[ulAdr] == 0x80 || data[ulAdr] == 0x00)
      ensures Reports(SampleStep(data, ulAdr, Cursor(time, lon, lat, alt)), ulAdr, status, Cursor(aktDateTime, aktLaenge, aktBreite, aktHoehe), aktHerz, bValidHerz, bValidGPS, next)
    {
      aktDateTime, aktLaenge, aktBreite, aktHoehe := time, lon, lat, alt;
      aktHerz, bValidHerz, bValidGPS, next := 0, false, false, ulAdr;
      var record := ByteArrayToStruct(data, ulAdr, FullSize);
      if record.Threw? {
        status := Threw(record.error);
        return;
      }
      var s := DecodeFull(record.value);
      var t := MakeDateTime(2000 + s.stamp.year, s.stamp.month, s.stamp.day, s.stamp.hour, s.stamp.minute, s.stamp.second);
      if t.Threw? {
        status := Threw(t.error);
        return;
      }
      aktDateTime := t.value;
      aktLaenge, aktBreite, aktHoehe := s.lon, s.lat, s.alt;
      aktHerz := s.heartRate;
      if s.sat % 16 != 0 {
        bValidGPS := true;
      }
      if aktHerz > 0 {
        bValidHerz := true;
      }
      next := ulAdr + FullSize;
      status := Returned(true);
    }

    /** A compact sample (tag 0x01): minute and second, and position deltas
        added with the wrap-around of the Int32 and Int16 cursor variables. */
    method ShortSample(data: seq<byte>, ulAdr: nat, time: DateTime, lon: int, lat: int, alt: int)
      returns (status: Outcome<bool>, aktDateTime: DateTime, aktLaenge: int, aktBreite: int, aktHoehe: int,
               aktHerz: byte, bValidHerz: bool, bValidGPS: bool, next: nat)
      requires Calendar.Valid(time) && ulAdr < |data| && data[ulAdr] == 0x01
      ensures Reports(SampleStep(data, ulAdr, Cursor(time, lon, lat, alt)), ulAdr, status, Cursor(aktDateTime, aktLaenge, aktBreite, aktHoehe), aktHerz, bValidHerz, bValidGPS, next)
    {
      aktDateTime, aktLaenge, aktBreite, aktHoehe := time, lon, lat, alt;
      aktHerz, bValidHerz, bValidGPS, next := 0, false, false, ulAdr;
      var record := ByteArrayToStruct(data, ulAdr, ShortSize);
      if record.Threw? {
        status := Threw(record.error);
        return;
      }
      var s := DecodeShort(record.value);
      var t := SetNewTime(aktDateTime, s.minute, s.second);
      if t.Threw? {
        status := Threw(t.error);
        return;
      }
      aktDateTime := t.value;
      aktLaenge := Wrap32(aktLaenge + s.dLon);
      aktBreite := Wrap32(aktBreite + s.dLat);
      aktHoehe := Wrap16(aktHoehe + s.dAlt);
      aktHerz := s.heartRate;
      if s.sat % 16 != 0 {
        bValidGPS := true;
      }
      if aktHerz > 0 {
        bValidHerz := true;
      }
      next := ulAdr + ShortSize;
      status := Returned(true);
    }

    /** A sample without position (tag 0x03): absolute time stamp and heart rate. */
    method EmptySample(data: seq<byte>, ulAdr: nat, time: DateTime, lon: int, lat: int, alt: int)
      returns (status: Outcome<bool>, aktDateTime: DateTime, aktLaenge: int, aktBreite: int, aktHoehe: int,
               aktHerz: byte, bValidHerz: bool, bValidGPS: bool, next: nat)
      requires Calendar.Valid(time) && ulAdr < |data| && data[ulAdr] == 0x03
      ensures Reports(SampleStep(data, ulAdr, Cursor(time, lon, lat, alt)), ulAdr, status, Cursor(aktDateTime, aktLaenge, aktBreite, aktHoehe), aktHerz, bValidHerz, bValidGPS, next)
    {
      aktDateTime, aktLaenge, aktBreite, aktHoehe := time, lon, lat, alt;
      aktHerz, bValidHerz, bValidGPS, next := 0, false, false, ulAdr;
      var record := ByteArrayToStruct(data, ulAdr, EmptySize);
      if record.Threw? {
        status := Threw(record.error);
        return;
      }
      var s := DecodeEmpty(record.value);
      var t := MakeDateTime(2000 + s.stamp.year, s.stamp.month, s.stamp.day, s.stamp.hour, s.stamp.minute, s.stamp.second);
      if t.Threw? {
        status := Threw(t.error);
        return;
      }
      aktDateTime := t.value;
      aktHerz := s.heartRate;
      if aktHerz > 0 {
        bValidHerz := true;
      }
      next := ulAdr + EmptySize;
      status := Returned(true);
    }

    /** A time-only sample (tag 0x02): minute and second, nothing to record. */
    method NoDataSample(data: seq<byte>, ulAdr: nat, time: DateTime, lon: int, lat: int, alt: int)
      returns (status: Outcome<bool>, aktDateTime: DateTime, aktLaenge: int, aktBreite: int, aktHoehe: int,
               aktHerz: byte, bValidHerz: bool, bValidGPS: bool, next: nat)
      requires Calendar.Valid(time) && ulAdr < |data| && data[ulAdr] == 0x02
      ensures Reports(SampleStep(data, ulAdr, Cursor(time, lon, lat, alt)), ulAdr, status, Cursor(aktDateTime, aktLaenge, aktBreite, aktHoehe), aktHerz, bValidHerz, bValidGPS, next)
    {
      aktDateTime, aktLaenge, aktBreite, aktHoehe := time, lon, lat, alt;
      aktHerz, bValidHerz, bValidGPS, next := 0, false, false, ulAdr;
      var record := ByteArrayToStruct(data, ulAdr, NoDataSize);
      if record.Threw? {
        status := Threw(record.error);
        return;
      }
      var s := DecodeNoData(record.value);
      var t := SetNewTime(aktDateTime, s.minute, s.second);
      if t.Threw? {
        status := Threw(t.error);
        return;
      }
      aktDateTime := t.value;
      next := ulAdr + NoDataSize;
      status := Returned(true);
    }
  }
}
