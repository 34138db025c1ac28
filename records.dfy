/** The packed records of the memory image: the activity summary, the lap
    records and the four kinds of track sample, each read as a bounds-checked
    slice of the image and decoded field by field (little-endian, no padding).
    Every decoder is paired with an encoder that builds a record it reads back
    unchanged; bytes the decoder ignores are written as zero. */
module Records {
  import opened Common

  const SummarySize := 47
  const LapSize := 16
  const FullSize := 25
  const ShortSize := 21
  const EmptySize := 8
  const NoDataSize := 3

  /** Copying `size` bytes at `offset` out of the image: raises ArgumentException
      when the record would run past the end, and yields exactly that slice otherwise. */
  function ReadRecord(image: seq<byte>, offset: nat, size: nat): (r: Outcome<seq<byte>>)
    ensures r.Threw? <==> offset + size > |image|
    ensures r.Threw? ==> r.error == Argument
    ensures r.Returned? ==> |r.value| == size && forall k :: 0 <= k < size ==> r.value[k] == image[offset + k]
  {
    if offset + size > |image| then Threw(Argument) else Returned(image[offset..offset + size])
  }

  // ---------------------------------------------------------------------
  // BCD
  // ---------------------------------------------------------------------

  /** ConvertBCDToHex: ten times the high nibble plus the low nibble. The source
      shifts and masks an int; for a negative int the arithmetic shift and the
      two's-complement mask agree with Dafny's floor division and remainder by 16. */
  function BcdValue(bcd: int): (v: int)
    ensures 0 <= bcd < 0x100 ==> 0 <= v <= 165
    ensures v == bcd - 6 * (bcd / 16)
  {
    10 * (bcd / 16) + bcd % 16
  }

  /** The BCD byte of a two-digit decimal number. */
  function BcdByte(v: int): (b: byte)
    requires 0 <= v < 100
    ensures b / 16 == v / 10 && b % 16 == v % 10
    ensures BcdValue(b) == v
  {
    16 * (v / 10) + v % 10
  }

  predicate IsBcd(b: byte)
  {
    b / 16 <= 9 && b % 16 <= 9
  }

  /** On a byte whose nibbles are both decimal digits, decoding and re-encoding
      gives the byte back, and the value is the two digits read in decimal. */
  lemma BcdRoundTrip(b: byte)
    requires IsBcd(b)
    ensures 0 <= BcdValue(b) < 100
    ensures BcdByte(BcdValue(b)) == b
  {
    var high, low := b / 16, b % 16;
    assert BcdValue(b) == 10 * high + low;
    assert (10 * high + low) / 10 == high && (10 * high + low) % 10 == low;
  }

  lemma BcdExamples()
    ensures BcdValue(0x19) == 19 && BcdValue(0x59) == 59 && BcdValue(0x00) == 0 && BcdValue(0xFF) == 165
  {
  }

  // ---------------------------------------------------------------------
  // Record contents
  // ---------------------------------------------------------------------

  /** A date and time as the device stores it: six bytes, the year counted from 2000. */
  datatype Stamp = Stamp(year: byte, month: byte, day: byte, hour: byte, minute: byte, second: byte)

  /** The activity summary; only the fields the import uses. */
  datatype Summary = Summary(
    sampleCount: int, lapCount: byte, start: Stamp,
    elapsedHours: byte, elapsedMinutes: byte, elapsedSeconds: byte,
    distance: int, avgHeartRate: byte, calories: int)

  /** A lap record: the split time since the activity start, with hundredths of a
      second in BCD, then the lap's average heart rate and distance. */
  datatype LapRecord = LapRecord(
    hours: byte, minutes: byte, seconds: byte, hundredths: byte,
    avgHeartRate: byte, distance: int)

  /** The four sample records, by tag: Full (0x00 or 0x80), Short (0x01),
      Empty (0x03) and NoData (0x02). */
  datatype Sample =
    | Full(sat: byte, stamp: Stamp, lon: int, lat: int, alt: int, heartRate: byte)
    | Short(sat: byte, minute: byte, second: byte, dLon: int, dLat: int, dAlt: int, heartRate: byte)
    | Empty(stamp: Stamp, heartRate: byte)
    | NoData(minute: byte, second: byte)

  predicate SummaryFields(s: Summary)
  {
    0 <= s.sampleCount < 0x1_0000 && 0 <= s.distance < 0x1_0000_0000 && 0 <= s.calories < 0x1_0000_0000
  }

  predicate LapFields(l: LapRecord)
  {
    0 <= l.distance < 0x1_0000_0000
  }

  predicate SampleFields(s: Sample)
  {
    match s
    case Full(_, _, lon, lat, alt, _) => IsInt32(lon) && IsInt32(lat) && IsInt16(alt)
    case Short(_, _, _, dLon, dLat, dAlt, _) => IsInt32(dLon) && IsInt32(dLat) && IsInt16(dAlt)
    case _ => true
  }

  // ---------------------------------------------------------------------
  // Decoders
  // ---------------------------------------------------------------------

  /** The summary keeps its start time as second, minute, hour, day, month, year. */
  function DecodeSummary(rec: seq<byte>): Summary
    requires |rec| == SummarySize
  {
    Summary(U16(rec, 0), rec[2], Stamp(rec[8], rec[7], rec[6], rec[5], rec[4], rec[3]),
            rec[11], rec[10], rec[9], U32(rec, 16), rec[28], U32(rec, 32))
  }

  function DecodeLap(rec: seq<byte>): LapRecord
    requires |rec| == LapSize
  {
    LapRecord(rec[0], rec[1], rec[2], rec[3], rec[4], U32(rec, 8))
  }

  /** The samples keep their time in the opposite order to the summary: year first. */
  function DecodeStamp(rec: seq<byte>, i: nat): Stamp
    requires i + 6 <= |rec|
  {
    Stamp(rec[i], rec[i + 1], rec[i + 2], rec[i + 3], rec[i + 4], rec[i + 5])
  }

  function DecodeFull(rec: seq<byte>): Sample
    requires |rec| == FullSize
  {
    Full(rec[1], DecodeStamp(rec, 2), I32(rec, 8), I32(rec, 12), I16(rec, 16), rec[24])
  }

  function DecodeShort(rec: seq<byte>): Sample
    requires |rec| == ShortSize
  {
    Short(rec[1], rec[2], rec[3], I32(rec, 4), I32(rec, 8), I16(rec, 12), rec[20])
  }

  function DecodeEmpty(rec: seq<byte>): Sample
    requires |rec| == EmptySize
  {
    Empty(DecodeStamp(rec, 1), rec[7])
  }

  function DecodeNoData(rec: seq<byte>): Sample
    requires |rec| == NoDataSize
  {
    NoData(rec[1], rec[2])
  }

  // ---------------------------------------------------------------------
  // Encoders, each the inverse of its decoder
  // ---------------------------------------------------------------------

  lemma U16Within(a: seq<byte>, b: seq<byte>, c: seq<byte>)
    requires |b| >= 2
    ensures U16(a + b + c, |a|) == U16(b, 0)
  {
    assert (a + b + c)[|a|] == b[0] && (a + b + c)[|a| + 1] == b[1];
  }

  lemma U32Within(a: seq<byte>, b: seq<byte>, c: seq<byte>)
    requires |b| >= 4
    ensures U32(a + b + c, |a|) == U32(b, 0)
  {
    var s := a + b + c;
    assert s[|a|] == b[0] && s[|a| + 1] == b[1] && s[|a| + 2] == b[2] && s[|a| + 3] == b[3];
  }

  function StampBytes(t: Stamp): (r: seq<byte>)
    ensures |r| == 6 && DecodeStamp(r, 0) == t
  {
    [t.year, t.month, t.day, t.hour, t.minute, t.second]
  }

  function EncodeSummary(s: Summary): (r: seq<byte>)
    requires SummaryFields(s)
    ensures |r| == SummarySize && DecodeSummary(r) == s
  {
    var head := LE16(s.sampleCount) + [s.lapCount, s.start.second, s.start.minute, s.start.hour,
                 s.start.day, s.start.month, s.start.year, s.elapsedSeconds, s.elapsedMinutes,
                 s.elapsedHours, 0, 0, 0, 0];
    var mid := [0, 0, 0, 0, 0, 0, 0, 0, s.avgHeartRate, 0, 0, 0];
    var tail := [0, 0, 0, 0, 0, 0, 0, 0, 0, 0, 0];
    var r := head + LE32(s.distance) + mid + LE32(s.calories) + tail;
    assert U16(r, 0) == U16(LE16(s.sampleCount), 0);
    assert r[2] == s.lapCount && r[3] == s.start.second && r[8] == s.start.year;
    assert r[9] == s.elapsedSeconds && r[11] == s.elapsedHours && r[28] == s.avgHeartRate;
    U32Within(head, LE32(s.distance), mid + LE32(s.calories) + tail);
    assert head + LE32(s.distance) + (mid + LE32(s.calories) + tail) == r;
    U32Within(head + LE32(s.distance) + mid, LE32(s.calories), tail);
    r
  }

  function EncodeLap(l: LapRecord): (r: seq<byte>)
    requires LapFields(l)
    ensures |r| == LapSize && DecodeLap(r) == l
  {
    var head := [l.hours, l.minutes, l.seconds, l.hundredths, l.avgHeartRate, 0, 0, 0];
    var tail := [0, 0, 0, 0];
    U32Within(head, LE32(l.distance), tail);
    head + LE32(l.distance) + tail
  }

  /** Encodes a sample under the given tag byte (which only the Full record leaves open). */
  function EncodeSample(s: Sample, fullTag: byte): (r: seq<byte>)
    requires SampleFields(s) && (fullTag == 0x00 || fullTag == 0x80)
    ensures |r| == SampleSize(s)
    ensures r[0] == if s.Full? then fullTag else Tag(s)
    ensures s.Full? ==> DecodeFull(r) == s
    ensures s.Short? ==> DecodeShort(r) == s
    ensures s.Empty? ==> DecodeEmpty(r) == s
    ensures s.NoData? ==> DecodeNoData(r) == s
  {
    match s
    case Full(_, _, _, _, _, _) => EncodeFull(s, fullTag)
    case Short(_, _, _, _, _, _, _) => EncodeShort(s)
    case Empty(stamp, hr) =>
      var r := [0x03] + StampBytes(stamp) + [hr];
      assert DecodeStamp(r, 1) == stamp;
      r
    case NoData(minute, second) =>
      [0x02, minute, second]
  }

  function EncodeFull(s: Sample, fullTag: byte): (r: seq<byte>)
    requires s.Full? && SampleFields(s)
    ensures |r| == FullSize && r[0] == fullTag && DecodeFull(r) == s
  {
    var head := [fullTag, s.sat] + StampBytes(s.stamp);
    var pad := [0, 0, 0, 0, 0, 0, s.heartRate];
    var r := head + LEI32(s.lon) + LEI32(s.lat) + LEI16(s.alt) + pad;
    assert DecodeStamp(r, 2) == s.stamp;
    U32Within(head, LEI32(s.lon), LEI32(s.lat) + LEI16(s.alt) + pad);
    assert head + LEI32(s.lon) + (LEI32(s.lat) + LEI16(s.alt) + pad) == r;
    U32Within(head + LEI32(s.lon), LEI32(s.lat), LEI16(s.alt) + pad);
    assert head + LEI32(s.lon) + LEI32(s.lat) + (LEI16(s.alt) + pad) == r;
    U16Within(head + LEI32(s.lon) + LEI32(s.lat), LEI16(s.alt), pad);
    r
  }

  function EncodeShort(s: Sample): (r: seq<byte>)
    requires s.Short? && SampleFields(s)
    ensures |r| == ShortSize && r[0] == 0x01 && DecodeShort(r) == s
  {
    var head := [0x01, s.sat, s.minute, s.second];
    var pad := [0, 0, 0, 0, 0, 0, s.heartRate];
    var r := head + LEI32(s.dLon) + LEI32(s.dLat) + LEI16(s.dAlt) + pad;
    U32Within(head, LEI32(s.dLon), LEI32(s.dLat) + LEI16(s.dAlt) + pad);
    assert head + LEI32(s.dLon) + (LEI32(s.dLat) + LEI16(s.dAlt) + pad) == r;
    U32Within(head + LEI32(s.dLon), LEI32(s.dLat), LEI16(s.dAlt) + pad);
    assert head + LEI32(s.dLon) + LEI32(s.dLat) + (LEI16(s.dAlt) + pad) == r;
    U16Within(head + LEI32(s.dLon) + LEI32(s.dLat), LEI16(s.dAlt), pad);
    r
  }

  /** The tag byte that selects each kind of sample (a Full sample is also tagged 0x80). */
  function Tag(s: Sample): byte
  {
    match s
    case Full(_, _, _, _, _, _) => 0x00
    case Short(_, _, _, _, _, _, _) => 0x01
    case Empty(_, _) => 0x03
    case NoData(_, _) => 0x02
  }

  function SampleSize(s: Sample): nat
  {
    match s
    case Full(_, _, _, _, _, _) => FullSize
    case Short(_, _, _, _, _, _, _) => ShortSize
    case Empty(_, _) => EmptySize
    case NoData(_, _) => NoDataSize
  }
}
