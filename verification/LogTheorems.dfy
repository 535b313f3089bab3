/** What the log format guarantees: round trips, truncation, and the detection of damage. */
module LogTheorems {
  import opened Wrappers
  import opened Crc32
  import opened LogFormat

  // The analog reader, which log files are read with, expects four bytes of data.
  const ANALOG: Option<nat> := Some(4)

  /** The record a reader makes of a sample. */
  function Recorded(s: Sample): Record {
    Record(s.time, s.sensor, s.data, Crc(RecordBody(s)))
  }

  // ----- one record

  /** Where the fields of an encoded record lie. */
  lemma EncodedFields(s: Sample, tail: Bytes)
    ensures var r, n := EncodeRecord(s) + tail, |s.data|;
            && |EncodeRecord(s)| == 17 + n && |r| == 17 + n + |tail|
            && r[..4] == RECORD_MARK && r[4..8] == WordBytes(s.time) && r[8..12] == WordBytes(s.sensor)
            && r[12] == s.length && r[13..13 + n] == s.data
            && r[..13 + n] == RecordBody(s) && r[13 + n..17 + n] == WordBytes(Crc(RecordBody(s)))
            && r[17 + n..] == tail && r[..17 + n] == EncodeRecord(s)
  {
    hide Crc, WordBytes;
  }

  /** A record reads back as what was written, unless its checksum happens to be 0: that one the
      reader takes for no record. */
  lemma RecordRoundTrip(s: Sample, tail: Bytes, expected: Option<nat>)
    requires s.Fits() && (expected.Some? ==> expected.value == |s.data|)
    ensures RecordAt(EncodeRecord(s) + tail, expected)
            == if Crc(RecordBody(s)) == 0 then Absent else Got(Recorded(s))
    ensures RecordTake(EncodeRecord(s) + tail, expected) == |EncodeRecord(s)|
  {
    hide Crc, WordBytes, Word, Value, EncodeRecord, RecordBody;
    EncodedFields(s, tail);
    WordRoundTrip(s.time);
    WordRoundTrip(s.sensor);
    WordRoundTrip(Crc(RecordBody(s)));
  }

  /** The time at which a sample's record has the checksum 0. */
  function ZeroTime(s: Sample): bv32 {
    Forged(RECORD_MARK, WordBytes(s.sensor) + [s.length] + s.data, 0)
  }

  /** There is exactly one for every sensor and data: such records do exist. */
  lemma ZeroChecksumIff(s: Sample)
    ensures Crc(RecordBody(s)) == 0 <==> s.time == ZeroTime(s)
  {
    hide Crc, WordBytes, Forged;
    var back := WordBytes(s.sensor) + [s.length] + s.data;
    ChecksumReached(RECORD_MARK, back, 0, s.time);
    assert RecordBody(s) == RECORD_MARK + WordBytes(s.time) + back;
  }

  /** The reader accepts nothing but encoded records: what it returns, written again, is what it
      read. */
  lemma AcceptedIsEncoded(rest: Bytes, expected: Option<nat>)
    requires RecordAt(rest, expected).Got?
    ensures var r := RecordAt(rest, expected).value;
            var s := Sample(r.timeDelta, r.sensorId, rest[12], r.data);
            && s.Fits() && r == Recorded(s) && r.crc != 0
            && RecordTake(rest, expected) == |EncodeRecord(s)| <= |rest|
            && rest[..|EncodeRecord(s)|] == EncodeRecord(s)
  {
    hide Crc, WordBytes, Word, Value;
    var n := Value(rest[12]);
    WordBytesRoundTrip(rest[4..8]);
    WordBytesRoundTrip(rest[8..12]);
    WordBytesRoundTrip(rest[13 + n..17 + n]);
    assert rest[..13 + n] == rest[..4] + rest[4..8] + rest[8..12] + [rest[12]] + rest[13..13 + n];
    assert rest[..17 + n] == rest[..13 + n] + rest[13 + n..17 + n];
  }

  // ----- damage

  lemma BurstFront(a: Bytes, b: Bytes, p: nat, s: bv8, n: nat)
    requires Burst(a, b, p, s) && n <= |a|
    ensures Burst(a[..n], b[..n], p, s)
  {
    hide OnlyFrom, OnlyBelow;
  }

  /** What is left of a burst behind some bytes is a burst. */
  lemma BurstBack(a: Bytes, b: Bytes, p: nat, s: bv8, n: nat) returns (q: nat, t: bv8)
    requires Burst(a, b, p, s) && n <= |a|
    ensures Burst(a[n..], b[n..], q, t)
  {
    hide OnlyFrom, OnlyBelow;
    if p >= n {
      q, t := p - n, s;
      forall k | 0 <= k < |a| - n && (k < q || k > q + 4) ensures a[n..][k] == b[n..][k] {
      }
    } else {
      q, t := 0, 0;
      forall k | 0 <= k < |a| - n && k > 3 ensures a[n..][k] == b[n..][k] {
      }
      if n < |a| {
        OnlyFromZero(a[n], b[n]);
      }
      if n + 4 < |a| {
        OnlyBelowZero(a[n + 4]);
      }
    }
  }

  /** Bytes that end with their checksum, and differ in a burst, cannot both agree with it. */
  lemma OneAgrees(a: Bytes, b: Bytes, p: nat, s: bv8)
    requires Burst(a, b, p, s) && a != b && |a| >= 4
    requires var n := |a| - 4; Word(a[n..]) == Crc(a[..n])
    ensures var n := |b| - 4; Word(b[n..]) != Crc(b[..n])
  {
    hide Burst, Crc, Word;
    assert |a| == |b| by {
      SameLength(a, b, p, s);
    }
    var n := |a| - 4;
    ResidueIffChecksum(a[..n], a[n..]);
    ResidueIffChecksum(b[..n], b[n..]);
    assert a[..n] + a[n..] == a && b[..n] + b[n..] == b;
    BitBurstChangesRegister(ONES, a, b, p, s);
  }

  lemma SameLength(a: Bytes, b: Bytes, p: nat, s: bv8)
    requires Burst(a, b, p, s)
    ensures |a| == |b|
  {
  }

  /** Bytes whose checksum agrees hold no record after a burst. */
  lemma BurstAbsent(rest: Bytes, other: Bytes, p: nat, s: bv8)
    requires |rest| >= 21 && Word(rest[17..21]) == Crc(rest[..17])
    requires Burst(rest, other, p, s) && rest[..21] != other[..21]
    ensures RecordAt(other, ANALOG) == Absent
  {
    hide Burst, Crc, Word, Value;
    SameLength(rest, other, p, s);
    BurstFront(rest, other, p, s, 21);
    var a, b := rest[..21], other[..21];
    assert a[17..] == rest[17..21] && a[..17] == rest[..17];
    assert b[17..] == other[17..21] && b[..17] == other[..17];
    OneAgrees(a, b, p, s);
    FourIsFour();
  }

  /** Change anything within 32 consecutive bits of a record the reader accepts, be it in the data,
      in the checksum, across both or across its end, and the reader no longer accepts it. */
  lemma BurstRejected(rest: Bytes, other: Bytes, p: nat, s: bv8)
    requires RecordAt(rest, ANALOG).Got?
    requires Burst(rest, other, p, s) && rest[..21] != other[..21]
    ensures RecordAt(other, ANALOG) == Absent
  {
    hide Burst;
    BurstAbsent(rest, other, p, s);
  }

  // ----- whole logs

  /** The records from the front of `rest` on, and whether reading ended by an exception. */
  function Records(rest: Bytes): (r: (seq<Record>, bool)) {
    match RecordAt(rest, ANALOG)
    case Absent => ([], false)
    case Raised => ([], true)
    case Got(record) =>
      AnalogSpan(rest);
      var (records, raised) := Records(rest[21..]);
      ([record] + records, raised)
  }

  lemma FourIsFour()
    ensures Value(4) == 4
  {
  }

  lemma AnalogSpan(rest: Bytes)
    requires RecordAt(rest, ANALOG).Got?
    ensures |rest| >= 21 && RecordTake(rest, ANALOG) == 21
  {
  }

  /** A sample of an analog sensor. */
  predicate Analog(s: Sample) {
    s.length == 4 && |s.data| == 4
  }

  function EncodeRecords(ss: seq<Sample>): Bytes {
    if ss == [] then [] else EncodeRecord(ss[0]) + EncodeRecords(ss[1..])
  }

  /** The samples before the first whose checksum is 0, as the reader returns them. */
  function Readable(ss: seq<Sample>): seq<Record> {
    if ss == [] || Crc(RecordBody(ss[0])) == 0 then [] else [Recorded(ss[0])] + Readable(ss[1..])
  }

  function RecordedAll(ss: seq<Sample>): seq<Record> {
    if ss == [] then [] else [Recorded(ss[0])] + RecordedAll(ss[1..])
  }

  lemma NothingThere()
    ensures RecordAt([], ANALOG) == Absent
  {
  }

  /** Where a record may be cut without the reader noticing more than an end: within the mark, and
      between two fields before the end of the data. Just before the checksum it does notice. */
  predicate QuietCut(c: nat) {
    c <= 4 || c == 8 || c == 12 || c == 13
  }

  lemma CutRecord(s: Sample, c: nat)
    requires Analog(s) && c < |EncodeRecord(s)|
    ensures RecordAt(EncodeRecord(s)[..c], ANALOG) == if QuietCut(c) then Absent else Raised
  {
    hide Crc, WordBytes, Word;
    FourIsFour();
    var e := EncodeRecord(s);
    EncodedFields(s, []);
    assert e + [] == e;
    if c >= 4 {
      assert e[..c][..4] == e[..4];
    }
  }

  /** No record's checksum is 0. */
  predicate Sound(ss: seq<Sample>) {
    forall s | s in ss :: Crc(RecordBody(s)) != 0
  }

  lemma {:induction false} SoundReadable(ss: seq<Sample>)
    ensures Readable(ss) <= RecordedAll(ss)
    ensures Sound(ss) <==> Readable(ss) == RecordedAll(ss)
  {
    hide RecordBody, Crc, Recorded;
    if ss != [] {
      SoundReadable(ss[1..]);
      assert RecordedAll(ss)[1..] == RecordedAll(ss[1..]);
      assert Sound(ss) <==> Crc(RecordBody(ss[0])) != 0 && Sound(ss[1..]);
    }
  }

  /** Reading goes through the records to what lies behind them, unless one has checksum 0. */
  lemma {:induction false} RecordsThenRest(ss: seq<Sample>, rest: Bytes)
    requires forall s | s in ss :: Analog(s)
    ensures |EncodeRecords(ss)| == 21 * |ss|
    ensures Records(EncodeRecords(ss) + rest)
            == if Sound(ss) then (RecordedAll(ss) + Records(rest).0, Records(rest).1) else (Readable(ss), false)
  {
    hide EncodeRecord, RecordBody, RecordAt, Crc, Recorded;
    if ss == [] {
      assert EncodeRecords(ss) + rest == rest && RecordedAll(ss) + Records(rest).0 == Records(rest).0;
    } else {
      var first, tail := EncodeRecord(ss[0]), EncodeRecords(ss[1..]) + rest;
      FourIsFour();
      assert Analog(ss[0]);
      EncodedFields(ss[0], tail);
      assert EncodeRecords(ss) + rest == first + tail;
      RecordRoundTrip(ss[0], tail, ANALOG);
      RecordsThenRest(ss[1..], rest);
      assert Sound(ss) <==> Crc(RecordBody(ss[0])) != 0 && Sound(ss[1..]);
      OneMore(Recorded(ss[0]), RecordedAll(ss[1..]), Records(rest).0);
    }
  }

  lemma OneMore(r: Record, rs: seq<Record>, more: seq<Record>)
    ensures [r] + (rs + more) == [r] + rs + more
  {
  }

  lemma {:induction false} EncodeSplit(ss: seq<Sample>, k: nat)
    requires k <= |ss|
    ensures EncodeRecords(ss) == EncodeRecords(ss[..k]) + EncodeRecords(ss[k..])
  {
    hide EncodeRecord;
    if k == 0 {
      assert ss[..0] == [] && ss[0..] == ss;
    } else {
      EncodeSplit(ss[1..], k - 1);
      SplitSlices(ss, k);
      BytesAssoc(EncodeRecord(ss[0]), EncodeRecords(ss[1..][..k - 1]), EncodeRecords(ss[k..]));
    }
  }

  lemma SplitSlices<T>(s: seq<T>, k: nat)
    requires 0 < k <= |s|
    ensures s[..k] != [] && s[..k][0] == s[0]
    ensures s[..k][1..] == s[1..][..k - 1] && s[1..][k - 1..] == s[k..]
  {
  }

  lemma BytesAssoc(a: Bytes, b: Bytes, c: Bytes)
    ensures a + (b + c) == a + b + c
  {
  }

  /** Any list of records reads back exactly, in order, up to the first whose checksum is 0. */
  lemma RecordsRoundTrip(ss: seq<Sample>)
    requires forall s | s in ss :: Analog(s)
    ensures Records(EncodeRecords(ss)) == (Readable(ss), false)
  {
    hide EncodeRecord, RecordAt, Sound;
    RecordsThenRest(ss, []);
    NothingThere();
    SoundReadable(ss);
    assert EncodeRecords(ss) + [] == EncodeRecords(ss) && RecordedAll(ss) + [] == RecordedAll(ss);
  }

  /** A list of records cut at any byte yields exactly the whole records before the cut, up to the
      first whose checksum is 0, and never a part of one; whether the reader, when it gets that
      far, stops quietly or raises depends only on where in a record the cut lies. */
  lemma RecordsCut(ss: seq<Sample>, c: nat)
    requires forall s | s in ss :: Analog(s)
    requires c <= |EncodeRecords(ss)|
    ensures |EncodeRecords(ss)| == 21 * |ss| && c / 21 <= |ss|
    ensures var whole := ss[..c / 21];
            Records(EncodeRecords(ss)[..c]) == (Readable(whole), Sound(whole) && !QuietCut(c % 21))
  {
    hide EncodeRecord, RecordAt, Records, Sound, Readable, RecordedAll;
    RecordsLength(ss);
    var k, d := c / 21, c % 21;
    var whole, after := ss[..k], EncodeRecords(ss[k..]);
    RecordsLength(whole);
    EncodeSplit(ss, k);
    RecordsThenRest(whole, after[..d]);
    assert EncodeRecords(ss)[..c] == EncodeRecords(whole) + after[..d];
    SoundReadable(whole);
    CutOnly(ss[k..], d);
    assert RecordedAll(whole) + [] == RecordedAll(whole);
  }

  lemma CutOnly(ss: seq<Sample>, d: nat)
    requires forall s | s in ss :: Analog(s)
    requires d < 21 && d <= |EncodeRecords(ss)|
    ensures Records(EncodeRecords(ss)[..d]) == ([], !QuietCut(d))
  {
    hide EncodeRecord, RecordAt;
    if ss == [] {
      NothingThere();
    } else {
      assert Analog(ss[0]);
      EncodedFields(ss[0], EncodeRecords(ss[1..]));
      CutRecord(ss[0], d);
      assert EncodeRecords(ss)[..d] == EncodeRecord(ss[0])[..d];
    }
  }

  /** A list of records damaged within 32 consecutive bits, across two records or not, yields
      exactly the records before the first one changed, up to the first whose checksum is 0. */
  lemma {:induction false} RecordsDamaged(ss: seq<Sample>, other: Bytes, p: nat, s: bv8) returns (k: nat)
    requires forall s | s in ss :: Analog(s)
    requires Burst(EncodeRecords(ss), other, p, s) && other != EncodeRecords(ss)
    ensures k < |ss| && |other| == |EncodeRecords(ss)| == 21 * |ss|
    ensures other[..21 * k] == EncodeRecords(ss)[..21 * k]
    ensures other[21 * k..21 * k + 21] != EncodeRecords(ss)[21 * k..21 * k + 21]
    ensures Records(other) == (Readable(ss[..k]), false)
    decreases |ss|
  {
    hide EncodeRecord, RecordAt, Burst, Recorded, RecordBody, Crc;
    var bytes := EncodeRecords(ss);
    RecordsLength(ss);
    SameLength(bytes, other, p, s);
    assert ss != [];
    if other[..21] != bytes[..21] {
      k := 0;
      FirstAgrees(ss);
      BurstAbsent(bytes, other, p, s);
    } else {
      var first, tail := EncodeRecord(ss[0]), other[21..];
      assert Analog(ss[0]);
      EncodedFields(ss[0], EncodeRecords(ss[1..]));
      assert bytes[21..] == EncodeRecords(ss[1..]) && bytes[..21] == first;
      assert other == first + tail && bytes == first + EncodeRecords(ss[1..]);
      var q, t := BurstBack(bytes, other, p, s, 21);
      k := RecordsDamaged(ss[1..], tail, q, t);
      FourIsFour();
      RecordRoundTrip(ss[0], tail, ANALOG);
      BehindFirst(first, EncodeRecords(ss[1..]), tail, k);
      assert ss[..k + 1][0] == ss[0] && ss[..k + 1][1..] == ss[1..][..k];
      k := k + 1;
    }
  }

  lemma BehindFirst(first: Bytes, a: Bytes, b: Bytes, k: nat)
    requires |first| == 21 && 21 * k + 21 <= |a| == |b|
    requires a[..21 * k] == b[..21 * k] && a[21 * k..21 * k + 21] != b[21 * k..21 * k + 21]
    ensures var m := 21 * (k + 1);
            && (first + a)[..m] == (first + b)[..m]
            && (first + a)[m..m + 21] != (first + b)[m..m + 21]
  {
    var m := 21 * (k + 1);
    assert (first + a)[..m] == first + a[..21 * k] && (first + b)[..m] == first + b[..21 * k];
    assert (first + a)[m..m + 21] == a[21 * k..21 * k + 21];
    assert (first + b)[m..m + 21] == b[21 * k..21 * k + 21];
  }

  lemma FirstAgrees(ss: seq<Sample>)
    requires ss != [] && Analog(ss[0])
    ensures var rest := EncodeRecords(ss); |rest| >= 21 && Word(rest[17..21]) == Crc(rest[..17])
  {
    hide EncodeRecord, Word, Crc, RecordBody, WordBytes;
    EncodedFields(ss[0], EncodeRecords(ss[1..]));
    WordRoundTrip(Crc(RecordBody(ss[0])));
  }

  lemma {:induction false} RecordsLength(ss: seq<Sample>)
    requires forall s | s in ss :: Analog(s)
    ensures |EncodeRecords(ss)| == 21 * |ss|
  {
    hide EncodeRecord;
    if ss != [] {
      assert Analog(ss[0]);
      EncodedFields(ss[0], []);
      assert EncodeRecord(ss[0]) + [] == EncodeRecord(ss[0]);
      RecordsLength(ss[1..]);
    }
  }

  // ----- a whole file

  /** What comes of reading a file: its header, if there is one, and the records behind it. */
  function Log(bytes: Bytes): Outcome<(Header, seq<Record>, bool)> {
    match HeaderAt(bytes)
    case Absent => Absent
    case Raised => Raised
    case Got(h) =>
      var (records, raised) := Records(bytes[32..]);
      Got((h, records, raised))
  }

  lemma AsciiType()
    ensures Ascii(FILE_TYPE)
  {
    assert FILE_TYPE[0] < 0x80 && FILE_TYPE[1] < 0x80 && FILE_TYPE[2] < 0x80 && FILE_TYPE[3] < 0x80;
  }

  lemma EncodedHeaderFields(version: bv32, metadata: Bytes, start: bv64, reserved: Bytes, tail: Bytes)
    requires |metadata| == 4 && |reserved| == 8
    ensures var e := EncodeHeader(version, metadata, start, reserved);
            var body := HeaderBody(version, metadata, start, reserved);
            var r := e + tail;
            && |e| == 32 && r[..32] == e && r[32..] == tail
            && r[..4] == FILE_TYPE && r[4..8] == WordBytes(version) && r[8..12] == Reversed(metadata)
            && r[12..20] == LongBytes(start) && r[20..28] == reserved
            && r[..28] == body && r[28..32] == WordBytes(Crc(body))
  {
    hide Crc, WordBytes, LongBytes;
  }

  lemma LongBytesRoundTrip(x: bv64)
    ensures Long(LongBytes(x)) == x
  {
    hide WordBytes, Word, LongOf, LongLow, LongHigh;
    WordRoundTrip(LongLow(x));
    WordRoundTrip(LongHigh(x));
    LongRoundTrip(x);
    assert LongBytes(x)[..4] == WordBytes(LongLow(x)) && LongBytes(x)[4..] == WordBytes(LongHigh(x));
  }

  /** A header reads back as what was written, unless its checksum happens to be 0. */
  lemma HeaderRoundTrip(version: bv32, metadata: Bytes, start: bv64, reserved: Bytes, tail: Bytes)
    requires |metadata| == 4 && |reserved| == 8
    ensures var crc := Crc(HeaderBody(version, metadata, start, reserved));
            HeaderAt(EncodeHeader(version, metadata, start, reserved) + tail)
            == if crc == 0 then Absent else Got(Header(version, metadata, start, reserved, crc))
  {
    hide Crc, WordBytes, Word, LongBytes, Long, EncodeHeader, HeaderBody, Ascii;
    EncodedHeaderFields(version, metadata, start, reserved, tail);
    AsciiType();
    WordRoundTrip(version);
    WordRoundTrip(Crc(HeaderBody(version, metadata, start, reserved)));
    LongBytesRoundTrip(start);
    assert Reversed(Reversed(metadata)) == metadata;
  }

  /** For every other content of a header there is exactly one version with which its checksum is
      0. */
  lemma ZeroHeaderIff(version: bv32, metadata: Bytes, start: bv64, reserved: Bytes)
    ensures Crc(HeaderBody(version, metadata, start, reserved)) == 0
            <==> version == Forged(FILE_TYPE, Reversed(metadata) + LongBytes(start) + reserved, 0)
  {
    hide Crc, WordBytes, LongBytes, Forged;
    var back := Reversed(metadata) + LongBytes(start) + reserved;
    ChecksumReached(FILE_TYPE, back, 0, version);
    assert HeaderBody(version, metadata, start, reserved) == FILE_TYPE + WordBytes(version) + back;
  }

  /** What is read of a file that begins with an encoded header. */
  lemma LogBehindHeader(version: bv32, metadata: Bytes, start: bv64, reserved: Bytes, rest: Bytes)
    requires |metadata| == 4 && |reserved| == 8
    ensures var crc := Crc(HeaderBody(version, metadata, start, reserved));
            Log(EncodeHeader(version, metadata, start, reserved) + rest)
            == if crc == 0 then Absent
               else Got((Header(version, metadata, start, reserved, crc), Records(rest).0, Records(rest).1))
  {
    hide Crc, EncodeHeader, HeaderBody, HeaderAt, Records;
    HeaderRoundTrip(version, metadata, start, reserved, rest);
    EncodedHeaderFields(version, metadata, start, reserved, rest);
  }

  /** A whole log reads back as it was written: its header, and its records in order up to the first
      whose checksum is 0; nothing, if the header's checksum is 0. */
  lemma LogRoundTrip(version: bv32, metadata: Bytes, start: bv64, reserved: Bytes, ss: seq<Sample>)
    requires |metadata| == 4 && |reserved| == 8 && forall s | s in ss :: Analog(s)
    ensures var crc := Crc(HeaderBody(version, metadata, start, reserved));
            Log(EncodeHeader(version, metadata, start, reserved) + EncodeRecords(ss))
            == if crc == 0 then Absent
               else Got((Header(version, metadata, start, reserved, crc), Readable(ss), false))
  {
    hide Log, Crc, EncodeHeader, HeaderBody, Records;
    LogBehindHeader(version, metadata, start, reserved, EncodeRecords(ss));
    RecordsRoundTrip(ss);
  }

  /** A log cut anywhere behind its header yields the header and exactly the whole records before
      the cut, up to the first whose checksum is 0. */
  lemma LogCut(version: bv32, metadata: Bytes, start: bv64, reserved: Bytes, ss: seq<Sample>, c: nat)
    requires |metadata| == 4 && |reserved| == 8 && forall s | s in ss :: Analog(s)
    requires c <= |EncodeRecords(ss)|
    ensures c / 21 <= |ss|
    ensures var crc, whole := Crc(HeaderBody(version, metadata, start, reserved)), ss[..c / 21];
            Log(EncodeHeader(version, metadata, start, reserved) + EncodeRecords(ss)[..c])
            == if crc == 0 then Absent
               else Got((Header(version, metadata, start, reserved, crc),
                         Readable(whole), Sound(whole) && !QuietCut(c % 21)))
  {
    hide Log, Crc, EncodeHeader, HeaderBody, Records;
    LogBehindHeader(version, metadata, start, reserved, EncodeRecords(ss)[..c]);
    RecordsCut(ss, c);
  }

  /** A header with an agreeing checksum is not accepted after a burst. */
  lemma HeaderBurst(rest: Bytes, other: Bytes, p: nat, s: bv8)
    requires |rest| >= 32 && Word(rest[28..32]) == Crc(rest[..28])
    requires Burst(rest, other, p, s) && rest[..32] != other[..32]
    ensures !HeaderAt(other).Got?
  {
    hide Burst, Crc, Word;
    SameLength(rest, other, p, s);
    BurstFront(rest, other, p, s, 32);
    var a, b := rest[..32], other[..32];
    assert a[28..] == rest[28..32] && a[..28] == rest[..28];
    assert b[28..] == other[28..32] && b[..28] == other[..28];
    OneAgrees(a, b, p, s);
  }

  /** A log damaged within 32 consecutive bits is not taken for a log when its header is changed;
      otherwise it yields the header and exactly the records before the first one changed, up to
      the first whose checksum is 0. */
  lemma LogDamaged(version: bv32, metadata: Bytes, start: bv64, reserved: Bytes, ss: seq<Sample>,
      other: Bytes, p: nat, s: bv8) returns (k: nat)
    requires |metadata| == 4 && |reserved| == 8 && forall s | s in ss :: Analog(s)
    requires var file := EncodeHeader(version, metadata, start, reserved) + EncodeRecords(ss);
             Burst(file, other, p, s) && other != file
    ensures var header, crc := EncodeHeader(version, metadata, start, reserved),
                               Crc(HeaderBody(version, metadata, start, reserved));
            if |other| < 32 || other[..32] != header then !Log(other).Got?
            else
              && k < |ss| && |other| == 32 + 21 * |ss| && |EncodeRecords(ss)| == 21 * |ss|
              && other[32..32 + 21 * k] == EncodeRecords(ss)[..21 * k]
              && other[32 + 21 * k..32 + 21 * k + 21] != EncodeRecords(ss)[21 * k..21 * k + 21]
              && Log(other) == if crc == 0 then Absent
                               else Got((Header(version, metadata, start, reserved, crc), Readable(ss[..k]), false))
  {
    hide Burst, Crc, EncodeHeader, EncodeRecords, HeaderBody, Records, Readable, Log;
    var header, rest := EncodeHeader(version, metadata, start, reserved), EncodeRecords(ss);
    EncodedHeaderFields(version, metadata, start, reserved, rest);
    SameLength(header + rest, other, p, s);
    if other[..32] != header {
      k := 0;
      HeaderDamaged(version, metadata, start, reserved, rest, other, p, s);
    } else {
      k := TailDamaged(ss, header, other, p, s);
      Behind(header, other, k);
      LogBehindHeader(version, metadata, start, reserved, other[32..]);
    }
  }

  lemma TailDamaged(ss: seq<Sample>, header: Bytes, other: Bytes, p: nat, s: bv8) returns (k: nat)
    requires (forall s | s in ss :: Analog(s)) && |header| == 32
    requires Burst(header + EncodeRecords(ss), other, p, s) && other != header + EncodeRecords(ss)
    requires |other| >= 32 && other[..32] == header
    ensures k < |ss| && |other| == 32 + 21 * |ss| && |EncodeRecords(ss)| == 21 * |ss|
    ensures other[32..][..21 * k] == EncodeRecords(ss)[..21 * k]
    ensures other[32..][21 * k..21 * k + 21] != EncodeRecords(ss)[21 * k..21 * k + 21]
    ensures Records(other[32..]) == (Readable(ss[..k]), false)
  {
    hide Burst, EncodeRecords, Records, Readable;
    var file := header + EncodeRecords(ss);
    SameLength(file, other, p, s);
    var q, t := BurstBack(file, other, p, s, 32);
    assert file[32..] == EncodeRecords(ss) && other == header + other[32..];
    k := RecordsDamaged(ss, other[32..], q, t);
  }

  lemma Behind(header: Bytes, other: Bytes, k: nat)
    requires |header| == 32 && |other| >= 32 + 21 * k + 21 && other[..32] == header
    ensures header + other[32..] == other
    ensures other[32..][..21 * k] == other[32..32 + 21 * k]
    ensures other[32..][21 * k..21 * k + 21] == other[32 + 21 * k..32 + 21 * k + 21]
  {
  }

  lemma HeaderDamaged(version: bv32, metadata: Bytes, start: bv64, reserved: Bytes, rest: Bytes,
      other: Bytes, p: nat, s: bv8)
    requires |metadata| == 4 && |reserved| == 8
    requires var header := EncodeHeader(version, metadata, start, reserved);
             |header| == 32 && Burst(header + rest, other, p, s) && |other| >= 32 && other[..32] != header
    ensures !Log(other).Got?
  {
    hide Burst, Crc, EncodeHeader, HeaderBody, Records, HeaderAt, Word, WordBytes;
    EncodedHeaderFields(version, metadata, start, reserved, rest);
    WordRoundTrip(Crc(HeaderBody(version, metadata, start, reserved)));
    HeaderBurst(EncodeHeader(version, metadata, start, reserved) + rest, other, p, s);
  }

  /** A file shorter than a header is never taken for a log. */
  lemma HeaderCut(bytes: Bytes)
    requires |bytes| < 32
    ensures !HeaderAt(bytes).Got?
  {
  }
}
