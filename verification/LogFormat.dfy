/** The log file format: what lies at the front of a byte string, and how headers and records are
    written. The functions say at once, from the bytes, what the readers find field by field. */
module LogFormat {
  import opened Wrappers
  import opened Crc32

  // A reader returns a value, returns nothing, or raises an exception on a field cut short.
  datatype Outcome<+T> = Got(value: T) | Absent | Raised

  datatype Record = Record(timeDelta: bv32, sensorId: bv32, data: Bytes, crc: bv32)

  datatype Header = Header(version: bv32, metadataVersion: Bytes, startTime: bv64, reserved: Bytes, crc: bv32)

  // The mark as the reader spells it, and as it lies in the file.
  const START_MARK: Bytes := [0x4c, 0x52, 0x53, 0x4d]
  const RECORD_MARK: Bytes := [0x4d, 0x53, 0x52, 0x4c]

  const FILE_TYPE: Bytes := [0x45, 0x4c, 0x4c, 0x44]

  function Reversed(bs: Bytes): (r: Bytes)
    ensures |r| == |bs|
    ensures forall k | 0 <= k < |bs| :: r[k] == bs[|bs| - 1 - k]
  {
    seq(|bs|, k requires 0 <= k < |bs| => bs[|bs| - 1 - k])
  }

  lemma MarkReversed(bs: Bytes)
    ensures Reversed(bs) == START_MARK <==> bs == RECORD_MARK
  {
    if Reversed(bs) == START_MARK {
      assert bs[0] == Reversed(bs)[3] && bs[1] == Reversed(bs)[2];
      assert bs[2] == Reversed(bs)[1] && bs[3] == Reversed(bs)[0];
    }
  }

  /** A byte as a number. */
  function Value(b: bv8): nat { b as int }

  function LongOf(lo: bv32, hi: bv32): bv64 { (lo as bv64) | ((hi as bv64) << 32) }

  function LongLow(x: bv64): bv32 { (x & 0xffff_ffff) as bv32 }

  function LongHigh(x: bv64): bv32 { (x >> 32) as bv32 }

  lemma LongRoundTrip(x: bv64)
    ensures LongOf(LongLow(x), LongHigh(x)) == x
  {
  }

  /** Eight bytes as a little-endian word. */
  function Long(bs: Bytes): bv64
    requires |bs| == 8
  {
    LongOf(Word(bs[..4]), Word(bs[4..]))
  }

  function LongBytes(x: bv64): (bs: Bytes)
    ensures |bs| == 8
  {
    WordBytes(LongLow(x)) + WordBytes(LongHigh(x))
  }

  // ----- records

  /** The record at the front of `rest`, when data of any length (None) or of one length is
      expected. A record cut short between two fields is not there; one cut short within a field,
      or before its checksum, raises. */
  function RecordAt(rest: Bytes, expected: Option<nat>): Outcome<Record> {
    if |rest| < 4 || rest[..4] != RECORD_MARK then Absent
    else if |rest| == 4 || |rest| == 8 || |rest| == 12 then Absent
    else if |rest| < 12 then Raised
    else
      var n := Value(rest[12]);
      if n == 0 || (expected.Some? && n != expected.value) || |rest| == 13 then Absent
      else if |rest| < 17 + n then Raised
      else
        var crc := Word(rest[13 + n..17 + n]);
        if crc == 0 || crc != Crc(rest[..13 + n]) then Absent
        else Got(Record(Word(rest[4..8]), Word(rest[8..12]), rest[13..13 + n], crc))
  }

  /** How many bytes a reader takes in finding that out. */
  function RecordTake(rest: Bytes, expected: Option<nat>): nat {
    if |rest| >= 4 && rest[..4] != RECORD_MARK then 4
    else if |rest| < 13 then |rest|
    else
      var n := Value(rest[12]);
      if n == 0 || (expected.Some? && n != expected.value) then 13
      else if |rest| < 17 + n then |rest|
      else 17 + n
  }

  /** What a writer puts into a record: the data, and a byte that holds its length. */
  datatype Sample = Sample(time: bv32, sensor: bv32, length: bv8, data: Bytes) {
    predicate Fits() {
      0 < |data| == Value(length)
    }
  }

  function RecordBody(s: Sample): Bytes {
    RECORD_MARK + WordBytes(s.time) + WordBytes(s.sensor) + [s.length] + s.data
  }

  function EncodeRecord(s: Sample): Bytes {
    RecordBody(s) + WordBytes(Crc(RecordBody(s)))
  }

  // ----- the header

  /** The file type as text; a byte that is not ASCII does not decode. */
  predicate Ascii(bs: Bytes) {
    forall k | 0 <= k < |bs| :: bs[k] < 0x80
  }

  function HeaderAt(rest: Bytes): Outcome<Header> {
    var fileType := if |rest| < 4 then rest else rest[..4];
    if rest == [] then Absent
    else if !Ascii(fileType) then Raised
    else if fileType != FILE_TYPE then Absent
    else if |rest| == 4 || 8 <= |rest| <= 12 || |rest| == 20 then Absent
    else if |rest| < 32 then Raised
    else
      var crc := Word(rest[28..32]);
      if crc == 0 || crc != Crc(rest[..28]) then Absent
      else Got(Header(Word(rest[4..8]), Reversed(rest[8..12]), Long(rest[12..20]), rest[20..28], crc))
  }

  function HeaderTake(rest: Bytes): nat {
    var fileType := if |rest| < 4 then rest else rest[..4];
    if !Ascii(fileType) || fileType != FILE_TYPE then |fileType|
    else if |rest| < 32 then |rest|
    else 32
  }

  function HeaderBody(version: bv32, metadataVersion: Bytes, startTime: bv64, reserved: Bytes): Bytes {
    FILE_TYPE + WordBytes(version) + Reversed(metadataVersion) + LongBytes(startTime) + reserved
  }

  function EncodeHeader(version: bv32, metadataVersion: Bytes, startTime: bv64, reserved: Bytes): Bytes {
    var body := HeaderBody(version, metadataVersion, startTime, reserved);
    body + WordBytes(Crc(body))
  }
}
