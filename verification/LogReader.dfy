/** The readers: one `read` after another on a stream, the checksum carried along field by field. */
module LogReader {
  import opened Wrappers
  import opened Crc32
  import opened LogFormat

  class Stream {
    const data: Bytes
    var at: nat

    ghost predicate Valid()
      reads this
    {
      at <= |data|
    }

    /** What has not been read yet. */
    ghost function Rest(): Bytes
      reads this
      requires Valid()
    {
      data[at..]
    }

    constructor (data: Bytes)
      ensures Valid() && this.data == data && at == 0
    {
      this.data := data;
      at := 0;
    }

    /** Up to `n` bytes; fewer only at the end. */
    method Read(n: nat) returns (bs: Bytes)
      requires Valid()
      modifies this
      ensures Valid()
      ensures at == if n < |data| - old(at) then old(at) + n else |data|
      ensures bs == data[old(at)..at]
    {
      var end := if n < |data| - at then at + n else |data|;
      bs := data[at..end];
      at := end;
    }
  }

  lemma SliceOfRest(data: Bytes, p: nat, i: nat, j: nat)
    requires i <= j && p + j <= |data|
    ensures data[p..][i..j] == data[p + i..p + j]
  {
  }

  lemma TakeMore(data: Bytes, i: nat, n: nat)
    requires i + n <= |data|
    ensures data[..i] + data[i..][..n] == data[..i + n]
  {
  }

  /** The checksum chained over the first fields of a record is that of the bytes they span. */
  lemma PrefixChecksum(data: Bytes, p: nat)
    requires p + 13 <= |data|
    ensures Update(data[p + 12..p + 13], Update(data[p + 8..p + 12],
              Update(data[p + 4..p + 8], Update(data[p..p + 4], 0)))) == Crc(data[p..][..13])
  {
    hide Update;
    UpdateConcat(data[p..p + 4], data[p + 4..p + 8], 0);
    assert data[p..p + 4] + data[p + 4..p + 8] == data[p..p + 8];
    UpdateConcat(data[p..p + 8], data[p + 8..p + 12], 0);
    assert data[p..p + 8] + data[p + 8..p + 12] == data[p..p + 12];
    UpdateConcat(data[p..p + 12], data[p + 12..p + 13], 0);
    assert data[p..p + 12] + data[p + 12..p + 13] == data[p..p + 13];
    SliceOfRest(data, p, 0, 13);
  }

  // The fields of a record up to its data length, and the checksum so far.
  datatype Prefix = Prefix(timeDelta: bv32, sensorId: bv32, length: bv8, crc: bv32)

  function PrefixAt(rest: Bytes): Outcome<Prefix> {
    if |rest| < 4 || rest[..4] != RECORD_MARK then Absent
    else if |rest| == 4 || |rest| == 8 || |rest| == 12 then Absent
    else if |rest| < 12 then Raised
    else Got(Prefix(Word(rest[4..8]), Word(rest[8..12]), rest[12], Crc(rest[..13])))
  }

  function PrefixTake(rest: Bytes): nat {
    if |rest| >= 4 && rest[..4] != RECORD_MARK then 4
    else if |rest| < 13 then |rest|
    else 13
  }

  method ReadPrefix(stream: Stream) returns (r: Outcome<Prefix>)
    requires stream.Valid()
    modifies stream
    ensures stream.Valid()
    ensures r == PrefixAt(old(stream.Rest()))
    ensures stream.at == old(stream.at) + PrefixTake(old(stream.Rest()))
  {
    hide Update, Word;
    ghost var d, p := stream.data, stream.at;
    var crcValidation := 0;
    var mark := stream.Read(4);
    MarkReversed(mark);
    if mark == [] || Reversed(mark) != START_MARK {
      assert |d[p..]| >= 4 ==> d[p..][..4] == mark;
      return Absent;
    }
    assert d[p..][..4] == mark;
    crcValidation := Update(mark, crcValidation);

    var timeDelta := stream.Read(4);
    if timeDelta == [] {
      return Absent;
    }
    if |timeDelta| != 4 {
      return Raised;
    }
    crcValidation := Update(timeDelta, crcValidation);

    var sensorId := stream.Read(4);
    if sensorId == [] {
      return Absent;
    }
    if |sensorId| != 4 {
      return Raised;
    }
    crcValidation := Update(sensorId, crcValidation);

    var length := stream.Read(1);
    if length == [] {
      return Absent;
    }
    crcValidation := Update(length, crcValidation);
    PrefixChecksum(d, p);
    SliceOfRest(d, p, 4, 8);
    SliceOfRest(d, p, 8, 12);
    return Got(Prefix(Word(timeDelta), Word(sensorId), length[0], crcValidation));
  }

  /** `_read_data`: the analog reader refuses any length but its own before it reads. */
  method ReadData(stream: Stream, length: nat, expected: Option<nat>) returns (data: Bytes)
    requires stream.Valid()
    modifies stream
    ensures stream.Valid()
    ensures expected.Some? && length != expected.value ==> data == [] && stream.at == old(stream.at)
    ensures !(expected.Some? && length != expected.value) ==>
              && stream.at == (if length < |stream.data| - old(stream.at) then old(stream.at) + length
                               else |stream.data|)
              && data == stream.data[old(stream.at)..stream.at]
  {
    if expected.Some? && length != expected.value {
      return [];
    }
    data := stream.Read(length);
  }

  /** The data and the checksum behind the first fields, read with checksum `start`. */
  function DataAt(rest: Bytes, n: nat, start: bv32, expected: Option<nat>): Outcome<(Bytes, bv32)> {
    if n == 0 || (expected.Some? && n != expected.value) || rest == [] then Absent
    else if |rest| < 4 + n then Raised
    else
      var crc := Word(rest[n..n + 4]);
      if crc == 0 || crc != Update(rest[..n], start) then Absent
      else Got((rest[..n], crc))
  }

  method ReadDataAndCrc(stream: Stream, n: nat, start: bv32, expected: Option<nat>)
    returns (r: Outcome<(Bytes, bv32)>)
    requires stream.Valid()
    modifies stream
    ensures stream.Valid()
    ensures r == DataAt(old(stream.Rest()), n, start, expected)
    ensures var rest := old(stream.Rest());
            stream.at == old(stream.at) +
              (if n == 0 || (expected.Some? && n != expected.value) then 0
               else if |rest| < 4 + n then |rest| else 4 + n)
  {
    hide Update, Word;
    ghost var d, p := stream.data, stream.at;
    var data := ReadData(stream, n, expected);
    if data == [] {
      return Absent;
    }
    var crcValidation := Update(data, start);
    var crcBytes := stream.Read(4);
    if |crcBytes| != 4 {
      return Raised;
    }
    var crc := Word(crcBytes);
    SliceOfRest(d, p, n, n + 4);
    if crc == 0 {
      return Absent;
    }
    SliceOfRest(d, p, 0, n);
    if crcValidation != crc {
      return Absent;
    }
    return Got((data, crc));
  }

  lemma RecordInTwo(rest: Bytes, expected: Option<nat>)
    ensures RecordAt(rest, expected)
            == (match PrefixAt(rest)
                case Absent => Absent
                case Raised => Raised
                case Got(p) =>
                  match DataAt(rest[13..], Value(p.length), p.crc, expected)
                  case Absent => Absent
                  case Raised => Raised
                  case Got((data, crc)) => Got(Record(p.timeDelta, p.sensorId, data, crc)))
  {
    hide Update, Word, Value;
    if |rest| > 13 && rest[..4] == RECORD_MARK && Value(rest[12]) + 17 <= |rest| {
      var n := Value(rest[12]);
      UpdateConcat(rest[..13], rest[13..][..n], 0);
      TakeMore(rest, 13, n);
      SliceOfRest(rest, 13, n, n + 4);
      SliceOfRest(rest, 13, 0, n);
    }
  }

  /** Reads one record. */
  method CreateRecord(stream: Stream, expected: Option<nat>) returns (r: Outcome<Record>)
    requires stream.Valid()
    modifies stream
    ensures stream.Valid()
    ensures r == RecordAt(old(stream.Rest()), expected)
    ensures stream.at == old(stream.at) + RecordTake(old(stream.Rest()), expected)
  {
    ghost var rest := stream.Rest();
    RecordInTwo(rest, expected);
    var prefix := ReadPrefix(stream);
    if !prefix.Got? {
      return if prefix.Absent? then Absent else Raised;
    }
    assert stream.Rest() == rest[13..];
    var p := prefix.value;
    var body := ReadDataAndCrc(stream, Value(p.length), p.crc, expected);
    if !body.Got? {
      return if body.Absent? then Absent else Raised;
    }
    return Got(Record(p.timeDelta, p.sensorId, body.value.0, body.value.1));
  }

  // ----- the header

  // The header up to its version fields, and the checksum so far.
  datatype Versions = Versions(version: bv32, metadataVersion: Bytes, crc: bv32)

  function VersionsAt(rest: Bytes): Outcome<Versions> {
    var fileType := if |rest| < 4 then rest else rest[..4];
    if rest == [] then Absent
    else if !Ascii(fileType) then Raised
    else if fileType != FILE_TYPE then Absent
    else if |rest| == 4 || |rest| == 8 then Absent
    else if |rest| < 8 then Raised
    else if |rest| < 12 then Got(Versions(Word(rest[4..8]), Reversed(rest[8..]), Crc(rest)))
    else Got(Versions(Word(rest[4..8]), Reversed(rest[8..12]), Crc(rest[..12])))
  }

  function VersionsTake(rest: Bytes): nat {
    var fileType := if |rest| < 4 then rest else rest[..4];
    if !Ascii(fileType) || fileType != FILE_TYPE then |fileType|
    else if |rest| < 12 then |rest|
    else 12
  }

  lemma ThreeChecksum(data: Bytes, p: nat, i: nat, j: nat, k: nat)
    requires i <= j <= k && p + k <= |data|
    ensures Update(data[p + j..p + k], Update(data[p + i..p + j], Crc(data[p..][..i]))) == Crc(data[p..][..k])
  {
    hide Update;
    UpdateConcat(data[p..][..i], data[p + i..p + j], 0);
    assert data[p..][..i] + data[p + i..p + j] == data[p..][..j];
    UpdateConcat(data[p..][..j], data[p + j..p + k], 0);
    assert data[p..][..j] + data[p + j..p + k] == data[p..][..k];
  }

  method ReadVersions(stream: Stream) returns (r: Outcome<Versions>)
    requires stream.Valid()
    modifies stream
    ensures stream.Valid()
    ensures r == VersionsAt(old(stream.Rest()))
    ensures stream.at == old(stream.at) + VersionsTake(old(stream.Rest()))
  {
    hide Update, Word;
    ghost var d, p := stream.data, stream.at;
    var fileType := stream.Read(4);
    assert fileType == if |d[p..]| < 4 then d[p..] else d[p..][..4];
    if fileType == [] {
      return Absent;
    }
    if !Ascii(fileType) {
      return Raised;
    }
    if fileType != FILE_TYPE {
      return Absent;
    }
    var crcValidation := Update(fileType, 0);
    var version := stream.Read(4);
    if version == [] {
      return Absent;
    }
    if |version| != 4 {
      return Raised;
    }
    crcValidation := Update(version, crcValidation);
    var metadataVersion := stream.Read(4);
    if metadataVersion == [] {
      return Absent;
    }
    crcValidation := Update(metadataVersion, crcValidation);
    ghost var n := |metadataVersion|;
    ThreeChecksum(d, p, 4, 8, 8 + n);
    SliceOfRest(d, p, 4, 8);
    SliceOfRest(d, p, 8, 8 + n);
    assert n < 4 ==> d[p..][..8 + n] == d[p..] && d[p..][8..8 + n] == d[p..][8..];
    return Got(Versions(Word(version), Reversed(metadataVersion), crcValidation));
  }

  // The last fields of the header, behind the first twelve bytes.
  datatype Times = Times(startTime: bv64, reserved: Bytes)

  /** `Absent` and `Raised` as for the header itself, given that its first twelve bytes have been
      read with checksum `start`, or fewer at the end of the stream. */
  function TimesAt(rest: Bytes, start: bv32): Outcome<(Times, bv32)> {
    if |rest| == 0 || |rest| == 8 then Absent
    else if |rest| < 20 then Raised
    else
      var crc := Word(rest[16..20]);
      if crc == 0 || crc != Update(rest[..16], start) then Absent
      else Got((Times(Long(rest[..8]), rest[8..16]), crc))
  }

  method ReadTimes(stream: Stream, start: bv32) returns (r: Outcome<(Times, bv32)>)
    requires stream.Valid()
    modifies stream
    ensures stream.Valid()
    ensures r == TimesAt(old(stream.Rest()), start)
    ensures stream.at == old(stream.at) + (if |old(stream.Rest())| < 20 then |old(stream.Rest())| else 20)
  {
    hide Update, Word, Long;
    ghost var d, p := stream.data, stream.at;
    var startTime := stream.Read(8);
    if startTime == [] {
      return Absent;
    }
    if |startTime| != 8 {
      return Raised;
    }
    var crcValidation := Update(startTime, start);
    var reserved := stream.Read(8);
    if reserved == [] {
      return Absent;
    }
    crcValidation := Update(reserved, crcValidation);
    var crcBytes := stream.Read(4);
    if |crcBytes| != 4 {
      return Raised;
    }
    var crc := Word(crcBytes);
    SliceOfRest(d, p, 16, 20);
    if crc == 0 {
      return Absent;
    }
    UpdateConcat(startTime, reserved, start);
    assert startTime + reserved == d[p..][..16];
    SliceOfRest(d, p, 0, 8);
    SliceOfRest(d, p, 8, 16);
    if crc != crcValidation {
      return Absent;
    }
    return Got((Times(Long(startTime), reserved), crc));
  }

  lemma HeaderChecksum(rest: Bytes)
    requires |rest| >= 28
    ensures Update(rest[12..][..16], Crc(rest[..12])) == Crc(rest[..28])
  {
    hide Update;
    UpdateConcat(rest[..12], rest[12..][..16], 0);
    assert rest[..12] + rest[12..][..16] == rest[..28];
  }

  lemma HeaderInTwo(rest: Bytes)
    ensures var v := VersionsAt(rest);
            HeaderAt(rest) == (match v
                               case Absent => Absent
                               case Raised => Raised
                               case Got(vs) =>
                                 match TimesAt(rest[VersionsTake(rest)..], vs.crc)
                                 case Absent => Absent
                                 case Raised => Raised
                                 case Got((t, crc)) =>
                                   Got(Header(vs.version, vs.metadataVersion, t.startTime, t.reserved, crc)))
  {
    hide Update, Word, Long;
    if |rest| >= 32 && rest[..4] == FILE_TYPE {
      HeaderChecksum(rest);
      var back := rest[12..];
      assert back[16..20] == rest[28..32] && back[..8] == rest[12..20] && back[8..16] == rest[20..28];
    }
  }

  /** Reads the header. */
  method CreateHeader(stream: Stream) returns (r: Outcome<Header>)
    requires stream.Valid()
    modifies stream
    ensures stream.Valid()
    ensures r == HeaderAt(old(stream.Rest()))
    ensures stream.at == old(stream.at) + HeaderTake(old(stream.Rest()))
  {
    ghost var rest := stream.Rest();
    HeaderInTwo(rest);
    var versions := ReadVersions(stream);
    if !versions.Got? {
      return if versions.Absent? then Absent else Raised;
    }
    assert stream.Rest() == rest[VersionsTake(rest)..];
    var times := ReadTimes(stream, versions.value.crc);
    if !times.Got? {
      return if times.Absent? then Absent else Raised;
    }
    return Got(Header(versions.value.version, versions.value.metadataVersion,
                      times.value.0.startTime, times.value.0.reserved, times.value.1));
  }
}
