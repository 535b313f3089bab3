/** Known checksums: the check value of CRC-32, and the beginning of the log file that the parser's own
    tests read, with the fields these expect. */
module LogSample {
  import opened Wrappers
  import opened Crc32
  import opened LogFormat
  import opened LogTheorems

  /** Registers along the way prove the last one. */
  lemma {:induction false} Traced(bs: Bytes, cs: seq<bv32>)
    requires |cs| == |bs| + 1 && forall k | 0 <= k < |bs| :: Step(cs[k], bs[k]) == cs[k + 1]
    ensures Run(cs[0], bs) == cs[|bs|]
    decreases |bs|
  {
    hide Step;
    if bs != [] {
      Traced(bs[1..], cs[1..]);
    }
  }

  /** The check value of CRC-32: the checksum of the digits from 1 to 9. */
  lemma CheckValue()
    ensures Crc([0x31, 0x32, 0x33, 0x34, 0x35, 0x36, 0x37, 0x38, 0x39]) == 0xcbf4_3926
  {
    FreshRegister();
    Traced([0x31, 0x32, 0x33, 0x34, 0x35, 0x36, 0x37, 0x38, 0x39],
           [0xffff_ffff, 0x7c23_1048, 0xb0ac_bb32, 0x77b7_9c2d, 0x641c_1f5c, 0x340a_c5e3,
            0xf68d_2c9e, 0xaffc_9660, 0x651f_2550, 0x340b_c6d9]);
  }

  // ----- the log file of the parser's tests

  const HEADER_0: Bytes := [0x45, 0x4c, 0x4c, 0x44, 0x01, 0x00, 0x00, 0x00]
  const HEADER_1: Bytes := [0xc5, 0x01, 0x70, 0xb6, 0x40, 0xd0, 0xf0, 0x93]
  const HEADER_2: Bytes := [0x01, 0x00, 0x00, 0x00, 0x00, 0x00, 0x00, 0x00]
  const HEADER_3: Bytes := [0x00, 0x00, 0x00, 0x00]
  const HEADER_CHECKSUM: Bytes := [0x94, 0xa9, 0xe2, 0x6b]

  const HEADER_BODY: Bytes := HEADER_0 + HEADER_1 + HEADER_2 + HEADER_3

  const FILE_HEADER: Bytes := HEADER_BODY + HEADER_CHECKSUM

  const RECORD_0: Bytes := [0x4d, 0x53, 0x52, 0x4c, 0x14, 0x01, 0x00, 0x00]
  const RECORD_1: Bytes := [0x10, 0xc6, 0xfd, 0x8b, 0x04, 0xa0, 0x0f, 0xb4, 0x42]
  const RECORD_CHECKSUM: Bytes := [0xaa, 0xf8, 0xd5, 0x0f]

  const RECORD_BODY: Bytes := RECORD_0 + RECORD_1

  const FIRST_RECORD: Bytes := RECORD_BODY + RECORD_CHECKSUM

  lemma HeaderRun0()
    ensures Run(0xffff_ffff, HEADER_0) == 0x155e_a0e9
  {
    Traced(HEADER_0,
           [0xffff_ffff, 0x2b4b_a56d, 0x4c42_5bfb, 0x5549_6474, 0x268c_79c8, 0xe29e_f66d,
            0x33e1_8313, 0x848d_a05d, 0x155e_a0e9]);
  }

  lemma HeaderRun1()
    ensures Run(0x155e_a0e9, HEADER_1) == 0x2e03_608d
  {
    Traced(HEADER_1,
           [0x155e_a0e9, 0x32cd_3243, 0x98e0_ed8e, 0x5a9d_3ff6, 0x7686_dcaf, 0x30c3_7935,
            0xd050_d58e, 0xb76d_0cee, 0x2e03_608d]);
  }

  lemma HeaderRun2()
    ensures Run(0x2e03_608d, HEADER_2) == 0x7747_3fbb
  {
    Traced(HEADER_2,
           [0x2e03_608d, 0xe420_cc6b, 0xda84_981c, 0x14db_d8d7, 0x18a3_9caf, 0x4671_1de5,
            0xd026_67ea, 0x400f_2d01, 0x7747_3fbb]);
  }

  lemma HeaderRun3()
    ensures Run(0x7747_3fbb, HEADER_3) == 0x941d_566b
  {
    Traced(HEADER_3,
           [0x7747_3fbb, 0x5cc4_2d3b, 0xb157_2d09, 0x796d_ef89, 0x941d_566b]);
  }

  lemma HeaderRun()
    ensures Run(ONES, HEADER_BODY) == 0x941d_566b
  {
    hide Run;
    HeaderRun0();
    HeaderRun1();
    HeaderRun2();
    HeaderRun3();
    RunConcat(ONES, HEADER_0, HEADER_1);
    RunConcat(ONES, HEADER_0 + HEADER_1, HEADER_2);
    RunConcat(ONES, HEADER_0 + HEADER_1 + HEADER_2, HEADER_3);
  }

  lemma RecordRun0()
    ensures Run(0xffff_ffff, RECORD_0) == 0x3884_b2cb
  {
    Traced(RECORD_0,
           [0xffff_ffff, 0x2590_2d5f, 0x0993_dc06, 0x6c0f_0631, 0x2ed8_0287, 0x6928_1afc,
            0xc365_a6bb, 0x5c70_0fa2, 0x3884_b2cb]);
  }

  lemma RecordRun1()
    ensures Run(0x3884_b2cb, RECORD_1) == 0xf02a_0755
  {
    Traced(RECORD_1,
           [0x3884_b2cb, 0x1139_8fee, 0x35a4_9175, 0xe356_af83, 0x0e38_de9d, 0x89dd_133e,
            0x173e_6350, 0xfbc3_7206, 0x2594_11d2, 0xf02a_0755]);
  }

  lemma RecordRun()
    ensures Run(ONES, RECORD_BODY) == 0xf02a_0755
  {
    hide Run;
    RecordRun0();
    RecordRun1();
    RunConcat(ONES, RECORD_0, RECORD_1);
  }

  const METADATA: Bytes := [0xb6, 0x70, 0x01, 0xc5]

  const RESERVED: Bytes := [0, 0, 0, 0, 0, 0, 0, 0]

  lemma HeaderWords()
    ensures WordBytes(1) == [0x01, 0x00, 0x00, 0x00]
    ensures LongLow(6777000000) == 0x93f0_d040 && LongHigh(6777000000) == 1
    ensures WordBytes(0x93f0_d040) == [0x40, 0xd0, 0xf0, 0x93]
    ensures WordBytes(1810016660) == [0x94, 0xa9, 0xe2, 0x6b]
  {
  }

  lemma HeaderSpelled()
    ensures HeaderBody(1, METADATA, 6777000000, RESERVED) == HEADER_BODY
    ensures WordBytes(1810016660) == HEADER_CHECKSUM
  {
    hide WordBytes, LongLow, LongHigh;
    HeaderWords();
    assert Reversed(METADATA) == [0xc5, 0x01, 0x70, 0xb6];
    assert HEADER_BODY == FILE_TYPE + [0x01, 0x00, 0x00, 0x00] + [0xc5, 0x01, 0x70, 0xb6]
                                + ([0x40, 0xd0, 0xf0, 0x93] + [0x01, 0x00, 0x00, 0x00]) + RESERVED;
  }

  /** The header of that file is read with the fields the tests expect. */
  lemma HeaderSample(tail: Bytes)
    ensures HeaderAt(FILE_HEADER + tail) == Got(Header(1, METADATA, 6777000000, RESERVED, 1810016660))
  {
    hide Run, WordBytes, HeaderBody;
    HeaderRun();
    FreshRegister();
    HeaderSpelled();
    assert Crc(HEADER_BODY) == 1810016660;
    HeaderRoundTrip(1, METADATA, 6777000000, RESERVED, tail);
  }

  const FIRST_SAMPLE := Sample(276, 2348664336, 4, [0xa0, 0x0f, 0xb4, 0x42])

  lemma RecordWords()
    ensures WordBytes(276) == [0x14, 0x01, 0x00, 0x00]
    ensures WordBytes(2348664336) == [0x10, 0xc6, 0xfd, 0x8b]
    ensures WordBytes(265681066) == [0xaa, 0xf8, 0xd5, 0x0f]
  {
  }

  lemma RecordSpelled()
    ensures RecordBody(FIRST_SAMPLE) == RECORD_BODY
    ensures WordBytes(265681066) == RECORD_CHECKSUM
  {
    hide WordBytes;
    RecordWords();
    assert RECORD_BODY == RECORD_MARK + [0x14, 0x01, 0x00, 0x00] + [0x10, 0xc6, 0xfd, 0x8b] + [0x04]
                                 + FIRST_SAMPLE.data;
  }

  /** Its first record, too. */
  lemma RecordSample(tail: Bytes)
    ensures RecordAt(FIRST_RECORD + tail, ANALOG)
            == Got(Record(276, 2348664336, [0xa0, 0x0f, 0xb4, 0x42], 265681066))
  {
    hide Run, WordBytes, RecordBody;
    RecordRun();
    FreshRegister();
    RecordSpelled();
    assert Crc(RECORD_BODY) == 265681066;
    FourIsFour();
    RecordRoundTrip(FIRST_SAMPLE, tail, ANALOG);
  }
}
