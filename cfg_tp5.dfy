/** CFG-TP5, the time pulse parameters: eleven fields read and written in
    order with no padding, 32 bytes in all, the last being a 32-bit
    bitfield of flags.  The message has no behaviour of its own; what it
    does is what its schema makes the generic field engine do. */
module CfgTp5 {
  import opened Wire
  import opened Bits
  import opened Field
  import opened Message

  const FlagsIdx: nat := 10
  const FieldCount: nat := 11

  /** flags: flagsLow (7 bits, reserved mask 0x80 expecting 0),
      gridUtcGnss (4 bits, UTC GPS GLONASS BeiDou Galileo = 0..4), syncMode
      (3 bits, 0..1) and 18 reserved bits. */
  const FlagsMembers: seq<Member> :=
    [Member(7, ReservedBits(0x80, 0)), Member(4, InRange(0, 4)), Member(3, InRange(0, 1)), Member(18, InRange(0, 0))]

  const Tp5Fields: Schema := [
    Int(1, false, InRange(0, 1)),      // tpIdx
    Int(1, false, InRange(0, 1)),      // version
    Int(2, false, InRange(0, 0)),      // reserved1
    Int(2, true, AnyValue),            // antCableDelay
    Int(2, true, AnyValue),            // rfGroupDelay
    Int(4, false, AnyValue),           // freqPeriod
    Int(4, false, AnyValue),           // freqPeriodLock
    Int(4, false, AnyValue),           // pulseLenRatio
    Int(4, false, AnyValue),           // pulseLenRatioLock
    Int(4, true, AnyValue),            // userConfigDelay
    Bitfield(FlagsMembers)             // flags
  ]

  /** The members of flags. */
  datatype Flags = Flags(flagsLow: nat, gridUtcGnss: nat, syncMode: nat, reserved: nat)

  /** A CFG-TP5 message's field values. */
  datatype Tp5 = Tp5(
    tpIdx: int, version: int, reserved1: int,
    antCableDelay: int, rfGroupDelay: int,
    freqPeriod: int, freqPeriodLock: int, pulseLenRatio: int, pulseLenRatioLock: int,
    userConfigDelay: int, flags: Flags)

  /** A decode's outcome: its status, the message after it and the bytes
      consumed. */
  datatype Tp5Read = Tp5Read(status: ErrorStatus, msg: Tp5, used: nat)

  /** The flag members' widths add up to one 4-byte container. */
  lemma FlagsWidth()
    ensures Widths(FlagsMembers) == [7, 4, 3, 18]
    ensures BitLength(FlagsMembers) == 32 && MaxLength(Bitfield(FlagsMembers)) == 4
  {
    assert Widths(FlagsMembers) == [7, 4, 3, 18];
  }

  lemma SchemaFacts()
    ensures |Tp5Fields| == FieldCount && SchemaOk(Tp5Fields) && AllFixed(Tp5Fields, 0, FieldCount)
    ensures Tp5Fields[FlagsIdx] == Bitfield(FlagsMembers)
  {
    FlagsWidth();
  }

  /** The message is 32 bytes long. */
  lemma Layout()
    ensures SumMax(Tp5Fields, 0, FieldCount) == 32
  {
    FlagsWidth();
    SumMaxOfLengths(Tp5Fields, 0, FieldCount, [1, 1, 2, 2, 2, 4, 4, 4, 4, 4, 4]);
  }

  /** The field values in schema order. */
  function Fields(m: Tp5): seq<Value>
  {
    [IntV(m.tpIdx), IntV(m.version), IntV(m.reserved1),
     IntV(m.antCableDelay), IntV(m.rfGroupDelay),
     IntV(m.freqPeriod), IntV(m.freqPeriodLock), IntV(m.pulseLenRatio), IntV(m.pulseLenRatioLock),
     IntV(m.userConfigDelay),
     BitsV([m.flags.flagsLow, m.flags.gridUtcGnss, m.flags.syncMode, m.flags.reserved])]
  }

  /** Values fitting the schema are ten integers and a four-member
      bitfield. */
  lemma Shape(vals: seq<Value>)
    requires FitsAll(Tp5Fields, vals)
    ensures forall i | 0 <= i < FlagsIdx :: vals[i].IntV?
    ensures vals[FlagsIdx].BitsV? && |vals[FlagsIdx].ms| == 4
  {
    FlagsWidth();
    assert forall i | 0 <= i < FlagsIdx :: Tp5Fields[i].Int?;
    assert Fits(Tp5Fields[FlagsIdx], vals[FlagsIdx]);
  }

  /** The message holding the given field values. */
  function FromFields(vals: seq<Value>): (m: Tp5)
    requires FitsAll(Tp5Fields, vals)
    ensures Fields(m) == vals
  {
    Shape(vals);
    var f := vals[FlagsIdx].ms;
    assert f == [f[0], f[1], f[2], f[3]];
    Tp5(vals[0].n, vals[1].n, vals[2].n, vals[3].n, vals[4].n, vals[5].n, vals[6].n,
        vals[7].n, vals[8].n, vals[9].n, Flags(f[0], f[1], f[2], f[3]))
  }

  /** Every value fits its field's width. */
  predicate WellSized(m: Tp5)
  {
    FitsAll(Tp5Fields, Fields(m))
  }

  /** The widths spelled out: unsigned bytes, 2- and 4-byte integers of
      their signedness, and flag members of 7, 4, 3 and 18 bits. */
  lemma WellSizedMeans(m: Tp5)
    ensures WellSized(m) <==>
              0 <= m.tpIdx < 0x100 && 0 <= m.version < 0x100 && 0 <= m.reserved1 < 0x1_0000 &&
              -0x8000 <= m.antCableDelay < 0x8000 && -0x8000 <= m.rfGroupDelay < 0x8000 &&
              0 <= m.freqPeriod < 0x1_0000_0000 && 0 <= m.freqPeriodLock < 0x1_0000_0000 &&
              0 <= m.pulseLenRatio < 0x1_0000_0000 && 0 <= m.pulseLenRatioLock < 0x1_0000_0000 &&
              -0x8000_0000 <= m.userConfigDelay < 0x8000_0000 &&
              m.flags.flagsLow < 0x80 && m.flags.gridUtcGnss < 0x10 && m.flags.syncMode < 8 &&
              m.flags.reserved < 0x4_0000
  {
    var vs := Fields(m);
    assert WellSized(m) <==> forall i | 0 <= i < FieldCount :: Fits(Tp5Fields[i], vs[i]);
    HeadSized(m);
    DelaysSized(m);
    PulseSized(m);
    FlagsSized(m);
  }

  lemma HeadSized(m: Tp5)
    ensures Fits(Tp5Fields[0], Fields(m)[0]) <==> 0 <= m.tpIdx < 0x100
    ensures Fits(Tp5Fields[1], Fields(m)[1]) <==> 0 <= m.version < 0x100
    ensures Fits(Tp5Fields[2], Fields(m)[2]) <==> 0 <= m.reserved1 < 0x1_0000
  {
    assert Pow256(1) == 0x100 && Pow256(2) == 0x1_0000;
  }

  lemma DelaysSized(m: Tp5)
    ensures Fits(Tp5Fields[3], Fields(m)[3]) <==> -0x8000 <= m.antCableDelay < 0x8000
    ensures Fits(Tp5Fields[4], Fields(m)[4]) <==> -0x8000 <= m.rfGroupDelay < 0x8000
    ensures Fits(Tp5Fields[9], Fields(m)[9]) <==> -0x8000_0000 <= m.userConfigDelay < 0x8000_0000
  {
    assert Pow256(2) == 0x1_0000 && Pow256(4) == 0x1_0000_0000;
  }

  lemma PulseSized(m: Tp5)
    ensures Fits(Tp5Fields[5], Fields(m)[5]) <==> 0 <= m.freqPeriod < 0x1_0000_0000
    ensures Fits(Tp5Fields[6], Fields(m)[6]) <==> 0 <= m.freqPeriodLock < 0x1_0000_0000
    ensures Fits(Tp5Fields[7], Fields(m)[7]) <==> 0 <= m.pulseLenRatio < 0x1_0000_0000
    ensures Fits(Tp5Fields[8], Fields(m)[8]) <==> 0 <= m.pulseLenRatioLock < 0x1_0000_0000
  {
    assert Pow256(4) == 0x1_0000_0000;
  }

  lemma FlagsSized(m: Tp5)
    ensures Fits(Tp5Fields[FlagsIdx], Fields(m)[FlagsIdx]) <==>
              m.flags.flagsLow < 0x80 && m.flags.gridUtcGnss < 0x10 && m.flags.syncMode < 8 &&
              m.flags.reserved < 0x4_0000
  {
    FlagsWidth();
    assert Pow2(7) == 0x80 && Pow2(4) == 0x10 && Pow2(3) == 8 && Pow2(18) == 0x4_0000;
  }

  /** The wire image: the eleven fields in order. */
  function Encode(m: Tp5): seq<Byte>
    requires WellSized(m)
  {
    SchemaFacts();
    Message.Encode(Tp5Fields, Fields(m))
  }

  /** Reads the eleven fields in order into cur. */
  function Decode(cur: Tp5, s: seq<Byte>): Tp5Read
    requires WellSized(cur)
  {
    SchemaFacts();
    var r := ReadFields(Tp5Fields, Fields(cur), 0, FieldCount, s);
    Tp5Read(r.status, FromFields(r.values), r.used)
  }

  /** Every field is valid. */
  predicate Valid(m: Tp5)
    requires WellSized(m)
  {
    AllValid(Tp5Fields, Fields(m))
  }

  // ---------------------------------------------------------------------
  // Lemmas

  /** flagsLow is 7 bits wide, so the bit its reserved mask 0x80 covers
      can never be set. */
  lemma FlagsLowReservedClear(v: nat)
    requires v < Pow2(7)
    ensures Holds(ReservedBits(0x80, 0), v)
  {
    ReservedAboveWidth(v, 7, 1);
    assert Pow2(7) == 0x80;
  }

  /** Validity spelled out: tpIdx and version 0 or 1, reserved1 zero,
      gridUtcGnss at most 4, syncMode at most 1 and the 18 reserved bits
      zero; the delays, periods and ratios may take any value. */
  lemma ValidMeans(m: Tp5)
    requires WellSized(m)
    ensures Valid(m) <==>
              m.tpIdx <= 1 && m.version <= 1 && m.reserved1 == 0 &&
              m.flags.gridUtcGnss <= 4 && m.flags.syncMode <= 1 && m.flags.reserved == 0
  {
    var vs := Fields(m);
    assert forall i | 3 <= i < FlagsIdx :: Tp5Fields[i].Int? && Tp5Fields[i].check == AnyValue;
    AnyValueValid(Tp5Fields, vs, 3, FlagsIdx);
    ValidByParts(Tp5Fields, vs);
    assert Field.Valid(Tp5Fields[0], vs[0]) <==> m.tpIdx <= 1;
    assert Field.Valid(Tp5Fields[1], vs[1]) <==> m.version <= 1;
    assert Field.Valid(Tp5Fields[2], vs[2]) <==> m.reserved1 == 0;
    FlagsValid(m);
  }

  /** When the seven fields between reserved1 and flags are valid, the
      message's validity rests on the other four. */
  lemma ValidByParts(schema: Schema, vals: seq<Value>)
    requires |schema| == FieldCount && FitsAll(schema, vals)
    requires forall i | 3 <= i < FlagsIdx :: Field.Valid(schema[i], vals[i])
    ensures AllValid(schema, vals) <==>
              Field.Valid(schema[0], vals[0]) && Field.Valid(schema[1], vals[1]) &&
              Field.Valid(schema[2], vals[2]) && Field.Valid(schema[FlagsIdx], vals[FlagsIdx])
  {
  }

  lemma FlagsValid(m: Tp5)
    requires WellSized(m)
    ensures Fits(Tp5Fields[FlagsIdx], Fields(m)[FlagsIdx])
    ensures Field.Valid(Tp5Fields[FlagsIdx], Fields(m)[FlagsIdx]) <==>
              m.flags.gridUtcGnss <= 4 && m.flags.syncMode <= 1 && m.flags.reserved == 0
  {
    FlagsSized(m);
    FlagsWidth();
    FlagsLowReservedClear(m.flags.flagsLow);
  }

  /** Decoding succeeds exactly when 32 bytes are there, and then consumes
      exactly 32. */
  lemma DecodeLength(cur: Tp5, s: seq<Byte>)
    requires WellSized(cur)
    ensures Decode(cur, s).status == Success <==> |s| >= 32
    ensures Decode(cur, s).status == Success ==> Decode(cur, s).used == 32
  {
    SchemaFacts();
    Layout();
    ReadFieldsFixed(Tp5Fields, Fields(cur), 0, FieldCount, s);
  }

  /** The encoding is always 32 bytes. */
  lemma EncodeLength(m: Tp5)
    requires WellSized(m)
    ensures |Encode(m)| == 32
  {
    SchemaFacts();
    Layout();
    WriteFieldsFixed(Tp5Fields, Fields(m), 0, FieldCount);
  }

  /** The offset of each field: the sum of the lengths before it. */
  lemma Offsets()
    ensures SumMax(Tp5Fields, 0, 0) == 0 && SumMax(Tp5Fields, 0, 1) == 1 && SumMax(Tp5Fields, 0, 2) == 2
    ensures SumMax(Tp5Fields, 0, 3) == 4 && SumMax(Tp5Fields, 0, 4) == 6 && SumMax(Tp5Fields, 0, 5) == 8
    ensures SumMax(Tp5Fields, 0, 6) == 12 && SumMax(Tp5Fields, 0, 7) == 16 && SumMax(Tp5Fields, 0, 8) == 20
    ensures SumMax(Tp5Fields, 0, 9) == 24 && SumMax(Tp5Fields, 0, 10) == 28
  {
    SumMaxSnoc(Tp5Fields, 0, 0);
    SumMaxSnoc(Tp5Fields, 0, 1);
    SumMaxSnoc(Tp5Fields, 0, 2);
    SumMaxSnoc(Tp5Fields, 0, 3);
    SumMaxSnoc(Tp5Fields, 0, 4);
    SumMaxSnoc(Tp5Fields, 0, 5);
    SumMaxSnoc(Tp5Fields, 0, 6);
    SumMaxSnoc(Tp5Fields, 0, 7);
    SumMaxSnoc(Tp5Fields, 0, 8);
    SumMaxSnoc(Tp5Fields, 0, 9);
  }

  /** Where each field lies in 32 bytes of payload: tpIdx is byte 0,
      version byte 1, reserved1 bytes 2-3, the two delays the signed words
      at 4 and 6, the periods and ratios the unsigned 4-byte integers at 8,
      12, 16 and 20, userConfigDelay the signed 4-byte integer at 24, and the
      flag members are split from the 4-byte container at 28, flagsLow in
      bits 0-6, gridUtcGnss in 7-10, syncMode in 11-13 and the reserved
      member above. */
  predicate LaidOut(m: Tp5, b: seq<Byte>)
    requires |b| >= 32
  {
    m.tpIdx == b[0] as int && m.version == b[1] as int && m.reserved1 == LEInt(b[2..4], false) &&
    m.antCableDelay == LEInt(b[4..6], true) && m.rfGroupDelay == LEInt(b[6..8], true) &&
    m.freqPeriod == LEInt(b[8..12], false) && m.freqPeriodLock == LEInt(b[12..16], false) &&
    m.pulseLenRatio == LEInt(b[16..20], false) && m.pulseLenRatioLock == LEInt(b[20..24], false) &&
    m.userConfigDelay == LEInt(b[24..28], true) &&
    [m.flags.flagsLow, m.flags.gridUtcGnss, m.flags.syncMode, m.flags.reserved] ==
      Split([7, 4, 3, 18], DecodeLE(b[28..32]))
  }

  /** The fields a decode of the bytes leaves. */
  function DecodedFields(cur: Tp5, b: seq<Byte>): (vals: seq<Value>)
    requires WellSized(cur)
    ensures |vals| == FieldCount
  {
    SchemaFacts();
    ReadFields(Tp5Fields, Fields(cur), 0, FieldCount, b).values
  }

  /** An integer field of the decode is the integer its bytes encode. */
  lemma IntAt(cur: Tp5, b: seq<Byte>, i: nat, off: nat)
    requires WellSized(cur) && |b| >= 32
    requires i < FieldCount && Tp5Fields[i].Int? && off == SumMax(Tp5Fields, 0, i)
    ensures 1 <= Tp5Fields[i].bytes && off + Tp5Fields[i].bytes <= |b|
    ensures DecodedFields(cur, b)[i] == IntV(LEInt(b[off..off + Tp5Fields[i].bytes], Tp5Fields[i].signed))
  {
    SchemaFacts();
    Layout();
    IntFieldAt(Tp5Fields, Fields(cur), b, i, off);
  }

  /** tpIdx, version and reserved1 come from bytes 0, 1 and 2-3. */
  lemma HeadAt(cur: Tp5, b: seq<Byte>)
    requires WellSized(cur) && |b| >= 32
    ensures var vals := DecodedFields(cur, b);
            vals[0] == IntV(b[0] as int) && vals[1] == IntV(b[1] as int) &&
            vals[2] == IntV(LEInt(b[2..4], false))
  {
    Offsets();
    IntAt(cur, b, 0, 0);
    IntAt(cur, b, 1, 1);
    IntAt(cur, b, 2, 2);
    SingleByte(b, 0);
    SingleByte(b, 1);
  }

  /** antCableDelay and rfGroupDelay come from the signed words at 4 and 6. */
  lemma DelaysAt(cur: Tp5, b: seq<Byte>)
    requires WellSized(cur) && |b| >= 32
    ensures var vals := DecodedFields(cur, b);
            vals[3] == IntV(LEInt(b[4..6], true)) && vals[4] == IntV(LEInt(b[6..8], true))
  {
    Offsets();
    IntAt(cur, b, 3, 4);
    IntAt(cur, b, 4, 6);
  }

  /** The two periods and two ratios come from the unsigned 4-byte
      integers at 8, 12, 16 and 20. */
  lemma PeriodsAt(cur: Tp5, b: seq<Byte>)
    requires WellSized(cur) && |b| >= 32
    ensures var vals := DecodedFields(cur, b);
            vals[5] == IntV(LEInt(b[8..12], false)) && vals[6] == IntV(LEInt(b[12..16], false)) &&
            vals[7] == IntV(LEInt(b[16..20], false)) && vals[8] == IntV(LEInt(b[20..24], false))
  {
    Offsets();
    IntAt(cur, b, 5, 8);
    IntAt(cur, b, 6, 12);
    IntAt(cur, b, 7, 16);
    IntAt(cur, b, 8, 20);
  }

  /** userConfigDelay comes from the signed 4-byte integer at 24 and the
      flag members from the container at 28. */
  lemma TailAt(cur: Tp5, b: seq<Byte>)
    requires WellSized(cur) && |b| >= 32
    ensures var vals := DecodedFields(cur, b);
            vals[9] == IntV(LEInt(b[24..28], true)) &&
            vals[FlagsIdx] == BitsV(Split([7, 4, 3, 18], DecodeLE(b[28..32])))
  {
    SchemaFacts();
    Layout();
    Offsets();
    FlagsWidth();
    IntAt(cur, b, 9, 24);
    BitsFieldAt(Tp5Fields, Fields(cur), b, FlagsIdx, 28);
  }

  /** A decode of at least 32 bytes lays the message out as LaidOut says,
      whatever the message it decodes into. */
  lemma DecodeLayout(cur: Tp5, b: seq<Byte>)
    requires WellSized(cur) && |b| >= 32
    ensures LaidOut(Decode(cur, b).msg, b)
  {
    HeadAt(cur, b);
    DelaysAt(cur, b);
    PeriodsAt(cur, b);
    TailAt(cur, b);
    var m := Decode(cur, b).msg;
    assert Fields(m) == DecodedFields(cur, b);
  }

  /** Decoding an encoding gives back every field, whatever the message
      held before, and consumes the 32 bytes. */
  lemma RoundTrip(cur: Tp5, m: Tp5)
    requires WellSized(cur) && WellSized(m)
    ensures Decode(cur, Encode(m)) == Tp5Read(Success, m, 32)
  {
    SchemaFacts();
    EncodeLength(m);
    ReadEncodeFixed(Tp5Fields, Fields(cur), Fields(m));
    FromFieldsFields(m);
  }

  /** The record and its field list carry the same information. */
  lemma FromFieldsFields(m: Tp5)
    requires WellSized(m)
    ensures FromFields(Fields(m)) == m
  {
    var f := FromFields(Fields(m));
    assert Fields(f) == Fields(m);
    assert Fields(f)[FlagsIdx].ms == Fields(m)[FlagsIdx].ms;
  }

  /** A gridUtcGnss or syncMode out of its range still travels: it decodes
      back unchanged, and the decoded message is not valid. */
  lemma OutOfRangeDecodes(cur: Tp5, m: Tp5)
    requires WellSized(cur) && WellSized(m) && (m.flags.gridUtcGnss > 4 || m.flags.syncMode > 1)
    ensures Decode(cur, Encode(m)).status == Success
    ensures Decode(cur, Encode(m)).msg == m && !Valid(m)
  {
    RoundTrip(cur, m);
    ValidMeans(m);
  }

  /** The default message (every field zero) is valid. */
  lemma DefaultValid()
    ensures var d := Tp5(0, 0, 0, 0, 0, 0, 0, 0, 0, 0, Flags(0, 0, 0, 0));
            WellSized(d) && Valid(d)
  {
    var d := Tp5(0, 0, 0, 0, 0, 0, 0, 0, 0, 0, Flags(0, 0, 0, 0));
    WellSizedMeans(d);
    ValidMeans(d);
  }
}
