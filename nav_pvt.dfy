/** NAV-PVT, the navigation position-velocity-time solution.  Thirty fixed
    fields (84 bytes) are followed by three optional fields, headVeh, magDec
    and magAcc (8 bytes), which older receivers do not send.  Their
    presence is decided all at once by how many bytes remain after the
    fixed part, and the message is only valid when the three agree. */
module NavPvt {
  import opened Wire
  import opened Bits
  import opened Field
  import opened Message

  const HeadVehIdx: nat := 30
  const MagDecIdx: nat := 31
  const MagAccIdx: nat := 32
  const FieldCount: nat := 33

  const ValidIdx: nat := 7
  const FlagsIdx: nat := 11
  const Flags2Idx: nat := 12
  const Reserved1Idx: nat := 28
  const Reserved2Idx: nat := 29

  function U(n: nat): Kind { Int(n, false, AnyValue) }
  function I(n: nat): Kind { Int(n, true, AnyValue) }

  /** flags: gnssFixOK/diffSoln (2 bits), psmState (3 bits, 0..5),
      headVehValid (1 bit, reserved mask 0xfe) and carrSoln (2 bits). */
  const FlagsMembers: seq<Member> :=
    [Member(2, AnyValue), Member(3, InRange(0, 5)), Member(1, ReservedBits(0xfe, 0)), Member(2, AnyValue)]

  const PvtFields: Schema := [
    U(4),                                   // iTOW
    U(2), U(1), U(1), U(1), U(1), U(1),     // year month day hour min sec
    Int(1, false, ReservedBits(0xf0, 0)),   // valid
    U(4), I(4),                             // tAcc nano
    U(1),                                   // fixType
    Bitfield(FlagsMembers),                 // flags
    Int(1, false, ReservedBits(0x1f, 0)),   // flags2
    U(1),                                   // numSV
    I(4), I(4), I(4), I(4), U(4), U(4),     // lon lat height hMSL hAcc vAcc
    I(4), I(4), I(4), I(4), I(4),           // velN velE velD gSpeed headMot
    U(4), U(4), U(2),                       // sAcc headAcc pDOP
    Int(2, false, InRange(0, 0)),           // reserved1
    Int(4, false, InRange(0, 0)),           // reserved2
    Optional(I(4), Missing),                // headVeh
    Optional(I(2), Missing),                // magDec
    Optional(U(2), Missing)                 // magAcc
  ]

  lemma SchemaFacts()
    ensures |PvtFields| == FieldCount && SchemaOk(PvtFields)
    ensures AllFixed(PvtFields, 0, HeadVehIdx)
    ensures forall i | HeadVehIdx <= i < FieldCount :: PvtFields[i].Optional? && FixedLength(PvtFields[i].inner)
    ensures BitLength(FlagsMembers) == 8
  {
    FlagsWidth();
    WellFormedFields();
    FixedPrefix();
    TailKinds();
  }

  lemma FlagsWidth()
    ensures BitLength(FlagsMembers) == 8
  {
    assert Widths(FlagsMembers) == [2, 3, 1, 2];
  }

  lemma WellFormedFields()
    ensures SchemaOk(PvtFields)
  {
    FlagsWidth();
    assert forall i | 0 <= i < 11 :: WellFormed(PvtFields[i]);
    assert forall i | 11 <= i < 22 :: WellFormed(PvtFields[i]);
    assert forall i | 22 <= i < FieldCount :: WellFormed(PvtFields[i]);
  }

  lemma FixedPrefix()
    ensures |PvtFields| == FieldCount && AllFixed(PvtFields, 0, HeadVehIdx)
  {
    assert forall i | 0 <= i < 10 :: FixedLength(PvtFields[i]);
    assert forall i | 10 <= i < 20 :: FixedLength(PvtFields[i]);
    assert forall i | 20 <= i < HeadVehIdx :: FixedLength(PvtFields[i]);
  }

  /** The three optional fields: a signed 4-byte, a signed 2-byte and an
      unsigned 2-byte integer, each missing by default. */
  lemma TailKinds()
    ensures |PvtFields| == FieldCount
    ensures PvtFields[HeadVehIdx] == Optional(I(4), Missing)
    ensures PvtFields[MagDecIdx] == Optional(I(2), Missing)
    ensures PvtFields[MagAccIdx] == Optional(U(2), Missing)
  {
  }

  /** The bytes the three optional fields need together (ReqLen). */
  function ReqLen(): nat
  {
    SchemaFacts();
    SumMax(PvtFields, HeadVehIdx, FieldCount)
  }

  /** The fixed part is 84 bytes and the optional tail 8, as in the UBX
      NAV-PVT layout of 92 bytes. */
  lemma Layout()
    ensures SumMax(PvtFields, 0, HeadVehIdx) == 84
    ensures ReqLen() == 8
    ensures SumMax(PvtFields, 0, FieldCount) == 92
  {
    PrefixLength();
    LayoutPart(30, 33, [4, 2, 2], 8);
    SumMaxSplit(PvtFields, 0, 30, 33);
  }

  lemma PrefixLength()
    ensures SumMax(PvtFields, 0, HeadVehIdx) == 84
  {
    TimeBlock();
    PositionBlock();
    MotionBlock();
    SumMaxSplit(PvtFields, 0, 10, 20);
    SumMaxSplit(PvtFields, 0, 20, 30);
  }

  /** iTOW to nano: 20 bytes. */
  lemma TimeBlock()
    ensures SumMax(PvtFields, 0, 10) == 20
  {
    Block(PvtFields, 0, 10, [4, 2, 1, 1, 1], [1, 1, 1, 4, 4], 20);
  }

  /** fixType to vAcc: 28 bytes. */
  lemma PositionBlock()
    ensures SumMax(PvtFields, 10, 20) == 28
  {
    Block(PvtFields, 10, 20, [1, 1, 1, 1, 4], [4, 4, 4, 4, 4], 28);
  }

  /** velN to reserved2: 36 bytes. */
  lemma MotionBlock()
    ensures SumMax(PvtFields, 20, 30) == 36
  {
    Block(PvtFields, 20, 30, [4, 4, 4, 4, 4], [4, 4, 2, 2, 4], 36);
  }

  /** Ten consecutive fields, measured five at a time. */
  lemma Block(schema: Schema, from: nat, until: nat, lo: seq<nat>, hi: seq<nat>, total: nat)
    requires from + 10 == until <= |schema| && |lo| == |hi| == 5
    requires forall i | from <= i < from + 5 :: MaxLength(schema[i]) == lo[i - from]
    requires forall i | from + 5 <= i < until :: MaxLength(schema[i]) == hi[i - (from + 5)]
    requires Total(lo) + Total(hi) == total
    ensures SumMax(schema, from, until) == total
  {
    SumMaxOfLengths(schema, from, from + 5, lo);
    SumMaxOfLengths(schema, from + 5, until, hi);
    SumMaxSplit(schema, from, from + 5, until);
  }

  lemma LayoutPart(from: nat, until: nat, lens: seq<nat>, total: nat)
    requires from <= until <= |PvtFields| && |lens| == until - from
    requires forall i | from <= i < until :: MaxLength(PvtFields[i]) == lens[i - from]
    requires Total(lens) == total
    ensures SumMax(PvtFields, from, until) == total
  {
    SumMaxOfLengths(PvtFields, from, until, lens);
  }

  /** The fields with the modes of headVeh, magDec and magAcc set to m. */
  function WithTailMode(vals: seq<Value>, m: Mode): (r: seq<Value>)
    requires FitsAll(PvtFields, vals)
    ensures FitsAll(PvtFields, r)
    ensures forall i | 0 <= i < HeadVehIdx :: r[i] == vals[i]
    ensures forall i | HeadVehIdx <= i < FieldCount :: r[i] == OptV(m, Inner(vals[i]))
  {
    SchemaFacts();
    vals[HeadVehIdx := SetMode(vals[HeadVehIdx], m)]
        [MagDecIdx := SetMode(vals[MagDecIdx], m)]
        [MagAccIdx := SetMode(vals[MagAccIdx], m)]
  }

  /** readFieldsUntil<FieldIdx_headVeh>: the fixed part. */
  function ReadPrefix(cur: seq<Value>, s: seq<Byte>): (p: MsgRead)
    requires FitsAll(PvtFields, cur)
    ensures FitsAll(PvtFields, p.values) && p.used <= |s|
    ensures forall i | HeadVehIdx <= i < FieldCount :: p.values[i] == cur[i]
  {
    SchemaFacts();
    ReadFieldsKeeps(PvtFields, cur, 0, HeadVehIdx, s);
    ReadFields(PvtFields, cur, 0, HeadVehIdx, s)
  }

  /** readFieldsFrom<FieldIdx_headVeh>: the optional tail. */
  function ReadTail(vals: seq<Value>, t: seq<Byte>): (r: MsgRead)
    requires FitsAll(PvtFields, vals)
    ensures FitsAll(PvtFields, r.values) && r.used <= |t|
    ensures forall i | 0 <= i < HeadVehIdx :: r.values[i] == vals[i]
  {
    SchemaFacts();
    ReadFieldsKeeps(PvtFields, vals, HeadVehIdx, FieldCount, t);
    ReadFields(PvtFields, vals, HeadVehIdx, FieldCount, t)
  }

  /** doRead: read the fixed part; then, when fewer than ReqLen bytes
      remain, mark the three optional fields missing and stop, otherwise
      mark them present and read them. */
  function Decode(cur: seq<Value>, s: seq<Byte>): (r: MsgRead)
    requires FitsAll(PvtFields, cur)
    ensures FitsAll(PvtFields, r.values) && r.used <= |s|
  {
    var p := ReadPrefix(cur, s);
    if p.status != Success then p
    else if |s| - p.used < ReqLen() then MsgRead(Success, WithTailMode(p.values, Missing), p.used)
    else Shifted(ReadTail(WithTailMode(p.values, Exists), s[p.used..]), p.used)
  }

  /** doValid: every field is valid and magDec and magAcc have headVeh's
      mode. */
  predicate MsgValid(vals: seq<Value>)
    requires FitsAll(PvtFields, vals)
  {
    SchemaFacts();
    AllValid(PvtFields, vals) && vals[MagDecIdx].mode == vals[HeadVehIdx].mode && vals[MagAccIdx].mode == vals[HeadVehIdx].mode
  }

  predicate SameTailMode(vals: seq<Value>, m: Mode)
    requires |vals| == FieldCount
  {
    vals[HeadVehIdx].OptV? && vals[MagDecIdx].OptV? && vals[MagAccIdx].OptV? &&
    vals[HeadVehIdx].mode == m && vals[MagDecIdx].mode == m && vals[MagAccIdx].mode == m
  }

  /** The NAV-PVT message object: its fields, updated in place by read. */
  class NavPvtMessage {
    var fields: seq<Value>

    ghost predicate Inv()
      reads this
    {
      FitsAll(PvtFields, fields)
    }

    /** Default construction: zero values and the three optional fields
        missing. */
    constructor()
      ensures SchemaOk(PvtFields) && Inv() && fields == Defaults(PvtFields)
      ensures SameTailMode(fields, Missing)
    {
      SchemaFacts();
      fields := Defaults(PvtFields);
    }

    method Read(s: seq<Byte>) returns (status: ErrorStatus, used: nat)
      requires Inv()
      modifies this
      ensures Inv()
      ensures MsgRead(status, fields, used) == Decode(old(fields), s)
    {
      SchemaFacts();
      ghost var cur := fields;
      var es, vals, n := ReadRange(PvtFields, fields, 0, HeadVehIdx, s);
      assert MsgRead(es, vals, n) == ReadPrefix(cur, s);
      fields := vals;
      if es != Success {
        return es, n;
      }
      if |s| - n < ReqLen() {
        fields := WithTailMode(vals, Missing);
        return es, n;
      }
      fields := WithTailMode(vals, Exists);
      es, vals, used := ReadRange(PvtFields, fields, HeadVehIdx, FieldCount, s[n..]);
      assert MsgRead(es, vals, used) == ReadTail(fields, s[n..]);
      fields := vals;
      status, used := es, n + used;
    }

    predicate IsValid()
      reads this
      requires Inv()
    {
      MsgValid(fields)
    }
  }

  // ---------------------------------------------------------------------
  // Decoding by payload length

  lemma SliceOfSlice(s: seq<Byte>, a: nat, b: nat, c: nat)
    requires a + c <= |s| && b <= c
    ensures s[a..][b..c] == s[a + b..a + c]
  {
  }

  lemma SuffixOfSuffix(s: seq<Byte>, a: nat, b: nat)
    requires a + b <= |s|
    ensures s[a..][b..] == s[a + b..]
  {
  }

  /** The fixed part reads successfully exactly when at least 84 bytes
      remain, and then consumes 84 bytes. */
  lemma PrefixRead(cur: seq<Value>, s: seq<Byte>)
    requires FitsAll(PvtFields, cur)
    ensures ReadPrefix(cur, s).status == Success <==> |s| >= 84
    ensures ReadPrefix(cur, s).status == Success ==> ReadPrefix(cur, s).used == 84
  {
    SchemaFacts();
    PrefixLength();
    ReadFieldsFixed(PvtFields, cur, 0, HeadVehIdx, s);
  }

  /** Reading the three optional fields once they are marked present:
      with at least 8 bytes left it succeeds, consumes 8 bytes and decodes
      headVeh (signed, 4 bytes), magDec (signed, 2) and magAcc (unsigned,
      2) in that order. */
  lemma TailRead(vals: seq<Value>, t: seq<Byte>)
    requires FitsAll(PvtFields, vals) && SameTailMode(vals, Exists) && |t| >= 8
    ensures var r := ReadTail(vals, t);
            r.status == Success && r.used == 8 &&
            r.values[HeadVehIdx] == OptV(Exists, IntV(LEInt(t[0..4], true))) &&
            r.values[MagDecIdx] == OptV(Exists, IntV(LEInt(t[4..6], true))) &&
            r.values[MagAccIdx] == OptV(Exists, IntV(LEInt(t[6..8], false)))
  {
    SchemaFacts();
    var v1 := vals[HeadVehIdx := OptV(Exists, IntV(FromRaw(DecodeLE(t[0..4]), 4, true)))];
    var v2 := v1[MagDecIdx := OptV(Exists, IntV(FromRaw(DecodeLE(t[4..][..2]), 2, true)))];
    SliceOfSlice(t, 4, 0, 2);
    SliceOfSlice(t, 6, 0, 2);
    SuffixOfSuffix(t, 4, 2);
    ReadFieldsStep(PvtFields, vals, HeadVehIdx, FieldCount, t);
    ReadFieldsStep(PvtFields, v1, MagDecIdx, FieldCount, t[4..]);
    ReadFieldsStep(PvtFields, v2, MagAccIdx, FieldCount, t[6..]);
  }

  /** Fewer than 84 bytes: the fixed part cannot be read, the error is
      returned and the optional fields are left as they were. */
  lemma DecodeTooShort(cur: seq<Value>, s: seq<Byte>)
    requires FitsAll(PvtFields, cur) && |s| < 84
    ensures Decode(cur, s).status == NotEnoughData
    ensures forall i | HeadVehIdx <= i < FieldCount :: Decode(cur, s).values[i] == cur[i]
  {
    PrefixRead(cur, s);
  }

  /** 84 to 91 bytes: success, the fixed fields are those of the prefix
      read, the three optional fields become missing (keeping what they
      held) and the leftover bytes are not consumed. */
  lemma DecodeWithoutTail(cur: seq<Value>, s: seq<Byte>)
    requires FitsAll(PvtFields, cur) && 84 <= |s| < 92
    ensures var r := Decode(cur, s);
            r.status == Success && r.used == 84 && SameTailMode(r.values, Missing) &&
            SameRange(r.values, ReadPrefix(cur, s).values, 0, HeadVehIdx) &&
            forall i | HeadVehIdx <= i < FieldCount :: Inner(r.values[i]) == Inner(cur[i])
  {
    Layout();
    PrefixRead(cur, s);
    var p := ReadPrefix(cur, s);
    assert Decode(cur, s) == MsgRead(Success, WithTailMode(p.values, Missing), 84);
  }

  /** 92 bytes or more: success, the three optional fields become present
      and are decoded from bytes 84 to 91; exactly 92 bytes are
      consumed. */
  lemma DecodeWithTail(cur: seq<Value>, s: seq<Byte>)
    requires FitsAll(PvtFields, cur) && |s| >= 92
    ensures var r := Decode(cur, s);
            r.status == Success && r.used == 92 && SameTailMode(r.values, Exists) &&
            SameRange(r.values, ReadPrefix(cur, s).values, 0, HeadVehIdx)
  {
    DecodeLong(cur, s);
    var vals := WithTailMode(ReadPrefix(cur, s).values, Exists);
    TailRead(vals, s[84..]);
  }

  /** 92 bytes or more: headVeh is the signed little-endian integer in
      bytes 84 to 87, magDec the signed one in bytes 88 and 89 and magAcc
      the unsigned one in bytes 90 and 91. */
  lemma DecodeTailValues(cur: seq<Value>, s: seq<Byte>)
    requires FitsAll(PvtFields, cur) && |s| >= 92
    ensures var r := Decode(cur, s);
            r.values[HeadVehIdx] == OptV(Exists, IntV(LEInt(s[84..88], true))) &&
            r.values[MagDecIdx] == OptV(Exists, IntV(LEInt(s[88..90], true))) &&
            r.values[MagAccIdx] == OptV(Exists, IntV(LEInt(s[90..92], false)))
  {
    DecodeLong(cur, s);
    var t := s[84..];
    var vals := WithTailMode(ReadPrefix(cur, s).values, Exists);
    TailRead(vals, t);
    assert Decode(cur, s).values == ReadTail(vals, t).values;
    SliceOfSlice(s, 84, 0, 4);
    SliceOfSlice(s, 84, 4, 6);
    SliceOfSlice(s, 84, 6, 8);
  }

  /** With the whole tail present, decoding is the fixed part's 84 bytes
      followed by the tail read with the three fields marked present. */
  lemma DecodeLong(cur: seq<Value>, s: seq<Byte>)
    requires FitsAll(PvtFields, cur) && |s| >= 92
    ensures ReadPrefix(cur, s).status == Success && ReadPrefix(cur, s).used == 84
    ensures Decode(cur, s) == Shifted(ReadTail(WithTailMode(ReadPrefix(cur, s).values, Exists), s[84..]), 84)
  {
    Layout();
    PrefixRead(cur, s);
  }

  /** After any successful decode the three optional fields share one
      mode: no payload length gives a mixed state. */
  lemma DecodeModesAgree(cur: seq<Value>, s: seq<Byte>)
    requires FitsAll(PvtFields, cur) && Decode(cur, s).status == Success
    ensures SameTailMode(Decode(cur, s).values, Exists) || SameTailMode(Decode(cur, s).values, Missing)
  {
    if |s| < 84 {
      DecodeTooShort(cur, s);
    } else if |s| < 92 {
      DecodeWithoutTail(cur, s);
    } else {
      DecodeWithTail(cur, s);
    }
  }

  /** On a decoded message the validity rule reduces to the fields' own
      validity, because the mode-equality part always holds. */
  lemma DecodedValidity(cur: seq<Value>, s: seq<Byte>)
    requires FitsAll(PvtFields, cur) && Decode(cur, s).status == Success
    ensures MsgValid(Decode(cur, s).values) <==> AllValid(PvtFields, Decode(cur, s).values)
  {
    DecodeModesAgree(cur, s);
  }

  // ---------------------------------------------------------------------
  // Round trip

  /** The fixed part's encoding is 84 bytes; the optional tail's is 8 when
      the three are present and empty when they are missing. */
  lemma EncodeParts(vals: seq<Value>)
    requires FitsAll(PvtFields, vals) && (SameTailMode(vals, Exists) || SameTailMode(vals, Missing))
    ensures SchemaOk(PvtFields)
    ensures Encode(PvtFields, vals) == WriteFields(PvtFields, vals, 0, HeadVehIdx) + WriteFields(PvtFields, vals, HeadVehIdx, FieldCount)
    ensures |WriteFields(PvtFields, vals, 0, HeadVehIdx)| == 84
    ensures |WriteFields(PvtFields, vals, HeadVehIdx, FieldCount)| == if vals[HeadVehIdx].mode == Exists then 8 else 0
  {
    SchemaFacts();
    PrefixLength();
    WriteFieldsSplit(PvtFields, vals, 0, HeadVehIdx, FieldCount);
    WriteFieldsFixed(PvtFields, vals, 0, HeadVehIdx);
    TailLength(vals);
  }

  lemma TailLength(vals: seq<Value>)
    requires FitsAll(PvtFields, vals) && (SameTailMode(vals, Exists) || SameTailMode(vals, Missing))
    ensures SchemaOk(PvtFields)
    ensures |WriteFields(PvtFields, vals, HeadVehIdx, FieldCount)| == if vals[HeadVehIdx].mode == Exists then 8 else 0
  {
    WellFormedFields();
    TailKinds();
    WriteFixed(I(4), vals[HeadVehIdx].inner);
    WriteFixed(I(2), vals[MagDecIdx].inner);
    WriteFixed(U(2), vals[MagAccIdx].inner);
    assert WriteFields(PvtFields, vals, FieldCount, FieldCount) == [];
  }

  /** The fixed part reads back from its encoding whatever the fields held
      before. */
  lemma PrefixRoundTrip(cur: seq<Value>, vals: seq<Value>, rest: seq<Byte>)
    requires FitsAll(PvtFields, cur) && FitsAll(PvtFields, vals)
    ensures SchemaOk(PvtFields)
    ensures var p := ReadPrefix(cur, WriteFields(PvtFields, vals, 0, HeadVehIdx) + rest);
            p.status == Success && p.used == |WriteFields(PvtFields, vals, 0, HeadVehIdx)| &&
            SameRange(p.values, vals, 0, HeadVehIdx)
  {
    SchemaFacts();
    forall i | 0 <= i < HeadVehIdx
      ensures ModesMatch(cur[i], vals[i]) && Settled(vals[i])
    {
      FixedModesMatch(PvtFields[i], cur[i], vals[i]);
    }
    ReadWriteFields(PvtFields, cur, vals, 0, HeadVehIdx, rest);
  }

  /** Encoding a message whose optional fields are all present and
      decoding it gives back every field, whatever the decoding message
      held before. */
  lemma RoundTripWithTail(cur: seq<Value>, vals: seq<Value>)
    requires FitsAll(PvtFields, cur) && FitsAll(PvtFields, vals) && SameTailMode(vals, Exists)
    ensures SchemaOk(PvtFields)
    ensures Decode(cur, Encode(PvtFields, vals)) == MsgRead(Success, vals, 92)
  {
    EncodeParts(vals);
    Layout();
    var tail := WriteFields(PvtFields, vals, HeadVehIdx, FieldCount);
    var w := Encode(PvtFields, vals);
    PrefixRoundTrip(cur, vals, tail);
    var p := ReadPrefix(cur, w);
    var mid := WithTailMode(p.values, Exists);
    assert w[84..] == tail;
    TailRoundTrip(mid, vals);
    assert Decode(cur, w) == Shifted(ReadTail(mid, tail), 84);
  }

  /** The optional tail reads back from its encoding into fields that
      already hold the fixed part and mark the tail present. */
  lemma TailRoundTrip(mid: seq<Value>, vals: seq<Value>)
    requires FitsAll(PvtFields, mid) && FitsAll(PvtFields, vals)
    requires SameTailMode(mid, Exists) && SameTailMode(vals, Exists) && SameRange(mid, vals, 0, HeadVehIdx)
    ensures SchemaOk(PvtFields)
    ensures ReadTail(mid, WriteFields(PvtFields, vals, HeadVehIdx, FieldCount)) == MsgRead(Success, vals, 8)
  {
    EncodeParts(vals);
    var tail := WriteFields(PvtFields, vals, HeadVehIdx, FieldCount);
    TailModesMatch(mid, vals);
    ReadWriteFields(PvtFields, mid, vals, HeadVehIdx, FieldCount, []);
    assert tail + [] == tail;
    var r := ReadTail(mid, tail);
    SameEverywhere(r.values, vals);
  }

  /** Agreeing on the fixed part and on the tail is agreeing everywhere. */
  lemma SameEverywhere(a: seq<Value>, b: seq<Value>)
    requires |a| == |b| == FieldCount
    requires SameRange(a, b, 0, HeadVehIdx) && SameRange(a, b, HeadVehIdx, FieldCount)
    ensures a == b
  {
    assert forall i | 0 <= i < FieldCount :: a[i] == b[i];
  }

  /** Present optional fields read into present optional fields: the
      presence modes already agree. */
  lemma TailModesMatch(mid: seq<Value>, vals: seq<Value>)
    requires FitsAll(PvtFields, mid) && FitsAll(PvtFields, vals)
    requires SameTailMode(mid, Exists) && SameTailMode(vals, Exists)
    ensures AllSettled(vals, HeadVehIdx, FieldCount)
    ensures forall i | HeadVehIdx <= i < FieldCount :: ModesMatch(mid[i], vals[i])
  {
    TailKinds();
    assert Fits(I(4), vals[HeadVehIdx].inner) && Fits(I(2), vals[MagDecIdx].inner) && Fits(U(2), vals[MagAccIdx].inner);
    assert Fits(I(4), mid[HeadVehIdx].inner) && Fits(I(2), mid[MagDecIdx].inner) && Fits(U(2), mid[MagAccIdx].inner);
  }

  /** Encoding a message whose optional fields are all missing and decoding
      it gives back the fixed part and marks the optional fields missing,
      leaving what they held in the decoding message alone. */
  lemma RoundTripWithoutTail(cur: seq<Value>, vals: seq<Value>)
    requires FitsAll(PvtFields, cur) && FitsAll(PvtFields, vals) && SameTailMode(vals, Missing)
    ensures SchemaOk(PvtFields)
    ensures var r := Decode(cur, Encode(PvtFields, vals));
            r.status == Success && r.used == 84 &&
            SameRange(r.values, vals, 0, HeadVehIdx) && SameTailMode(r.values, Missing) &&
            forall i | HeadVehIdx <= i < FieldCount :: Inner(r.values[i]) == Inner(cur[i])
  {
    EncodeParts(vals);
    Layout();
    var w := Encode(PvtFields, vals);
    PrefixRoundTrip(cur, vals, []);
    assert w == WriteFields(PvtFields, vals, 0, HeadVehIdx) + [];
    var p := ReadPrefix(cur, w);
    assert Decode(cur, w) == MsgRead(Success, WithTailMode(p.values, Missing), 84);
  }

  // ---------------------------------------------------------------------
  // Field checks

  /** valid: the reserved bits under 0xf0 must be clear, so a valid byte is
      one below 16. */
  lemma ValidBitsReserved(x: nat)
    requires x < 256
    ensures Holds(ReservedBits(0xf0, 0), x) <==> x < 16
  {
    var q := x / 16;
    assert Pow2(4) == 16;
    MaskShift(x, 15, 4);
    MaskLow(q, 4);
    DivBelow(x, 16, 16);
    DivModUnique(q, 16, 0, q);
  }

  /** flags2: the reserved bits under 0x1f must be clear, so a valid byte is
      a multiple of 32. */
  lemma Flags2Reserved(x: nat)
    ensures Holds(ReservedBits(0x1f, 0), x) <==> x % 32 == 0
  {
    assert Pow2(5) == 32;
    MaskLow(x, 5);
  }

  /** flags: the members' widths 2 + 3 + 1 + 2 fill one byte; psmState is
      valid only in 0..5, and headVehValid's reserved mask 0xfe lies above
      its single bit, so any value it can hold passes. */
  lemma FlagsChecks(v: seq<nat>)
    requires FitsWidths(Widths(FlagsMembers), v)
    ensures BitLength(FlagsMembers) == 8 && MaxLength(Bitfield(FlagsMembers)) == 1
    ensures Valid(Bitfield(FlagsMembers), BitsV(v)) <==> v[1] <= 5
  {
    SchemaFacts();
    assert Widths(FlagsMembers) == [2, 3, 1, 2];
    assert Pow2(1) == 2;
    ReservedAboveWidth(v[2], 1, 127);
  }

  /** Field validity of NAV-PVT spelled out: the valid byte below 16,
      psmState at most 5, flags2 a multiple of 32 and both reserved fields
      zero. These are the checks the message definition itself declares;
      the ranges of the shared NAV field types are not modelled, so those
      fields carry no check here. */
  lemma AllValidMeans(vals: seq<Value>)
    requires FitsAll(PvtFields, vals)
    ensures SchemaOk(PvtFields)
    ensures AllValid(PvtFields, vals) <==> ChecksHold(vals)
  {
    WellFormedFields();
    if AllValid(PvtFields, vals) {
      CheckedKinds();
      assert Valid(PvtFields[ValidIdx], vals[ValidIdx]) && Valid(PvtFields[FlagsIdx], vals[FlagsIdx]);
      assert Valid(PvtFields[Flags2Idx], vals[Flags2Idx]);
      assert Valid(PvtFields[Reserved1Idx], vals[Reserved1Idx]) && Valid(PvtFields[Reserved2Idx], vals[Reserved2Idx]);
      ValidBitsReserved(vals[ValidIdx].n);
      Flags2Reserved(vals[Flags2Idx].n);
      FlagsChecks(vals[FlagsIdx].ms);
    }
    if ChecksHold(vals) {
      ChecksSuffice(vals);
    }
  }

  /** The kinds of the five constrained fields. */
  lemma CheckedKinds()
    ensures |PvtFields| == FieldCount
    ensures PvtFields[ValidIdx] == Int(1, false, ReservedBits(0xf0, 0))
    ensures PvtFields[FlagsIdx] == Bitfield(FlagsMembers)
    ensures PvtFields[Flags2Idx] == Int(1, false, ReservedBits(0x1f, 0))
    ensures PvtFields[Reserved1Idx] == Int(2, false, InRange(0, 0))
    ensures PvtFields[Reserved2Idx] == Int(4, false, InRange(0, 0))
  {
  }

  /** The constrained fields of NAV-PVT hold acceptable values: the valid
      byte below 16, psmState at most 5, flags2 a multiple of 32 and both
      reserved fields zero. */
  predicate ChecksHold(vals: seq<Value>)
    requires FitsAll(PvtFields, vals)
  {
    CheckedKinds();
    FlagsWidth();
    assert Widths(FlagsMembers) == [2, 3, 1, 2];
    vals[ValidIdx].n < 16 && vals[FlagsIdx].ms[1] <= 5 && vals[Flags2Idx].n % 32 == 0 &&
    vals[Reserved1Idx].n == 0 && vals[Reserved2Idx].n == 0
  }

  lemma ChecksSuffice(vals: seq<Value>)
    requires FitsAll(PvtFields, vals) && ChecksHold(vals)
    ensures SchemaOk(PvtFields) && AllValid(PvtFields, vals)
  {
    WellFormedFields();
    TimeValid(vals);
    PositionValid(vals);
    MotionValid(vals);
    TailValid(vals);
  }

  lemma TimeValid(vals: seq<Value>)
    requires FitsAll(PvtFields, vals) && ChecksHold(vals)
    ensures forall i | 0 <= i < 10 :: Valid(PvtFields[i], vals[i])
  {
    CheckedKinds();
    ValidBitsReserved(vals[ValidIdx].n);
    assert Valid(PvtFields[ValidIdx], vals[ValidIdx]);
    TimeKinds();
    OnlyOneChecked(PvtFields, vals, 0, ValidIdx, 10);
  }

  /** Of iTOW to nano, only valid carries a check. */
  lemma TimeKinds()
    ensures |PvtFields| == FieldCount
    ensures forall i | 0 <= i < 10 && i != ValidIdx :: PvtFields[i].Int? && PvtFields[i].check == AnyValue
  {
    assert forall i | 0 <= i < ValidIdx :: PvtFields[i].Int? && PvtFields[i].check == AnyValue;
    assert forall i | ValidIdx < i < 10 :: PvtFields[i].Int? && PvtFields[i].check == AnyValue;
  }

  /** A range in which only field k carries a check is valid when field k
      is. */
  lemma OnlyOneChecked(schema: Schema, vals: seq<Value>, from: nat, k: nat, until: nat)
    requires FitsAll(schema, vals) && from <= k < until <= |schema|
    requires forall i | from <= i < until && i != k :: schema[i].Int? && schema[i].check == AnyValue
    requires Valid(schema[k], vals[k])
    ensures forall i | from <= i < until :: Valid(schema[i], vals[i])
  {
    AnyValueValid(schema, vals, from, k);
    AnyValueValid(schema, vals, k + 1, until);
  }

  lemma PositionValid(vals: seq<Value>)
    requires FitsAll(PvtFields, vals) && ChecksHold(vals)
    ensures forall i | 10 <= i < 20 :: Valid(PvtFields[i], vals[i])
  {
    CheckedKinds();
    FlagsChecks(vals[FlagsIdx].ms);
    Flags2Reserved(vals[Flags2Idx].n);
    assert Valid(PvtFields[FlagsIdx], vals[FlagsIdx]) && Valid(PvtFields[Flags2Idx], vals[Flags2Idx]);
    UncheckedPosition(vals);
  }

  lemma UncheckedPosition(vals: seq<Value>)
    requires FitsAll(PvtFields, vals)
    ensures Valid(PvtFields[10], vals[10])
    ensures forall i | 13 <= i < 20 :: Valid(PvtFields[i], vals[i])
  {
    assert forall i | 13 <= i < 20 :: PvtFields[i].Int? && PvtFields[i].check == AnyValue;
    AnyValueValid(PvtFields, vals, 13, 20);
    assert PvtFields[10] == U(1);
  }

  lemma MotionValid(vals: seq<Value>)
    requires FitsAll(PvtFields, vals) && ChecksHold(vals)
    ensures forall i | 20 <= i < HeadVehIdx :: Valid(PvtFields[i], vals[i])
  {
    CheckedKinds();
    assert forall i | 20 <= i < Reserved1Idx :: PvtFields[i].Int? && PvtFields[i].check == AnyValue;
    AnyValueValid(PvtFields, vals, 20, Reserved1Idx);
  }

  lemma TailValid(vals: seq<Value>)
    requires FitsAll(PvtFields, vals)
    ensures forall i | HeadVehIdx <= i < FieldCount :: Valid(PvtFields[i], vals[i])
  {
    TailKinds();
  }

  /** A default-constructed message is valid. */
  lemma DefaultValid()
    ensures SchemaOk(PvtFields) && MsgValid(Defaults(PvtFields))
  {
    WellFormedFields();
    CheckedKinds();
    var d := Defaults(PvtFields);
    assert d[ValidIdx] == IntV(0) && d[Flags2Idx] == IntV(0);
    assert d[Reserved1Idx] == IntV(0) && d[Reserved2Idx] == IntV(0);
    assert d[FlagsIdx] == BitsV(seq(4, i => 0));
    ChecksSuffice(d);
    TailKinds();
    assert d[HeadVehIdx].mode == d[MagDecIdx].mode == d[MagAccIdx].mode == Missing;
  }
}
