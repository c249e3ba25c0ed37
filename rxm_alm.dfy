/** RXM-ALM, the almanac of one satellite: its SVID, the almanac week and
    eight 32-bit words of almanac data.  The data is only sent when the
    week is not zero, so its presence is decided by the value of the week
    field read before it, and refresh re-derives that presence after the
    fields were changed by hand. */
module RxmAlm {
  import opened Wire
  import opened Field
  import opened Message

  const SvidIdx: nat := 0
  const WeekIdx: nat := 1
  const DataIdx: nat := 2
  const FieldCount: nat := 3

  /** An unsigned 32-bit word: SVID, WEEK and each almanac DWORD. */
  const Word: Kind := Int(4, false, AnyValue)

  /** The almanac data: exactly eight words, no length prefix. */
  const Words: Kind := Array(Word, 8)

  /** svid, week, and the optional data, whose declared default mode is
      the library's (tentative); the constructor overrides it. */
  const AlmFields: Schema := [Word, Word, Optional(Words, Tentative)]

  lemma SchemaFacts()
    ensures |AlmFields| == FieldCount && SchemaOk(AlmFields)
    ensures AllFixed(AlmFields, 0, DataIdx) && SumMax(AlmFields, 0, DataIdx) == 8
    ensures AlmFields[DataIdx] == Optional(Words, Tentative)
    ensures FixedLength(Words) && MaxLength(Words) == 32
  {
    assert SumMax(AlmFields, 2, 2) == 0;
  }

  /** The data field holds eight words, whatever its mode. */
  lemma DataFits(vals: seq<Value>)
    requires FitsAll(AlmFields, vals)
    ensures vals[DataIdx].OptV? && Inner(vals[DataIdx]).ArrV? && |Inner(vals[DataIdx]).elems| == 8
    ensures forall i | 0 <= i < 8 :: Fits(Word, Inner(vals[DataIdx]).elems[i])
  {
    SchemaFacts();
    assert Fits(Optional(Words, Tentative), vals[DataIdx]);
  }

  /** The presence the week calls for: missing for week 0, present for
      any other week. */
  function ExpectedMode(week: int): Mode
  {
    if week == 0 then Missing else Exists
  }

  function Week(vals: seq<Value>): int
    requires FitsAll(AlmFields, vals)
  {
    vals[WeekIdx].n
  }

  /** The data field's mode is the one the week calls for. */
  predicate ModeAgrees(vals: seq<Value>)
    requires FitsAll(AlmFields, vals)
  {
    vals[DataIdx].mode == ExpectedMode(Week(vals))
  }

  /** The fields with the data field's mode set to m. */
  function WithDataMode(vals: seq<Value>, m: Mode): (r: seq<Value>)
    requires FitsAll(AlmFields, vals)
    ensures FitsAll(AlmFields, r)
    ensures r[SvidIdx] == vals[SvidIdx] && r[WeekIdx] == vals[WeekIdx]
    ensures r[DataIdx] == OptV(m, Inner(vals[DataIdx]))
  {
    vals[DataIdx := SetMode(vals[DataIdx], m)]
  }

  /** readImpl: read svid and week; on success set the data field's mode
      from the week and read on from the data field. */
  function Decode(cur: seq<Value>, s: seq<Byte>): (r: MsgRead)
    requires FitsAll(AlmFields, cur)
    ensures FitsAll(AlmFields, r.values) && r.used <= |s|
  {
    SchemaFacts();
    var p := ReadFields(AlmFields, cur, 0, DataIdx, s);
    if p.status != Success then p
    else
      var vals := WithDataMode(p.values, ExpectedMode(Week(p.values)));
      Shifted(ReadFields(AlmFields, vals, DataIdx, FieldCount, s[p.used..]), p.used)
  }

  /** refreshImpl's new state: the data field in the mode the week calls
      for. */
  function Refreshed(vals: seq<Value>): seq<Value>
    requires FitsAll(AlmFields, vals)
  {
    WithDataMode(vals, ExpectedMode(Week(vals)))
  }

  /** The RXM-ALM message object. */
  class RxmAlmMessage {
    var fields: seq<Value>

    ghost predicate Inv()
      reads this
    {
      FitsAll(AlmFields, fields)
    }

    /** Default fields, with the data field set to missing. */
    constructor()
      ensures SchemaOk(AlmFields) && Inv()
      ensures fields == WithDataMode(Defaults(AlmFields), Missing)
    {
      SchemaFacts();
      var d := Defaults(AlmFields);
      fields := d[DataIdx := SetMode(d[DataIdx], Missing)];
    }

    method Read(s: seq<Byte>) returns (status: ErrorStatus, used: nat)
      requires Inv()
      modifies this
      ensures Inv()
      ensures MsgRead(status, fields, used) == Decode(old(fields), s)
    {
      SchemaFacts();
      var es, vals, n := ReadRange(AlmFields, fields, 0, DataIdx, s);
      fields := vals;
      if es != Success {
        return es, n;
      }
      var mode := Exists;
      if fields[WeekIdx].n == 0 {
        mode := Missing;
      }
      fields := fields[DataIdx := SetMode(fields[DataIdx], mode)];
      es, vals, used := ReadRange(AlmFields, fields, DataIdx, FieldCount, s[n..]);
      fields := vals;
      status, used := es, n + used;
    }

    /** Sets the data field's mode from the week; reports whether that
        changed it. */
    method Refresh() returns (changed: bool)
      requires Inv()
      modifies this
      ensures Inv()
      ensures changed == !ModeAgrees(old(fields))
      ensures fields == Refreshed(old(fields))
    {
      SchemaFacts();
      var expected := Exists;
      if fields[WeekIdx].n == 0 {
        expected := Missing;
      }
      if fields[DataIdx].mode == expected {
        assert fields == Refreshed(fields);
        return false;
      }
      fields := fields[DataIdx := SetMode(fields[DataIdx], expected)];
      return true;
    }
  }

  // ---------------------------------------------------------------------
  // Construction and refresh

  /** A freshly constructed message has week 0 and missing data, so a
      refresh right after construction changes nothing. */
  lemma ConstructedAgrees()
    ensures SchemaOk(AlmFields)
    ensures var d := WithDataMode(Defaults(AlmFields), Missing);
            Week(d) == 0 && d[DataIdx].mode == Missing && ModeAgrees(d)
  {
    SchemaFacts();
  }

  /** Refresh changes the fields exactly when their mode disagrees with
      the week: it reports true exactly when it did something. */
  lemma RefreshChangesIffDisagrees(vals: seq<Value>)
    requires FitsAll(AlmFields, vals)
    ensures Refreshed(vals) == vals <==> ModeAgrees(vals)
  {
    SchemaFacts();
    if ModeAgrees(vals) {
      assert Refreshed(vals) == vals;
    } else {
      assert Refreshed(vals)[DataIdx] != vals[DataIdx];
    }
  }

  /** After a refresh the mode agrees with the week, so a second refresh
      reports false and leaves everything as it is. */
  lemma RefreshIdempotent(vals: seq<Value>)
    requires FitsAll(AlmFields, vals)
    ensures ModeAgrees(Refreshed(vals))
    ensures Refreshed(Refreshed(vals)) == Refreshed(vals)
  {
    RefreshChangesIffDisagrees(Refreshed(vals));
  }

  /** Refresh touches only the data field's mode: svid, week and the
      almanac words stay as they were. */
  lemma RefreshKeepsValues(vals: seq<Value>)
    requires FitsAll(AlmFields, vals)
    ensures var r := Refreshed(vals);
            r[SvidIdx] == vals[SvidIdx] && r[WeekIdx] == vals[WeekIdx] &&
            r[DataIdx].OptV? && Inner(r[DataIdx]) == Inner(vals[DataIdx])
  {
  }

  // ---------------------------------------------------------------------
  // Decoding

  /** Reading svid and week: 8 bytes, both little-endian unsigned. */
  lemma PrefixRead(cur: seq<Value>, s: seq<Byte>)
    requires FitsAll(AlmFields, cur)
    ensures SchemaOk(AlmFields)
    ensures var p := ReadFields(AlmFields, cur, 0, DataIdx, s);
            (p.status == Success <==> |s| >= 8) &&
            p.values[DataIdx] == cur[DataIdx] &&
            (p.status == Success ==>
               p.used == 8 && p.values[SvidIdx] == IntV(LEInt(s[0..4], false)) &&
               p.values[WeekIdx] == IntV(LEInt(s[4..8], false)))
  {
    SchemaFacts();
    ReadFieldsFixed(AlmFields, cur, 0, DataIdx, s);
    ReadFieldsKeeps(AlmFields, cur, 0, DataIdx, s);
    if |s| >= 8 {
      var v1 := cur[SvidIdx := IntV(LEInt(s[..4], false))];
      ReadFieldsStep(AlmFields, cur, 0, DataIdx, s);
      ReadFieldsStep(AlmFields, v1, 1, DataIdx, s[4..]);
      assert s[4..][..4] == s[4..8];
      assert s[..4] == s[0..4];
    }
  }

  /** Fewer than 8 bytes: the error is returned before the data field's
      mode is looked at, so it keeps whatever mode it had. */
  lemma DecodeTooShort(cur: seq<Value>, s: seq<Byte>)
    requires FitsAll(AlmFields, cur) && |s| < 8
    ensures Decode(cur, s).status == NotEnoughData
    ensures Decode(cur, s).values[DataIdx] == cur[DataIdx]
  {
    PrefixRead(cur, s);
  }

  /** Week 0: success after the 8 bytes of svid and week; the data field
      becomes missing, keeps the words it held and consumes nothing. */
  lemma DecodeWeekZero(cur: seq<Value>, s: seq<Byte>)
    requires FitsAll(AlmFields, cur) && |s| >= 8 && LEInt(s[4..8], false) == 0
    ensures var r := Decode(cur, s);
            r.status == Success && r.used == 8 &&
            r.values[SvidIdx] == IntV(LEInt(s[0..4], false)) && r.values[WeekIdx] == IntV(0) &&
            r.values[DataIdx] == OptV(Missing, Inner(cur[DataIdx]))
  {
    PrefixRead(cur, s);
    var p := ReadFields(AlmFields, cur, 0, DataIdx, s);
    var vals := WithDataMode(p.values, Missing);
    ReadFieldsStep(AlmFields, vals, DataIdx, FieldCount, s[8..]);
    ReadFieldsKeeps(AlmFields, vals, DataIdx, FieldCount, s[8..]);
  }

  /** Any other week with the 32 data bytes there: success after 40 bytes,
      the data field is present and word k is the little-endian unsigned
      integer in bytes 8 + 4k to 11 + 4k. */
  lemma DecodeWithData(cur: seq<Value>, s: seq<Byte>)
    requires FitsAll(AlmFields, cur) && |s| >= 40 && LEInt(s[4..8], false) != 0
    ensures var r := Decode(cur, s);
            r.status == Success && r.used == 40 &&
            r.values[SvidIdx] == IntV(LEInt(s[0..4], false)) && r.values[WeekIdx] == IntV(LEInt(s[4..8], false)) &&
            r.values[DataIdx].OptV? && r.values[DataIdx].mode == Exists &&
            r.values[DataIdx].inner.ArrV? && |r.values[DataIdx].inner.elems| == 8 &&
            forall k | 0 <= k < 8 :: r.values[DataIdx].inner.elems[k] == IntV(LEInt(s[8 + 4 * k..12 + 4 * k], false))
  {
    PrefixRead(cur, s);
    var p := ReadFields(AlmFields, cur, 0, DataIdx, s);
    var vals := WithDataMode(p.values, Exists);
    var t := s[8..];
    DataFits(cur);
    var curs := Inner(cur[DataIdx]).elems;
    ReadAllInts(4, false, AnyValue, curs, t);
    ReadFieldsStep(AlmFields, vals, DataIdx, FieldCount, t);
    ReadFieldsKeeps(AlmFields, vals, DataIdx, FieldCount, t);
    var words := ReadAll(Word, curs, t).values;
    forall k | 0 <= k < 8
      ensures words[k] == IntV(LEInt(s[8 + 4 * k..12 + 4 * k], false))
    {
      assert t[k * 4..k * 4 + 4] == s[8 + 4 * k..12 + 4 * k];
    }
    var f := Read(AlmFields[DataIdx], vals[DataIdx], t);
    assert f == Decoded(Success, OptV(Exists, ArrV(words)), 32);
    assert ReadFields(AlmFields, vals[DataIdx := f.value], FieldCount, FieldCount, t[32..]).values == vals[DataIdx := f.value];
  }

  /** Any other week with fewer than 32 data bytes: the data field was
      already marked present when its read failed, so the message is left
      with present data holding the old words. */
  lemma DecodeDataTooShort(cur: seq<Value>, s: seq<Byte>)
    requires FitsAll(AlmFields, cur) && 8 <= |s| < 40 && LEInt(s[4..8], false) != 0
    ensures var r := Decode(cur, s);
            r.status == NotEnoughData && r.values[DataIdx] == OptV(Exists, Inner(cur[DataIdx]))
  {
    PrefixRead(cur, s);
    var p := ReadFields(AlmFields, cur, 0, DataIdx, s);
    var vals := WithDataMode(p.values, Exists);
    var t := s[8..];
    DataFits(cur);
    ReadAllFixed(Word, Inner(cur[DataIdx]).elems, t);
    ReadFieldsStep(AlmFields, vals, DataIdx, FieldCount, t);
  }

  /** Once svid and week are read the data field's mode agrees with the
      week, whether or not its own read succeeds: a refresh right after
      such a decode reports false. */
  lemma DecodeAgrees(cur: seq<Value>, s: seq<Byte>)
    requires FitsAll(AlmFields, cur) && |s| >= 8
    ensures ModeAgrees(Decode(cur, s).values)
  {
    PrefixRead(cur, s);
    var p := ReadFields(AlmFields, cur, 0, DataIdx, s);
    var r := Decode(cur, s);
    if LEInt(s[4..8], false) == 0 {
      DecodeWeekZero(cur, s);
    } else if |s| >= 40 {
      DecodeWithData(cur, s);
    } else {
      DecodeDataTooShort(cur, s);
    }
  }

  /** Decoding succeeds exactly when the 8 bytes of svid and week are
      there and, for a week other than 0, the 32 data bytes as well. */
  lemma DecodeSucceedsIff(cur: seq<Value>, s: seq<Byte>)
    requires FitsAll(AlmFields, cur)
    ensures Decode(cur, s).status == Success <==>
              |s| >= 8 && (LEInt(s[4..8], false) == 0 || |s| >= 40)
  {
    if |s| < 8 {
      DecodeTooShort(cur, s);
    } else if LEInt(s[4..8], false) == 0 {
      DecodeWeekZero(cur, s);
    } else if |s| >= 40 {
      DecodeWithData(cur, s);
    } else {
      DecodeDataTooShort(cur, s);
    }
  }

  // ---------------------------------------------------------------------
  // Round trip

  /** Encoding fields whose data mode agrees with their week and decoding
      them gives back svid and week; with a week other than 0 it gives back
      the almanac words too and consumes all 40 bytes, with week 0 the 8
      bytes of svid and week are all there is and the data field becomes
      missing. */
  lemma RoundTrip(cur: seq<Value>, vals: seq<Value>)
    requires FitsAll(AlmFields, cur) && FitsAll(AlmFields, vals) && ModeAgrees(vals)
    ensures SchemaOk(AlmFields)
    ensures var r := Decode(cur, Encode(AlmFields, vals));
            r.status == Success &&
            r.values[SvidIdx] == vals[SvidIdx] && r.values[WeekIdx] == vals[WeekIdx] &&
            (Week(vals) != 0 ==> r == MsgRead(Success, vals, 40)) &&
            (Week(vals) == 0 ==> r.used == 8 && r.values[DataIdx] == OptV(Missing, Inner(cur[DataIdx])))
  {
    SchemaFacts();
    var w := Encode(AlmFields, vals);
    var tail := WriteFields(AlmFields, vals, DataIdx, FieldCount);
    PrefixRoundTrip(cur, vals, tail);
    var p := ReadFields(AlmFields, cur, 0, DataIdx, w);
    var mid := WithDataMode(p.values, ExpectedMode(Week(vals)));
    assert w[8..] == tail;
    assert Decode(cur, w) == Shifted(ReadFields(AlmFields, mid, DataIdx, FieldCount, tail), 8);
    DataRoundTrip(mid, vals);
  }

  /** svid and week read back from their 8 bytes, whatever follows them;
      the data field is not touched. */
  lemma PrefixRoundTrip(cur: seq<Value>, vals: seq<Value>, tail: seq<Byte>)
    requires FitsAll(AlmFields, cur) && FitsAll(AlmFields, vals)
    requires tail == WriteFields(AlmFields, vals, DataIdx, FieldCount)
    ensures SchemaOk(AlmFields)
    ensures Encode(AlmFields, vals) == WriteFields(AlmFields, vals, 0, DataIdx) + tail
    ensures var p := ReadFields(AlmFields, cur, 0, DataIdx, Encode(AlmFields, vals));
            p.status == Success && p.used == 8 &&
            p.values[SvidIdx] == vals[SvidIdx] && p.values[WeekIdx] == vals[WeekIdx] &&
            p.values[DataIdx] == cur[DataIdx]
  {
    SchemaFacts();
    WriteFieldsSplit(AlmFields, vals, 0, DataIdx, FieldCount);
    WriteFieldsFixed(AlmFields, vals, 0, DataIdx);
    forall i | 0 <= i < DataIdx
      ensures ModesMatch(cur[i], vals[i]) && Settled(vals[i])
    {
      FixedModesMatch(Word, cur[i], vals[i]);
    }
    ReadWriteFields(AlmFields, cur, vals, 0, DataIdx, tail);
    ReadFieldsKeeps(AlmFields, cur, 0, DataIdx, Encode(AlmFields, vals));
  }

  /** The data field reads back from its own encoding once its mode is the
      one the week calls for: the words when present, nothing when
      missing. */
  lemma DataRoundTrip(mid: seq<Value>, vals: seq<Value>)
    requires FitsAll(AlmFields, mid) && FitsAll(AlmFields, vals) && ModeAgrees(vals)
    requires mid[SvidIdx] == vals[SvidIdx] && mid[WeekIdx] == vals[WeekIdx] && ModeAgrees(mid)
    ensures SchemaOk(AlmFields)
    ensures var r := ReadFields(AlmFields, mid, DataIdx, FieldCount, WriteFields(AlmFields, vals, DataIdx, FieldCount));
            r.status == Success &&
            (Week(vals) != 0 ==> r.values == vals && r.used == 32) &&
            (Week(vals) == 0 ==> r.values == mid && r.used == 0)
  {
    SchemaFacts();
    var tail := WriteFields(AlmFields, vals, DataIdx, FieldCount);
    var r := ReadFields(AlmFields, mid, DataIdx, FieldCount, tail);
    ReadFieldsKeeps(AlmFields, mid, DataIdx, FieldCount, tail);
    if Week(vals) != 0 {
      DataFits(mid);
      DataFits(vals);
      FixedModesMatch(Words, Inner(mid[DataIdx]), Inner(vals[DataIdx]));
      ReadWriteFields(AlmFields, mid, vals, DataIdx, FieldCount, []);
      WriteFixed(Words, Inner(vals[DataIdx]));
      assert tail + [] == tail;
      assert r.values == vals;
    } else {
      ReadFieldsStep(AlmFields, mid, DataIdx, FieldCount, tail);
    }
  }
}
