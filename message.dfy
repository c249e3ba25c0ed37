/** A message is an ordered tuple of fields, serialised one after another
    with no padding.  This module holds the message-wide operations the
    concrete messages build on: reading the fields of an index range from a
    cursor (what readFieldsUntil / readFieldsFrom do), writing them, the
    conjunction of the fields' validity, and the lengths involved. */
module Message {
  import opened Wire
  import opened Field
  import opened Bits

  type Schema = seq<Kind>

  predicate SchemaOk(schema: Schema)
  {
    forall i | 0 <= i < |schema| :: WellFormed(schema[i])
  }

  /** A value for every field, each of its field's shape. */
  predicate FitsAll(schema: Schema, vals: seq<Value>)
  {
    |vals| == |schema| && forall i | 0 <= i < |vals| :: Fits(schema[i], vals[i])
  }

  /** Outcome of a message-level read: the status, the fields after the
      read, and the bytes the successful field reads consumed. */
  datatype MsgRead = MsgRead(status: ErrorStatus, values: seq<Value>, used: nat)

  /** Reads fields from .. until-1 in order from the front of s.  Fields are
      updated one by one as they are read; the first failing field stops the
      read with its status, and the fields read before it keep their new
      values. */
  function ReadFields(schema: Schema, vals: seq<Value>, from: nat, until: nat, s: seq<Byte>): (r: MsgRead)
    requires SchemaOk(schema) && FitsAll(schema, vals) && from <= until <= |schema|
    ensures FitsAll(schema, r.values) && r.used <= |s|
    decreases until - from
  {
    if from == until then MsgRead(Success, vals, 0)
    else
      var f := Read(schema[from], vals[from], s);
      if f.status != Success then MsgRead(f.status, vals, 0)
      else
        var rest := ReadFields(schema, vals[from := f.value], from + 1, until, s[f.used..]);
        MsgRead(rest.status, rest.values, f.used + rest.used)
  }

  /** The cursor loop behind readFieldsUntil / readFieldsFrom: one field at
      a time, advancing over the bytes each field consumed. */
  method ReadRange(schema: Schema, vals: seq<Value>, from: nat, until: nat, s: seq<Byte>)
    returns (status: ErrorStatus, values: seq<Value>, used: nat)
    requires SchemaOk(schema) && FitsAll(schema, vals) && from <= until <= |schema|
    ensures MsgRead(status, values, used) == ReadFields(schema, vals, from, until, s)
  {
    values, used := vals, 0;
    var i := from;
    while i < until
      invariant from <= i <= until && used <= |s|
      invariant ReadFields(schema, vals, from, i, s) == MsgRead(Success, values, used)
      decreases until - i
    {
      ReadFieldsSplit(schema, vals, from, i, until, s);
      var f := Read(schema[i], values[i], s[used..]);
      if f.status != Success {
        ReadFieldsStep(schema, values, i, until, s[used..]);
        return f.status, values, used;
      }
      PrefixStep(schema, vals, from, i, s, values, used);
      values, used, i := values[i := f.value], used + f.used, i + 1;
    }
    return Success, values, used;
  }

  lemma PrefixStep(schema: Schema, vals: seq<Value>, from: nat, i: nat, s: seq<Byte>, values: seq<Value>, used: nat)
    requires SchemaOk(schema) && FitsAll(schema, vals) && from <= i < |schema| && used <= |s|
    requires ReadFields(schema, vals, from, i, s) == MsgRead(Success, values, used)
    requires Read(schema[i], values[i], s[used..]).status == Success
    ensures var f := Read(schema[i], values[i], s[used..]);
            ReadFields(schema, vals, from, i + 1, s) == MsgRead(Success, values[i := f.value], used + f.used)
  {
    ReadFieldsSplit(schema, vals, from, i, i + 1, s);
    var f := Read(schema[i], values[i], s[used..]);
    assert s[used..][f.used..] == s[used + f.used..];
  }

  /** Reading a range leaves the fields outside it alone. */
  lemma {:induction false} ReadFieldsKeeps(schema: Schema, vals: seq<Value>, from: nat, until: nat, s: seq<Byte>)
    requires SchemaOk(schema) && FitsAll(schema, vals) && from <= until <= |schema|
    ensures var r := ReadFields(schema, vals, from, until, s);
            forall i | 0 <= i < |vals| && (i < from || until <= i) :: r.values[i] == vals[i]
    decreases until - from
  {
    if from < until {
      var f := Read(schema[from], vals[from], s);
      if f.status == Success {
        ReadFieldsKeeps(schema, vals[from := f.value], from + 1, until, s[f.used..]);
      }
    }
  }

  /** One step of ReadFields, as the cursor loop takes it. */
  lemma ReadFieldsStep(schema: Schema, vals: seq<Value>, from: nat, until: nat, s: seq<Byte>)
    requires SchemaOk(schema) && FitsAll(schema, vals) && from < until <= |schema|
    ensures var f := Read(schema[from], vals[from], s);
            ReadFields(schema, vals, from, until, s) ==
              if f.status != Success then MsgRead(f.status, vals, 0)
              else Shifted(ReadFields(schema, vals[from := f.value], from + 1, until, s[f.used..]), f.used)
  {
  }

  /** A read result with k more bytes counted as consumed. */
  function Shifted(r: MsgRead, k: nat): MsgRead
  {
    MsgRead(r.status, r.values, r.used + k)
  }

  /** The wire image of fields from .. until-1. */
  function WriteFields(schema: Schema, vals: seq<Value>, from: nat, until: nat): seq<Byte>
    requires SchemaOk(schema) && FitsAll(schema, vals) && from <= until <= |schema|
    decreases until - from
  {
    if from == until then [] else Write(schema[from], vals[from]) + WriteFields(schema, vals, from + 1, until)
  }

  /** The whole message's wire image. */
  function Encode(schema: Schema, vals: seq<Value>): seq<Byte>
    requires SchemaOk(schema) && FitsAll(schema, vals)
  {
    WriteFields(schema, vals, 0, |schema|)
  }

  /** Message validity: every field is valid on its own. */
  predicate AllValid(schema: Schema, vals: seq<Value>)
    requires FitsAll(schema, vals)
  {
    forall i | 0 <= i < |schema| :: Valid(schema[i], vals[i])
  }

  /** The sum of the maximal lengths of fields from .. until-1. */
  function SumMax(schema: Schema, from: nat, until: nat): nat
    requires from <= until <= |schema|
    decreases until - from
  {
    if from == until then 0 else MaxLength(schema[from]) + SumMax(schema, from + 1, until)
  }

  predicate AllFixed(schema: Schema, from: nat, until: nat)
    requires from <= until <= |schema|
  {
    forall i | from <= i < until :: FixedLength(schema[i])
  }

  predicate AllSettled(vals: seq<Value>, from: nat, until: nat)
    requires from <= until <= |vals|
  {
    forall i | from <= i < until :: Settled(vals[i])
  }

  /** a and b hold the same fields from .. until-1. */
  predicate SameRange(a: seq<Value>, b: seq<Value>, from: nat, until: nat)
    requires from <= until <= |a| && until <= |b|
  {
    forall i | from <= i < until :: a[i] == b[i]
  }

  /** The fields a default-constructed message holds. */
  function Defaults(schema: Schema): (vals: seq<Value>)
    requires SchemaOk(schema)
    ensures FitsAll(schema, vals)
    ensures forall i | 0 <= i < |schema| :: vals[i] == Default(schema[i])
  {
    seq(|schema|, i requires 0 <= i < |schema| => Default(schema[i]))
  }

  // ---------------------------------------------------------------------
  // Lemmas

  /** Integer fields without a check are valid whatever they hold. */
  lemma AnyValueValid(schema: Schema, vals: seq<Value>, from: nat, until: nat)
    requires FitsAll(schema, vals) && from <= until <= |schema|
    requires forall i | from <= i < until :: schema[i].Int? && schema[i].check == AnyValue
    ensures forall i | from <= i < until :: Valid(schema[i], vals[i])
  {
  }

  /** Reading fields back from their encoding, into fields whose presence
      modes are already those of the values, reproduces the values and
      consumes exactly the encoding. */
  lemma {:induction false} ReadWriteFields(schema: Schema, cur: seq<Value>, vals: seq<Value>, from: nat, until: nat, rest: seq<Byte>)
    requires SchemaOk(schema) && FitsAll(schema, cur) && FitsAll(schema, vals) && from <= until <= |schema|
    requires AllSettled(vals, from, until)
    requires forall i | from <= i < until :: ModesMatch(cur[i], vals[i])
    ensures var r := ReadFields(schema, cur, from, until, WriteFields(schema, vals, from, until) + rest);
            r.status == Success && r.used == |WriteFields(schema, vals, from, until)| &&
            SameRange(r.values, vals, from, until)
    decreases until - from
  {
    if from < until {
      var head := Write(schema[from], vals[from]);
      var tail := WriteFields(schema, vals, from + 1, until);
      var s := WriteFields(schema, vals, from, until) + rest;
      assert s == head + (tail + rest);
      ReadWrite(schema[from], cur[from], vals[from], tail + rest);
      assert Read(schema[from], cur[from], s) == Decoded(Success, vals[from], |head|);
      assert s[|head|..] == tail + rest;
      ReadFieldsStep(schema, cur, from, until, s);
      var cur' := cur[from := vals[from]];
      var r' := ReadFields(schema, cur', from + 1, until, tail + rest);
      assert ReadFields(schema, cur, from, until, s) == Shifted(r', |head|);
      ReadWriteFields(schema, cur', vals, from + 1, until, rest);
      ReadFieldsKeeps(schema, cur', from + 1, until, tail + rest);
      assert |WriteFields(schema, vals, from, until)| == |head| + |tail|;
      assert SameRange(r'.values, vals, from + 1, until);
      assert r'.values[from] == vals[from];
      assert SameRange(r'.values, vals, from, until);
    }
  }

  /** A message without optional parts decodes from its own encoding into
      any current fields: every field comes back and the whole encoding is
      consumed. */
  lemma ReadEncodeFixed(schema: Schema, cur: seq<Value>, vals: seq<Value>)
    requires SchemaOk(schema) && FitsAll(schema, cur) && FitsAll(schema, vals)
    requires AllFixed(schema, 0, |schema|)
    ensures ReadFields(schema, cur, 0, |schema|, Encode(schema, vals)) ==
              MsgRead(Success, vals, |Encode(schema, vals)|)
  {
    forall i | 0 <= i < |schema|
      ensures ModesMatch(cur[i], vals[i]) && Settled(vals[i])
    {
      FixedModesMatch(schema[i], cur[i], vals[i]);
    }
    ReadWriteFields(schema, cur, vals, 0, |schema|, []);
    assert Encode(schema, vals) + [] == Encode(schema, vals);
    var r := ReadFields(schema, cur, 0, |schema|, Encode(schema, vals));
    assert r.values == vals;
  }

  /** A range of fields without optional parts reads successfully exactly
      when enough bytes remain for all of them, and then consumes exactly
      that many bytes. */
  lemma {:induction false} ReadFieldsFixed(schema: Schema, vals: seq<Value>, from: nat, until: nat, s: seq<Byte>)
    requires SchemaOk(schema) && FitsAll(schema, vals) && from <= until <= |schema|
    requires AllFixed(schema, from, until)
    ensures ReadFields(schema, vals, from, until, s).status == Success <==> |s| >= SumMax(schema, from, until)
    ensures ReadFields(schema, vals, from, until, s).status == Success ==>
              ReadFields(schema, vals, from, until, s).used == SumMax(schema, from, until)
    decreases until - from
  {
    if from < until {
      ReadFixed(schema[from], vals[from], s);
      var f := Read(schema[from], vals[from], s);
      if f.status == Success {
        ReadFieldsFixed(schema, vals[from := f.value], from + 1, until, s[f.used..]);
      }
    }
  }

  /** In a range of fields without optional parts and enough bytes for
      all of them, field i is read from the bytes after the fields before
      it, at offset SumMax(schema, from, i). */
  lemma {:induction false} ReadFieldsAt(schema: Schema, vals: seq<Value>, from: nat, until: nat, s: seq<Byte>, i: nat)
    requires SchemaOk(schema) && FitsAll(schema, vals) && from <= i < until <= |schema|
    requires AllFixed(schema, from, until) && |s| >= SumMax(schema, from, until)
    ensures SumMax(schema, from, i) + MaxLength(schema[i]) <= |s|
    ensures ReadFields(schema, vals, from, until, s).values[i] ==
              Read(schema[i], vals[i], s[SumMax(schema, from, i)..]).value
    decreases i - from
  {
    OffsetBound(schema, from, i, until);
    if i == from {
      ReadFieldsHead(schema, vals, from, until, s);
      assert s[0..] == s;
    } else {
      var k := MaxLength(schema[from]);
      ReadFieldsPast(schema, vals, from, until, s, i);
      var vals' := vals[from := Read(schema[from], vals[from], s).value];
      ReadFieldsAt(schema, vals', from + 1, until, s[k..], i);
      assert s[k..][SumMax(schema, from + 1, i)..] == s[SumMax(schema, from, i)..];
      assert vals'[i] == vals[i];
    }
  }

  /** The first field of a range holds what its own read gives, whether
      the read succeeds or not. */
  lemma ReadFieldsHead(schema: Schema, vals: seq<Value>, from: nat, until: nat, s: seq<Byte>)
    requires SchemaOk(schema) && FitsAll(schema, vals) && from < until <= |schema|
    ensures ReadFields(schema, vals, from, until, s).values[from] == Read(schema[from], vals[from], s).value
  {
    var f := Read(schema[from], vals[from], s);
    ReadFieldsStep(schema, vals, from, until, s);
    if f.status == Success {
      ReadFieldsKeeps(schema, vals[from := f.value], from + 1, until, s[f.used..]);
    }
  }

  /** Past the first field of a fixed range with enough bytes, the range
      read is the read of the rest after the first field's bytes. */
  lemma ReadFieldsPast(schema: Schema, vals: seq<Value>, from: nat, until: nat, s: seq<Byte>, i: nat)
    requires SchemaOk(schema) && FitsAll(schema, vals) && from < i < until <= |schema|
    requires AllFixed(schema, from, until) && |s| >= SumMax(schema, from, until)
    ensures MaxLength(schema[from]) <= |s|
    ensures SumMax(schema, from, i) == MaxLength(schema[from]) + SumMax(schema, from + 1, i)
    ensures SumMax(schema, from + 1, until) <= |s| - MaxLength(schema[from])
    ensures var vals' := vals[from := Read(schema[from], vals[from], s).value];
            FitsAll(schema, vals') &&
            ReadFields(schema, vals, from, until, s).values[i] ==
              ReadFields(schema, vals', from + 1, until, s[MaxLength(schema[from])..]).values[i]
  {
    var k := MaxLength(schema[from]);
    assert SumMax(schema, from, until) == k + SumMax(schema, from + 1, until);
    ReadFixed(schema[from], vals[from], s);
    ReadFieldsStep(schema, vals, from, until, s);
  }

  /** A field's offset plus its length stays within the range's length. */
  lemma OffsetBound(schema: Schema, from: nat, i: nat, until: nat)
    requires from <= i < until <= |schema|
    ensures SumMax(schema, from, i) + MaxLength(schema[i]) <= SumMax(schema, from, until)
  {
    SumMaxSplit(schema, from, i, until);
  }

  /** An integer field of a message without optional parts is the
      little-endian integer at its offset. */
  lemma IntFieldAt(schema: Schema, vals: seq<Value>, s: seq<Byte>, i: nat, off: nat)
    requires SchemaOk(schema) && FitsAll(schema, vals) && i < |schema|
    requires AllFixed(schema, 0, |schema|) && |s| >= SumMax(schema, 0, |schema|)
    requires schema[i].Int? && SumMax(schema, 0, i) == off
    ensures 1 <= schema[i].bytes && off + schema[i].bytes <= |s|
    ensures ReadFields(schema, vals, 0, |schema|, s).values[i] ==
              IntV(LEInt(s[off..off + schema[i].bytes], schema[i].signed))
  {
    ReadFieldsAt(schema, vals, 0, |schema|, s, i);
    assert s[off..][..schema[i].bytes] == s[off..off + schema[i].bytes];
  }

  /** A bitfield of a message without optional parts holds the members
      split from the little-endian container at its offset. */
  lemma BitsFieldAt(schema: Schema, vals: seq<Value>, s: seq<Byte>, i: nat, off: nat)
    requires SchemaOk(schema) && FitsAll(schema, vals) && i < |schema|
    requires AllFixed(schema, 0, |schema|) && |s| >= SumMax(schema, 0, |schema|)
    requires schema[i].Bitfield? && SumMax(schema, 0, i) == off
    ensures off + BitLength(schema[i].members) / 8 <= |s|
    ensures ReadFields(schema, vals, 0, |schema|, s).values[i] ==
              BitsV(Split(Widths(schema[i].members), DecodeLE(s[off..off + BitLength(schema[i].members) / 8])))
  {
    ReadFieldsAt(schema, vals, 0, |schema|, s, i);
    assert s[off..][..BitLength(schema[i].members) / 8] == s[off..off + BitLength(schema[i].members) / 8];
  }

  /** Adding one field to a range adds its maximal length. */
  lemma SumMaxSnoc(schema: Schema, from: nat, until: nat)
    requires from <= until < |schema|
    ensures SumMax(schema, from, until + 1) == SumMax(schema, from, until) + MaxLength(schema[until])
  {
    SumMaxSplit(schema, from, until, until + 1);
  }

  /** A range of fields without optional parts is always written in
      SumMax bytes. */
  lemma {:induction false} WriteFieldsFixed(schema: Schema, vals: seq<Value>, from: nat, until: nat)
    requires SchemaOk(schema) && FitsAll(schema, vals) && from <= until <= |schema|
    requires AllFixed(schema, from, until)
    ensures |WriteFields(schema, vals, from, until)| == SumMax(schema, from, until)
    decreases until - from
  {
    if from < until {
      WriteFixed(schema[from], vals[from]);
      WriteFieldsFixed(schema, vals, from + 1, until);
    }
  }

  /** Reading a range in two consecutive steps is reading it in one: what
      readFieldsUntil followed by readFieldsFrom amounts to when nothing
      happens in between. */
  lemma {:induction false} ReadFieldsSplit(schema: Schema, vals: seq<Value>, from: nat, mid: nat, until: nat, s: seq<Byte>)
    requires SchemaOk(schema) && FitsAll(schema, vals) && from <= mid <= until <= |schema|
    ensures var a := ReadFields(schema, vals, from, mid, s);
            ReadFields(schema, vals, from, until, s) ==
              if a.status != Success then a
              else Shifted(ReadFields(schema, a.values, mid, until, s[a.used..]), a.used)
    decreases mid - from
  {
    if from == mid {
      assert s[0..] == s;
      assert ReadFields(schema, vals, from, mid, s) == MsgRead(Success, vals, 0);
    } else {
      ReadFieldsStep(schema, vals, from, until, s);
      ReadFieldsStep(schema, vals, from, mid, s);
      var f := Read(schema[from], vals[from], s);
      if f.status == Success {
        var vals', s' := vals[from := f.value], s[f.used..];
        ReadFieldsSplit(schema, vals', from + 1, mid, until, s');
        var a' := ReadFields(schema, vals', from + 1, mid, s');
        var a := ReadFields(schema, vals, from, mid, s);
        assert a == Shifted(a', f.used);
        assert s[a.used..] == s'[a'.used..];
        ShiftedSplit(ReadFields(schema, vals, from, until, s), a,
                     ReadFields(schema, vals', from + 1, until, s'), a',
                     ReadFields(schema, a.values, mid, until, s[a.used..]), f.used);
      } else {
        assert ReadFields(schema, vals, from, until, s) == ReadFields(schema, vals, from, mid, s);
      }
    }
  }

  /** The bookkeeping of ReadFieldsSplit's inductive step, on read results
      alone: shifting both sides of a split by the first field's bytes. */
  lemma ShiftedSplit(whole: MsgRead, a: MsgRead, whole': MsgRead, a': MsgRead, b: MsgRead, k: nat)
    requires whole == Shifted(whole', k) && a == Shifted(a', k)
    requires whole' == if a'.status != Success then a' else Shifted(b, a'.used)
    ensures whole == if a.status != Success then a else Shifted(b, a.used)
  {
  }

  /** Writing a range is writing its two halves one after the other. */
  lemma {:induction false} WriteFieldsSplit(schema: Schema, vals: seq<Value>, from: nat, mid: nat, until: nat)
    requires SchemaOk(schema) && FitsAll(schema, vals) && from <= mid <= until <= |schema|
    ensures WriteFields(schema, vals, from, until) == WriteFields(schema, vals, from, mid) + WriteFields(schema, vals, mid, until)
    decreases mid - from
  {
    if from < mid {
      WriteFieldsSplit(schema, vals, from + 1, mid, until);
    }
  }

  /** The maximal lengths of adjacent ranges add up. */
  lemma {:induction false} SumMaxSplit(schema: Schema, from: nat, mid: nat, until: nat)
    requires from <= mid <= until <= |schema|
    ensures SumMax(schema, from, until) == SumMax(schema, from, mid) + SumMax(schema, mid, until)
    decreases mid - from
  {
    if from < mid {
      SumMaxSplit(schema, from + 1, mid, until);
    }
  }

  function Total(xs: seq<nat>): nat
  {
    if xs == [] then 0 else xs[0] + Total(xs[1..])
  }

  /** SumMax over a range whose field lengths are listed in lens. */
  lemma {:induction false} SumMaxOfLengths(schema: Schema, from: nat, until: nat, lens: seq<nat>)
    requires from <= until <= |schema| && |lens| == until - from
    requires forall i | from <= i < until :: MaxLength(schema[i]) == lens[i - from]
    ensures SumMax(schema, from, until) == Total(lens)
    decreases until - from
  {
    if from < until {
      SumMaxOfLengths(schema, from + 1, until, lens[1..]);
    }
  }
}
