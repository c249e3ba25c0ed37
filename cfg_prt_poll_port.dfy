/** CFG-PRT poll for one port: a single one-byte field, portID, whose
    validity is decided by a binary search over the table of known port
    identifiers. */
module CfgPrtPollPort {
  import opened Wire
  import opened Field
  import opened Message
  import opened SortedTable

  // The port identifiers of CFG-PRT, with the UBX port numbers (their
  // defining header is not part of this model).
  const DDC: int := 0
  const UART: int := 1
  const USB: int := 3
  const SPI: int := 4

  /** The validator's static table, in ascending order. */
  const PortIds: seq<int> := [DDC, UART, USB, SPI]

  const PortIdField: Kind := Int(1, false, OneOf(PortIds))

  /** The schema: portID and nothing else. */
  const PollFields: Schema := [PortIdField]

  /** The validator's verdict on a portID value. */
  predicate PortIdValid(v: int)
  {
    Accepts(PortIds, v)
  }

  /** The message's field values. */
  datatype PollPort = PollPort(portId: int)

  datatype PollRead = PollRead(status: ErrorStatus, msg: PollPort, used: nat)

  /** The table is sorted, which the binary search relies on. */
  lemma PortIdsSorted()
    ensures Sorted(PortIds)
  {
  }

  /** The validator accepts exactly the four known ports. */
  lemma PortIdValidIff(v: int)
    ensures PortIdValid(v) <==> v == DDC || v == UART || v == USB || v == SPI
  {
    PortIdsSorted();
    AcceptsIffMember(PortIds, v);
  }

  /** 2 lies between UART and USB: the search stops at USB, which is not
      2, so the value is rejected. */
  lemma BetweenEntriesRejected()
    ensures LowerBound(PortIds, 2, 0, |PortIds|) == 2 && PortIds[2] == USB
    ensures !PortIdValid(2)
  {
    assert LowerBound(PortIds, 2, 0, 4) == LowerBound(PortIds, 2, 2, 2);
    assert LowerBound(PortIds, 2, 2, 2) == LowerBound(PortIds, 2, 2, 1);
  }

  /** A value above SPI runs the search off the end of the table, so the
      end check rejects it. */
  lemma PastEndRejected(v: int)
    requires v > SPI
    ensures LowerBound(PortIds, v, 0, |PortIds|) == |PortIds|
    ensures !PortIdValid(v)
  {
    PortIdsSorted();
  }

  lemma SchemaFacts()
    ensures |PollFields| == 1 && SchemaOk(PollFields) && AllFixed(PollFields, 0, 1)
    ensures SumMax(PollFields, 0, 1) == 1
  {
  }

  function Fields(m: PollPort): seq<Value>
  {
    [IntV(m.portId)]
  }

  /** portID is an unsigned byte. */
  predicate WellSized(m: PollPort)
  {
    0 <= m.portId < 0x100
  }

  lemma WellSizedFits(m: PollPort)
    ensures WellSized(m) <==> FitsAll(PollFields, Fields(m))
  {
    assert Pow256(1) == 0x100;
    assert FitsAll(PollFields, Fields(m)) <==> Fits(PollFields[0], IntV(m.portId));
  }

  function Encode(m: PollPort): (s: seq<Byte>)
    requires WellSized(m)
  {
    WellSizedFits(m);
    SchemaFacts();
    Message.Encode(PollFields, Fields(m))
  }

  /** Reads portID into cur. */
  function Decode(cur: PollPort, s: seq<Byte>): PollRead
    requires WellSized(cur)
  {
    WellSizedFits(cur);
    SchemaFacts();
    var r := ReadFields(PollFields, Fields(cur), 0, 1, s);
    PollRead(r.status, PollPort(r.values[0].n), r.used)
  }

  /** The message is valid when its only field is. */
  predicate Valid(m: PollPort)
    requires WellSized(m)
  {
    WellSizedFits(m);
    AllValid(PollFields, Fields(m))
  }

  /** Message validity is the validator's verdict, which accepts exactly
      the four known ports. */
  lemma ValidIff(m: PollPort)
    requires WellSized(m)
    ensures Valid(m) <==> PortIdValid(m.portId)
    ensures Valid(m) <==> m.portId in {DDC, UART, USB, SPI}
  {
    WellSizedFits(m);
    assert Valid(m) <==> Field.Valid(PollFields[0], Fields(m)[0]);
    PortIdValidIff(m.portId);
  }

  /** Decoding succeeds exactly when a byte is there; it consumes that
      byte and takes it as the port, leaving cur as it was on failure. */
  lemma DecodeMeans(cur: PollPort, s: seq<Byte>)
    requires WellSized(cur)
    ensures Decode(cur, s).status == Success <==> |s| >= 1
    ensures |s| >= 1 ==> Decode(cur, s) == PollRead(Success, PollPort(s[0] as int), 1)
    ensures |s| == 0 ==> Decode(cur, s) == PollRead(NotEnoughData, cur, 0)
  {
    WellSizedFits(cur);
    SchemaFacts();
    if |s| >= 1 {
      assert s[0..1] == [s[0]];
      assert DecodeLE([s[0]]) == s[0] as int;
    }
  }

  /** Decoding the encoding gives the port back. */
  lemma RoundTrip(cur: PollPort, m: PollPort)
    requires WellSized(cur) && WellSized(m)
    ensures Decode(cur, Encode(m)) == PollRead(Success, m, 1)
  {
    WellSizedFits(cur);
    WellSizedFits(m);
    SchemaFacts();
    ReadEncodeFixed(PollFields, Fields(cur), Fields(m));
    WriteFieldsFixed(PollFields, Fields(m), 0, 1);
  }
}
