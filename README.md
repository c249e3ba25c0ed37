# UBX message layer of the u-blox toolkit, in Dafny

This project models the binary message layer of the u-blox UBX protocol library. It covers two parts:

- the generic field engine that the message definitions are built on, and
- four concrete messages with rules of their own.

The engine (`wire.dfy`, `bits.dfy`, `sorted_table.dfy`, `field.dfy`, `message.dfy`) supports these kinds of field:

- little-endian integers of a fixed width, signed or unsigned;
- enumerations with a valid range;
- bitmasks whose reserved bits must hold an expected value;
- bitfields of members with declared bit widths, first member lowest;
- optional fields whose mode is `Tentative`, `Exists` or `Missing`;
- fixed-size arrays without a count prefix.

A field read takes the field's current value and the bytes that remain. A message read goes field by field, through a cursor loop (`Message.ReadRange`) that is proved against its specification function (`Message.ReadFields`). When a field fails, the read stops with `NotEnoughData`:

- the failing field keeps its old value;
- the fields read before it keep their new values.

A failed fixed-size array read is modelled as all-or-nothing: every element keeps its old value (see "## Left out").

The messages:

- **NAV-PVT** (`nav_pvt.dfy`): a class with 30 fixed fields (84 bytes) and three optional tail fields, `headVeh`, `magDec` and `magAcc` (8 bytes). `Read` reads the fixed part. It then marks all three tail fields present or missing at once, according to whether at least 8 bytes remain, and reads the tail when present. Validity requires every field to be valid and the three tail fields to share one mode.
- **RXM-ALM** (`rxm_alm.dfy`): a class with `svid`, `week` and an optional 8-word array. Construction sets the array missing. `Read` reads `svid` and `week`, then sets the array's mode from `week`: missing for week 0, present otherwise. `Refresh` re-derives that mode and reports whether it changed.
- **CFG-TP5** (`cfg_tp5.dfy`): a pure 11-field, 32-byte schema. It ends in a 32-bit flags bitfield of 7 + 4 + 3 + 18 bits.
- **CFG-PRT poll-port** (`cfg_prt_poll_port.dfy`): a single one-byte `portID`. Its validator binary-searches (`std::lower_bound`) the table of port identifiers DDC, UART, USB and SPI. The numbers DDC=0, UART=1, USB=3 and SPI=4 are the UBX port numbers, taken as given (see "## Left out").

Every modelled read is given the bytes that remain. Nothing reads from a device.

## Model

| member | source | states |
|---|---|---|
| Wire.DecodeLE | include/ublox/message/CfgTp5.h:49-67 | the value of a little-endian byte string is below 256^n |
| Wire.EncodeLE | include/ublox/message/CfgTp5.h:49-67 | the little-endian encoding of a value has exactly n bytes |
| Wire.DecodeEncode | include/ublox/message/CfgTp5.h:49-67 | decoding the n-byte little-endian encoding of a value below 256^n gives the value back |
| Wire.EncodeDecode | include/ublox/message/CfgTp5.h:49-67 | every byte string is the encoding of the value it decodes to |
| Wire.ToRaw | include/ublox/message/CfgTp5.h:49-67 | the two's complement wire image of a value that fits n bytes is below 256^n |
| Wire.FromRaw | include/ublox/message/CfgTp5.h:49-67 | the value a raw image stands for fits n bytes, signed or unsigned |
| Wire.RawRoundTrip | include/ublox/message/CfgTp5.h:49-67 | a value that fits is recovered from its two's complement image |
| Wire.RawRoundTripBack | include/ublox/message/CfgTp5.h:49-67 | every raw image is the image of the value it stands for |
| Bits.Split | include/ublox/message/CfgTp5.h:120-128 | unpacking a container gives one member per declared width, each fitting its width |
| Bits.PackBound | include/ublox/message/CfgTp5.h:120-128 | members that fit their widths pack into a container below 2^(sum of widths) |
| Bits.SplitPack | include/ublox/message/CfgTp5.h:120-128 | unpacking packed members gives the members back |
| Bits.PackSplit | include/ublox/message/CfgTp5.h:120-128 | packing the members of a container that fits gives the container back |
| Bits.MaskLow | include/ublox/message/NavPvt.h:150-151 | the bits of x under the mask 2^k - 1 are x mod 2^k |
| Bits.MaskShift | include/ublox/message/NavPvt.h:70-72 | the bits of x under m * 2^k are the bits of x / 2^k under m, shifted left by k |
| Bits.ReservedAboveWidth | include/ublox/message/CfgTp5.h:70-74 | a member narrower than a mask's lowest bit never has a reserved bit set |
| Bits.Pack | include/ublox/message/CfgTp5.h:120-128 | defines the bitfield container as the members packed first-lowest, each shifted past the widths before it, as the flags bitfield's write does |
| Bits.Masked | include/ublox/message/NavPvt.h:70-72 | defines the bitwise AND of two non-negative integers bit by bit, the `value & mask` that a reserved-bits check compares with the expected value |
| SortedTable.LowerBound | include/ublox/message/CfgPrtPollPort.h:48 | the result lies in the searched range; on a sorted table everything before it is below v and everything from it on is not |
| SortedTable.AcceptsIffMember | include/ublox/message/CfgPrtPollPort.h:47-49 | on a sorted table the lower-bound-then-compare verdict is exactly membership |
| SortedTable.Accepts | include/ublox/message/CfgPrtPollPort.h:47-49 | defines the validator's verdict as the position `std::lower_bound` returns being inside the table and holding the value |
| SortedTable.UnsortedTableMisses | include/ublox/message/CfgPrtPollPort.h:40-48 | without sortedness the search can reject a member: in [3, 1] it rejects 1 |
| Field.Widths | include/ublox/message/CfgTp5.h:120-128 | one width per bitfield member, each the member's declared bit length |
| Field.Holds | include/ublox/message/NavPvt.h:70-72 | defines when an integer passes its field's check: always without one, inside a declared inclusive range, with `(value & mask) == expected` for reserved bits, or accepted by a table validator |
| Field.Valid | include/ublox/message/NavPvt.h:431-443 | defines field validity as the library's valid(): an integer's own check, every bitfield member's check, an optional field's inner value unless it is missing, and every array element |
| Field.Write | include/ublox/message/CfgTp5.h:138-150 | defines a field's wire image: the n-byte little-endian two's complement integer, the packed bitfield container in its bytes, an optional field's inner image only when it exists, and the elements one after another |
| Field.Default | include/ublox/message/NavPvt.h:224-250 | a default-constructed field fits its kind; an integer field is zero, every bitfield member is zero, and an optional field is in its declared default mode |
| Field.Read | include/ublox/message/NavPvt.h:407 | a field read yields a value of the field's shape and uses no more bytes than remain; on NotEnoughData the field is unchanged and nothing is consumed |
| Field.ReadAll | include/ublox/message/RxmAlm.h:37-43 | reading a fixed-size array yields one value of the element's shape per element; on failure the elements are unchanged |
| Field.ReadWrite | include/ublox/message/CfgTp5.h:138-150 | a field decodes from its own encoding, whatever follows it, when the current presence modes agree with the written ones |
| Field.ReadWriteAll | include/ublox/message/RxmAlm.h:37-43 | an array of elements decodes from its own encoding |
| Field.FixedModesMatch | include/ublox/message/CfgTp5.h:138-150 | a field without optional parts always agrees in presence with any value of its kind |
| Field.WriteFixed | include/ublox/message/CfgTp5.h:138-150 | a field without optional parts is always encoded in its maximal length |
| Field.WriteAllFixed | include/ublox/message/RxmAlm.h:37-43 | an array of count fixed elements takes count times the element length |
| Field.ReadFixed | include/ublox/message/CfgTp5.h:138-150 | a fixed field reads successfully exactly when its length is available, and then consumes that length |
| Field.ReadAllFixed | include/ublox/message/RxmAlm.h:37-43 | a fixed array reads successfully exactly when count times the element length is available |
| Field.ReadIgnoresOld | include/ublox/message/CfgTp5.h:138-150 | the current value of a fixed field does not affect what a read of it yields |
| Field.ReadAllIgnoresOld | include/ublox/message/RxmAlm.h:37-43 | the current elements of a fixed array do not affect what a read of it yields |
| Field.ReadAllInts | include/ublox/message/RxmAlm.h:37-43 | reading integer elements from enough bytes succeeds, and element k is the little-endian integer in bytes k*n to k*n+n |
| Message.ReadFields | include/ublox/message/NavPvt.h:407 | reading a range of fields leaves values of the schema's shape and consumes no more than is there |
| Message.ReadRange | include/ublox/message/NavPvt.h:407 | the cursor loop computes exactly the field-by-field read of the range |
| Message.ReadFieldsKeeps | include/ublox/message/RxmAlm.h:91 | reading a range of fields leaves the fields outside the range alone |
| Message.ReadFieldsStep | include/ublox/message/NavPvt.h:428 | a range read is the first field's read followed by the rest of the range from where it stopped |
| Message.WriteFields | include/ublox/message/NavPvt.h:254-288 | defines the encoding of a range of fields as each field's image in schema order |
| Message.Encode | include/ublox/message/CfgTp5.h:138-150 | defines a message's encoding as the images of all its fields in order |
| Message.AllValid | include/ublox/message/NavPvt.h:434 | defines the fields' validity, the base valid() of the message, as every field being valid |
| Message.Defaults | include/ublox/message/NavPvt.h:385 | a default message holds each field's default value |
| Message.AnyValueValid | include/ublox/message/NavPvt.h:431-443 | integer fields without a check are valid whatever they hold |
| Message.ReadWriteFields | include/ublox/message/CfgTp5.h:138-150 | a range of fields decodes from its own encoding into fields whose presence modes agree |
| Message.ReadEncodeFixed | include/ublox/message/CfgTp5.h:138-150 | a message without optional parts decodes from its own encoding into any current fields, consuming all of it |
| Message.ReadFieldsFixed | include/ublox/message/CfgTp5.h:138-150 | a range of fixed fields reads successfully exactly when the sum of their lengths is available, and consumes exactly that |
| Message.ReadFieldsAt | include/ublox/message/CfgTp5.h:138-150 | in a read of fixed fields from enough bytes, field i is read from the bytes starting at the sum of the lengths before it |
| Message.IntFieldAt | include/ublox/message/CfgTp5.h:138-150 | an integer field of such a read is the little-endian integer, signed or unsigned, in its own byte slice |
| Message.BitsFieldAt | include/ublox/message/CfgTp5.h:138-150 | a bitfield of such a read holds its members split, lowest first, from the little-endian container in its own byte slice |
| Message.WriteFieldsFixed | include/ublox/message/CfgTp5.h:138-150 | a range of fixed fields is encoded in the sum of their lengths |
| Message.ReadFieldsSplit | include/ublox/message/NavPvt.h:407-428 | reading up to a field and then from it is reading the whole range |
| Message.WriteFieldsSplit | include/ublox/message/NavPvt.h:254-288 | writing a range is writing its two halves one after the other |
| Message.SumMaxSplit | include/ublox/message/NavPvt.h:412-415 | maximal lengths of adjacent ranges add up |
| NavPvt.SchemaFacts | include/ublox/message/NavPvt.h:254-288 | the 33 fields are well formed, the first 30 have no optional part and the last three are optional fixed-width fields |
| NavPvt.FlagsWidth | include/ublox/message/NavPvt.h:132-140 | the flags members' widths 2 + 3 + 1 + 2 sum to 8 bits |
| NavPvt.TailKinds | include/ublox/message/NavPvt.h:224-250 | headVeh is an optional I4, magDec an optional I2 and magAcc an optional U2, each missing by default |
| NavPvt.Layout | include/ublox/message/NavPvt.h:412-415 | the fixed part is 84 bytes, ReqLen (the tail's total maximal length) is 8 and the whole message 92 |
| NavPvt.WithTailMode | include/ublox/message/NavPvt.h:418-426 | setting the tail's mode changes only the modes of headVeh, magDec and magAcc |
| NavPvt.ReadPrefix | include/ublox/message/NavPvt.h:407 | reading up to headVeh leaves the three tail fields as they were |
| NavPvt.ReadTail | include/ublox/message/NavPvt.h:428 | reading from headVeh on leaves the fixed part as it was |
| NavPvt.NavPvtMessage.constructor | include/ublox/message/NavPvt.h:224-250 | a new message holds default values, with headVeh, magDec and magAcc all missing |
| NavPvt.NavPvtMessage.Read | include/ublox/message/NavPvt.h:404-429 | the message's read, with the fields updated in place, yields exactly the status, fields and count of the specification Decode |
| NavPvt.Decode | include/ublox/message/NavPvt.h:404-429 | defines doRead: read the fixed part and return its error; with fewer than ReqLen bytes left mark the three tail fields missing and succeed; otherwise mark them present and read them from the remaining bytes |
| NavPvt.MsgValid | include/ublox/message/NavPvt.h:431-443 | defines doValid: every field is valid, and magDec and magAcc are in headVeh's mode |
| NavPvt.PrefixRead | include/ublox/message/NavPvt.h:407-410 | the fixed part reads successfully exactly when 84 bytes are there, and then consumes 84 |
| NavPvt.TailRead | include/ublox/message/NavPvt.h:428 | with the tail marked present and 8 bytes there, the tail reads as the I4, I2 and U2 little-endian integers in them |
| NavPvt.DecodeTooShort | include/ublox/message/NavPvt.h:407-410 | with fewer than 84 bytes the read fails with NotEnoughData and the tail fields, modes included, are untouched |
| NavPvt.DecodeWithoutTail | include/ublox/message/NavPvt.h:417-422 | with 84 to 91 bytes the read succeeds after 84 bytes, leaves the leftover unread and marks all three tail fields missing |
| NavPvt.DecodeWithTail | include/ublox/message/NavPvt.h:424-428 | with 92 bytes or more the read succeeds after 92 bytes with all three tail fields present |
| NavPvt.DecodeTailValues | include/ublox/message/NavPvt.h:424-428 | with 92 bytes or more headVeh, magDec and magAcc are the integers in bytes 84-87, 88-89 and 90-91 |
| NavPvt.DecodeLong | include/ublox/message/NavPvt.h:407-428 | with the tail there, decoding is the fixed part's read followed by the tail's read from byte 84 |
| NavPvt.DecodeModesAgree | include/ublox/message/NavPvt.h:417-426 | after any successful read the three tail fields are all present or all missing, never mixed |
| NavPvt.DecodedValidity | include/ublox/message/NavPvt.h:431-443 | on a successfully read message, validity is just the fields' own validity, since the mode rule always holds |
| NavPvt.EncodeParts | include/ublox/message/NavPvt.h:254-288 | the encoding is the fixed part's 84 bytes followed by the tail's 8 bytes when present or nothing when missing |
| NavPvt.RoundTripWithTail | include/ublox/message/NavPvt.h:404-429 | a message with its tail present reads back from its encoding exactly, consuming 92 bytes |
| NavPvt.RoundTripWithoutTail | include/ublox/message/NavPvt.h:404-422 | a message with its tail missing reads back from its 84-byte encoding with every field's content and the tail missing |
| NavPvt.ValidBitsReserved | include/ublox/message/NavPvt.h:70-72 | a valid byte passes its reserved-bits check exactly when it is below 16, i.e. the bits under 0xf0 are clear |
| NavPvt.Flags2Reserved | include/ublox/message/NavPvt.h:150-151 | flags2 passes its reserved-bits check exactly when the bits under 0x1f are clear |
| NavPvt.FlagsChecks | include/ublox/message/NavPvt.h:103-140 | flags fills one byte, and it is valid exactly when psmState is at most 5 |
| NavPvt.AllValidMeans | include/ublox/message/NavPvt.h:434 | under the checks NavPvt.h itself declares, the fields are all valid exactly when valid is below 16, psmState at most 5, flags2's low five bits clear and both reserved fields zero |
| NavPvt.DefaultValid | include/ublox/message/NavPvt.h:385 | under the checks NavPvt.h itself declares, a default-constructed message is valid |
| RxmAlm.SchemaFacts | include/ublox/message/RxmAlm.h:34-44 | svid and week are 8 fixed bytes, and the data is an optional array of 8 words, 32 bytes, whose declared default mode is Tentative |
| RxmAlm.WithDataMode | include/ublox/message/RxmAlm.h:103-104 | setting the data field's mode leaves svid, week and the array contents alone |
| RxmAlm.Decode | include/ublox/message/RxmAlm.h:87-106 | the read leaves values of the schema's shape and consumes no more than is there |
| RxmAlm.RxmAlmMessage.constructor | include/ublox/message/RxmAlm.h:73-78 | a new message holds default values with the data field missing |
| RxmAlm.RxmAlmMessage.Read | include/ublox/message/RxmAlm.h:87-106 | the read, with the fields updated in place, yields exactly the status, fields and count of the specification Decode |
| RxmAlm.RxmAlmMessage.Refresh | include/ublox/message/RxmAlm.h:108-124 | refresh reports a change exactly when the data mode disagreed with the week, and leaves the week-derived mode |
| RxmAlm.ExpectedMode | include/ublox/message/RxmAlm.h:111-115 | defines the data mode a week implies: missing for week 0, present otherwise |
| RxmAlm.ModeAgrees | include/ublox/message/RxmAlm.h:118 | defines agreement as the data field's mode being the one its week implies |
| RxmAlm.Refreshed | include/ublox/message/RxmAlm.h:108-124 | defines the fields after refreshImpl: the data mode set to the week's expected mode, everything else kept |
| RxmAlm.ConstructedAgrees | include/ublox/message/RxmAlm.h:73-78 | a new message has week 0 and missing data, so its mode already agrees with its week |
| RxmAlm.RefreshChangesIffDisagrees | include/ublox/message/RxmAlm.h:118-123 | refresh leaves the fields unchanged exactly when the mode already agrees with the week |
| RxmAlm.RefreshIdempotent | include/ublox/message/RxmAlm.h:112-123 | after a refresh the mode agrees, so a second refresh changes nothing and reports no change |
| RxmAlm.RefreshKeepsValues | include/ublox/message/RxmAlm.h:108-124 | refresh changes only the data field's mode, never svid, week or the array contents |
| RxmAlm.PrefixRead | include/ublox/message/RxmAlm.h:91-94 | svid and week read successfully exactly when 8 bytes are there, as two unsigned little-endian words |
| RxmAlm.DecodeTooShort | include/ublox/message/RxmAlm.h:91-94 | with fewer than 8 bytes the read fails before the data field's mode is touched |
| RxmAlm.DecodeWeekZero | include/ublox/message/RxmAlm.h:96-105 | week 0: success after 8 bytes with the data field missing and its contents untouched |
| RxmAlm.DecodeWithData | include/ublox/message/RxmAlm.h:96-105 | any other week with 32 data bytes: success after 40 bytes, data present, word k the unsigned integer in bytes 8+4k to 12+4k |
| RxmAlm.DecodeDataTooShort | include/ublox/message/RxmAlm.h:96-105 | any other week with fewer than 32 data bytes: NotEnoughData, with the data field already marked present |
| RxmAlm.DecodeAgrees | include/ublox/message/RxmAlm.h:96-104 | once svid and week are read, the data mode agrees with the week, whatever the outcome |
| RxmAlm.DecodeSucceedsIff | include/ublox/message/RxmAlm.h:91-105 | the read succeeds exactly when 8 bytes are there and either week is 0 or 32 more bytes follow |
| RxmAlm.RoundTrip | include/ublox/message/RxmAlm.h:87-106 | fields whose data mode agrees with their week read back exactly from their encoding |
| CfgTp5.FlagsWidth | include/ublox/message/CfgTp5.h:120-128 | the flags members are 7, 4, 3 and 18 bits wide, summing to 32, so flags is 4 bytes |
| CfgTp5.Layout | include/ublox/message/CfgTp5.h:138-150 | the eleven fields take 32 bytes |
| CfgTp5.FromFields | include/ublox/message/CfgTp5.h:138-150 | values of the schema's shape are exactly the fields of one message record, in schema order |
| CfgTp5.FromFieldsFields | include/ublox/message/CfgTp5.h:138-150 | a record turned into its field list and back is the same record |
| CfgTp5.Encode | include/ublox/message/CfgTp5.h:138-150 | defines the encoding as the eleven fields' images in declaration order |
| CfgTp5.Decode | include/ublox/message/CfgTp5.h:138-150 | defines the read as the eleven fields read in order into the current message, with its status and byte count |
| CfgTp5.Valid | include/ublox/message/CfgTp5.h:138-150 | defines validity as every field's check holding |
| CfgTp5.WellSizedMeans | include/ublox/message/CfgTp5.h:37-128 | a message fits the wire exactly when each integer fits its width and signedness and each flag member its bits |
| CfgTp5.FlagsLowReservedClear | include/ublox/message/CfgTp5.h:70-74 | a 7-bit flagsLow never has the bit under reserved mask 0x80 set |
| CfgTp5.ValidMeans | include/ublox/message/CfgTp5.h:37-128 | valid exactly when tpIdx and version are at most 1, reserved1 is 0, gridUtcGnss at most 4, syncMode at most 1 and the 18 reserved bits 0 |
| CfgTp5.FlagsValid | include/ublox/message/CfgTp5.h:95-126 | flags is valid exactly when gridUtcGnss is at most 4, syncMode at most 1 and the reserved member 0 |
| CfgTp5.DecodeLength | include/ublox/message/CfgTp5.h:138-150 | decoding succeeds exactly when 32 bytes are there, and then consumes 32 |
| CfgTp5.EncodeLength | include/ublox/message/CfgTp5.h:138-150 | the encoding is always 32 bytes |
| CfgTp5.RoundTrip | include/ublox/message/CfgTp5.h:138-150 | decoding an encoding gives back every field, whatever the message held before |
| CfgTp5.OutOfRangeDecodes | include/ublox/message/CfgTp5.h:95-117 | a gridUtcGnss above 4 or a syncMode above 1 still decodes back unchanged, and the message is not valid |
| CfgTp5.DecodeLayout | include/ublox/message/CfgTp5.h:37-128 | a decode of at least 32 bytes takes tpIdx from byte 0, version from byte 1, reserved1 from bytes 2-3, the signed delays from 4-7, the periods and ratios from 8-23, userConfigDelay from 24-27 and flagsLow, gridUtcGnss, syncMode and reserved from the 7, 4, 3 and 18 bit groups of bytes 28-31 |
| CfgTp5.DefaultValid | include/ublox/message/CfgTp5.h:138-150 | the all-zero message fits the wire and is valid |
| CfgPrtPollPort.PortIdsSorted | include/ublox/message/CfgPrtPollPort.h:40-45 | the validator's table is in ascending order |
| CfgPrtPollPort.PortIdValid | include/ublox/message/CfgPrtPollPort.h:35-51 | defines the portID validator as the lower-bound search over the table DDC, UART, USB, SPI followed by the equality test |
| CfgPrtPollPort.PortIdValidIff | include/ublox/message/CfgPrtPollPort.h:40-49 | the validator accepts a value exactly when it is DDC, UART, USB or SPI |
| CfgPrtPollPort.BetweenEntriesRejected | include/ublox/message/CfgPrtPollPort.h:48-49 | 2 lies between UART and USB: the search lands on USB, so 2 is rejected |
| CfgPrtPollPort.PastEndRejected | include/ublox/message/CfgPrtPollPort.h:49 | a value above SPI sends the search to the end of the table and is rejected |
| CfgPrtPollPort.SchemaFacts | include/ublox/message/CfgPrtPollPort.h:62-64 | the schema has exactly one field, portID, one byte long |
| CfgPrtPollPort.WellSizedFits | include/ublox/message/CfgPrtPollPort.h:54-59 | portID fits the wire exactly when it is an unsigned byte |
| CfgPrtPollPort.Valid | include/ublox/message/CfgPrtPollPort.h:54-59 | defines message validity as the validity of its only field, portID |
| CfgPrtPollPort.Encode | include/ublox/message/CfgPrtPollPort.h:62-64 | defines the encoding as portID's one-byte image |
| CfgPrtPollPort.Decode | include/ublox/message/CfgPrtPollPort.h:62-64 | defines the read as portID's one-byte field read into the current message |
| CfgPrtPollPort.ValidIff | include/ublox/message/CfgPrtPollPort.h:54-59 | the message is valid exactly when its portID passes the validator, i.e. is one of the four ports |
| CfgPrtPollPort.DecodeMeans | include/ublox/message/CfgPrtPollPort.h:62-64 | decoding succeeds exactly when a byte is there and takes it as portID; otherwise the message is unchanged |
| CfgPrtPollPort.RoundTrip | include/ublox/message/CfgPrtPollPort.h:62-64 | decoding the encoding gives the port back after one byte |

## Left out

- Several headers that define field widths, ranges and defaults are not part of this model: `field/nav.h`, `field/rxm.h`, `field/cfg.h`, `field/common.h`, `CfgPrt.h` and the COMMS library. The widths are taken from the UBX layout of these messages:
  - NAV-PVT is 92 bytes, with the tail at bytes 84 to 91.
  - RXM-ALM's `svid`, `week` and data words are unsigned 32-bit.
  - `tpIdx` is an unsigned byte with the range 0..1.
  - `portID` is an unsigned byte.
  - The `CfgPrt_PortId` values DDC=0, UART=1, USB=3 and SPI=4 are assumed to be the UBX port numbers, since `CfgPrt.h` defines them. `CfgPrtPollPort.PortIdsSorted`, `CfgPrtPollPort.PortIdValidIff` and `CfgPrtPollPort.BetweenEntriesRejected` (2 as the gap between UART and USB) depend on these values.
- Every NAV-PVT field whose type comes from `field/nav.h` (`year`, `month`, `day`, `hour`, `min`, `sec`, `nano`, `fixType`, `numSV`, `carrSoln` and the rest) has whatever range that header gives it, and that header is not part of this model. Those fields are modelled without a range check, so validity here covers only the checks NavPvt.h declares itself.
- `Field.ReadAll`: when the bytes run out part way through a fixed-size array, every element keeps its old value and none is overwritten. The COMMS array-list read that decides this is not part of this model, so all-or-nothing is an assumption about that library. `RxmAlm.DecodeDataTooShort` rests on the same assumption for the almanac data words.
- `CfgTp5.WellSized`, `CfgTp5.FlagsLowReservedClear` and `NavPvt.FlagsChecks`: a bitfield member is held within its declared bit width, whereas the library stores it in a whole byte. A set reserved bit above the width cannot be represented: 0x80 of `flagsLow` in CFG-TP5, or the 0xfe bits above `headVehValid` in NAV-PVT. Those reserved-bit checks therefore hold by construction rather than being checked on a value.
- Reserved fields (`res2`, `res4` and the 18-bit flags member) are modelled as fields that must be zero to be valid.
- Scaling ratios and units (degrees, nanoseconds, millimetres per second) are presentation only. The model keeps the raw integers.
- Message-ID dispatch, framing, checksums and serial I/O belong to the transport layer and are outside the message layer.
- The GUI plugin's property maps and display names, and the poll messages without fields, are not modelled.
- `CfgPrtPollPort.PortIdValid`: the validator takes its field by const reference. Being a Dafny function, it cannot change the field, so that property needs no separate statement.
- NAV-PVT and RXM-ALM state is held as a sequence of field values, one per schema entry, rather than as one typed member per field.
- `Message.ReadRange` models the cursor loop over the fields. The recursion of the library's tuple machinery it stands for is not modelled separately.
- Error statuses other than `Success` and `NotEnoughData` cannot arise from these fixed-width reads and are not modelled.
